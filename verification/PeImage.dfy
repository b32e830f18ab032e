/** DescribeLoadedPeImage, src/pe_image.cpp, and what its layout is worth to ValidateModule. */
module PeImage {
  import opened Bytes
  import opened ModuleContract
  import opened Digest
  import opened ManifestCodec
  import opened ModuleValidation

  const POWERPC_BE_MACHINE: u16 := 0x01F2
  const PE32_MAGIC: u16 := 0x010B
  const SECTION_SIZE: nat := 40

  datatype PeError =
    | MissingDosHeader
    | InvalidNtHeader
    | UnsupportedImage
    | InvalidOptionalHeader
    | InvalidGeometry
    | SectionTableOutside
    | SectionOutside
    | SectionAddressOverflow
    | NoExecutableRange

  datatype PeSection = PeSection(name: text, address: u32, size: u32, code: bool)

  datatype PeImageLayout = PeImageLayout(identity: ImageIdentity, code: CodeRange, sections: seq<PeSection>)

  datatype PeHeader = PeHeader(imageBase: u32, entryRva: u32, sectionTable: nat, sectionCount: nat)

  /** The DOS, NT and optional headers, and the bounds of the section table. */
  function ParseHeader(source: seq<byte>): (header: Result<PeHeader, PeError>)
    ensures header.Ok? ==> 0 < header.value.sectionCount <= 96
    ensures header.Ok? ==> HasBytes(source, header.value.sectionTable, header.value.sectionCount * SECTION_SIZE)
    ensures header.Ok? ==> header.value.imageBase != 0 && header.value.imageBase % IMAGE_BASE_ALIGNMENT == 0
  {
    if !HasBytes(source, 0, 0x40) || source[0] != 'M' as int || source[1] != 'Z' as int then Err(MissingDosHeader) else
    var peOffset := ReadLe32(source, 0x3C);
    if !HasBytes(source, peOffset, 24) || ReadLe32(source, peOffset) != 0x4550 then Err(InvalidNtHeader) else
    var fileHeader: nat := peOffset + 4;
    var sectionCount := ReadLe16(source, fileHeader + 2);
    var optionalSize := ReadLe16(source, fileHeader + 16);
    if ReadLe16(source, fileHeader) != POWERPC_BE_MACHINE || sectionCount == 0 || sectionCount > 96 || optionalSize < 224 then
      Err(UnsupportedImage) else
    var optional: nat := fileHeader + 20;
    if !HasBytes(source, optional, optionalSize) || ReadLe16(source, optional) != PE32_MAGIC then Err(InvalidOptionalHeader) else
    var imageBase := ReadLe32(source, optional + 28);
    var imageSize := ReadLe32(source, optional + 56);
    var headerSize := ReadLe32(source, optional + 60);
    if imageBase == 0 || imageBase % IMAGE_BASE_ALIGNMENT != 0 || imageSize == 0 || headerSize == 0 || headerSize > imageSize
       || ReadLe32(source, optional + 32) == 0 || !HasBytes(source, 0, headerSize) then Err(InvalidGeometry) else
    if !HasBytes(source, optional + optionalSize, sectionCount * SECTION_SIZE) then Err(SectionTableOutside) else
    Ok(PeHeader(imageBase, ReadLe32(source, optional + 16), optional + optionalSize, sectionCount))
  }

  // What an accepted header satisfies, at offsets from the start of the file and of the NT header.

  predicate DosFormed(source: seq<byte>) {
    HasBytes(source, 0, 0x40) && StandsAt(source, 0, [0x4D, 0x5A])
  }

  function NtOffset(source: seq<byte>): nat
    requires DosFormed(source)
  {
    ReadLe32(source, 0x3C)
  }

  predicate NtFormed(source: seq<byte>, nt: nat) {
    HasBytes(source, nt, 24) && StandsAt(source, nt, [0x50, 0x45, 0, 0])
  }

  predicate Supported(source: seq<byte>, nt: nat)
    requires NtFormed(source, nt)
  {
    StandsAt(source, nt + 4, [0xF2, 0x01]) && 1 <= ReadLe16(source, nt + 6) <= 96 && 224 <= ReadLe16(source, nt + 20)
  }

  predicate OptionalFormed(source: seq<byte>, nt: nat)
    requires NtFormed(source, nt)
  {
    HasBytes(source, nt + 24, ReadLe16(source, nt + 20)) && StandsAt(source, nt + 24, [0x0B, 0x01])
  }

  predicate GeometryFormed(source: seq<byte>, nt: nat)
    requires HasBytes(source, nt, 24 + 224)
  {
    && ReadLe32(source, nt + 52) != 0 && ReadLe32(source, nt + 52) % 0x1_0000 == 0
    && ReadLe32(source, nt + 56) != 0
    && 1 <= ReadLe32(source, nt + 84) <= ReadLe32(source, nt + 80) && ReadLe32(source, nt + 84) <= |source|
  }

  predicate TableInside(source: seq<byte>, nt: nat)
    requires NtFormed(source, nt)
  {
    nt + 24 + ReadLe16(source, nt + 20) as int + ReadLe16(source, nt + 6) as int * 40 <= |source|
  }

  /** The three signatures and the machine, the counts, the geometry, and every table inside the image. */
  predicate HeaderFormed(source: seq<byte>) {
    && DosFormed(source)
    && var nt := NtOffset(source);
       && NtFormed(source, nt) && Supported(source, nt) && OptionalFormed(source, nt)
       && GeometryFormed(source, nt) && TableInside(source, nt)
  }

  /** Of these, in this order, `error` names the first that fails. */
  predicate HeaderRefused(source: seq<byte>, error: PeError) {
    if !DosFormed(source) then error == MissingDosHeader
    else
      var nt := NtOffset(source);
      if !NtFormed(source, nt) then error == InvalidNtHeader
      else if !Supported(source, nt) then error == UnsupportedImage
      else if !OptionalFormed(source, nt) then error == InvalidOptionalHeader
      else if !GeometryFormed(source, nt) then error == InvalidGeometry
      else !TableInside(source, nt) && error == SectionTableOutside
  }

  lemma WordStands(source: seq<byte>, offset: nat, a: byte, b: byte, c: byte, d: byte)
    requires HasBytes(source, offset, 4)
    ensures ReadLe32(source, offset) == Word(d, c, b, a) <==> StandsAt(source, offset, [a, b, c, d])
  {
    var part := source[offset..offset + 4];
    assert part == [source[offset], source[offset + 1], source[offset + 2], source[offset + 3]];
    WordParts(d, c, b, a);
    WordParts(source[offset + 3], source[offset + 2], source[offset + 1], source[offset]);
  }

  lemma HalfStands(source: seq<byte>, offset: nat, a: byte, b: byte)
    requires HasBytes(source, offset, 2)
    ensures ReadLe16(source, offset) == Word(0, 0, b, a) <==> StandsAt(source, offset, [a, b])
  {
    assert source[offset..offset + 2] == [source[offset], source[offset + 1]];
    WordParts(0, 0, b, a);
    WordParts(0, 0, source[offset + 1], source[offset]);
  }

  /** The header is accepted exactly when it is formed, and read at the format's offsets; otherwise
      the first thing wrong is reported. */
  lemma HeaderIsAcceptedIffFormed(source: seq<byte>)
    ensures ParseHeader(source).Ok? <==> HeaderFormed(source)
    ensures ParseHeader(source).Err? ==> HeaderRefused(source, ParseHeader(source).error)
    ensures HeaderFormed(source) ==>
              var nt: nat := ReadLe32(source, 0x3C);
              ParseHeader(source) == Ok(PeHeader(
                ReadLe32(source, nt + 52), ReadLe32(source, nt + 40),
                nt + 24 + ReadLe16(source, nt + 20) as int, ReadLe16(source, nt + 6)))
  {
    hide ReadLe32, ReadLe16, StandsAt;
    if HasBytes(source, 0, 0x40) {
      HalfStandsAtStart(source);
      var nt: nat := ReadLe32(source, 0x3C);
      if HasBytes(source, nt, 24) {
        WordStands(source, nt, 0x50, 0x45, 0, 0);
        HalfStands(source, nt + 4, 0xF2, 0x01);
        if HasBytes(source, nt + 24, 2) {
          HalfStands(source, nt + 24, 0x0B, 0x01);
        }
      }
    }
  }

  lemma HalfStandsAtStart(source: seq<byte>)
    requires HasBytes(source, 0, 2)
    ensures StandsAt(source, 0, [0x4D, 0x5A]) <==> source[0] == 'M' as int && source[1] == 'Z' as int
  {
    assert source[0..2] == [source[0], source[1]];
  }

  // ---- What a section record says ----

  /** `name` is the record's eight name bytes up to the first NUL. */
  predicate NameIs(source: seq<byte>, at: nat, name: text)
    requires HasBytes(source, at, 8)
  {
    && |name| <= 8 && name == source[at..at + |name|]
    && (forall k :: 0 <= k < |name| ==> name[k] != 0)
    && (|name| < 8 ==> source[at + |name|] == 0)
  }

  function RawSize(source: seq<byte>, at: nat): u32
    requires HasBytes(source, at, SECTION_SIZE)
  {
    ReadLe32(source, at + 16)
  }

  function RawOffset(source: seq<byte>, at: nat): u32
    requires HasBytes(source, at, SECTION_SIZE)
  {
    ReadLe32(source, at + 20)
  }

  predicate MarkedCode(source: seq<byte>, at: nat)
    requires HasBytes(source, at, SECTION_SIZE)
  {
    ReadLe32(source, at + 36) / 0x20 % 2 == 1
  }

  function RecordAt(header: PeHeader, index: nat): nat {
    header.sectionTable + index * SECTION_SIZE
  }

  /** The record's bytes are in the image and its guest range ends inside the address space. */
  predicate RecordFits(source: seq<byte>, imageBase: u32, at: nat)
    requires HasBytes(source, at, SECTION_SIZE)
  {
    HasBytes(source, RawOffset(source, at), RawSize(source, at))
    && imageBase as int + RawOffset(source, at) + RawSize(source, at) <= 0x1_0000_0000
  }

  /** `section` is what the record at `at` describes. */
  predicate SectionIs(source: seq<byte>, imageBase: u32, at: nat, section: PeSection)
    requires HasBytes(source, at, SECTION_SIZE)
  {
    && RecordFits(source, imageBase, at)
    && NameIs(source, at, section.name)
    && section.address == (imageBase as int + RawOffset(source, at)) % 0x1_0000_0000
    && section.size == RawSize(source, at)
    && section.code == MarkedCode(source, at)
  }

  predicate SectionsAre(source: seq<byte>, header: PeHeader, sections: seq<PeSection>)
    requires HasBytes(source, header.sectionTable, header.sectionCount * SECTION_SIZE) && |sections| <= header.sectionCount
  {
    forall i :: 0 <= i < |sections| ==> SectionIs(source, header.imageBase, RecordAt(header, i), sections[i])
  }

  // ---- The code range ----

  predicate Executable(section: PeSection) {
    section.code && section.size != 0
  }

  predicate Within(section: PeSection, begin: int, end: int) {
    begin <= section.address && section.address as int + section.size <= end
  }

  /** The smallest range that holds every non-empty code section. */
  predicate TightHull(sections: seq<PeSection>, begin: int, end: int) {
    && (exists i :: 0 <= i < |sections| && Executable(sections[i]) && sections[i].address == begin)
    && (exists i :: 0 <= i < |sections| && Executable(sections[i]) && sections[i].address as int + sections[i].size == end)
    && (forall i :: 0 <= i < |sections| && Executable(sections[i]) ==> Within(sections[i], begin, end))
  }

  lemma TightHullIsUnique(sections: seq<PeSection>, begin: int, end: int, begin': int, end': int)
    requires TightHull(sections, begin, end) && TightHull(sections, begin', end')
    ensures begin == begin' && end == end'
  {
    var i :| 0 <= i < |sections| && Executable(sections[i]) && sections[i].address == begin;
    var j :| 0 <= j < |sections| && Executable(sections[j]) && sections[j].address == begin';
    assert Within(sections[i], begin', end') && Within(sections[j], begin, end);
    var k :| 0 <= k < |sections| && Executable(sections[k]) && sections[k].address as int + sections[k].size == end;
    var l :| 0 <= l < |sections| && Executable(sections[l]) && sections[l].address as int + sections[l].size == end';
    assert Within(sections[k], begin', end') && Within(sections[l], begin, end);
  }

  // ---- The layout ----

  predicate EntryIs(source: seq<byte>, header: PeHeader, layout: PeImageLayout) {
    var entry := header.imageBase as int + header.entryRva;
    && header.imageBase as int + |source| <= 0x1_0000_0000
    && TightHull(layout.sections, layout.code.base, layout.code.End())
    && layout.code.Holds(entry) && entry % 4 == 0 && layout.identity.entryPoint == entry
  }

  /** `layout` is the loaded image's layout; nothing is the layout of an image refused. */
  ghost predicate Describes(source: seq<byte>, layout: PeImageLayout) {
    match ParseHeader(source)
    case Err(_) => false
    case Ok(header) =>
      && |layout.sections| == header.sectionCount
      && SectionsAre(source, header, layout.sections)
      && EntryIs(source, header, layout)
      && layout.identity.base == header.imageBase && layout.identity.size == |source|
      && layout.identity.sha256 == DigestOf(source)
  }

  lemma DescriptionIsUnique(source: seq<byte>, left: PeImageLayout, right: PeImageLayout)
    requires Describes(source, left) && Describes(source, right)
    ensures left == right
  {
    hide DigestOf, ParseHeader, TightHull;
    var header := ParseHeader(source).value;
    forall i | 0 <= i < header.sectionCount
      ensures left.sections[i] == right.sections[i]
    {
      SectionIsUnique(source, header.imageBase, RecordAt(header, i), left.sections[i], right.sections[i]);
    }
    assert left.sections == right.sections;
    TightHullIsUnique(left.sections, left.code.base, left.code.End(), right.code.base, right.code.End());
  }

  lemma SectionIsUnique(source: seq<byte>, imageBase: u32, at: nat, left: PeSection, right: PeSection)
    requires HasBytes(source, at, SECTION_SIZE)
    requires SectionIs(source, imageBase, at, left) && SectionIs(source, imageBase, at, right)
    ensures left == right
  {
    hide ReadLe32, NameIs;
    NameEnds(source, at, left.name);
    NameEnds(source, at, right.name);
    if |left.name| < |right.name| {
      NameGoesOn(source, at, right.name, |left.name|);
    } else if |right.name| < |left.name| {
      NameGoesOn(source, at, left.name, |right.name|);
    }
  }

  lemma NameEnds(source: seq<byte>, at: nat, name: text)
    requires HasBytes(source, at, 8) && NameIs(source, at, name)
    ensures |name| <= 8 && name == source[at..at + |name|]
    ensures |name| < 8 ==> source[at + |name|] == 0
  {
  }

  lemma NameGoesOn(source: seq<byte>, at: nat, name: text, k: nat)
    requires HasBytes(source, at, 8) && NameIs(source, at, name) && k < 8
    ensures k < |name| ==> source[at + k] != 0
  {
    if k < |name| {
      assert name[k] == source[at + k];
    }
  }

  /** A section's guest address loses bits only for an empty section at the very top of the
      address space, whose address becomes zero. */
  lemma SectionAddressIsExact(source: seq<byte>, imageBase: u32, at: nat, section: PeSection)
    requires HasBytes(source, at, SECTION_SIZE) && SectionIs(source, imageBase, at, section)
    ensures section.address == imageBase as int + RawOffset(source, at) <==>
            !(RawSize(source, at) == 0 && imageBase as int + RawOffset(source, at) == 0x1_0000_0000)
    ensures Executable(section) ==> Within(section, imageBase, imageBase as int + |source|)
  {
    hide ReadLe32, NameIs;
  }

  function TopByte(k: nat): byte {
    match k
    case 0x00 => 0x4D
    case 0x01 => 0x5A
    case 0x3C => 0x40
    case 0x40 => 0x50
    case 0x41 => 0x45
    case 0x44 => 0xF2
    case 0x45 => 0x01
    case 0x46 => 0x02
    case 0x54 => 0xE0
    case 0x58 => 0x0B
    case 0x59 => 0x01
    case 0x69 => 0x02
    case 0x76 => 0xFF
    case 0x77 => 0xFF
    case 0x78 => 0x01
    case 0x91 => 0x02
    case 0x95 => 0x02
    case 0x148 => 0x04
    case 0x14D => 0x02
    case 0x15C => 0x20
    case 0x176 => 0x01
    case _ => 0
  }

  /** One page at the top of the address space: four bytes of code, and an empty section at its end. */
  function TopImage(): (source: seq<byte>)
    ensures |source| == 0x1_0000
  {
    seq(0x1_0000, k requires 0 <= k => TopByte(k))
  }

  /** The empty section of that image starts at 2 to the 32nd, is accepted, and is reported at address zero. */
  lemma TopSectionAddressIsLost() returns (layout: PeImageLayout)
    ensures Describes(TopImage(), layout)
    ensures layout.identity.base == 0xFFFF_0000 && RawOffset(TopImage(), 0x160) == 0x1_0000
    ensures layout.sections == [PeSection([], 0xFFFF_0200, 4, true), PeSection([], 0, 0, false)]
  {
    hide DigestOf, Describes, TopImage, ParseHeader, ReadLe32, SectionIs;
    TopHeader();
    TopSections();
    var source := TopImage();
    var header := PeHeader(0xFFFF_0000, 0x200, 0x138, 2);
    var sections := [PeSection([], 0xFFFF_0200, 4, true), PeSection([], 0, 0, false)];
    layout := PeImageLayout(
      ImageIdentity(DigestOf(source), 0xFFFF_0000, 0x1_0000, 0xFFFF_0200), CodeRange(0xFFFF_0200, 4), sections);
    assert Executable(sections[0]) && !Executable(sections[1]);
    assert TightHull(sections, 0xFFFF_0200, 0xFFFF_0204);
    LayoutDescribes(source, header, layout);
  }

  lemma TopWord(at: nat)
    requires at + 4 <= 0x1_0000
    ensures ReadLe32(TopImage(), at) == Word(TopByte(at + 3), TopByte(at + 2), TopByte(at + 1), TopByte(at))
    ensures ReadLe16(TopImage(), at) == Word(0, 0, TopByte(at + 1), TopByte(at))
  {
    hide TopByte, Word;
  }

  lemma TopHeader()
    ensures ParseHeader(TopImage()) == Ok(PeHeader(0xFFFF_0000, 0x200, 0x138, 2))
  {
    hide TopImage, ReadLe32, ReadLe16;
    TopWord(0x3C);
    TopWord(0x40);
    TopWord(0x44);
    TopWord(0x46);
    TopWord(0x54);
    TopWord(0x58);
    TopGeometry();
    assert TopImage()[0] == 0x4D && TopImage()[1] == 0x5A by {
      TopStart();
    }
  }

  lemma TopStart()
    ensures TopImage()[0] == 0x4D && TopImage()[1] == 0x5A
  {
  }

  lemma TopGeometry()
    ensures ReadLe32(TopImage(), 0x68) == 0x200 && ReadLe32(TopImage(), 0x74) == 0xFFFF_0000
    ensures ReadLe32(TopImage(), 0x78) == 1
    ensures ReadLe32(TopImage(), 0x90) == 0x200 && ReadLe32(TopImage(), 0x94) == 0x200
  {
    hide TopImage, ReadLe32;
    TopWord(0x68);
    TopWord(0x74);
    TopWord(0x78);
    TopWord(0x90);
    TopWord(0x94);
  }

  lemma TopSections()
    ensures SectionIs(TopImage(), 0xFFFF_0000, 0x138, PeSection([], 0xFFFF_0200, 4, true))
    ensures SectionIs(TopImage(), 0xFFFF_0000, 0x160, PeSection([], 0, 0, false))
    ensures RawOffset(TopImage(), 0x160) == 0x1_0000
  {
    hide TopImage, ReadLe32, SectionIs;
    TopRecords();
    TopNames();
    NamelessSection(TopImage(), 0xFFFF_0000, 0x138, PeSection([], 0xFFFF_0200, 4, true), 0x200, 0x20);
    NamelessSection(TopImage(), 0xFFFF_0000, 0x160, PeSection([], 0, 0, false), 0x1_0000, 0);
  }

  lemma TopRecords()
    ensures ReadLe32(TopImage(), 0x148) == 4 && ReadLe32(TopImage(), 0x14C) == 0x200
    ensures ReadLe32(TopImage(), 0x15C) == 0x20
    ensures ReadLe32(TopImage(), 0x170) == 0 && ReadLe32(TopImage(), 0x174) == 0x1_0000
    ensures ReadLe32(TopImage(), 0x184) == 0
  {
    hide TopImage, ReadLe32;
    TopWord(0x148);
    TopWord(0x14C);
    TopWord(0x15C);
    TopWord(0x170);
    TopWord(0x174);
    TopWord(0x184);
  }

  lemma NamelessSection(source: seq<byte>, imageBase: u32, at: nat, section: PeSection, rawOffset: u32, characteristics: u32)
    requires HasBytes(source, at, SECTION_SIZE) && source[at] == 0 && section.name == []
    requires ReadLe32(source, at + 16) == section.size && ReadLe32(source, at + 20) == rawOffset
    requires ReadLe32(source, at + 36) == characteristics && section.code == (characteristics / 0x20 % 2 == 1)
    requires HasBytes(source, rawOffset, section.size)
    requires imageBase as int + rawOffset + section.size <= 0x1_0000_0000
    requires section.address == (imageBase as int + rawOffset) % 0x1_0000_0000
    ensures SectionIs(source, imageBase, at, section)
  {
    hide ReadLe32;
  }

  lemma TopNames()
    ensures TopImage()[0x138] == 0 && TopImage()[0x160] == 0
  {
  }

  // ---- Sealing ----

  /** The module a title without imports seals its layout into. */
  function Sealed(source: seq<byte>, layout: PeImageLayout): GuestModule {
    GuestModule(ModuleDescriptor(layout.identity, layout.code, 0, DigestOf(Encode([]))), source, [])
  }

  lemma CodeIsInsideTheImage(source: seq<byte>, layout: PeImageLayout)
    requires Describes(source, layout)
    ensures layout.code.size != 0
    ensures layout.identity.base <= layout.code.base && layout.code.End() <= layout.identity.base as int + layout.identity.size
  {
    hide DigestOf, ParseHeader, SectionIs;
    var header := ParseHeader(source).value;
    forall i | 0 <= i < |layout.sections| && Executable(layout.sections[i])
      ensures Within(layout.sections[i], header.imageBase, header.imageBase as int + |source|)
    {
      SectionAddressIsExact(source, header.imageBase, RecordAt(header, i), layout.sections[i]);
    }
  }

  /** A described layout fails validation only through its code alignment or an all-zero digest. */
  lemma SealedLayoutIsValid(source: seq<byte>, layout: PeImageLayout)
    requires Describes(source, layout)
    ensures Valid(Sealed(source, layout)) <==>
            layout.code.base % 4 == 0 && layout.code.size % 4 == 0 && HasDigest(DigestOf(source))
  {
    hide DigestOf, Encode, ParseHeader, SectionsAre, TightHull, HasDigest;
    CodeIsInsideTheImage(source, layout);
    var m := Sealed(source, layout);
    EmptyManifestIsValid(m.descriptor, m.importManifest);
  }

  // ---- The parser ----

  method SectionName(source: seq<byte>, at: nat) returns (name: text)
    requires HasBytes(source, at, 8)
    ensures NameIs(source, at, name)
  {
    name := [];
    for index := 0 to 8
      invariant |name| == index && name == source[at..at + index]
      invariant forall k :: 0 <= k < |name| ==> name[k] != 0
    {
      if source[at + index] == 0 {
        return;
      }
      name := name + [source[at + index]];
    }
  }

  /** `error` is the first thing wrong with the image. */
  ghost predicate Refuses(source: seq<byte>, error: PeError) {
    match ParseHeader(source)
    case Err(headerError) => error == headerError
    case Ok(header) =>
      if forall i :: 0 <= i < header.sectionCount ==> FitsAt(source, header, i) then error == NoExecutableRange
      else exists i :: 0 <= i < header.sectionCount && !FitsAt(source, header, i)
             && (forall j :: 0 <= j < i ==> FitsAt(source, header, j))
             && error == (if HasBytes(source, RawOffset(source, RecordAt(header, i)), RawSize(source, RecordAt(header, i)))
                          then SectionAddressOverflow else SectionOutside)
  }

  predicate FitsAt(source: seq<byte>, header: PeHeader, i: nat)
    requires HasBytes(source, header.sectionTable, header.sectionCount * SECTION_SIZE) && i < header.sectionCount
  {
    RecordFits(source, header.imageBase, RecordAt(header, i))
  }

  /** The running bounds of the code sections seen so far; begin starts at the top. */
  predicate Bounds(sections: seq<PeSection>, begin: int, end: int) {
    if exists i :: 0 <= i < |sections| && Executable(sections[i]) then TightHull(sections, begin, end)
    else begin == 0xFFFF_FFFF_FFFF_FFFF && end == 0
  }

  lemma BoundsGrow(sections: seq<PeSection>, begin: int, end: int, section: PeSection)
    requires Bounds(sections, begin, end)
    ensures !Executable(section) ==> Bounds(sections + [section], begin, end)
    ensures Executable(section) ==>
              Bounds(sections + [section], Min(begin, section.address), Max(end, section.address as int + section.size))
  {
    var grown := sections + [section];
    assert grown[|sections|] == section;
    assert forall i :: 0 <= i < |sections| ==> grown[i] == sections[i];
  }

  /** Accepts exactly the images that have a layout, and returns that layout. */
  method DescribeLoadedPeImage(source: seq<byte>) returns (layout: Result<PeImageLayout, PeError>)
    ensures layout.Ok? ==> Describes(source, layout.value)
    ensures layout.Err? ==> Refuses(source, layout.error) && forall l :: !Describes(source, l)
  {
    hide DigestOf, ParseHeader, TightHull, NameIs, Bounds, ReadLe32, Refuses, Describes;
    var parsed := ParseHeader(source);
    if parsed.Err? {
      HeaderRefuses(source);
      return Err(parsed.error);
    }
    var header := parsed.value;
    var sections: seq<PeSection> := [];
    var codeBegin, codeEnd := 0xFFFF_FFFF_FFFF_FFFF, 0;
    NoBounds();
    for index := 0 to header.sectionCount
      invariant |sections| == index && SectionsAre(source, header, sections)
      invariant Bounds(sections, codeBegin, codeEnd)
    {
      var at := header.sectionTable + index * 40;
      var rawSize, rawOffset := ReadLe32(source, at + 16), ReadLe32(source, at + 20);
      if !HasBytes(source, rawOffset, rawSize) {
        SectionRefuses(source, header, sections);
        return Err(SectionOutside);
      }
      var sectionAddress: int := header.imageBase as int + rawOffset;
      if sectionAddress + rawSize > 0x1_0000_0000 {
        SectionRefuses(source, header, sections);
        return Err(SectionAddressOverflow);
      }
      var name := SectionName(source, at);
      var section := PeSection(name, sectionAddress % 0x1_0000_0000, rawSize, ReadLe32(source, at + 36) / 0x20 % 2 != 0);
      BoundsGrow(sections, codeBegin, codeEnd, section);
      sections := sections + [section];
      if section.code && rawSize != 0 {
        codeBegin := Min(codeBegin, sectionAddress);
        codeEnd := Max(codeEnd, sectionAddress + rawSize);
      }
    }
    var imageEnd := header.imageBase as int + |source|;
    var entryPoint: int := header.imageBase as int + header.entryRva;
    BoundsAreSmall(source, header, sections, codeBegin, codeEnd);
    if imageEnd > 0x1_0000_0000 || codeBegin == 0xFFFF_FFFF_FFFF_FFFF || codeEnd <= codeBegin
       || entryPoint < codeBegin || entryPoint >= codeEnd || entryPoint % 4 != 0 {
      EntryRefuses(source, header, sections, codeBegin, codeEnd);
      return Err(NoExecutableRange);
    }
    var digest := HashBytes(source);
    layout := Ok(PeImageLayout(
      ImageIdentity(digest, header.imageBase, |source|, entryPoint),
      CodeRange(codeBegin, codeEnd - codeBegin), sections));
    LayoutDescribes(source, header, layout.value);
  }

  lemma NoBounds()
    ensures Bounds([], 0xFFFF_FFFF_FFFF_FFFF, 0)
  {
  }

  lemma HeaderRefuses(source: seq<byte>)
    requires ParseHeader(source).Err?
    ensures Refuses(source, ParseHeader(source).error) && forall l :: !Describes(source, l)
  {
    hide ParseHeader;
  }

  lemma SectionRefuses(source: seq<byte>, header: PeHeader, sections: seq<PeSection>)
    requires ParseHeader(source) == Ok(header) && |sections| < header.sectionCount
    requires SectionsAre(source, header, sections) && !FitsAt(source, header, |sections|)
    ensures forall l :: !Describes(source, l)
    ensures Refuses(source,
      if HasBytes(source, RawOffset(source, RecordAt(header, |sections|)), RawSize(source, RecordAt(header, |sections|)))
      then SectionAddressOverflow else SectionOutside)
  {
    hide ParseHeader, NameIs, ReadLe32, TightHull, Describes;
    var i: nat := |sections|;
    forall j | 0 <= j < |sections|
      ensures FitsAt(source, header, j)
    {
      assert SectionIs(source, header.imageBase, RecordAt(header, j), sections[j]);
    }
    forall l
      ensures !Describes(source, l)
    {
      if Describes(source, l) {
        DescribedSectionFits(source, header, l, i);
        assert false;
      }
    }
  }

  lemma DescribedSectionFits(source: seq<byte>, header: PeHeader, layout: PeImageLayout, i: nat)
    requires ParseHeader(source) == Ok(header) && i < header.sectionCount
    requires Describes(source, layout)
    ensures FitsAt(source, header, i)
  {
    hide ParseHeader, NameIs, ReadLe32, EntryIs, RecordFits, DigestOf;
    assert SectionIs(source, header.imageBase, RecordAt(header, i), layout.sections[i]);
  }

  /** The parsed sections and bounds are those of any layout of the same image. */
  lemma DescribedEntry(source: seq<byte>, header: PeHeader, sections: seq<PeSection>, begin: int, end: int, layout: PeImageLayout)
    requires ParseHeader(source) == Ok(header) && |sections| == header.sectionCount
    requires SectionsAre(source, header, sections) && Describes(source, layout)
    ensures header.imageBase as int + |source| <= 0x1_0000_0000
    ensures exists i :: 0 <= i < |sections| && Executable(sections[i])
    ensures TightHull(sections, begin, end) ==>
              begin <= header.imageBase as int + header.entryRva < end
              && (header.imageBase as int + header.entryRva) % 4 == 0
  {
    hide ParseHeader, SectionsAre, DigestOf, TightHull, Executable;
    SectionsAreUnique(source, header, sections, layout.sections);
    HullIsNotEmpty(sections, layout.code.base, layout.code.End());
    if TightHull(sections, begin, end) {
      TightHullIsUnique(sections, begin, end, layout.code.base, layout.code.End());
    }
  }

  lemma BoundsAreSmall(source: seq<byte>, header: PeHeader, sections: seq<PeSection>, begin: int, end: int)
    requires HasBytes(source, header.sectionTable, header.sectionCount * SECTION_SIZE) && |sections| <= header.sectionCount
    requires SectionsAre(source, header, sections) && Bounds(sections, begin, end)
    ensures begin != 0xFFFF_FFFF_FFFF_FFFF <==> exists i :: 0 <= i < |sections| && Executable(sections[i])
    ensures begin != 0xFFFF_FFFF_FFFF_FFFF ==> header.imageBase <= begin < end <= 0x1_0000_0000 && TightHull(sections, begin, end)
  {
    hide NameIs, ReadLe32;
    forall i | 0 <= i < |sections| && Executable(sections[i])
      ensures header.imageBase <= sections[i].address && sections[i].address as int + sections[i].size <= 0x1_0000_0000
    {
      assert SectionIs(source, header.imageBase, RecordAt(header, i), sections[i]);
    }
  }

  lemma EntryRefuses(source: seq<byte>, header: PeHeader, sections: seq<PeSection>, begin: int, end: int)
    requires ParseHeader(source) == Ok(header) && |sections| == header.sectionCount
    requires SectionsAre(source, header, sections)
    requires var entry := header.imageBase as int + header.entryRva;
             header.imageBase as int + |source| > 0x1_0000_0000
             || (forall i :: 0 <= i < |sections| ==> !Executable(sections[i]))
             || (TightHull(sections, begin, end) && (entry < begin || end <= entry || entry % 4 != 0))
    ensures Refuses(source, NoExecutableRange) && forall l :: !Describes(source, l)
  {
    hide ParseHeader, SectionIs, TightHull, Executable, Describes, RecordFits;
    forall i | 0 <= i < |sections|
      ensures FitsAt(source, header, i)
    {
      SectionFits(source, header.imageBase, RecordAt(header, i), sections[i]);
    }
    forall l
      ensures !Describes(source, l)
    {
      if Describes(source, l) {
        DescribedEntry(source, header, sections, begin, end, l);
        assert false;
      }
    }
  }

  lemma SectionFits(source: seq<byte>, imageBase: u32, at: nat, section: PeSection)
    requires HasBytes(source, at, SECTION_SIZE) && SectionIs(source, imageBase, at, section)
    ensures RecordFits(source, imageBase, at)
  {
    hide RecordFits;
  }

  lemma HullIsNotEmpty(sections: seq<PeSection>, begin: int, end: int)
    requires TightHull(sections, begin, end)
    ensures exists i :: 0 <= i < |sections| && Executable(sections[i])
  {
  }

  lemma SectionsAreUnique(source: seq<byte>, header: PeHeader, left: seq<PeSection>, right: seq<PeSection>)
    requires HasBytes(source, header.sectionTable, header.sectionCount * SECTION_SIZE)
    requires |left| == |right| <= header.sectionCount
    requires SectionsAre(source, header, left) && SectionsAre(source, header, right)
    ensures left == right
  {
    hide SectionIs;
    forall i | 0 <= i < |left|
      ensures left[i] == right[i]
    {
      SectionIsUnique(source, header.imageBase, RecordAt(header, i), left[i], right[i]);
    }
  }

  lemma LayoutDescribes(source: seq<byte>, header: PeHeader, layout: PeImageLayout)
    requires ParseHeader(source) == Ok(header)
    requires |layout.sections| == header.sectionCount && SectionsAre(source, header, layout.sections)
    requires EntryIs(source, header, layout)
    requires layout.identity.base == header.imageBase && layout.identity.size == |source|
    requires layout.identity.sha256 == DigestOf(source)
    ensures Describes(source, layout)
  {
    hide ParseHeader, DigestOf, SectionsAre, EntryIs;
  }
}
