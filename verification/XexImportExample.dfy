/** Two small files that the parser of src/xex_inspect.cpp accepts: one import library named "k" with
    one function import of ordinal 5, and, in the second, a variable import of ordinal 6 whose
    record lies inside that function's stub. */
module XexImportExample {
  import opened Bytes
  import opened ModuleContract
  import opened Patches
  import opened XexHeader
  import opened XexImportNames
  import opened XexImportTable

  /** The file's nonzero words, by offset. */
  function FileWordAt(third: bool, at: nat): u32 {
    match at
    case 0x00 => 0x5845_5832  // "XEX2"
    case 0x08 => if third then 0x80 else 0x7C  // header size
    case 0x10 => 0x80  // the security header's offset
    case 0x14 => 2  // optional headers
    case 0x18 => 0x0000_03FF  // the file format ...
    case 0x1C => 0x28  // ... is here
    case 0x20 => 0x0001_03FF  // the import descriptor ...
    case 0x24 => 0x3C  // ... is here
    case 0x28 => 0x14  // file format size; neither encrypted nor compressed
    case 0x3C => if third then 0x44 else 0x40  // descriptor size
    case 0x40 => 4  // string bytes
    case 0x44 => 1  // libraries
    case 0x48 => 0x6B00_0000  // "k"
    case 0x4C => if third then 0x34 else 0x30  // library size
    case 0x70 => if third then 3 else 2  // name index 0, and the number of records
    case 0x74 => 0x1000
    case 0x78 => 0x1004
    case 0x7C => if third then 0x1008 else 0
    case 0x80 => 0x184  // security header size
    case 0x84 => 20  // image size
    case 0x190 => 0x1000  // load address
    case _ => 0
  }

  function File(third: bool): (file: seq<byte>)
    ensures |file| == 0x204
  {
    seq(0x204, k requires 0 <= k => Be32(FileWordAt(third, k / 4 * 4))[k % 4])
  }

  function Geometry(third: bool): HeaderGeometry {
    HeaderGeometry(if third then 0x80 else 0x7C, 2)
  }

  function Header(third: bool): (header: seq<byte>)
    ensures |header| == Geometry(third).size
  {
    File(third)[..Geometry(third).size]
  }

  function Image(): (image: seq<byte>)
    ensures |image| == 20
  {
    [0, 0, 0, 5, 1, 0, 0, 5, 0, 0, 0, 6, 0, 0, 0, 0, 0, 0, 0, 0]
  }

  function LibraryTable(third: bool): Table {
    Table(0x4C, if third then 0x80 else 0x7C, [[0x6B]])
  }

  const BOUNDS := ImageBounds(0x1000, 20)
  const VARIABLE := Record(5, 0x1000, 5, false)
  const THUNK := Record(5, 0x1004, 0x0100_0005, true)
  const INSIDE := Record(6, 0x1008, 6, false)

  function ExampleRecordList(third: bool): seq<Record> {
    if third then [VARIABLE, THUNK, INSIDE] else [VARIABLE, THUNK]
  }

  function ExampleGroupList(third: bool): seq<Group> {
    if third then [FunctionGroup(VARIABLE, THUNK), VariableGroup(INSIDE)] else [FunctionGroup(VARIABLE, THUNK)]
  }

  lemma FileWord(third: bool, at: nat)
    requires at % 4 == 0 && at + 4 <= 0x204
    ensures ReadBe32(File(third), at) == FileWordAt(third, at)
    ensures ReadBe16(File(third), at) == FileWordAt(third, at) / 0x1_0000
    ensures ReadBe16(File(third), at + 2) == FileWordAt(third, at) % 0x1_0000
    ensures File(third)[at..at + 4] == Be32(FileWordAt(third, at))
  {
    var word := FileWordAt(third, at);
    hide FileWordAt, Be32;
    forall k | 0 <= k < 4
      ensures File(third)[at + k] == Be32(word)[k]
    {
      assert (at + k) / 4 * 4 == at && (at + k) % 4 == k;
    }
    assert File(third)[at..at + 4] == Be32(word);
    WordRoundTrip(word);
    hide File;
    WordHalves(word);
  }

  lemma WordHalves(word: u32)
    ensures Word(0, 0, Be32(word)[0], Be32(word)[1]) == word / 0x1_0000
    ensures Word(0, 0, Be32(word)[2], Be32(word)[3]) == word % 0x1_0000
  {
    var q1, q2, q3 := word / 0x100, word / 0x1_0000, word / 0x100_0000;
    assert word == 0x100 * q1 + word % 0x100;
    assert q1 == 0x100 * q2 + q1 % 0x100;
    assert q2 == 0x100 * q3 + q2 % 0x100;
    assert q3 % 0x100 == q3;
    assert word % 0x1_0000 == word - 0x1_0000 * q2;
  }

  lemma HeaderWord(third: bool, at: nat)
    requires at % 4 == 0 && at + 4 <= Geometry(third).size
    ensures ReadBe32(Header(third), at) == FileWordAt(third, at)
    ensures ReadBe16(Header(third), at) == FileWordAt(third, at) / 0x1_0000
    ensures ReadBe16(Header(third), at + 2) == FileWordAt(third, at) % 0x1_0000
    ensures Header(third)[at..at + 4] == Be32(FileWordAt(third, at))
  {
    FileWord(third, at);
    hide FileWordAt, Word, File, Be32;
    assert Header(third)[at..at + 4] == File(third)[at..at + 4];
  }

  // ---- The file is acceptable ----

  lemma FilePrefix(third: bool)
    ensures ReadBe32(File(third), 0) == XEX2 && ReadBe32(File(third), 8) == Geometry(third).size
    ensures ReadBe32(File(third), 0x10) == 0x80 && ReadBe32(File(third), 0x14) == 2
  {
    hide File, ReadBe32, ReadBe16;
    FileWord(third, 0);
    FileWord(third, 8);
    FileWord(third, 0x10);
    FileWord(third, 0x14);
  }

  lemma FileSecurity(third: bool)
    ensures SecurityAcceptable(File(third), 0x80)
  {
    hide File, ReadBe32, ReadBe16;
    FileSecurityWords(third);
  }

  lemma FileSecurityWords(third: bool)
    ensures ReadBe32(File(third), 0x80) == 0x184 && ReadBe32(File(third), 0x84) == 20
    ensures ReadBe32(File(third), 0x190) == 0x1000 && ReadBe32(File(third), 0x200) == 0
  {
    hide File, ReadBe32, ReadBe16;
    FileWord(third, 0x80);
    FileWord(third, 0x84);
    FileWord(third, 0x190);
    FileWord(third, 0x200);
  }

  lemma FileKeyWords(third: bool)
    ensures ReadBe32(File(third), 0x18) == FILE_FORMAT_KEY && ReadBe32(File(third), 0x1C) == 0x28
    ensures ReadBe32(File(third), 0x20) == IMPORTS_KEY && ReadBe32(File(third), 0x24) == 0x3C
  {
    hide File, ReadBe32, ReadBe16;
    FileWord(third, 0x18);
    FileWord(third, 0x1C);
    FileWord(third, 0x20);
    FileWord(third, 0x24);
  }

  lemma FileFormatLookup(third: bool)
    ensures Lookup(File(third), FILE_FORMAT_KEY, Geometry(third)) == Some(OptionalHeader(FILE_FORMAT_KEY, 0x28, 0x28, false))
  {
    hide File, ReadBe32, Lookup, LookupFrom;
    FileKeyWords(third);
    assert KeyAt(File(third), FILE_FORMAT_KEY, 0);
    FirstEntryDecides(File(third), FILE_FORMAT_KEY, Geometry(third), 0);
  }

  lemma FileFormatWords(third: bool)
    ensures ReadBe32(File(third), 0x28) == 0x14
    ensures ReadBe16(File(third), 0x2C) == 0 && ReadBe16(File(third), 0x2E) == 0
  {
    hide File, ReadBe32, ReadBe16;
    FileWord(third, 0x28);
    FileWord(third, 0x2C);
  }

  /** ValidateHeader accepts the file, with the geometry the parse is given. */
  lemma FileIsAcceptable(third: bool)
    ensures Acceptable(File(third))
    ensures Geometry(third) == HeaderGeometry(ReadBe32(File(third), 8), ReadBe32(File(third), 0x14))
    ensures Header(third) == File(third)[..Geometry(third).size]
  {
    hide File, ReadBe32, ReadBe16, Lookup, SecurityAcceptable;
    FilePrefix(third);
    FileSecurity(third);
    FileFormatLookup(third);
    FileFormatWords(third);
  }

  // ---- The descriptor ----

  lemma ExampleDescriptorWords(third: bool)
    ensures ReadBe32(Header(third), 0x3C) == (if third then 0x44 else 0x40)
    ensures ReadBe32(Header(third), 0x40) == 4 && ReadBe32(Header(third), 0x44) == 1
  {
    hide Header, ReadBe32, ReadBe16;
    HeaderWord(third, 0x3C);
    HeaderWord(third, 0x40);
    HeaderWord(third, 0x44);
  }

  lemma ExampleKeyWords(third: bool)
    ensures ReadBe32(Header(third), 0x18) == FILE_FORMAT_KEY
    ensures ReadBe32(Header(third), 0x20) == IMPORTS_KEY && ReadBe32(Header(third), 0x24) == 0x3C
  {
    hide Header, ReadBe32, ReadBe16;
    HeaderWord(third, 0x18);
    HeaderWord(third, 0x20);
    HeaderWord(third, 0x24);
  }

  lemma ExampleLookup(third: bool)
    ensures Lookup(Header(third), IMPORTS_KEY, Geometry(third)) == Some(OptionalHeader(IMPORTS_KEY, 0x3C, 0x3C, false))
  {
    hide Header, ReadBe32, Lookup, LookupFrom;
    ExampleKeyWords(third);
    assert KeyAt(Header(third), IMPORTS_KEY, 1) && !KeyAt(Header(third), IMPORTS_KEY, 0);
    FirstEntryDecides(Header(third), IMPORTS_KEY, Geometry(third), 1);
  }

  lemma ExampleDescriptor(third: bool)
    ensures DescriptorOf(Header(third), Geometry(third)) == Some(Descriptor(0x3C, if third then 0x44 else 0x40, 4, 1))
  {
    hide Header, ReadBe32, Lookup;
    ExampleLookup(third);
    ExampleDescriptorWords(third);
  }

  lemma ExampleNames(third: bool)
    ensures Names(Header(third), 0x48, 0x4C, 1) == Some([[0x6B]])
  {
    hide Header, Names, CString, BaseName, Aligned, EncodeName, EncodeNames, BaseNames, XexImportNames.AllFormed, StandsAt;
    var entry := Padded([0x6B], [0, 0]);
    ExampleEntry();
    ExampleString(third);
    EncodingUnfolds(entry, []);
    assert [entry] + [] == [entry];
    NoEntries();
    assert EncodeName(entry) + [] == EncodeName(entry);
    assert [BaseName([0x6B])] + [] == [[0x6B]];
    NamesOfEncoding(Header(third), 0x48, 0x4C, [entry]);
  }

  lemma NoEntries()
    ensures EncodeNames([]) == [] && BaseNames([]) == []
  {
  }

  lemma ExampleEntry()
    ensures BaseName([0x6B]) == [0x6B]
    ensures EncodeName(Padded([0x6B], [0, 0])) == [0x6B, 0, 0, 0] && XexImportNames.AllFormed([Padded([0x6B], [0, 0])])
  {
    hide BaseName;
    ExampleBaseName();
  }

  lemma ExampleBaseName()
    ensures BaseName([0x6B]) == [0x6B]
  {
    var name: text := [0x6B];
    assert name[..0] == [];
    assert BaseName(name) == BaseName(name[..0]) + [name[0]];
  }

  lemma ExampleString(third: bool)
    ensures StandsAt(Header(third), 0x48, [0x6B, 0, 0, 0])
  {
    hide Header, Be32, ReadBe32, ReadBe16;
    HeaderWord(third, 0x48);
    NameWord();
  }

  lemma NameWord()
    ensures Be32(0x6B00_0000) == [0x6B, 0, 0, 0]
  {
  }

  lemma ExampleLibrary(third: bool)
    ensures LibraryAt(Header(third), LibraryTable(third), 0x4C) ==
            Some((if third then 0x34 else 0x30, [0x6B], if third then 3 else 2))
  {
    hide Header, ReadBe32, ReadBe16;
    ExampleLibraryWords(third);
  }

  lemma ExampleLibraryWords(third: bool)
    ensures ReadBe32(Header(third), 0x4C) == if third then 0x34 else 0x30
    ensures ReadBe16(Header(third), 0x70) == 0 && ReadBe16(Header(third), 0x72) == if third then 3 else 2
  {
    hide Header, ReadBe32, ReadBe16;
    HeaderWord(third, 0x4C);
    HeaderWord(third, 0x70);
  }

  lemma ExampleRecordWords(third: bool)
    ensures ReadBe32(Header(third), 0x74) == 0x1000 && ReadBe32(Header(third), 0x78) == 0x1004
    ensures third ==> ReadBe32(Header(third), 0x7C) == 0x1008
  {
    hide Header, ReadBe32, ReadBe16;
    HeaderWord(third, 0x74);
    HeaderWord(third, 0x78);
    if third {
      HeaderWord(third, 0x7C);
    }
  }

  lemma ExampleRecords(third: bool)
    ensures Records(Header(third), Image(), BOUNDS, 0x74, |ExampleRecordList(third)|) == Some(ExampleRecordList(third))
  {
    hide Header, ReadBe32, Records, Image, RecordAt;
    ExampleRecordsAt(third);
    TwoRecords(Header(third), Image(), BOUNDS, 0x74, VARIABLE, THUNK);
    if third {
      OneMoreRecord(Header(third), Image(), BOUNDS, 0x74, [VARIABLE, THUNK], INSIDE);
      assert [VARIABLE, THUNK] + [INSIDE] == [VARIABLE, THUNK, INSIDE];
    }
  }

  lemma ExampleRecordsAt(third: bool)
    ensures RecordAt(Header(third), Image(), BOUNDS, 0x74) == Some(VARIABLE)
    ensures RecordAt(Header(third), Image(), BOUNDS, 0x78) == Some(THUNK)
    ensures third ==> RecordAt(Header(third), Image(), BOUNDS, 0x7C) == Some(INSIDE)
  {
    hide Header, ReadBe32, Image;
    ExampleRecordWords(third);
    ExampleWords();
  }

  lemma ExampleWords()
    ensures ReadBe32(Image(), 0) == 5 && ReadBe32(Image(), 4) == 0x0100_0005 && ReadBe32(Image(), 8) == 6
  {
  }

  lemma TwoRecords(header: seq<byte>, image: seq<byte>, bounds: ImageBounds, table: nat, first: Record, second: Record)
    requires HasBytes(header, table, 8) && |image| == bounds.size
    requires RecordAt(header, image, bounds, table) == Some(first)
    requires RecordAt(header, image, bounds, table + 4) == Some(second)
    ensures Records(header, image, bounds, table, 2) == Some([first, second])
  {
    hide RecordAt;
    assert Records(header, image, bounds, table, 0) == Some([]);
    assert Records(header, image, bounds, table, 1) == Some([] + [first]);
    assert [] + [first] + [second] == [first, second];
  }

  lemma OneMoreRecord(header: seq<byte>, image: seq<byte>, bounds: ImageBounds, table: nat, records: seq<Record>, last: Record)
    requires HasBytes(header, table, 4 * (|records| + 1)) && |image| == bounds.size
    requires Records(header, image, bounds, table, |records|) == Some(records)
    requires RecordAt(header, image, bounds, table + 4 * |records|) == Some(last)
    ensures Records(header, image, bounds, table, |records| + 1) == Some(records + [last])
  {
    hide RecordAt;
  }

  lemma ExampleGroups(third: bool)
    ensures Groups(ExampleRecordList(third), BOUNDS) == Some(ExampleGroupList(third))
  {
    var first, second := FunctionGroup(VARIABLE, THUNK), VariableGroup(INSIDE);
    assert [first][..0] == [];
    assert Flatten([first]) == Flatten([]) + GroupRecords(first);
    assert [first, second][..1] == [first];
    assert Flatten([first, second]) == Flatten([first]) + GroupRecords(second);
    assert ExampleRecordList(true) == [VARIABLE, THUNK] + [INSIDE];
    GroupingIsUnique(ExampleRecordList(third), BOUNDS, ExampleGroupList(third));
  }

  /** A descriptor whose one library ends where it does. */
  lemma OneLibrary(header: seq<byte>, image: seq<byte>, geometry: HeaderGeometry, bounds: ImageBounds,
                   d: Descriptor, names: seq<text>)
    requires |image| == bounds.size && geometry.size <= |header|
    requires DescriptorOf(header, geometry) == Some(d) && d.libraryCount == 1
    requires var strings := d.offset + IMPORT_HEADER_MINIMUM;
             Names(header, strings, strings + d.stringSize as int, 1) == Some(names)
    requires var parsed := Libraries(header, image, bounds, TableOf(d, names), 1);
             parsed.Some? && parsed.value.cursor == d.offset + d.optionSize
    ensures Imports(header, image, geometry, bounds) == Libraries(header, image, bounds, TableOf(d, names), 1)
  {
    hide DescriptorOf, Names, Libraries;
  }

  lemma FirstLibrary(header: seq<byte>, image: seq<byte>, bounds: ImageBounds, table: Table, library: text,
                     records: seq<Record>, groups: seq<Group>)
    requires |image| == bounds.size && table.start <= table.end <= |header| && |records| <= 0xFFFF
    requires LibraryAt(header, table, table.start) == Some((table.end - table.start, library, |records|))
    requires HasBytes(header, table.start + IMPORT_LIBRARY_MINIMUM, 4 * |records|)
    requires Records(header, image, bounds, table.start + IMPORT_LIBRARY_MINIMUM, |records|) == Some(records)
    requires Groups(records, bounds) == Some(groups)
    ensures var parsed := Libraries(header, image, bounds, table, 1);
            && parsed.Some? && parsed.value.cursor == table.end && parsed.value.records == records
            && parsed.value.imports == ImportsOf(groups, library)
  {
    hide *;
    NoLibraries(header, image, bounds, table);
    LibrariesContinue(header, image, bounds, table, 0);
    NextLibraryIs(header, bounds, table, Parsed(table.start, [], image, []), library, records, groups);
  }

  lemma NextLibraryIs(header: seq<byte>, bounds: ImageBounds, table: Table, p: Parsed, library: text,
                      records: seq<Record>, groups: seq<Group>)
    requires |p.image| == bounds.size && p.cursor <= table.end <= |header| && |records| <= 0xFFFF
    requires p.records == [] && p.imports == []
    requires LibraryAt(header, table, p.cursor) == Some((table.end - p.cursor, library, |records|))
    requires HasBytes(header, p.cursor + IMPORT_LIBRARY_MINIMUM, 4 * |records|)
    requires Records(header, p.image, bounds, p.cursor + IMPORT_LIBRARY_MINIMUM, |records|) == Some(records)
    requires Groups(records, bounds) == Some(groups)
    ensures var next := NextLibrary(header, bounds, table, p);
            && next.Some? && next.value.cursor == table.end && next.value.records == records
            && next.value.imports == ImportsOf(groups, library)
  {
    hide LibraryAt, Records, Groups, Rewrite, ImportsOf, AllPlaced;
    NothingBefore(records);
    NothingBefore(ImportsOf(groups, library));
  }

  lemma NothingBefore<T>(s: seq<T>)
    ensures [] + s == s
  {
  }

  lemma ExampleParses(third: bool)
    ensures var parsed := Imports(Header(third), Image(), Geometry(third), BOUNDS);
            && parsed.Some? && parsed.value.records == ExampleRecordList(third)
            && parsed.value.imports == ImportsOf(ExampleGroupList(third), [0x6B])
  {
    hide Header, Image, DescriptorOf, Names, LibraryAt, Records, Groups, Imports, ImportsOf, ExampleGroupList, Libraries;
    ExampleDescriptor(third);
    ExampleNames(third);
    ExampleLibrary(third);
    ExampleRecords(third);
    ExampleGroups(third);
    FirstLibrary(Header(third), Image(), BOUNDS, LibraryTable(third), [0x6B], ExampleRecordList(third), ExampleGroupList(third));
    OneLibrary(Header(third), Image(), Geometry(third), BOUNDS, Descriptor(0x3C, if third then 0x44 else 0x40, 4, 1), [[0x6B]]);
  }

  /** The first file's header and descriptor are accepted, and its two records, which do not
      overlap, are one function import. */
  lemma ExampleIsAccepted()
    ensures Acceptable(File(false)) && Header(false) == File(false)[..Geometry(false).size]
    ensures var parsed := Imports(Header(false), Image(), Geometry(false), BOUNDS);
            && parsed.Some? && parsed.value.records == [VARIABLE, THUNK] && AllSeparate(parsed.value.records)
            && parsed.value.imports == [Import(Function, [0x6B], 5, 0x1004, 0x1000)]
  {
    FileIsAcceptable(false);
    hide Header, Image, Imports, File, Acceptable;
    ExampleParses(false);
    var group := FunctionGroup(VARIABLE, THUNK);
    assert [group][..0] == [];
    assert ImportsOf([group], [0x6B]) == ImportsOf([], [0x6B]) + [ImportOf(group, [0x6B])];
  }

  /** The second's are accepted too, and the function's stub does not survive the parse. */
  lemma OverlappingRecordIsAccepted()
    ensures Acceptable(File(true)) && Header(true) == File(true)[..Geometry(true).size]
    ensures var parsed := Imports(Header(true), Image(), Geometry(true), BOUNDS);
            && parsed.Some? && parsed.value.records == [VARIABLE, THUNK, INSIDE]
            && Placed(THUNK, BOUNDS) && !PlaceOf(THUNK, BOUNDS).Stands(parsed.value.image)
  {
    FileIsAcceptable(true);
    hide Header, Image, Imports, Places, Rewrite, Applied, File, Acceptable;
    ExampleParses(true);
    var d, table := AcceptedParts(Header(true), Image(), Geometry(true), BOUNDS);
    LibrariesAccumulate(Header(true), Image(), BOUNDS, table, d.libraryCount);
    var records := [VARIABLE, THUNK, INSIDE];
    RewriteIsApplied(Image(), BOUNDS, records);
    assert records[1] == THUNK && records[2] == INSIDE;
    LastPatchStands(Image(), Places(records, BOUNDS));
    PlacesAgreeUnlessTheyClash(THUNK, INSIDE, BOUNDS);
    var image := Imports(Header(true), Image(), Geometry(true), BOUNDS).value.image;
    if PlaceOf(THUNK, BOUNDS).Stands(image) {
      StandingPatchesAgree(image, PlaceOf(THUNK, BOUNDS), PlaceOf(INSIDE, BOUNDS));
      assert false;
    }
  }
}
