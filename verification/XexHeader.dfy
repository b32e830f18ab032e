/** The checked XEX2 header, src/xex_inspect.cpp. */
module XexHeader {
  import opened Bytes

  const XEX2: u32 := 0x5845_5832
  const HEADER_PREFIX: nat := 0x18
  const SECURITY_PREFIX: nat := 0x184
  const PAGE_DESCRIPTOR_SIZE: nat := 0x18
  const FILE_FORMAT_MINIMUM: nat := 0x14
  const FILE_FORMAT_KEY: u32 := 0x0000_03FF

  datatype OptionalHeader = OptionalHeader(key: u32, value: u32, offset: nat, inlineValue: bool)

  datatype HeaderGeometry = HeaderGeometry(size: nat, count: nat) {
    /** The optional-header table lies inside the header. */
    predicate Fits() {
      0x18 + 8 * count <= size
    }
  }

  datatype HeaderError =
    | TooShort
    | NotXex2
    | TableExceedsSource
    | SecurityTruncated
    | PageDescriptorsExceedSource
    | ImageGeometryInvalid
    | NoFileFormat
    | FileFormatExceedsHeader
    | UnsupportedMode
    | NoWindow
    | NoPayload
    | PayloadMisaligned

  datatype Accepted = Accepted(header: HeaderGeometry, securityOffset: u32)

  predicate KeyAt(xex: seq<byte>, key: u32, index: nat) {
    HasBytes(xex, 0x18 + 8 * index, 8) && ReadBe32(xex, 0x18 + 8 * index) == key
  }

  /** Entry `index` of the optional-header table is the first with this key. */
  predicate IsFirst(xex: seq<byte>, key: u32, index: nat) {
    KeyAt(xex, key, index) && forall k :: 0 <= k < index ==> !KeyAt(xex, key, k)
  }

  /** What the entry at `index` says, or None if it points outside the header. */
  function EntryAt(xex: seq<byte>, key: u32, header: HeaderGeometry, index: nat): Option<OptionalHeader>
    requires HasBytes(xex, 0x18 + 8 * index, 8)
  {
    var offset := 0x18 + 8 * index;
    var value := ReadBe32(xex, offset + 4);
    if key % 0x100 == 0 || key % 0x100 == 1 then Some(OptionalHeader(key, value, offset + 4, true))
    else if value >= header.size || !HasBytes(xex, value, 4) then None
    else Some(OptionalHeader(key, value, value, false))
  }

  function LookupFrom(xex: seq<byte>, key: u32, header: HeaderGeometry, index: nat): Option<OptionalHeader>
    decreases header.count - index
  {
    if index >= header.count || !HasBytes(xex, 0x18 + 8 * index, 8) then None
    else if KeyAt(xex, key, index) then EntryAt(xex, key, header, index)
    else LookupFrom(xex, key, header, index + 1)
  }

  function Lookup(xex: seq<byte>, key: u32, header: HeaderGeometry): Option<OptionalHeader> {
    LookupFrom(xex, key, header, 0)
  }

  method FindOptional(xex: seq<byte>, key: u32, header: HeaderGeometry) returns (found: Option<OptionalHeader>)
    ensures found == Lookup(xex, key, header)
  {
    for index := 0 to header.count
      invariant Lookup(xex, key, header) == LookupFrom(xex, key, header, index)
    {
      var offset := HEADER_PREFIX + 8 * index;
      if !HasBytes(xex, offset, 8) {
        return None;
      }
      var candidate := ReadBe32(xex, offset);
      if candidate != key {
        continue;
      }
      var value := ReadBe32(xex, offset + 4);
      if key % 0x100 == 0 || key % 0x100 == 1 {
        return Some(OptionalHeader(key, value, offset + 4, true));
      }
      if value >= header.size || !HasBytes(xex, value, 4) {
        return None;
      }
      return Some(OptionalHeader(key, value, value, false));
    }
    found := None;
  }

  /** The first entry with a key decides, even when it is unusable and a later one is not. */
  lemma FirstEntryDecides(xex: seq<byte>, key: u32, header: HeaderGeometry, index: nat)
    requires index < header.count && IsFirst(xex, key, index)
    ensures Lookup(xex, key, header) == EntryAt(xex, key, header, index)
  {
    LookupSkips(xex, key, header, 0, index);
  }

  lemma {:induction false} LookupSkips(xex: seq<byte>, key: u32, header: HeaderGeometry, from: nat, index: nat)
    requires from <= index < header.count && IsFirst(xex, key, index)
    ensures LookupFrom(xex, key, header, from) == EntryAt(xex, key, header, index)
    decreases index - from
  {
    if from < index {
      assert !KeyAt(xex, key, from);
      LookupSkips(xex, key, header, from + 1, index);
    }
  }

  /** A found entry is the first with its key, and a non-inline one points at a word inside the header. */
  lemma FoundIsFirst(xex: seq<byte>, key: u32, header: HeaderGeometry) returns (index: nat)
    requires Lookup(xex, key, header).Some?
    ensures index < header.count && IsFirst(xex, key, index)
    ensures Lookup(xex, key, header) == EntryAt(xex, key, header, index)
  {
    index := 0;
    while !KeyAt(xex, key, index)
      invariant index < header.count
      invariant LookupFrom(xex, key, header, index) == Lookup(xex, key, header)
      invariant forall k :: 0 <= k < index ==> !KeyAt(xex, key, k)
      decreases header.count - index
    {
      index := index + 1;
    }
  }

  /** Entry `index` is the first with its key, and says this: a key whose low byte is 0 or 1 holds its
      value in the entry; any other key's value is an offset below the header's size, with a word there. */
  predicate EntryStands(xex: seq<byte>, key: u32, header: HeaderGeometry, index: nat, found: OptionalHeader) {
    var at := 0x18 + 8 * index;
    && index < header.count && at + 8 <= |xex|
    && ReadBe32(xex, at) == key
    && (forall k :: 0 <= k < index ==> !KeyAt(xex, key, k))
    && found.key == key && found.value == ReadBe32(xex, at + 4)
    && (found.inlineValue <==> key % 0x100 in {0, 1})
    && (found.inlineValue ==> found.offset == at + 4)
    && (!found.inlineValue ==> found.offset == found.value < header.size && found.offset + 4 <= |xex|)
  }

  /** A key is found exactly where the first entry that has it is usable. */
  lemma LookupFindsIffEntryStands(xex: seq<byte>, key: u32, header: HeaderGeometry, found: OptionalHeader)
    ensures Lookup(xex, key, header) == Some(found) <==>
            exists index: nat :: EntryStands(xex, key, header, index, found)
  {
    hide Lookup, ReadBe32;
    if Lookup(xex, key, header) == Some(found) {
      var index := FoundIsFirst(xex, key, header);
      assert EntryStands(xex, key, header, index, found);
    }
    if index: nat :| EntryStands(xex, key, header, index, found) {
      FirstEntryDecides(xex, key, header, index);
    }
  }

  /** The entry table of an accepted header is read without leaving the header bytes, so what
      looking a key up in the header alone finds, looking it up in the whole file finds too. */
  lemma {:induction false} LookupInPrefix(xex: seq<byte>, key: u32, header: HeaderGeometry, index: nat)
    requires header.Fits() && header.size <= |xex|
    requires LookupFrom(xex[..header.size], key, header, index).Some?
    ensures LookupFrom(xex, key, header, index) == LookupFrom(xex[..header.size], key, header, index)
    decreases header.count - index
  {
    if !KeyAt(xex[..header.size], key, index) {
      LookupInPrefix(xex, key, header, index + 1);
    }
  }

  /** Of what the whole file's lookup finds, the header alone finds exactly the entries that are
      inline or whose word ends inside the header: an offset in its last three bytes is lost. */
  lemma {:induction false} LookupsAgreeIff(xex: seq<byte>, key: u32, header: HeaderGeometry, index: nat)
    requires header.Fits() && header.size <= |xex| && LookupFrom(xex, key, header, index).Some?
    ensures var found := LookupFrom(xex, key, header, index).value;
            LookupFrom(xex[..header.size], key, header, index) == LookupFrom(xex, key, header, index)
            <==> found.inlineValue || found.offset + 4 <= header.size
    decreases header.count - index
  {
    if !KeyAt(xex, key, index) {
      LookupsAgreeIff(xex, key, header, index + 1);
    }
  }

  /** The security header's page descriptors and image geometry. */
  predicate SecurityAcceptable(xex: seq<byte>, offset: u32) {
    && HasBytes(xex, offset, 0x184)
    && 0x184 <= ReadBe32(xex, offset) <= |xex| - offset as int
    && HasBytes(xex, offset, 0x184 + ReadBe32(xex, offset + 0x180) as int * 0x18)
    && ReadBe32(xex, offset + 4) != 0 && ReadBe32(xex, offset + 0x110) != 0
    && ReadBe32(xex, offset + 0x110) as int + ReadBe32(xex, offset + 4) <= 0x1_0000_0000
  }

  /** The file-format descriptor: present, inside the header, in a supported mode. */
  predicate FileFormatAcceptable(xex: seq<byte>, header: HeaderGeometry) {
    match Lookup(xex, 0x3FF, header)
    case None => false
    case Some(format) =>
      && !format.inlineValue && HasBytes(xex, format.offset, 0x14)
      && 0x14 <= ReadBe32(xex, format.offset) && format.offset + ReadBe32(xex, format.offset) <= header.size
      && ReadBe16(xex, format.offset + 4) <= 1 && ReadBe16(xex, format.offset + 6) <= 2
      && (ReadBe16(xex, format.offset + 6) == 2 ==> ReadBe32(xex, format.offset + 8) != 0)
      && (ReadBe16(xex, format.offset + 4) == 1 ==> (|xex| - header.size) % 16 == 0)
  }

  /** Everything an accepted file satisfies: every table inside the bytes that hold
      it, an image inside the 32-bit address space, and a payload after the header. */
  predicate Acceptable(xex: seq<byte>) {
    && HasBytes(xex, 0, 0x18) && ReadBe32(xex, 0) == 0x5845_5832
    && var header := HeaderGeometry(ReadBe32(xex, 8), ReadBe32(xex, 0x14));
       && header.Fits() && header.size < |xex|
       && SecurityAcceptable(xex, ReadBe32(xex, 0x10))
       && FileFormatAcceptable(xex, header)
  }

  /** Of the conjuncts of Acceptable, in this order, `error` names the first that fails. */
  predicate Refused(xex: seq<byte>, error: HeaderError) {
    if !HasBytes(xex, 0, 0x18) then error == TooShort
    else if ReadBe32(xex, 0) != 0x5845_5832 then error == NotXex2
    else
      var header, security := HeaderGeometry(ReadBe32(xex, 8), ReadBe32(xex, 0x14)), ReadBe32(xex, 0x10);
      if !header.Fits() || header.size > |xex| then error == TableExceedsSource
      else if !SecurityAcceptable(xex, security) then SecurityRefused(xex, security, error)
      else if Lookup(xex, 0x3FF, header).None? then error == NoFileFormat
      else FileFormatRefused(xex, header, Lookup(xex, 0x3FF, header).value, error)
  }

  predicate SecurityRefused(xex: seq<byte>, offset: u32, error: HeaderError) {
    if !HasBytes(xex, offset, 0x184) then error == SecurityTruncated
    else if ReadBe32(xex, offset) < 0x184 || ReadBe32(xex, offset) > |xex| - offset as int
            || !HasBytes(xex, offset, 0x184 + ReadBe32(xex, offset + 0x180) as int * 0x18) then
      error == PageDescriptorsExceedSource
    else error == ImageGeometryInvalid
  }

  predicate FileFormatRefused(xex: seq<byte>, header: HeaderGeometry, format: OptionalHeader, error: HeaderError) {
    if format.inlineValue || !HasBytes(xex, format.offset, 0x14) then error == NoFileFormat
    else if ReadBe32(xex, format.offset) < 0x14
            || format.offset + ReadBe32(xex, format.offset) > header.size then error == FileFormatExceedsHeader
    else if ReadBe16(xex, format.offset + 4) > 1 || ReadBe16(xex, format.offset + 6) > 2 then error == UnsupportedMode
    else if ReadBe16(xex, format.offset + 6) == 2 && ReadBe32(xex, format.offset + 8) == 0 then error == NoWindow
    else if header.size == |xex| then error == NoPayload
    else error == PayloadMisaligned
  }

  method ValidateHeader(xex: seq<byte>) returns (result: Result<Accepted, HeaderError>)
    ensures result.Ok? <==> Acceptable(xex)
    ensures result.Err? ==> Refused(xex, result.error)
    ensures result.Ok? ==>
              result.value == Accepted(HeaderGeometry(ReadBe32(xex, 8), ReadBe32(xex, 0x14)), ReadBe32(xex, 0x10))
  {
    hide Lookup, ReadBe32, ReadBe16;
    if !HasBytes(xex, 0, HEADER_PREFIX) {
      return Err(TooShort);
    }
    if ReadBe32(xex, 0) != XEX2 {
      return Err(NotXex2);
    }
    var header := HeaderGeometry(ReadBe32(xex, 8), ReadBe32(xex, 0x14));
    var securityOffset: nat := ReadBe32(xex, 0x10);
    if header.size < HEADER_PREFIX || header.size > |xex| || header.count > (header.size - HEADER_PREFIX) / 8 {
      return Err(TableExceedsSource);
    }
    if !HasBytes(xex, securityOffset, SECURITY_PREFIX) {
      return Err(SecurityTruncated);
    }
    var securityHeaderSize := ReadBe32(xex, securityOffset);
    var pageCount := ReadBe32(xex, securityOffset + 0x180);
    var descriptorBytes := pageCount as int * PAGE_DESCRIPTOR_SIZE;
    if securityHeaderSize < SECURITY_PREFIX || !HasBytes(xex, securityOffset, SECURITY_PREFIX + descriptorBytes)
       || securityHeaderSize as int > |xex| - securityOffset {
      return Err(PageDescriptorsExceedSource);
    }
    var imageSize := ReadBe32(xex, securityOffset + 4);
    var loadAddress := ReadBe32(xex, securityOffset + 0x110);
    if imageSize == 0 || loadAddress == 0 || loadAddress as int + imageSize > 0x1_0000_0000 {
      return Err(ImageGeometryInvalid);
    }

    var fileFormat := FindOptional(xex, FILE_FORMAT_KEY, header);
    if fileFormat.None? || fileFormat.value.inlineValue
       || !HasBytes(xex, fileFormat.value.offset, FILE_FORMAT_MINIMUM) {
      return Err(NoFileFormat);
    }
    var offset := fileFormat.value.offset;
    ghost var index := FoundIsFirst(xex, FILE_FORMAT_KEY, header);
    assert offset < header.size;
    var fileInfoSize := ReadBe32(xex, offset);
    if fileInfoSize < FILE_FORMAT_MINIMUM || fileInfoSize > header.size - offset {
      return Err(FileFormatExceedsHeader);
    }
    var encryption := ReadBe16(xex, offset + 4);
    var compression := ReadBe16(xex, offset + 6);
    if encryption > 1 || compression > 2 {
      return Err(UnsupportedMode);
    }
    if compression == 2 && ReadBe32(xex, offset + 8) == 0 {
      return Err(NoWindow);
    }
    if header.size == |xex| {
      return Err(NoPayload);
    }
    if encryption == 1 && (|xex| - header.size) % 16 != 0 {
      return Err(PayloadMisaligned);
    }
    result := Ok(Accepted(header, securityOffset));
  }
}
