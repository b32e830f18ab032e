/** Import manifests, the byte stream they are hashed as, and its decoder. */
module ManifestCodec {
  import opened Bytes
  import opened ModuleContract
  import opened Fips180
  import opened Digest

  function KindCode(kind: ImportKind): u32 {
    match kind case Function => 0 case Variable => 1
  }

  function EncodeString(value: text): seq<byte> {
    Be32(|value| % 0x1_0000_0000) + value
  }

  function EncodeImport(requirement: ImportRequirement): seq<byte> {
    Be32(KindCode(requirement.kind)) + EncodeString(requirement.library) + Be32(requirement.ordinal)
    + EncodeString(requirement.name) + Be32(requirement.address) + Be32(requirement.recordAddress)
  }

  /** Where each field of an import is in its bytes: kind, library, ordinal, name, address, record address. */
  predicate LaidOut(bytes: seq<byte>, requirement: ImportRequirement) {
    var n, m := |requirement.library|, |requirement.name|;
    && |bytes| == 24 + n + m
    && ReadBe32(bytes, 0) == (if requirement.kind == Function then 0 else 1)
    && ReadBe32(bytes, 4) == n
    && bytes[8..8 + n] == requirement.library
    && ReadBe32(bytes, 8 + n) == requirement.ordinal
    && ReadBe32(bytes, 12 + n) == m
    && bytes[16 + n..16 + n + m] == requirement.name
    && ReadBe32(bytes, 16 + n + m) == requirement.address
    && ReadBe32(bytes, 20 + n + m) == requirement.recordAddress
  }

  lemma WordStandsIn(bytes: seq<byte>, front: seq<byte>, value: u32, rest: seq<byte>)
    requires bytes == front + Be32(value) + rest
    ensures HasBytes(bytes, |front|, 4) && ReadBe32(bytes, |front|) == value
  {
    hide Be32;
    WordRoundTrip(value);
    assert forall k :: 0 <= k < 4 ==> bytes[|front| + k] == Be32(value)[k];
  }

  lemma EncodedImportIsLaidOut(requirement: ImportRequirement)
    requires |requirement.library| < 0x1_0000_0000 && |requirement.name| < 0x1_0000_0000
    ensures LaidOut(EncodeImport(requirement), requirement)
  {
    hide Be32, KindCode, ReadBe32;
    var bytes, library, name := EncodeImport(requirement), requirement.library, requirement.name;
    var front := Be32(KindCode(requirement.kind)) + Be32(|library|) + library;
    var back := Be32(requirement.ordinal) + Be32(|name|) + name + Be32(requirement.address) + Be32(requirement.recordAddress);
    assert bytes == front + back;
    FrontFields(bytes, KindCode(requirement.kind), library, back);
    BackFields(bytes, front, requirement.ordinal, name, requirement.address, requirement.recordAddress);
    CodeOfKind(requirement.kind);
  }

  lemma FrontFields(bytes: seq<byte>, kind: u32, library: text, back: seq<byte>)
    requires |library| < 0x1_0000_0000 && bytes == Be32(kind) + Be32(|library|) + library + back
    ensures |bytes| == 8 + |library| + |back|
    ensures ReadBe32(bytes, 0) == kind && ReadBe32(bytes, 4) == |library| && bytes[8..8 + |library|] == library
  {
    hide Be32, ReadBe32;
    assert bytes == [] + Be32(kind) + (Be32(|library|) + library + back);
    WordStandsIn(bytes, [], kind, Be32(|library|) + library + back);
    assert bytes == Be32(kind) + Be32(|library|) + (library + back);
    WordStandsIn(bytes, Be32(kind), |library|, library + back);
  }

  lemma BackFields(bytes: seq<byte>, front: seq<byte>, ordinal: u32, name: text, address: u32, record: u32)
    requires |name| < 0x1_0000_0000
    requires bytes == front + (Be32(ordinal) + Be32(|name|) + name + Be32(address) + Be32(record))
    ensures var f, m := |front|, |name|;
            && |bytes| == f + 16 + m
            && ReadBe32(bytes, f) == ordinal && ReadBe32(bytes, f + 4) == m && bytes[f + 8..f + 8 + m] == name
            && ReadBe32(bytes, f + 8 + m) == address && ReadBe32(bytes, f + 12 + m) == record
  {
    hide Be32, ReadBe32;
    var tail := Be32(address) + Be32(record);
    assert bytes == front + Be32(ordinal) + (Be32(|name|) + name + tail);
    WordStandsIn(bytes, front, ordinal, Be32(|name|) + name + tail);
    assert bytes == (front + Be32(ordinal)) + Be32(|name|) + (name + tail);
    WordStandsIn(bytes, front + Be32(ordinal), |name|, name + tail);
    var all := front + Be32(ordinal) + Be32(|name|) + name;
    assert bytes == all + Be32(address) + Be32(record);
    WordStandsIn(bytes, all, address, Be32(record));
    assert bytes == (all + Be32(address)) + Be32(record) + [];
    WordStandsIn(bytes, all + Be32(address), record, []);
  }

  lemma CodeOfKind(kind: ImportKind)
    ensures KindCode(kind) == if kind == Function then 0 else 1
  {
  }

  /** The bytes a manifest is hashed as. */
  function Encode(imports: seq<ImportRequirement>): seq<byte> {
    if |imports| == 0 then [] else EncodeImport(imports[0]) + Encode(imports[1..])
  }

  lemma {:induction false} EncodeAppend(imports: seq<ImportRequirement>, last: ImportRequirement)
    ensures Encode(imports + [last]) == Encode(imports) + EncodeImport(last)
    decreases |imports|
  {
    hide EncodeImport;
    var all := imports + [last];
    if |imports| == 0 {
      assert all[1..] == [];
    } else {
      assert all[1..] == imports[1..] + [last];
      EncodeAppend(imports[1..], last);
    }
  }

  lemma EncodeNext(imports: seq<ImportRequirement>, index: nat)
    requires index < |imports|
    ensures Encode(imports[..index + 1]) == Encode(imports[..index]) + EncodeImport(imports[index])
  {
    EncodeAppend(imports[..index], imports[index]);
    assert imports[..index + 1] == imports[..index] + [imports[index]];
  }

  method HashBytes(bytes: seq<byte>) returns (digest: seq<byte>)
    ensures digest == DigestOf(bytes)
  {
    hide *;
    var stream := new Sha256Stream();
    stream.Update(bytes);
    assert stream.fed == bytes;
    digest := stream.Finish();
  }

  method HashImportManifest(imports: seq<ImportRequirement>) returns (digest: seq<byte>)
    ensures digest == DigestOf(Encode(imports))
  {
    assert Encode([]) == [];
    hide *;
    var stream := new Sha256Stream();
    for index := 0 to |imports|
      invariant stream.Valid() && fresh(stream.Repr)
      invariant stream.fed == Encode(imports[..index])
    {
      UpdateImport(stream, imports[index]);
      EncodeNext(imports, index);
    }
    assert imports[..|imports|] == imports;
    digest := stream.Finish();
  }

  method UpdateImport(stream: Sha256Stream, requirement: ImportRequirement)
    requires stream.Valid()
    modifies stream.Repr
    ensures stream.Valid() && stream.fed == old(stream.fed) + EncodeImport(requirement)
  {
    hide Be32, KindCode, Hashed, Rest, Whole, EncodeImport;
    ghost var start := stream.fed;
    stream.UpdateU32(KindCode(requirement.kind));
    stream.UpdateString(requirement.library);
    stream.UpdateU32(requirement.ordinal);
    stream.UpdateString(requirement.name);
    stream.UpdateU32(requirement.address);
    stream.UpdateU32(requirement.recordAddress);
    ImportFields(start, requirement);
  }

  lemma ImportFields(start: seq<byte>, requirement: ImportRequirement)
    ensures start + EncodeImport(requirement) ==
            start + Be32(KindCode(requirement.kind))
            + Be32(|requirement.library| % 0x1_0000_0000) + requirement.library + Be32(requirement.ordinal)
            + Be32(|requirement.name| % 0x1_0000_0000) + requirement.name
            + Be32(requirement.address) + Be32(requirement.recordAddress)
  {
    hide Be32, KindCode;
  }

  // The decoder: each reader takes one field off the front and returns the rest.

  function TakeWord(bytes: seq<byte>): (taken: Option<(u32, seq<byte>)>)
    ensures taken.Some? ==> |taken.value.1| < |bytes|
  {
    if |bytes| < 4 then None else Some((ReadBe32(bytes, 0), bytes[4..]))
  }

  function TakeString(bytes: seq<byte>): (taken: Option<(text, seq<byte>)>)
    ensures taken.Some? ==> |taken.value.1| < |bytes|
  {
    match TakeWord(bytes)
    case None => None
    case Some((size, rest)) => if |rest| < size then None else Some((rest[..size], rest[size..]))
  }

  function TakeKind(bytes: seq<byte>): (taken: Option<(ImportKind, seq<byte>)>)
    ensures taken.Some? ==> |taken.value.1| < |bytes|
  {
    match TakeWord(bytes)
    case None => None
    case Some((code, rest)) =>
      if code == 0 then Some((Function, rest)) else if code == 1 then Some((Variable, rest)) else None
  }

  function TakeImport(bytes: seq<byte>): (taken: Option<(ImportRequirement, seq<byte>)>)
    ensures taken.Some? ==> |taken.value.1| < |bytes|
  {
    match TakeKind(bytes) case None => None case Some((kind, b1)) =>
    match TakeString(b1) case None => None case Some((library, b2)) =>
    match TakeWord(b2) case None => None case Some((ordinal, b3)) =>
    match TakeString(b3) case None => None case Some((name, b4)) =>
    match TakeWord(b4) case None => None case Some((address, b5)) =>
    match TakeWord(b5) case None => None case Some((record, b6)) =>
      Some((ImportRequirement(kind, library, ordinal, name, address, record), b6))
  }

  function Decode(bytes: seq<byte>): Option<seq<ImportRequirement>>
    decreases |bytes|
  {
    if |bytes| == 0 then Some([])
    else
      match TakeImport(bytes)
      case None => None
      case Some((first, rest)) =>
        match Decode(rest)
        case None => None
        case Some(others) => Some([first] + others)
  }

  /** The lengths the source's 32-bit prefix can carry. */
  predicate Encodable(requirement: ImportRequirement) {
    |requirement.library| < 0x1_0000_0000 && |requirement.name| < 0x1_0000_0000
  }

  predicate AllEncodable(imports: seq<ImportRequirement>) {
    forall requirement :: requirement in imports ==> Encodable(requirement)
  }

  lemma TakeWordOf(value: u32, rest: seq<byte>)
    ensures TakeWord(Be32(value) + rest) == Some((value, rest))
  {
    WordRoundTrip(value);
    assert (Be32(value) + rest)[4..] == rest;
  }

  lemma TakeStringOf(value: text, rest: seq<byte>)
    requires |value| < 0x1_0000_0000
    ensures TakeString(EncodeString(value) + rest) == Some((value, rest))
  {
    hide TakeWord, Be32;
    assert EncodeString(value) + rest == Be32(|value|) + (value + rest);
    TakeWordOf(|value|, value + rest);
    assert (value + rest)[..|value|] == value && (value + rest)[|value|..] == rest;
  }

  lemma TakeKindOf(kind: ImportKind, rest: seq<byte>)
    ensures TakeKind(Be32(KindCode(kind)) + rest) == Some((kind, rest))
  {
    TakeWordOf(KindCode(kind), rest);
  }

  lemma TakeImportOf(requirement: ImportRequirement, rest: seq<byte>)
    requires Encodable(requirement)
    ensures TakeImport(EncodeImport(requirement) + rest) == Some((requirement, rest))
  {
    hide TakeWord, TakeString, TakeKind, Be32, EncodeString;
    var b5 := Be32(requirement.recordAddress) + rest;
    var b4 := Be32(requirement.address) + b5;
    var b3 := EncodeString(requirement.name) + b4;
    var b2 := Be32(requirement.ordinal) + b3;
    var b1 := EncodeString(requirement.library) + b2;
    assert EncodeImport(requirement) + rest == Be32(KindCode(requirement.kind)) + b1;
    TakeKindOf(requirement.kind, b1);
    TakeStringOf(requirement.library, b2);
    TakeWordOf(requirement.ordinal, b3);
    TakeStringOf(requirement.name, b4);
    TakeWordOf(requirement.address, b5);
    TakeWordOf(requirement.recordAddress, rest);
  }

  /** Every manifest is recovered from the bytes it is hashed as. */
  lemma {:induction false} DecodeInvertsEncode(imports: seq<ImportRequirement>)
    requires AllEncodable(imports)
    ensures Decode(Encode(imports)) == Some(imports)
    decreases |imports|
  {
    hide *;
    if |imports| == 0 {
      NothingDecodes();
    } else {
      EncodeFirst(imports);
      TakeImportOf(imports[0], Encode(imports[1..]));
      DecodeInvertsEncode(imports[1..]);
      DecodeFirst(Encode(imports), imports[0], Encode(imports[1..]));
      assert imports == [imports[0]] + imports[1..];
    }
  }

  lemma NothingDecodes()
    ensures Decode(Encode([])) == Some([])
  {
  }

  lemma EncodeFirst(imports: seq<ImportRequirement>)
    requires AllEncodable(imports) && |imports| > 0
    ensures Encode(imports) == EncodeImport(imports[0]) + Encode(imports[1..])
    ensures Encodable(imports[0]) && AllEncodable(imports[1..])
  {
    hide EncodeImport, Encodable;
  }

  lemma DecodeFirst(bytes: seq<byte>, first: ImportRequirement, rest: seq<byte>)
    requires TakeImport(bytes) == Some((first, rest)) && Decode(rest).Some?
    ensures Decode(bytes) == Some([first] + Decode(rest).value)
  {
    assert |bytes| > 0;
    hide TakeImport;
  }

  /** Different manifests never share a byte stream. */
  lemma EncodeIsInjective(left: seq<ImportRequirement>, right: seq<ImportRequirement>)
    requires AllEncodable(left)
    requires AllEncodable(right)
    requires Encode(left) == Encode(right)
    ensures left == right
  {
    DecodeInvertsEncode(left);
    DecodeInvertsEncode(right);
  }

  lemma WordOf(bytes: seq<byte>)
    requires TakeWord(bytes).Some?
    ensures bytes == Be32(TakeWord(bytes).value.0) + TakeWord(bytes).value.1
  {
    BytesRoundTrip(bytes[..4]);
    assert ReadBe32(bytes[..4], 0) == ReadBe32(bytes, 0);
    assert bytes == bytes[..4] + bytes[4..];
  }

  lemma StringOf(bytes: seq<byte>)
    requires TakeString(bytes).Some?
    ensures |TakeString(bytes).value.0| < 0x1_0000_0000
    ensures bytes == EncodeString(TakeString(bytes).value.0) + TakeString(bytes).value.1
  {
    hide TakeWord, Be32;
    WordOf(bytes);
    var (size, rest) := TakeWord(bytes).value;
    assert rest == rest[..size] + rest[size..];
  }

  lemma ImportOf(bytes: seq<byte>)
    requires TakeImport(bytes).Some?
    ensures Encodable(TakeImport(bytes).value.0)
    ensures bytes == EncodeImport(TakeImport(bytes).value.0) + TakeImport(bytes).value.1
  {
    hide TakeWord, TakeString, Be32, EncodeString;
    WordOf(bytes);
    var b1 := TakeKind(bytes).value.1;
    StringOf(b1);
    var b2 := TakeString(b1).value.1;
    WordOf(b2);
    var b3 := TakeWord(b2).value.1;
    StringOf(b3);
    var b4 := TakeString(b3).value.1;
    WordOf(b4);
    WordOf(TakeWord(b4).value.1);
  }

  /** The decoder accepts nothing but encodings: what it returns encodes back to its input. */
  lemma {:induction false} EncodeInvertsDecode(bytes: seq<byte>)
    requires Decode(bytes).Some?
    ensures Encode(Decode(bytes).value) == bytes
    ensures AllEncodable(Decode(bytes).value)
    decreases |bytes|
  {
    if |bytes| > 0 {
      hide TakeImport, EncodeImport, Encodable;
      ImportOf(bytes);
      var (first, rest) := TakeImport(bytes).value;
      EncodeInvertsDecode(rest);
      var others := Decode(rest).value;
      assert ([first] + others)[1..] == others;
    }
  }
}
