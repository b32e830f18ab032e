/** The import-library string table, src/xex_imports.cpp. */
module XexImportNames {
  import opened Bytes

  // ---- What the table means ----

  /** The first zero byte from offset on, or limit. */
  function FirstZero(bytes: seq<byte>, offset: nat, limit: nat): (zero: nat)
    requires offset <= limit <= |bytes|
    ensures offset <= zero <= limit
    ensures forall k :: offset <= k < zero ==> bytes[k] != 0
    ensures zero < limit ==> bytes[zero] == 0
    decreases limit - offset
  {
    if offset == limit || bytes[offset] == 0 then offset else FirstZero(bytes, offset + 1, limit)
  }

  /** The name at offset; empty when it is missing or not terminated before limit. */
  function CString(bytes: seq<byte>, offset: nat, limit: nat): text
    requires limit <= |bytes|
  {
    if offset >= limit || FirstZero(bytes, offset, limit) == limit then []
    else bytes[offset..FirstZero(bytes, offset, limit)]
  }

  predicate IsSlash(value: byte) {
    value == 0x2F || value == 0x5C
  }

  /** What follows the last slash of either kind. */
  function BaseName(name: text): (base: text)
    ensures |base| <= |name| && base == name[|name| - |base|..]
    ensures forall k :: |name| - |base| <= k < |name| ==> name[k] != 0x2F && name[k] != 0x5C
    ensures |base| < |name| ==> name[|name| - |base| - 1] == 0x2F || name[|name| - |base| - 1] == 0x5C
  {
    if |name| == 0 || IsSlash(name[|name| - 1]) then []
    else BaseName(name[..|name| - 1]) + [name[|name| - 1]]
  }

  function Aligned(size: nat): (aligned: nat)
    ensures aligned % 4 == 0 && size <= aligned < size + 4
  {
    (size + 3) / 4 * 4
  }

  function Prepend(parsed: seq<text>, rest: Option<seq<text>>): Option<seq<text>> {
    match rest
    case None => None
    case Some(names) => Some(parsed + names)
  }

  /** The names of the table that starts at cursor, or None if it is refused. */
  function Names(header: seq<byte>, cursor: nat, limit: nat, count: nat): Option<seq<text>>
    requires limit <= |header|
    decreases count
  {
    if count == 0 then Some([])
    else
      var name := CString(header, cursor, limit);
      if |name| == 0 || cursor > limit || Aligned(|name| + 1) > limit - cursor then None
      else
        Prepend([BaseName(name)], Names(header, cursor + Aligned(|name| + 1), limit, count - 1))
  }

  // ---- The parser ----

  method ReadCString(bytes: seq<byte>, offset: nat, limit: nat) returns (name: text)
    requires limit <= |bytes|
    ensures name == CString(bytes, offset, limit)
  {
    name := [];
    if offset >= limit {
      return;
    }
    var end := offset;
    while end < limit && bytes[end] != 0
      invariant offset <= end <= limit
      invariant FirstZero(bytes, offset, limit) == FirstZero(bytes, end, limit)
    {
      end := end + 1;
    }
    if end == limit {
      return;
    }
    for index := offset to end
      invariant name == bytes[offset..index]
    {
      name := name + [bytes[index]];
    }
  }

  method BaseLibraryName(name: text) returns (base: text)
    ensures base == BaseName(name)
  {
    var slash: nat := |name|;
    while slash > 0 && name[slash - 1] != 0x2F && name[slash - 1] != 0x5C
      invariant slash <= |name|
      invariant forall k :: slash <= k < |name| ==> name[k] != 0x2F && name[k] != 0x5C
    {
      slash := slash - 1;
    }
    base := name[slash..];
    assert |base| == |BaseName(name)|;
  }

  method ParseImportLibraryNames(header: seq<byte>, stringOffset: nat, stringSize: u32, libraryCount: u32)
    returns (names: Option<seq<text>>)
    requires stringOffset + stringSize as int <= |header|
    ensures names == Names(header, stringOffset, stringOffset + stringSize as int, libraryCount)
  {
    hide CString, BaseName;
    var limit: nat := stringOffset + stringSize as int;
    var cursor: nat := stringOffset;
    var parsed: seq<text> := [];
    PrependNothing(Names(header, cursor, limit, libraryCount));
    hide Names, Prepend, Aligned;
    for index := 0 to libraryCount
      invariant cursor <= limit
      invariant Names(header, stringOffset, limit, libraryCount) ==
                Prepend(parsed, Names(header, cursor, limit, libraryCount - index))
    {
      var name := ReadCString(header, cursor, limit);
      if |name| == 0 {
        return None;
      }
      var base := BaseLibraryName(name);
      PrependOne(parsed, base, Names(header, cursor + Aligned(|name| + 1), limit, libraryCount - index - 1));
      parsed := parsed + [base];
      var aligned := (|name| + 1 + 3) / 4 * 4;
      if cursor > limit || aligned > limit - cursor {
        return None;
      }
      NamesStep(header, cursor, limit, libraryCount - index - 1, name);
      cursor := cursor + aligned;
    }
    NamesEnd(header, cursor, limit, parsed);
    names := Some(parsed);
  }

  lemma NamesEnd(header: seq<byte>, cursor: nat, limit: nat, parsed: seq<text>)
    requires limit <= |header|
    ensures Prepend(parsed, Names(header, cursor, limit, 0)) == Some(parsed)
  {
    assert parsed + [] == parsed;
  }

  lemma PrependName(name: text, rest: seq<text>)
    ensures Prepend([name], Some(rest)) == Some([name] + rest)
  {
  }

  lemma PrependNothing(rest: Option<seq<text>>)
    ensures Prepend([], rest) == rest
  {
    if rest.Some? {
      assert [] + rest.value == rest.value;
    }
  }

  lemma PrependOne(parsed: seq<text>, name: text, rest: Option<seq<text>>)
    ensures Prepend(parsed + [name], rest) == Prepend(parsed, Prepend([name], rest))
  {
    if rest.Some? {
      assert parsed + [name] + rest.value == parsed + ([name] + rest.value);
    }
  }

  // ---- The encoding it inverts ----

  /** A nonempty name without zero bytes, and the bytes that pad it. */
  datatype Padded = Padded(name: text, pad: seq<byte>) {
    predicate Formed() {
      && |name| > 0
      && (forall k :: 0 <= k < |name| ==> name[k] != 0)
      && (|name| + 1 + |pad|) % 4 == 0 && |pad| < 4
    }
  }

  function EncodeName(entry: Padded): seq<byte> {
    entry.name + [0] + entry.pad
  }

  function EncodeNames(entries: seq<Padded>): seq<byte> {
    if |entries| == 0 then [] else EncodeName(entries[0]) + EncodeNames(entries[1..])
  }

  function BaseNames(entries: seq<Padded>): seq<text> {
    if |entries| == 0 then [] else [BaseName(entries[0].name)] + BaseNames(entries[1..])
  }

  predicate AllFormed(entries: seq<Padded>) {
    forall entry :: entry in entries ==> entry.Formed()
  }

  lemma CStringOf(header: seq<byte>, cursor: nat, limit: nat, entry: Padded)
    requires entry.Formed() && StandsAt(header, cursor, EncodeName(entry))
    requires cursor + |EncodeName(entry)| <= limit <= |header|
    ensures CString(header, cursor, limit) == entry.name
  {
    var slice := header[cursor..cursor + |EncodeName(entry)|];
    forall k | 0 <= k < |entry.name| ensures header[cursor + k] == entry.name[k] {
      assert slice[k] == entry.name[k];
    }
    assert slice[|entry.name|] == 0;
    var zero := FirstZero(header, cursor, limit);
    assert zero == cursor + |entry.name|;
  }

  /** What the parser does with one name, apart from where the name comes from. */
  lemma NamesStep(header: seq<byte>, cursor: nat, limit: nat, count: nat, name: text)
    requires limit <= |header| && name == CString(header, cursor, limit) && |name| > 0
    requires cursor + Aligned(|name| + 1) <= limit
    ensures Names(header, cursor, limit, count + 1) ==
            Prepend([BaseName(name)], Names(header, cursor + Aligned(|name| + 1), limit, count))
  {
    hide CString, BaseName, Aligned, FirstZero, Prepend;
  }

  lemma EncodingUnfolds(first: Padded, rest: seq<Padded>)
    ensures EncodeNames([first] + rest) == EncodeName(first) + EncodeNames(rest)
    ensures BaseNames([first] + rest) == [BaseName(first.name)] + BaseNames(rest)
  {
    hide Aligned, BaseName, EncodeName;
    var entries := [first] + rest;
    assert entries[0] == first && entries[1..] == rest;
  }

  lemma FormedUnfolds(first: Padded, rest: seq<Padded>)
    ensures AllFormed([first] + rest) <==> first.Formed() && AllFormed(rest)
  {
    hide Padded.Formed;
    var entries := [first] + rest;
    assert first in entries;
    forall entry ensures entry in entries <==> entry == first || entry in rest {}
  }

  lemma EncodedSize(entry: Padded)
    requires entry.Formed()
    ensures |entry.name| > 0 && |EncodeName(entry)| == Aligned(|entry.name| + 1)
  {
    hide Aligned;
  }

  /** Wherever an encoding of nonempty zero-free names stands inside the table's
      bounds, it parses to the names' last path components. */
  lemma {:induction false} NamesOfEncoding(header: seq<byte>, cursor: nat, limit: nat, entries: seq<Padded>)
    requires AllFormed(entries) && StandsAt(header, cursor, EncodeNames(entries))
    requires cursor + |EncodeNames(entries)| <= limit <= |header|
    ensures Names(header, cursor, limit, |entries|) == Some(BaseNames(entries))
    decreases |entries|
  {
    if |entries| == 0 {
      return;
    }
    hide *;
    var first, rest := entries[0], entries[1..];
    assert entries == [first] + rest;
    EncodingUnfolds(first, rest);
    FormedUnfolds(first, rest);
    EncodedSize(first);
    ConcatenationStands(header, cursor, EncodeName(first), EncodeNames(rest));
    CStringOf(header, cursor, limit, first);
    NamesOfEncoding(header, cursor + |EncodeName(first)|, limit, rest);
    NamesStep(header, cursor, limit, |rest|, first.name);
    PrependName(BaseName(first.name), BaseNames(rest));
  }

  /** Conversely, every table the parser accepts is such an encoding. */
  lemma {:induction false} AcceptedTableIsEncoding(header: seq<byte>, cursor: nat, limit: nat, count: nat)
    returns (entries: seq<Padded>)
    requires cursor <= limit <= |header| && Names(header, cursor, limit, count).Some?
    ensures |entries| == count && AllFormed(entries)
    ensures StandsAt(header, cursor, EncodeNames(entries)) && cursor + |EncodeNames(entries)| <= limit
    ensures Names(header, cursor, limit, count) == Some(BaseNames(entries))
    decreases count
  {
    hide *;
    if count == 0 {
      NoNames(header, cursor, limit);
      return [];
    }
    var first := AcceptedName(header, cursor, limit, count);
    var rest := AcceptedTableIsEncoding(header, cursor + |EncodeName(first)|, limit, count - 1);
    entries := [first] + rest;
    EncodingUnfolds(first, rest);
    FormedUnfolds(first, rest);
    EncodedSize(first);
    ConcatenationStands(header, cursor, EncodeName(first), EncodeNames(rest));
    NamesStep(header, cursor, limit, count - 1, first.name);
    PrependName(BaseName(first.name), BaseNames(rest));
  }

  lemma NoNames(header: seq<byte>, cursor: nat, limit: nat)
    requires cursor <= limit <= |header|
    ensures AllFormed([]) && StandsAt(header, cursor, EncodeNames([])) && |EncodeNames([])| == 0
    ensures Names(header, cursor, limit, 0) == Some(BaseNames([]))
  {
  }

  lemma AcceptedName(header: seq<byte>, cursor: nat, limit: nat, count: nat) returns (first: Padded)
    requires cursor <= limit <= |header| && count > 0 && Names(header, cursor, limit, count).Some?
    ensures first.Formed() && first.name == CString(header, cursor, limit)
    ensures |EncodeName(first)| == Aligned(|first.name| + 1) && cursor + |EncodeName(first)| <= limit
    ensures StandsAt(header, cursor, EncodeName(first))
    ensures Names(header, cursor + |EncodeName(first)|, limit, count - 1).Some?
  {
    hide Names, Aligned, CString;
    NameIsAccepted(header, cursor, limit, count);
    var name := CString(header, cursor, limit);
    var size := Aligned(|name| + 1);
    first := Padded(name, header[cursor + |name| + 1..cursor + size]);
    CStringStands(header, cursor, limit);
    assert EncodeName(first) == name + [0] + first.pad;
    assert header[cursor..cursor + size] == header[cursor..cursor + |name| + 1] + first.pad;
  }

  lemma NameIsAccepted(header: seq<byte>, cursor: nat, limit: nat, count: nat)
    requires cursor <= limit <= |header| && count > 0 && Names(header, cursor, limit, count).Some?
    ensures var name := CString(header, cursor, limit);
            && |name| > 0 && cursor + Aligned(|name| + 1) <= limit
            && Names(header, cursor + Aligned(|name| + 1), limit, count - 1).Some?
  {
    hide BaseName, Aligned, CString, FirstZero;
  }

  lemma CStringStands(header: seq<byte>, cursor: nat, limit: nat)
    requires cursor <= limit <= |header| && |CString(header, cursor, limit)| > 0
    ensures var name := CString(header, cursor, limit);
            && cursor + |name| + 1 <= limit && header[cursor..cursor + |name| + 1] == name + [0]
            && forall k :: 0 <= k < |name| ==> name[k] != 0
  {
  }
}
