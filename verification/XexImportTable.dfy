/** The import-library descriptor, src/xex_inspect.cpp: records grouped into imports,
    and the record words and stubs rewritten in the loaded image. */
module XexImportTable {
  import opened Bytes
  import opened ModuleContract
  import opened Patches
  import opened XexHeader
  import opened XexImportNames

  const IMPORTS_KEY: u32 := 0x0001_03FF
  const IMPORT_HEADER_MINIMUM: nat := 0x0C
  const IMPORT_LIBRARY_MINIMUM: nat := 0x28

  const FUNCTION_STUB: seq<byte> := [
    0x60, 0x00, 0x00, 0x00, 0x60, 0x00, 0x00, 0x00, 0x60, 0x00, 0x00, 0x00, 0x4e, 0x80, 0x00, 0x20]

  datatype ImageBounds = ImageBounds(base: u32, size: nat) {
    predicate Holds(address: u32, bytes: nat) {
      base <= address && address - base <= size && bytes <= size - (address - base)
    }
  }

  /** A record: where it is, and the ordinal and type its word in the image holds. */
  datatype Record = Record(ordinal: u16, address: u32, value: u32, isFunction: bool)

  datatype Import = Import(kind: ImportKind, library: text, ordinal: u16, address: u32, recordAddress: u32)

  /** A variable record alone, or with the function thunk that follows it. */
  datatype Group = VariableGroup(variable: Record) | FunctionGroup(variable: Record, thunk: Record)

  // ---- Grouping ----

  predicate GroupFormed(group: Group, bounds: ImageBounds) {
    match group
    case VariableGroup(variable) => !variable.isFunction
    case FunctionGroup(variable, thunk) =>
      !variable.isFunction && thunk.isFunction && thunk.ordinal == variable.ordinal && bounds.Holds(thunk.address, 16)
  }

  function GroupRecords(group: Group): seq<Record> {
    match group
    case VariableGroup(variable) => [variable]
    case FunctionGroup(variable, thunk) => [variable, thunk]
  }

  function Flatten(groups: seq<Group>): seq<Record> {
    if |groups| == 0 then [] else Flatten(groups[..|groups| - 1]) + GroupRecords(groups[|groups| - 1])
  }

  /** The group the parser takes off the front of a record list, or None if it refuses. */
  function NextGroup(records: seq<Record>, bounds: ImageBounds): Option<Group>
    requires |records| > 0
  {
    if records[0].isFunction then None
    else if |records| > 1 && records[1].isFunction then
      var group := FunctionGroup(records[0], records[1]);
      if GroupFormed(group, bounds) then Some(group) else None
    else Some(VariableGroup(records[0]))
  }

  function Groups(records: seq<Record>, bounds: ImageBounds): Option<seq<Group>>
    decreases |records|
  {
    if |records| == 0 then Some([])
    else
      match NextGroup(records, bounds)
      case None => None
      case Some(group) =>
        match Groups(records[|GroupRecords(group)|..], bounds)
        case None => None
        case Some(rest) => Some([group] + rest)
  }

  predicate AllFormed(groups: seq<Group>, bounds: ImageBounds) {
    forall group :: group in groups ==> GroupFormed(group, bounds)
  }

  lemma {:induction false} FlattenFront(first: Group, rest: seq<Group>)
    ensures Flatten([first] + rest) == GroupRecords(first) + Flatten(rest)
    decreases |rest|
  {
    hide *;
    if |rest| == 0 {
      FlattenLast([], first);
      NothingFlattens();
      assert [first] + [] == [] + [first];
    } else {
      var init, last := rest[..|rest| - 1], rest[|rest| - 1];
      assert rest == init + [last] && [first] + rest == ([first] + init) + [last];
      FlattenLast([first] + init, last);
      FlattenLast(init, last);
      FlattenFront(first, init);
    }
  }

  lemma NothingFlattens()
    ensures Flatten([]) == []
  {
  }

  lemma FlattenLast(init: seq<Group>, last: Group)
    ensures Flatten(init + [last]) == Flatten(init) + GroupRecords(last)
  {
    hide GroupRecords;
    assert (init + [last])[..|init|] == init;
  }

  lemma FirstRecordIsVariable(groups: seq<Group>, bounds: ImageBounds)
    requires |groups| > 0 && AllFormed(groups, bounds)
    ensures |Flatten(groups)| > 0 && !Flatten(groups)[0].isFunction
  {
    assert groups == [groups[0]] + groups[1..];
    FlattenFront(groups[0], groups[1..]);
    assert GroupFormed(groups[0], bounds);
  }

  lemma {:induction false} GroupsAreFormed(records: seq<Record>, bounds: ImageBounds)
    requires Groups(records, bounds).Some?
    ensures AllFormed(Groups(records, bounds).value, bounds) && Flatten(Groups(records, bounds).value) == records
    decreases |records|
  {
    if |records| > 0 {
      var group := NextGroup(records, bounds).value;
      var size := |GroupRecords(group)|;
      GroupsAreFormed(records[size..], bounds);
      FlattenFront(group, Groups(records[size..], bounds).value);
      assert records == records[..size] + records[size..] && records[..size] == GroupRecords(group);
    }
  }

  lemma {:induction false} FormedGroupsAreFound(groups: seq<Group>, bounds: ImageBounds)
    requires AllFormed(groups, bounds)
    ensures Groups(Flatten(groups), bounds) == Some(groups)
    decreases |groups|
  {
    if |groups| > 0 {
      var first, rest := groups[0], groups[1..];
      assert groups == [first] + rest;
      FlattenFront(first, rest);
      FormedGroupsAreFound(rest, bounds);
      assert GroupFormed(first, bounds);
      if |rest| > 0 {
        FirstRecordIsVariable(rest, bounds);
      }
      var records := Flatten(groups);
      assert NextGroup(records, bounds) == Some(first);
      assert records[|GroupRecords(first)|..] == Flatten(rest);
    }
  }

  /** The parser accepts exactly the record lists that split into well-formed groups,
      and the split it finds is the only one. */
  lemma GroupingIsUnique(records: seq<Record>, bounds: ImageBounds, groups: seq<Group>)
    ensures Groups(records, bounds) == Some(groups) <==> AllFormed(groups, bounds) && Flatten(groups) == records
  {
    if Groups(records, bounds) == Some(groups) {
      GroupsAreFormed(records, bounds);
    }
    if AllFormed(groups, bounds) && Flatten(groups) == records {
      FormedGroupsAreFound(groups, bounds);
    }
  }

  // ---- The imports a library yields ----

  function ImportOf(group: Group, library: text): Import {
    match group
    case VariableGroup(variable) => Import(Variable, library, variable.ordinal, variable.address, variable.address)
    case FunctionGroup(variable, thunk) => Import(Function, library, thunk.ordinal, thunk.address, variable.address)
  }

  function ImportsOf(groups: seq<Group>, library: text): seq<Import> {
    if |groups| == 0 then []
    else ImportsOf(groups[..|groups| - 1], library) + [ImportOf(groups[|groups| - 1], library)]
  }

  /** The record addresses and ordinals an import stands for. */
  function Named(imp: Import): seq<(u32, u16)> {
    match imp.kind
    case Variable => [(imp.recordAddress, imp.ordinal)]
    case Function => [(imp.recordAddress, imp.ordinal), (imp.address, imp.ordinal)]
  }

  function AllNamed(imports: seq<Import>): seq<(u32, u16)> {
    if |imports| == 0 then [] else AllNamed(imports[..|imports| - 1]) + Named(imports[|imports| - 1])
  }

  function RecordNames(records: seq<Record>): (names: seq<(u32, u16)>)
    ensures |names| == |records|
  {
    seq(|records|, i requires 0 <= i < |records| => (records[i].address, records[i].ordinal))
  }

  /** Flattening the imports of a library gives back its record addresses and ordinals, in order. */
  lemma {:induction false} ImportsNameTheRecords(groups: seq<Group>, bounds: ImageBounds, library: text)
    requires AllFormed(groups, bounds)
    ensures AllNamed(ImportsOf(groups, library)) == RecordNames(Flatten(groups))
    decreases |groups|
  {
    if |groups| == 0 {
      return;
    }
    var init, last := groups[..|groups| - 1], groups[|groups| - 1];
    assert GroupFormed(last, bounds) && AllFormed(init, bounds);
    GroupNamesItsRecords(last, bounds, library);
    assert Flatten(groups) == Flatten(init) + GroupRecords(last);
    assert ImportsOf(groups, library) == ImportsOf(init, library) + [ImportOf(last, library)];
    hide *;
    ImportsNameTheRecords(init, bounds, library);
    AllNamedOfOneMore(ImportsOf(init, library), ImportOf(last, library));
    RecordNamesOfConcatenation(Flatten(init), GroupRecords(last));
  }

  lemma GroupNamesItsRecords(group: Group, bounds: ImageBounds, library: text)
    requires GroupFormed(group, bounds)
    ensures Named(ImportOf(group, library)) == RecordNames(GroupRecords(group))
  {
  }

  lemma AllNamedOfOneMore(imports: seq<Import>, last: Import)
    ensures AllNamed(imports + [last]) == AllNamed(imports) + Named(last)
  {
    hide Named;
    assert (imports + [last])[..|imports|] == imports;
  }

  lemma RecordNamesOfConcatenation(left: seq<Record>, right: seq<Record>)
    ensures RecordNames(left + right) == RecordNames(left) + RecordNames(right)
  {
  }

  // ---- The image rewrite ----

  /** What is written over a record's place: its word byte-reversed, or the stub. */
  function Rewritten(record: Record): seq<byte> {
    if record.isFunction then FUNCTION_STUB else Le32(record.value)
  }

  predicate Placed(record: Record, bounds: ImageBounds) {
    bounds.Holds(record.address, |Rewritten(record)|)
  }

  predicate AllPlaced(records: seq<Record>, bounds: ImageBounds) {
    forall record :: record in records ==> Placed(record, bounds)
  }

  function Offset(record: Record, bounds: ImageBounds): nat
    requires bounds.base <= record.address
  {
    record.address - bounds.base
  }

  /** The image after every record, in order, has been rewritten. */
  function Rewrite(image: seq<byte>, bounds: ImageBounds, records: seq<Record>): (rewritten: seq<byte>)
    requires |image| == bounds.size && AllPlaced(records, bounds)
    ensures |rewritten| == |image|
  {
    if |records| == 0 then image
    else
      var init, last := records[..|records| - 1], records[|records| - 1];
      assert last in records && forall record :: record in init ==> record in records;
      Patched(Rewrite(image, bounds, init), Offset(last, bounds), Rewritten(last))
  }

  /** `index` lies in the bytes rewritten for the record. */
  predicate Touches(record: Record, bounds: ImageBounds, index: int) {
    record.address - bounds.base <= index < record.address - bounds.base + |Rewritten(record)|
  }

  /** Every image byte no record touches is unchanged. */
  lemma {:induction false} RewriteFrame(image: seq<byte>, bounds: ImageBounds, records: seq<Record>, index: nat)
    requires |image| == bounds.size && AllPlaced(records, bounds) && index < |image|
    requires forall record :: record in records ==> !Touches(record, bounds, index)
    ensures Rewrite(image, bounds, records)[index] == image[index]
    decreases |records|
  {
    if |records| > 0 {
      var init, last := records[..|records| - 1], records[|records| - 1];
      assert last in records && Placed(last, bounds);
      RewriteFrame(image, bounds, init, index);
    }
  }

  predicate Separate(left: Record, right: Record) {
    || left.address as int + |Rewritten(left)| <= right.address
    || right.address as int + |Rewritten(right)| <= left.address
  }

  predicate AllSeparate(records: seq<Record>) {
    forall i, j :: 0 <= i < j < |records| ==> Separate(records[i], records[j])
  }

  lemma {:induction false} RewriteInTwo(image: seq<byte>, bounds: ImageBounds, left: seq<Record>, right: seq<Record>)
    requires |image| == bounds.size && AllPlaced(left, bounds) && AllPlaced(right, bounds)
    ensures AllPlaced(left + right, bounds)
    ensures Rewrite(Rewrite(image, bounds, left), bounds, right) == Rewrite(image, bounds, left + right)
    decreases |right|
  {
    if |right| == 0 {
      assert left + right == left;
    } else {
      var init := right[..|right| - 1];
      RewriteInTwo(image, bounds, left, init);
      assert (left + right)[..|left + right| - 1] == left + init;
    }
  }

  /** The write a record's rewriting is. */
  function PlaceOf(record: Record, bounds: ImageBounds): Patch
    requires Placed(record, bounds)
  {
    Patch(Offset(record, bounds), Rewritten(record))
  }

  function Places(records: seq<Record>, bounds: ImageBounds): (places: seq<Patch>)
    requires AllPlaced(records, bounds)
    ensures |places| == |records|
    ensures forall k :: 0 <= k < |records| ==> Placed(records[k], bounds) && places[k] == PlaceOf(records[k], bounds)
  {
    if |records| == 0 then []
    else
      assert records[|records| - 1] in records;
      Places(records[..|records| - 1], bounds) + [PlaceOf(records[|records| - 1], bounds)]
  }

  lemma {:induction false} RewriteIsApplied(image: seq<byte>, bounds: ImageBounds, records: seq<Record>)
    requires |image| == bounds.size && AllPlaced(records, bounds)
    ensures AllFit(image, Places(records, bounds))
    ensures Rewrite(image, bounds, records) == Applied(image, Places(records, bounds))
    decreases |records|
  {
    if |records| > 0 {
      var init, last := records[..|records| - 1], records[|records| - 1];
      assert last in records;
      RewriteIsApplied(image, bounds, init);
      assert Places(records, bounds)[..|records| - 1] == Places(init, bounds);
    }
  }

  /** Overlaps or not, every place holds what was written for its record if and only if
      no two places disagree. */
  lemma RewriteStandsIffPlacesAgree(image: seq<byte>, bounds: ImageBounds, records: seq<Record>)
    requires |image| == bounds.size && AllPlaced(records, bounds)
    ensures AllStand(Rewrite(image, bounds, records), Places(records, bounds)) <==> AllAgree(Places(records, bounds))
  {
    hide Rewrite, Applied, Places;
    RewriteIsApplied(image, bounds, records);
    PatchesStandIffTheyAgree(image, Places(records, bounds));
  }

  lemma SeparatePlacesAgree(left: Record, right: Record, bounds: ImageBounds)
    requires Placed(left, bounds) && Placed(right, bounds) && Separate(left, right)
    ensures Agree(PlaceOf(left, bounds), PlaceOf(right, bounds))
  {
    hide Rewritten;
  }

  /** When no two records overlap, each one's place holds exactly what was written for it. */
  lemma RewriteIsExact(image: seq<byte>, bounds: ImageBounds, records: seq<Record>, k: nat)
    requires |image| == bounds.size && AllPlaced(records, bounds) && AllSeparate(records) && k < |records|
    ensures Placed(records[k], bounds)
    ensures StandsAt(Rewrite(image, bounds, records), Offset(records[k], bounds), Rewritten(records[k]))
  {
    hide Rewrite, Rewritten, Agree, StandsAt, Placed, Separate;
    var places := Places(records, bounds);
    forall i, j | 0 <= i < j < |records|
      ensures Agree(places[i], places[j])
    {
      SeparatePlacesAgree(records[i], records[j], bounds);
    }
    RewriteStandsIffPlacesAgree(image, bounds, records);
    assert places[k].Stands(Rewrite(image, bounds, records));
  }

  /** The word a stub has in each of its four places, least significant byte first. */
  function StubWord(index: int): u32 {
    if index == 3 then 0x2000_804E else 0x60
  }

  /** A variable's place lies in the stub at `address` and its word is not the stub's word there. */
  predicate StubSpoiled(address: u32, variable: Record) {
    var at := variable.address - address;
    0 <= at < 16 && variable.value != StubWord(at / 4)
  }

  /** Two records' rewritings disagree: stubs that overlap without being the same one, a variable
      in a stub, or two readings of one word that differ. */
  predicate PlacesClash(left: Record, right: Record) {
    if left.isFunction && right.isFunction then
      left.address != right.address && left.address < right.address as int + 16 && right.address < left.address as int + 16
    else if left.isFunction then StubSpoiled(left.address, right)
    else if right.isFunction then StubSpoiled(right.address, left)
    else left.address == right.address && left.value != right.value
  }

  predicate NoPlacesClash(records: seq<Record>) {
    forall i, j :: 0 <= i < j < |records| ==> !PlacesClash(records[i], records[j])
  }

  predicate AllAligned(records: seq<Record>) {
    forall k :: 0 <= k < |records| ==> records[k].address % 4 == 0
  }

  lemma StubAt(k: nat)
    requires k < 16
    ensures FUNCTION_STUB[k] == Le32(StubWord(k / 4))[k % 4]
  {
    hide Le32;
    StubWordBytes();
    var place := k / 4;
    assert k == 4 * place + k % 4;
  }

  lemma StubWordBytes()
    ensures Le32(0x60) == [0x60, 0, 0, 0] && Le32(0x2000_804E) == [0x4E, 0x80, 0, 0x20]
  {
  }

  lemma StubsAgreeWhenApart(left: Patch, right: Patch)
    requires left.bytes == FUNCTION_STUB && right.bytes == FUNCTION_STUB
    requires (left.offset - right.offset) % 4 == 0
    ensures Agree(left, right) <==>
            left.offset == right.offset || left.offset + 16 <= right.offset || right.offset + 16 <= left.offset
  {
    var at := Min(left.offset, right.offset) + 12;
    if left.offset != right.offset && left.Covers(at) && right.Covers(at) {
      assert left.At(at) != right.At(at);
    }
  }

  lemma VariableInStub(stub: Patch, variable: Patch, value: u32, k: nat)
    requires stub.bytes == FUNCTION_STUB && variable.bytes == Le32(value) && k < 4
    requires 0 <= variable.offset - stub.offset < 16 && (variable.offset - stub.offset) % 4 == 0
    ensures stub.Covers(variable.offset + k) && variable.Covers(variable.offset + k)
    ensures stub.At(variable.offset + k) == Le32(StubWord((variable.offset - stub.offset) / 4))[k]
    ensures variable.At(variable.offset + k) == Le32(value)[k]
  {
    hide Le32, StubWord;
    StubAt(variable.offset - stub.offset + k);
  }

  lemma WordsWithEqualBytes(left: u32, right: u32)
    requires forall k :: 0 <= k < 4 ==> Le32(left)[k] == Le32(right)[k]
    ensures left == right
  {
    hide Le32;
    assert Le32(left) == Le32(right);
    WordRoundTrip(left);
    WordRoundTrip(right);
  }

  lemma VariableAgreesWithItsStubWord(stub: Patch, variable: Patch, value: u32)
    requires stub.bytes == FUNCTION_STUB && variable.bytes == Le32(value)
    requires (variable.offset - stub.offset) % 4 == 0
    ensures Agree(stub, variable) <==>
            (0 <= variable.offset - stub.offset < 16 ==> value == StubWord((variable.offset - stub.offset) / 4))
  {
    hide Le32, StubWord, Patch.At;
    var at := variable.offset - stub.offset;
    if 0 <= at < 16 {
      forall k | 0 <= k < 4
        ensures stub.At(variable.offset + k) == Le32(StubWord(at / 4))[k] && variable.At(variable.offset + k) == Le32(value)[k]
        ensures stub.Covers(variable.offset + k)
      {
        VariableInStub(stub, variable, value, k);
      }
      if Agree(stub, variable) {
        WordsWithEqualBytes(value, StubWord(at / 4));
      }
      if value == StubWord(at / 4) {
        forall index | stub.Covers(index) && variable.Covers(index)
          ensures stub.At(index) == variable.At(index)
        {
          VariableInStub(stub, variable, value, index - variable.offset);
        }
      }
    }
  }

  lemma VariablesAgree(left: Patch, right: Patch, leftValue: u32, rightValue: u32)
    requires left.bytes == Le32(leftValue) && right.bytes == Le32(rightValue)
    requires (left.offset - right.offset) % 4 == 0
    ensures Agree(left, right) <==> (left.offset == right.offset ==> leftValue == rightValue)
  {
    hide Le32;
    if left.offset == right.offset && Agree(left, right) {
      forall k | 0 <= k < 4
        ensures Le32(leftValue)[k] == Le32(rightValue)[k]
      {
        assert left.Covers(left.offset + k) && right.Covers(left.offset + k);
      }
      WordsWithEqualBytes(leftValue, rightValue);
    }
  }

  lemma PlacesAgreeUnlessTheyClash(left: Record, right: Record, bounds: ImageBounds)
    requires Placed(left, bounds) && Placed(right, bounds)
    requires left.address % 4 == 0 && right.address % 4 == 0
    ensures Agree(PlaceOf(left, bounds), PlaceOf(right, bounds)) <==> !PlacesClash(left, right)
  {
    hide Le32, StubWord, Agree;
    var l, r := PlaceOf(left, bounds), PlaceOf(right, bounds);
    if left.isFunction && right.isFunction {
      StubsAgreeWhenApart(l, r);
    } else if left.isFunction {
      VariableAgreesWithItsStubWord(l, r, right.value);
    } else if right.isFunction {
      AgreeIsSymmetric(l, r);
      VariableAgreesWithItsStubWord(r, l, left.value);
    } else {
      VariablesAgree(l, r, left.value, right.value);
    }
  }

  /** Every place holds what was written for its record if and only if no two records clash. */
  lemma RewriteStandsIffNoClash(image: seq<byte>, bounds: ImageBounds, records: seq<Record>)
    requires |image| == bounds.size && AllPlaced(records, bounds) && AllAligned(records)
    ensures AllStand(Rewrite(image, bounds, records), Places(records, bounds)) <==> NoPlacesClash(records)
  {
    hide Rewrite, PlaceOf, PlacesClash, Agree;
    RewriteStandsIffPlacesAgree(image, bounds, records);
    var places := Places(records, bounds);
    forall i, j | 0 <= i < j < |records|
      ensures Agree(places[i], places[j]) <==> !PlacesClash(records[i], records[j])
    {
      PlacesAgreeUnlessTheyClash(records[i], records[j], bounds);
    }
  }

  // ---- Libraries ----

  /** The record the table entry at `entry` names: an aligned word inside the image
      whose top byte says variable or function. */
  function RecordAt(header: seq<byte>, image: seq<byte>, bounds: ImageBounds, entry: nat): (record: Option<Record>)
    requires HasBytes(header, entry, 4) && |image| == bounds.size
    ensures record.Some? ==> bounds.Holds(record.value.address, 4)
    ensures record.Some? ==> record.value.value == ReadBe32(image, record.value.address - bounds.base)
  {
    var address := ReadBe32(header, entry);
    if address == 0 || address % 4 != 0 || !bounds.Holds(address, 4) then None
    else
      var value := ReadBe32(image, address - bounds.base);
      if value / 0x100_0000 > 1 then None
      else Some(Record(value % 0x1_0000, address, value, value / 0x100_0000 == 1))
  }

  /** The first `count` records of the table at `table`, in order. */
  function Records(header: seq<byte>, image: seq<byte>, bounds: ImageBounds, table: nat, count: nat): (records: Option<seq<Record>>)
    requires HasBytes(header, table, 4 * count) && |image| == bounds.size
    ensures records.Some? ==> |records.value| == count
    ensures records.Some? ==> forall k :: 0 <= k < count ==>
              RecordAt(header, image, bounds, table + 4 * k) == Some(records.value[k])
  {
    if count == 0 then Some([])
    else
      match Records(header, image, bounds, table, count - 1)
      case None => None
      case Some(init) =>
        match RecordAt(header, image, bounds, table + 4 * (count - 1))
        case None => None
        case Some(last) => Some(init + [last])
  }

  datatype Table = Table(start: nat, end: nat, names: seq<text>)

  datatype Parsed = Parsed(cursor: nat, imports: seq<Import>, image: seq<byte>, records: seq<Record>)

  /** A library record: its size, name and import count, if its bounds are valid. */
  function LibraryAt(header: seq<byte>, table: Table, cursor: nat): (library: Option<(nat, text, u16)>)
    requires table.end <= |header|
    ensures library.Some? ==>
              && IMPORT_LIBRARY_MINIMUM + 4 * library.value.2 <= library.value.0
              && cursor + library.value.0 <= table.end
              && library.value.0 == ReadBe32(header, cursor)
  {
    if !HasBytes(header, cursor, IMPORT_LIBRARY_MINIMUM) || cursor + IMPORT_LIBRARY_MINIMUM > table.end then None
    else
      var size: nat := ReadBe32(header, cursor);
      var name := ReadBe16(header, cursor + 0x24);
      var count := ReadBe16(header, cursor + 0x26);
      if size < IMPORT_LIBRARY_MINIMUM || 4 * count as int > size - IMPORT_LIBRARY_MINIMUM
         || size > table.end - cursor || name >= |table.names| then None
      else Some((size, table.names[name], count))
  }

  lemma GroupedRecordsArePlaced(records: seq<Record>, bounds: ImageBounds)
    requires Groups(records, bounds).Some?
    requires forall record :: record in records ==> bounds.Holds(record.address, 4)
    ensures AllPlaced(records, bounds)
  {
    var groups := Groups(records, bounds).value;
    GroupsAreFormed(records, bounds);
    forall record | record in records ensures Placed(record, bounds) {
      if record.isFunction {
        ThunksArePlaced(groups, bounds, record);
      }
    }
  }

  lemma {:induction false} ThunksArePlaced(groups: seq<Group>, bounds: ImageBounds, record: Record)
    requires AllFormed(groups, bounds) && record in Flatten(groups) && record.isFunction
    ensures bounds.Holds(record.address, 16)
    decreases |groups|
  {
    var init, last := groups[..|groups| - 1], groups[|groups| - 1];
    assert GroupFormed(last, bounds);
    if record in Flatten(init) {
      ThunksArePlaced(init, bounds, record);
    }
  }

  function NextLibrary(header: seq<byte>, bounds: ImageBounds, table: Table, parsed: Parsed): (next: Option<Parsed>)
    requires |parsed.image| == bounds.size && table.end <= |header|
    ensures next.Some? ==> |next.value.image| == bounds.size
  {
    match LibraryAt(header, table, parsed.cursor)
    case None => None
    case Some((size, library, count)) =>
      match Records(header, parsed.image, bounds, parsed.cursor + IMPORT_LIBRARY_MINIMUM, count)
      case None => None
      case Some(records) =>
        match Groups(records, bounds)
        case None => None
        case Some(groups) =>
          GroupedRecordsArePlaced(records, bounds);
          Some(Parsed(parsed.cursor + size, parsed.imports + ImportsOf(groups, library),
                      Rewrite(parsed.image, bounds, records), parsed.records + records))
  }

  /** The first `count` libraries of the table. */
  function Libraries(header: seq<byte>, image: seq<byte>, bounds: ImageBounds, table: Table, count: nat): (parsed: Option<Parsed>)
    requires |image| == bounds.size && table.end <= |header|
    ensures parsed.Some? ==> |parsed.value.image| == bounds.size
  {
    if count == 0 then Some(Parsed(table.start, [], image, []))
    else
      match Libraries(header, image, bounds, table, count - 1)
      case None => None
      case Some(parsed) => NextLibrary(header, bounds, table, parsed)
  }

  lemma LibrariesStep(header: seq<byte>, image: seq<byte>, bounds: ImageBounds, table: Table, count: nat)
    requires |image| == bounds.size && table.end <= |header| && count > 0
    requires Libraries(header, image, bounds, table, count).Some?
    ensures Libraries(header, image, bounds, table, count - 1).Some?
    ensures NextLibrary(header, bounds, table, Libraries(header, image, bounds, table, count - 1).value)
            == Libraries(header, image, bounds, table, count)
  {
    hide NextLibrary;
  }

  lemma NoLibraries(header: seq<byte>, image: seq<byte>, bounds: ImageBounds, table: Table)
    requires |image| == bounds.size && table.end <= |header|
    ensures Libraries(header, image, bounds, table, 0) == Some(Parsed(table.start, [], image, []))
  {
  }

  lemma {:induction false} AllNamedOfConcatenation(left: seq<Import>, right: seq<Import>)
    ensures AllNamed(left + right) == AllNamed(left) + AllNamed(right)
    decreases |right|
  {
    hide Named;
    if |right| == 0 {
      assert left + right == left;
    } else {
      assert (left + right)[..|left + right| - 1] == left + right[..|right| - 1];
      AllNamedOfConcatenation(left, right[..|right| - 1]);
    }
  }

  /** Every library moves the cursor forward by at least its header, stays inside the
      descriptor, and adds its records to the imports and to the rewritten image. */
  lemma {:induction false} LibrariesAccumulate(header: seq<byte>, image: seq<byte>, bounds: ImageBounds, table: Table, count: nat)
    requires |image| == bounds.size && table.start <= table.end <= |header|
    requires Libraries(header, image, bounds, table, count).Some?
    ensures var p := Libraries(header, image, bounds, table, count).value;
            && table.start + IMPORT_LIBRARY_MINIMUM * count <= p.cursor <= table.end
            && AllNamed(p.imports) == RecordNames(p.records)
            && AllPlaced(p.records, bounds)
            && p.image == Rewrite(image, bounds, p.records)
    decreases count
  {
    hide Libraries, NextLibrary, AllNamed, RecordNames, AllPlaced, Rewrite;
    if count == 0 {
      NothingAccumulated(header, image, bounds, table);
    } else {
      LibrariesStep(header, image, bounds, table, count);
      LibrariesAccumulate(header, image, bounds, table, count - 1);
      LibraryAccumulates(header, image, bounds, table, Libraries(header, image, bounds, table, count - 1).value);
    }
  }

  lemma NothingAccumulated(header: seq<byte>, image: seq<byte>, bounds: ImageBounds, table: Table)
    requires |image| == bounds.size && table.end <= |header|
    ensures Libraries(header, image, bounds, table, 0).Some?
    ensures var p := Libraries(header, image, bounds, table, 0).value;
            && p.cursor == table.start && AllNamed(p.imports) == RecordNames(p.records)
            && AllPlaced(p.records, bounds) && p.image == Rewrite(image, bounds, p.records)
  {
  }

  lemma LibraryAccumulates(header: seq<byte>, image: seq<byte>, bounds: ImageBounds, table: Table, p: Parsed)
    requires |image| == |p.image| == bounds.size && p.cursor <= table.end <= |header|
    requires AllNamed(p.imports) == RecordNames(p.records)
    requires AllPlaced(p.records, bounds) && p.image == Rewrite(image, bounds, p.records)
    requires NextLibrary(header, bounds, table, p).Some?
    ensures var q := NextLibrary(header, bounds, table, p).value;
            && p.cursor + IMPORT_LIBRARY_MINIMUM <= q.cursor <= table.end
            && AllNamed(q.imports) == RecordNames(q.records)
            && AllPlaced(q.records, bounds)
            && q.image == Rewrite(image, bounds, q.records)
  {
    hide Rewrite, Groups, Records, ImportsOf, AllNamed, Placed;
    var (size, library, count) := LibraryAt(header, table, p.cursor).value;
    var records := Records(header, p.image, bounds, p.cursor + IMPORT_LIBRARY_MINIMUM, count).value;
    var groups := Groups(records, bounds).value;
    GroupedRecordsArePlaced(records, bounds);
    GroupsAreFormed(records, bounds);
    ImportsNameTheRecords(groups, bounds, library);
    AllNamedOfConcatenation(p.imports, ImportsOf(groups, library));
    RecordNamesOfConcatenation(p.records, records);
    RewriteInTwo(image, bounds, p.records, records);
  }

  /** Where library k starts and where the next one does. */
  predicate Follows(header: seq<byte>, table: Table, cursors: seq<nat>, k: nat)
    requires table.end <= |header| && k + 1 < |cursors|
  {
    && cursors[k] + IMPORT_LIBRARY_MINIMUM <= cursors[k + 1] <= table.end
    && cursors[k + 1] == cursors[k] + ReadBe32(header, cursors[k])
  }

  /** The library records tile the table: each starts where the one before ends. */
  lemma {:induction false} LibrariesTile(header: seq<byte>, image: seq<byte>, bounds: ImageBounds, table: Table, count: nat)
    returns (cursors: seq<nat>)
    requires |image| == bounds.size && table.start <= table.end <= |header|
    requires Libraries(header, image, bounds, table, count).Some?
    ensures |cursors| == count + 1 && cursors[0] == table.start
    ensures cursors[count] == Libraries(header, image, bounds, table, count).value.cursor
    ensures forall k :: 0 <= k < count ==> Follows(header, table, cursors, k)
    decreases count
  {
    hide Libraries, NextLibrary, ReadBe32;
    if count == 0 {
      NoLibraries(header, image, bounds, table);
      return [table.start];
    }
    LibrariesStep(header, image, bounds, table, count);
    var before := Libraries(header, image, bounds, table, count - 1).value;
    var after := Libraries(header, image, bounds, table, count).value;
    var init := LibrariesTile(header, image, bounds, table, count - 1);
    cursors := init + [after.cursor];
    NextLibraryReads(header, bounds, table, before);
    assert Follows(header, table, cursors, count - 1);
    forall k | 0 <= k < count - 1 ensures Follows(header, table, cursors, k) {
      assert Follows(header, table, init, k);
    }
  }

  lemma NextLibraryReads(header: seq<byte>, bounds: ImageBounds, table: Table, p: Parsed)
    requires |p.image| == bounds.size && table.end <= |header|
    requires NextLibrary(header, bounds, table, p).Some?
    ensures var q := NextLibrary(header, bounds, table, p).value;
            && p.cursor + IMPORT_LIBRARY_MINIMUM <= q.cursor <= table.end
            && q.cursor == p.cursor + ReadBe32(header, p.cursor)
            && p.records <= q.records
            && forall k :: |p.records| <= k < |q.records| ==>
                 bounds.Holds(q.records[k].address, 4)
                 && q.records[k].value == ReadBe32(p.image, Offset(q.records[k], bounds))
  {
    hide Rewrite, Groups, ImportsOf, ReadBe16, ReadBe32;
    var (size, library, count) := LibraryAt(header, table, p.cursor).value;
    var records := Records(header, p.image, bounds, p.cursor + IMPORT_LIBRARY_MINIMUM, count).value;
    var q := NextLibrary(header, bounds, table, p).value;
    forall k | |p.records| <= k < |q.records|
      ensures bounds.Holds(q.records[k].address, 4)
              && q.records[k].value == ReadBe32(p.image, Offset(q.records[k], bounds))
    {
      var i := k - |p.records|;
      assert RecordAt(header, p.image, bounds, p.cursor + IMPORT_LIBRARY_MINIMUM + 4 * i) == Some(records[i]);
    }
  }

  /** A word outside every rewritten place reads as it did before. */
  lemma RewriteKeepsWord(image: seq<byte>, bounds: ImageBounds, records: seq<Record>, word: Record)
    requires |image| == bounds.size && AllPlaced(records, bounds) && bounds.Holds(word.address, 4)
    requires forall record :: record in records ==> Separate(record, word)
    ensures ReadBe32(Rewrite(image, bounds, records), Offset(word, bounds)) == ReadBe32(image, Offset(word, bounds))
  {
    var offset := Offset(word, bounds);
    forall k | offset <= k < offset + 4
      ensures Rewrite(image, bounds, records)[k] == image[k]
    {
      forall record | record in records ensures !Touches(record, bounds, k) {
        assert Separate(record, word);
      }
      RewriteFrame(image, bounds, records, k);
    }
  }

  /** When no records overlap, each was read from the image as it was loaded. */
  lemma {:induction false} RecordsReadTheLoadedImage(
      header: seq<byte>, image: seq<byte>, bounds: ImageBounds, table: Table, count: nat, k: nat)
    requires |image| == bounds.size && table.start <= table.end <= |header|
    requires Libraries(header, image, bounds, table, count).Some?
    requires var p := Libraries(header, image, bounds, table, count).value; AllSeparate(p.records) && k < |p.records|
    ensures var record := Libraries(header, image, bounds, table, count).value.records[k];
            bounds.Holds(record.address, 4) && record.value == ReadBe32(image, Offset(record, bounds))
    decreases count
  {
    hide Libraries, NextLibrary, Rewrite, ReadBe32, Rewritten;
    if count == 0 {
      NoLibraries(header, image, bounds, table);
      return;
    }
    LibrariesStep(header, image, bounds, table, count);
    var before := Libraries(header, image, bounds, table, count - 1).value;
    var after := Libraries(header, image, bounds, table, count).value;
    LibrariesAccumulate(header, image, bounds, table, count - 1);
    NextLibraryReads(header, bounds, table, before);
    if k < |before.records| {
      RecordsReadTheLoadedImage(header, image, bounds, table, count - 1, k);
    } else {
      var record := after.records[k];
      forall other | other in before.records ensures Separate(other, record) {
        var j :| 0 <= j < |before.records| && before.records[j] == other;
        assert Separate(after.records[j], after.records[k]);
      }
      RewriteKeepsWord(image, bounds, before.records, record);
    }
  }

  // ---- What a parse may change, accepted or refused ----

  /** Image byte `k` is one of the sixteen at the address that header word `entry` holds. */
  predicate Listed(header: seq<byte>, entry: nat, bounds: ImageBounds, k: int) {
    HasBytes(header, entry, 4) && 0 <= bounds.base as int + k - ReadBe32(header, entry) < 16
  }

  /** Every byte that differs is listed by a header word from `start` to `end`. */
  ghost predicate OnlyListedBytesChange(header: seq<byte>, start: nat, end: nat, bounds: ImageBounds, before: seq<byte>, after: seq<byte>) {
    && |before| == |after|
    && forall k {:trigger after[k]} :: 0 <= k < |before| && before[k] != after[k] ==>
         exists entry :: start <= entry && entry + 4 <= end && Listed(header, entry, bounds, k)
  }

  lemma NoBytesChange(header: seq<byte>, start: nat, end: nat, bounds: ImageBounds, image: seq<byte>)
    ensures OnlyListedBytesChange(header, start, end, bounds, image, image)
  {
  }

  lemma ChangesAddUp(header: seq<byte>, start: nat, end: nat, bounds: ImageBounds, cursor: nat, finish: nat,
                     before: seq<byte>, between: seq<byte>, after: seq<byte>)
    requires start <= cursor && finish <= end
    requires OnlyListedBytesChange(header, start, end, bounds, before, between)
    requires OnlyListedBytesChange(header, cursor, finish, bounds, between, after)
    ensures OnlyListedBytesChange(header, start, end, bounds, before, after)
  {
    hide Listed;
    forall k | 0 <= k < |before| && before[k] != after[k]
      ensures exists entry :: start <= entry && entry + 4 <= end && Listed(header, entry, bounds, k)
    {
      if between[k] == before[k] {
        assert between[k] != after[k];
        var entry :| cursor <= entry && entry + 4 <= finish && Listed(header, entry, bounds, k);
      }
    }
  }

  /** However many of a library's records were rewritten, only listed bytes differ. */
  lemma RecordsChangeListedBytes(header: seq<byte>, image: seq<byte>, bounds: ImageBounds, table: nat, count: nat,
                                 records: seq<Record>, rewritten: nat)
    requires HasBytes(header, table, 4 * count) && |image| == bounds.size
    requires Records(header, image, bounds, table, count) == Some(records)
    requires rewritten <= |records| && AllPlaced(records[..rewritten], bounds)
    ensures OnlyListedBytesChange(header, table, table + 4 * count, bounds, image, Rewrite(image, bounds, records[..rewritten]))
  {
    hide Records, RecordAt, Rewrite, Touches, Listed, AllPlaced;
    var after := Rewrite(image, bounds, records[..rewritten]);
    forall k | 0 <= k < |image| && image[k] != after[k]
      ensures exists entry :: table <= entry && entry + 4 <= table + 4 * count && Listed(header, entry, bounds, k)
    {
      var i := ChangedByteIsTouched(image, bounds, records[..rewritten], k);
      TouchedByteIsListed(header, image, bounds, table, count, records, i, k);
    }
  }

  lemma ChangedByteIsTouched(image: seq<byte>, bounds: ImageBounds, records: seq<Record>, k: nat) returns (i: nat)
    requires |image| == bounds.size && AllPlaced(records, bounds) && k < |image|
    requires Rewrite(image, bounds, records)[k] != image[k]
    ensures i < |records| && Touches(records[i], bounds, k)
  {
    hide Rewrite, Touches;
    i := 0;
    while i < |records| && !Touches(records[i], bounds, k)
      invariant i <= |records| && forall j :: 0 <= j < i ==> !Touches(records[j], bounds, k)
    {
      i := i + 1;
    }
    if i == |records| {
      RewriteFrame(image, bounds, records, k);
      assert false;
    }
  }

  lemma TouchedByteIsListed(header: seq<byte>, image: seq<byte>, bounds: ImageBounds, table: nat, count: nat,
                            records: seq<Record>, i: nat, k: nat)
    requires HasBytes(header, table, 4 * count) && |image| == bounds.size && i < count
    requires Records(header, image, bounds, table, count) == Some(records)
    requires Touches(records[i], bounds, k)
    ensures Listed(header, table + 4 * i, bounds, k)
  {
    hide Records, RecordAt, ReadBe32, Le32;
    assert RecordAt(header, image, bounds, table + 4 * i) == Some(records[i]);
    RecordIsListed(header, image, bounds, table + 4 * i);
  }

  lemma RecordIsListed(header: seq<byte>, image: seq<byte>, bounds: ImageBounds, entry: nat)
    requires HasBytes(header, entry, 4) && |image| == bounds.size && RecordAt(header, image, bounds, entry).Some?
    ensures RecordAt(header, image, bounds, entry).value.address == ReadBe32(header, entry)
  {
    hide ReadBe32;
  }

  // ---- The whole descriptor ----

  datatype Descriptor = Descriptor(offset: nat, optionSize: nat, stringSize: u32, libraryCount: u32)

  function DescriptorOf(header: seq<byte>, geometry: HeaderGeometry): (descriptor: Option<Descriptor>)
    requires geometry.size <= |header|
    ensures descriptor.Some? ==>
              var d := descriptor.value;
              IMPORT_HEADER_MINIMUM + d.stringSize as int <= d.optionSize && d.offset + d.optionSize <= geometry.size
  {
    match Lookup(header, IMPORTS_KEY, geometry)
    case None => None
    case Some(found) =>
      if found.inlineValue || !HasBytes(header, found.offset, IMPORT_HEADER_MINIMUM) then None
      else
        var optionSize: nat := ReadBe32(header, found.offset);
        var stringSize := ReadBe32(header, found.offset + 4);
        var libraryCount := ReadBe32(header, found.offset + 8);
        if optionSize < IMPORT_HEADER_MINIMUM || optionSize > geometry.size - found.offset
           || stringSize as int > optionSize - IMPORT_HEADER_MINIMUM || libraryCount == 0 then None
        else Some(Descriptor(found.offset, optionSize, stringSize, libraryCount))
  }

  function TableOf(d: Descriptor, names: seq<text>): Table {
    Table(d.offset + IMPORT_HEADER_MINIMUM + d.stringSize as int, d.offset + d.optionSize, names)
  }

  /** The imports of an image and the image they leave, or None if the header is refused. */
  function Imports(header: seq<byte>, image: seq<byte>, geometry: HeaderGeometry, bounds: ImageBounds): (parsed: Option<Parsed>)
    requires |image| == bounds.size && geometry.size <= |header|
    ensures parsed.Some? ==> |parsed.value.image| == bounds.size
  {
    match DescriptorOf(header, geometry)
    case None => None
    case Some(d) =>
      var strings := d.offset + IMPORT_HEADER_MINIMUM;
      match Names(header, strings, strings + d.stringSize as int, d.libraryCount)
      case None => None
      case Some(names) =>
        match Libraries(header, image, bounds, TableOf(d, names), d.libraryCount)
        case None => None
        case Some(parsed) => if parsed.cursor != d.offset + d.optionSize then None else Some(parsed)
  }

  lemma AcceptedParts(header: seq<byte>, image: seq<byte>, geometry: HeaderGeometry, bounds: ImageBounds)
    returns (d: Descriptor, table: Table)
    requires |image| == bounds.size && geometry.size <= |header|
    requires Imports(header, image, geometry, bounds).Some?
    ensures DescriptorOf(header, geometry) == Some(d)
    ensures table.start == d.offset + IMPORT_HEADER_MINIMUM + d.stringSize as int && table.end == d.offset + d.optionSize
    ensures table.start <= table.end <= geometry.size
    ensures Libraries(header, image, bounds, table, d.libraryCount) == Imports(header, image, geometry, bounds)
    ensures Imports(header, image, geometry, bounds).value.cursor == table.end
  {
    hide Names, Libraries;
    d := DescriptorOf(header, geometry).value;
    var strings := d.offset + IMPORT_HEADER_MINIMUM;
    table := TableOf(d, Names(header, strings, strings + d.stringSize as int, d.libraryCount).value);
  }

  /** On acceptance the library records tile the descriptor from the end of its
      string table to its own end. */
  lemma AcceptedImportsTile(header: seq<byte>, image: seq<byte>, geometry: HeaderGeometry, bounds: ImageBounds)
    returns (d: Descriptor, table: Table, cursors: seq<nat>)
    requires |image| == bounds.size && geometry.size <= |header|
    requires Imports(header, image, geometry, bounds).Some?
    ensures DescriptorOf(header, geometry) == Some(d)
    ensures table.start == d.offset + IMPORT_HEADER_MINIMUM + d.stringSize as int
    ensures table.end == d.offset + d.optionSize <= geometry.size
    ensures |cursors| == d.libraryCount as int + 1
    ensures cursors[0] == table.start && cursors[d.libraryCount] == table.end
    ensures forall k :: 0 <= k < |cursors| - 1 ==> Follows(header, table, cursors, k)
  {
    hide *;
    d, table := AcceptedParts(header, image, geometry, bounds);
    cursors := LibrariesTile(header, image, bounds, table, d.libraryCount);
  }

  /** On acceptance the imports name every record in order, and every image byte
      outside the record words and stubs is as it was loaded. */
  lemma AcceptedImportsFrame(header: seq<byte>, image: seq<byte>, geometry: HeaderGeometry, bounds: ImageBounds)
    requires |image| == bounds.size && geometry.size <= |header|
    requires Imports(header, image, geometry, bounds).Some?
    ensures var p := Imports(header, image, geometry, bounds).value;
            && AllNamed(p.imports) == RecordNames(p.records)
            && AllPlaced(p.records, bounds)
            && forall k :: 0 <= k < |image| && (forall record :: record in p.records ==> !Touches(record, bounds, k))
                 ==> p.image[k] == image[k]
  {
    hide Imports, Libraries, Rewrite, Touches, AllNamed, RecordNames;
    var d, table := AcceptedParts(header, image, geometry, bounds);
    LibrariesAccumulate(header, image, bounds, table, d.libraryCount);
    var p := Imports(header, image, geometry, bounds).value;
    forall k | 0 <= k < |image| && (forall record :: record in p.records ==> !Touches(record, bounds, k))
      ensures p.image[k] == image[k]
    {
      RewriteFrame(image, bounds, p.records, k);
    }
  }

  lemma RecordIsAligned(header: seq<byte>, image: seq<byte>, bounds: ImageBounds, entry: nat)
    requires HasBytes(header, entry, 4) && |image| == bounds.size && RecordAt(header, image, bounds, entry).Some?
    ensures RecordAt(header, image, bounds, entry).value.address % 4 == 0
  {
    hide ReadBe32;
  }

  lemma RecordsAreAligned(header: seq<byte>, image: seq<byte>, bounds: ImageBounds, table: nat, count: nat)
    requires HasBytes(header, table, 4 * count) && |image| == bounds.size
    requires Records(header, image, bounds, table, count).Some?
    ensures AllAligned(Records(header, image, bounds, table, count).value)
  {
    hide Records, RecordAt;
    var records := Records(header, image, bounds, table, count).value;
    forall k | 0 <= k < count
      ensures records[k].address % 4 == 0
    {
      assert RecordAt(header, image, bounds, table + 4 * k) == Some(records[k]);
      RecordIsAligned(header, image, bounds, table + 4 * k);
    }
  }

  lemma NextLibraryIsAligned(header: seq<byte>, bounds: ImageBounds, table: Table, p: Parsed)
    requires |p.image| == bounds.size && table.end <= |header| && AllAligned(p.records)
    requires NextLibrary(header, bounds, table, p).Some?
    ensures AllAligned(NextLibrary(header, bounds, table, p).value.records)
  {
    hide Records, Groups, Rewrite, ImportsOf;
    var (size, library, count) := LibraryAt(header, table, p.cursor).value;
    RecordsAreAligned(header, p.image, bounds, p.cursor + IMPORT_LIBRARY_MINIMUM, count);
  }

  lemma {:induction false} LibrariesAreAligned(header: seq<byte>, image: seq<byte>, bounds: ImageBounds, table: Table, count: nat)
    requires |image| == bounds.size && table.end <= |header|
    requires Libraries(header, image, bounds, table, count).Some?
    ensures AllAligned(Libraries(header, image, bounds, table, count).value.records)
    decreases count
  {
    hide NextLibrary, AllAligned;
    if count == 0 {
      assert AllAligned([]) by {
        NothingIsAligned();
      }
    } else {
      LibrariesStep(header, image, bounds, table, count);
      LibrariesAreAligned(header, image, bounds, table, count - 1);
      NextLibraryIsAligned(header, bounds, table, Libraries(header, image, bounds, table, count - 1).value);
    }
  }

  lemma NothingIsAligned()
    ensures AllAligned([])
  {
  }

  /** On acceptance every record's place ends as it was written, by whichever library, if and only
      if no two records clash, as they were read. */
  lemma AcceptedImportsStandIffNoClash(header: seq<byte>, image: seq<byte>, geometry: HeaderGeometry, bounds: ImageBounds)
    requires |image| == bounds.size && geometry.size <= |header|
    requires Imports(header, image, geometry, bounds).Some?
    ensures var p := Imports(header, image, geometry, bounds).value;
            AllPlaced(p.records, bounds)
            && (AllStand(p.image, Places(p.records, bounds)) <==> NoPlacesClash(p.records))
  {
    hide Imports, Libraries, Rewrite, Places, AllStand, NoPlacesClash;
    var d, table := AcceptedParts(header, image, geometry, bounds);
    LibrariesAccumulate(header, image, bounds, table, d.libraryCount);
    LibrariesAreAligned(header, image, bounds, table, d.libraryCount);
    RewriteStandsIffNoClash(image, bounds, Imports(header, image, geometry, bounds).value.records);
  }

  /** The size and the records of the library at `cursor`, in the image as it was loaded. */
  function LoadedLibrary(header: seq<byte>, image: seq<byte>, bounds: ImageBounds, table: Table, cursor: nat): Option<(nat, seq<Record>)>
    requires |image| == bounds.size && table.end <= |header|
  {
    match LibraryAt(header, table, cursor)
    case None => None
    case Some((size, _, count)) =>
      match Records(header, image, bounds, cursor + IMPORT_LIBRARY_MINIMUM, count)
      case None => None
      case Some(records) => Some((size, records))
  }

  /** The records of a one-library table, in the image as it was loaded. */
  function LoadedRecords(header: seq<byte>, image: seq<byte>, bounds: ImageBounds, table: Table): Option<seq<Record>>
    requires |image| == bounds.size && table.end <= |header|
  {
    match LoadedLibrary(header, image, bounds, table, table.start)
    case None => None
    case Some((_, records)) => Some(records)
  }

  /** A descriptor of one library reads every record before it writes: whether its places stand
      is decided by the header and the loaded image alone. */
  lemma OneLibraryStandsIffNoClash(header: seq<byte>, image: seq<byte>, geometry: HeaderGeometry, bounds: ImageBounds)
    returns (d: Descriptor, table: Table)
    requires |image| == bounds.size && geometry.size <= |header|
    requires Imports(header, image, geometry, bounds).Some?
    ensures DescriptorOf(header, geometry) == Some(d)
    ensures table.start == d.offset + IMPORT_HEADER_MINIMUM + d.stringSize as int && table.end == d.offset + d.optionSize
    ensures table.end <= |header|
    ensures d.libraryCount == 1 ==>
              var records := LoadedRecords(header, image, bounds, table); var p := Imports(header, image, geometry, bounds).value;
              && records == Some(p.records) && AllPlaced(p.records, bounds)
              && (AllStand(p.image, Places(p.records, bounds)) <==> NoPlacesClash(records.value))
  {
    hide Imports, Libraries, Rewrite, Places, AllStand, NoPlacesClash, LoadedRecords;
    d, table := AcceptedParts(header, image, geometry, bounds);
    AcceptedImportsStandIffNoClash(header, image, geometry, bounds);
    if d.libraryCount == 1 {
      OneLibraryReadsTheLoadedImage(header, image, bounds, table);
    }
  }

  lemma OneLibraryReadsTheLoadedImage(header: seq<byte>, image: seq<byte>, bounds: ImageBounds, table: Table)
    requires |image| == bounds.size && table.end <= |header| && Libraries(header, image, bounds, table, 1).Some?
    ensures LoadedRecords(header, image, bounds, table) == Some(Libraries(header, image, bounds, table, 1).value.records)
  {
    hide LibraryAt, Records, Groups, Rewrite, ImportsOf;
    NoLibraries(header, image, bounds, table);
    LibrariesStep(header, image, bounds, table, 1);
    var records := LoadedRecords(header, image, bounds, table);
    assert [] + records.value == records.value;
  }

  // ---- Several libraries, on the loaded image ----

  /** Where the libraries end, and their records, when every word is read from one image. */
  datatype Loaded = Loaded(cursor: nat, records: seq<Record>)

  function LoadedLibraries(header: seq<byte>, image: seq<byte>, bounds: ImageBounds, table: Table, count: nat): Option<Loaded>
    requires |image| == bounds.size && table.end <= |header|
  {
    if count == 0 then Some(Loaded(table.start, []))
    else
      match LoadedLibraries(header, image, bounds, table, count - 1)
      case None => None
      case Some(earlier) =>
        match LoadedLibrary(header, image, bounds, table, earlier.cursor)
        case None => None
        case Some((size, records)) => Some(Loaded(earlier.cursor + size, earlier.records + records))
  }

  /** A place covers some byte of the word at `address`. */
  predicate CoversWord(place: Record, address: u32) {
    place.address < address as int + 4 && address < place.address as int + |Rewritten(place)|
  }

  /** Each of these words that an earlier place covers reads the same after the earlier writes. */
  predicate WordsReadBack(image: seq<byte>, bounds: ImageBounds, earlier: seq<Record>, records: seq<Record>)
    requires |image| == bounds.size
  {
    && AllPlaced(earlier, bounds)
    && forall k :: 0 <= k < |records| && (exists place :: place in earlier && CoversWord(place, records[k].address)) ==>
         && bounds.Holds(records[k].address, 4)
         && ReadBe32(Rewrite(image, bounds, earlier), Offset(records[k], bounds)) == ReadBe32(image, Offset(records[k], bounds))
  }

  predicate LaterWordsReadBack(header: seq<byte>, image: seq<byte>, bounds: ImageBounds, table: Table, count: nat)
    requires |image| == bounds.size && table.end <= |header|
    requires LoadedLibraries(header, image, bounds, table, count).Some?
  {
    count == 0
    || (var earlier := LoadedLibraries(header, image, bounds, table, count - 1).value;
        LaterWordsReadBack(header, image, bounds, table, count - 1)
        && WordsReadBack(image, bounds, earlier.records, LoadedLibrary(header, image, bounds, table, earlier.cursor).value.1))
  }

  lemma UncoveredWordIsKept(image: seq<byte>, bounds: ImageBounds, earlier: seq<Record>, record: Record)
    requires |image| == bounds.size && AllPlaced(earlier, bounds) && bounds.Holds(record.address, 4)
    requires forall place :: place in earlier ==> !CoversWord(place, record.address)
    ensures ReadBe32(Rewrite(image, bounds, earlier), Offset(record, bounds)) == ReadBe32(image, Offset(record, bounds))
  {
    hide Rewrite;
    var at := Offset(record, bounds);
    forall k | at <= k < at + 4
      ensures Rewrite(image, bounds, earlier)[k] == image[k]
    {
      forall place | place in earlier
        ensures !Touches(place, bounds, k)
      {
        assert !CoversWord(place, record.address);
      }
      RewriteFrame(image, bounds, earlier, k);
    }
  }

  lemma RecordReadsBack(header: seq<byte>, image: seq<byte>, after: seq<byte>, bounds: ImageBounds, entry: nat)
    requires HasBytes(header, entry, 4) && |image| == |after| == bounds.size
    requires RecordAt(header, image, bounds, entry).Some?
    requires var record := RecordAt(header, image, bounds, entry).value;
             ReadBe32(after, Offset(record, bounds)) == ReadBe32(image, Offset(record, bounds))
    ensures RecordAt(header, after, bounds, entry) == RecordAt(header, image, bounds, entry)
  {
    hide ReadBe32;
  }

  lemma {:induction false} RecordsAreTheSame(header: seq<byte>, image: seq<byte>, after: seq<byte>, bounds: ImageBounds, table: nat, count: nat)
    requires HasBytes(header, table, 4 * count) && |image| == |after| == bounds.size
    requires forall k :: 0 <= k < count ==>
               RecordAt(header, after, bounds, table + 4 * k) == RecordAt(header, image, bounds, table + 4 * k)
    ensures Records(header, after, bounds, table, count) == Records(header, image, bounds, table, count)
    decreases count
  {
    hide RecordAt;
    if count > 0 {
      RecordsAreTheSame(header, image, after, bounds, table, count - 1);
    }
  }

  lemma LibraryReadsBack(header: seq<byte>, image: seq<byte>, bounds: ImageBounds, table: nat, count: nat, earlier: seq<Record>,
                         records: seq<Record>)
    requires HasBytes(header, table, 4 * count) && |image| == bounds.size
    requires Records(header, image, bounds, table, count) == Some(records) && WordsReadBack(image, bounds, earlier, records)
    ensures Records(header, Rewrite(image, bounds, earlier), bounds, table, count) == Some(records)
  {
    hide Records, RecordAt, Rewrite, CoversWord;
    var after := Rewrite(image, bounds, earlier);
    forall k | 0 <= k < count
      ensures RecordAt(header, after, bounds, table + 4 * k) == RecordAt(header, image, bounds, table + 4 * k)
    {
      assert RecordAt(header, image, bounds, table + 4 * k) == Some(records[k]);
      if forall place :: place in earlier ==> !CoversWord(place, records[k].address) {
        UncoveredWordIsKept(image, bounds, earlier, records[k]);
      }
      RecordReadsBack(header, image, after, bounds, table + 4 * k);
    }
    RecordsAreTheSame(header, image, after, bounds, table, count);
  }

  /** When later words read back, the parse's records are those of the loaded image. */
  lemma {:induction false} LoadedRecordsAreRead(header: seq<byte>, image: seq<byte>, bounds: ImageBounds, table: Table, count: nat)
    requires |image| == bounds.size && table.start <= table.end <= |header|
    requires Libraries(header, image, bounds, table, count).Some?
    requires LoadedLibraries(header, image, bounds, table, count).Some? && LaterWordsReadBack(header, image, bounds, table, count)
    ensures var p := Libraries(header, image, bounds, table, count).value;
            LoadedLibraries(header, image, bounds, table, count) == Some(Loaded(p.cursor, p.records))
    decreases count
  {
    hide NextLibrary, LoadedLibrary, WordsReadBack, Rewrite;
    if count > 0 {
      LibrariesStep(header, image, bounds, table, count);
      LoadedRecordsAreRead(header, image, bounds, table, count - 1);
      LibrariesAccumulate(header, image, bounds, table, count - 1);
      NextLibraryReadsBack(header, image, bounds, table, Libraries(header, image, bounds, table, count - 1).value);
    }
  }

  lemma NextLibraryReadsBack(header: seq<byte>, image: seq<byte>, bounds: ImageBounds, table: Table, p: Parsed)
    requires |image| == |p.image| == bounds.size && table.end <= |header|
    requires AllPlaced(p.records, bounds) && p.image == Rewrite(image, bounds, p.records)
    requires NextLibrary(header, bounds, table, p).Some? && LoadedLibrary(header, image, bounds, table, p.cursor).Some?
    requires WordsReadBack(image, bounds, p.records, LoadedLibrary(header, image, bounds, table, p.cursor).value.1)
    ensures var next := NextLibrary(header, bounds, table, p).value;
            var (size, records) := LoadedLibrary(header, image, bounds, table, p.cursor).value;
            next.cursor == p.cursor + size && next.records == p.records + records
  {
    hide Records, Groups, Rewrite, ImportsOf, WordsReadBack;
    var (size, _, count) := LibraryAt(header, table, p.cursor).value;
    var records := LoadedLibrary(header, image, bounds, table, p.cursor).value.1;
    LibraryReadsBack(header, image, bounds, p.cursor + IMPORT_LIBRARY_MINIMUM, count, p.records, records);
  }

  /** However many libraries: when every later word that an earlier place covers reads back, the
      header and the loaded image decide. Then every place stands if and only if no two of the
      loaded records clash. */
  lemma LibrariesStandIffLoadedRecordsDoNotClash(header: seq<byte>, image: seq<byte>, geometry: HeaderGeometry, bounds: ImageBounds)
    returns (d: Descriptor, table: Table)
    requires |image| == bounds.size && geometry.size <= |header|
    requires Imports(header, image, geometry, bounds).Some?
    ensures DescriptorOf(header, geometry) == Some(d)
    ensures table.start == d.offset + IMPORT_HEADER_MINIMUM + d.stringSize as int && table.end == d.offset + d.optionSize
    ensures table.end <= |header|
    ensures LoadedLibraries(header, image, bounds, table, d.libraryCount).Some?
            && LaterWordsReadBack(header, image, bounds, table, d.libraryCount) ==>
              var records := LoadedLibraries(header, image, bounds, table, d.libraryCount).value.records;
              var p := Imports(header, image, geometry, bounds).value;
              && p.records == records && AllPlaced(records, bounds)
              && (AllStand(p.image, Places(records, bounds)) <==> NoPlacesClash(records))
  {
    hide Imports, Libraries, Rewrite, Places, AllStand, NoPlacesClash, LoadedLibraries, LaterWordsReadBack;
    d, table := AcceptedParts(header, image, geometry, bounds);
    AcceptedImportsStandIffNoClash(header, image, geometry, bounds);
    if LoadedLibraries(header, image, bounds, table, d.libraryCount).Some?
       && LaterWordsReadBack(header, image, bounds, table, d.libraryCount) {
      LoadedRecordsAreRead(header, image, bounds, table, d.libraryCount);
    }
  }

  /** If no two records overlap, each variable record's word ends byte-reversed and
      each function record's place holds the stub. */
  lemma AcceptedImportsAreRewritten(header: seq<byte>, image: seq<byte>, geometry: HeaderGeometry, bounds: ImageBounds, k: nat)
    requires |image| == bounds.size && geometry.size <= |header|
    requires Imports(header, image, geometry, bounds).Some?
    requires AllSeparate(Imports(header, image, geometry, bounds).value.records)
    requires k < |Imports(header, image, geometry, bounds).value.records|
    ensures var p := Imports(header, image, geometry, bounds).value;
            var record := p.records[k];
            bounds.Holds(record.address, 4) &&
            var at := Offset(record, bounds);
            if record.isFunction then StandsAt(p.image, at, FUNCTION_STUB)
            else StandsAt(p.image, at, [image[at + 3], image[at + 2], image[at + 1], image[at]])
  {
    hide Imports, Libraries, Rewrite;
    var d, table := AcceptedParts(header, image, geometry, bounds);
    LibrariesAccumulate(header, image, bounds, table, d.libraryCount);
    RecordsReadTheLoadedImage(header, image, bounds, table, d.libraryCount, k);
    var p := Imports(header, image, geometry, bounds).value;
    RewriteIsExact(image, bounds, p.records, k);
    var at := Offset(p.records[k], bounds);
    SwapReverses(image[at..at + 4]);
    assert ReadBe32(image[at..at + 4], 0) == ReadBe32(image, at);
  }

  // ---- The parser ----

  method WriteU32Le(bytes: array<byte>, offset: nat, value: u32)
    requires offset + 4 <= bytes.Length
    modifies bytes
    ensures bytes[..] == Patched(old(bytes[..]), offset, Le32(value))
  {
    bytes[offset] := value % 0x100;
    bytes[offset + 1] := value / 0x100 % 0x100;
    bytes[offset + 2] := value / 0x1_0000 % 0x100;
    bytes[offset + 3] := value / 0x100_0000 % 0x100;
    assert bytes[..] == Patched(old(bytes[..]), offset, Le32(value));
  }

  method NormalizeFunctionStub(image: array<byte>, offset: nat)
    requires offset + 16 <= image.Length
    modifies image
    ensures image[..] == Patched(old(image[..]), offset, FUNCTION_STUB)
  {
    for index := 0 to 16
      invariant forall k :: 0 <= k < image.Length ==>
        image[k] == if offset <= k < offset + index then FUNCTION_STUB[k - offset] else old(image[k])
    {
      image[offset + index] := FUNCTION_STUB[index];
    }
    assert image[..] == Patched(old(image[..]), offset, FUNCTION_STUB);
  }

  method ReadRecords(header: seq<byte>, image: array<byte>, bounds: ImageBounds, table: nat, count: u16)
    returns (records: Option<seq<Record>>)
    requires HasBytes(header, table, 4 * count as int) && image.Length == bounds.size
    ensures records == Records(header, image[..], bounds, table, count)
  {
    hide ReadBe32;
    var read: seq<Record> := [];
    for index := 0 to count
      invariant Records(header, image[..], bounds, table, index) == Some(read)
    {
      var entry := table + index * 4;
      var address := ReadBe32(header, entry);
      if address == 0 || address % 4 != 0 || !bounds.Holds(address, 4) {
        RecordsRefused(header, image[..], bounds, table, index, count);
        return None;
      }
      var value := ReadBe32(image[..], address - bounds.base);
      var kind := value / 0x100_0000;
      if kind != 0 && kind != 1 {
        RecordsRefused(header, image[..], bounds, table, index, count);
        return None;
      }
      read := read + [Record(value % 0x1_0000, address, value, kind == 1)];
    }
    records := Some(read);
  }

  lemma {:induction false} RecordsRefused(header: seq<byte>, image: seq<byte>, bounds: ImageBounds, table: nat, index: nat, count: nat)
    requires HasBytes(header, table, 4 * count) && |image| == bounds.size && index < count
    requires RecordAt(header, image, bounds, table + 4 * index) == None
    ensures Records(header, image, bounds, table, count) == None
    decreases count
  {
    hide RecordAt;
    if index < count - 1 {
      RecordsRefused(header, image, bounds, table, index, count - 1);
    }
  }

  function PrependGroups(groups: seq<Group>, rest: Option<seq<Group>>): Option<seq<Group>> {
    match rest
    case None => None
    case Some(more) => Some(groups + more)
  }

  lemma GroupsContinue(records: seq<Record>, bounds: ImageBounds, index: nat, groups: seq<Group>, group: Group)
    requires index < |records| && NextGroup(records[index..], bounds) == Some(group)
    ensures index + |GroupRecords(group)| <= |records|
    ensures PrependGroups(groups, Groups(records[index..], bounds)) ==
            PrependGroups(groups + [group], Groups(records[index + |GroupRecords(group)|..], bounds))
  {
    var size := |GroupRecords(group)|;
    assert records[index..][size..] == records[index + size..];
    var rest := Groups(records[index + size..], bounds);
    if rest.Some? {
      assert groups + [group] + rest.value == groups + ([group] + rest.value);
    }
  }

  /** The two writes of the grouping loop, each one record further. */
  method RewriteVariable(image: array<byte>, bounds: ImageBounds, ghost loaded: seq<byte>, records: seq<Record>, index: nat)
    requires image.Length == |loaded| == bounds.size && index < |records|
    requires !records[index].isFunction && bounds.Holds(records[index].address, 4)
    requires AllPlaced(records[..index], bounds) && image[..] == Rewrite(loaded, bounds, records[..index])
    modifies image
    ensures AllPlaced(records[..index + 1], bounds) && image[..] == Rewrite(loaded, bounds, records[..index + 1])
  {
    hide Rewrite, AllPlaced, Le32;
    WriteU32Le(image, records[index].address - bounds.base, records[index].value);
    RewriteNext(loaded, bounds, records, index);
  }

  method RewriteThunk(image: array<byte>, bounds: ImageBounds, ghost loaded: seq<byte>, records: seq<Record>, index: nat)
    requires image.Length == |loaded| == bounds.size && index < |records|
    requires records[index].isFunction && bounds.Holds(records[index].address, 16)
    requires AllPlaced(records[..index], bounds) && image[..] == Rewrite(loaded, bounds, records[..index])
    modifies image
    ensures AllPlaced(records[..index + 1], bounds) && image[..] == Rewrite(loaded, bounds, records[..index + 1])
  {
    hide Rewrite, AllPlaced;
    NormalizeFunctionStub(image, records[index].address - bounds.base);
    RewriteNext(loaded, bounds, records, index);
  }

  /** Groups the records and rewrites the image as it goes, in place. */
  method EmitImports(image: array<byte>, bounds: ImageBounds, records: seq<Record>, library: text, before: seq<Import>)
    returns (imports: Option<seq<Import>>, ghost rewritten: nat)
    requires image.Length == bounds.size
    requires forall record :: record in records ==> bounds.Holds(record.address, 4)
    modifies image
    ensures imports.Some? <==> Groups(records, bounds).Some?
    ensures imports.Some? ==>
              && imports.value == before + ImportsOf(Groups(records, bounds).value, library)
              && AllPlaced(records, bounds)
              && image[..] == Rewrite(old(image[..]), bounds, records)
    ensures rewritten <= |records| && AllPlaced(records[..rewritten], bounds)
    ensures image[..] == Rewrite(old(image[..]), bounds, records[..rewritten])
  {
    hide Groups, Rewrite, ImportsOf, PrependGroups, Placed, AllPlaced;
    rewritten := 0;
    var emitted := before;
    var index: nat := 0;
    ghost var groups: seq<Group> := [];
    EmitStart(old(image[..]), bounds, records, library, before);
    while index < |records|
      invariant index <= |records|
      invariant Groups(records, bounds) == PrependGroups(groups, Groups(records[index..], bounds))
      invariant emitted == before + ImportsOf(groups, library)
      invariant AllPlaced(records[..index], bounds)
      invariant image[..] == Rewrite(old(image[..]), bounds, records[..index])
    {
      var variable := records[index];
      if variable.isFunction {
        EmitRefused(records, bounds, index, groups);
        return None, index;
      }
      RewriteVariable(image, bounds, old(image[..]), records, index);
      if index + 1 < |records| && records[index + 1].isFunction {
        var thunk := records[index + 1];
        if thunk.ordinal != variable.ordinal || !bounds.Holds(thunk.address, 16) {
          EmitRefused(records, bounds, index, groups);
          return None, index + 1;
        }
        RewriteThunk(image, bounds, old(image[..]), records, index + 1);
        GroupsContinue(records, bounds, index, groups, FunctionGroup(variable, thunk));
        ImportsOfOneMore(groups, FunctionGroup(variable, thunk), library);
        emitted := emitted + [Import(Function, library, thunk.ordinal, thunk.address, variable.address)];
        groups := groups + [FunctionGroup(variable, thunk)];
        index := index + 2;
      } else {
        GroupsContinue(records, bounds, index, groups, VariableGroup(variable));
        ImportsOfOneMore(groups, VariableGroup(variable), library);
        emitted := emitted + [Import(Variable, library, variable.ordinal, variable.address, variable.address)];
        groups := groups + [VariableGroup(variable)];
        index := index + 1;
      }
    }
    EmitEnd(records, bounds, groups);
    assert records[..index] == records;
    imports, rewritten := Some(emitted), index;
  }

  lemma EmitStart(image: seq<byte>, bounds: ImageBounds, records: seq<Record>, library: text, before: seq<Import>)
    requires |image| == bounds.size
    ensures AllPlaced(records[..0], bounds) && Rewrite(image, bounds, records[..0]) == image
    ensures Groups(records, bounds) == PrependGroups([], Groups(records[0..], bounds))
    ensures before + ImportsOf([], library) == before
  {
    assert records[0..] == records;
    if Groups(records, bounds).Some? {
      assert [] + Groups(records, bounds).value == Groups(records, bounds).value;
    }
  }

  lemma EmitRefused(records: seq<Record>, bounds: ImageBounds, index: nat, groups: seq<Group>)
    requires index < |records| && NextGroup(records[index..], bounds) == None
    ensures PrependGroups(groups, Groups(records[index..], bounds)) == None
  {
  }

  lemma EmitEnd(records: seq<Record>, bounds: ImageBounds, groups: seq<Group>)
    ensures PrependGroups(groups, Groups(records[|records|..], bounds)) == Some(groups)
  {
    assert groups + [] == groups;
  }

  lemma ImportsOfOneMore(groups: seq<Group>, group: Group, library: text)
    ensures ImportsOf(groups + [group], library) == ImportsOf(groups, library) + [ImportOf(group, library)]
  {
    assert (groups + [group])[..|groups|] == groups;
  }

  lemma RewriteNext(image: seq<byte>, bounds: ImageBounds, records: seq<Record>, index: nat)
    requires |image| == bounds.size && index < |records|
    requires AllPlaced(records[..index], bounds) && Placed(records[index], bounds)
    ensures AllPlaced(records[..index + 1], bounds)
    ensures Rewrite(image, bounds, records[..index + 1]) ==
            Patched(Rewrite(image, bounds, records[..index]), Offset(records[index], bounds), Rewritten(records[index]))
  {
    hide Rewritten;
    assert records[..index + 1][..index] == records[..index];
  }

  /** Parses and rewrites in place. The header bytes it reads and the image bytes it
      writes are always inside them; accepted or refused part-way, it changes only bytes at
      addresses the header lists. */
  method ParseImports(header: seq<byte>, image: array<byte>, geometry: HeaderGeometry, bounds: ImageBounds)
    returns (imports: Option<seq<Import>>)
    requires geometry.size <= |header| && image.Length == bounds.size
    modifies image
    ensures match Imports(header, old(image[..]), geometry, bounds)
            case None => imports == None
            case Some(parsed) => imports == Some(parsed.imports) && image[..] == parsed.image
    ensures OnlyListedBytesChange(header, 0, geometry.size, bounds, old(image[..]), image[..])
  {
    hide Names, Libraries, NextLibrary, ReadBe32, Lookup, OnlyListedBytesChange;
    NoBytesChange(header, 0, geometry.size, bounds, image[..]);
    var found := FindOptional(header, IMPORTS_KEY, geometry);
    if found.None? || found.value.inlineValue || !HasBytes(header, found.value.offset, IMPORT_HEADER_MINIMUM) {
      return None;
    }
    var offset := found.value.offset;
    var optionSize: nat := ReadBe32(header, offset);
    var stringSize := ReadBe32(header, offset + 4);
    var libraryCount := ReadBe32(header, offset + 8);
    if optionSize < IMPORT_HEADER_MINIMUM || optionSize > geometry.size - offset
       || stringSize as int > optionSize - IMPORT_HEADER_MINIMUM || libraryCount == 0 {
      return None;
    }
    var stringOffset := offset + IMPORT_HEADER_MINIMUM;
    var libraryOffset := stringOffset + stringSize as int;
    if libraryOffset > offset + optionSize {
      return None;
    }
    var names := ParseImportLibraryNames(header, stringOffset, stringSize, libraryCount);
    if names.None? {
      return None;
    }
    var table := Table(libraryOffset, offset + optionSize, names.value);
    var cursor, parsed := ParseLibraries(header, image, bounds, table, libraryCount);
    ChangesAddUp(header, 0, geometry.size, bounds, table.start, table.end, old(image[..]), old(image[..]), image[..]);
    if parsed.None? || cursor != offset + optionSize {
      return None;
    }
    imports := parsed;
  }

  method ParseLibraries(header: seq<byte>, image: array<byte>, bounds: ImageBounds, table: Table, libraryCount: u32)
    returns (cursor: nat, imports: Option<seq<Import>>)
    requires table.end <= |header| && image.Length == bounds.size
    modifies image
    ensures match Libraries(header, old(image[..]), bounds, table, libraryCount)
            case None => imports == None
            case Some(parsed) => cursor == parsed.cursor && imports == Some(parsed.imports) && image[..] == parsed.image
    ensures OnlyListedBytesChange(header, table.start, table.end, bounds, old(image[..]), image[..])
  {
    hide Libraries, NextLibrary, Rewrite, Groups, Records, ImportsOf, OnlyListedBytesChange;
    cursor := table.start;
    NoBytesChange(header, table.start, table.end, bounds, image[..]);
    var emitted: seq<Import> := [];
    NoLibraries(header, image[..], bounds, table);
    for index := 0 to libraryCount
      invariant Libraries(header, old(image[..]), bounds, table, index).Some?
      invariant var p := Libraries(header, old(image[..]), bounds, table, index).value;
                p.cursor == cursor && p.imports == emitted && p.image == image[..]
      invariant table.start <= cursor
      invariant OnlyListedBytesChange(header, table.start, table.end, bounds, old(image[..]), image[..])
    {
      ghost var between := image[..];
      ghost var p := Libraries(header, old(image[..]), bounds, table, index).value;
      var ok, size, more := ParseLibrary(header, image, bounds, table, p.records, cursor, emitted);
      ChangesAddUp(header, table.start, table.end, bounds, cursor, table.end, old(image[..]), between, image[..]);
      if !ok {
        LibrariesRefused(header, old(image[..]), bounds, table, index, libraryCount);
        return cursor, None;
      }
      LibrariesContinue(header, old(image[..]), bounds, table, index);
      cursor, emitted := cursor + size, more;
    }
    imports := Some(emitted);
  }

  lemma LibrariesContinue(header: seq<byte>, image: seq<byte>, bounds: ImageBounds, table: Table, index: nat)
    requires |image| == bounds.size && table.end <= |header|
    requires Libraries(header, image, bounds, table, index).Some?
    ensures Libraries(header, image, bounds, table, index + 1) ==
            NextLibrary(header, bounds, table, Libraries(header, image, bounds, table, index).value)
  {
    hide NextLibrary;
  }

  lemma {:induction false} LibrariesRefused(header: seq<byte>, image: seq<byte>, bounds: ImageBounds, table: Table, index: nat, count: nat)
    requires |image| == bounds.size && table.end <= |header| && index < count
    requires Libraries(header, image, bounds, table, index).Some?
    requires NextLibrary(header, bounds, table, Libraries(header, image, bounds, table, index).value) == None
    ensures Libraries(header, image, bounds, table, count) == None
    decreases count
  {
    hide NextLibrary;
    if index < count - 1 {
      LibrariesRefused(header, image, bounds, table, index, count - 1);
    }
  }

  /** One turn of the library loop. */
  method ParseLibrary(header: seq<byte>, image: array<byte>, bounds: ImageBounds, table: Table, ghost records: seq<Record>,
                      cursor: nat, before: seq<Import>)
    returns (ok: bool, size: nat, imports: seq<Import>)
    requires table.end <= |header| && image.Length == bounds.size
    modifies image
    ensures match NextLibrary(header, bounds, table, Parsed(cursor, before, old(image[..]), records))
            case None => !ok
            case Some(next) => ok && next.cursor == cursor + size && next.imports == imports && next.image == image[..]
    ensures OnlyListedBytesChange(header, cursor, table.end, bounds, old(image[..]), image[..])
  {
    hide Records, Groups, ImportsOf, Rewrite, ReadBe32, ReadBe16, OnlyListedBytesChange;
    ok, size, imports := false, 0, before;
    NoBytesChange(header, cursor, table.end, bounds, image[..]);
    if !HasBytes(header, cursor, IMPORT_LIBRARY_MINIMUM) || cursor + IMPORT_LIBRARY_MINIMUM > table.end {
      return;
    }
    size := ReadBe32(header, cursor);
    var name := ReadBe16(header, cursor + 0x24);
    var count := ReadBe16(header, cursor + 0x26);
    if size < IMPORT_LIBRARY_MINIMUM || 4 * count as int > size - IMPORT_LIBRARY_MINIMUM
       || size > table.end - cursor || name >= |table.names| {
      return;
    }
    var read := ReadRecords(header, image, bounds, cursor + IMPORT_LIBRARY_MINIMUM, count);
    if read.None? {
      return;
    }
    assert forall record :: record in read.value ==> bounds.Holds(record.address, 4) by {
      RecordsHold(header, image[..], bounds, cursor + IMPORT_LIBRARY_MINIMUM, count);
    }
    var emitted, rewritten := EmitImports(image, bounds, read.value, table.names[name], before);
    var records0 := cursor + IMPORT_LIBRARY_MINIMUM;
    RecordsChangeListedBytes(header, old(image[..]), bounds, records0, count, read.value, rewritten);
    ChangesAddUp(header, cursor, table.end, bounds, records0, records0 + 4 * count as int, old(image[..]), old(image[..]), image[..]);
    if emitted.None? {
      return;
    }
    ok, imports := true, emitted.value;
  }

  lemma RecordsHold(header: seq<byte>, image: seq<byte>, bounds: ImageBounds, table: nat, count: nat)
    requires HasBytes(header, table, 4 * count) && |image| == bounds.size
    requires Records(header, image, bounds, table, count).Some?
    ensures forall record :: record in Records(header, image, bounds, table, count).value ==> bounds.Holds(record.address, 4)
  {
    hide Records;
    var records := Records(header, image, bounds, table, count).value;
    forall record | record in records ensures bounds.Holds(record.address, 4) {
      var k :| 0 <= k < |records| && records[k] == record;
      assert RecordAt(header, image, bounds, table + 4 * k) == Some(records[k]);
    }
  }
}
