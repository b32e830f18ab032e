/** What an accepted import descriptor is, field by field, and that nothing else is accepted. */
module XexImportLibraries {
  import opened Bytes
  import opened ModuleContract
  import opened XexHeader
  import XexImportNames
  import opened XexImportTable

  /** One library record: where it starts and ends, the image as it finds and leaves it, its records
      grouped, and the imports they yield. */
  datatype Library = Library(
    cursor: nat, next: nat, before: seq<byte>, after: seq<byte>, groups: seq<Group>, imports: seq<Import>)

  predicate AddressStands(bounds: ImageBounds, address: u32, bytes: nat) {
    bounds.base <= address && address - bounds.base + bytes <= bounds.size
  }

  /** The table word at `entry` is the record's address; the image word there has its type in its
      top byte and its ordinal in its low half. */
  predicate RecordStands(header: seq<byte>, entry: nat, bounds: ImageBounds, image: seq<byte>, record: Record) {
    && HasBytes(header, entry, 4) && record.address == ReadBe32(header, entry)
    && record.address != 0 && record.address % 4 == 0
    && |image| == bounds.size && AddressStands(bounds, record.address, 4)
    && record.value == ReadBe32(image, record.address - bounds.base)
    && record.value < 0x200_0000
    && record.ordinal == record.value % 0x1_0000
    && (record.isFunction <==> record.value >= 0x100_0000)
  }

  /** A variable record, alone or followed by a function record of the same ordinal
      whose sixteen bytes are inside the image. */
  predicate GroupStands(group: Group, bounds: ImageBounds) {
    && !group.variable.isFunction
    && (group.FunctionGroup? ==>
          && group.thunk.isFunction
          && group.thunk.ordinal == group.variable.ordinal
          && AddressStands(bounds, group.thunk.address, 16))
  }

  predicate ImportStands(imp: Import, group: Group, library: text) {
    && imp.library == library
    && imp.ordinal == group.variable.ordinal
    && imp.recordAddress == group.variable.address
    && (group.VariableGroup? ==> imp.kind == Variable && imp.address == group.variable.address)
    && (group.FunctionGroup? ==> imp.kind == Function && imp.address == group.thunk.address)
  }

  /** The fields of one library record: its size, the index of its name, its record count and table. */
  ghost predicate LibraryStands(header: seq<byte>, bounds: ImageBounds, end: nat, names: seq<text>, l: Library) {
    && l.cursor + 0x28 <= end <= |header|
    && l.next == l.cursor + ReadBe32(header, l.cursor) <= end
    && 0x28 + 4 * ReadBe16(header, l.cursor + 0x26) <= ReadBe32(header, l.cursor)
    && |Flatten(l.groups)| == ReadBe16(header, l.cursor + 0x26)
    && (forall j :: 0 <= j < |Flatten(l.groups)| ==>
          RecordStands(header, l.cursor + 0x28 + 4 * j, bounds, l.before, Flatten(l.groups)[j]))
    && (forall i :: 0 <= i < |l.groups| ==> GroupStands(l.groups[i], bounds))
    && ReadBe16(header, l.cursor + 0x24) < |names|
    && |l.imports| == |l.groups|
    && (forall i :: 0 <= i < |l.imports| ==>
          ImportStands(l.imports[i], l.groups[i], names[ReadBe16(header, l.cursor + 0x24)]))
    && |l.before| == bounds.size && AllPlaced(Flatten(l.groups), bounds)
    && l.after == Rewrite(l.before, bounds, Flatten(l.groups))
  }

  function AllImports(libraries: seq<Library>): seq<Import> {
    if |libraries| == 0 then [] else AllImports(libraries[..|libraries| - 1]) + libraries[|libraries| - 1].imports
  }

  function AllRecords(libraries: seq<Library>): seq<Record> {
    if |libraries| == 0 then []
    else AllRecords(libraries[..|libraries| - 1]) + Flatten(libraries[|libraries| - 1].groups)
  }

  /** Each library stands, starts where the one before ends, and finds the image as that one left it. */
  ghost predicate LibrariesStand(header: seq<byte>, bounds: ImageBounds, start: nat, end: nat, names: seq<text>,
                                 image: seq<byte>, libraries: seq<Library>) {
    && (forall k :: 0 <= k < |libraries| ==> LibraryStands(header, bounds, end, names, libraries[k]))
    && (|libraries| > 0 ==> libraries[0].cursor == start && libraries[0].before == image)
    && (forall k {:trigger libraries[k].cursor} :: 0 < k < |libraries| ==>
          libraries[k].cursor == libraries[k - 1].next && libraries[k].before == libraries[k - 1].after)
  }

  function EndOf(start: nat, image: seq<byte>, libraries: seq<Library>): Parsed {
    if |libraries| == 0 then Parsed(start, [], image, [])
    else Parsed(libraries[|libraries| - 1].next, AllImports(libraries),
                libraries[|libraries| - 1].after, AllRecords(libraries))
  }

  // ---- One library ----

  lemma RecordStandsIff(header: seq<byte>, entry: nat, bounds: ImageBounds, image: seq<byte>, record: Record)
    requires HasBytes(header, entry, 4) && |image| == bounds.size
    ensures RecordStands(header, entry, bounds, image, record) <==> RecordAt(header, image, bounds, entry) == Some(record)
  {
    hide ReadBe32;
  }

  lemma RecordsStand(header: seq<byte>, image: seq<byte>, bounds: ImageBounds, table: nat, records: seq<Record>)
    requires HasBytes(header, table, 4 * |records|) && |image| == bounds.size
    requires Records(header, image, bounds, table, |records|) == Some(records)
    ensures forall j :: 0 <= j < |records| ==> RecordStands(header, table + 4 * j, bounds, image, records[j])
  {
    hide RecordStands, RecordAt, Records;
    forall j | 0 <= j < |records|
      ensures RecordStands(header, table + 4 * j, bounds, image, records[j])
    {
      assert RecordAt(header, image, bounds, table + 4 * j) == Some(records[j]);
      RecordStandsIff(header, table + 4 * j, bounds, image, records[j]);
    }
  }

  lemma {:induction false} StandingRecordsAreRead(
      header: seq<byte>, image: seq<byte>, bounds: ImageBounds, table: nat, records: seq<Record>)
    requires HasBytes(header, table, 4 * |records|) && |image| == bounds.size
    requires forall j :: 0 <= j < |records| ==> RecordStands(header, table + 4 * j, bounds, image, records[j])
    ensures Records(header, image, bounds, table, |records|) == Some(records)
    decreases |records|
  {
    hide RecordStands, RecordAt;
    if |records| > 0 {
      var n := |records| - 1;
      StandingRecordsAreRead(header, image, bounds, table, records[..n]);
      RecordStandsIff(header, table + 4 * n, bounds, image, records[n]);
      assert records == records[..n] + [records[n]];
    }
  }

  lemma GroupStandsIff(group: Group, bounds: ImageBounds)
    ensures GroupStands(group, bounds) <==> GroupFormed(group, bounds)
  {
  }

  lemma GroupsStandIff(groups: seq<Group>, bounds: ImageBounds)
    ensures (forall i :: 0 <= i < |groups| ==> GroupStands(groups[i], bounds)) <==> AllFormed(groups, bounds)
  {
    hide GroupStands, GroupFormed;
    forall i | 0 <= i < |groups|
      ensures GroupStands(groups[i], bounds) <==> GroupFormed(groups[i], bounds)
    {
      GroupStandsIff(groups[i], bounds);
    }
  }

  lemma ImportStandsIff(imp: Import, group: Group, library: text, bounds: ImageBounds)
    requires GroupStands(group, bounds)
    ensures ImportStands(imp, group, library) <==> imp == ImportOf(group, library)
  {
  }

  lemma {:induction false} ImportsStandIff(imports: seq<Import>, groups: seq<Group>, library: text, bounds: ImageBounds)
    requires |imports| == |groups| && forall i :: 0 <= i < |groups| ==> GroupStands(groups[i], bounds)
    ensures (forall i :: 0 <= i < |imports| ==> ImportStands(imports[i], groups[i], library))
            <==> imports == ImportsOf(groups, library)
    decreases |groups|
  {
    hide ImportStands, ImportOf, GroupStands;
    if |groups| > 0 {
      var n := |groups| - 1;
      ImportsStandIff(imports[..n], groups[..n], library, bounds);
      ImportStandsIff(imports[n], groups[n], library, bounds);
      assert imports == imports[..n] + [imports[n]];
    }
  }

  lemma {:induction false} AsManyImportsAsGroups(groups: seq<Group>, library: text)
    ensures |ImportsOf(groups, library)| == |groups|
    decreases |groups|
  {
    if |groups| > 0 {
      AsManyImportsAsGroups(groups[..|groups| - 1], library);
    }
  }

  function After(p: Parsed, l: Library): Parsed {
    Parsed(l.next, p.imports + l.imports, l.after, p.records + Flatten(l.groups))
  }

  lemma NextLibraryStands(header: seq<byte>, bounds: ImageBounds, table: Table, p: Parsed) returns (l: Library)
    requires |p.image| == bounds.size && table.end <= |header|
    requires NextLibrary(header, bounds, table, p).Some?
    ensures LibraryStands(header, bounds, table.end, table.names, l)
    ensures l.cursor == p.cursor && l.before == p.image
    ensures NextLibrary(header, bounds, table, p) == Some(After(p, l))
  {
    hide Records, Groups, Rewrite, RecordStands, GroupStands, ImportStands, ImportsOf, ReadBe32, ReadBe16, Flatten, AllFormed, Placed;
    var (size, library, count) := LibraryAt(header, table, p.cursor).value;
    var records := Records(header, p.image, bounds, p.cursor + 0x28, count).value;
    var groups := Groups(records, bounds).value;
    GroupedRecordsArePlaced(records, bounds);
    GroupsAreFormed(records, bounds);
    GroupsStandIff(groups, bounds);
    RecordsStand(header, p.image, bounds, p.cursor + 0x28, records);
    AsManyImportsAsGroups(groups, library);
    ImportsStandIff(ImportsOf(groups, library), groups, library, bounds);
    l := Library(p.cursor, p.cursor + size, p.image, Rewrite(p.image, bounds, records), groups, ImportsOf(groups, library));
  }

  lemma StandingLibraryIsNext(header: seq<byte>, bounds: ImageBounds, table: Table, p: Parsed, l: Library)
    requires |p.image| == bounds.size && table.end <= |header|
    requires LibraryStands(header, bounds, table.end, table.names, l)
    requires l.cursor == p.cursor && l.before == p.image
    ensures NextLibrary(header, bounds, table, p) == Some(After(p, l))
  {
    hide Records, Groups, Rewrite, RecordStands, GroupStands, ImportStands, ImportsOf, ReadBe32, ReadBe16, Flatten, AllFormed, Placed;
    var records := Flatten(l.groups);
    var library := table.names[ReadBe16(header, l.cursor + 0x24)];
    StandingRecordsAreRead(header, p.image, bounds, l.cursor + 0x28, records);
    GroupsStandIff(l.groups, bounds);
    GroupingIsUnique(records, bounds, l.groups);
    ImportsStandIff(l.imports, l.groups, library, bounds);
  }

  // ---- All libraries ----

  lemma LibrariesAndOneMore(header: seq<byte>, bounds: ImageBounds, start: nat, end: nat, names: seq<text>,
                            image: seq<byte>, init: seq<Library>, last: Library)
    ensures LibrariesStand(header, bounds, start, end, names, image, init + [last])
            <==> LibrariesStand(header, bounds, start, end, names, image, init)
                 && LibraryStands(header, bounds, end, names, last)
                 && last.cursor == EndOf(start, image, init).cursor && last.before == EndOf(start, image, init).image
    ensures EndOf(start, image, init + [last]) == After(EndOf(start, image, init), last)
  {
    hide LibraryStands, Flatten, AllImports, AllRecords;
    var libraries, n := init + [last], |init|;
    assert libraries[..n] == init && libraries[n] == last;
    assert forall k :: 0 <= k < n ==> libraries[k] == init[k];
    assert AllImports(libraries) == AllImports(init) + last.imports
           && AllRecords(libraries) == AllRecords(init) + Flatten(last.groups) by {
      AllOfOneMore(init, last);
    }
    if n == 0 {
      NoneOfNothing(init);
    } else {
      assert libraries[0] == init[0] && libraries[n - 1] == init[n - 1];
    }
    if LibrariesStand(header, bounds, start, end, names, image, libraries) {
      forall k | 0 <= k < n
        ensures LibraryStands(header, bounds, end, names, init[k])
      {
        assert init[k] == libraries[k];
      }
      forall k {:trigger init[k].cursor} | 0 < k < n
        ensures init[k].cursor == init[k - 1].next && init[k].before == init[k - 1].after
      {
        assert libraries[k].cursor == libraries[k - 1].next;
      }
      if n > 0 {
        assert libraries[n].cursor == libraries[n - 1].next;
      }
    }
  }

  lemma AllOfOneMore(init: seq<Library>, last: Library)
    ensures AllImports(init + [last]) == AllImports(init) + last.imports
    ensures AllRecords(init + [last]) == AllRecords(init) + Flatten(last.groups)
  {
    hide Flatten;
    assert (init + [last])[..|init|] == init;
  }

  lemma NoneOfNothing(libraries: seq<Library>)
    requires |libraries| == 0
    ensures AllImports(libraries) == [] && AllRecords(libraries) == []
  {
  }

  lemma NoneStand(header: seq<byte>, bounds: ImageBounds, start: nat, end: nat, names: seq<text>, image: seq<byte>)
    ensures LibrariesStand(header, bounds, start, end, names, image, [])
    ensures EndOf(start, image, []) == Parsed(start, [], image, [])
  {
  }

  lemma {:induction false} LibrariesAreStanding(header: seq<byte>, image: seq<byte>, bounds: ImageBounds, table: Table, count: nat)
    returns (libraries: seq<Library>)
    requires |image| == bounds.size && table.end <= |header|
    requires Libraries(header, image, bounds, table, count).Some?
    ensures |libraries| == count
    ensures LibrariesStand(header, bounds, table.start, table.end, table.names, image, libraries)
    ensures Libraries(header, image, bounds, table, count) == Some(EndOf(table.start, image, libraries))
    decreases count
  {
    hide Libraries, NextLibrary, LibraryStands, LibrariesStand, EndOf, After;
    if count == 0 {
      NoLibraries(header, image, bounds, table);
      NoneStand(header, bounds, table.start, table.end, table.names, image);
      return [];
    }
    LibrariesStep(header, image, bounds, table, count);
    var before := Libraries(header, image, bounds, table, count - 1).value;
    var init := LibrariesAreStanding(header, image, bounds, table, count - 1);
    var last := NextLibraryStands(header, bounds, table, before);
    libraries := init + [last];
    LibrariesAndOneMore(header, bounds, table.start, table.end, table.names, image, init, last);
  }

  lemma {:induction false} StandingLibrariesAreParsed(
      header: seq<byte>, image: seq<byte>, bounds: ImageBounds, table: Table, libraries: seq<Library>)
    requires |image| == bounds.size && table.end <= |header|
    requires LibrariesStand(header, bounds, table.start, table.end, table.names, image, libraries)
    ensures Libraries(header, image, bounds, table, |libraries|) == Some(EndOf(table.start, image, libraries))
    decreases |libraries|
  {
    hide Libraries, NextLibrary, LibraryStands, LibrariesStand, EndOf, After;
    var count := |libraries|;
    if count == 0 {
      NoLibraries(header, image, bounds, table);
      NoneStand(header, bounds, table.start, table.end, table.names, image);
      assert libraries == [];
    } else {
      var init, last := libraries[..count - 1], libraries[count - 1];
      assert libraries == init + [last];
      LibrariesAndOneMore(header, bounds, table.start, table.end, table.names, image, init, last);
      StandingLibrariesAreParsed(header, image, bounds, table, init);
      LibrariesContinue(header, image, bounds, table, count - 1);
      StandingLibraryIsNext(header, bounds, table, EndOf(table.start, image, init), last);
    }
  }

  // ---- The descriptor ----

  /** The descriptor at `offset` declares `count` libraries, `strings` bytes of names and `size` bytes in all. */
  predicate DescriptorStands(header: seq<byte>, geometry: HeaderGeometry, offset: nat, size: nat, strings: nat, count: nat)
    requires geometry.size <= |header|
  {
    && Lookup(header, 0x103FF, geometry).Some?
    && !Lookup(header, 0x103FF, geometry).value.inlineValue
    && Lookup(header, 0x103FF, geometry).value.offset == offset
    && offset + 12 <= |header|
    && size == ReadBe32(header, offset)
    && strings == ReadBe32(header, offset + 4)
    && count == ReadBe32(header, offset + 8) && count > 0
    && 12 + strings <= size && offset + size <= geometry.size
  }

  lemma DescriptorStandsIff(header: seq<byte>, geometry: HeaderGeometry, d: Descriptor)
    requires geometry.size <= |header|
    ensures DescriptorOf(header, geometry) == Some(d)
            <==> DescriptorStands(header, geometry, d.offset, d.optionSize, d.stringSize, d.libraryCount)
  {
    hide ReadBe32, Lookup;
  }

  /** An accepted descriptor's imports are those of its library records: each under the name its
      record's name index selects, with the ordinals and addresses the record table and the image give. */
  lemma AcceptedLibrariesStand(header: seq<byte>, image: seq<byte>, geometry: HeaderGeometry, bounds: ImageBounds)
    returns (offset: nat, size: nat, strings: nat, names: seq<text>, libraries: seq<Library>)
    requires |image| == bounds.size && geometry.size <= |header|
    requires Imports(header, image, geometry, bounds).Some?
    ensures DescriptorStands(header, geometry, offset, size, strings, |libraries|)
    ensures XexImportNames.Names(header, offset + 12, offset + 12 + strings, |libraries|) == Some(names)
    ensures LibrariesStand(header, bounds, offset + 12 + strings, offset + size, names, image, libraries)
    ensures libraries[|libraries| - 1].next == offset + size
    ensures var p := Imports(header, image, geometry, bounds).value;
            && p.imports == AllImports(libraries) && p.records == AllRecords(libraries)
            && p.image == libraries[|libraries| - 1].after
  {
    hide XexImportNames.Names, Libraries, LibrariesStand, DescriptorOf, DescriptorStands;
    var d := DescriptorOf(header, geometry).value;
    DescriptorStandsIff(header, geometry, d);
    offset, size, strings := d.offset, d.optionSize, d.stringSize;
    names := XexImportNames.Names(header, offset + 12, offset + 12 + strings, d.libraryCount).value;
    libraries := LibrariesAreStanding(header, image, bounds, TableOf(d, names), d.libraryCount);
    DescriptorCounts(header, geometry, d);
  }

  lemma DescriptorCounts(header: seq<byte>, geometry: HeaderGeometry, d: Descriptor)
    requires geometry.size <= |header| && DescriptorOf(header, geometry) == Some(d)
    ensures d.libraryCount > 0
  {
    hide ReadBe32, Lookup;
  }

  /** And every descriptor with such library records is accepted. */
  lemma StandingLibrariesAreAccepted(
      header: seq<byte>, image: seq<byte>, geometry: HeaderGeometry, bounds: ImageBounds,
      offset: nat, size: nat, strings: nat, names: seq<text>, libraries: seq<Library>)
    requires |image| == bounds.size && geometry.size <= |header|
    requires DescriptorStands(header, geometry, offset, size, strings, |libraries|)
    requires XexImportNames.Names(header, offset + 12, offset + 12 + strings, |libraries|) == Some(names)
    requires LibrariesStand(header, bounds, offset + 12 + strings, offset + size, names, image, libraries)
    requires libraries[|libraries| - 1].next == offset + size
    ensures Imports(header, image, geometry, bounds) ==
            Some(Parsed(offset + size, AllImports(libraries), libraries[|libraries| - 1].after, AllRecords(libraries)))
  {
    hide XexImportNames.Names, Libraries, LibrariesStand, DescriptorOf, DescriptorStands, Lookup, ReadBe32;
    var d := DescriptorWords(header, geometry, offset, size, strings, |libraries|);
    StandingLibrariesAreParsed(header, image, bounds, TableOf(d, names), libraries);
  }

  lemma DescriptorWords(header: seq<byte>, geometry: HeaderGeometry, offset: nat, size: nat, strings: nat, count: nat)
    returns (d: Descriptor)
    requires geometry.size <= |header| && DescriptorStands(header, geometry, offset, size, strings, count)
    ensures d.offset == offset && d.optionSize == size && d.stringSize as int == strings && d.libraryCount as int == count > 0
    ensures DescriptorOf(header, geometry) == Some(d)
  {
    hide ReadBe32, Lookup;
    d := Descriptor(offset, size, strings, count);
  }
}
