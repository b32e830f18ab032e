/** RuntimeImports::Create and Attach, src/runtime_imports.cpp. */
module RuntimeImports {
  import opened Bytes
  import opened ModuleContract
  import opened ModuleValidation
  import opened Patches
  import opened RuntimeFailures

  datatype OwnedExport = OwnedExport(
    library: text, name: text, ordinal: u16, kind: ImportKind, address: u32, recordAddress: u32,
    functionHandler: Option<nat>, functionContext: Option<nat>, resolvedVariable: u32)

  /** slots[ordinal] is the source's pointer to an export: its index in `exports`, or None. */
  datatype OwnedTable = OwnedTable(library: text, exports: seq<OwnedExport>, slots: seq<Option<nat>>)

  function ResolvedVariable(requirement: ImportRequirement, binding: ImportBinding): u32
    requires Binds(binding, requirement)
  {
    if requirement.kind == Variable then binding.variableResolver.value else 0
  }

  function ExportOf(requirement: ImportRequirement, binding: ImportBinding): OwnedExport
    requires Binds(binding, requirement)
  {
    OwnedExport(requirement.library, requirement.name, requirement.ordinal % 0x1_0000, requirement.kind,
                requirement.address, requirement.recordAddress,
                binding.functionHandler, binding.functionContext, ResolvedVariable(requirement, binding))
  }

  function ExportsOf(imports: seq<ImportRequirement>, bindings: seq<ImportBinding>): (exports: seq<OwnedExport>)
    requires AllBound(imports, bindings)
    ensures |exports| == |imports|
  {
    seq(|imports|, i requires 0 <= i < |imports| => ExportOf(imports[i], bindings[i]))
  }

  /** What an export keeps of its import and of the binding it was made from, field by field. */
  predicate Carries(owned: OwnedExport, requirement: ImportRequirement, binding: ImportBinding) {
    && owned.library == requirement.library
    && owned.name == requirement.name
    && owned.ordinal == requirement.ordinal
    && owned.kind == requirement.kind
    && owned.address == requirement.address
    && owned.recordAddress == requirement.recordAddress
    && owned.functionHandler == binding.functionHandler
    && owned.functionContext == binding.functionContext
    && (requirement.kind == Variable ==> binding.variableResolver == Some(owned.resolvedVariable))
    && (requirement.kind == Function ==> owned.resolvedVariable == 0)
  }

  lemma ExportOfCarries(requirement: ImportRequirement, binding: ImportBinding)
    requires Binds(binding, requirement) && requirement.ordinal <= 0xFFFF
    ensures Carries(ExportOf(requirement, binding), requirement, binding)
  {
  }

  predicate ResolvesToNull(requirement: ImportRequirement, binding: ImportBinding) {
    requirement.kind == Variable && binding.variableResolver == Some(0)
  }

  // ---- The ordinal index ----

  predicate Ordinals16(imports: seq<ImportRequirement>) {
    forall i :: 0 <= i < |imports| ==> imports[i].ordinal <= 0xFFFF
  }

  function AllExports(tables: seq<OwnedTable>): seq<OwnedExport> {
    if |tables| == 0 then [] else AllExports(tables[..|tables| - 1]) + tables[|tables| - 1].exports
  }

  /** Each slot points to the one export with its ordinal, and each export has its slot. */
  predicate TableFormed(table: OwnedTable) {
    var exports, slots := table.exports, table.slots;
    && |exports| > 0
    && (forall k :: 0 <= k < |exports| ==> exports[k].library == table.library)
    && (forall j, k :: 0 <= j < k < |exports| ==> exports[j].ordinal < exports[k].ordinal)
    && |slots| == exports[|exports| - 1].ordinal + 1
    && (forall k :: 0 <= k < |exports| ==> exports[k].ordinal < |slots| && slots[exports[k].ordinal] == Some(k))
    && (forall o :: 0 <= o < |slots| && slots[o].Some? ==>
          slots[o].value < |exports| && exports[slots[o].value].ordinal == o)
  }

  predicate AllTablesFormed(tables: seq<OwnedTable>) {
    forall t :: 0 <= t < |tables| ==> TableFormed(tables[t])
  }

  predicate LibrariesOrdered(tables: seq<OwnedTable>) {
    forall i, j :: 0 <= i < j < |tables| ==> TextLess(tables[i].library, tables[j].library)
  }

  /** The tables index exactly these exports: one table for each library, in order. */
  predicate Indexes(tables: seq<OwnedTable>, exports: seq<OwnedExport>) {
    AllTablesFormed(tables) && LibrariesOrdered(tables) && AllExports(tables) == exports
  }

  /** The resolver's lookup: the first table of that name, and the slot of that ordinal. */
  function FindExport(tables: seq<OwnedTable>, library: text, ordinal: nat): (found: Option<(nat, nat)>)
    ensures found.Some? ==> found.value.0 < |tables| && tables[found.value.0].library == library
                            && ordinal < |tables[found.value.0].slots|
                            && tables[found.value.0].slots[ordinal] == Some(found.value.1)
  {
    match FindTable(tables, library)
    case None => None
    case Some(t) =>
      var slots := tables[t].slots;
      if ordinal < |slots| && slots[ordinal].Some? then Some((t, slots[ordinal].value)) else None
  }

  function FindTable(tables: seq<OwnedTable>, library: text): (found: Option<nat>)
    ensures found.Some? ==> found.value < |tables| && tables[found.value].library == library
    ensures found.None? ==> forall t :: 0 <= t < |tables| ==> tables[t].library != library
  {
    if |tables| == 0 then None
    else match FindTable(tables[..|tables| - 1], library)
      case Some(t) => Some(t)
      case None => if tables[|tables| - 1].library == library then Some(|tables| - 1) else None
  }

  function Before(tables: seq<OwnedTable>, t: nat): nat
    requires t <= |tables|
  {
    |AllExports(tables[..t])|
  }

  lemma {:induction false} AllExportsAt(tables: seq<OwnedTable>, t: nat, k: nat)
    requires t < |tables| && k < |tables[t].exports|
    ensures Before(tables, t) + k < |AllExports(tables)|
    ensures AllExports(tables)[Before(tables, t) + k] == tables[t].exports[k]
  {
    var front := tables[..|tables| - 1];
    if t < |front| {
      assert front[..t] == tables[..t];
      AllExportsAt(front, t, k);
    }
  }

  lemma {:induction false} EveryExportHasATable(tables: seq<OwnedTable>, i: nat) returns (t: nat, k: nat)
    requires i < |AllExports(tables)|
    ensures t < |tables| && k < |tables[t].exports| && i == Before(tables, t) + k
  {
    var front := tables[..|tables| - 1];
    if i < |AllExports(front)| {
      t, k := EveryExportHasATable(front, i);
      assert front[..t] == tables[..t];
    } else {
      t, k := |front|, i - |AllExports(front)|;
    }
  }

  lemma OneTableForEachLibrary(tables: seq<OwnedTable>, i: nat, j: nat)
    requires LibrariesOrdered(tables) && i < j < |tables|
    ensures tables[i].library != tables[j].library
  {
    TextLessIsIrreflexive(tables[i].library);
    assert TextLess(tables[i].library, tables[j].library);
  }

  lemma TablesAreFoundByName(tables: seq<OwnedTable>, t: nat)
    requires LibrariesOrdered(tables) && t < |tables|
    ensures FindTable(tables, tables[t].library) == Some(t)
  {
    var found := FindTable(tables, tables[t].library);
    if found.Some? && found.value < t {
      OneTableForEachLibrary(tables, found.value, t);
    } else if found.Some? && t < found.value {
      OneTableForEachLibrary(tables, t, found.value);
    }
  }

  /** Looking an export up by its own library and ordinal finds that export. */
  lemma ExportsAreFound(tables: seq<OwnedTable>, t: nat, k: nat)
    requires AllTablesFormed(tables) && LibrariesOrdered(tables) && t < |tables| && k < |tables[t].exports|
    ensures FindExport(tables, tables[t].exports[k].library, tables[t].exports[k].ordinal) == Some((t, k))
  {
    TablesAreFoundByName(tables, t);
    assert TableFormed(tables[t]);
  }

  /** `found` is the place of the export made for import `i`. */
  predicate PointsTo(tables: seq<OwnedTable>, found: Option<(nat, nat)>, export_: OwnedExport) {
    && found.Some? && found.value.0 < |tables| && found.value.1 < |tables[found.value.0].exports|
    && tables[found.value.0].exports[found.value.1] == export_
  }

  /** The resolver's lookup finds an export with this import's identity and this binding's callbacks. */
  predicate FoundCarries(tables: seq<OwnedTable>, requirement: ImportRequirement, binding: ImportBinding) {
    var found := FindExport(tables, requirement.library, requirement.ordinal);
    && found.Some? && found.value.0 < |tables| && found.value.1 < |tables[found.value.0].exports|
    && Carries(tables[found.value.0].exports[found.value.1], requirement, binding)
  }

  lemma EveryImportIsFound(imports: seq<ImportRequirement>, bindings: seq<ImportBinding>, tables: seq<OwnedTable>)
    requires AllBound(imports, bindings) && Ordinals16(imports)
    requires Indexes(tables, ExportsOf(imports, bindings))
    ensures forall i :: 0 <= i < |imports| ==> FoundCarries(tables, imports[i], bindings[i])
  {
    hide Indexes, FindExport, ExportsOf, Binds, Carries;
    forall i | 0 <= i < |imports|
      ensures FoundCarries(tables, imports[i], bindings[i])
    {
      ImportIsFound(imports, bindings, tables, i);
      ExportOfCarries(imports[i], bindings[i]);
    }
  }

  predicate Keyed(requirement: ImportRequirement, library: text, ordinal: u16) {
    requirement.library == library && requirement.ordinal == ordinal
  }

  /** A slot is filled exactly for the imports the manifest holds, and points to that import's export. */
  lemma SlotsHoldTheManifest(imports: seq<ImportRequirement>, bindings: seq<ImportBinding>, tables: seq<OwnedTable>,
                             library: text, ordinal: u16)
    requires AllBound(imports, bindings) && Ordinals16(imports)
    requires Indexes(tables, ExportsOf(imports, bindings))
    ensures FindExport(tables, library, ordinal).Some? <==>
            exists i :: 0 <= i < |imports| && Keyed(imports[i], library, ordinal)
    ensures forall i :: 0 <= i < |imports| && Keyed(imports[i], library, ordinal) ==>
              PointsTo(tables, FindExport(tables, library, ordinal), ExportOf(imports[i], bindings[i]))
  {
    hide Indexes, FindExport, ExportsOf, AllExports, Binds;
    forall i | 0 <= i < |imports| && Keyed(imports[i], library, ordinal)
      ensures PointsTo(tables, FindExport(tables, library, ordinal), ExportOf(imports[i], bindings[i]))
    {
      ImportIsFound(imports, bindings, tables, i);
    }
    if FindExport(tables, library, ordinal).Some? {
      var i := FoundExportIsHeld(imports, bindings, tables, library, ordinal);
    }
  }

  lemma ImportIsFound(imports: seq<ImportRequirement>, bindings: seq<ImportBinding>, tables: seq<OwnedTable>, i: nat)
    requires AllBound(imports, bindings) && Ordinals16(imports) && i < |imports|
    requires Indexes(tables, ExportsOf(imports, bindings))
    ensures PointsTo(tables, FindExport(tables, imports[i].library, imports[i].ordinal), ExportOf(imports[i], bindings[i]))
  {
    hide TableFormed, FindExport, AllExports, Binds, TextLess;
    var exports := ExportsOf(imports, bindings);
    var t, k := EveryExportHasATable(tables, i);
    AllExportsAt(tables, t, k);
    assert tables[t].exports[k] == exports[i] == ExportOf(imports[i], bindings[i]);
    ExportsAreFound(tables, t, k);
  }

  lemma FoundExportIsHeld(imports: seq<ImportRequirement>, bindings: seq<ImportBinding>, tables: seq<OwnedTable>,
                          library: text, ordinal: u16) returns (i: nat)
    requires AllBound(imports, bindings) && Ordinals16(imports)
    requires Indexes(tables, ExportsOf(imports, bindings)) && FindExport(tables, library, ordinal).Some?
    ensures i < |imports| && Keyed(imports[i], library, ordinal)
  {
    hide TableFormed, FindExport, AllExports, Binds, TextLess;
    var (t, k) := FindExport(tables, library, ordinal).value;
    SlotPointsInside(tables[t], ordinal);
    AllExportsAt(tables, t, k);
    i := Before(tables, t) + k;
    assert ExportsOf(imports, bindings)[i] == ExportOf(imports[i], bindings[i]);
  }

  lemma SlotPointsInside(table: OwnedTable, ordinal: nat)
    requires TableFormed(table) && ordinal < |table.slots| && table.slots[ordinal].Some?
    ensures var k := table.slots[ordinal].value;
            k < |table.exports| && table.exports[k].ordinal == ordinal && table.exports[k].library == table.library
  {
  }

  // ---- Create ----

  /** `slots` with room for `ordinal`, which now points to export `k`. */
  function Filled(slots: seq<Option<nat>>, ordinal: nat, k: nat): seq<Option<nat>> {
    (if |slots| <= ordinal then slots + seq(ordinal + 1 - |slots|, _ => None) else slots)[ordinal := Some(k)]
  }

  /** The tables after one more export, which joins the last table or opens a new one. */
  function Added(tables: seq<OwnedTable>, export_: OwnedExport, ordinal: nat): seq<OwnedTable> {
    if |tables| == 0 || tables[|tables| - 1].library != export_.library then
      tables + [OwnedTable(export_.library, [export_], Filled([], ordinal, 0))]
    else
      var last := tables[|tables| - 1];
      tables[|tables| - 1 := OwnedTable(last.library, last.exports + [export_],
                                        Filled(last.slots, ordinal, |last.exports|))]
  }

  lemma AddedAppends(tables: seq<OwnedTable>, export_: OwnedExport, ordinal: nat)
    ensures AllExports(Added(tables, export_, ordinal)) == AllExports(tables) + [export_]
  {
    var added := Added(tables, export_, ordinal);
    var front := added[..|added| - 1];
    if |tables| == 0 || tables[|tables| - 1].library != export_.library {
      assert front == tables;
    } else {
      assert front == tables[..|tables| - 1];
    }
  }

  /** The last export belongs to the last table. */
  lemma LastExportIsInTheLastTable(tables: seq<OwnedTable>)
    requires AllTablesFormed(tables) && |tables| > 0
    ensures |AllExports(tables)| > 0
    ensures var exports := AllExports(tables); var last := tables[|tables| - 1];
            |last.exports| > 0 && exports[|exports| - 1] == last.exports[|last.exports| - 1]
            && exports[|exports| - 1].library == last.library
  {
    assert TableFormed(tables[|tables| - 1]);
  }

  predicate ExportLess(left: OwnedExport, right: OwnedExport) {
    if left.library != right.library then TextLess(left.library, right.library) else left.ordinal < right.ordinal
  }

  /** Looking only at the last table keeps the index exact, and the slot it fills was empty,
      when each export follows the one before it. */
  lemma AddedKeepsTheIndex(tables: seq<OwnedTable>, exports: seq<OwnedExport>, export_: OwnedExport)
    requires Indexes(tables, exports)
    requires |exports| > 0 ==> ExportLess(exports[|exports| - 1], export_)
    ensures Indexes(Added(tables, export_, export_.ordinal), exports + [export_])
    ensures FindExport(tables, export_.library, export_.ordinal).None?
  {
    hide TextLess, TableFormed, AllExports;
    AddedAppends(tables, export_, export_.ordinal);
    if |tables| > 0 {
      LastExportIsInTheLastTable(tables);
    }
    if |tables| > 0 && tables[|tables| - 1].library == export_.library {
      LastTableGrows(tables, export_);
    } else {
      TableOpens(tables, export_);
    }
  }

  lemma LastTableGrows(tables: seq<OwnedTable>, export_: OwnedExport)
    requires AllTablesFormed(tables) && LibrariesOrdered(tables) && |tables| > 0
    requires var last := tables[|tables| - 1];
             && last.library == export_.library && |last.exports| > 0
             && last.exports[|last.exports| - 1].ordinal < export_.ordinal
    ensures var added := Added(tables, export_, export_.ordinal); AllTablesFormed(added) && LibrariesOrdered(added)
    ensures FindExport(tables, export_.library, export_.ordinal).None?
  {
    hide TextLess, TableFormed;
    var last := tables[|tables| - 1];
    GrownTableIsFormed(last, export_);
    TablesAreFoundByName(tables, |tables| - 1);
    SlotsEndAtTheLastOrdinal(last);
  }

  lemma SlotsEndAtTheLastOrdinal(table: OwnedTable)
    requires TableFormed(table)
    ensures |table.exports| > 0 && |table.slots| == table.exports[|table.exports| - 1].ordinal + 1
  {
  }

  lemma TableOpens(tables: seq<OwnedTable>, export_: OwnedExport)
    requires AllTablesFormed(tables) && LibrariesOrdered(tables)
    requires |tables| > 0 ==> TextLess(tables[|tables| - 1].library, export_.library)
                              && tables[|tables| - 1].library != export_.library
    ensures var added := Added(tables, export_, export_.ordinal); AllTablesFormed(added) && LibrariesOrdered(added)
    ensures FindExport(tables, export_.library, export_.ordinal).None?
  {
    hide TextLess, TableFormed;
    NewTableIsFormed(export_);
    if |tables| > 0 {
      LibrariesStayOrdered(tables, export_.library);
    }
  }

  lemma LibrariesStayOrdered(tables: seq<OwnedTable>, library: text)
    requires LibrariesOrdered(tables) && |tables| > 0 && TextLess(tables[|tables| - 1].library, library)
    ensures forall t :: 0 <= t < |tables| ==> TextLess(tables[t].library, library)
    ensures FindTable(tables, library).None?
  {
    hide TextLess;
    forall t | 0 <= t < |tables|
      ensures TextLess(tables[t].library, library)
    {
      if t < |tables| - 1 {
        TextLessIsTransitive(tables[t].library, tables[|tables| - 1].library, library);
      }
    }
    TextLessIsIrreflexive(library);
  }

  lemma NewTableIsFormed(export_: OwnedExport)
    ensures TableFormed(OwnedTable(export_.library, [export_], Filled([], export_.ordinal, 0)))
  {
  }

  lemma GrownTableIsFormed(table: OwnedTable, export_: OwnedExport)
    requires TableFormed(table) && export_.library == table.library
    requires table.exports[|table.exports| - 1].ordinal < export_.ordinal
    ensures TableFormed(OwnedTable(table.library, table.exports + [export_],
                                   Filled(table.slots, export_.ordinal, |table.exports|)))
  {
  }

  /** Create refuses exactly when a resolver returns null. Otherwise the tables hold the
      manifest's exports in order, and index them when the manifest is sorted. */
  method Create(imports: seq<ImportRequirement>, bindings: seq<ImportBinding>)
      returns (created: Result<seq<OwnedTable>, RuntimeError>)
    requires AllBound(imports, bindings)
    ensures created.Err? <==> exists i :: 0 <= i < |imports| && ResolvesToNull(imports[i], bindings[i])
    ensures created.Err? ==> created.error == VariableResolutionFailed
    ensures created.Ok? ==> AllExports(created.value) == ExportsOf(imports, bindings)
    ensures created.Ok? && Sorted(imports) && Ordinals16(imports) ==>
              Indexes(created.value, ExportsOf(imports, bindings))
              && forall i :: 0 <= i < |imports| ==> FoundCarries(created.value, imports[i], bindings[i])
  {
    hide Indexes, Sorted, AllExports, Binds, ImportLess, ExportLess, FoundCarries;
    var tables: seq<OwnedTable> := [];
    NoTables();
    for index := 0 to |imports|
      invariant AllBound(imports[..index], bindings[..index])
      invariant forall i :: 0 <= i < index ==> !ResolvesToNull(imports[i], bindings[i])
      invariant AllExports(tables) == ExportsOf(imports[..index], bindings[..index])
      invariant Sorted(imports) && Ordinals16(imports) ==>
                  Indexes(tables, ExportsOf(imports[..index], bindings[..index]))
    {
      var requirement, binding := imports[index], bindings[index];
      assert Binds(binding, requirement);
      var resolved: u32 := 0;
      CallbackGivesTheVariable(requirement, binding);
      if requirement.kind == Variable {
        resolved := binding.variableResolver.value;
        if resolved == 0 {
          return Err(VariableResolutionFailed);
        }
      }
      ghost var before := tables;
      if |tables| == 0 || tables[|tables| - 1].library != requirement.library {
        tables := tables + [OwnedTable(requirement.library, [], [])];
      }
      var last := |tables| - 1;
      var table := tables[last];
      var ordinal := requirement.ordinal;
      if |table.slots| <= ordinal {
        table := table.(slots := table.slots + seq(ordinal + 1 - |table.slots|, _ => None));
      }
      var owned := OwnedExport(requirement.library, requirement.name, ordinal % 0x1_0000, requirement.kind,
                               requirement.address, requirement.recordAddress,
                               binding.functionHandler, binding.functionContext, resolved);
      table := table.(slots := table.slots[ordinal := Some(|table.exports|)], exports := table.exports + [owned]);
      assert table.slots == Filled(tables[last].slots, ordinal, |tables[last].exports|);
      assert |tables[last].exports| == 0 ==> table.exports == [owned];
      tables := tables[last := table];
      assert tables[..last] == before[..last];
      assert tables == Added(before, owned, ordinal);
      OneMoreImport(imports, bindings, before, index);
    }
    assert imports[..|imports|] == imports && bindings[..|imports|] == bindings;
    if Sorted(imports) && Ordinals16(imports) {
      EveryImportIsFound(imports, bindings, tables);
    }
    created := Ok(tables);
  }

  lemma NoTables()
    ensures AllExports([]) == [] && Indexes([], [])
  {
  }

  lemma CallbackGivesTheVariable(requirement: ImportRequirement, binding: ImportBinding)
    requires Binds(binding, requirement)
    ensures ResolvesToNull(requirement, binding) <==>
            requirement.kind == Variable && ResolvedVariable(requirement, binding) == 0
    ensures requirement.kind == Variable ==>
              binding.variableResolver == Some(ResolvedVariable(requirement, binding))
  {
  }

  lemma OneMoreImport(imports: seq<ImportRequirement>, bindings: seq<ImportBinding>, tables: seq<OwnedTable>, index: nat)
    requires AllBound(imports, bindings) && index < |imports|
    requires AllBound(imports[..index], bindings[..index])
    requires AllExports(tables) == ExportsOf(imports[..index], bindings[..index])
    requires Sorted(imports) && Ordinals16(imports) ==> Indexes(tables, ExportsOf(imports[..index], bindings[..index]))
    ensures AllBound(imports[..index + 1], bindings[..index + 1])
    ensures var added := Added(tables, ExportOf(imports[index], bindings[index]), imports[index].ordinal);
            && AllExports(added) == ExportsOf(imports[..index + 1], bindings[..index + 1])
            && (Sorted(imports) && Ordinals16(imports) ==>
                  Indexes(added, ExportsOf(imports[..index + 1], bindings[..index + 1])))
  {
    hide Binds, Indexes, Added, AllExports, TextLess;
    var owned := ExportOf(imports[index], bindings[index]);
    var exports := ExportsOf(imports[..index], bindings[..index]);
    assert ExportsOf(imports[..index + 1], bindings[..index + 1]) == exports + [owned];
    AddedAppends(tables, owned, imports[index].ordinal);
    if Sorted(imports) && Ordinals16(imports) {
      if index > 0 {
        assert ImportLess(imports[index - 1], imports[index]);
        assert ExportLess(exports[index - 1], owned);
      }
      assert owned.ordinal == imports[index].ordinal;
      AddedKeepsTheIndex(tables, exports, owned);
    }
  }
}
