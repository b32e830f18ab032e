/** RuntimeImports::Attach, src/runtime_imports.cpp, and what it makes of a validated module.
    Guest memory is an array indexed by guest address. */
module ImportAttachment {
  import opened Bytes
  import opened ModuleContract
  import opened ModuleValidation
  import opened Patches
  import opened RuntimeFailures
  import opened RuntimeImports

  /** System call, return, and two words of padding. */
  function Thunk(): (bytes: seq<byte>)
    ensures |bytes| == 16
  {
    Be32(0x44000042) + Be32(0x4E800020) + Be32(0x60000000) + Be32(0x60000000)
  }

  /** What Attach writes for one export. */
  function PatchOf(export_: OwnedExport): Patch {
    if export_.kind == Function then Patch(export_.address, Thunk())
    else Patch(export_.recordAddress, Be32(export_.resolvedVariable))
  }

  function PatchesOf(exports: seq<OwnedExport>): (patches: seq<Patch>)
    ensures |patches| == |exports|
  {
    seq(|exports|, i requires 0 <= i < |exports| => PatchOf(exports[i]))
  }

  /** The addresses Xenia no longer declares functions at: those taken before, and the
      functions among the first `count` exports. */
  function Declared(exports: seq<OwnedExport>, count: nat, taken: set<u32>): set<u32>
    requires count <= |exports|
  {
    taken + set j | 0 <= j < count && exports[j].kind == Function :: exports[j].address
  }

  /** Xenia declares a function once at each address, and not at the addresses it already took. */
  predicate Refused(exports: seq<OwnedExport>, i: nat, taken: set<u32>)
    requires i < |exports|
  {
    exports[i].kind == Function && exports[i].address in Declared(exports, i, taken)
  }

  predicate NoneRefused(exports: seq<OwnedExport>, count: nat, taken: set<u32>)
    requires count <= |exports|
  {
    forall i :: 0 <= i < count ==> !Refused(exports, i, taken)
  }

  /** A guest function as Attach leaves it: what it runs, its name, and its last instruction. */
  datatype ExternFunction = ExternFunction(owned: OwnedExport, name: text, endAddress: u32)

  /** The last of an export's thunk's four instructions; guest addresses wrap at 32 bits. */
  predicate RunsExport(declared: ExternFunction, owned: OwnedExport) {
    declared.owned == owned && declared.name == owned.name
    && declared.endAddress == (owned.address as int + 12) % 0x1_0000_0000
  }

  /** The guest function declared at an import's address runs that import's own export, has its
      name, and ends with its thunk. */
  predicate Dispatches(externs: map<u32, ExternFunction>, exports: seq<OwnedExport>) {
    forall i :: 0 <= i < |exports| && exports[i].kind == Function ==>
      exports[i].address in externs && RunsExport(externs[exports[i].address], exports[i])
  }

  // ---- Attach ----

  method StoreAndSwap(memory: array<byte>, address: nat, value: u32)
    requires address + 4 <= memory.Length
    modifies memory
    ensures memory[..] == Patched(old(memory[..]), address, Be32(value))
  {
    memory[address] := value / 0x100_0000 % 0x100;
    memory[address + 1] := value / 0x1_0000 % 0x100;
    memory[address + 2] := value / 0x100 % 0x100;
    memory[address + 3] := value % 0x100;
  }

  method StoreThunk(memory: array<byte>, address: nat)
    requires address + 16 <= memory.Length
    modifies memory
    ensures memory[..] == Patched(old(memory[..]), address, Thunk())
  {
    hide *;
    ThunkWords();
    ghost var was := memory[..];
    StoreAndSwap(memory, address, 0x44000042);
    StoreAndSwap(memory, address + 4, 0x4E800020);
    PatchedTwice(was, address, Be32(0x44000042), Be32(0x4E800020));
    StoreAndSwap(memory, address + 8, 0x60000000);
    PatchedTwice(was, address, Be32(0x44000042) + Be32(0x4E800020), Be32(0x60000000));
    StoreAndSwap(memory, address + 12, 0x60000000);
    PatchedTwice(was, address, Be32(0x44000042) + Be32(0x4E800020) + Be32(0x60000000), Be32(0x60000000));
  }

  lemma ThunkWords()
    ensures Thunk() == Be32(0x44000042) + Be32(0x4E800020) + Be32(0x60000000) + Be32(0x60000000)
  {
  }

  lemma OneMorePatch(memory: seq<byte>, exports: seq<OwnedExport>, n: nat)
    requires n < |exports| && AllFit(memory, PatchesOf(exports))
    ensures AllFit(memory, PatchesOf(exports[..n])) && AllFit(memory, PatchesOf(exports[..n + 1]))
    ensures var patch := PatchOf(exports[n]);
            patch.Fits(memory) && Applied(memory, PatchesOf(exports[..n + 1]))
                                  == Patched(Applied(memory, PatchesOf(exports[..n])), patch.offset, patch.bytes)
  {
    hide PatchOf;
    assert PatchesOf(exports)[n] == PatchOf(exports[n]);
    var before, after := PatchesOf(exports[..n]), PatchesOf(exports[..n + 1]);
    assert after == before + [PatchOf(exports[n])];
    assert after[..n] == before;
    assert forall i :: 0 <= i <= n ==> after[i] == PatchesOf(exports)[i];
  }

  /** The exports before place (t, k), and the one at it. */
  lemma ExportAt(tables: seq<OwnedTable>, exports: seq<OwnedExport>, t: nat, k: nat)
    requires Indexes(tables, exports) && t < |tables| && k < |tables[t].exports|
    ensures Before(tables, t) + k < |exports| && exports[Before(tables, t) + k] == tables[t].exports[k]
    ensures FindExport(tables[..t + 1], tables[t].library, tables[t].exports[k].ordinal) == Some((t, k))
  {
    hide TableFormed;
    AllExportsAt(tables, t, k);
    var registered := tables[..t + 1];
    assert forall i :: 0 <= i < |registered| ==> registered[i] == tables[i];
    ExportsAreFound(registered, t, k);
    TableNamesItsExports(tables[t], k);
  }

  lemma TableNamesItsExports(table: OwnedTable, k: nat)
    requires TableFormed(table) && k < |table.exports|
    ensures table.exports[k].library == table.library
  {
  }

  lemma BeforeNext(tables: seq<OwnedTable>, t: nat)
    requires t < |tables|
    ensures Before(tables, t + 1) == Before(tables, t) + |tables[t].exports|
  {
    assert tables[..t + 1][..t] == tables[..t];
  }

  /** A function declared at a fresh address leaves the earlier ones in place. */
  lemma DispatchGrows(externs: map<u32, ExternFunction>, exports: seq<OwnedExport>, n: nat, taken: set<u32>,
                      declared: ExternFunction)
    requires n < |exports| && exports[n].kind == Function && !Refused(exports, n, taken)
    requires Dispatches(externs, exports[..n]) && RunsExport(declared, exports[n])
    ensures Dispatches(externs[exports[n].address := declared], exports[..n + 1])
  {
    forall i | 0 <= i < n && exports[i].kind == Function
      ensures exports[i].address != exports[n].address && exports[..n][i] == exports[i]
    {
    }
  }

  lemma RefusedIfDeclared(exports: seq<OwnedExport>, n: nat, taken: set<u32>)
    requires n < |exports|
    ensures Refused(exports, n, taken) <==> exports[n].kind == Function && exports[n].address in Declared(exports, n, taken)
  {
  }

  lemma NextIsAttached(exports: seq<OwnedExport>, n: nat, taken: set<u32>)
    requires n < |exports|
    ensures exports[n].kind == Function ==> Declared(exports, n + 1, taken) == Declared(exports, n, taken) + {exports[n].address}
    ensures exports[n].kind == Variable ==> Declared(exports, n + 1, taken) == Declared(exports, n, taken)
    ensures NoneRefused(exports, n, taken) && !Refused(exports, n, taken) ==> NoneRefused(exports, n + 1, taken)
  {
  }

  lemma NothingAttached(memory: seq<byte>, tables: seq<OwnedTable>, exports: seq<OwnedExport>, taken: set<u32>)
    requires Indexes(tables, exports)
    ensures Before(tables, 0) == 0 && Before(tables, |tables|) == |exports|
    ensures NoneRefused(exports, 0, taken) && Declared(exports, 0, taken) == taken
    ensures Dispatches(map[], exports[..0])
    ensures AllFit(memory, PatchesOf(exports[..0])) && Applied(memory, PatchesOf(exports[..0])) == memory
  {
    assert tables[..|tables|] == tables;
  }

  lemma VariablesDoNotDispatch(externs: map<u32, ExternFunction>, exports: seq<OwnedExport>, n: nat)
    requires n < |exports| && exports[n].kind == Variable && Dispatches(externs, exports[..n])
    ensures Dispatches(externs, exports[..n + 1])
  {
    assert exports[..n + 1] == exports[..n] + [exports[n]];
  }

  /** Attach writes each export's patch in manifest order and stops at the first function Xenia
      refuses. The words come from the exports that the resolver finds by library and ordinal. */
  method Attach(memory: array<byte>, tables: seq<OwnedTable>, ghost exports: seq<OwnedExport>, taken: set<u32>)
      returns (failure: RuntimeFailure, externs: map<u32, ExternFunction>, ghost attached: nat)
    requires Indexes(tables, exports) && AllFit(memory[..], PatchesOf(exports))
    modifies memory
    ensures attached <= |exports| && NoneRefused(exports, attached, taken)
    ensures attached < |exports| ==> Refused(exports, attached, taken) && failure == Fail(ImportAttachmentFailed)
    ensures attached == |exports| ==> failure == NO_FAILURE && Dispatches(externs, exports)
    ensures AllFit(old(memory[..]), PatchesOf(exports[..attached]))
    ensures memory[..] == Applied(old(memory[..]), PatchesOf(exports[..attached]))
  {
    hide Indexes, Be32, Thunk, Dispatches, Refused, Declared, NoneRefused, Before, PatchesOf, Applied, FindExport;
    ghost var was := memory[..];
    var declared := taken;
    externs := map[];
    attached := 0;
    NothingAttached(was, tables, exports, taken);
    for t := 0 to |tables|
      invariant attached == Before(tables, t) <= |exports| && NoneRefused(exports, attached, taken)
      invariant Dispatches(externs, exports[..attached])
      invariant declared == Declared(exports, attached, taken)
      invariant AllFit(was, PatchesOf(exports[..attached]))
      invariant memory[..] == Applied(was, PatchesOf(exports[..attached]))
    {
      // What SetFunctionMapping and SetVariableMapping leave in the export they find.
      var callbacks: map<(nat, nat), OwnedExport> := map[];
      var variables: map<(nat, nat), u32> := map[];
      for k := 0 to |tables[t].exports|
        invariant attached == Before(tables, t) + k <= |exports| && NoneRefused(exports, attached, taken)
        invariant Dispatches(externs, exports[..attached])
        invariant declared == Declared(exports, attached, taken)
        invariant AllFit(was, PatchesOf(exports[..attached]))
        invariant memory[..] == Applied(was, PatchesOf(exports[..attached]))
      {
        var owned := tables[t].exports[k];
        ExportAt(tables, exports, t, k);
        OneMorePatch(was, exports, attached);
        RefusedIfDeclared(exports, attached, taken);
        var found := FindExport(tables[..t + 1], tables[t].library, owned.ordinal);
        if owned.kind == Function {
          if found.Some? {
            callbacks := callbacks[found.value := owned];
          }
          if owned.address in declared {
            return Fail(ImportAttachmentFailed), externs, attached;
          }
          declared := declared + {owned.address};
          StoreThunk(memory, owned.address);
          var function_ :=
            ExternFunction(callbacks[(t, k)], owned.name, (owned.address as int + 12) % 0x1_0000_0000);
          DispatchGrows(externs, exports, attached, taken, function_);
          externs := externs[owned.address := function_];
        } else {
          if found.Some? {
            variables := variables[found.value := owned.resolvedVariable];
          }
          StoreAndSwap(memory, owned.recordAddress, variables[(t, k)]);
          VariablesDoNotDispatch(externs, exports, attached);
        }
        NextIsAttached(exports, attached, taken);
        attached := attached + 1;
      }
      BeforeNext(tables, t);
    }
    assert exports[..|exports|] == exports;
    failure := NO_FAILURE;
  }

  // ---- What a validated module's patches do ----

  /** The guest function at an import's address runs that import's own binding, under its name. */
  predicate RunsImport(externs: map<u32, ExternFunction>, requirement: ImportRequirement, binding: ImportBinding) {
    && requirement.address in externs
    && Carries(externs[requirement.address].owned, requirement, binding)
    && externs[requirement.address].name == requirement.name
    && externs[requirement.address].endAddress == (requirement.address as int + 12) % 0x1_0000_0000
  }

  lemma DispatchedImportsRun(externs: map<u32, ExternFunction>, imports: seq<ImportRequirement>, bindings: seq<ImportBinding>)
    requires AllBound(imports, bindings) && Ordinals16(imports) && Dispatches(externs, ExportsOf(imports, bindings))
    ensures forall i :: 0 <= i < |imports| && imports[i].kind == Function ==> RunsImport(externs, imports[i], bindings[i])
  {
    hide Binds, Carries;
    forall i | 0 <= i < |imports| && imports[i].kind == Function
      ensures RunsImport(externs, imports[i], bindings[i])
    {
      ExportOfCarries(imports[i], bindings[i]);
      ExportKeepsItsImport(imports, bindings, i);
      CarriedFields(ExportOf(imports[i], bindings[i]), imports[i], bindings[i]);
      assert ExportsOf(imports, bindings)[i] == ExportOf(imports[i], bindings[i]);
    }
  }

  lemma CarriedFields(owned: OwnedExport, requirement: ImportRequirement, binding: ImportBinding)
    requires Carries(owned, requirement, binding)
    ensures owned.kind == requirement.kind && owned.address == requirement.address && owned.name == requirement.name
  {
  }

  /** The words an import's place holds: the thunk's four instructions, or the address its resolver gave. */
  predicate PlaceHolds(memory: seq<byte>, requirement: ImportRequirement, binding: ImportBinding) {
    && (requirement.kind == Function ==>
          StandsAt(memory, requirement.address,
            [0x44, 0x00, 0x00, 0x42, 0x4E, 0x80, 0x00, 0x20, 0x60, 0x00, 0x00, 0x00, 0x60, 0x00, 0x00, 0x00]))
    && (requirement.kind == Variable ==>
          && binding.variableResolver.Some?
          && HasBytes(memory, requirement.recordAddress, 4)
          && ReadBe32(memory, requirement.recordAddress) == binding.variableResolver.value)
  }

  lemma ThunkBytes()
    ensures Thunk() ==
            [0x44, 0x00, 0x00, 0x42, 0x4E, 0x80, 0x00, 0x20, 0x60, 0x00, 0x00, 0x00, 0x60, 0x00, 0x00, 0x00]
  {
    hide Be32;
    StoredWord(0x44, 0x00, 0x00, 0x42);
    StoredWord(0x4E, 0x80, 0x00, 0x20);
    StoredWord(0x60, 0x00, 0x00, 0x00);
  }

  lemma PlaceHoldsIffItStands(memory: seq<byte>, imports: seq<ImportRequirement>, bindings: seq<ImportBinding>, i: nat)
    requires AllBound(imports, bindings) && Ordinals16(imports) && i < |imports|
    ensures PatchesOf(ExportsOf(imports, bindings))[i].Stands(memory) <==> PlaceHolds(memory, imports[i], bindings[i])
  {
    hide Be32, Thunk, Binds, ReadBe32;
    ExportOfCarries(imports[i], bindings[i]);
    ThunkBytes();
    var requirement := imports[i];
    if requirement.kind == Variable {
      var at: nat, value := requirement.recordAddress, bindings[i].variableResolver.value;
      WordRoundTrip(value);
      if HasBytes(memory, at, 4) {
        BytesRoundTrip(memory[at..at + 4]);
        WordInPart(memory, at);
      }
    }
  }

  lemma WordInPart(memory: seq<byte>, at: nat)
    requires HasBytes(memory, at, 4)
    ensures ReadBe32(memory[at..at + 4], 0) == ReadBe32(memory, at)
  {
  }

  predicate InsideImage(patch: Patch, d: ModuleDescriptor) {
    d.image.base <= patch.offset && patch.offset + |patch.bytes| <= ImageEnd(d)
  }

  /** Every write Attach can make for a validated module lies inside the image. */
  lemma PatchesStayInsideTheImage(m: GuestModule, bindings: seq<ImportBinding>, i: nat)
    requires Valid(m) && AllBound(m.importManifest, bindings) && i < |m.importManifest|
    ensures InsideImage(PatchesOf(ExportsOf(m.importManifest, bindings))[i], m.descriptor)
  {
    hide *;
    ValidImageEnds(m);
    ValidImport(m, bindings, i);
    FormedImportsStayInside(m.descriptor, m.importManifest[i], bindings[i]);
  }

  lemma ValidImport(m: GuestModule, bindings: seq<ImportBinding>, i: nat)
    requires Valid(m) && AllBound(m.importManifest, bindings) && i < |m.importManifest|
    ensures i < |bindings| && Binds(bindings[i], m.importManifest[i]) && ImportFormed(m.descriptor, m.importManifest[i])
    ensures PatchesOf(ExportsOf(m.importManifest, bindings))[i] == PatchOf(ExportOf(m.importManifest[i], bindings[i]))
  {
    hide *;
    ImportsAreFormed(m, i);
    ImportIsBound(m.importManifest, bindings, i);
  }

  lemma ImportsAreFormed(m: GuestModule, i: nat)
    requires Valid(m) && i < |m.importManifest|
    ensures ImportFormed(m.descriptor, m.importManifest[i])
  {
    hide ImageValid, ImportFormed, Sorted, Conflicts;
  }

  lemma ImportIsBound(imports: seq<ImportRequirement>, bindings: seq<ImportBinding>, i: nat)
    requires AllBound(imports, bindings) && i < |imports|
    ensures i < |bindings| && Binds(bindings[i], imports[i])
    ensures PatchesOf(ExportsOf(imports, bindings))[i] == PatchOf(ExportOf(imports[i], bindings[i]))
  {
    hide Binds, PatchOf;
  }

  lemma FormedImportsStayInside(d: ModuleDescriptor, requirement: ImportRequirement, binding: ImportBinding)
    requires ImportFormed(d, requirement) && Binds(binding, requirement)
    requires d.image.base <= d.code.base && d.code.End() <= ImageEnd(d)
    ensures InsideImage(PatchOf(ExportOf(requirement, binding)), d)
  {
    hide IsValidLibrary, IsValidImportName;
  }

  /** Attached or refused part-way, nothing outside the image changes. */
  lemma AttachStaysInsideTheImage(m: GuestModule, bindings: seq<ImportBinding>, memory: seq<byte>, attached: nat, index: nat)
    requires Valid(m) && AllBound(m.importManifest, bindings) && attached <= |m.importManifest|
    requires |memory| == 0x1_0000_0000 && index < |memory|
    requires !(m.descriptor.image.base <= index < ImageEnd(m.descriptor))
    ensures var patches := PatchesOf(ExportsOf(m.importManifest, bindings)[..attached]);
            AllFit(memory, patches) && Applied(memory, patches)[index] == memory[index]
  {
    hide Valid, AllBound, ExportsOf, PatchOf;
    var exports := ExportsOf(m.importManifest, bindings);
    var patches := PatchesOf(exports[..attached]);
    forall i | 0 <= i < attached
      ensures patches[i].Fits(memory) && !patches[i].Covers(index)
    {
      PatchesStayInsideTheImage(m, bindings, i);
      assert patches[i] == PatchesOf(exports)[i];
      ValidImageEnds(m);
    }
    AppliedFrame(memory, patches, index);
  }

  lemma ValidImageEnds(m: GuestModule)
    requires Valid(m)
    ensures var d := m.descriptor;
            ImageEnd(d) <= 0x1_0000_0000 && d.image.base <= d.code.base && d.code.End() <= ImageEnd(d)
  {
  }

  /** Two writes of a manifest clash when two thunks overlap, or when a variable's record
      lies in a thunk and its word is not the one the thunk has there. */
  predicate Clash(left: OwnedExport, right: OwnedExport) {
    if left.kind == Function && right.kind == Function then ThunksOverlap(left.address, right.address)
    else if left.kind == Function then RecordSpoils(left.address, right)
    else right.kind == Function && RecordSpoils(right.address, left)
  }

  predicate ThunksOverlap(left: u32, right: u32) {
    left < right as int + 16 && right < left as int + 16
  }

  predicate RecordSpoils(address: u32, variable: OwnedExport) {
    var at := variable.recordAddress - address;
    0 <= at < 16 && variable.resolvedVariable != ThunkWord(at / 4)
  }

  function ThunkWord(index: int): u32 {
    if index == 0 then 0x44000042 else if index == 1 then 0x4E800020 else 0x60000000
  }

  predicate WordAligned(export_: OwnedExport) {
    export_.address % 4 == 0 && export_.recordAddress % 4 == 0
  }

  lemma ThunkAt(k: nat)
    requires k < 16
    ensures Thunk()[k] == Be32(ThunkWord(k / 4))[k % 4]
  {
  }

  /** Overlapping thunks at different aligned addresses always disagree somewhere. */
  lemma ThunksAgreeWhenApart(left: Patch, right: Patch)
    requires left.bytes == Thunk() && right.bytes == Thunk() && left.offset != right.offset
    requires left.offset % 4 == 0 && right.offset % 4 == 0
    ensures Agree(left, right) <==> !(left.offset < right.offset + 16 && right.offset < left.offset + 16)
  {
    hide Thunk;
    var at := if left.offset < right.offset then right.offset else left.offset;
    if left.Covers(at) && right.Covers(at) {
      ThunkAt(at - left.offset);
      ThunkAt(at - right.offset);
      assert left.At(at) != right.At(at);
    }
  }

  /** A record inside a thunk agrees with it exactly when its word is the one there. */
  lemma RecordAgreesWithItsThunkWord(thunk: Patch, record: Patch, value: u32)
    requires thunk.bytes == Thunk() && record.bytes == Be32(value)
    requires thunk.offset % 4 == 0 && record.offset % 4 == 0
    ensures Agree(thunk, record) <==>
            (0 <= record.offset - thunk.offset < 16 ==> value == ThunkWord((record.offset - thunk.offset) / 4))
  {
    hide Thunk, Be32, ThunkWord;
    var at := record.offset - thunk.offset;
    if 0 <= at < 16 {
      forall k | 0 <= k < 4
        ensures thunk.Covers(record.offset + k) && record.Covers(record.offset + k)
        ensures thunk.At(record.offset + k) == Be32(ThunkWord(at / 4))[k]
        ensures record.At(record.offset + k) == Be32(value)[k]
      {
        ThunkAt(at + k);
      }
      if Agree(thunk, record) {
        assert forall k :: 0 <= k < 4 ==> Be32(value)[k] == Be32(ThunkWord(at / 4))[k];
        assert Be32(value) == Be32(ThunkWord(at / 4));
        WordRoundTrip(value);
        WordRoundTrip(ThunkWord(at / 4));
      }
      if value == ThunkWord(at / 4) {
        forall index | thunk.Covers(index) && record.Covers(index)
          ensures thunk.At(index) == record.At(index)
        {
          assert index == record.offset + (index - record.offset);
        }
      }
    }
  }

  lemma ExportsAgreeUnlessTheyClash(left: OwnedExport, right: OwnedExport)
    requires WordAligned(left) && WordAligned(right)
    requires left.address != right.address && left.recordAddress != right.recordAddress
    ensures Agree(PatchOf(left), PatchOf(right)) <==> !Clash(left, right)
  {
    hide Thunk, Be32, ThunkWord, Agree;
    if left.kind == Function && right.kind == Function {
      ThunksAgreeWhenApart(PatchOf(left), PatchOf(right));
    } else if left.kind == Function {
      RecordAgreesWithItsThunkWord(PatchOf(left), PatchOf(right), right.resolvedVariable);
    } else if right.kind == Function {
      AgreeIsSymmetric(PatchOf(left), PatchOf(right));
      RecordAgreesWithItsThunkWord(PatchOf(right), PatchOf(left), left.resolvedVariable);
    } else {
      RecordsAgree(PatchOf(left), PatchOf(right));
    }
  }

  lemma RecordsAgree(left: Patch, right: Patch)
    requires |left.bytes| == 4 && |right.bytes| == 4 && left.offset != right.offset
    requires left.offset % 4 == 0 && right.offset % 4 == 0
    ensures Agree(left, right)
  {
  }

  predicate NoClash(exports: seq<OwnedExport>) {
    forall i, j :: 0 <= i < j < |exports| ==> !Clash(exports[i], exports[j])
  }

  lemma ValidExports(m: GuestModule, bindings: seq<ImportBinding>, i: nat, j: nat)
    requires Valid(m) && AllBound(m.importManifest, bindings) && i < j < |m.importManifest|
    ensures var exports := ExportsOf(m.importManifest, bindings);
            && WordAligned(exports[i]) && WordAligned(exports[j])
            && exports[i].address != exports[j].address && exports[i].recordAddress != exports[j].recordAddress
  {
    hide ImageValid, IsValidLibrary, IsValidImportName;
    var imports := m.importManifest;
    assert ImportFormed(m.descriptor, imports[i]) && ImportFormed(m.descriptor, imports[j]);
    assert !Conflicts(imports[i], imports[j]);
    assert Binds(bindings[i], imports[i]) && Binds(bindings[j], imports[j]);
  }

  /** ValidateModule does not separate the sixteen-byte thunks. After a full Attach of a valid
      module every thunk and record holds its words exactly when no two writes clash. */
  lemma AttachIsExactUnlessWritesClash(m: GuestModule, bindings: seq<ImportBinding>, memory: seq<byte>)
    requires Valid(m) && AllBound(m.importManifest, bindings) && |memory| == 0x1_0000_0000
    ensures var exports := ExportsOf(m.importManifest, bindings);
            var patches := PatchesOf(exports);
            AllFit(memory, patches) && (AllStand(Applied(memory, patches), patches) <==> NoClash(exports))
  {
    hide Valid, AllBound, ExportsOf, PatchOf, Clash, Agree, Applied;
    var exports := ExportsOf(m.importManifest, bindings);
    var patches := PatchesOf(exports);
    forall i | 0 <= i < |exports|
      ensures patches[i].Fits(memory)
    {
      PatchesStayInsideTheImage(m, bindings, i);
      ValidImageEnds(m);
    }
    forall i, j | 0 <= i < j < |exports|
      ensures Agree(patches[i], patches[j]) <==> !Clash(exports[i], exports[j])
    {
      ValidExports(m, bindings, i, j);
      ExportsAgreeUnlessTheyClash(exports[i], exports[j]);
    }
    PatchesStandIffTheyAgree(memory, patches);
  }

  /** A valid manifest names each function address once, so only addresses Xenia had already
      taken are refused. */
  lemma ValidFunctionsAreDeclaredOnce(m: GuestModule, bindings: seq<ImportBinding>, i: nat, taken: set<u32>)
    requires Valid(m) && AllBound(m.importManifest, bindings) && i < |m.importManifest|
    ensures Refused(ExportsOf(m.importManifest, bindings), i, taken) <==>
            m.importManifest[i].kind == Function && m.importManifest[i].address in taken
  {
    hide Valid, AllBound, ExportsOf;
    var exports := ExportsOf(m.importManifest, bindings);
    ExportKeepsItsImport(m.importManifest, bindings, i);
    forall j | 0 <= j < i
      ensures exports[j].address != exports[i].address
    {
      ValidExports(m, bindings, j, i);
    }
  }

  lemma ExportKeepsItsImport(imports: seq<ImportRequirement>, bindings: seq<ImportBinding>, i: nat)
    requires AllBound(imports, bindings) && i < |imports|
    ensures var owned := ExportsOf(imports, bindings)[i];
            owned.kind == imports[i].kind && owned.address == imports[i].address
            && owned.recordAddress == imports[i].recordAddress
  {
    assert Binds(bindings[i], imports[i]);
  }
}
