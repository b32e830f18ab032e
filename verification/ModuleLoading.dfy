/** RuntimeContext's module load, src/runtime.cpp: validate, bind, copy the image, attach the imports. */
module ModuleLoading {
  import opened Bytes
  import opened ModuleContract
  import opened ModuleValidation
  import opened Patches
  import opened RuntimeFailures
  import opened RuntimeImports
  import opened ImportAttachment

  /** What Xenia answers during one load. */
  datatype LoadOutcomes = LoadOutcomes(reserved: bool, taken: set<u32>, registered: bool, armed: bool)

  /** The checks that come before anything is written. */
  ghost predicate Admitted(m: GuestModule, bindings: seq<ImportBinding>) {
    && Valid(m) && AllBound(m.importManifest, bindings)
    && forall i :: 0 <= i < |m.importManifest| ==> !ResolvesToNull(m.importManifest[i], bindings[i])
  }

  /** Why a load is refused before anything is written, the first reason first. */
  ghost function Refusal(m: GuestModule, bindings: seq<ImportBinding>, outcomes: LoadOutcomes): RuntimeError {
    if !Valid(m) then ModuleValidationFailed
    else if !AllBound(m.importManifest, bindings) then ImportValidationFailed
    else if !Admitted(m, bindings) then VariableResolutionFailed
    else if !outcomes.reserved then ImageAllocationFailed
    else RuntimeError.NoError
  }

  /** Each reason is given exactly when its own check is the first to fail. */
  lemma RefusalNamesTheFirstFailure(m: GuestModule, bindings: seq<ImportBinding>, outcomes: LoadOutcomes)
    ensures Refusal(m, bindings, outcomes) == ModuleValidationFailed <==> !Valid(m)
    ensures Refusal(m, bindings, outcomes) == ImportValidationFailed <==> Valid(m) && !AllBound(m.importManifest, bindings)
    ensures Refusal(m, bindings, outcomes) == VariableResolutionFailed <==>
            && Valid(m) && AllBound(m.importManifest, bindings)
            && exists i :: 0 <= i < |bindings| && bindings[i].kind == Variable && bindings[i].variableResolver == Some(0)
    ensures Refusal(m, bindings, outcomes) == ImageAllocationFailed <==> Admitted(m, bindings) && !outcomes.reserved
    ensures Refusal(m, bindings, outcomes) == RuntimeError.NoError <==> Admitted(m, bindings) && outcomes.reserved
  {
    hide Valid;
    if Valid(m) && AllBound(m.importManifest, bindings) {
      forall i | 0 <= i < |bindings|
        ensures ResolvesToNull(m.importManifest[i], bindings[i])
                <==> bindings[i].kind == Variable && bindings[i].variableResolver == Some(0)
      {
        assert Binds(bindings[i], m.importManifest[i]);
      }
    }
  }

  /** Guest memory once the image is copied in and the first `attached` imports are patched. */
  ghost function Loaded(memory: seq<byte>, m: GuestModule, bindings: seq<ImportBinding>, attached: nat): seq<byte>
    requires Valid(m) && AllBound(m.importManifest, bindings) && attached <= |m.importManifest|
    requires |memory| == 0x1_0000_0000
  {
    ImageFits(m);
    AttachFits(m, bindings, Patched(memory, m.descriptor.image.base, m.imageBytes), attached);
    Applied(Patched(memory, m.descriptor.image.base, m.imageBytes),
            PatchesOf(ExportsOf(m.importManifest, bindings)[..attached]))
  }

  lemma ImageFits(m: GuestModule)
    requires Valid(m)
    ensures m.descriptor.image.base as int + |m.imageBytes| == ImageEnd(m.descriptor) <= 0x1_0000_0000
  {
  }

  lemma AttachFits(m: GuestModule, bindings: seq<ImportBinding>, memory: seq<byte>, attached: nat)
    requires Valid(m) && AllBound(m.importManifest, bindings) && attached <= |m.importManifest|
    requires |memory| == 0x1_0000_0000
    ensures AllFit(memory, PatchesOf(ExportsOf(m.importManifest, bindings)[..attached]))
  {
    hide Valid, AllBound, ExportsOf, PatchOf, Applied;
    var exports := ExportsOf(m.importManifest, bindings);
    forall i | 0 <= i < attached
      ensures PatchesOf(exports[..attached])[i].Fits(memory)
    {
      PatchesStayInsideTheImage(m, bindings, i);
      ValidImageEnds(m);
      assert PatchesOf(exports[..attached])[i] == PatchesOf(exports)[i];
    }
  }

  /** A load, finished or not, changes guest memory only inside the image. */
  lemma LoadStaysInsideTheImage(memory: seq<byte>, m: GuestModule, bindings: seq<ImportBinding>, attached: nat, index: nat)
    requires Valid(m) && AllBound(m.importManifest, bindings) && attached <= |m.importManifest|
    requires |memory| == 0x1_0000_0000 && index < |memory|
    requires !(m.descriptor.image.base <= index < ImageEnd(m.descriptor))
    ensures |Loaded(memory, m, bindings, attached)| == |memory|
    ensures Loaded(memory, m, bindings, attached)[index] == memory[index]
  {
    hide Valid, AllBound, ExportsOf, PatchesOf, Applied;
    ImageFits(m);
    AttachStaysInsideTheImage(m, bindings, Patched(memory, m.descriptor.image.base, m.imageBytes), attached, index);
  }

  /** After a full load, an image byte that no import's thunk or record covers is the sealed byte,
      and every thunk and record stands when no two of them clash. */
  lemma LoadedImageIsTheSealedImage(memory: seq<byte>, m: GuestModule, bindings: seq<ImportBinding>)
    requires Valid(m) && AllBound(m.importManifest, bindings) && |memory| == 0x1_0000_0000
    ensures var loaded := Loaded(memory, m, bindings, |m.importManifest|);
            var patches := PatchesOf(ExportsOf(m.importManifest, bindings));
            && |loaded| == |memory|
            && (AllStand(loaded, patches) <==> NoClash(ExportsOf(m.importManifest, bindings)))
            && forall k :: 0 <= k < |m.imageBytes| && ImageEnd(m.descriptor) <= 0x1_0000_0000
                           && (forall i :: 0 <= i < |patches| ==> !patches[i].Covers(m.descriptor.image.base + k)) ==>
                 loaded[m.descriptor.image.base + k] == m.imageBytes[k]
  {
    hide Valid, AllBound, ExportsOf, PatchOf, Applied, NoClash;
    ImageFits(m);
    var copied := Patched(memory, m.descriptor.image.base, m.imageBytes);
    var exports := ExportsOf(m.importManifest, bindings);
    assert exports[..|m.importManifest|] == exports;
    AttachFits(m, bindings, copied, |m.importManifest|);
    AttachIsExactUnlessWritesClash(m, bindings, copied);
    var patches := PatchesOf(exports);
    forall k | 0 <= k < |m.imageBytes| && (forall i :: 0 <= i < |patches| ==> !patches[i].Covers(m.descriptor.image.base + k))
      ensures Applied(copied, patches)[m.descriptor.image.base + k] == m.imageBytes[k]
    {
      AppliedFrame(copied, patches, m.descriptor.image.base + k);
    }
  }

  /** How guest memory and the declared functions stand after `attached` imports: all of them,
      or those before the first one Xenia refused. */
  ghost predicate Placed(m: GuestModule, bindings: seq<ImportBinding>, taken: set<u32>,
                         before: seq<byte>, after: seq<byte>, attached: nat, externs: map<u32, ExternFunction>)
    requires Valid(m) && AllBound(m.importManifest, bindings) && |before| == 0x1_0000_0000
  {
    var exports := ExportsOf(m.importManifest, bindings);
    && attached <= |exports| && NoneRefused(exports, attached, taken)
    && (attached < |exports| ==> Refused(exports, attached, taken))
    && (attached == |exports| ==> Dispatches(externs, exports))
    && after == Loaded(before, m, bindings, attached)
  }

  /** Every function import's address runs that import's own binding. */
  predicate AllRun(m: GuestModule, bindings: seq<ImportBinding>, externs: map<u32, ExternFunction>)
    requires |bindings| == |m.importManifest|
  {
    forall i :: 0 <= i < |m.importManifest| && m.importManifest[i].kind == Function ==>
      RunsImport(externs, m.importManifest[i], bindings[i])
  }

  lemma PlacedImportsRun(m: GuestModule, bindings: seq<ImportBinding>, taken: set<u32>,
                         before: seq<byte>, after: seq<byte>, attached: nat, externs: map<u32, ExternFunction>)
    requires Valid(m) && AllBound(m.importManifest, bindings) && |before| == 0x1_0000_0000
    requires Placed(m, bindings, taken, before, after, attached, externs) && attached >= |m.importManifest|
    ensures AllRun(m, bindings, externs)
  {
    hide Valid, Binds, RunsImport, NoneRefused, Refused, Dispatches, Applied;
    ValidManifestIsSorted(m);
    DispatchedImportsRun(externs, m.importManifest, bindings);
  }

  /** After a full load every function's address holds the thunk's sixteen bytes and every variable's
      record the address its resolver gave, if and only if no two imports clash. */
  lemma LoadedPlacesHoldIffNoClash(memory: seq<byte>, m: GuestModule, bindings: seq<ImportBinding>)
    requires Valid(m) && AllBound(m.importManifest, bindings) && |memory| == 0x1_0000_0000
    ensures NoClash(ExportsOf(m.importManifest, bindings)) <==>
            forall i :: 0 <= i < |m.importManifest| ==>
              PlaceHolds(Loaded(memory, m, bindings, |m.importManifest|), m.importManifest[i], bindings[i])
  {
    hide Valid, Binds, PlaceHolds, Loaded, NoClash, PatchesOf, ExportsOf;
    LoadedImageIsTheSealedImage(memory, m, bindings);
    ValidManifestIsSorted(m);
    var loaded := Loaded(memory, m, bindings, |m.importManifest|);
    forall i | 0 <= i < |m.importManifest|
      ensures PatchesOf(ExportsOf(m.importManifest, bindings))[i].Stands(loaded) <==>
              PlaceHolds(loaded, m.importManifest[i], bindings[i])
    {
      PlaceHoldsIffItStands(loaded, m.importManifest, bindings, i);
    }
  }

  class RuntimeContext {
    /** Guest memory, indexed by guest address. */
    const memory: array<byte>
    /** The authenticated image, once it is registered. */
    var loaded: Option<ModuleDescriptor>
    var loadFailed: bool
    var externs: map<u32, ExternFunction>
    /** The image's range is allocated in Xenia's heap. */
    var imageReserved: bool

    ghost predicate Ready() {
      memory.Length == 0x1_0000_0000
    }

    constructor (guestMemory: array<byte>)
      requires guestMemory.Length == 0x1_0000_0000
      ensures Ready() && memory == guestMemory && loaded == None && !loadFailed && !imageReserved
    {
      memory := guestMemory;
      loaded := None;
      loadFailed := false;
      externs := map[];
      imageReserved := false;
    }

    /** One context loads one image. A refusal before the copy changes nothing; one after it
        bars every later load. */
    method LoadModule(m: GuestModule, bindings: seq<ImportBinding>, outcomes: LoadOutcomes)
        returns (failure: RuntimeFailure, ghost attached: nat)
      requires Ready()
      modifies this, memory
      ensures Ready()
      ensures old(loadFailed) ==> failure == Fail(LoadStateInvalid)
      ensures !old(loadFailed) && old(loaded).Some? ==> failure == Fail(ModuleAlreadyLoaded)
      ensures !old(loadFailed) && old(loaded).None? && Refusal(m, bindings, outcomes) != RuntimeError.NoError ==>
                failure == Fail(Refusal(m, bindings, outcomes))
      ensures old(loadFailed) || old(loaded).Some? || Refusal(m, bindings, outcomes) != RuntimeError.NoError ==>
                memory[..] == old(memory[..]) && loaded == old(loaded) && loadFailed == old(loadFailed)
                && externs == old(externs) && imageReserved == old(imageReserved)
      ensures !old(loadFailed) && old(loaded).None? && Refusal(m, bindings, outcomes) == RuntimeError.NoError ==>
                && Placed(m, bindings, outcomes.taken, old(memory[..]), memory[..], attached, externs)
                && loadFailed == failure.Failed() && imageReserved == !failure.Failed()
                && failure == (if attached < |m.importManifest| then Fail(ImportAttachmentFailed)
                               else if !outcomes.registered then Fail(ModuleRegistrationFailed)
                               else if !outcomes.armed then Fail(ExecutableWatchRegistrationFailed)
                               else NO_FAILURE)
                && (!failure.Failed() ==> loaded == Some(m.descriptor))
                && (!failure.Failed() ==> AllRun(m, bindings, externs))
    {
      hide Refusal, Placed, AllRun, Valid, AllBound, Indexes, ExportsOf;
      attached := 0;
      if loadFailed {
        return Fail(LoadStateInvalid), attached;
      }
      if loaded.Some? {
        return Fail(ModuleAlreadyLoaded), attached;
      }
      var admitted := Admit(m, bindings, outcomes);
      if admitted.Err? {
        return Fail(admitted.error), attached;
      }
      // The reservation is given back on every way out but the last.
      imageReserved := false;
      failure, externs, attached := Place(m, bindings, admitted.value, outcomes.taken);
      if failure.Failed() {
        loadFailed := true;
        return;
      }
      if !outcomes.registered {
        loadFailed := true;
        return Fail(ModuleRegistrationFailed), attached;
      }
      loaded := Some(m.descriptor);
      if !outcomes.armed {
        loadFailed := true;
        return Fail(ExecutableWatchRegistrationFailed), attached;
      }
      imageReserved := true;
      PlacedImportsRun(m, bindings, outcomes.taken, old(memory[..]), memory[..], attached, externs);
    }

    /** Copies the image and attaches its imports. */
    method Place(m: GuestModule, bindings: seq<ImportBinding>, tables: seq<OwnedTable>, taken: set<u32>)
        returns (failure: RuntimeFailure, declared: map<u32, ExternFunction>, ghost attached: nat)
      requires Ready() && Valid(m) && AllBound(m.importManifest, bindings)
      requires Indexes(tables, ExportsOf(m.importManifest, bindings))
      modifies memory
      ensures Placed(m, bindings, taken, old(memory[..]), memory[..], attached, declared)
      ensures failure == if attached < |m.importManifest| then Fail(ImportAttachmentFailed) else NO_FAILURE
    {
      hide Valid, AllBound, Applied, PatchesOf, ExportsOf, Indexes, Dispatches, Refused, NoneRefused;
      ImageFits(m);
      CopyImage(m.descriptor.image.base, m.imageBytes);
      ghost var exports := ExportsOf(m.importManifest, bindings);
      assert exports[..|exports|] == exports;
      AttachFits(m, bindings, memory[..], |exports|);
      failure, declared, attached := Attach(memory, tables, exports, taken);
    }

    method CopyImage(base: nat, bytes: seq<byte>)
      requires base + |bytes| <= memory.Length
      modifies memory
      ensures memory[..] == Patched(old(memory[..]), base, bytes)
    {
      hide Patched;
      for k := 0 to |bytes|
        invariant forall i :: 0 <= i < memory.Length ==>
          memory[i] == if base <= i < base + k then bytes[i - base] else old(memory[i])
      {
        memory[base + k] := bytes[k];
      }
      assert memory[..] == Patched(old(memory[..]), base, bytes);
    }
  }

  /** Runs the checks in their order and builds the export tables. */
  method Admit(m: GuestModule, bindings: seq<ImportBinding>, outcomes: LoadOutcomes)
      returns (admitted: Result<seq<OwnedTable>, RuntimeError>)
    ensures admitted.Ok? <==> Refusal(m, bindings, outcomes) == RuntimeError.NoError
    ensures admitted.Err? ==> admitted.error == Refusal(m, bindings, outcomes)
    ensures admitted.Ok? ==> Valid(m) && AllBound(m.importManifest, bindings)
                             && Indexes(admitted.value, ExportsOf(m.importManifest, bindings))
  {
    hide Valid, AllBound, ExportsOf, Indexes, Sorted, Ordinals16, AllExports, Reports;
    var validation := ValidateModule(m);
    if validation != ValidationError.NoError {
      return Err(ModuleValidationFailed);
    }
    var binding := ValidateImports(m.importManifest, bindings);
    if binding != ValidationError.NoError {
      return Err(ImportValidationFailed);
    }
    admitted := Create(m.importManifest, bindings);
    SomeResolverIsNull(m, bindings);
    if admitted.Err? {
      return;
    }
    ValidManifestIsSorted(m);
    if !outcomes.reserved {
      return Err(ImageAllocationFailed);
    }
  }

  lemma SomeResolverIsNull(m: GuestModule, bindings: seq<ImportBinding>)
    requires Valid(m) && AllBound(m.importManifest, bindings)
    ensures Admitted(m, bindings) <==>
            !exists i :: 0 <= i < |m.importManifest| && ResolvesToNull(m.importManifest[i], bindings[i])
  {
    hide Valid;
  }

  lemma ValidManifestIsSorted(m: GuestModule)
    requires Valid(m)
    ensures Sorted(m.importManifest) && Ordinals16(m.importManifest)
  {
    hide ImageValid, ImportFormed, Conflicts, ImportLess;
  }
}
