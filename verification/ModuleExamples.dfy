/** Modules that ValidateModule accepts, once their images have a digest that is not all zero, and
    for which a promise of the runtime fails. */
module ModuleExamples {
  import opened Bytes
  import opened ModuleContract
  import opened Digest
  import opened ManifestCodec
  import opened ModuleValidation
  import opened Patches
  import opened PendingWrites
  import opened RuntimeImports
  import opened ImportAttachment

  function Zeros(count: nat): (bytes: seq<byte>)
    ensures |bytes| == count
  {
    seq(count, _ => 0)
  }

  // ---- Thunks four bytes apart ----

  function Requirement(ordinal: u32, address: u32, recordAddress: u32): ImportRequirement {
    ImportRequirement(Function, [0x6B], ordinal, [], address, recordAddress)
  }

  /** Two functions of library "k": their sixteen-byte thunks start four bytes apart. */
  function CloseManifest(): seq<ImportRequirement> {
    [Requirement(1, 0x1_0000, 0x1_0020), Requirement(2, 0x1_0004, 0x1_0024)]
  }

  function CloseModule(): GuestModule {
    GuestModule(
      ModuleDescriptor(ImageIdentity(DigestOf(Zeros(0x40)), 0x1_0000, 0x40, 0x1_0000), CodeRange(0x1_0000, 0x20),
                       2, DigestOf(Encode(CloseManifest()))),
      Zeros(0x40), CloseManifest())
  }

  function Bindings(): seq<ImportBinding> {
    [ImportBinding([0x6B], 1, Function, Some(0), None, None, None), ImportBinding([0x6B], 2, Function, Some(0), None, None, None)]
  }

  lemma CloseManifestIsValid()
    ensures ManifestValid(CloseModule().descriptor, CloseManifest())
  {
    hide DigestOf, Encode;
    var d := CloseModule().descriptor;
    forall i | 0 <= i < 2
      ensures ImportFormed(d, CloseManifest()[i])
    {
      assert IsPortableKeyCharacter(0x6B);
    }
  }

  /** The manifest is valid and the module is too, given a digest; and after a full Attach of it,
      over any guest memory, one of the two thunks does not hold its words. */
  lemma CloseThunksAreAccepted(memory: seq<byte>)
    requires |memory| == 0x1_0000_0000
    ensures ManifestValid(CloseModule().descriptor, CloseManifest())
    ensures Valid(CloseModule()) <==> HasDigest(DigestOf(Zeros(0x40)))
    ensures AllBound(CloseManifest(), Bindings())
    ensures var patches := PatchesOf(ExportsOf(CloseManifest(), Bindings()));
            AllFit(memory, patches) && !AllStand(Applied(memory, patches), patches)
  {
    CloseManifestIsValid();
    CloseModuleIsValid();
    CloseThunksClash();
    hide *;
    var patches := PatchesOf(ExportsOf(CloseManifest(), Bindings()));
    CloseThunksFit(memory);
    PatchesStandIffTheyAgree(memory, patches);
    OnePairDisagrees(patches);
  }

  lemma OnePairDisagrees(patches: seq<Patch>)
    requires |patches| == 2 && !Agree(patches[0], patches[1])
    ensures !AllAgree(patches)
  {
    hide Agree;
  }

  lemma CloseModuleIsValid()
    requires ManifestValid(CloseModule().descriptor, CloseManifest())
    ensures Valid(CloseModule()) <==> HasDigest(DigestOf(Zeros(0x40)))
  {
    hide DigestOf, Encode, ManifestValid, HasDigest, CloseManifest, Zeros;
    assert |CloseManifest()| == 2 by {
      TwoImports();
    }
  }

  lemma TwoImports()
    ensures |CloseManifest()| == 2
  {
  }

  lemma CloseThunksClash()
    ensures AllBound(CloseManifest(), Bindings())
    ensures var patches := PatchesOf(ExportsOf(CloseManifest(), Bindings()));
            |patches| == 2 && !Agree(patches[0], patches[1])
    ensures var patches := PatchesOf(ExportsOf(CloseManifest(), Bindings()));
            patches == [Patch(0x1_0000, Thunk()), Patch(0x1_0004, Thunk())]
  {
    hide Thunk, Agree;
    ThunksAgreeWhenApart(Patch(0x1_0000, Thunk()), Patch(0x1_0004, Thunk()));
  }

  lemma CloseThunksFit(memory: seq<byte>)
    requires |memory| == 0x1_0000_0000 && AllBound(CloseManifest(), Bindings())
    requires PatchesOf(ExportsOf(CloseManifest(), Bindings())) == [Patch(0x1_0000, Thunk()), Patch(0x1_0004, Thunk())]
    ensures |PatchesOf(ExportsOf(CloseManifest(), Bindings()))| == 2
    ensures AllFit(memory, PatchesOf(ExportsOf(CloseManifest(), Bindings())))
  {
    hide Thunk, CloseManifest, Bindings, PatchesOf, ExportsOf, AllBound;
  }

  // ---- Code up to the top of the address space ----

  function TopModule(): GuestModule {
    GuestModule(
      ModuleDescriptor(ImageIdentity(DigestOf(Zeros(0x1_0000)), 0xFFFF_0000, 0x1_0000, 0xFFFF_0000),
                       CodeRange(0xFFFF_0000, 0x1_0000), 0, DigestOf(Encode([]))),
      Zeros(0x1_0000), [])
  }

  const TOP := Interval(0xFFFF_FFFF, 0xFFFF_FFFF)

  /** The module's code ends at 2 to the 32nd. Reports of its last byte, once or twice, leave a
      word that covers nothing, and the drain passes nothing on; any other report merged before
      the drain delivers that byte too. */
  lemma TopReportIsLost(other: Interval)
    requires 0xFFFF_0000 <= other.first <= other.last && other.first != 0xFFFF_FFFF
    ensures Valid(TopModule()) <==> HasDigest(DigestOf(Zeros(0x1_0000)))
    ensures var code := TopModule().descriptor.code;
            && CodeRangeValid(TopModule().descriptor) && code.End() == 0x1_0000_0000
            && Clip(code, 0xFFFF_FFFF, 1) == Some(TOP)
    ensures var code := TopModule().descriptor.code; var once := Merge(NO_PENDING_WRITE, TOP);
            && once != NO_PENDING_WRITE && Merge(once, TOP) == once
            && (forall a: int :: !Covers(once, a)) && DrainRange(code, once) == None
            && Covers(Merge(once, other), 0xFFFF_FFFF)
            && DrainRange(code, Merge(once, other)) == Some((other.first, 0xFFFF_FFFF - other.first + 1))
  {
    hide DigestOf, Encode, HasDigest, Zeros;
    EmptyManifestIsValid(TopModule().descriptor, []);
  }
}
