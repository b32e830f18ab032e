/** Writes to guest memory, applied in order. */
module Patches {
  import opened Bytes

  datatype Patch = Patch(offset: nat, bytes: seq<byte>) {
    predicate Covers(index: int) {
      offset <= index < offset + |bytes|
    }

    predicate Fits(memory: seq<byte>) {
      HasBytes(memory, offset, |bytes|)
    }

    predicate Stands(memory: seq<byte>) {
      StandsAt(memory, offset, bytes)
    }

    /** The byte this patch puts at `index`. */
    function At(index: int): byte
      requires Covers(index)
    {
      bytes[index - offset]
    }
  }

  predicate AllFit(memory: seq<byte>, patches: seq<Patch>) {
    forall i :: 0 <= i < |patches| ==> patches[i].Fits(memory)
  }

  function Applied(memory: seq<byte>, patches: seq<Patch>): (applied: seq<byte>)
    requires AllFit(memory, patches)
    ensures |applied| == |memory|
  {
    if |patches| == 0 then memory
    else
      var last := |patches| - 1;
      Patched(Applied(memory, patches[..last]), patches[last].offset, patches[last].bytes)
  }

  /** Two patches that follow each other are one. */
  lemma PatchedTwice(memory: seq<byte>, offset: nat, left: seq<byte>, right: seq<byte>)
    requires HasBytes(memory, offset, |left| + |right|)
    ensures Patched(Patched(memory, offset, left), offset + |left|, right) == Patched(memory, offset, left + right)
  {
  }

  /** A byte no patch covers keeps its value. */
  lemma {:induction false} AppliedFrame(memory: seq<byte>, patches: seq<Patch>, index: nat)
    requires AllFit(memory, patches) && index < |memory|
    requires forall i :: 0 <= i < |patches| ==> !patches[i].Covers(index)
    ensures Applied(memory, patches)[index] == memory[index]
  {
    if |patches| > 0 {
      AppliedFrame(memory, patches[..|patches| - 1], index);
    }
  }

  /** The two patches put the same byte wherever they meet. */
  ghost predicate Agree(left: Patch, right: Patch) {
    forall index {:trigger left.Covers(index)} ::
      left.Covers(index) && right.Covers(index) ==> left.At(index) == right.At(index)
  }

  lemma AgreeIsSymmetric(left: Patch, right: Patch)
    ensures Agree(left, right) <==> Agree(right, left)
  {
    if Agree(left, right) {
      assert forall index :: right.Covers(index) && left.Covers(index) ==> right.At(index) == left.At(index);
    }
    if Agree(right, left) {
      assert forall index :: left.Covers(index) && right.Covers(index) ==> left.At(index) == right.At(index);
    }
  }

  ghost predicate AllAgree(patches: seq<Patch>) {
    forall i, j :: 0 <= i < j < |patches| ==> Agree(patches[i], patches[j])
  }

  predicate AllStand(memory: seq<byte>, patches: seq<Patch>) {
    forall i :: 0 <= i < |patches| ==> patches[i].Stands(memory)
  }

  /** Every patch survives the whole run exactly when no two of them disagree. */
  lemma PatchesStandIffTheyAgree(memory: seq<byte>, patches: seq<Patch>)
    requires AllFit(memory, patches)
    ensures AllStand(Applied(memory, patches), patches) <==> AllAgree(patches)
  {
    var applied := Applied(memory, patches);
    if AllStand(applied, patches) {
      forall i, j | 0 <= i < j < |patches|
        ensures Agree(patches[i], patches[j])
      {
        StandingPatchesAgree(applied, patches[i], patches[j]);
      }
    }
    if AllAgree(patches) {
      forall i | 0 <= i < |patches|
        ensures patches[i].Stands(applied)
      {
        AgreeingPatchStands(memory, patches, i);
      }
    }
  }

  lemma StandingPatchesAgree(memory: seq<byte>, left: Patch, right: Patch)
    requires left.Stands(memory) && right.Stands(memory)
    ensures Agree(left, right)
  {
    forall index | left.Covers(index) && right.Covers(index)
      ensures left.At(index) == right.At(index)
    {
      StandingPatchAt(memory, left, index);
      StandingPatchAt(memory, right, index);
    }
  }

  lemma StandingPatchAt(memory: seq<byte>, patch: Patch, index: int)
    requires patch.Stands(memory) && patch.Covers(index)
    ensures memory[index] == patch.At(index)
  {
    assert memory[patch.offset..patch.offset + |patch.bytes|][index - patch.offset] == memory[index];
  }

  lemma {:induction false} AgreeingPatchStands(memory: seq<byte>, patches: seq<Patch>, i: nat)
    requires AllFit(memory, patches) && AllAgree(patches) && i < |patches|
    ensures patches[i].Stands(Applied(memory, patches))
  {
    var last := |patches| - 1;
    var before := Applied(memory, patches[..last]);
    var patch, later := patches[i], patches[last];
    var applied := Patched(before, later.offset, later.bytes);
    if i < last {
      AgreeingPatchStands(memory, patches[..last], i);
      assert Agree(patch, later);
      forall index | patch.Covers(index)
        ensures applied[index] == patch.At(index)
      {
        StandingPatchAt(before, patch, index);
        if later.Covers(index) {
          assert patch.At(index) == later.At(index);
        }
      }
    }
    assert forall index :: patch.Covers(index) ==> applied[index] == patch.At(index);
    StandsPointwise(applied, patch);
  }

  /** The last write always stands. */
  lemma LastPatchStands(memory: seq<byte>, patches: seq<Patch>)
    requires AllFit(memory, patches) && |patches| > 0
    ensures patches[|patches| - 1].Stands(Applied(memory, patches))
  {
    StandsPointwise(Applied(memory, patches), patches[|patches| - 1]);
  }

  lemma StandsPointwise(memory: seq<byte>, patch: Patch)
    requires patch.Fits(memory) && forall index :: patch.Covers(index) ==> memory[index] == patch.At(index)
    ensures patch.Stands(memory)
  {
    var end := patch.offset + |patch.bytes|;
    forall k | 0 <= k < |patch.bytes|
      ensures memory[patch.offset..end][k] == patch.bytes[k]
    {
      assert patch.Covers(patch.offset + k);
    }
    assert memory[patch.offset..end] == patch.bytes;
  }
}
