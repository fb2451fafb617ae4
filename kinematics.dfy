/**
 * Forward kinematics: the world transform of a bone, composed up its parent chain.
 */
module Kinematics {
  import opened Wrappers
  import opened Matrix
  import opened Bones

  /** One step of `bone_transform`: the bone's translation then its rotation, applied
      after its parent's world transform when it has a parent. */
  function Place(parentWorld: Option<Mat>, b: Bone): Mat
  {
    match parentWorld
    case None => Mul(Mul(Identity, Translation(b.position)), b.rotation)
    case Some(m) => Mul(Mul(Mul(Identity, m), Translation(b.position)), b.rotation)
  }

  /** The indices of bone `i`'s ancestors, root first, ending with `i` itself: the
      chain `bone_transform` walks. */
  function Chain(bones: seq<Bone>, i: nat): (c: seq<nat>)
    requires ParentsBefore(bones) && i < |bones|
    ensures |c| >= 1 && c[|c| - 1] == i
    ensures forall k :: 0 <= k < |c| ==> c[k] < |bones|
    ensures bones[c[0]].parent.None?
    ensures forall k :: 0 < k < |c| ==> bones[c[k]].parent == Some(c[k - 1])
    decreases i
  {
    match bones[i].parent
    case None => [i]
    case Some(p) => Chain(bones, p) + [i]
  }

  /** The bones of `chain` placed one after the other from the root outwards. */
  function ComposeChain(bones: seq<Bone>, chain: seq<nat>): Mat
    requires |chain| >= 1 && forall k :: 0 <= k < |chain| ==> chain[k] < |bones|
    decreases |chain|
  {
    if |chain| == 1 then Place(None, bones[chain[0]])
    else Place(Some(ComposeChain(bones, chain[..|chain| - 1])), bones[chain[|chain| - 1]])
  }

  /** `bone_transform(bones[i])`: recursion up the parent chain, which ends because
      each parent index is smaller than its child's. The result is the composition of
      the bone's ancestor chain, root first. */
  function BoneTransform(bones: seq<Bone>, i: nat): (r: Mat)
    requires ParentsBefore(bones) && i < |bones|
    ensures r == ComposeChain(bones, Chain(bones, i))
    decreases i
  {
    match bones[i].parent
    case None => Place(None, bones[i])
    case Some(p) =>
      assert (Chain(bones, p) + [i])[..|Chain(bones, p)|] == Chain(bones, p);
      Place(Some(BoneTransform(bones, p)), bones[i])
  }

  /** The cache `transforms` holds the world transform of every bone. */
  predicate TransformsCurrent(bones: seq<Bone>, transforms: seq<Mat>)
  {
    ParentsBefore(bones) && |transforms| == |bones| &&
    forall i :: 0 <= i < |bones| ==> transforms[i] == BoneTransform(bones, i)
  }

  /** The cache `invTransforms` holds the inverse of every entry of `transforms`. */
  predicate InversesCurrent(transforms: seq<Mat>, invTransforms: seq<Mat>)
  {
    |invTransforms| == |transforms| &&
    forall i :: 0 <= i < |transforms| ==> invTransforms[i] == Inverse(transforms[i])
  }

  /** `j` is `i` or one of its ancestors. */
  predicate OnChain(bones: seq<Bone>, j: nat, i: nat)
    requires ParentsBefore(bones) && i < |bones|
    decreases i
  {
    j == i || (bones[i].parent.Some? && OnChain(bones, j, bones[i].parent.value))
  }

  /** Appending bones leaves the world transform of every earlier bone as it was. */
  lemma {:induction false} TransformAppend(bones: seq<Bone>, more: seq<Bone>, i: nat)
    requires ParentsBefore(bones + more) && i < |bones|
    ensures ParentsBefore(bones)
    ensures BoneTransform(bones + more, i) == BoneTransform(bones, i)
    decreases i
  {
    var all := bones + more;
    assert forall k :: 0 <= k < |bones| ==> all[k] == bones[k];
    match bones[i].parent
    case None =>
    case Some(p) => TransformAppend(bones, more, p);
  }

  /** Changing the local position and rotation of bone `k` leaves the world transform of
      every bone that does not have `k` on its chain unchanged. */
  lemma {:induction false} TransformFrame(bones: seq<Bone>, k: nat, pos: Vec3, rot: Mat, i: nat)
    requires ParentsBefore(bones) && k < |bones| && i < |bones|
    requires !OnChain(bones, k, i)
    ensures ParentsBefore(bones[k := bones[k].(position := pos, rotation := rot)])
    ensures BoneTransform(bones[k := bones[k].(position := pos, rotation := rot)], i) == BoneTransform(bones, i)
    decreases i
  {
    var posed := bones[k := bones[k].(position := pos, rotation := rot)];
    assert posed[i] == bones[i];
    match bones[i].parent
    case None =>
    case Some(p) => TransformFrame(bones, k, pos, rot, p);
  }

  /** The world transforms of the first `n` bones, each computed from its parent's
      entry already in the sequence: the single pass that the comment above
      `skeleton_gen_transforms` proposes in place of re-walking every chain. */
  function ChainedTransforms(bones: seq<Bone>, n: nat): (r: seq<Mat>)
    requires ParentsBefore(bones) && n <= |bones|
    ensures |r| == n
  {
    if n == 0 then []
    else
      var done := ChainedTransforms(bones, n - 1);
      var b := bones[n - 1];
      done + [match b.parent case None => Place(None, b) case Some(p) => Place(Some(done[p]), b)]
  }

  /** The single pass agrees with the recursive definition on every bone. */
  lemma {:induction false} ChainedTransformsCurrent(bones: seq<Bone>, n: nat)
    requires ParentsBefore(bones) && n <= |bones|
    ensures forall i :: 0 <= i < n ==> ChainedTransforms(bones, n)[i] == BoneTransform(bones, i)
  {
    if n > 0 {
      ChainedTransformsCurrent(bones, n - 1);
    }
  }
}
