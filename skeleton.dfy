/**
 * The skeleton: an ordered sequence of bones with two parallel caches, the world
 * transforms and their inverses, which the methods below grow and overwrite.
 */
module Skeletons {
  import opened Wrappers
  import opened Matrix
  import opened Bones
  import opened Kinematics

  class Skeleton {
    var bones: seq<Bone>
    var transforms: seq<Mat>
    var invTransforms: seq<Mat>

    /** The three arrays have one entry per bone, and every parent link points to an
        earlier bone, namely the first one carrying that parent's id. */
    ghost predicate Valid()
      reads this
    {
      |transforms| == |bones| && |invTransforms| == |bones| && ParentsBefore(bones) && ParentsResolved(bones)
    }

    /** `skeleton_new`: no bones and empty caches. */
    constructor ()
      ensures Valid()
      ensures bones == [] && transforms == [] && invTransforms == []
    {
      bones, transforms, invTransforms := [], [], [];
    }

    /** `skeleton_bone_id`: -1 finds nothing without a warning; otherwise the first bone
        with the id, or nothing with a warning. */
    method BoneId(id: int) returns (r: Option<nat>, warned: bool)
      ensures r == FindId(bones, id)
      ensures warned <==> r.None? && id != NoParent
    {
      if id == NoParent {
        return None, false;
      }
      var i := 0;
      while i < |bones|
        invariant 0 <= i <= |bones|
        invariant forall j :: 0 <= j < i ==> bones[j].id != id
      {
        if bones[i].id == id {
          return Some(i), false;
        }
        i := i + 1;
      }
      return None, true;
    }

    /** `skeleton_bone_name`: the first bone with the name, or nothing with a warning. */
    method BoneName(name: string) returns (r: Option<nat>, warned: bool)
      ensures r == FindName(bones, name)
      ensures warned <==> r.None?
    {
      var i := 0;
      while i < |bones|
        invariant 0 <= i <= |bones|
        invariant forall j :: 0 <= j < i ==> bones[j].name != name
      {
        if bones[i].name == name {
          return Some(i), false;
        }
        i := i + 1;
      }
      return None, true;
    }

    /** `skeleton_add_bone`: appends a new bone whose parent is the bone that a lookup of
        `parentId` finds among the bones already present, and an identity entry to each
        cache. Warns exactly when that lookup warns. */
    method AddBone(name: string, id: int, parentId: int) returns (warned: bool)
      requires Valid()
      modifies this
      ensures Valid()
      ensures bones == old(bones) + [NewBone(id, name).(parent := FindId(old(bones), parentId))]
      ensures transforms == old(transforms) + [Identity]
      ensures invTransforms == old(invTransforms) + [Identity]
      ensures warned <==> FindId(old(bones), parentId).None? && parentId != NoParent
    {
      var b := NewBone(id, name);
      var parent;
      parent, warned := BoneId(parentId);
      b := b.(parent := parent);
      AppendResolved(bones, b, parentId);
      bones := bones + [b];
      transforms := transforms + [Identity];
      invTransforms := invTransforms + [Identity];
    }

    /** `skeleton_copy`: a fresh skeleton with the same bones, each parent looked up by
        id in the copy, and both caches copied as they are, not recomputed. Because the
        original's parents are resolved by id, each parent keeps its index. */
    method Copy() returns (c: Skeleton)
      requires Valid()
      ensures fresh(c) && c.Valid()
      ensures c.bones == CopyOf(bones) && c.bones == bones
      ensures c.transforms == transforms && c.invTransforms == invTransforms
    {
      c := new Skeleton();
      var created: seq<Bone> := [];
      var i := 0;
      while i < |bones|
        invariant 0 <= i <= |bones|
        invariant |created| == i
        invariant forall j :: 0 <= j < i ==> created[j] == bones[j].(parent := None)
      {
        created := created + [NewBone(bones[i].id, bones[i].name).(position := bones[i].position, rotation := bones[i].rotation)];
        i := i + 1;
      }
      c.bones := created;
      ghost var target := CopyOf(bones);
      i := 0;
      while i < |bones|
        invariant 0 <= i <= |bones|
        invariant |c.bones| == |bones|
        invariant forall j :: 0 <= j < i ==> c.bones[j] == target[j]
        invariant forall j :: i <= j < |bones| ==> c.bones[j] == created[j]
      {
        if bones[i].parent.None? {
          c.bones := c.bones[i := c.bones[i].(parent := None)];
        } else {
          FindIdReadsOnlyIds(bones, c.bones, bones[bones[i].parent.value].id);
          var parent, _ := c.BoneId(bones[bones[i].parent.value].id);
          c.bones := c.bones[i := c.bones[i].(parent := parent)];
        }
        i := i + 1;
      }
      CopyOfResolves(bones);
      CopyOfResolved(bones);
      c.transforms := transforms;
      c.invTransforms := invTransforms;
    }

    /** `skeleton_gen_transforms`: every entry of `transforms` becomes its bone's world
        transform; the bones and the inverse cache are left alone. */
    method GenTransforms()
      requires Valid()
      modifies this
      ensures Valid()
      ensures bones == old(bones) && invTransforms == old(invTransforms)
      ensures TransformsCurrent(bones, transforms)
    {
      var i := 0;
      while i < |bones|
        invariant 0 <= i <= |bones|
        invariant Valid() && bones == old(bones) && invTransforms == old(invTransforms)
        invariant forall j :: 0 <= j < i ==> transforms[j] == BoneTransform(bones, j)
      {
        transforms := transforms[i := BoneTransform(bones, i)];
        i := i + 1;
      }
    }

    /** `skeleton_gen_inv_transforms`: as `GenTransforms`, and every entry of
        `invTransforms` becomes the inverse of the new `transforms` entry. */
    method GenInvTransforms()
      requires Valid()
      modifies this
      ensures Valid()
      ensures bones == old(bones)
      ensures TransformsCurrent(bones, transforms)
      ensures InversesCurrent(transforms, invTransforms)
    {
      var i := 0;
      while i < |bones|
        invariant 0 <= i <= |bones|
        invariant Valid() && bones == old(bones)
        invariant forall j :: 0 <= j < i ==> transforms[j] == BoneTransform(bones, j)
        invariant forall j :: 0 <= j < i ==> invTransforms[j] == Inverse(transforms[j])
      {
        transforms := transforms[i := BoneTransform(bones, i)];
        invTransforms := invTransforms[i := Inverse(transforms[i])];
        i := i + 1;
      }
    }
  }

  /** After `AddBone` the caches are stale at the new slot only: every earlier entry
      that held its bone's world transform still does. */
  lemma AddBoneKeepsCacheEntries(bones: seq<Bone>, transforms: seq<Mat>, b: Bone)
    requires TransformsCurrent(bones, transforms) && ParentsBefore(bones + [b])
    ensures forall i :: 0 <= i < |bones| ==> (transforms + [Identity])[i] == BoneTransform(bones + [b], i)
  {
    forall i | 0 <= i < |bones| ensures (transforms + [Identity])[i] == BoneTransform(bones + [b], i) {
      TransformAppend(bones, [b], i);
    }
  }

  /** A copy of a skeleton whose parents were resolved by id has the same world
      transforms: a cache is current for the copy exactly when it is for the original. */
  lemma CopyKeepsTransforms(bones: seq<Bone>, transforms: seq<Mat>)
    requires ParentsResolved(bones)
    ensures ParentsBefore(bones)
    ensures TransformsCurrent(CopyOf(bones), transforms) <==> TransformsCurrent(bones, transforms)
  {
    CopyOfResolved(bones);
  }
}
