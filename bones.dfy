/**
 * Bones and the read-only queries over a skeleton's bone sequence.
 *
 * The C `bone` is a heap record whose `parent` is a pointer into the same
 * skeleton. Here a bone is a value and its parent is the index of the parent
 * bone in the skeleton's `bones` sequence (`None` for a root).
 */
module Bones {
  import opened Wrappers
  import opened Matrix

  /** The id that stands for "no parent" (`skeleton_bone_id` short-circuits on it). */
  const NoParent: int := -1

  datatype Bone = Bone(id: int, name: string, position: Vec3, rotation: Mat, parent: Option<nat>)

  /** `bone_new`: the given id and name, at the origin, unrotated, without parent. */
  function NewBone(id: int, name: string): (b: Bone)
    ensures b.id == id && b.name == name
    ensures b.position == Zero && b.rotation == Identity && b.parent.None?
  {
    Bone(id, name, Zero, Identity, None)
  }

  /** Every parent link points to an earlier bone; this makes the parent graph acyclic. */
  predicate ParentsBefore(bones: seq<Bone>)
  {
    forall i :: 0 <= i < |bones| && bones[i].parent.Some? ==> bones[i].parent.value < i
  }

  /** Every parent link points to an earlier bone, and to the first bone carrying
      that bone's id: the link a lookup by the parent's id would produce. */
  predicate ParentsResolved(bones: seq<Bone>)
  {
    forall i :: 0 <= i < |bones| && bones[i].parent.Some? ==>
      bones[i].parent.value < i && FindId(bones, bones[bones[i].parent.value].id) == bones[i].parent
  }

  /** First index at or after `from` whose bone has id `id`. */
  function FirstWithId(bones: seq<Bone>, id: int, from: nat): (r: Option<nat>)
    requires from <= |bones|
    ensures r.Some? ==> from <= r.value < |bones| && bones[r.value].id == id
    ensures r.Some? ==> forall j :: from <= j < r.value ==> bones[j].id != id
    ensures r.None? ==> forall j :: from <= j < |bones| ==> bones[j].id != id
    decreases |bones| - from
  {
    if from == |bones| then None
    else if bones[from].id == id then Some(from)
    else FirstWithId(bones, id, from + 1)
  }

  /** `skeleton_bone_id`: -1 finds nothing; otherwise the lowest index whose bone has the id. */
  function FindId(bones: seq<Bone>, id: int): (r: Option<nat>)
    ensures r.Some? ==> id != NoParent && r.value < |bones| && bones[r.value].id == id
    ensures r.Some? ==> forall j :: 0 <= j < r.value ==> bones[j].id != id
    ensures r.None? ==> id == NoParent || forall j :: 0 <= j < |bones| ==> bones[j].id != id
  {
    if id == NoParent then None else FirstWithId(bones, id, 0)
  }

  /** First index at or after `from` whose bone has name `name`. */
  function FirstWithName(bones: seq<Bone>, name: string, from: nat): (r: Option<nat>)
    requires from <= |bones|
    ensures r.Some? ==> from <= r.value < |bones| && bones[r.value].name == name
    ensures r.Some? ==> forall j :: from <= j < r.value ==> bones[j].name != name
    ensures r.None? ==> forall j :: from <= j < |bones| ==> bones[j].name != name
    decreases |bones| - from
  {
    if from == |bones| then None
    else if bones[from].name == name then Some(from)
    else FirstWithName(bones, name, from + 1)
  }

  /** `skeleton_bone_name`: the lowest index whose bone has the name; no name is special. */
  function FindName(bones: seq<Bone>, name: string): (r: Option<nat>)
    ensures r.Some? ==> r.value < |bones| && bones[r.value].name == name
    ensures r.Some? ==> forall j :: 0 <= j < r.value ==> bones[j].name != name
    ensures r.None? ==> forall j :: 0 <= j < |bones| ==> bones[j].name != name
  {
    FirstWithName(bones, name, 0)
  }

  /** A lookup by id only reads the ids. */
  lemma FindIdReadsOnlyIds(a: seq<Bone>, b: seq<Bone>, id: int)
    requires |a| == |b|
    requires forall j :: 0 <= j < |a| ==> a[j].id == b[j].id
    ensures FindId(a, id) == FindId(b, id)
  {
    var ra, rb := FindId(a, id), FindId(b, id);
    if ra.Some? {
      assert b[ra.value].id == id;
    }
    if rb.Some? {
      assert a[rb.value].id == id;
    }
  }

  /** Appending bones does not change a lookup that already succeeds, and a lookup
      that fails before appending one bone with the id finds that bone. */
  lemma FindIdAppend(bones: seq<Bone>, b: Bone, id: int)
    ensures FindId(bones, id).Some? ==> FindId(bones + [b], id) == FindId(bones, id)
    ensures FindId(bones, id).None? && id != NoParent && b.id == id ==> FindId(bones + [b], id) == Some(|bones|)
  {
    var ext := bones + [b];
    if FindId(bones, id).Some? {
      assert ext[FindId(bones, id).value].id == id;
    } else if id != NoParent && b.id == id {
      assert ext[|bones|].id == id;
    }
  }

  /** Appending a bone whose parent is looked up by id among the bones already present
      keeps every parent link before its child, and keeps resolved links resolved. */
  lemma AppendResolved(bones: seq<Bone>, b: Bone, parentId: int)
    requires b.parent == FindId(bones, parentId)
    ensures ParentsBefore(bones) ==> ParentsBefore(bones + [b])
    ensures ParentsResolved(bones) ==> ParentsResolved(bones + [b])
  {
    var ext := bones + [b];
    if ParentsResolved(bones) {
      forall i | 0 <= i < |ext| && ext[i].parent.Some?
        ensures ext[i].parent.value < i
        ensures FindId(ext, ext[ext[i].parent.value].id) == ext[i].parent
      {
        var p := ext[i].parent.value;
        FindIdAppend(bones, b, ext[p].id);
      }
    }
  }

  /** The parent `skeleton_copy` gives the copy of bone `i`: none when the original
      has none, otherwise the first bone of the copy (which has the same ids) with the
      original parent's id. */
  function CopiedParent(bones: seq<Bone>, i: nat): Option<nat>
    requires ParentsBefore(bones) && i < |bones|
  {
    match bones[i].parent
    case None => None
    case Some(p) => FindId(bones, bones[p].id)
  }

  /** The bones of `skeleton_copy(s)` for a skeleton `s` with these bones. */
  function CopyOf(bones: seq<Bone>): (r: seq<Bone>)
    requires ParentsBefore(bones)
    ensures |r| == |bones|
    ensures forall i :: 0 <= i < |bones| ==>
      r[i].id == bones[i].id && r[i].name == bones[i].name &&
      r[i].position == bones[i].position && r[i].rotation == bones[i].rotation
    ensures forall i :: 0 <= i < |bones| ==>
      (r[i].parent.None? <==> bones[i].parent.None? || bones[bones[i].parent.value].id == NoParent)
    ensures forall i :: 0 <= i < |bones| && bones[i].parent.Some? ==>
      r[i].parent == FindId(r, bones[bones[i].parent.value].id)
  {
    var r := seq(|bones|, i requires 0 <= i < |bones| => bones[i].(parent := CopiedParent(bones, i)));
    assert forall id :: FindId(r, id) == FindId(bones, id) by {
      forall id { FindIdReadsOnlyIds(bones, r, id); }
    }
    r
  }

  /** Whatever the original's links, the copy's parents are resolved by id: each
      comes before its child and is the first bone with its id. */
  lemma CopyOfResolves(bones: seq<Bone>)
    requires ParentsBefore(bones)
    ensures ParentsResolved(CopyOf(bones))
  {
    var r := CopyOf(bones);
    forall i | 0 <= i < |bones| && r[i].parent.Some?
      ensures r[i].parent.value < i
      ensures FindId(r, r[r[i].parent.value].id) == r[i].parent
    {
      FindIdReadsOnlyIds(bones, r, r[r[i].parent.value].id);
    }
  }

  /** On bones whose parents were resolved by id, copying changes nothing: every
      parent of the copy is the original's index. */
  lemma CopyOfResolved(bones: seq<Bone>)
    requires ParentsResolved(bones)
    ensures ParentsBefore(bones) && CopyOf(bones) == bones
  {
    var c := CopyOf(bones);
    forall i | 0 <= i < |bones| ensures c[i] == bones[i] {
      assert c[i].parent == CopiedParent(bones, i);
    }
  }
}
