/**
 * The `.skl` loader: a three-state machine over the lines of the file.
 *
 * Each line arrives already classified: what `sscanf` could read from it in each of
 * the three line formats, and which keywords it contains. Reading the file and
 * tokenising its text are not part of this model.
 */
module SklLoader {
  import opened Wrappers
  import opened Matrix
  import opened Bones
  import opened Kinematics
  import opened Skeletons

  /** A `<id> <name> <parent_id>` line of the nodes section. */
  datatype NodeEntry = NodeEntry(id: int, name: string, parentId: int)

  /** A `<id> <x> <y> <z> <rx> <ry> <rz>` line of the skeleton section. */
  datatype PoseEntry = PoseEntry(id: int, x: real, y: real, z: real, rx: real, ry: real, rz: real)

  /** One line of the file: the value of `version %i` if it scans, the node and pose
      fields if all of them scan, and whether it contains "nodes", "skeleton", "end". */
  datatype Line = Line(version: Option<int>, node: Option<NodeEntry>, pose: Option<PoseEntry>,
                       hasNodes: bool, hasSkeleton: bool, hasEnd: bool)

  /** `state_load_empty`, `state_load_nodes`, `state_load_skeleton`. */
  datatype Section = EmptySection | NodesSection | SkeletonSection

  datatype LoadError = CouldNotOpen | UnsupportedVersion(version: int)

  /** Where a run of the machine ends: still reading (the section and bones reached),
      stopped by a fatal error, or at a line on which the C code has undefined
      behaviour. */
  datatype Outcome = Reading(section: Section, bones: seq<Bone>) | Fatal(error: LoadError) | Undefined

  /** A name as `%s` scans it: it contains no NUL character. */
  predicate CString(s: string)
  {
    forall j :: 0 <= j < |s| ==> s[j] != '\0'
  }

  predicate Quoted(name: string)
  {
    |name| > 0 && name[0] == '"'
  }

  /** Every node name in the file is a C string. */
  predicate Scanned(lines: seq<Line>)
  {
    forall i :: 0 <= i < |lines| && lines[i].node.Some? ==> CString(lines[i].node.value.name)
  }

  /** A node name without its first and last character when it starts with a quote. */
  function Unquoted(name: string): string
    requires Quoted(name) ==> |name| >= 2
  {
    if Quoted(name) then name[1..|name| - 1] else name
  }

  /** The effect of one line on the machine. */
  function Step(section: Section, bones: seq<Bone>, line: Line): (r: Outcome)
    requires ParentsBefore(bones)
    // Only a version other than 1, seen in the empty state, is fatal.
    ensures r.Fatal? <==> section == EmptySection && line.version.Some? && line.version.value != 1
    ensures r.Fatal? ==> r.error == UnsupportedVersion(line.version.value)
    ensures r.Undefined? ==> section != EmptySection
    // Section changes: "skeleton" beats "nodes" in the empty state; "end" closes a section.
    ensures section == EmptySection && r.Reading? ==>
      r.bones == bones &&
      r.section == (if line.hasSkeleton then SkeletonSection else if line.hasNodes then NodesSection else EmptySection)
    ensures section != EmptySection && r.Reading? ==> r.section == (if line.hasEnd then EmptySection else section)
    // A node line adds the bone it declares, parented by an id lookup among the bones present.
    ensures section == NodesSection && line.node.None? ==> r.Reading? && r.bones == bones
    ensures section == NodesSection && line.node.Some? ==>
      (r.Undefined? <==> Quoted(line.node.value.name) && |line.node.value.name| < 2)
    ensures section == NodesSection && line.node.Some? && r.Reading? ==>
      r.bones == bones + [NewBone(line.node.value.id, Unquoted(line.node.value.name))
                            .(parent := FindId(bones, line.node.value.parentId))]
    // A skeleton line poses the first bone with its id and leaves every other bone alone.
    ensures section == SkeletonSection && line.pose.None? ==> r.Reading? && r.bones == bones
    ensures section == SkeletonSection && line.pose.Some? ==>
      (r.Undefined? <==> FindId(bones, line.pose.value.id).None?)
    ensures section == SkeletonSection && line.pose.Some? && r.Reading? ==>
      var e := line.pose.value;
      var k := FindId(bones, e.id).value;
      |r.bones| == |bones| &&
      r.bones[k] == bones[k].(position := Vec3(e.x, e.z, e.y), rotation := PoseRotation(e.rx, e.ry, e.rz)) &&
      forall j :: 0 <= j < |bones| && j != k ==> r.bones[j] == bones[j]
    // Invariants of the bone sequence.
    ensures r.Reading? ==> ParentsBefore(r.bones)
    ensures r.Reading? && ParentsResolved(bones) ==> ParentsResolved(r.bones)
    ensures r.Reading? ==> forall i :: 0 <= i < |bones| ==>
      r.bones[i].id == bones[i].id && r.bones[i].name == bones[i].name && r.bones[i].parent == bones[i].parent
  {
    match section
    case EmptySection =>
      if line.version.Some? && line.version.value != 1 then Fatal(UnsupportedVersion(line.version.value))
      else Reading(if line.hasSkeleton then SkeletonSection else if line.hasNodes then NodesSection else EmptySection, bones)
    case NodesSection =>
      var next := if line.hasEnd then EmptySection else NodesSection;
      (match line.node
       case None => Reading(next, bones)
       case Some(e) =>
         if Quoted(e.name) && |e.name| < 2 then Undefined
         else
           var b := NewBone(e.id, Unquoted(e.name)).(parent := FindId(bones, e.parentId));
           AppendResolved(bones, b, e.parentId);
           Reading(next, bones + [b]))
    case SkeletonSection =>
      var next := if line.hasEnd then EmptySection else SkeletonSection;
      match line.pose
      case None => Reading(next, bones)
      case Some(e) =>
        match FindId(bones, e.id)
        case None => Undefined
        case Some(k) =>
          var posed := bones[k := bones[k].(position := Vec3(e.x, e.z, e.y), rotation := PoseRotation(e.rx, e.ry, e.rz))];
          assert forall id :: FindId(posed, id) == FindId(bones, id) by {
            forall id { FindIdReadsOnlyIds(bones, posed, id); }
          }
          Reading(next, posed)
  }

  /** The machine run over `lines` from `section` with `bones`; it stops at the first
      fatal or undefined line. */
  function Run(section: Section, bones: seq<Bone>, lines: seq<Line>): (r: Outcome)
    requires ParentsBefore(bones)
    ensures r.Fatal? ==> r.error.UnsupportedVersion?
    ensures r.Reading? ==> ParentsBefore(r.bones)
    ensures r.Reading? && ParentsResolved(bones) ==> ParentsResolved(r.bones)
    ensures r.Reading? ==> |bones| <= |r.bones|
    ensures r.Reading? ==> forall i :: 0 <= i < |bones| ==>
      r.bones[i].id == bones[i].id && r.bones[i].name == bones[i].name && r.bones[i].parent == bones[i].parent
    decreases |lines|
  {
    if lines == [] then Reading(section, bones)
    else
      match Step(section, bones, lines[0])
      case Reading(next, stepped) => Run(next, stepped, lines[1..])
      case other => other
  }

  /** What loading a whole file gives: a skeleton whose parents are resolved by id, or
      the version error, or a line with undefined behaviour. */
  function Load(lines: seq<Line>): (r: Outcome)
    ensures r.Fatal? ==> r.error.UnsupportedVersion?
    ensures r.Reading? ==> ParentsBefore(r.bones) && ParentsResolved(r.bones)
  {
    Run(EmptySection, [], lines)
  }

  /** Length of the C string in `buf`: the index of its first NUL, or `|buf|`. */
  function CLength(buf: seq<char>): (n: nat)
    ensures n <= |buf|
    ensures forall j :: 0 <= j < n ==> buf[j] != '\0'
    ensures n < |buf| ==> buf[n] == '\0'
  {
    if buf == [] || buf[0] == '\0' then 0 else 1 + CLength(buf[1..])
  }

  /** Removes the first and last character of a quoted name the way the loader does:
      shifting the NUL-terminated buffer left one place, re-measuring it on every
      iteration, then cutting the last character. */
  method StripQuotes(name: string) returns (r: string)
    requires CString(name) && Quoted(name) && |name| >= 2
    ensures r == name[1..|name| - 1]
  {
    var terminated := name + ['\0'];
    var buf := new char[|terminated|](j requires 0 <= j < |terminated| => terminated[j]);
    var i := 0;
    CLengthShifted(buf[..], name, i);
    while i < CLength(buf[..])
      invariant 0 <= i <= |name| && buf.Length == |name| + 1
      invariant forall j :: 0 <= j < i ==> buf[j] == terminated[j + 1]
      invariant forall j :: i <= j < buf.Length ==> buf[j] == terminated[j]
      invariant CLength(buf[..]) == if i < |name| then |name| else |name| - 1
      decreases |name| - i
    {
      buf[i] := buf[i + 1];
      i := i + 1;
      CLengthShifted(buf[..], name, i);
    }
    buf[CLength(buf[..]) - 1] := '\0';
    r := buf[..CLength(buf[..])];
  }

  /** Midway through the shift (`i` characters moved left), the buffer holds the whole
      name minus its first character until the NUL itself moves, after which the C
      string is one shorter. */
  lemma CLengthShifted(buf: seq<char>, name: string, i: nat)
    requires CString(name) && 1 <= |name| && i <= |name| && |buf| == |name| + 1
    requires forall j :: 0 <= j < i ==> buf[j] == (name + ['\0'])[j + 1]
    requires forall j :: i <= j < |buf| ==> buf[j] == (name + ['\0'])[j]
    ensures CLength(buf) == if i < |name| then |name| else |name| - 1
  {
    var n := if i < |name| then |name| else |name| - 1;
    assert buf[n] == '\0';
  }

  /** `skl_load_file`: runs the machine over the lines of the file, then regenerates
      both caches. A file that cannot be opened or declares a version other than 1 is
      fatal. The caller must not pass a file on which the C code has undefined
      behaviour: a quoted name of length one, or a skeleton line whose id lookup finds
      nothing (the id is -1, or no bone has it). */
  method LoadSkl(file: Option<seq<Line>>) returns (r: Result<Skeleton, LoadError>)
    requires file.Some? ==> Scanned(file.value) && !Load(file.value).Undefined?
    ensures file.None? ==> r == Failure(CouldNotOpen)
    ensures file.Some? && Load(file.value).Fatal? ==> r == Failure(Load(file.value).error)
    ensures file.Some? && Load(file.value).Reading? ==>
      r.Success? && fresh(r.value) && r.value.Valid() &&
      r.value.bones == Load(file.value).bones &&
      TransformsCurrent(r.value.bones, r.value.transforms) &&
      InversesCurrent(r.value.transforms, r.value.invTransforms)
  {
    var s := new Skeleton();
    if file.None? {
      return Failure(CouldNotOpen);
    }
    var lines := file.value;
    var section := EmptySection;
    var i := 0;
    while i < |lines|
      invariant 0 <= i <= |lines|
      invariant fresh(s) && s.Valid()
      invariant Load(lines) == Run(section, s.bones, lines[i..])
    {
      var line := lines[i];
      assert lines[i..][1..] == lines[i + 1..];
      if section == EmptySection {
        if line.version.Some? && line.version.value != 1 {
          return Failure(UnsupportedVersion(line.version.value));
        }
        if line.hasNodes {
          section := NodesSection;
        }
        if line.hasSkeleton {
          section := SkeletonSection;
        }
      } else if section == NodesSection {
        if line.node.Some? {
          var e := line.node.value;
          var name := e.name;
          if Quoted(name) {
            name := StripQuotes(name);
          }
          var _ := s.AddBone(name, e.id, e.parentId);
        }
        if line.hasEnd {
          section := EmptySection;
        }
      } else {
        if line.pose.Some? {
          var e := line.pose.value;
          var k, _ := s.BoneId(e.id);
          s.bones := s.bones[k.value := s.bones[k.value].(position := Vec3(e.x, e.z, e.y),
                                                          rotation := PoseRotation(e.rx, e.ry, e.rz))];
        }
        if line.hasEnd {
          section := EmptySection;
        }
      }
      i := i + 1;
    }
    s.GenInvTransforms();
    return Success(s);
  }

  /** A loaded skeleton's parents are resolved by id, so copying it changes nothing. */
  lemma LoadedCopyIsIdentical(lines: seq<Line>)
    requires Load(lines).Reading?
    ensures ParentsResolved(Load(lines).bones)
    ensures ParentsBefore(Load(lines).bones) && CopyOf(Load(lines).bones) == Load(lines).bones
  {
    CopyOfResolved(Load(lines).bones);
  }

  /** A small file: `version 1`, a nodes section declaring root bone 0 with a quoted
      name, and a skeleton section placing it at (1, 2, 3) unrotated. */
  const VersionLine := Line(Some(1), None, None, false, false, false)
  const NodesLine := Line(None, None, None, true, false, false)
  const RootLine := Line(None, Some(NodeEntry(0, "\"root\"", -1)), None, false, false, false)
  const EndLine := Line(None, None, None, false, false, true)
  const SkeletonLine := Line(None, None, None, false, true, false)
  /** The line `0 1 2 3 0 0 0`. The node scan `%i %1024s %i` also matches it (id 0,
      name "1", parent 2), but only the skeleton section reads this line, and there
      the seven-field pose scan applies. */
  const PoseLine := Line(None, Some(NodeEntry(0, "1", 2)), Some(PoseEntry(0, 1.0, 2.0, 3.0, 0.0, 0.0, 0.0)), false, false, false)

  /** The nodes part of that file declares the bone, quotes stripped, at the origin. */
  lemma {:induction false} SingleBoneNodes()
    ensures Run(EmptySection, [], [VersionLine, NodesLine, RootLine, EndLine, SkeletonLine, PoseLine, EndLine]) ==
      Run(EmptySection, [NewBone(0, "root")], [SkeletonLine, PoseLine, EndLine])
  {
    var root := NewBone(0, "root");
    assert "\"root\""[1..5] == "root";
    assert Step(EmptySection, [], VersionLine) == Reading(EmptySection, []);
    assert Step(EmptySection, [], NodesLine) == Reading(NodesSection, []);
    assert Step(NodesSection, [], RootLine) == Reading(NodesSection, [root]);
    assert Step(NodesSection, [root], EndLine) == Reading(EmptySection, [root]);
    RunUnfold(NodesSection, [root], [EndLine, SkeletonLine, PoseLine, EndLine]);
    RunUnfold(NodesSection, [], [RootLine, EndLine, SkeletonLine, PoseLine, EndLine]);
    RunUnfold(EmptySection, [], [NodesLine, RootLine, EndLine, SkeletonLine, PoseLine, EndLine]);
    RunUnfold(EmptySection, [], [VersionLine, NodesLine, RootLine, EndLine, SkeletonLine, PoseLine, EndLine]);
  }

  /** The skeleton part of that file poses the bone at (1, 3, 2) and closes the section. */
  lemma {:induction false} SingleBonePose()
    ensures Run(EmptySection, [NewBone(0, "root")], [SkeletonLine, PoseLine, EndLine]) ==
      Reading(EmptySection, [Bone(0, "root", Vec3(1.0, 3.0, 2.0), PoseRotation(0.0, 0.0, 0.0), None)])
  {
    var root := NewBone(0, "root");
    var bone := Bone(0, "root", Vec3(1.0, 3.0, 2.0), PoseRotation(0.0, 0.0, 0.0), None);
    assert Step(EmptySection, [root], SkeletonLine) == Reading(SkeletonSection, [root]);
    assert FindId([root], 0) == Some(0);
    assert Step(SkeletonSection, [root], PoseLine) == Reading(SkeletonSection, [bone]);
    assert Step(SkeletonSection, [bone], EndLine) == Reading(EmptySection, [bone]);
    RunUnfold(SkeletonSection, [bone], [EndLine]);
    RunUnfold(SkeletonSection, [root], [PoseLine, EndLine]);
    RunUnfold(EmptySection, [root], [SkeletonLine, PoseLine, EndLine]);
  }

  /** The whole file loads as one bone, named without quotes, at (1, 3, 2); its world
      transform is its translation followed by its pose rotation. */
  lemma LoadSingleBone()
    ensures var bone := Bone(0, "root", Vec3(1.0, 3.0, 2.0), PoseRotation(0.0, 0.0, 0.0), None);
      Load([VersionLine, NodesLine, RootLine, EndLine, SkeletonLine, PoseLine, EndLine]) == Reading(EmptySection, [bone]) &&
      BoneTransform([bone], 0) == Mul(Mul(Identity, Translation(Vec3(1.0, 3.0, 2.0))), PoseRotation(0.0, 0.0, 0.0))
  {
    SingleBoneNodes();
    SingleBonePose();
  }

  /** Running over a non-empty file is one step followed by the run over the rest. */
  lemma RunUnfold(section: Section, bones: seq<Bone>, lines: seq<Line>)
    requires ParentsBefore(bones) && lines != [] && Step(section, bones, lines[0]).Reading?
    ensures Run(section, bones, lines) ==
      Run(Step(section, bones, lines[0]).section, Step(section, bones, lines[0]).bones, lines[1..])
  {
  }

  /** In the empty section a line naming both sections opens the skeleton section; in
      the nodes section a line that adds a bone and contains "end" also closes the
      section; a parent declared later than its child is not found. */
  lemma LoadTransitions()
    ensures var both := Line(None, None, None, true, true, false);
      Step(EmptySection, [], both) == Reading(SkeletonSection, [])
    ensures var last := Line(None, Some(NodeEntry(1, "tip", 0)), None, false, false, true);
      Step(NodesSection, [], last) == Reading(EmptySection, [Bone(1, "tip", Zero, Identity, None)])
    ensures var child := Line(None, Some(NodeEntry(1, "tip", 0)), None, false, false, false);
      var root := Line(None, Some(NodeEntry(0, "base", -1)), None, false, false, false);
      Run(NodesSection, [], [child, root]) ==
        Reading(NodesSection, [Bone(1, "tip", Zero, Identity, None), Bone(0, "base", Zero, Identity, None)])
  {
    var child := Line(None, Some(NodeEntry(1, "tip", 0)), None, false, false, false);
    var root := Line(None, Some(NodeEntry(0, "base", -1)), None, false, false, false);
    var tip := Bone(1, "tip", Zero, Identity, None);
    var base := Bone(0, "base", Zero, Identity, None);
    assert FindId([], 0) == None;
    assert Step(NodesSection, [], child) == Reading(NodesSection, [tip]);
    assert [child, root][1..] == [root];
    assert Run(NodesSection, [], [child, root]) == Run(NodesSection, [tip], [root]);
    assert Step(NodesSection, [tip], root) == Reading(NodesSection, [tip, base]);
    assert Run(NodesSection, [tip], [root]) == Run(NodesSection, [tip, base], []);
  }
}
