# Skeleton rig of Corange, modelled in Dafny

This project models the character skeleton of Corange's `src/skeleton.c`. A
skeleton is an ordered list of bones. Each bone has an id, a name, a local
position, a local rotation and an optional parent. Two caches run in parallel
with the bones: the world transforms and their inverses.

The model covers three parts:

- bone management: creating a skeleton, adding bones, looking bones up by id or
  by name, and deep-copying a skeleton;
- forward kinematics: the recursive world transform of a bone, and the two
  passes that regenerate the caches;
- the `.skl` loader: a three-state line machine (empty, nodes, skeleton).

Modules:

- `Matrix` (`matrix.dfy`) keeps the `m44_*` operations uninterpreted. A matrix
  is the term that computed it (`Identity`, `Translation`, `Mul`, `Inverse`,
  `Transpose`, `EulerRotation`, `Entries`), and no algebraic law is assumed.
  Every equation proved about transforms therefore holds under any implementation
  of the matrix library, floating point included.
- `Bones` (`bones.dfy`) holds the `Bone` value. A parent is the index of an
  earlier bone, not a pointer. `NewBone` is `bone_new`. The module also holds the
  first-match lookups `FindId` and `FindName`, and the bones `skeleton_copy`
  produces (`CopyOf`).
- `Kinematics` (`kinematics.dfy`) holds `BoneTransform`, which is
  `bone_transform`, with its frame lemmas and a single-pass reference definition.
- `Skeletons` (`skeleton.dfy`) holds the `Skeleton` class. Its fields `bones`,
  `transforms` and `invTransforms` are what the C functions grow and overwrite.
- `SklLoader` (`loader.dfy`) holds the loader: `Step` and `Run` specify the
  machine, and `LoadSkl` runs it imperatively over the skeleton object.

Two invariants matter:

- `ParentsBefore`: every parent index is below its child's index. This makes the
  parent graph acyclic and is what `BoneTransform` decreases on.
- `ParentsResolved`: each parent is, in addition, the first bone carrying that
  parent's id. `AddBone`, `Copy` and the loader keep it. Under it, copying a
  skeleton gives back exactly the same bones.

`Skeleton.Valid()` holds both, and says that the three sequences have equal
length.

Two details of the code are kept exactly as written:

- `skeleton_gen_inv_transforms` (src/skeleton.c:266-271) has no failure path for
  a singular transform. It stores whatever `m44_inverse` returns.
- `bone_transform` multiplies an identity matrix on the left first
  (src/skeleton.c:145-150, 156-160). The model keeps that product.

## Model

| member | source | states |
|---|---|---|
| `Bones.NewBone` | src/skeleton.c:126-135 | A new bone has the given id and name, zero position, identity rotation and no parent. |
| `Bones.FindId` | src/skeleton.c:97-111 | id -1 finds nothing. Otherwise the result is the lowest index whose bone has the id, and nothing is found only when no bone has it. |
| `Bones.FindName` | src/skeleton.c:113-124 | The result is the lowest index whose bone has the name (duplicate names allowed). Nothing is found only when no bone has that name. |
| `Skeletons.Skeleton.BoneId` | src/skeleton.c:97-111 | The loop returns exactly the first-match lookup. It warns exactly when the id is not -1 and no bone has it. |
| `Skeletons.Skeleton.BoneName` | src/skeleton.c:113-124 | The loop returns exactly the first-match name lookup. It warns exactly when nothing is found. |
| `Skeletons.Skeleton.constructor` | src/skeleton.c:13-22 | A new skeleton has no bones and two empty caches. |
| `Skeletons.Skeleton.AddBone` | src/skeleton.c:66-81 | Appends one new bone: the given id and name, zero position, identity rotation, and as parent the id lookup among bones already present. Appends one identity entry to each cache and leaves earlier entries unchanged. Keeps the lengths equal, parents before children and parents resolved by id. Warns exactly when the parent lookup warns. |
| `Bones.AppendResolved` | src/skeleton.c:66-73 | Appending a bone whose parent comes from an id lookup over the bones present keeps every parent before its child, and keeps every link the first bone with its id. |
| `Skeletons.AddBoneKeepsCacheEntries` | src/skeleton.c:75-79 | After an append, every earlier cache entry that held its bone's world transform still does. Only the new slot may be stale. |
| `Skeletons.Skeleton.Copy` | src/skeleton.c:24-52 | Returns a fresh valid skeleton whose bones are `CopyOf` the original, each parent looked up by id in the copy. Because a valid skeleton's parents are resolved by id, these are exactly the original's bones. Both caches are copied verbatim. |
| `Bones.CopyOf` | src/skeleton.c:29-41 | Same number of bones. Bone i keeps its id, name, position and rotation. The copy's bone i has no parent exactly when the original has none or its parent's id is -1. When the original has a parent, the copy's parent is the first bone of the copy with that parent's id. |
| `Bones.CopyOfResolves` | src/skeleton.c:35-41 | For any acyclic input, every parent in the copy comes before its child and is the first bone of the copy with its id. |
| `Bones.CopyOfResolved` | src/skeleton.c:35-41 | When parents were resolved by id, the copy's bones equal the original's: each parent keeps its index. |
| `Skeletons.CopyKeepsTransforms` | src/skeleton.c:24-52 | For such a skeleton, a transform cache is current for the copy exactly when it is current for the original. |
| `Kinematics.Chain` | src/skeleton.c:144-154 | The parent chain `bone_transform` walks: it starts at a root, each entry is the parent of the next, and it ends at the bone itself. |
| `Kinematics.BoneTransform` | src/skeleton.c:142-166 | The world transform of a bone is the composition of its ancestor chain from the root outwards. The root step is `id·translation·rotation` and each child step is `id·parent·translation·rotation`. |
| `Kinematics.TransformAppend` | src/skeleton.c:142-166 | Appending bones leaves the world transform of every earlier bone unchanged. |
| `Kinematics.TransformFrame` | src/skeleton.c:142-166 | Changing one bone's local position and rotation leaves unchanged the world transform of every bone that does not have it on its parent chain. |
| `Kinematics.ChainedTransforms` | src/skeleton.c:259 | A reference definition of the single pass that the TODO comment proposes: each entry reuses its parent's already-computed entry. It produces one transform per bone. |
| `Kinematics.ChainedTransformsCurrent` | src/skeleton.c:259-271 | That single pass gives, for every bone, exactly the product of the recursive `bone_transform`: the root step `id·translation·rotation` and the child step `id·parent·translation·rotation`. |
| `Skeletons.Skeleton.GenTransforms` | src/skeleton.c:260-264 | Sets `transforms[i]` to the world transform of bone i for every i. Leaves the bones and the inverse cache unchanged. |
| `Skeletons.Skeleton.GenInvTransforms` | src/skeleton.c:266-271 | Sets `transforms[i]` to bone i's world transform and `invTransforms[i]` to the inverse of that entry. Leaves the bones unchanged. |
| `Matrix.PoseRotation` | src/skeleton.c:337-346 | A pose rotation is the transpose of the product hand-flip · Euler rotation · hand-flip. |
| `Matrix.HandFlipSwapsYZ` | src/skeleton.c:338-341 | The hand-flip matrix is the permutation matrix that swaps the y and z axes. |
| `SklLoader.StripQuotes` | src/skeleton.c:315-320 | The in-place left shift, with the string length re-measured on every iteration, followed by cutting the last character, yields the name without its first and last character. |
| `SklLoader.CLength` | src/skeleton.c:316-319 | `strlen` of a buffer is the index of its first NUL. |
| `SklLoader.Step` | src/skeleton.c:292-353 | A line is fatal exactly when the machine is in the empty state and the line declares a version other than 1, and the error names that version. Every other line in the empty state is read. In the empty state, "skeleton" opens the skeleton section, otherwise "nodes" opens the nodes section, and the bones are unchanged. In the other two states, "end" returns to the empty state, even on a line that also added a bone. A well-formed node line adds exactly the bone `bone_new` gives for its id and unquoted name, with as parent the id lookup among the bones present. It is undefined only for a quoted name shorter than two characters. A well-formed skeleton line is undefined exactly when the id lookup finds nothing: the id is -1, or no bone has it. Otherwise it sets that bone's position to (x, z, y) and its rotation to the pose rotation, and leaves every other bone equal. Other lines leave the bones unchanged. Existing bones keep their ids, names and parents, and parents stay before children and resolved. |
| `SklLoader.Run` | src/skeleton.c:290-354 | Over a whole file the only error is an unsupported version. The bones already present keep their ids, names and parents, and bones are only added. Parents stay before children and resolved. |
| `SklLoader.Load` | src/skeleton.c:277-358 | Loading a whole file fails only with an unsupported version. When it reads to the end, every parent comes before its child and is the first bone with its id. |
| `SklLoader.LoadSkl` | src/skeleton.c:277-361 | A missing file fails with `CouldNotOpen`. An unsupported version fails with that version. Otherwise the result is a fresh valid skeleton whose bones are those the machine produces, with both caches regenerated. |
| `SklLoader.LoadedCopyIsIdentical` | src/skeleton.c:313-322 | A loaded skeleton's parents are resolved by id, so copying it gives back exactly its bones. |
| `SklLoader.SingleBoneNodes` | src/skeleton.c:292-327 | On the example file, the version line and the nodes section declare bone 0 with its name unquoted and return to the empty state. |
| `SklLoader.SingleBonePose` | src/skeleton.c:301-352 | On the example file, the skeleton section poses bone 0 at (1, 3, 2) with the pose rotation and returns to the empty state. |
| `SklLoader.LoadSingleBone` | src/skeleton.c:329-347 | A `version 1` file with one quoted root node and one skeleton line at (1, 2, 3) loads as a single bone named without quotes, at (1, 3, 2). Its world transform is `id·translation((1,3,2))·rotation`. |
| `SklLoader.LoadTransitions` | src/skeleton.c:301-326 | A line with both "nodes" and "skeleton" opens the skeleton section. A node line containing "end" adds its bone and returns to the empty state. A parent declared after its child is not found. |

## Left out

- `inverse_kinematics_solve` (src/skeleton.c:168-257) is left out. It is floating-point trigonometry (`acos`, `atan`, normalisation) with an ad hoc 3.14 quadrant correction, so it has no exact postcondition to state.
- Matrix and vector semantics are left out. The `m44_*` operations are free terms, so no law holds between them. In particular, `transforms[i] · invTransforms[i] = identity` is not stated: the model does not assume `m44_inverse` is an inverse.
- `m44_rotation_euler` is an uninterpreted term. The hand-flip conjugation and the transpose around it are modelled exactly (`PoseRotation`).
- Floats are modelled as `real`. The rig only stores, copies and swaps them, so no rounding is involved.
- File I/O (`SDL_RWFromFile`, `SDL_RWreadline`, `SDL_RWclose`) is left out. The file is a sequence of lines, and a file that cannot be opened is `None`.
- `sscanf` and `strstr` tokenising is left out. Each line arrives as a record of what each scan would yield and which keywords it contains. One consequence is not captured: a quoted name containing a space fails the node scan.
- `skeleton_print` is console output only and is left out.
- `skeleton_delete`, `bone_delete`, `malloc`, `realloc` and `free` are subsumed by Dafny's heap.
- Caches are modelled as sequence fields that the methods reassign, not as reallocated C arrays.
- A bone is a value held in the skeleton's sequence, not a shared heap object. A C `bone*` returned by a lookup aliases the skeleton's bone. Here a lookup returns its index, and updates go through the skeleton.
- `warning` output is modelled as returned flags (`BoneId`, `BoneName`, `AddBone`).
- SklLoader.LoadSkl: does not report the warnings of the parent lookups it makes while adding bones.
- `error` ends the C program. Here it is a `Failure` result of `LoadSkl`.
- SklLoader.LoadSkl: requires the input to avoid the lines on which the C code has undefined behaviour. These are a quoted node name of length 1 (which writes at index -1) and a skeleton line whose id no bone has, or whose id is -1 (which dereferences NULL).
- Ids and the bone count are unbounded integers. The code does no arithmetic on ids, and the model ignores overflow of the `int` bone count.
