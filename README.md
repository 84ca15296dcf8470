# spatial-rs quadtrees in Dafny

This project models the two quadtrees of the `spatial-rs` crate and proves properties of the model.

**The linear quadtree** (`src/linear_quadtree/`):

- **Keys.** A node is addressed by a 32-bit key that packs three fields:
  - an overflow counter in bits [31:28];
  - a level in bits [27:24];
  - one 2-bit quadrant code per level in bits [23:0].
- **Equal-size neighbours.** They are computed with the dilated-integer additions of Schrack's constant-time method.
- **Draft key.** `linear_quadtree_node.rs` is an earlier version of the key with an 8-bit level field and no overflow.
- **The orchestrator.** `linear_quadtree.rs` keeps two maps:
  - a spatial map from keys to `Branch` or `Leaf(value)`;
  - a slot map from stable handles to keys.
- **Insert** descends through branches. It separates two points that collide in one leaf by subdividing until they part.
- **Remove** drops a leaf. When that leaf had a single leaf sibling, it moves the sibling up as far as the tree allows.

**The pointer quadtree** (`src/quad.rs`):

- **Nodes.** A recursive node is `Empty`, `Leaf(key)`, `Saturated(keys)` or a four-way `Branch`.
- **Container.** It holds the points in a slot map, and the tree stores the slot keys.
- **Saturation.** Below `MAX_RECURCION` (8) levels a colliding leaf becomes a branch. At that depth it becomes a `Saturated` bucket.

**Modules:**

| module | file | models |
|---|---|---|
| `Wrappers` | `wrappers.dfy` | `Option` |
| `Quadrants` | `quadrants.dfy` | `core/quadrant.rs`: the four quadrants, their 2-bit codes, `QUADRANTS` |
| `KeyLayout` | `key_layout.dfy` | the constants and the coordinate arithmetic that both key files share |
| `LinearQuadtreeKey` | `linear_quadtree_key.dfy` | `linear_quadtree_key.rs`, as word functions on `bv32` plus the class `LinearQuadTreeNode` whose methods update `location` in place |
| `LinearQuadtreeNodeDraft` | `linear_quadtree_node.dfy` | `linear_quadtree_node.rs` |
| `LinearQuadtreeSpec` | `linear_quadtree_spec.dfy` | `linear_quadtree.rs` as functions on a `Tree` value, one recursive call per loop iteration |
| `LinearQuadtreeProofs` | `linear_quadtree_proofs.dfy` | lemmas about insert and values |
| `LinearQuadtreeRemoval` | `linear_quadtree_remove.dfy` | lemmas about remove |
| `LinearQuadtreeCompaction` | `linear_quadtree_compaction.dfy` | concrete trees that exhibit the compaction findings |
| `LinearQuadtree` | `linear_quadtree.dfy` | the class `LinearQuadtree`; its methods run the source's loops on the fields and are proved equal to the functions |
| `Quad` | `quad.dfy` | the node operations of `quad.rs`, on values |
| `QuadContainer` | `quad_container.dfy` | the class `Quadtree` with its container, root and key counter |

**Abstractions:**

- **Keys in the orchestrator.** The orchestrator's `Key` is a path of quadrants, `seq<Quadrant>`; its length is the level.
- **Floating-point bounds.** The domain bounds and `find_quadrant` become a parameter:
  - `classify(point, depth)` in the linear quadtree;
  - `locate(point, region)` in the pointer quadtree, where a region is the path of quadrants from the root.
- **Classifying the displaced point.** The collision loop of `insert` classifies the old point with the bounds the new point's descent has reached (`linear_quadtree.rs:71-72`). The model writes `classify(old, depth)` instead. The two agree because every leaf lies on its own value's quadrant path (`Placed`). The class keeps this in `Valid()`, insert and remove preserve it, and `LinearQuadtreeProofs.InsertCollisionFollowsDisplaced` applies it to the collision key.
- **Pointer-quadtree containment.** `is_point_within` on the root bounds is the predicate `within`.
- **Slot maps.** They are maps from naturals, with a counter issuing fresh keys.

**Where the code's own documentation and the code disagree, the model follows the code:**

- `child`'s doc comment (`linear_quadtree_key.rs:183-185`) and the `Err` fallback of insert (`linear_quadtree.rs:48-54`) fall back to the overflow counter, but the collision loop panics instead (`linear_quadtree.rs:79`). The model returns `Panicked`, and `LinearQuadtreeProofs.InsertPanics` characterises when that happens. When `child` returns `Err` there is the model's own assumption about the orchestrator's key type (failure exactly at level 12), stated under "## Left out".
- The doc comments of `write_level` and `remove_level` and the `write_level` unit test (`linear_quadtree_key.rs:151-181`, `264-273`) describe one level added or removed. The code does something else; see "## Findings".

## Model

| member | source | states |
|---|---|---|
| `Quadrants.FromCode` | src/linear_quadtree/linear_quadtree_key.rs:93-100 | decoding a 2-bit code yields the quadrant whose code it is |
| `Quadrants.CodeRoundTrip` | src/linear_quadtree/linear_quadtree_key.rs:155-160 | the code written for a quadrant decodes back to that quadrant |
| `Quadrants.QuadrantsEnumeration` | src/core/quadrant.rs:1-9 | `QUADRANTS` has four entries, lists every quadrant, and repeats none |
| `KeyLayout.PathOfSlots` | src/linear_quadtree/linear_quadtree_key.rs:103-109 | the quadrant path of a key depends only on the pairs of its first `level` levels |
| `KeyLayout.NeighborCoordinate` | src/linear_quadtree/linear_quadtree_key.rs:73-80 | the masked dilated addition of a direction step keeps the result inside the 24-bit coordinate field |
| `KeyLayout.MasksAndIncrements` | src/linear_quadtree/linear_quadtree_key.rs:7-20 | `T_X` and `T_Y` split the coordinate field; the west, south and south-west steps are -1 on their axes, and north-west and south-east mix +1 and -1 |
| `KeyLayout.NeighborAxisIndependence` | src/linear_quadtree/linear_quadtree_key.rs:73-80 | an east or west step keeps the y bits, and a north or south step keeps the x bits |
| `KeyLayout.NeighborKeepsFinerBits` | src/linear_quadtree/linear_quadtree_key.rs:73-80 | a neighbour step at a level leaves the pairs below that level unchanged |
| `KeyLayout.NeighborOpposite` | src/linear_quadtree/linear_quadtree_key.rs:73-80 | a step in an axis direction followed by a step in the opposite direction returns the original coordinate |
| `KeyLayout.EastThenWest` | src/linear_quadtree/linear_quadtree_key.rs:11-20 | the west increment undoes the east increment at any level |
| `KeyLayout.NorthThenSouth` | src/linear_quadtree/linear_quadtree_key.rs:11-20 | the south increment undoes the north increment at any level |
| `LinearQuadtreeKey.Level` | src/linear_quadtree/linear_quadtree_key.rs:117-119 | the level field is a 4-bit value |
| `LinearQuadtreeKey.Overflow` | src/linear_quadtree/linear_quadtree_key.rs:127-134 | `None` exactly when bits [31:28] are zero; otherwise a value in 1..15 that occupies those bits |
| `LinearQuadtreeKey.NewRoundTrip` | src/linear_quadtree/linear_quadtree_key.rs:49-52 | for a 24-bit coordinate and a 4-bit level, `new` does not overflow and its key reads back that coordinate and level with no overflow |
| `LinearQuadtreeKey.FieldsDetermineLocation` | src/linear_quadtree/linear_quadtree_key.rs:29-37 | two keys with equal coordinate, level and overflow are equal |
| `LinearQuadtreeKey.LocationLevelVector` | src/linear_quadtree/linear_quadtree_key.rs:211-226 | the location-level unit test: `new(0b111001 << 18, 7)` equals the raw word and decodes as TR, TL, BR, BL at level 7 |
| `LinearQuadtreeKey.NeighborLocation` | src/linear_quadtree/linear_quadtree_key.rs:67-87 | each neighbour key keeps the level, carries no overflow, and has the neighbour coordinate of the key's coordinate |
| `LinearQuadtreeKey.NeighborSymmetry` | src/linear_quadtree/linear_quadtree_key.rs:67-87 | the opposite neighbour of an axis neighbour is the key itself |
| `LinearQuadtreeKey.NeighborKeepsOtherAxis` | src/linear_quadtree/linear_quadtree_key.rs:67-87 | east and west neighbours share the key's y position, and north and south neighbours share its x position |
| `LinearQuadtreeKey.NeighborVector` | src/linear_quadtree/linear_quadtree_key.rs:229-261 | the neighbour unit test: the eight neighbours of the level-2 key BR, TL have the quadrant paths the test expects |
| `LinearQuadtreeKey.WriteLevelAlwaysPanics` | src/linear_quadtree/linear_quadtree_key.rs:154-170 | `write_level` as written fails its assert on every key |
| `LinearQuadtreeKey.WithLevelWritten` | src/linear_quadtree/linear_quadtree_key.rs:154-170 | the intended `write_level` raises the level by one and keeps the overflow bits |
| `LinearQuadtreeKey.WriteLevelAppends` | src/linear_quadtree/linear_quadtree_key.rs:151-170 | the intended `write_level` extends the key's quadrant path by the given quadrant |
| `LinearQuadtreeKey.WriteLevelReadsBack` | src/linear_quadtree/linear_quadtree_key.rs:90-101 | after the intended `write_level`, the quadrant decoded at the new level is the one written, at every new level 1..12 (level 12 included, which `quadrant_at_level` as written rejects) |
| `LinearQuadtreeKey.WriteLevelKeepsPath` | src/linear_quadtree/linear_quadtree_key.rs:151-170 | the intended `write_level` leaves the existing levels' quadrants unchanged |
| `LinearQuadtreeKey.WriteLevelKeepsCanonical` | src/linear_quadtree/linear_quadtree_key.rs:151-170 | the intended `write_level` keeps the pairs below the level zero |
| `LinearQuadtreeKey.WriteLevelVector` | src/linear_quadtree/linear_quadtree_key.rs:264-273 | the `write_level` unit test, for the intended `write_level`: BL then BR from the default key gives level 1, then level 2 with path BL, BR |
| `LinearQuadtreeKey.RemoveLevelDecrements` | src/linear_quadtree/linear_quadtree_key.rs:174-181 | `remove_level` as written lowers the level by one, stopping at 0, and keeps the overflow bits |
| `LinearQuadtreeKey.RemoveLevelLeavesCode` | src/linear_quadtree/linear_quadtree_key.rs:174-181 | `remove_level` as written does not undo a write: its result differs from the key before the write |
| `LinearQuadtreeKey.WithLevelRemoved` | src/linear_quadtree/linear_quadtree_key.rs:172-181 | the intended `remove_level` lowers the level by one, stopping at 0, and keeps the overflow bits |
| `LinearQuadtreeKey.RemoveLevelKeepsPath` | src/linear_quadtree/linear_quadtree_key.rs:172-181 | the intended `remove_level` keeps the quadrants of the remaining levels |
| `LinearQuadtreeKey.RemoveLevelDropsLast` | src/linear_quadtree/linear_quadtree_key.rs:172-181 | the intended `remove_level` drops exactly the last quadrant of the path |
| `LinearQuadtreeKey.RemoveLevelKeepsCanonical` | src/linear_quadtree/linear_quadtree_key.rs:172-181 | the intended `remove_level` keeps the pairs below the level zero |
| `LinearQuadtreeKey.RemoveUndoesWrite` | src/linear_quadtree/linear_quadtree_key.rs:151-181 | the intended `remove_level` inverts the intended `write_level` |
| `LinearQuadtreeKey.IncrementOverflowLosesCount` | src/linear_quadtree/linear_quadtree_key.rs:136-141 | `increment_overflow` as written leaves the overflow field empty |
| `LinearQuadtreeKey.WithOverflowIncremented` | src/linear_quadtree/linear_quadtree_key.rs:136-141 | the intended `increment_overflow` adds one to the overflow count, counting a missing overflow as 0, and changes no other bit |
| `LinearQuadtreeKey.ChildAsWrittenVector` | src/linear_quadtree/linear_quadtree_key.rs:183-194 | `child` as written turns a level-12 key's deepest quadrant from BL into BR with no overflow recorded, and panics on the default key |
| `LinearQuadtreeKey.ChildDescends` | src/linear_quadtree/linear_quadtree_key.rs:183-194 | below level 12, with no overflow, the child key is one level deeper, carries no overflow, and appends the quadrant to the path |
| `LinearQuadtreeKey.ChildOverflows` | src/linear_quadtree/linear_quadtree_key.rs:183-194 | at level 12 or once overflowing, the child key keeps level and coordinate and counts one more overflow |
| `LinearQuadtreeKey.ParentOfChild` | src/linear_quadtree/linear_quadtree_key.rs:196-201 | the parent of a child of a key below level 12 is the key itself |
| `LinearQuadtreeKey.CoordinateInQuadrantsAsWrittenResult` | src/linear_quadtree/linear_quadtree_key.rs:89-109 | `coordinate_in_quadrants` as written lists the path below level 12 and panics at level 12 |
| `LinearQuadtreeKey.LinearQuadTreeNode.ComputeNeighbors` | src/linear_quadtree/linear_quadtree_key.rs:67-87 | fills all eight slots, slot i holding the neighbour key in direction i |
| `LinearQuadtreeKey.LinearQuadTreeNode.CoordinateInQuadrants` | src/linear_quadtree/linear_quadtree_key.rs:103-109 | returns the key's quadrant path for every level up to 12 |
| `LinearQuadtreeKey.LinearQuadTreeNode.New` | src/linear_quadtree/linear_quadtree_key.rs:49-52 | the new key's word is the level shifted into the top byte plus the coordinate |
| `LinearQuadtreeKey.LinearQuadTreeNode.FromLocation` | src/linear_quadtree/linear_quadtree_key.rs:57-61 | the key holds the given word |
| `LinearQuadtreeKey.LinearQuadTreeNode.Default` | src/linear_quadtree/linear_quadtree_key.rs:40-44 | the default key is the zero word |
| `LinearQuadtreeKey.LinearQuadTreeNode.WriteLevel` | src/linear_quadtree/linear_quadtree_key.rs:151-170 | updates the key in place to the intended `write_level` result |
| `LinearQuadtreeKey.LinearQuadTreeNode.RemoveLevel` | src/linear_quadtree/linear_quadtree_key.rs:172-181 | updates the key in place to the intended `remove_level` result |
| `LinearQuadtreeKey.LinearQuadTreeNode.IncrementOverflow` | src/linear_quadtree/linear_quadtree_key.rs:136-141 | updates the key in place to the intended `increment_overflow` result |
| `LinearQuadtreeKey.LinearQuadTreeNode.Child` | src/linear_quadtree/linear_quadtree_key.rs:183-194 | returns a fresh key holding the child word |
| `LinearQuadtreeKey.LinearQuadTreeNode.Parent` | src/linear_quadtree/linear_quadtree_key.rs:196-201 | returns a fresh key holding the parent word |
| `LinearQuadtreeNodeDraft.DraftNode.Level` | src/linear_quadtree/linear_quadtree_node.rs:108-110 | the draft level is the whole top byte |
| `LinearQuadtreeNodeDraft.DraftNode.ComputeNeighbors` | src/linear_quadtree/linear_quadtree_node.rs:61-81 | fills all eight slots, slot i holding the neighbour in direction i |
| `LinearQuadtreeNodeDraft.DraftNode.CoordinateInQuadrants` | src/linear_quadtree/linear_quadtree_node.rs:83-102 | panics exactly when the level is 12 or more; otherwise returns the quadrant path |
| `LinearQuadtreeNodeDraft.Neighbor` | src/linear_quadtree/linear_quadtree_node.rs:67-78 | a neighbour keeps the level and has the neighbour coordinate |
| `LinearQuadtreeNodeDraft.NewRoundTrip` | src/linear_quadtree/linear_quadtree_node.rs:43-55 | for a 24-bit coordinate and an 8-bit level, `new` does not overflow and reads back both fields |
| `LinearQuadtreeNodeDraft.NeighborAgrees` | src/linear_quadtree/linear_quadtree_node.rs:61-81 | at levels up to 12 the draft's neighbours are the neighbours the 4-bit-level key computes |
| `LinearQuadtreeNodeDraft.LocationLevelVector` | src/linear_quadtree/linear_quadtree_node.rs:121-136 | the draft's location-level unit test holds |
| `LinearQuadtreeNodeDraft.NeighborVector` | src/linear_quadtree/linear_quadtree_node.rs:139-171 | the draft's neighbour unit test holds |
| `LinearQuadtreeSpec.FindKey` | src/linear_quadtree/linear_quadtree.rs:243-250 | returns the first handle in scan order that maps to the key, or `None` when no handle in range does |
| `LinearQuadtreeSpec.Descend` | src/linear_quadtree/linear_quadtree.rs:44-60 | the descent passes only through branches, follows the point's quadrants, and stops at the first key that is not a branch |
| `LinearQuadtreeSpec.Sibling` | src/linear_quadtree/linear_quadtree.rs:129-131 | a sibling key shares the parent and ends in the given quadrant |
| `LinearQuadtreeProofs.NumChildCountsLeaves` | src/linear_quadtree/linear_quadtree.rs:278-292 | `num_child` counts exactly the leaves at or below the key |
| `LinearQuadtreeProofs.ValuesOfLiveHandles` | src/linear_quadtree/linear_quadtree.rs:202-210 | `values` has one entry per live handle and per leaf; every handle's value appears, and every entry is some handle's value |
| `LinearQuadtreeProofs.HandlesMatchLeaves` | src/linear_quadtree/linear_quadtree.rs:17-22 | in a consistent tree there are as many handles as leaves |
| `LinearQuadtreeProofs.FindKeyOfLeaf` | src/linear_quadtree/linear_quadtree.rs:66 | the handle lookup during a collision always finds the leaf's handle |
| `LinearQuadtreeProofs.SubdivideOutcome` | src/linear_quadtree/linear_quadtree.rs:68-96 | the collision loop splits exactly when the two points part above level 12, into the two children where they part |
| `LinearQuadtreeProofs.SubdivideMap` | src/linear_quadtree/linear_quadtree.rs:68-96 | after the collision loop, the shared path holds branches and the two parted children hold the two points; every other key is unchanged |
| `LinearQuadtreeProofs.SplitPath` | src/linear_quadtree/linear_quadtree.rs:68-96 | the two children are distinct siblings below the collision key, and every key between is a branch |
| `LinearQuadtreeProofs.AddLeafKeepsInv` | src/linear_quadtree/linear_quadtree.rs:100-106 | storing a leaf at a free key below a path of branches keeps the tree invariant |
| `LinearQuadtreeProofs.InsertKeepsInv` | src/linear_quadtree/linear_quadtree.rs:39-109 | an insert that returns keeps the invariant: keys lie within levels 1..12, prefixes are branches, every branch separates two leaves, and handles match leaves one to one |
| `LinearQuadtreeProofs.InsertStores` | src/linear_quadtree/linear_quadtree.rs:39-109 | an insert that returns issues a fresh handle that reaches the new point, and every old handle still reaches its value |
| `LinearQuadtreeProofs.InsertFollowsPoint` | src/linear_quadtree/linear_quadtree.rs:39-109 | the new handle's key is the point's own quadrant path |
| `LinearQuadtreeProofs.InsertPanics` | src/linear_quadtree/linear_quadtree.rs:63-81 | insert panics exactly when the point collides with a leaf whose point follows the same quadrants down to level 12 |
| `LinearQuadtreeProofs.InsertCollision` | src/linear_quadtree/linear_quadtree.rs:63-97 | after a collision, the old point's handle moves to its new key, a sibling of the new point's key, and the old value is kept |
| `LinearQuadtreeProofs.SubdividePlaced` | src/linear_quadtree/linear_quadtree.rs:68-96 | the collision loop stores each point on its own quadrant path, so every leaf stays on its value's path |
| `LinearQuadtreeProofs.InsertKeepsPlaced` | src/linear_quadtree/linear_quadtree.rs:39-109 | insert keeps every leaf on its value's quadrant path, whatever it ends with |
| `LinearQuadtreeProofs.InsertCollisionFollowsDisplaced` | src/linear_quadtree/linear_quadtree.rs:63-72 | the leaf found at a collision key lies on the displaced point's own path, so classifying that point at the key's depth means classifying it within the key's region; its re-pointed handle's key stays on that path |
| `LinearQuadtreeRemoval.CensusCounts` | src/linear_quadtree/linear_quadtree.rs:129-137 | the sibling loop counts the leaf siblings and notices a branch sibling |
| `LinearQuadtreeRemoval.DetachMap` | src/linear_quadtree/linear_quadtree.rs:147-154 | the detach loop removes exactly the sibling keys |
| `LinearQuadtreeRemoval.DetachFound` | src/linear_quadtree/linear_quadtree.rs:147-154 | the detach loop reports a value exactly when some sibling is a leaf, and reports that sibling's key and value |
| `LinearQuadtreeRemoval.RemoveNoRelocation` | src/linear_quadtree/linear_quadtree.rs:111-141 | with a branch sibling, other than one leaf sibling, or at level 1, remove only drops the leaf and its handle, returns the value, and keeps the invariant |
| `LinearQuadtreeRemoval.RelocationStart` | src/linear_quadtree/linear_quadtree.rs:143-157 | with a single leaf sibling, remove detaches that sibling, and its handle is the one to re-point |
| `LinearQuadtreeRemoval.ClimbKeeps` | src/linear_quadtree/linear_quadtree.rs:158-182 | the corrected compaction places the moved value on the branch path above, keeps the invariant, and leaves every other leaf in place |
| `LinearQuadtreeRemoval.RemoveRelocation` | src/linear_quadtree/linear_quadtree.rs:143-184 | the corrected relocating remove returns the value and keeps the invariant; the moved handle now points at an ancestor of its old key, and every other handle still reaches its value |
| `LinearQuadtreeRemoval.RemoveKeepsInv` | src/linear_quadtree/linear_quadtree.rs:111-188 | the corrected remove keeps the invariant; for a dead handle it changes nothing and returns `None`; for a live handle it returns that handle's value and drops the handle, and every other handle still reaches its value |
| `LinearQuadtreeRemoval.ClimbPlaced` | src/linear_quadtree/linear_quadtree.rs:145-182 | the corrected compaction stores the moved value at a prefix of its own path, so every leaf stays on its value's path |
| `LinearQuadtreeRemoval.RemoveKeepsPlaced` | src/linear_quadtree/linear_quadtree.rs:111-188 | the corrected remove keeps every leaf on its value's quadrant path |
| `LinearQuadtreeRemoval.ClimbAgreesAtLevelOne` | src/linear_quadtree/linear_quadtree.rs:160-169 | from a level-1 parent the compaction loop as written and the corrected one agree: the value replaces the parent's branch and the handle goes to the parent |
| `LinearQuadtreeRemoval.RemoveAsWrittenAgrees` | src/linear_quadtree/linear_quadtree.rs:111-188 | when the removed key is at level 1 or 2, remove as written equals the corrected remove |
| `LinearQuadtreeRemoval.RemoveAsWrittenKeepsInvShallow` | src/linear_quadtree/linear_quadtree.rs:111-188 | remove as written, for a key at level 1 or 2, keeps the invariant, returns the value of a live handle, drops only that handle, and leaves every other handle reaching its value |
| `LinearQuadtreeRemoval.CompactionFromLevelTwo` | src/linear_quadtree/linear_quadtree.rs:145-169 | removing a level-2 leaf with one leaf sibling, as written: the sibling's value replaces the level-1 parent's branch, its handle is re-pointed at the parent, and the invariant holds |
| `LinearQuadtreeCompaction.DeepPairClimbAsWritten` | src/linear_quadtree/linear_quadtree.rs:160-182 | the loop as written stores the moved value at the grandparent but re-points the handle at the deleted parent |
| `LinearQuadtreeCompaction.CousinClimbAsWritten` | src/linear_quadtree/linear_quadtree.rs:160-182 | the loop as written climbs past a grandparent that still holds a leaf and overwrites it with a leaf |
| `LinearQuadtreeCompaction.RemoveAsWrittenDangles` | src/linear_quadtree/linear_quadtree.rs:173-177 | remove as written leaves the moved value's handle pointing at a key that is no longer stored |
| `LinearQuadtreeCompaction.RemoveAsWrittenBuriesLeaf` | src/linear_quadtree/linear_quadtree.rs:160-182 | remove as written leaves a stored leaf below a leaf |
| `LinearQuadtreeCompaction.RemoveFollowsMovedValue` | src/linear_quadtree/linear_quadtree.rs:158-182 | on the same tree, the corrected remove re-points the handle at the key that now holds the moved value |
| `LinearQuadtreeCompaction.RemoveKeepsCousin` | src/linear_quadtree/linear_quadtree.rs:158-182 | on the same tree, the corrected remove stops below the grandparent that still holds a leaf |
| `LinearQuadtreeCompaction.DeepPairInv` | src/linear_quadtree/linear_quadtree.rs:63-106 | fixture for the two compaction findings, not a property of the model: the example tree meets the invariant |
| `LinearQuadtree.LinearQuadtree.constructor` | src/linear_quadtree/linear_quadtree.rs:25-31 | `new` gives empty maps and a valid state |
| `LinearQuadtree.LinearQuadtree.IssueHandle` | src/linear_quadtree/linear_quadtree.rs:94-105 | the key map's `insert` issues the next handle, maps it to the key, advances the counter, and leaves the spatial map alone |
| `LinearQuadtree.LinearQuadtree.Insert` | src/linear_quadtree/linear_quadtree.rs:39-109 | the in-place insert ends in the state and outcome of the insert function; when it returns, it keeps the invariant and every leaf on its value's path |
| `LinearQuadtree.LinearQuadtree.DescendKey` | src/linear_quadtree/linear_quadtree.rs:44-60 | the descent loop returns the key the descent function gives |
| `LinearQuadtree.LinearQuadtree.SplitCollision` | src/linear_quadtree/linear_quadtree.rs:68-96 | the collision loop updates the spatial map as the subdivision function does and leaves the key map alone |
| `LinearQuadtree.LinearQuadtree.FindKeyInKeymap` | src/linear_quadtree/linear_quadtree.rs:243-250 | the scan returns the first matching handle |
| `LinearQuadtree.LinearQuadtree.NumChildOf` | src/linear_quadtree/linear_quadtree.rs:278-292 | returns the `num_child` count of the key |
| `LinearQuadtree.LinearQuadtree.Remove` | src/linear_quadtree/linear_quadtree.rs:111-188 | the in-place remove, with the corrected compaction, ends in the state and result of the remove function; it keeps the invariant and every leaf on its value's path |
| `LinearQuadtree.LinearQuadtree.CountSiblings` | src/linear_quadtree/linear_quadtree.rs:129-137 | the sibling loop returns the census of the siblings |
| `LinearQuadtree.LinearQuadtree.DetachSiblings` | src/linear_quadtree/linear_quadtree.rs:147-154 | the detach loop removes the siblings in place and returns the leaf it found |
| `LinearQuadtree.LinearQuadtree.Compact` | src/linear_quadtree/linear_quadtree.rs:158-182 | the corrected compaction loop updates the spatial map as the climb function does |
| `LinearQuadtree.LinearQuadtree.Values` | src/linear_quadtree/linear_quadtree.rs:202-210 | returns the values of the live handles in handle order |
| `LinearQuadtree.LinearQuadtree.BoundsKeys` | src/linear_quadtree/linear_quadtree.rs:225-231 | returns each stored key once |
| `LinearQuadtree.LinearQuadtree.BoundsNoBranchKeys` | src/linear_quadtree/linear_quadtree.rs:235-241 | returns the keys of the live handles in handle order: one per live handle, and exactly the keys some handle reaches |
| `Quad.NewBranch` | src/quad.rs:186-196 | a new branch has four empty children and stores nothing |
| `Quad.Insert` | src/quad.rs:129-184 | node insert keeps branches above depth 8 and keeps every stored key in the container |
| `Quad.InsertInBranch` | src/quad.rs:198-214 | inserting into a branch keeps its kind, and into a non-branch changes nothing |
| `Quad.InsertStored` | src/quad.rs:129-184 | node insert adds exactly the one key to the stored multiset |
| `Quad.InsertKeepsPlaced` | src/quad.rs:129-184 | node insert keeps every key in the child its point falls in |
| `Quad.InsertKeepsSaturation` | src/quad.rs:138-179 | node insert keeps every `Saturated` bucket at depth 8 with at least two keys |
| `Quad.ContainsIffStored` | src/quad.rs:260-289 | in a well-placed tree, `contains` holds exactly when some stored key's point equals the query |
| `Quad.FirstMatch` | src/quad.rs:299-307 | the bucket scan finds the first key whose point equals the query, or reports none |
| `Quad.Remove` | src/quad.rs:291-330 | a removal that finds nothing changes nothing, and a returned key belongs to the query point |
| `Quad.RemoveFindsContained` | src/quad.rs:291-330 | remove returns a key exactly when `contains` holds |
| `Quad.RemoveStored` | src/quad.rs:291-330 | remove takes exactly the returned key out of the stored multiset |
| `Quad.RemoveKeepsShape` | src/quad.rs:298-309 | remove keeps the depth bound, and every bucket left has at least two keys |
| `Quad.RemoveKeepsPlaced` | src/quad.rs:291-330 | remove keeps every key in the child its point falls in |
| `Quad.RemoveFrom` | src/quad.rs:291-330 | the in-place remove returns the node and key of the remove function |
| `Quad.BoundsCount` | src/quad.rs:216-234 | `bounds` yields one region per non-empty node |
| `Quad.BoundsWithTypeAgrees` | src/quad.rs:236-258 | `bounds_with_type` yields the regions of `bounds`, in the same order |
| `Quad.BoundsWithTypeTags` | src/quad.rs:236-258 | each tagged region is the region of a non-empty node of that kind |
| `QuadContainer.InsertKeepsConsistent` | src/quad.rs:32-40 | inserting a container key into a consistent tree keeps it consistent |
| `QuadContainer.RemoveKeepsStored` | src/quad.rs:73-77 | the root returns a key exactly when the container holds the point, and the tree then stores the remaining keys |
| `QuadContainer.Rebuild` | src/quad.rs:66-71 | the rebuild loop yields a consistent tree storing every container key once |
| `QuadContainer.InsertKeepsTracks` | src/quad.rs:32-40 | inserting an in-bounds point under a fresh key keeps the tree tracking the container |
| `QuadContainer.Quadtree.constructor` | src/quad.rs:20-26 | `new` gives an empty container and an empty root, and a valid state |
| `QuadContainer.Quadtree.TryInsert` | src/quad.rs:32-44 | a point outside the bounds is ignored; otherwise it gets the next key and the root inserts it, keeping the state valid |
| `QuadContainer.Quadtree.Contains` | src/quad.rs:46-52 | `contains` holds exactly when some container entry equals the point |
| `QuadContainer.Quadtree.Remove` | src/quad.rs:73-77 | the container loses the returned key and nothing else; it shrinks by one exactly when it held the point, and the state stays valid |
| `QuadContainer.Quadtree.RebuildTree` | src/quad.rs:66-71 | rebuilding keeps the container and a valid tree over it |
| `QuadContainer.Quadtree.Bounds` | src/quad.rs:54-58 | returns the root's regions, one per non-empty node |
| `QuadContainer.Quadtree.BoundsWithType` | src/quad.rs:60-64 | returns the root's tagged regions, whose regions are those of `bounds` |

## Left out

- **Floating point.** `Bounds`, `find_quadrant`, `sub_bound`, `is_point_within`, `overlaps`, `truncate`, `unit_bounds` and `to_bounds` are not modelled; the quadrant of a point at a region or depth is a parameter. `bounds` and `bounds_with_type` return regions (quadrant paths), not rectangles. The model therefore does not capture points on a boundary or rounding.
- **Stubs.** The source returns nothing useful from `within`, `closest`, `neighbors` and `smallest_enclosing` in `quad.rs`, and calls `unimplemented!()` in `neighbors`, `neighbors_mut`, `neighbors_within` and `neighbors_within_mut` of `linear_quadtree.rs`. They are not modelled.
- **`neighboring_keys`** in `linear_quadtree.rs` is not modelled. It is private and unused, and it walks keys of the bit-packed type through `parent().unwrap()`, which the path keys of the model do not have.
- **`values` and `values_mut`** in `quad.rs` are slot-map iterators, not modelled. The linear quadtree's `values` is modelled.
- **`println!` output** is dropped.
- **Slot maps.** They issue fresh keys from a counter and never reuse a freed key. The model does not capture slot reuse with generation counters, or the slot order of iteration after reuse; `find_key_in_keymap` and `values` scan handles in increasing order.
- **The overflow fallback of insert** (`linear_quadtree.rs:48-54`) is not modelled: a descent reaches level 12 only through a leaf or a free key, so with the model's path keys it is never taken.
- **Key type of the orchestrator.** The model of `linear_quadtree.rs` uses keys as quadrant paths (`seq<Quadrant>`), not as the bit-packed words of `linear_quadtree_key.rs`.
  - **The source's key type.** `linear_quadtree.rs` imports `crate::linear_quadtree::Key`, whose module file is not part of this model. It calls three operations on that type: `child(q)`, matched against `Ok`/`Err` (`linear_quadtree.rs:48-54`, `77-79`, `84-85`, `131`, `149`, `284`); `parent()`, unwrapped or tested with `is_none()` (`124`, `163-164`); and `top_quadrant()` (`123`). `LinearQuadTreeNode` in `linear_quadtree_key.rs` does not offer this interface: its `child` and `parent` return a key directly, not a `Result` or an `Option`, and at level 12 its `child` counts an overflow rather than failing (`linear_quadtree_key.rs:186-201`). It has no `top_quadrant`.
  - **What the model assumes.** `child(q)` appends `q` below level 12 and returns `Err` at level 12. `parent()` drops the last quadrant, and is `None` only at the root. `top_quadrant()` is the last quadrant. When the collision loop panics (`linear_quadtree.rs:79`, characterised by `LinearQuadtreeProofs.InsertPanics`), and when `num_child` stops descending (`linear_quadtree.rs:284`), both follow from that assumed level-12 failure.
  - **The key operations it composes with.** These are the intended ones, not the as-written `write_level`, `remove_level` and `increment_overflow` of Findings rows 1–3. Their word encoding is proved separately (`WriteLevelAppends`, `ChildDescends`, `RemoveLevelDropsLast`).
- **Value semantics of nodes.** `Quad` works on node values: `insert` and `remove` rebuild the path they change rather than updating boxed children in place. Ownership and aliasing of the `Box`es are not modelled.
- **Rebuild order.** `QuadContainer.Rebuild` inserts the container keys in an unspecified order, not in slot order. Its contract holds for every order.
- **Immutable `ret`.** `child` and `parent` in `linear_quadtree_key.rs` call `&mut self` methods on an immutable binding. The model treats that binding as mutable.
- `LinearQuadtree.LinearQuadtree.Insert`: requires that no stored branch is at level 12, which the invariant implies. It states `Valid()` afterwards only when the insert returns; after a panic the source aborts.
- `LinearQuadtreeKey.IncrementOverflowAsWritten`, `LinearQuadtreeKey.WithOverflowIncremented`, `LinearQuadtreeKey.ChildKey`, `LinearQuadtreeKey.LinearQuadTreeNode.IncrementOverflow` and `LinearQuadtreeKey.LinearQuadTreeNode.Child`: require the overflow count to be below 15. The `assert_ne!(overflow, 16)` panic of `linear_quadtree_key.rs:138` is thus a precondition, not a modelled outcome.
- `LinearQuadtreeKey.LinearQuadTreeNode.ComputeNeighbors` and `LinearQuadtreeNodeDraft.DraftNode.ComputeNeighbors`: require the level to be at most 12. The u32 subtraction `RESOLUTION - level` (`linear_quadtree_key.rs:76`, `linear_quadtree_node.rs:70`) underflows above 12, a panic in a debug build, so it is a precondition, not a modelled outcome.
- `LinearQuadtreeKey.LinearQuadTreeNode.New` and `LinearQuadtreeNodeDraft.New`: require that `(level << 24) + coordinate` does not carry out of 32 bits. The u32 addition of `new` (`linear_quadtree_key.rs:50`, `linear_quadtree_node.rs:44`) overflows otherwise, a panic in a debug build, so it is a precondition, not a modelled outcome.
- `LinearQuadtree.LinearQuadtree.Remove`: requires the keys to be shaped (levels 1..12), which the invariant implies.
- `Quad.Insert`: requires the depth bound and container membership of the key, which every caller in `quad.rs` meets.

## Findings

| source | as written | input that shows it | evidently intended | confidence | as-written member | corrected member |
|---|---|---|---|---|---|---|
| src/linear_quadtree/linear_quadtree_key.rs:154-170 | the quadrant code is shifted right by `2 * level` (line 160), and the assert on line 166 compares the level already shifted into bit 24 with 12, so it fails on every key | the default key with `BL`: `(0 + 1) << 24 <= 12` is false | write the code into the pair of level `level + 1`, bits `2 * (11 - level)`, and set the level field to `level + 1` | not executed | `LinearQuadtreeKey.WriteLevelAlwaysPanics` | `LinearQuadtreeKey.WriteLevelAppends` |
| src/linear_quadtree/linear_quadtree_key.rs:136-141 | line 140 ORs the new count into bits [3:0] after clearing bits [31:28], so the overflow field reads empty and the deepest quadrant pair is overwritten | `child(BL)` of the level-12 key `0x0C00_0000` gives `0x0C00_0001`: overflow `None`, deepest quadrant BR | shift the count into bits [31:28] | not executed | `LinearQuadtreeKey.ChildAsWrittenVector` | `LinearQuadtreeKey.ChildOverflows` |
| src/linear_quadtree/linear_quadtree_key.rs:174-181 | line 175 clears the pair at bits `2 * level`, not the deepest pair at bits `2 * (12 - level)`, so the parent keeps the removed level's code | the level-1 key `0x0140_0000` written with TL is `0x0260_0000`; `remove_level` gives `0x0160_0000`, not `0x0140_0000` | clear the pair of the deepest level and decrement the level | not executed | `LinearQuadtreeKey.RemoveLevelLeavesCode` | `LinearQuadtreeKey.RemoveUndoesWrite` |
| src/linear_quadtree/linear_quadtree_key.rs:89-109 | `quadrant_at_level` asserts `level < 12`, but `coordinate_in_quadrants` calls it for levels 1 to `level()`, so every level-12 key panics | any key whose level field is 12 | accept levels 1..=12, the range the layout comment at line 34 gives | not executed | `LinearQuadtreeKey.CoordinateInQuadrantsAsWrittenResult` | `LinearQuadtreeKey.LinearQuadTreeNode.CoordinateInQuadrants` |
| src/linear_quadtree/linear_quadtree.rs:173-177 | when the grandparent holds no leaf, the moved value is stored at the grandparent, but its handle is re-pointed at the parent, which line 162 just deleted | leaves 1 at BL,BL,BL (handle 0) and 2 at BL,BL,BR (handle 1); remove handle 0 | the handle follows the moved value | not executed | `LinearQuadtreeCompaction.RemoveAsWrittenDangles` | `LinearQuadtreeCompaction.RemoveFollowsMovedValue` |
| src/linear_quadtree/linear_quadtree.rs:160-182 | when the grandparent still holds a leaf, the loop climbs and deletes the grandparent branch on its next pass, although leaves remain below it | the tree above plus leaf 3 at BL,BR; remove handle 0: value 2 lands at BL while BL,BR is still stored | climb only while the grandparent holds nothing; otherwise put the value at the parent | not executed | `LinearQuadtreeCompaction.RemoveAsWrittenBuriesLeaf` | `LinearQuadtreeCompaction.RemoveKeepsCousin` |

`LinearQuadtreeRemoval.RemoveKeepsInv` proves the corrected compaction correct for every tree. The class `LinearQuadtree.LinearQuadtree` uses it.
