# erdtree tree core, modelled in Dafny

This project models how erdtree builds and prints its file-system tree. erdtree is a
disk-usage tree viewer. Four stages are covered:

- **The consumer loop of `Tree::traverse`.** Directory entries arrive one by one from the
  walker threads. Each becomes a node in an `indextree` arena. Each directory also gets a slot
  in a map from paths to pending child ids. Entries that are duplicate hard links are dropped.
  The depth-0 directory is recorded as the root.
- **`assemble_tree`.** Starting from the root, it takes each directory's pending children out
  of the map and assembles child directories first (post-order). It adds the children's sizes
  into the directory's size and sorts the children by the configured comparator. Finally it
  appends them to the directory.
- **`prune_directories`.** One pass collects the empty directories among the root and its
  descendants, then each one is removed.
- **`Display for Tree`.** One line is written for the root. Then one line is written for each
  descendant in pre-order whose depth is within the configured level. Its prefix is built from
  a stack of connector glyphs.

The two helpers of `src/utils.rs` are modelled too:

- `uniq` keeps the first occurrence of each item;
- `num_integral` counts the integral digits of a `u64`.

**State.** The arena and the pending-children map are owned by the traversal and handed to
`&mut` helpers. They are therefore modelled as values that each operation takes and returns.
The arena is a sequence of slots: node data, parent, ordered child list and a removed flag.

**Operations with loops** are methods proved equal to a reference function:

- `Collect.Consume` equals `Collected`;
- `Utils.Uniq` equals `Dedup`;
- `Render.Display` equals `Rendered`;
- `Prune.PruneDirectories` equals `Pruned` of `EmptyDirs`.

The recursion of `assemble_tree` is the method `AssembleTree` and its loop `AssembleChildren`,
whose body is `AssembleChild`. They are specified by the predicate `Assembled`. It describes
the whole set of directories reached from the starting one, not only the starting one's own
level. The predicate `Complete` says when the recursion cannot hit a missing slot.

**Behaviours of the code worth knowing:**

- **Early children are dropped.** When an entry arrives and its parent has no slot yet, the
  loop creates an empty slot for the parent, and the entry's own id is recorded nowhere
  (`src/render/tree/mod.rs:112-117`). Such an entry becomes a node that no slot lists, so it
  is never attached. See `Collect.StepParentSlot` and `Collect.EarlyChildUnlisted`.
- **Pruning is one pass.** `prune_directories` collects the empty directories once and then
  removes them (`src/render/tree/mod.rs:195-209`). A directory whose only children were empty
  directories therefore survives, left empty. See `Prune.PruneNotIdempotent`.
- **An empty root is pruned.** The descendants that the prune pass looks at start with the
  root itself (`src/render/tree/mod.rs:197`). With pruning on and nothing pending under the
  root, the root is removed, and displaying the tree then reads the removed root's data
  (`src/render/tree/mod.rs:240`), which panics. See `Trees.BuiltRootRemoved` and
  `Render.Display`.

## Model

| member | source | states |
|---|---|---|
| Utils.Uniq | src/utils.rs:26-37 | The loop with its `seen` set returns exactly `Dedup(items)`, the first occurrence of each item in input order |
| Utils.DedupSameElements | src/utils.rs:33-36 | The result holds exactly the items of the input and is no longer than it |
| Utils.DedupNoDuplicates | src/utils.rs:31-36 | Every item occurs at most once in the result |
| Utils.DedupKeepsFirstOccurrences | src/utils.rs:33-36 | The result lists the first occurrences of the input, each at an index where the item did not occur before, in increasing index order, and every first occurrence is listed |
| Utils.DedupOfDistinct | src/utils.rs:26-37 | A sequence without duplicates is returned unchanged |
| Utils.DedupIdempotent | src/utils.rs:26-37 | Applying `uniq` twice gives the same as applying it once |
| Utils.ILog10 | src/utils.rs:45 | For a positive value, `r` is the integer base-10 logarithm: `10^r <= v < 10^(r+1)` |
| Utils.NumIntegral | src/utils.rs:41-46 | The count is zero exactly for zero; otherwise it is the number `n` of digits, with `10^(n-1) <= value < 10^n`, and never more than 20 for a `u64` |
| Utils.NumIntegralOfMax | src/utils.rs:41-46 | `u64::MAX` has 20 integral digits |
| Nodes.ParentPath | src/render/tree/mod.rs:108 | A path has a parent exactly when it is non-empty, and the parent is the path without its last component |
| IndexTree.Descendants | src/render/tree/mod.rs:197 | The pre-order walk starts with the node itself and visits only ids of the arena |
| IndexTree.AppendLinked | src/render/tree/mod.rs:189 | Appending a detached node, whose path is one component below its new parent's, keeps the parent and child links consistent |
| IndexTree.SetDataLinked | src/render/tree/mod.rs:175 | Replacing a node's data without changing its path keeps the links consistent |
| IndexTree.RemoveSubtreeLinked | src/render/tree/mod.rs:208 | `remove_subtree` keeps the links consistent |
| Collect.Consume | src/render/tree/mod.rs:85-120 | The consumer loop and the root check return exactly `Collected(msgs)`, the fold of one loop step per message up to the first `Done` |
| Collect.StepDirectorySlot | src/render/tree/mod.rs:86-91 | A directory gets an empty slot for its path only when it has none; an existing slot keeps its pending ids |
| Collect.StepRoot | src/render/tree/mod.rs:93-96 | The depth-0 directory becomes a new node recorded as the root; no slot gains an id and no inode is recorded |
| Collect.StepDuplicateLinkDropped | src/render/tree/mod.rs:99-106 | An entry with more than one link whose inode was seen before creates no node and records nothing |
| Collect.StepFirstLinkKept | src/render/tree/mod.rs:99-110 | The first link of an inode is recorded and becomes a node; it fails exactly when the path has no parent |
| Collect.StepUnlinkedKept | src/render/tree/mod.rs:99-110 | An entry that is not hard-linked always becomes a node and leaves the inode set unchanged; it fails exactly when it is not the root and has no parent path |
| Collect.StepParentSlot | src/render/tree/mod.rs:108-117 | A missing parent path is `ExpectedParent`. Otherwise the new id is appended to the parent's slot if one exists; if none exists, an empty slot is created and the id is recorded nowhere. Other slots are unchanged |
| Collect.EarlyChildUnlisted | src/render/tree/mod.rs:112-117 | A file that arrives before its parent directory is collected as node 1, which no slot lists |
| Collect.StepConsistent | src/render/tree/mod.rs:85-117 | One loop step keeps the invariant: nodes are detached, every pending id is a node waiting in its parent path's slot and listed once, and the root is recorded correctly |
| Collect.CollectedConsistent | src/render/tree/mod.rs:85-120 | A successful collection yields detached nodes, a consistent pending-children index, and a depth-0 directory root that has its own slot and is pending nowhere |
| Collect.CollectedDirSlots | src/render/tree/mod.rs:86-91 | After a successful collection every directory node has a slot in the index |
| Collect.CollectedNeedsRoot | src/render/tree/mod.rs:120 | A message stream without a depth-0 directory fails with `MissingRoot`, or with `ExpectedParent` when a parentless entry comes first |
| Collect.RunErrors | src/render/tree/mod.rs:108 | The loop itself can only fail with `ExpectedParent` |
| Collect.CollectedOneNodePerLink | src/render/tree/mod.rs:99-106 | For every processed non-root entry with more than one link, the arena holds exactly one non-root node with more than one link and that inode identity. Roots and entries with a single link are not counted |
| SiblingSort.SortIds | src/render/tree/mod.rs:179-185 | Sorting a sibling group permutes it |
| SiblingSort.SortIdsSorted | src/render/tree/mod.rs:179-185 | With a comparator that is a total preorder on the group, the sorted group is in non-decreasing order |
| SiblingSort.SortIdsStable | src/render/tree/mod.rs:180 | `sort_by` is stable: siblings that compare equal keep their relative order |
| Assemble.Arrange | src/render/tree/mod.rs:178-185 | The children as appended, with or without a configured order, are a permutation of the pending ids |
| Assemble.AssembleTree | src/render/tree/mod.rs:145-191 | A missing slot for the directory (the `unwrap` panic at line 153) is `BranchMissing`, and that is the only error, here or further down. When the directory and every pending directory have a slot and no two directories share a path, it succeeds. On success `D` is exactly the directories reached: the directory and, recursively, every pending directory of a reached one. Each of them has exactly its pending ids, arranged, as children, and the index has lost exactly their slots. Every size is aggregated, nodes pending nowhere are untouched, and elsewhere only sizes changed. The directory's size is the sum of its children's sizes when that sum is positive |
| Assemble.AssembleChildren | src/render/tree/mod.rs:153-172 | The loop fails only with `BranchMissing`, never with a complete index. On success every pending child directory has been assembled: it and every directory reached below it have their pending ids arranged as children, and the index has lost exactly the slots of the directory and of those directories. The returned total is the sum of the children's sizes after assembly |
| Assemble.AssembleChild | src/render/tree/mod.rs:157-171 | One round of the loop: a child directory is assembled from the arena and index the earlier rounds left. The round keeps the loop invariant `Round`: the directories reached grow by the child's, and the running total grows by the child's size. It fails only with `BranchMissing`, never with a complete index |
| Assemble.StillComplete | src/render/tree/mod.rs:160-167 | An index complete for a directory is still complete for each pending child directory when the loop reaches it, so the recursive call cannot hit a missing slot |
| Assemble.AssembledUnlisted | src/render/tree/mod.rs:145-191 | After assembly no remaining slot lists a directory that was reached |
| Assemble.AttachChildren | src/render/tree/mod.rs:174-190 | A positive total becomes the directory's size and the arranged children are appended. The outcome is `Assembled`, over the directories reached below plus the directory itself |
| Assemble.AppendChildren | src/render/tree/mod.rs:188-190 | Appending the arranged children one by one makes them the directory's children in that order and links each to it |
| Assemble.AssembledChildren | src/render/tree/mod.rs:153-190 | After assembly the directory's children are its pending ids: in discovery order without a sort order, otherwise sorted and stable. Its size is `Stamp` of its original size by the children's total |
| Assemble.SampleComplete | src/render/tree/mod.rs:145-191 | The index of a root `r` holding a directory `d`, which holds a 5-byte file `f`, is complete from `r`, so assembly from `r` succeeds |
| Assemble.SampleAssembled | src/render/tree/mod.rs:145-191 | Assembling that sample reaches exactly `r` and `d` and empties the index. It makes `d` the only child of `r` and `f` the only child of `d`, and both directories get size 5 |
| Assemble.PermutationNoDuplicates | src/render/tree/mod.rs:179-185 | A permutation of a sibling group without duplicates, such as its sorted form, has no duplicates |
| Prune.PruneDirectories | src/render/tree/mod.rs:194-210 | The result is the arena with exactly the empty directories among the root and its descendants removed, and its links stay consistent |
| Prune.CollectEmptyDirs | src/render/tree/mod.rs:195-205 | The first loop collects exactly the directories without children among the root and its descendants |
| Prune.RemoveEach | src/render/tree/mod.rs:207-209 | Removing the collected childless ids one at a time gives `Pruned` of that set and keeps the links consistent |
| Prune.RemoveEmptyStep | src/render/tree/mod.rs:208 | Removing one more childless node with `remove_subtree` extends the removed set by that node |
| Prune.PrunedRemovesExactly | src/render/tree/mod.rs:195-209 | A node is marked removed exactly when it was removed before or is an empty directory among the root and its descendants; no node data changes |
| Prune.PrunedKeeps | src/render/tree/mod.rs:207-209 | A node that is not removed keeps its parent, and its children are its previous children that were not removed, in the same order |
| Prune.PruneKeepsNonEmpty | src/render/tree/mod.rs:200-204 | Files, symlinks and directories with children are never removed |
| Prune.PrunedLinked | src/render/tree/mod.rs:207-209 | Removing childless nodes keeps the links consistent |
| Prune.PrunedRoot | src/render/tree/mod.rs:194-210 | The pass removes the root directory exactly when it was removed already or has no children |
| Prune.PruneNotIdempotent | src/render/tree/mod.rs:194-210 | With a root holding `d1`, which holds an empty `d2`, the pass removes only `d2` and leaves `d1` empty, so a second pass would remove more |
| Trees.Level | src/render/tree/mod.rs:56-58 | The configured level, or `usize::MAX` when none is set |
| Trees.DetachedAggregated | src/render/tree/mod.rs:79-117 | Before assembly no node has children, so every node trivially carries its aggregate size |
| Trees.BuiltRoot | src/render/tree/mod.rs:122-126 | In a built tree the root's children are among its pending ids. Without pruning they are all of them, each once, and every directory carries the aggregate size of its children |
| Trees.BuiltRootRemoved | src/render/tree/mod.rs:122-126 | The root of a built tree is removed exactly when pruning is on and the root had no pending children, because the prune pass includes the root itself |
| Trees.CollectedComplete | src/render/tree/mod.rs:85-122 | A successful collection whose directories have distinct paths is complete from the root, so assembling it cannot hit a missing slot |
| Trees.Traverse | src/render/tree/mod.rs:79-128 | Errors of the loop and the root check pass through unchanged, and assembly can only add `BranchMissing`. It succeeds whenever the collection succeeds and no two collected directories share a path, as in a walk of one file system. A success is the collected arena, assembled from the root and pruned when configured, with consistent links |
| Trees.SampleTraversable | src/render/tree/mod.rs:79-128 | A walk of a root `r` holding a 3-byte file `f` is collected and has distinct directory paths, so the traversal succeeds on it |
| Trees.Init | src/render/tree/mod.rs:49-53 | `Tree::init` wraps a successful traversal with its settings and passes errors through. It succeeds under the same condition as the traversal |
| Render.Display | src/render/tree/mod.rs:231-306 | Reading a removed root's data is the panic, modelled as `None`, and it happens exactly when the root is removed. Otherwise the loop writes exactly `Rendered(t)`: the root line, then one line per pre-order descendant within the level, with the prefix of the recursive walk |
| Render.DisplayNode | src/render/tree/mod.rs:262-286 | The line of the current descendant, its prefix stack followed by a corner for a last sibling and a tee otherwise, is written only when its depth is within the level |
| Render.NextPrefix | src/render/tree/mod.rs:288-302 | The updated stack is the one the walk gives the next node |
| Render.NextStack | src/render/tree/mod.rs:288-302 | Between consecutive nodes the depth rises by at most one. One deeper pushes the blank or the bar connector, shallower truncates by the difference (which never underflows), and the same depth keeps the stack |
| Render.WalkIds | src/render/tree/mod.rs:238 | The walk visits exactly the descendants after the root, in pre-order |
| Render.WalkDepth | src/render/tree/mod.rs:291-300 | A visited node's stack is the starting stack plus one glyph per level strictly between the start and the node: its length is the starting length plus the node's depth below the start, minus one |
| Render.WalkChained | src/render/tree/mod.rs:288-302 | The walk's first stack is the starting one, and each later stack is the previous one pushed with its node's connector or cut back to a prefix of it |
| Render.RenderedWithinLevel | src/render/tree/mod.rs:284-286 | No line after the root's shows a node deeper than the level |
| Render.RenderedAtLevel | src/render/tree/mod.rs:261-286 | With any level, there are as many lines after the root's as visits within the level. Each such visit has its own line, numbered by the visits within the level before it, so later visits come on later lines |
| Render.DescendantsDeeper | src/render/tree/mod.rs:238 | With depths numbered consistently, no descendant is shallower than its ancestor |
| Render.RenderedKeepsAncestors | src/render/tree/mod.rs:261-286 | The depth limit never hides an ancestor: if a node below the root is within the level, every node between the root and it has its line |
| Render.RenderedShowsEveryNode | src/render/tree/mod.rs:238-261 | Without a level there is one line per node of the pre-order walk from the root, in that order |
| Render.RenderedPrefixes | src/render/tree/mod.rs:259-301 | Without a level a node `d` levels below the root has a prefix of `d + 1` glyphs, ending in a corner exactly when it is the last of its siblings |

## Left out

- **Walker threads and the channel.** The model replaces them with the sequence of messages
  the consumer receives, so concurrency and message order are inputs.
- **Filesystem setup.** `WalkParallel::try_from` and the `BranchVisitor` are filesystem I/O
  and are not modelled.
- **Node construction.** Building a node from a directory entry (its inode, parent path,
  depth and initial size) happens in the walker, which is not part of this model. Nodes are
  inputs.
- **`FileSize` formatting.** Units, prefixes and scale are not modelled: a size is its byte
  count as a `nat`.
- **Themes and colours.** Theme lookup, `LS_COLORS` and how a node's name and size are
  printed are not modelled. A line is its glyph prefix and its node, and the themes are two
  abstract values.
- **The `hash!` macro in `src/utils.rs`.** It builds a map literal, and is not part of this
  model.
- **The comparators of the sort orders** (`Order::comparator`) are not part of this model.
  The comparator is an abstract function on nodes, and sortedness and stability are proved for
  any comparator that is a total preorder on the sibling group.
- Assemble.AssembleTree: does not model the `u64` overflow of `dir_size += bytes`. Sizes are
  unbounded.
- Render.Display: requires that every child is one level deeper than its parent. This is how
  the walker numbers depths. Without it, `truncate(len - depth_delta)` could underflow.
- Render.Display: the `usize` overflow of `current_node.depth + 1` is not modelled. Depths are
  bounded by `usize::MAX` only in their type.
- Render.Display: cannot fail for two reasons the source can. Write errors of the formatter,
  which `display_node(...)?` passes on (`src/render/tree/mod.rs:257, 285`), are not modelled,
  because writing is not modelled. The `theme.get(..).unwrap()` panics
  (`src/render/tree/mod.rs:277, 279, 295`) are not modelled either, because themes are
  abstract and always have every glyph.
- **Total size of a directory.** The model states sizes per level: a directory's size is the
  sum of its children's sizes whenever that sum is positive. That equals the sum of all
  descendant file sizes only when directories start without a size of their own, which depends
  on node construction.
