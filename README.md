# vdom-rs reconciler, modelled in Dafny

vdom-rs renders a tree of virtual nodes into the browser DOM and keeps it
current. On each update it diffs the old virtual tree against the new one.
The diff is a flat list of patches, each addressed by an integer: the node's
position in a depth-first pre-order numbering of the old tree. The
patches are then applied to the live DOM in two passes:

1. a forward walk over the live subtree binds every address to a live node;
2. the bound patches run in order.

This project models the core of that cycle:

- **`tree.dfy`, module `Tree`.** The virtual tree (`VNode`, `Child`, `Attr`,
  `Listener`) with the structural equality `PartialEq` gives it, and the
  in-place builder methods as the class `NodeBuilder`.
- **`keys.dfy`, module `Keys`.** A deterministic enumeration of an attribute
  key set, standing in for the hash set the attribute diff iterates.
- **`diff.dfy`, module `Diff`.** The diff engine:
  - `diff`, `diff_node`, `diff_attributes`, `diff_children` and
    `count_children`, as specification functions;
  - the source's imperative procedures (a shared patch vector and a mutable
    counter), as methods proved equal to those functions;
  - a `Mode`: `AsWritten` is the source; `Intended` corrects the two
    defects of the diff and the two of `apply_patch` listed under Findings.
- **`diff_facts.dfy`, module `DiffFacts`.** What the diff promises:
  - the attribute patches cover exactly the changed keys;
  - the diff is empty exactly when the trees are equal;
  - addresses never decrease and stay inside the old tree;
  - where the counter ends (the claim at src/diff.rs:138-139).
- **`live.dfy`, module `Live`.** The live document:
  - a tree of elements (attributes plus properties) and text nodes;
  - positions in a tree as child-index paths;
  - the host's first-child, next-sibling and parent moves;
  - rendering a virtual node (`Materialize`);
  - the pre-order walk of a subtree, with its length, distinctness and
    completeness.
- **`walker.dfy`, module `Walker`.** `DomIterator` (src/dom_iterator.rs,
  repeated in src/apply.rs as `NodeIterator`): a class whose `Next` is
  proved to yield exactly the pre-order of the subtree at its root.
- **`apply.dfy`, module `Apply`.** `apply` and `apply_patch`:
  - address resolution (`Resolve`);
  - the effect of each operation on the host's nodes (`Exec`), and how
    each later bound patch follows its node (`Track`, `Retarget`);
  - the class `Document` with `Apply`, its two loops (`Bind` with `Seek`,
    and `ApplyAll`), and the host loops of `RemoveLast` and `Append`.
- **`handles.dfy`, module `Handles`.** Which patches can move a node, and
  when a run of bound patches splits into two runs.
- **`sync.dfy`, module `Sync`.** How diff and apply meet:
  - a reference diff addressed by old-tree paths;
  - the theorem that binding the counted addresses to the walk gives that
    reference diff, for the corrected counter always and for the counter
    as written when no replaced old child has children and no shared
    attribute changes kind;
  - two concrete tree pairs where the counter as written goes wrong.
- **`reconcile.dfy`, module `Reconcile`.** The end-to-end theorem: `apply`
  of `diff(old, new)` on a document rendered from `old` leaves it rendered
  from `new`. For the corrected code it holds whenever every attribute
  map is keyed by each attribute's own key (as `add_attribute` builds
  them) and, when the subtree is the whole document, the root's tag stays.
  For the code as written it needs three more hypotheses. A
  counterexample shows each of those three is needed.

The host DOM is a value here. The host's nodes form a forest: tree 0 is the
document, and every node a patch takes out of it (with whatever still
hangs below it) becomes a further tree, appended in the order the patches
take them out. A bound patch refers to a node by a handle: a tree of the
forest and a path in that tree. When a patch moves a node, the handles of
the later patches follow it (`Track`), so each patch acts on the node it
was bound to, whether or not that node is still in the document. Calls into
the browser become functions on that forest:

- `setAttribute`/`removeAttribute` and property assignment/`delete` act
  per key on the element's attribute or property map.
- `set_text_content` replaces a text node's data. On an element it takes
  every child out and puts in one text node.
- `append_child`, `removeChild(lastChild)` and `insert_before` edit the
  child list.
- `replace_child` on the parent replaces the node and takes the old one out.
- A patched operation a browser would refuse (an element operation on a
  text node, removing from an empty child list) ends the run with an error.
  So does a panic of the source (an address past the walk, a node without
  a parent).

## Model

| member | source | states |
|---|---|---|
| Tree.NodeEquals | src/node.rs:88-101 | returns exactly `NodeEq`: equal tags, equal attribute maps, equal child counts and pairwise-equal children, via the loop over zipped children |
| Tree.ChildEquals | src/node.rs:74-84 | returns exactly `ChildEq`: two texts with equal strings or two equal nodes; mixed variants are unequal |
| Tree.NodeNotEquals | src/node.rs:103-105 | `ne` is the negation of `eq` |
| Tree.NodeEqIsStrippedEquality | src/node.rs:88-101 | node equality is plain equality once listeners are dropped at every depth |
| Tree.NodeEqReflexive | src/node.rs:88-101 | every node equals itself |
| Tree.NodeEqSymmetric | src/node.rs:88-101 | equality is symmetric |
| Tree.NodeEqTransitive | src/node.rs:88-101 | equality is transitive |
| Tree.NodeEqIgnoresListeners | src/node.rs:88-101 | listeners take no part in equality |
| Tree.WrapIn | src/node.rs:33-44 | a node with the tag, no attributes or listeners, and one `Child::Node` per thing, in order |
| Tree.FromIter | src/node.rs:128-137 | the same, under the tag "div" |
| Tree.WrapInRoundTrip | src/node.rs:33-44 | unwrapping the children of `wrap_in` gives back the things |
| Tree.NodeBuilder.constructor | src/node.rs:24-31 | `Node::new`: the tag, and no attributes, children or listeners |
| Tree.NodeBuilder.AddEventListener | src/node.rs:46-54 | appends the listener; nothing else changes |
| Tree.NodeBuilder.AppendChild | src/node.rs:56-58 | appends one `Child::Node`; nothing else changes |
| Tree.NodeBuilder.AppendString | src/node.rs:60-62 | appends one `Child::Text`; nothing else changes |
| Tree.NodeBuilder.AddAttribute | src/node.rs:64-66 | stores the attribute under its own key, overwriting that key only; keeps every attribute keyed by its own key |
| Keys.SortedKeysEnumerates | src/diff.rs:83-84 | the key enumeration lists every key of the union once and nothing else |
| Keys.SortedKeysAscending | src/diff.rs:83-84 | the enumeration is strictly ascending |
| Diff.CountChildren | src/diff.rs:144-152 | `count_children` counts at least one per child |
| Diff.CountChildrenConcat | src/diff.rs:144-152 | `count_children` is additive over concatenation |
| Diff.Operation.At | src/diff.rs:15-22 | `Operation::at` gives a patch of this operation at the index |
| Diff.Patch.At | src/diff.rs:30-38 | `Patch::at` keeps the operation and puts the patch at the new node |
| Diff.Past | src/diff.rs:125-133 | where the counter stands after an old child replaced wholesale: unchanged as written, past the old child's descendants intended |
| Diff.Diff | src/diff.rs:40-48 | `diff` returns the patches of the root pair compared at address 0 |
| Diff.NodeDiff | src/diff.rs:50-73 | the counter never goes back |
| Diff.ChildrenDiff | src/diff.rs:98-142 | the counter moves at least once per shared pair |
| Diff.PairsDiff | src/diff.rs:119-134 | after `k` pairs the counter has moved at least `k` |
| Diff.PairDiff | src/diff.rs:121-134 | a pair never moves the counter back |
| Diff.DiffNode | src/diff.rs:50-73 | appends `NodeDiff`'s patches to the vector and leaves the counter at its end value |
| Diff.DiffAttributes | src/diff.rs:75-96 | appends the attribute patches, keys visited in enumeration order |
| Diff.DiffKeys | src/diff.rs:84-95 | the loop over the keys appends each key's contribution in order |
| Diff.DiffKey | src/diff.rs:85-94 | one key: a removal when only old has it, a set when only new has it or the attributes differ, else nothing |
| Diff.DiffChildren | src/diff.rs:98-142 | the count patch, then every shared pair at the bumped counter, then the skip past removed old children |
| Diff.DiffNextPair | src/diff.rs:119-134 | one iteration of the pair loop: counter plus one, then the pair |
| Diff.DiffPair | src/diff.rs:121-134 | the four cases of a shared pair |
| Diff.PairsDiffStep | src/diff.rs:119-134 | the pair loop, one pair further |
| DiffFacts.KeysPatchesCount | src/diff.rs:84-95 | for any duplicate-free key list, one patch per changed key |
| DiffFacts.KeysPatchesIncludes | src/diff.rs:84-95 | every listed key's patch is emitted |
| DiffFacts.KeysPatchesProvenance | src/diff.rs:84-95 | every emitted patch is one listed key's contribution |
| DiffFacts.AttributePatchesCount | src/diff.rs:75-96 | as many attribute patches as changed keys |
| DiffFacts.AttributePatchesCover | src/diff.rs:85-93 | a key only in old gives the removal of the old attribute; a new or changed key gives the set of the new one |
| DiffFacts.AttributePatchesProvenance | src/diff.rs:75-96 | every attribute patch is at the node's address and comes from a changed key |
| DiffFacts.AttributePatchesEmptyIff | src/diff.rs:75-96 | no attribute patch exactly when the attribute maps are equal |
| DiffFacts.AttributePatchesModesAgree | src/diff.rs:90-92 | where no shared key changes kind, the attribute patches as written are the intended ones |
| DiffFacts.NodeDiffTagChange | src/diff.rs:66-69 | a tag change emits the one `ReplaceNode` and nothing below it; where the counter stays in each counting |
| DiffFacts.NodeDiffOwnPatchesFirst | src/diff.rs:71-72 | a node's attribute and count patches come first; all later patches are at larger addresses |
| DiffFacts.NodeDiffCountPatch | src/diff.rs:110-114 | `RemoveLast(old - new)` for a shrinking child list, `Append` of the new tail for a growing one, and no other removal or append at that address |
| DiffFacts.NodeDiffPatchesAtOwnAddress | src/diff.rs:71-114 | every patch at the node's own address is an attribute or count patch |
| DiffFacts.PairsEqAll | src/node.rs:94-99 | the pairwise loop's predicate is the quantified pairwise equality |
| DiffFacts.NodeDiffEmptyOnlyIfEqual | src/diff.rs:50-142 | no patches only for equal nodes |
| DiffFacts.NodeDiffEmptyIfEqual | src/diff.rs:50-142 | equal nodes give no patches |
| DiffFacts.DiffEmptyIffEqual | src/diff.rs:40-48 | `diff` is empty exactly when the trees are equal, under both countings |
| DiffFacts.NodeDiffCounterBounds | src/diff.rs:50-142 | the counter ends between its start and the start plus the old subtree's size |
| DiffFacts.PairsDiffCounterBounds | src/diff.rs:119-134 | after `k` pairs, the counter has moved at least `k` and at most the size of those subtrees |
| DiffFacts.PairDiffCounterBounds | src/diff.rs:121-134 | one pair moves the counter at most past the old child's descendants |
| DiffFacts.NodeDiffAscending | src/diff.rs:50-142 | addresses never decrease and lie between the start and the end value of the counter |
| DiffFacts.PairsDiffAscending | src/diff.rs:119-134 | the same for the pair loop, from the start plus one |
| DiffFacts.PairDiffAscending | src/diff.rs:121-134 | the same for one pair |
| DiffFacts.DiffAddresses | src/diff.rs:40-48 | `diff`'s addresses start at 0, never decrease and stay below the old tree's node count |
| DiffFacts.NodeDiffCounterSynced | src/diff.rs:137-141 | as written, the counter ends exactly past the old subtree when no replaced old child has children |
| DiffFacts.PairsDiffCounterSynced | src/diff.rs:119-134 | as written, under the same hypothesis, pair `j` is compared at start + 1 + size of the earlier subtrees |
| DiffFacts.PairDiffCounterSynced | src/diff.rs:121-134 | as written, under the same hypothesis, a pair moves the counter past the old child's descendants |
| DiffFacts.NodeDiffCounterIntended | src/diff.rs:137-141 | with the corrected counter, the counter always ends exactly past the old subtree |
| DiffFacts.PairsDiffCounterIntended | src/diff.rs:119-141 | with the corrected counter, pair `j` is always compared at start + 1 + size of the earlier subtrees |
| DiffFacts.PairDiffCounterIntended | src/diff.rs:121-134 | with the corrected counter, a pair always moves the counter past the old child's descendants |
| Live.ChildPath | src/dom_iterator.rs:29-31 | a child path is valid exactly when the parent is valid and the index exists, and it leads to that child |
| Live.FirstChild | src/dom_iterator.rs:29-32 | `first_child` exists exactly when the node has children, and is child 0, whose parent is the node |
| Live.NextSibling | src/dom_iterator.rs:37-40 | `next_sibling` exists exactly when the node has a parent and a later sibling, and is that sibling, with the same parent |
| Live.ParentNode | src/dom_iterator.rs:44-56 | `parent_node` is missing exactly at the top of the tree, and is otherwise the path one step up |
| Live.Materialize | src/root.rs:93-121 | `create_element` gives an element with the tag and one node per child; each attribute lands in exactly one of the attribute and property maps, and nothing else does |
| Live.AtConcat | src/dom_iterator.rs:29-55 | paths compose: a path below a node is a path inside that node's subtree |
| Live.MaterializeShape | src/root.rs:93-121 | rendering keeps the tag and renders the children one by one, in order |
| Live.MaterializeIgnoresListeners | src/node.rs:20 | listeners do not show in the rendered tree |
| Live.PreOrder | src/dom_iterator.rs:22-71 | the walk of a subtree starts at its top |
| Live.AttrValues | src/attribute.rs:32-41 | an element's attribute (or property) map holds exactly the keys of that kind, with their values |
| Live.PreOrderLength | src/diff.rs:144-152 | the walk of a rendered node has `1 + count_children(children)` nodes: the diff's numbering |
| Live.SpanLength | src/diff.rs:144-152 | the walk of the first `j` children has `count_children` of them many nodes |
| Live.PreOrderInside | src/dom_iterator.rs:22-71 | every walked node lies in the subtree and exists |
| Live.PreOrderDistinct | src/dom_iterator.rs:22-71 | no node is walked twice |
| Live.PreOrderComplete | src/dom_iterator.rs:22-71 | every node of the subtree is walked |
| Walker.StepDown | src/dom_iterator.rs:29-32 | moving to the first child takes exactly the current node off the walk |
| Walker.StepToSibling | src/dom_iterator.rs:37-40 | moving to the next sibling finishes the current subtree |
| Walker.LastChild | src/dom_iterator.rs:41-55 | what follows a last child is what follows its parent |
| Walker.DomIterator.constructor | src/dom_iterator.rs:10-16 | the walk starts at the root and has the root's whole pre-order to yield |
| Walker.DomIterator.Next | src/dom_iterator.rs:22-71 | yields the first remaining node and leaves exactly the rest; once finished, yields nothing; every yielded node lies in the subtree; only nodes strictly inside the subtree have their siblings looked up |
| Walker.DomIterator.Advance | src/dom_iterator.rs:29-68 | the move after a yield takes exactly one node off the walk |
| Walker.DomIterator.Climb | src/dom_iterator.rs:42-64 | the climb ends at the root or at the first aunt, with the walk resuming at what follows the last child; the parent-less case cannot happen |
| Apply.Resolve | src/apply.rs:18-33 | the binding pass keeps every operation, binds each patch to a walked node, and fails past the walk |
| Apply.ResolveFailsIff | src/apply.rs:24-31 | binding fails exactly when some address lies past the walk, with the source's panic |
| Apply.ResolveAscending | src/apply.rs:18-33 | for non-decreasing addresses inside the walk, every patch is bound to the node at its own index |
| Apply.PutAt | src/apply.rs:54-58 | after replacing the node at a path, the path leads to the new node |
| Apply.PutFrame | src/apply.rs:54-103 | a patch changes nothing outside the patched node and its ancestors |
| Apply.PutTwice | src/apply.rs:54-103 | a second update at the same path overrides the first |
| Apply.PutSame | src/apply.rs:54-103 | putting back the node that is there changes nothing |
| Apply.Exec | src/apply.rs:40-104 | one bound patch changes at most the tree holding its node, and only appends trees |
| Apply.Retarget | src/apply.rs:35-37 | every later bound patch is kept one for one, with its operation, and its handle is the one `Track` gives: where its node now is (`Handles.TrackMoves`) |
| Apply.ExecAll | src/apply.rs:35-37 | the loop over the bound patches only ever appends to the forest |
| Apply.Lift | src/apply.rs:18-33 | one handle into the document per bound patch |
| Apply.Run | src/apply.rs:11-38 | `apply`: no patches change nothing; an address past the walk of the subtree is fatal with the source's panic; a run only appends to the forest |
| Apply.EditFrame | src/apply.rs:40-104 | a patch leaves its tree as it was or changes it only at the patched node |
| Apply.ExecReplaceNode | src/apply.rs:55-58 | fails exactly for a node without parent; otherwise the path leads to the rendered new node |
| Apply.ExecRemoveAttribute | src/apply.rs:59-61 | fails exactly on a text node; otherwise removes the key from the map of the attribute's kind, and changes nothing else of the node |
| Apply.ExecSetAttribute | src/apply.rs:62-64 | fails exactly on a text node; otherwise sets the key in the map of the attribute's kind, and changes nothing else of the node |
| Apply.ExecReplaceText | src/apply.rs:65-67 | a text node gets the new data; as written an element keeps its tag and attributes, and its children are taken out and replaced by one text node, none if the text is empty; intended, the element is taken out and a text node takes its place, which needs a parent |
| Apply.ExecRemoveLast | src/apply.rs:68-76 | succeeds exactly when there are at least `count` children (and `count` is not negative), then drops the last `count` |
| Apply.ExecAppend | src/apply.rs:77-91 | fails exactly when children are appended to a text node; otherwise the rendered children follow the old ones |
| Apply.ExecInsert | src/apply.rs:92-101 | the intended insert: fails on a text node; otherwise the rendered node goes before child `pos` when there is one and after the last child otherwise (the source as written is `InsertRefused`) |
| Apply.InsertRefused | src/apply.rs:92-101 | as written, an insert before an existing child leaves the forest as it was, since `insert_before` gets its two nodes the wrong way round; past the last child it appends as intended; the intended insert always changes the forest |
| Apply.Document.ApplyPatch | src/apply.rs:40-104 | `apply_patch` performs exactly the as-written `Exec` on the forest: ReplaceNode through the parent, per-key attribute and property calls, text content, the host loops, and an insert before an existing child that the host refuses; the same forest on success, the same failure otherwise |
| Apply.Document.constructor | src/apply.rs:11 | the host starts with the document `apply` is given, and no node taken out of it |
| Apply.Document.Apply | src/apply.rs:11-38 | `apply` performs exactly the as-written `Run`: nothing for no patches; on success the forest `Run` gives, with every patch applied to the node it was bound to, wherever that node now is; otherwise `Run`'s failure, and a resolution failure leaves the document untouched |
| Apply.Document.Bind | src/apply.rs:18-33 | the first loop computes exactly `Resolve` over the walk of the subtree |
| Apply.Document.Seek | src/apply.rs:24-32 | the inner loop stops at the patch's address when the walk reaches it, fails only when the walk ends first |
| Apply.Document.Step | src/apply.rs:24-32 | one move of the walk yields the next node of the pre-order, or nothing exactly at its end |
| Apply.Document.ApplyAll | src/apply.rs:35-37 | the second loop runs the bound patches in order, each on its own node after the earlier patches moved it, and stops at the first failure: exactly `ExecAll` |
| Apply.Document.RemoveLastChildren | src/apply.rs:68-76 | the host loop `while (i--) removeChild(lastChild)` performs exactly `RemoveLast` |
| Apply.Document.AppendChildren | src/apply.rs:77-91 | the loop over the children performs exactly `Append` |
| Apply.Document.DetachLast | src/apply.rs:68-76 | the loop succeeds exactly when there are `count` children to take, and then keeps the first ones and takes the last `count` out, last first |
| Handles.TrackStays | src/apply.rs:35-37 | a patch moves no node outside its own subtree; a node it moves goes into a tree it appended or, for an insert, stays inside the patched node |
| Handles.TrackFollows | src/apply.rs:35-37 | a node in another tree or another branch keeps its handle and is the same node after the patch |
| Handles.TrackMoves | src/apply.rs:18-37 | node identity: after a patch every tracked handle still names a node, and for every handle other than the patched node and its ancestors it names the node it named before, whether that node stayed, went out with a replaced, emptied or removed node, or moved with an insert; the patched node is followed when it is taken out itself |
| Handles.RetargetHolds | src/apply.rs:35-37 | after a patch, every later bound patch still names a node |
| Handles.ExecAllConcat | src/apply.rs:35-37 | running two lists of bound patches, the first of which inserts nothing and reaches no node of the second, is running the first and then the second |
| Sync.BindsConcat | src/apply.rs:23-33 | binding distributes over concatenation |
| Sync.KeysBind | src/diff.rs:84-95 | the attribute patches bound at a node are the ones addressed by its path |
| Sync.PlacedChild | src/diff.rs:119-141 | child `j`'s subtree sits in the walk at 1 + size of the earlier sibling subtrees past its parent: where the counter puts it |
| Sync.SpanSplit | src/dom_iterator.rs:22-71 | the walk of consecutive children splits at any child |
| Sync.NodeBinds | src/diff.rs:50-73 | with the corrected counter, every patch of a node pair is bound to the old node it was computed for |
| Sync.PairsBind | src/diff.rs:119-134 | the same for the pair loop |
| Sync.PairBinds | src/diff.rs:121-134 | the same for one pair |
| Sync.DiffResolves | src/apply.rs:18-33 | binding the corrected diff to the walk of the rendered old tree gives the path-addressed diff |
| Sync.RunDiff | src/apply.rs:11-38 | `apply` of the corrected diff on a rendered old tree runs the path-addressed diff |
| Sync.NodeModesAgree | src/diff.rs:66-69 | when no replaced old child has children and no shared attribute changes kind, both countings give the same patches |
| Sync.PairsModesAgree | src/diff.rs:119-134 | the same for the pair loop, under the same two hypotheses on the first `k` pairs |
| Sync.PairModesAgree | src/diff.rs:125-133 | the same for one pair, under the same two hypotheses on that pair |
| Sync.DiffResolvesSynced | src/diff.rs:137-141 | when no replaced old child has children and no shared attribute changes kind, the diff as written also binds every patch to its own old node |
| Sync.DesyncDiff | src/diff.rs:119-134 | the diff as written of `div[p["a"], "b"]` against `div["x", "c"]` addresses the second text as 2 |
| Sync.DesyncWalk | src/dom_iterator.rs:22-71 | the walk of the rendered old tree is root, `p`, `"a"`, `"b"` |
| Sync.DesyncResolve | src/apply.rs:18-33 | the walk binds address 1 to `p` and address 2 to `"a"` inside it |
| Sync.DesyncRun | src/apply.rs:11-38 | applying the two patches leaves `div[p["x"], "b"]`, and the detached `"a"` becomes `"c"` |
| Sync.CounterDesync | src/diff.rs:125-133 | as written, the second text is bound to the old `"a"` inside `p` rather than to `"b"`; the first patch has already taken `"a"` out of the document, so the document ends as `div[p["x"], "b"]` and only the detached node becomes `"c"`, where the path-addressed diff patches `"b"` |
| Sync.PanicResolve | src/apply.rs:18-33 | for `div[p["a"], span[]]` against `div["x", q[]]`, the replacement is bound to `"a"` inside `p` |
| Sync.CounterPanics | src/apply.rs:54-58 | applying that diff as written panics on `parent_node().unwrap()`: `"a"` has already been taken out of the document by the text content of `p` |
| Reconcile.ExecAllTouch | src/apply.rs:59-64 | a run of attribute patches on one element changes only that element, patch by patch |
| Reconcile.KeysRun | src/diff.rs:84-95 | the intended attribute patches of a key list bring exactly those keys to their new state |
| Reconcile.AttrsRun | src/diff.rs:75-96 | the intended attribute patches give the element exactly the new attributes and properties |
| Reconcile.CountRun | src/diff.rs:110-114 | the count patch keeps only the shared children of a shrinking list and appends the rendered new tail of a growing one, taking out only the children past the shared ones |
| Reconcile.PairsRun | src/diff.rs:119-134 | after `k` shared pairs, the first `k` children are rendered from the new children and the rest are as they were |
| Reconcile.PairRun | src/diff.rs:121-134 | one shared pair turns the rendered old child into the rendered new child |
| Reconcile.NodeRun | src/diff.rs:50-73 | the path-addressed diff of a node pair, run on the rendered old node, leaves the rendered new node and appends only trees |
| Reconcile.KeptRun | src/diff.rs:71-72 | the same for a node whose tag stays: attributes, child count, then the pairs |
| Reconcile.DiffThenApply | src/apply.rs:11-38 | `apply` of the intended `diff` on a subtree rendered from the old node leaves it rendered from the new node, and nothing else of the document or the forest changes; the same holds for the host as written when no element gives way to a text |
| Reconcile.AsWrittenDiffThenApply | src/diff.rs:40-48 | the source as written reconciles when no shared old child with children is replaced wholesale, no attribute changes kind and no element gives way to a text |
| Reconcile.KindSwitch | src/diff.rs:90-92 | as written, an attribute that becomes a property of the same value is only set as a property; the document keeps the old attribute, which the new tree does not have |
| Reconcile.TextOverElement | src/apply.rs:65-67 | as written, an element that gives way to a text keeps its place and gets the text as content, where the new tree has a plain text |

## Left out

- **Node identity.** A host node is its position in the forest, not an
  object. A handle follows its node when a patch takes the node, or a node
  above it, out of the document, and when an insert moves it
  (`TrackMoves`). The walk binds only nodes of the document
  (`PreOrderInside`), and a handle that names a node keeps naming one after
  every patch (`RetargetHolds`). `Exec` of a handle that names no node
  leaves the forest as it is; that case is a guard, not a source
  behaviour.
- **Key order.** The attribute diff visits keys in ascending order; a
  `HashSet` gives some order. Every stated attribute property holds for any
  duplicate-free order.
- **Integer width.** Addresses are unbounded integers. The source's `i32`
  counter, the `usize` to `i32` casts and the `zip(0i32..)` index would
  overflow past 2^31 nodes.
- **Host operations.** Attributes and properties act per key on two maps of
  the element. Their JavaScript effects are not modelled: reflected
  attributes, accessors, coercion.
- **Listeners and events.** Listeners, event dispatch and the message
  callback are not modelled. They take no part in diffing or equality, and
  they are not rendered onto live nodes.
- **Rendering.** Of src/root.rs only `create_element` is modelled, as
  `Materialize`. Mounting, the message receiver and the redraw loop are not
  part of this model. The listener installation at src/root.rs:116-118 is
  left out with the other listener handling.
- Live.Materialize: stores each attribute under its key in the node's
  attribute map. `create_element` sets it under the attribute's own `key`
  field. The two agree for every node whose attributes were added with
  `add_attribute`; `NodeBuilder.AddAttribute` preserves that
  (`KeyedByOwnKey`).
- **Debug logging.** The debug-only `js!` logging block in `apply_patch` is
  left out.
- **Keyed diff.** The disabled keyed-children diff (the comment block in
  src/diff.rs) is left out. No diff emits `Insert`.
- Apply.ExecInsert: states the intended insert, before child `pos`. The
  source calls `insert_before(&sibling, &new_child)`, which asks the host
  to put the existing child before the new node, and the new node is no
  child of the element. The host refuses the call. This model assumes a
  DOM binding whose `insert_before` returns a `Result`, which the source
  drops. So as written an insert before an existing child changes
  nothing. The binding is not part of this model; with one that panics
  on the refusal, the as-written insert would be a panic, not a no-op.
  The no-op is the `AsWritten` case of `Edit`. `InsertRefused` states
  it, and `Document.ApplyPatch` performs it in its `Insert` arm.
- **Walker panic.** The panic of the walker (src/dom_iterator.rs:57-62) is
  proved unreachable; `Climb` carries `assert false` in its place.
- **NodeIterator.** The duplicate walker `NodeIterator` in src/apply.rs:106-174
  is the same code as `DomIterator` and is modelled once.
- Apply.Document.Apply: on a failure while running the bound patches, the
  contract says which failure occurred. It does not say which earlier
  patches had already been applied; `ApplyAll` leaves them applied, as the
  source does.
- Apply.Document.ApplyAll: the same on a failure.
- Reconcile.DiffThenApply: assumes attribute maps keyed by each attribute's
  own key (`KeyedTree`), as `add_attribute` builds them, and a root whose
  tag stays when the subtree is the whole document, since a node without
  a parent cannot be replaced.

## Findings

| source | as written | input that shows it | evidently intended | confidence | as-written member | corrected member |
|---|---|---|---|---|---|---|
| src/diff.rs:66-69, 125-133 | a pair replaced wholesale (a tag change, or a text over a node) leaves the counter where it is, though the old node's descendants stay in the walk `apply` numbers | old `div[p["a"], "b"]`, new `div["x", "c"]`: the text `"c"` is addressed 2, the walk's index of `"a"` inside `p`; `"b"` is never updated and the document ends as `div[p["x"], "b"]` | the counter moves past the replaced old subtree, as it does for removed children at src/diff.rs:137-141, so that every address is the walk index of the old node compared | high (not executed) | Sync.CounterDesync | Sync.DiffResolves |
| src/diff.rs:66-69, 125-133 | the same counter, when the later patch is a replacement | old `div[p["a"], span[]]`, new `div["x", q[]]`: the replacement of `span` is bound to `"a"`, which the text content of `p` has taken out, and `parent_node().unwrap()` panics | the same | high (not executed) | Sync.CounterPanics | Reconcile.DiffThenApply |
| src/diff.rs:90-92 | a shared key whose attribute changes kind is only set in its new kind | old `div` with attribute `k`, new `div` with property `k` of the same value: the attribute stays on the element | remove the old attribute before setting the new one | medium (not executed) | Reconcile.KindSwitch | Reconcile.DiffThenApply |
| src/apply.rs:65-67 with src/diff.rs:130-131 | a new text where the old tree has an element becomes `set_text_content` on the element, which keeps the element | old `div[p[]]`, new `div["x"]`: the document ends as `div[p["x"]]` | the element gives way to a text node | medium (not executed) | Reconcile.TextOverElement | Reconcile.DiffThenApply |
| src/apply.rs:92-101 | `insert_before(&sibling, &new_child)` passes the existing child as the node to insert and the new node as the reference | an `Insert(0, v)` on an element with one child: the host refuses; with an `insert_before` that returns a `Result`, which the source drops, the element is unchanged | `insert_before(&new_child, &sibling)`, which puts the new node before child `pos` | medium (not executed) | Apply.InsertRefused | Apply.ExecInsert |
