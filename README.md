# Identifier registry of uuid-generator, in Dafny

The generator returns random 128-bit identifiers and promises never to return one
twice while a process runs. It enforces this with a registry of every identifier
issued so far. The registry, `UUIDTree`, is an unbalanced binary search tree of
`UUIDNode`s. It has three operations:

- `find`, a membership walk;
- `insert`, which rejects duplicates and hangs a new leaf in an empty slot;
- `delete`, which walks to the key and re-links the slot that held it in four cases: no
  child, only lesser, only greater, or both. Its comments describe re-linking the
  parent's slot, or the root when the node is the root. As written, the walk never
  updates `parent`, so the root is re-pointed every time (see Findings).

In the both-children case the node's lesser subtree takes its place. The greater
subtree is then grafted, whole, into the first empty slot found by descending the
lesser subtree. `UUIDGenerator` draws candidates until `insert` accepts one, and passes
`exists` and `delete` through to the tree. `UUIDGeneratorDict` offers the same interface
over a dictionary.

The model has seven modules:

- `TreeModel` (tree_model.dfy) holds the value-level picture:
  - the node record `UUIDNode(uuid, lesser, greater)`;
  - links `NodeRef = Nil | At(index)`;
  - the abstract `Tree` that node records spell out from a link;
  - the ordering and no-sharing predicates;
  - reference definitions `TreeInsert`, `SendDown` (the intended graft) and `TreeDelete`;
  - lemmas saying what these do to the key set, the ordering and the walk order.
- `Arena` (arena.dfy) holds the proof tools for walking with a cursor: a path of
  frames from the root, and what still holds when one slot on that path is
  re-pointed.
- `Registry` (registry.dfy) is the class `UUIDTree`:
  - its fields are `root: NodeRef` and `nodes: seq<UUIDNode>`, the node store;
  - a ghost `tree` holds the abstract view, and `Valid()` ties it to the fields
    (the arena spells `tree` from `root`, `tree` is strictly ordered, no node is
    shared);
  - its methods are the source's `while` loops, updating node records in place
    and proved against the reference definitions.
- `Issuer` (issuer.dfy) holds `UUIDGenerator` over the tree and `UUIDGeneratorDict`
  over a `map<int, bool>`. Both are specified by the same function `Issue` of the
  issued set and the draws, so the dictionary one is a reference for the tree one.
- `SendDownDefect` (send_down_defect.dfy) holds the graft loop exactly as written, and
  two inputs on which it fails (see Findings).
- `DeleteDefect` (delete_defect.dfy) holds `delete` exactly as written, with `parent`
  always None, and three inputs on which it loses keys or never returns (see Findings).
- `Scenarios` (scenarios.dfy) holds client runs proved from the contracts alone:
  - insert then contains;
  - insert twice;
  - delete then contains;
  - deleting a leaf keeps its parent;
  - the seven-key two-children delete;
  - the benchmark's "every generated id exists" check.

Node identity is the arena index. Python's `parent.lesser == node` is an identity test
and becomes a comparison of links. Keys are unbounded integers, as in Python. Only
`generate` confines them to `[0, 2^128 - 1]`, and only through the range of its draws.

## Model

| member | source | states |
|---|---|---|
| Registry.UUIDTree.constructor | src/generator.py:32-33 | A new registry is empty and valid. |
| Registry.UUIDTree.Find | src/generator.py:36-51 | Returns true exactly when the key is in the registry. It has no modifies clause, so no root or node field changes. |
| Registry.UUIDTree.InsertFromNode | src/generator.py:54-77 | From the root, returns true exactly when the key was absent. The key set becomes old plus the key. The ordering and no-sharing invariants hold afterwards. On a duplicate, nothing changes. Otherwise exactly one empty lesser or greater slot is filled with a fresh leaf record, and no other record changes. |
| Registry.UUIDTree.Insert | src/generator.py:101-110 | Same as InsertFromNode. On an empty registry, the new leaf becomes the root and nothing else changes. |
| Registry.UUIDTree.SendDownFromNode | src/generator.py:80-98 | The intended graft. Starting at from_node, it descends by comparison with node's key and attaches node, with its whole subtree, at the first empty slot. The arena then spells `SendDown(a, b)`. Exactly one empty slot inside the lesser subtree was filled, with a link to node. |
| Registry.UUIDTree.Relink | src/generator.py:131-140 | For the parent that the corrected walk tracks, re-points the slot that holds the found node (the parent's lesser or greater link, picked by identity, or the root) at the replacement. The walked tree then has the replacement in the node's place. Only the parent's record (or the root) changes. The same block is repeated at lines 147-155, 160-168 and 173-181. |
| Registry.UUIDTree.RemoveNode | src/generator.py:127-183 | The four child cases. Afterwards the tree is the walked tree with the node replaced by `RemoveRoot`: with both children, the lesser subtree with the greater one sent down into it; with only lesser, the lesser subtree; with only greater, the greater subtree; with none, an empty slot. |
| Registry.UUIDTree.Delete | src/generator.py:113-190 | The delete its comments describe, with the parent tracked down the walk (the corrected half of Findings row 3). Returns true exactly when the key was present. The key set becomes old minus the key. Ordering and no-sharing hold afterwards, and the tree is `TreeDelete(old tree, key)`. On an empty registry or an absent key, root and arena are unchanged. |
| TreeModel.SearchStep | src/generator.py:41-49 | On an ordered tree, a key is present exactly when it is at this node, or below on the side one comparison picks. |
| TreeModel.InsertKeys | src/generator.py:54-77 | Insert adds exactly the key to the key set. |
| TreeModel.InsertPresent | src/generator.py:58-59 | On an ordered tree, inserting a key already present returns the very same tree. |
| TreeModel.InsertOrdered | src/generator.py:61-75 | Insert keeps the strict ordering: lesser keys < node key < greater keys. |
| TreeModel.InsertIds | src/generator.py:65-75 | An absent key gets exactly one new node at the fresh index, and no node becomes shared. |
| TreeModel.InsertOnlyHangsLeaf | src/generator.py:61-75 | Taking the new leaf away gives back the old tree exactly: no existing link changed. |
| TreeModel.SendDownKeys | src/generator.py:142-143 | The graft keeps every key of both subtrees. |
| TreeModel.SendDownOrdered | src/generator.py:83-98 | Grafting a subtree whose key range holds no key of the target keeps the ordering. |
| TreeModel.SendDownIds | src/generator.py:89-97 | The graft keeps every node at its own index, with none shared. |
| TreeModel.SendDownRoot | src/generator.py:140-143 | Grafting into a non-empty subtree keeps its root, so the slot set at line 134, 136 or 140 stays right. |
| TreeModel.GreaterFitsInLesser | src/generator.py:127-130 | In an ordered node every greater key exceeds every lesser key, so the greater subtree fits in one slot of the lesser one. |
| TreeModel.SendDownInOrder | src/generator.py:142-143 | A subtree lying above every key of the target is grafted after all of the target in walk order. |
| TreeModel.RemoveRootFacts | src/generator.py:127-183 | Replacing a found node, in any of the four cases, removes exactly its key and its index. Ordering and no-sharing still hold. |
| TreeModel.RemoveRootInOrder | src/generator.py:127-183 | Replacing a found node keeps the walk order of all the other keys. |
| TreeModel.DeleteKeys | src/generator.py:113-190 | Delete takes exactly the key out of the key set. |
| TreeModel.DeleteValid | src/generator.py:113-190 | Delete keeps ordering and no-sharing and uses no new index. |
| TreeModel.DeleteAbsent | src/generator.py:185-190 | Deleting an absent key returns the same tree. |
| Issuer.FirstFresh | src/generator.py:225-228 | Gives the position of the first draw not already issued; all earlier draws were issued. None means every draw collided. |
| Issuer.IssueFresh | src/generator.py:220-228 | An issued value lies in `[0, 2^128)` and was not issued before. |
| Issuer.UUIDGenerator.constructor | src/generator.py:206-209 | A new generator owns a fresh, empty registry. |
| Issuer.UUIDGenerator.Generate | src/generator.py:220-228 | Returns the first draw that insert accepts. The value is in range and was not issued before, and afterwards it is issued. If every draw collides, nothing changes. |
| Issuer.UUIDGenerator.Exists | src/generator.py:231-236 | True exactly when the key is issued. |
| Issuer.UUIDGenerator.Delete | src/generator.py:239-244 | True exactly when the key was issued. Afterwards it no longer is. |
| Issuer.UUIDGeneratorDict.constructor | src/generator.py:259-262 | Starts with an empty dictionary. |
| Issuer.UUIDGeneratorDict.Generate | src/generator.py:273-282 | Same contract as the tree generator's Generate. Every stored value stays True. |
| Issuer.UUIDGeneratorDict.Exists | src/generator.py:285-290 | True exactly when the key is a dictionary key. |
| Issuer.UUIDGeneratorDict.Delete | src/generator.py:293-301 | True exactly when the key was present. Afterwards it is gone. |
| Issuer.GenerateAgrees | src/generator.py:273-282 | Given the same issued set and the same draws, the dictionary generator and the tree generator return the same identifier and end with equal issued sets. |
| SendDownDefect.SevenIsInserted | src/generator.py:101-110 | Inserting 50, 30, 70, 20, 40, 60, 80 in order builds the seven-node arena used in Findings, and it is a valid registry. |
| SendDownDefect.SendDownAsWritten | src/generator.py:80-98 | The graft loop line for line: it compares and tests `from_node` but steps to `node`'s children, and it can dereference None or loop. When it returns, only `node`'s record has changed: its key is kept and at most one of its two links is rewritten, pointing into the arena. |
| SendDownDefect.AsWrittenLosesKey | src/generator.py:80-98 | On the arena the seven inserts build, the graft of line 143 starts with from_node = 20 and node = 40. Line 140 changes only the root, so the arena is unchanged at that point. As written, the graft sets 40's greater link to 20. Record 3, which takes 30's place, then reaches only 20, so 40 is lost whichever link leads to it. |
| SendDownDefect.IntendedKeepsKeys | src/generator.py:127-144 | The intended delete of 30 on the same input keeps 20, 40, 50, 60, 70 and 80 in an ordered tree. |
| SendDownDefect.EightIsInserted | src/generator.py:101-110 | Inserting 30, 20, 40, 25, 35, 45, 37, 42 in order builds exactly the tree that the eight-node arena spells. |
| SendDownDefect.AsWrittenDiverges | src/generator.py:80-98 | On the eight-node input, as written, the loop is still running after any number of iterations. |
| SendDownDefect.Cycle | src/generator.py:84-94 | The two cursor positions the as-written loop alternates between never leave the loop. |
| SendDownDefect.IntendedTerminates | src/generator.py:138-143 | The intended delete of the root 30 on that input hangs 40's subtree under 25, keeps every other key, and stays ordered. |
| DeleteDefect.DeleteAsWritten | src/generator.py:113-190 | `delete` line for line, with `parent` None throughout because nothing after line 121 assigns it. On an empty registry it reports not found. When it deletes, the new root is the found record's lesser child if it has one, otherwise its greater child, whatever the depth of the found record. The arena keeps its size and all links stay in range. |
| DeleteDefect.DeleteFrom | src/generator.py:123-190 | The walk of lines 123-190 from a cursor. Its contract is the same as DeleteAsWritten's. |
| DeleteDefect.TwoKeysIsInserted | src/generator.py:101-110 | Inserting 50 then 30 builds the two-node arena, and it is a valid registry. |
| DeleteDefect.AsWrittenEmptiesTree | src/generator.py:121-188 | As written, deleting the leaf 30 reaches line 181 with `parent` None and sets the root to None. The registry is then empty, and 50 is lost. |
| DeleteDefect.IntendedKeepsParent | src/generator.py:173-178 | The intended delete of 30 on that input clears 50's lesser slot and keeps 50. |
| DeleteDefect.AsWrittenKeepsOnlyTwenty | src/generator.py:121-143 | As written, deleting 30 from the seven-key arena makes record 3 (20) the root at line 140, and the graft hangs 20 under 40. Only 20 is reachable, so 40, 50, 60, 70 and 80 are lost. |
| DeleteDefect.AsWrittenRootDeleteDiverges | src/generator.py:121-143 | As written, deleting the root 30 from the eight-key arena never returns, for any iteration budget. |
| Scenarios.RoundTrip | src/generator.py:101-190 | On a fresh registry: insert reports true, then false; delete reports true; find then reports false; a second delete reports false. |
| Scenarios.BuildSeven | src/generator.py:101-110 | Seven inserts give a registry holding exactly those seven keys. |
| Scenarios.DeleteWithTwoChildren | src/generator.py:127-144 | With the corrected delete and graft: after deleting 30 from the seven-key registry, find reports 50, 70, 20, 40, 60 and 80 present and 30 absent. |
| Scenarios.DeleteLeafKeepsParent | src/generator.py:170-183 | With the corrected delete: after inserting 50 and 30 and deleting the leaf 30, delete reports true and find(50) reports true. |
| Scenarios.GeneratedExists | test.py:11-16 | An identifier kept from one generate still exists after a second generate, and the two identifiers differ. |

## Left out

- `random.randint`, `random.seed` and the `seed` methods (src/generator.py:212-217,
  265-270), and the constructors' optional seed. The global pseudo-random source is
  replaced by an explicit sequence of draws.
- Issuer.UUIDGenerator.Generate: where the source keeps drawing for ever, this model
  tries only the finite sequence of draws it is given, and returns None when every
  draw collides. Termination of the retry loop is not modelled.
- Issuer.UUIDGeneratorDict.Generate: the same finite-draws limitation as the tree
  generator.
- `UUIDNode.to_dict`, `UUIDTree.toJSON`, `__str__` and `__repr__`. These serialise
  through the `json` library, for inspection only.
- The timing harness in test.py (`timeit`, `numpy.average`, prints). Only its
  "every generated id exists" assertion is modelled, as Scenarios.GeneratedExists.
- Allocation failure. The arena always grows by one record on insert.
- Memory reclamation. A deleted node's record stays in the arena, unreachable.
  Python's garbage collector is not modelled.
- The unreachable `return False` after the loop of `_insert_from_node`
  (src/generator.py:77). The loop's cursor is never None, so the model's loop is
  `while true`.
- Scenarios.DeleteWithTwoChildren: runs the corrected delete. As written, the same run leaves
  only 20 reachable, which DeleteDefect.AsWrittenKeepsOnlyTwenty states.
- Scenarios.DeleteLeafKeepsParent: runs the corrected delete. As written, the same run
  empties the registry, which DeleteDefect.AsWrittenEmptiesTree states.
- Registry.UUIDTree.Delete: models the delete its comments describe, re-linking the tracked
  parent's slot. The as-written delete, which always re-points the root, is modelled
  only in DeleteDefect (see Findings).
- The four copies of the parent re-linking block in `delete` are modelled once, as
  Relink. The found-node branch (src/generator.py:126-183) is a separate method,
  RemoveNode.
- The graft is modelled as its comments intend: "send the other node down the tree",
  "append the new node to the end of the tree". The loop as written is modelled only
  in SendDownDefect (see Findings). In valid trees every greater key exceeds every
  lesser key, so the intended graft always descends the greater side, but the model
  keeps both comparisons.

## Findings

| source | as written | input that shows it | evidently intended | confidence | as-written member | corrected member |
|---|---|---|---|---|---|---|
| src/generator.py:84-97 | The loop tests and compares `from_node`, but steps to `node.lesser` / `node.greater` (lines 86, 94). It writes `from_node` into `node` (lines 89, 97), hanging the lesser subtree under the greater subtree's unreachable root. | Insert 50, 30, 70, 20, 40, 60, 80, then delete 30. The graft sets 40.greater = 20, and record 3 (20), which takes 30's place, reaches only itself, so 40 is lost. Because of row 3, line 140 also makes 20 the root, so 50, 60, 70 and 80 are lost as well (DeleteDefect.AsWrittenKeepsOnlyTwenty). | Descend the grafted lesser subtree by comparison with the greater root, and attach that root at the first empty slot. | not executed; high | SendDownDefect.AsWrittenLosesKey | Registry.UUIDTree.SendDownFromNode |
| src/generator.py:86-94 | Because the cursor is reloaded from `node`'s children, it never makes progress. | Insert 30, 20, 40, 25, 35, 45, 37, 42, then delete 30. The cursor cycles 20, 45, 35, 45, ... without end. | Same as above. The descent ends at the first empty slot of the lesser subtree. | not executed; high | SendDownDefect.AsWrittenDiverges | SendDownDefect.IntendedTerminates |
| src/generator.py:121, 185-188 | `parent` is set to None at line 121 and never reassigned, because the walk at lines 185-188 moves only `node`. Every `if parent:` test (lines 131, 147, 160, 173) fails, so the found node's replacement becomes the root (lines 140, 155, 168, 181) whatever its depth. | Insert 50, 30, then delete 30. Line 181 sets the root to None, and find(50) then returns False. | Set `parent = node` before each step down, so the parent's slot is re-linked and the rest of the tree is kept. This is what the comments at lines 132 and 138-139 say. | not executed; high | DeleteDefect.AsWrittenEmptiesTree | Registry.UUIDTree.Delete |

The docstring of `delete` (src/generator.py:115-116) and the comments on its branches
(lines 132, 138-139, 142) describe the corrected delete and graft. The comments in the graft
(lines 88, 96) describe it too. Registry, TreeModel, Issuer and Scenarios follow those
comments for `delete` and `_send_down_node_from_node`, and follow the code everywhere else.
SendDownDefect and DeleteDefect model the two loops exactly as written.
