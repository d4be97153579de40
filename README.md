# golang-range-search-bst: a verified model of the red-black tree engine

This project models `main.go` of golang-range-search-bst in Dafny. That file holds two things.

The first is a red-black tree with parent pointers. It maps keys, ordered by `IntComparator`, to payloads and offers these operations:
- `Get`, `Has` and `GetParent`, built on the descent `internalLookup`;
- `Put`, followed by the three-case `fixupPut` loop;
- `Delete`, built on `transplant` and `getMinimum` and followed by the four-case `fixupDelete` loop;
- `RotateLeft` and `RotateRight`;
- `Size`, through a counting visitor, and an in-order visitor that writes the tree as text.

Keys are checked by `mustBeValidKey`.

The second is an interval query over int keys: `getSplitNode`, `isLeaf` and `getValuesInRange`.

How the model is built:
- A subtree is the value `RB<V> = Nil | Node(color, key, payload, left, right)`.
- A node pointer is modelled by a zipper (`Zipper.Zip`): the subtree under the pointer together with the path of frames back up to the root. Following `parent`, re-linking a child slot and updating `t.Root` become operations on that path.
- The tree object is the class `RedBlackTree.Tree`. Its field `root` is reassigned by `Put`, `Delete` (and its corrected variant `DeleteRebalanced`), `RotateLeft` and `RotateRight`.
- The loops of `fixupPut`, `fixupDelete`, `getMinimum`, the two visitors and `getValuesInRange` are methods with loops or recursion.
- Each method is proved against specification functions. The entries of a tree are its in-order sequence `Inorder`. Put and Delete are specified by `InsertEntry` and `RemoveKey` on that sequence.
- The red-black rules are stated by `IsRBTree`: the root is Black, no Red node has a Red child, and the Black height is equal on all paths.

What is proved:
- Put and Delete keep the BST order.
- Put binds the key to the new payload and Delete removes it. Every other key keeps its payload.
- The size grows or shrinks by exactly one when the key set changes.
- Put keeps the red-black rules.
- Delete as written keeps a Black root and never gives a Red node a Red child, but it can leave unequal Black heights. The cause is the early return of `fixupDelete` on a nil `x`; see Findings.
- The corrected Delete (`Delete.Remove`, `RedBlackTree.Tree.DeleteRebalanced`) keeps all the red-black rules.
- Rotations keep the entries, do nothing on a nil node or a nil child, and undo each other.
- The in-order text determines a tree's links and keys and holds one dot per nil link.
- `mustBeValidKey` refuses exactly nil and the six reference kinds.
- The range query returns only keys of the tree, and only keys in range when the tree's keys are sorted. The query `[19, 77]` on the tree `main` builds yields `[37, 23, 19, 59, 70]`.

## Model

| member | source | states |
|---|---|---|
| RBTypes.ColorString | main.go:24-31 | true (Black) prints "Black", every other colour "Red" |
| RBTypes.DirectionString | main.go:33-51 | LEFT=1, RIGHT=2, NODIR=3 print "left", "right", "center"; every other byte prints "not recognized" |
| RBTypes.IntComparator | main.go:98-109 | the result is -1, 0 or 1, and negative, zero or positive exactly when o1 <, = or > o2 |
| RBTypes.RecolorInorder | main.go:379-380 | recolouring a node moves no entry |
| Lookup.LookupCorrect | main.go:226-239 | found holds only for a key of the tree, and for every present key on an ordered tree; on an empty tree the result is (false, nil, NODIR); when not found, the parent exists and its child on side dir is nil, with the key below (LEFT) or above (RIGHT) the parent's key |
| Lookup.LookupIsLocate | main.go:226-239 | the descent ends where the zipper descent Locate ends: found iff the focus is a node, and parent/dir are the focus's parent and side, or (nil, NODIR) at the root |
| Lookup.LocateOrdered | main.go:226-239 | on an ordered tree the descent stops on a node iff the key is present; when it stops at nil, every entry before the slot is below the key and every entry after it above: the slot is the BST insertion point |
| Lookup.LocatePlug | main.go:226-239 | the descent only moves the focus: plugging it back gives the same tree, and the focus is nil or holds the key |
| Lookup.LocateKeys | main.go:226-239 | a descent that stops on a node found a key of the tree |
| RedBlackTree.Tree.constructor | main.go:151-155 | NewTree starts with a nil root |
| RedBlackTree.Tree.GetParent | main.go:212-224 | an invalid key or an empty tree gives (false, nil, NODIR); found holds only for present keys and, on an ordered tree, for all of them; when not found the parent's child on side dir is the nil slot where the key belongs |
| RedBlackTree.Tree.GetNode | main.go:178-198 | found yields the node holding the key (the root when there is no parent, else the parent's child on side dir), and it is the node the descent stops on; not found yields nil; on an ordered tree found iff the key is present |
| RedBlackTree.Tree.Get | main.go:162-176 | on an ordered tree the result is the payload the entry sequence binds to the key, and nothing for an absent or invalid key |
| RedBlackTree.Tree.Has | main.go:449-457 | true only for a present key, and on an ordered tree for every present int key |
| RedBlackTree.LocateFind | main.go:178-198 | the payload of the node the descent stops on is the one the entry sequence binds to the key; stopping at nil means the key is unbound |
| Rotations.RotateLeftTree | main.go:271-300 | the in-order entries are unchanged; a nil node or nil Right child is a no-op |
| Rotations.RotateRightTree | main.go:240-269 | the in-order entries are unchanged; a nil node or nil Left child is a no-op |
| Rotations.RotateInverse | main.go:240-300 | RotateRight undoes a RotateLeft that took effect, and the converse |
| Rotations.RotateAtInorder | main.go:240-300 | rotating at any node keeps the entries of the whole tree |
| Rotations.RotateAtInverse | main.go:240-300 | at any address whose node and Right child exist, RotateRight there undoes RotateLeft there |
| Rotations.RotateAtRoot | main.go:241-300 | for both rotations, below the root the root node keeps colour, key and payload (t.Root is untouched); at the root the promoted child becomes the new root (t.Root = x in RotateRight, t.Root = y in RotateLeft) |
| Rotations.ReplaceSameInorder | main.go:255-267 | re-linking one subtree by a subtree with the same entries keeps the entries of the whole tree |
| RedBlackTree.Tree.RotateLeft | main.go:271-300 | the new root is the old tree rotated left at the node's address; entries are kept; t.Root changes only when the rotated node was the root |
| RedBlackTree.Tree.RotateRight | main.go:240-269 | the new root is the old tree rotated right at the node's address; entries are kept; t.Root keeps its node when the rotated node is below the root, and at the root the Left child becomes t.Root |
| Insert.FixupPut | main.go:357-440 | from a Red z under a tree that is red-black except possibly a Red-Red edge above z, the loop ends with entries unchanged, a Black root, no Red-Red edge and equal Black heights |
| Insert.FixupPutLeft | main.go:382-409 | one pass with the parent as the grandparent's Left child (the grandparent exists because the parent is Red): entries kept, the pending invariant kept, the path shorter |
| Insert.FixupPutRight | main.go:410-436 | the mirror-image pass, with the same guarantees |
| Insert.Case1 | main.go:386-394 | case 1 (uncle Red) recolours and moves z to the grandparent, keeping the pending invariant |
| Insert.Case3Left | main.go:402-406 | case 3 recolours the parent Black and the grandparent Red and rotates at the grandparent; the pending invariant then holds with a Black parent, so the loop ends |
| Insert.Case23Left | main.go:396-406 | case 2 (rotate at the parent, z moves down) followed by case 3 leaves the pending invariant with a Black parent, so the loop ends |
| Insert.Case3Right | main.go:429-433 | mirror image of Case3Left |
| Insert.Case23Right | main.go:423-433 | mirror image of Case23Left |
| Insert.Attach | main.go:324-343 | the new Red node in the nil slot found by the descent gives the entries of InsertEntry, hangs under a path ending in a Black root, and starts the fixup from a valid state |
| Insert.Overwrite | main.go:313-327 | overwriting a present key's payload keeps the shape and colours and gives the entries of InsertEntry |
| Insert.ReplacePayloadShape | main.go:313-327 | changing a payload in place keeps the links, the colours and the red-black rules |
| Insert.ReplacePayloadOrder | main.go:313-327 | changing the payload of the node holding a key yields InsertEntry of that key on the entries |
| Insert.PutEntry | main.go:305-346 | the root ends Black; an existing key keeps the shape; on an ordered tree the entries become InsertEntry(entries, key, data); a red-black tree stays red-black |
| RedBlackTree.Tree.Put | main.go:302-346 | an invalid key returns its error and changes nothing; otherwise the entries become InsertEntry, Get(key) returns data, every other key keeps its payload, the size grows by one exactly for a new key, an overwrite keeps the shape, and a red-black tree stays red-black |
| Mapping.InsertIncreasing | main.go:305-346 | Put keeps the keys strictly increasing and adds only its key |
| Mapping.InsertKeys | main.go:305-346 | Put adds its key and no other |
| Mapping.FindInsert | main.go:305-346 | Get after Put: the key maps to the new payload, every other key keeps its payload |
| Mapping.InsertLength | main.go:305-346 | Size after Put: unchanged for an existing key, one more for a new one |
| Mapping.InsertAtEntry | main.go:313-327 | overwriting an entry in place is InsertEntry of its key |
| Mapping.InsertBetween | main.go:328-343 | a new key lands between the entries below it and those above it |
| Mapping.FindKeys | main.go:164-176 | lookup finds a payload exactly for keys of the sequence |
| Mapping.FindAtEntry | main.go:178-198 | in a strictly increasing sequence the lookup of an entry's key finds that entry's payload |
| Delete.GetMinimum | main.go:200-210 | the loop ends on the node with no Left child reached by Left links only; the tree is unchanged, that node's entries come first in x's subtree, and in an ordered subtree it holds the least key |
| Delete.MinimumIsLeast | main.go:200-210 | in an ordered tree the first entry in order holds the least key |
| Delete.Transplant | main.go:459-470 | v takes u's slot: its entries stand where u's stood, it becomes the root when u had no parent, and otherwise the root keeps its colour |
| Delete.Unlink | main.go:474-520 | the one-child and successor-splice cases leave exactly the entries of z's subtree minus z; when a Black node left, x's slot is one Black short; when a Red node left, the tree is red-black |
| Delete.OneChildEntries | main.go:459-496 | one child: transplant(z, child) leaves the entries of z minus z |
| Delete.TwoChildEntries | main.go:497-520 | two children: after the successor splice the entries are those of z minus z |
| Delete.TwoChildColors | main.go:497-520 | two children: the successor takes z's colour, so only the successor's colour can unbalance the tree |
| Delete.RemoveOneChild | main.go:482-496 | removing a node with at most one child leaves a slot one Black short when the node was Black, and a red-black tree when it was Red |
| Delete.SiblingExists | main.go:543-580 | in a tree one Black short at x, x's sibling w is not nil |
| Delete.DelCase1R | main.go:543-550 | case 1 (w Red) recolours and rotates right at the parent, keeping the entries and the one-Black-short invariant, with a new Black sibling |
| Delete.DelCase1L | main.go:580-587 | mirror image of DelCase1R |
| Delete.DelCase2R | main.go:553-557 | case 2 recolours w Red and moves x up, keeping the entries and the invariant |
| Delete.DelCase2L | main.go:590-594 | mirror image of DelCase2R |
| Delete.DelCase3R | main.go:558-565 | case 3 recolours and rotates left at w, keeping the entries and the invariant, and gives a sibling whose Left child is Red |
| Delete.DelCase3L | main.go:595-602 | mirror image of DelCase3R |
| Delete.DelCase4R | main.go:567-574 | case 4 recolours and rotates right at the parent, keeping the entries, and leaves a red-black tree |
| Delete.DelCase4L | main.go:604-611 | mirror image of DelCase4R |
| Delete.FinishDelete | main.go:533-540 | the loop ends at the root or a Red x; x.color = BLACK then leaves a red-black tree |
| Delete.RebalanceDelete | main.go:532-617 | the fixupDelete loop, started also from a nil x: entries kept; from a tree one Black short at x it never stalls and ends red-black |
| Delete.FixupDelete | main.go:527-618 | as written: a nil x returns the tree unchanged, which still has a Black root and no Red-Red edge when x's slot was one Black short; a non-nil x one Black short is rebalanced to a red-black tree |
| Delete.NilFixupUnbalances | main.go:529-531 | deleting 1 from the all-Black tree 2(1, 3) leaves x nil and 2 with unequal Black heights, although the rebalancing loop would repair that state |
| Delete.RemoveAsWritten | main.go:472-525 | Delete as written: an absent key changes nothing; on an ordered tree the entries become RemoveKey(entries, key) and stay ordered; from a red-black tree it never hangs and leaves a Black root and no Red-Red edge |
| Delete.Remove | main.go:472-525 | Delete with the nil-x return corrected: an absent key changes nothing; on an ordered tree the entries become RemoveKey(entries, key); a red-black tree stays red-black |
| Delete.UnlinkEntries | main.go:474-520 | taking the located node out of an ordered tree leaves exactly the entries RemoveKey keeps, still strictly increasing |
| Delete.AbsentKey | main.go:475-478 | an absent key leaves the entries of an ordered tree as they are |
| RedBlackTree.Tree.Delete | main.go:472-525 | Delete as written: an absent key changes nothing; on an ordered tree the entries become RemoveKey, the key is gone (Has is false), every other key keeps its payload, the size drops by one exactly when the key was present; from a red-black tree it never hangs and leaves a Black root and no Red-Red edge |
| RedBlackTree.Tree.DeleteRebalanced | main.go:472-531 | Delete with the nil-x return of fixupDelete corrected: the same entry, key and size facts as Delete, and a red-black tree stays red-black |
| Mapping.RemoveIncreasing | main.go:472-525 | Delete keeps the keys strictly increasing and drops exactly its key |
| Mapping.FindRemove | main.go:472-525 | Get after Delete: the key is unbound, every other key keeps its payload |
| Mapping.RemoveLength | main.go:472-525 | Size after Delete: one fewer exactly when the key was present |
| Mapping.RemoveAtEntry | main.go:474-520 | removing an entry's key from a strictly increasing sequence removes just that entry |
| Mapping.RemoveMissing | main.go:475-478 | removing an absent key changes nothing |
| Visitors.CountingVisitor.constructor | main.go:627-629 | the count starts at zero |
| Visitors.CountingVisitor.Visit | main.go:631-639 | the count grows by the number of nodes of the subtree |
| RedBlackTree.Tree.WalkCounting | main.go:620-623 | Walk hands the root to the visitor: the count grows by the tree's size |
| RedBlackTree.Tree.Size | main.go:442-447 | Size is the number of nodes (entries) of the tree |
| Visitors.InorderVisitor.constructor | main.go:644-646 | the buffer starts empty |
| Visitors.InorderVisitor.Visit | main.go:663-674 | the buffer grows by the text of the subtree: "." for nil, "(" left key right ")" for a node |
| RedBlackTree.Tree.WalkInorder | main.go:620-623 | Walk with an InorderVisitor appends the text of the whole tree |
| Visitors.InorderVisitor.Eq | main.go:648-653 | Eq is false for a nil other and otherwise compares the two texts |
| Visitors.Ser | main.go:663-674 | the text of nil starts with "." and that of a node with "(" |
| Visitors.Itoa | main.go:670 | %d writes a minus sign exactly for negative numbers, then decimal digits |
| Visitors.ItoaRoundTrip | main.go:670 | reading the decimal text of %d back gives the number |
| Visitors.ItoaPrefix | main.go:670 | a numeral followed by a non-digit cannot be confused with another numeral |
| Visitors.SerPrefix | main.go:663-674 | the text of a subtree is self-delimiting: equal texts followed by anything mean the same links and keys and the same rest |
| Visitors.SerInjective | main.go:663-674 | two trees write the same text exactly when they have the same links and keys, so Eq compares tree shapes and keys |
| Visitors.SerCountsNodes | main.go:663-674 | the text of a tree with n nodes holds exactly n + 1 dots, Size() + 1 |
| KeyValidation.ErrorString | main.go:676-679 | the two error messages, verbatim |
| KeyValidation.MustBeValidKey | main.go:681-703 | nil gives ErrorKeyIsNil; a key of kind Chan, Func, Interface, Map, Ptr or Slice gives ErrorKeyDisallowed; every other key passes |
| KeyValidation.IntKeysValid | main.go:681-703 | every int passes, and the kinds that pass are exactly the twenty that are not the six reference kinds (Array, Int and String among them) |
| RangeQuery.SplitNode | main.go:705-722 | a returned node is in range and lies in the tree; a node in range is returned itself; a childless node out of range gives nil |
| RangeQuery.LeftWalk | main.go:751-770 | the going-left loop stops at a leaf, and every node it appended exists |
| RangeQuery.RightWalk | main.go:772-789 | the going-right loop stops at a leaf, and every node it appended exists |
| RangeQuery.GoLeft | main.go:751-770 | the loop appends the nodes and stops at the leaf LeftWalk describes |
| RangeQuery.GoRight | main.go:772-789 | the loop appends the nodes and stops at the leaf RightWalk describes |
| RangeQuery.RangeNodes | main.go:731-790 | every collected node exists |
| RangeQuery.GetValuesInRange | main.go:731-798 | the keys returned are those of the collected nodes, in order; no split node gives an empty list |
| RangeQuery.LeftWalkSound | main.go:751-770 | every key the going-left walk collects is a key of its subtree, and on a sorted subtree bounded above by hi it lies in [x1, hi] |
| RangeQuery.RightWalkSound | main.go:772-789 | every key the going-right walk collects is a key of its subtree, and on a sorted subtree bounded below by lo it lies in [lo, x2] |
| RangeQuery.RangeSound | main.go:731-798 | every returned key is a key of the tree, and on a tree with sorted keys every returned key lies in [x1, x2] |
| RangeQuery.SubtreeFacts | main.go:705-722 | a subtree's keys are keys of the tree, and it is sorted when the tree is |
| RangeQuery.SampleQuery | main.go:806-842 | the query [19, 77] on the tree main builds runs without a nil dereference and returns [37, 23, 19, 59, 70] |
| RangeQuery.SampleMissesRightRange | main.go:705-722 | on the same tree the left-first split search finds no split node for [59, 62], although 59 and 62 are keys right of the root, and the query returns [] |

## Left out

- Logging (`logger`, `lock`, `TraceOn`, `TraceOff`, `SetOutput`, every `Printf`) is I/O plus a mutex around it and is not modelled.
- `printToJSON`, the JSON tags and `main` are I/O. `main` appears only as the fixture tree `RangeQuery.Sample`.
- `StringComparator`, `NewTreeWith` and user-supplied comparators are not modelled. The tree is always ordered by `IntComparator` on `int` keys, which is what `NewTree` sets up.
- `Node.String`, `Parent`, `SetColor`, `Color`, the unused `Leaf` field and the dead `trim` are cosmetic or unused and are not modelled.
- The `Visitor` interface is replaced by the two concrete visitors, with one `Walk` method for each.
- Pointer identity, aliasing and the `parent` field are represented by the zipper path. A node pointer is named by its address from the root in `RotateLeft` and `RotateRight`, and by its zipper inside the fixup loops. The model does not capture that other pointers into the same nodes observe the in-place updates.
- Keys: a Go `interface{}` key is modelled as `KeyValidation.Key`, which is nil, an `int`, or a value of another reflect kind. `reflect` becomes the `Kind` enum.
- Go's `int` is 64-bit, and `Count` is a `uint64` that could wrap. The model uses unbounded integers, since no tree can hold 2^64 nodes.
- The `default` branch of `internalLookup` cannot be reached, because `IntComparator` always returns -1, 0 or 1. It is left out of `Lookup.InternalLookup`.
- `getNode`'s final nil check cannot fail once the descent has found the key (`Lookup.LookupIsLocate`), so `RedBlackTree.Tree.GetNode` returns the child directly.
- The debug logging flag of the range query is not modelled.
- RedBlackTree.Tree.GetParent, RedBlackTree.Tree.GetNode, RedBlackTree.Tree.Get, RedBlackTree.Tree.Has, RedBlackTree.Tree.Delete, RedBlackTree.Tree.DeleteRebalanced: these require the key to be an `int` or refused by `mustBeValidKey`, unless the tree is empty. A valid key of another type makes `IntComparator` panic on its type assertion.
- RedBlackTree.Tree.Put: requires an `int` key or one refused by `mustBeValidKey`. Go accepts any valid key into an empty tree, after which every comparison panics. It also requires a root that is not Red. `fixupPut` reads the grandparent of a Red parent, which a Red root lacks. A Red root cannot arise from `NewTree`, `Put` and `Delete`, only from a direct rotation.
- RedBlackTree.Tree.Delete, Delete.RemoveAsWritten: they do not promise equal Black heights afterwards, because the Go code does not restore them when x is nil (see Findings); the corrected variants `RedBlackTree.Tree.DeleteRebalanced` and `Delete.Remove` do.
- RedBlackTree.Tree.Delete, RedBlackTree.Tree.DeleteRebalanced, Delete.RebalanceDelete, Delete.FixupDelete: if x's sibling is nil, no case of the Go loop applies and it spins forever. The model stops and reports `hangs`, which it proves false on every red-black tree. It does not model the non-termination itself.
- RangeQuery.GetValuesInRange: requires `RangeSafe`, that is, every node each walk passes has the child it dereferences, and the split node is not a leaf. Go panics otherwise: it takes `Vs.Right` of a leaf and reads `isLeaf` of nil.
- RangeQuery.SplitNode: modelled as written, as a left-first descent that never compares against the range. A tree built by Put holds each key once, while the range query's fixture repeats keys in its leaves. So the model proves soundness of the query (`RangeQuery.RangeSound`), not completeness. `RangeQuery.SampleMissesRightRange` shows a range the query misses.

## Findings

| source | as written | input that shows it | evidently intended | confidence | as-written member | corrected member |
|---|---|---|---|---|---|---|
| main.go:529-531 | `fixupDelete` returns at once when `x` is nil, so deleting a Black node whose replacement is a nil child never restores Black heights | Delete key 1 from the all-Black tree 2(1, 3). z = 1 has no Left child, so x = nil. The result 2(nil, 3) has Black height 1 on the left and 2 on the right | run the rebalancing loop from x's slot, using x's parent, as RB-DELETE-FIXUP does | not executed | Delete.FixupDelete, Delete.RemoveAsWritten, RedBlackTree.Tree.Delete, Delete.NilFixupUnbalances | Delete.RebalanceDelete, Delete.Remove, RedBlackTree.Tree.DeleteRebalanced |
