# mini-rowan core in Dafny

This project models the core of mini-rowan, a small library of lossless syntax trees for language tooling. The tree has two layers:

- The **green tree** is immutable and position-free. A node holds its kind and an ordered run of children, and each child is a node or a token. A token holds its kind and its text. A node's length is the sum of its children's lengths.
- The **red tree** is a view built on the fly over a green tree. Each red node or token adds its parent, its index among the parent's children and its absolute text offset.

An edit through a red node copies only the path from the edit up to the root. It returns a new red root, and the old tree stays as it was. Underneath, every green value is shared through an atomically reference-counted pointer, `Arc`.

Modules: one per core source file (src/lib.rs gives two, its types and its test), plus a prelude and the green stand-in:

- `Prelude` (prelude.dfy): `Option`, and the `usize`/`u16` widths with `usize::MAX` and `isize::MAX` of a 64-bit target.
- `NodeOrTokens` (node_or_token.dfy): the `NodeOrToken` sum type and its two projections (src/lib.rs).
- `Deltas` (delta.dfy): the unsigned length change `Delta`, `Delta::new`, and `usize += Delta` (src/delta.rs).
- `Arcs` (arc.dfy): the reference-counted pointer (src/arc.rs). `ArcInner` is a class with the fields `count`, `data` and `freed`. A handle `Arc` is a value holding the address of its `ArcInner` and a ghost identity. The allocation keeps the ghost set of the identities that own it, and its count is always the size of that set. Copying a handle value gives the same handle; only `clone` makes a new owner. `clone` and `drop` are methods that change the shared count in place. Equality, ordering and hashing are functions. The contents' own `==`, `!=`, `partial_cmp`, `<`, `<=`, `>`, `>=`, `cmp` and `hash` are passed in as function parameters.
- `Green` (green.dfy): a minimal stand-in for the green tree. Its implementation is not part of this model. It has lengths, rendering, `replace_child`, and a top-down reference definition of the path-copying edit (`ReplaceAtPath`), with its sharing and length laws.
- `Red` (red.dfy): red nodes and tokens, `new_root`, the accessors, `children` as a loop with a running offset, and the mutual recursion `replace_child`/`replace_ourselves`. The element dispatch is here too. The predicate `Wf` says a red node sits where its fields say. `new_root` and `children` only ever build such nodes, and `replace_child` relies on it.
- `Smoke` (smoke.dfy): the `smoke` scenario of src/lib.rs. It uses the kind constants of src/kinds.rs as literal values.

## Model

| member | source | states |
|---|---|---|
| `NodeOrTokens.NodeOrToken.IntoNode` | src/lib.rs:39-44 | `into_node` is `Some` exactly for the `Node` variant, and then it gives back the wrapped node (`Node(n)` is rebuilt from the result) |
| `NodeOrTokens.NodeOrToken.IntoToken` | src/lib.rs:46-51 | `into_token` is `Some` exactly for the `Token` variant, and then it gives back the wrapped token |
| `NodeOrTokens.ProjectionsInvertConstructors` | src/lib.rs:38-52 | `into_node(Node(n)) == Some(n)`, `into_node(Token(_)) == None`, `into_token(Token(t)) == Some(t)`, `into_token(Node(_)) == None` |
| `NodeOrTokens.ExactlyOneSide` | src/lib.rs:38-52 | for every value, exactly one of `into_node` and `into_token` is `Some` |
| `Deltas.New` | src/delta.rs:10-16 | `Delta::new(old, new)` leads from `old` to `new` (`old + signed change == new`); it is an `Add` exactly when `new > old`, and an `Add` always carries a positive amount, so equal lengths give `Sub(0)`; neither subtraction can underflow |
| `Deltas.AddAssign` | src/delta.rs:19-25 | `x += Add(a)` yields `x + a` and `x += Sub(a)` yields `x - a`; the caller must keep the result within `usize` |
| `Deltas.ApplyNew` | src/delta.rs:10-25 | round trip: starting from `x == old`, `x += Delta::new(old, new)` leaves `x == new`, for every pair of `usize` lengths |
| `Arcs.ArcInner.constructor` | src/arc.rs:15-18 | a fresh allocation holds its value, is not freed, and is owned by exactly one handle (identity 0), so its count is 1 |
| `Arcs.Arc.PtrEq` | src/arc.rs:76-80 | `ptr_eq` handles point to one allocation, so they see the same value, the same count and the same owners |
| `Arcs.Arc.Clone` | src/arc.rs:89-121 | `clone` adds one new owner, a handle with an identity no owner had, so the shared count rises by exactly 1; the new handle is `ptr_eq` to the original, both stay live, the value is untouched and neither handle is unique afterwards; the abort for a pre-increment count above `MAX_REFCOUNT` (`isize::MAX`) is a precondition |
| `Arcs.Arc.Drop` | src/arc.rs:156-175 | `drop` removes this handle from the owners, so the count falls by 1; the allocation is freed if and only if this handle was its last owner, that is when the count before the decrement was 1; a handle that has been dropped is no longer live and cannot be dropped again |
| `Arcs.FreedHasNoOwner` | src/arc.rs:156-175 | once an allocation is freed, no handle owns it, so it is freed exactly once |
| `Arcs.Arc.IsUnique` | src/arc.rs:147-152 | `is_unique` holds exactly when this handle is the only owner of its allocation, which is exactly when the count is 1 |
| `Arcs.Arc.GetMut` | src/arc.rs:136-144 | `get_mut` returns `Some` (access to this very allocation) exactly when this handle is the only owner, and `None` otherwise; the count is not changed |
| `Arcs.Arc.Eq` | src/arc.rs:179-181 | `eq` is true whenever the handles are `ptr_eq`, and otherwise equals the contents' equality |
| `Arcs.Arc.Ne` | src/arc.rs:183-185 | `ne` is never true of `ptr_eq` handles, and otherwise equals the contents' `!=` |
| `Arcs.EqualityOfHandles` | src/arc.rs:178-181 | a handle equals itself and its clones even when the contents' `==` is not reflexive; distinct allocations with equal contents compare equal |
| `Arcs.NeIsNotEq` | src/arc.rs:178-186 | when the contents' `!=` is the negation of their `==`, `ne` is exactly `!eq` |
| `Arcs.Arc.PartialCmp` | src/arc.rs:189-191 | `partial_cmp` does not consult identity first, unlike `eq`: a handle compared with a `ptr_eq` handle gets what the contents' `partial_cmp` says of the value against itself |
| `Arcs.OperatorsFollowPartialCmp` | src/arc.rs:188-207 | `lt`, `le`, `gt` and `ge` call the contents' own `<`, `<=`, `>` and `>=`; when those agree with the contents' `partial_cmp`, as `PartialOrd` demands, the handle's `lt` holds exactly when its `partial_cmp` is `Some(Less)`, `le` exactly when `lt` holds or it is `Some(Equal)`, and likewise `gt` and `ge` with `Some(Greater)` |
| `Arcs.Arc.Cmp` | src/arc.rs:211-215 | `cmp` does not consult identity first: for `ptr_eq` handles it is what the contents' `cmp` says of the value against itself |
| `Arcs.CmpAgreesWithEq` | src/arc.rs:178-217 | the `impl Eq`: when the contents' `cmp` says `Equal` exactly when their `==` holds, and `==` is reflexive, the handle's `eq` holds exactly when its `cmp` is `Equal`, identity shortcut included |
| `Arcs.HashAgreesWithEq` | src/arc.rs:178-223 | `hash` hashes the contents: when equal contents hash alike, handles that are `eq` hash alike, identity shortcut included |
| `Arcs.ComparisonIgnoresIdentity` | src/arc.rs:188-223 | `partial_cmp`, `lt`, `le`, `gt`, `ge`, `cmp` and `hash` depend only on the contents: handles with the same contents give the same answers wherever they point |
| `Arcs.CloneMany` | src/arc.rs:89-121 | cloning a handle N times adds N new owners, with the next N identities, and raises the count by N |
| `Arcs.DropAll` | src/arc.rs:156-175 | dropping those N clones, last first, removes exactly their identities, lowers the count by N and never frees the allocation, which the original handle still owns |
| `Arcs.CloneThenDrop` | src/arc.rs:100-173 | cloning a handle N times and then dropping the N clones restores the original owners and count and never frees the allocation |
| `Green.SumLenUpdate` | src/red.rs:106-109 | substituting one child changes the sum of the children's lengths by exactly the difference of the old and new child's lengths |
| `Green.ReplaceChild` | src/red.rs:106-107 | the green `replace_child` that the red one calls: same kind and same number of children, `c` at `idx`, every other child unchanged in its place; the recomputed length is the old one less the old child's length plus the new child's |
| `Green.NodeLenIsTextLength` | src/red.rs:72-74 | the `text_len` a green node reports is the length of the text it renders |
| `Green.ReplaceAtPath` | src/red.rs:106-116 | the reference edit, top-down along a path: same kind and arity at the top, the new child reachable at the end of the path, and the length changed by exactly the replaced element's and the new child's difference |
| `Green.ReplaceAtPathKeepsSpine` | src/red.rs:106-116 | every node the edit rebuilds along the path keeps the kind and the number of children of the node it replaces |
| `Green.ReplaceAtPathSharesSiblings` | src/red.rs:106-116 | structural sharing: at every level of the edited path, every sibling of the path, with its whole subtree, is the old one |
| `Green.ReplaceAtPathBottomUp` | src/red.rs:111-116 | replacing in the deepest node and then putting that node in place along the shorter path builds the same tree as the one-step edit along the longer path |
| `Red.RedNode.NewRoot` | src/red.rs:51-58 | `new_root` yields a well-placed root: no parent, `index_in_parent == 0`, `text_offset == 0`, wrapping the given green node |
| `Red.RedNode.Children` | src/red.rs:80-103 | `children` yields one red element per green child, in order: the i-th has the same variant and wraps the i-th green child, has `parent == Some(self)` and `index_in_parent == i`, and has `text_offset` equal to `self.text_offset()` plus the lengths of green children 0..i-1, so the first child shares its parent's offset |
| `Red.ChildrenArePlaced` | src/red.rs:86-101 | every element `children` yields from a well-placed node is itself well placed and starts no earlier than its parent |
| `Red.RedNode.ReplaceChild` | src/red.rs:106-109 | `replace_child` always returns a well-placed root (no parent, offset 0); the recursion ends because each step moves to the parent, a strictly smaller value |
| `Red.RedNode.ReplaceOurselves` | src/red.rs:111-116 | `replace_ourselves` returns a well-placed root; at the root it wraps exactly the new green node |
| `Red.ReplaceOurselvesIsPathCopy` | src/red.rs:111-116 | below the root, `replace_ourselves` builds the new root holding the reference edit: the old root's green node with the new green node substituted at the end of the path from the root to this node |
| `Red.ReplaceChildIsPathCopy` | src/red.rs:106-116 | the new root's green node is the old root's green node with the new child substituted at the end of the path from the root to this node extended by `idx`, with one rebuilt node per ancestor; the old tree is a value and is left as it was |
| `Red.ReplaceChildSharesSiblings` | src/red.rs:106-116 | after `replace_child`, the new child sits at the end of the edited path, and every sibling subtree along the path is the one of the old root |
| `Red.ReplaceChildLength` | src/red.rs:106-116 | the new root's `text_len` is the old root's, less the replaced child's length, plus the new child's |
| `Red.RedNode.Kind` | src/red.rs:64-66 | `kind` of a well-placed node with a parent is the kind of the green child its parent holds at its index |
| `Red.RedNode.TextOffset` | src/red.rs:68-70 | `text_offset` of a well-placed node is 0 at the root, and otherwise the parent's offset plus the lengths of the earlier siblings |
| `Red.RedNode.TextLen` | src/red.rs:72-74 | `text_len` is the length of the text the node renders |
| `Red.RedNode.Parent` | src/red.rs:76-78 | `parent` of a well-placed node, when present, is well placed and holds this node's green node at this node's index |
| `Red.RedToken.Kind` | src/red.rs:130-132 | `kind` of a well-placed token is the kind of the green child its parent holds at its index |
| `Red.RedToken.TextOffset` | src/red.rs:134-136 | `text_offset` of a well-placed token is its parent's offset plus the lengths of its earlier siblings |
| `Red.RedToken.TextLen` | src/red.rs:138-140 | `text_len` is the length of the token's text, the length its parent counts for it |
| `Red.RedToken.Parent` | src/red.rs:142-144 | a well-placed token always has a parent, which is well placed and holds this token's green token at this token's index |
| `Red.NodeMeasuresArePositionFree` | src/red.rs:64-74 | a red node's `kind()` and `text_len()` come from its green node alone: two red nodes over the same green node agree on them wherever they sit |
| `Red.TokenMeasuresArePositionFree` | src/red.rs:130-140 | the same for red tokens |
| `Red.RedKind` | src/red.rs:154-159 | `RedElement::kind` is the kind of the wrapped green node or token |
| `Red.RedTextLen` | src/red.rs:168-173 | `RedElement::text_len` is the length of the wrapped green node or token |
| `Red.RedTextOffset` | src/red.rs:161-166 | `RedElement::text_offset` of a well-placed element with a parent is the parent's offset plus the lengths of the earlier siblings |
| `Red.RedParent` | src/red.rs:175-180 | `RedElement::parent` is `None` only for a node; when present it is well placed and holds the element's green value at the element's index |
| `Red.ElementWithinParent` | src/red.rs:161-180 | for a well-placed element, `parent()` is `None` only for a node at offset 0; otherwise the element's text range `[text_offset, text_offset + text_len)` lies within its parent's |
| `Red.GreenOf` | src/red.rs:60-62 | the wrapped green value keeps the red element's variant |
| `Smoke.Smoke` | src/lib.rs:54-96 | in the tree for `1 * 2 + 1 * 2`, the child at index 4 is a node, so the `unwrap` succeeds; replacing its child 0 by `3` returns a new root rendering `1 * 2 + 3 * 2`; the original root, still held, renders `1 * 2 + 1 * 2`; and the first multiplication is shared by both roots |

## Left out

- Atomic memory orderings and the `Send`/`Sync` impls of src/arc.rs. The count is a plain field, and clone, drop and the loads are sequential steps.
- `Arc::from_raw`, `inner` and `ptr` (raw layout and pointer arithmetic), and the `Box::from_raw` in `drop_slow`. Deallocation is the `freed` flag.
- `Deref`: a handle's value is read as `p.data`.
- `Arc::new`: it is not in src/arc.rs. The `ArcInner` constructor stands in for the allocation.
- `Arcs.Arc.Clone`: the process abort for a pre-increment count above `MAX_REFCOUNT` is a precondition, not a modelled outcome.
- `Arcs.Arc.GetMut`: the source hands out `&mut T`, a mutable borrow of the value alone. The model returns the whole allocation; only its `data` is meant to be used, and nothing stops a caller from changing `count` or `freed` through it.
- `Arcs.Arc.Hash`: the contents' hash is a function to `int`; the `Hasher` state it feeds is not modelled.
- `Deltas.AddAssign`: the overflow and underflow panics of `usize` arithmetic are preconditions. Release-mode wrap-around is not modelled.
- `Deltas.New`: `Delta::new` is generic over any `T: Ord + Sub`. It is modelled at `usize`, the only type `+=` accepts.
- Red indices and offsets are unbounded `nat`s, not `usize`. Token length is the number of characters of its text, standing for Rust's byte length. The scenario's texts are ASCII, so the two agree there.
- `Red.RedNode.ReplaceChild`: requires a well-placed node (`Wf`) and an index within the green node's children. Red nodes have private fields and are only ever built by `new_root` and `children`, which are proved to build well-placed nodes. An index out of range panics in the green `replace_child`.
- The green tree: src/green.rs is a stub, and the node, builder and cache code is not part of this model. The stand-in computes a node's length from its children rather than caching it. The cached value obeys the same law by construction.
- Green handles are shared through `Arc` in the source. The model uses plain values, so "pointer-identical subtree" becomes "equal subtree" in the sharing lemmas.
- `Rc` around red nodes: red parents are ordinary immutable values.
- The `Display` impls of src/red.rs, and the `eprintln!` output of the smoke test. The green stand-in's `NodeText` plays the part of rendering.
- src/ptr.rs (both methods are `todo!()`), src/cow_mut.rs (a forwarding adapter), and the `countme` allocation counter in src/green/token.rs (instrumentation only).
