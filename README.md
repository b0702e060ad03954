# freddy decision diagrams, modelled in Dafny

freddy is a C++ library of decision diagrams. One shared manager keeps the
variables, their decomposition types (Shannon, positive Davio, negative
Davio) and the order of the variables over levels. It also keeps the unique
tables that hash-cons nodes and weighted edges, and the cache of operation
results. On top of the manager sit the diagram flavours:

- BDDs with complemented edges, and KFDDs that mix decompositions per variable;
- BHDs, whose expansion node marks the parts handed over to a SAT solver;
- BMDs and PHDDs, which carry integer and power-of-two edge weights;
- ADDs, MTBDDs and BRUHs, with integer leaves.

The repository also holds the eddy prototype of the BDD, and test helpers: a
DIMACS reader with a DPLL solver that drives MUX stuck-at fault localisation,
BLIF netlist readers, an exhaustive equivalence test, and an image-to-MTBDD
round trip.

This project models those parts in Dafny:

- Diagrams are values. `Dd.Edge` and `Dd.Node` are parameterised by weight
  and leaf type, and two hash-consed pointers are the same exactly when the
  values are equal.
- Each flavour's meaning is `Dd.Eval` with the flavour's `agg`, `comb` and
  `merge`.
- Each operator is a function with a contract stating what the result
  denotes: "`Sem(r) == ...`" on every assignment, plus the canonical form the
  result keeps.
- The manager, the signal table of the BLIF reader and the DPLL solver are
  classes whose methods update their fields in place.
- The loops of the test helpers (solving, fault localisation, encoding and
  decoding an image, the equivalence test) are methods with loop invariants,
  proved against specification functions.

Modules, one per source file or flavour:

- `Dd`, `Manager` and `Objects` cover the manager and the stored objects;
- `Keys` and `CacheKeys` cover the two generations of cache keys;
- `Bdd`, `Kfdd`, `Bhd`, `Bmd`, `Phdd`, `Add`, `Mtbdd`, `Bruh` and `Mtdd` cover
  the flavours, with `Mtdd` shared by the three multi-terminal ones;
- `EddyBdd` and `EddyVariable` cover the eddy prototype;
- `Dimacs`, `Dpll`, `Mux` and `Faults` cover the SAT debugging example;
- `Blif` and `BlifReader` cover the BLIF readers;
- `Equiv`, `Binary`, `Counting` and `Picture` cover the remaining test
  helpers.

## Model

| member | source | states |
|---|---|---|
| Dd.TopVar | include/freddy/detail/manager.hpp:466-481 | the top variable labels f or g; with both inner it is the one on the smaller level, with one constant it is the other's variable |
| Dd.IsEssential | include/freddy/detail/manager.hpp:327-335 | on an ordered diagram, x is essential exactly when x labels some node of f |
| Dd.OccursLevel | include/freddy/detail/manager.hpp:327-335 | every variable of an ordered diagram sits on the top level or below it, which is why is_essential may stop at a deeper top variable |
| Dd.EvalIndependent | include/freddy/detail/manager.hpp:635-659 | flipping a variable that labels no node of f leaves eval(f) unchanged |
| Dd.Cof | include/freddy/detail/manager.hpp:391-424 | cof never grows the diagram, shrinks it when f tests x, and is f itself (or the zero edge for a Davio true-cofactor) when f does not test x |
| Dd.CofShannon | include/freddy/detail/manager.hpp:391-424 | at a Shannon variable the cofactor for value a agrees with f on every assignment with x = a |
| Dd.CofDavio | include/freddy/detail/manager.hpp:391-424 | at a Davio variable f is merge(true cofactor, false cofactor) where the expansion switches the high part on, and the false cofactor elsewhere |
| Dd.PathCount | include/freddy/detail/manager.hpp:279-284 | a diagram has at least one path and at most one more than its node count unfolded into a tree |
| Dd.PathCountPaths | include/freddy/detail/manager.hpp:278-283 | path_count is the number of root-to-leaf paths: it equals the length of the list of all paths |
| Dd.PathsExact | include/freddy/detail/manager.hpp:278-283 | a decision sequence is listed as a path exactly when it leads from the root to a leaf |
| Dd.PathsDistinct | include/freddy/detail/manager.hpp:278-283 | no path is listed twice, so the count counts distinct paths |
| Dd.LongestPathRec | include/freddy/detail/manager.hpp:746-751 | the longest path counts the root edge: it is at least 1 and at most the tree size plus 1 |
| Dd.LongestPathBounds | include/freddy/detail/manager.hpp:746-751 | every root-to-leaf path is at most the longest path minus the root edge |
| Dd.LongestPathAttained | include/freddy/detail/manager.hpp:746-751 | some root-to-leaf path has exactly the longest length |
| Dd.LongestPath | include/freddy/detail/manager.hpp:286-298 | the depth bounds every root's longest path minus the root edge and is attained by one of the roots |
| Dd.HasConst | include/freddy/detail/manager.hpp:308-325 | has_const holds exactly when c is the constant of some leaf of f |
| Dd.NodeCountRec | include/freddy/detail/manager.hpp:753-769 | the marking DFS adds exactly the nodes reachable from f to the marks |
| Dd.NodeCount | include/freddy/detail/manager.hpp:266-277 | the shared node count is the number of distinct nodes, leaves included, reachable from the roots |
| Manager.Foa | include/freddy/detail/manager.hpp:734-745 | find-or-add returns the element equal to the object, leaves a table that holds it unchanged, otherwise appends it, and keeps the table free of duplicates (when ctrl does not collect garbage) |
| Manager.Cleanup | include/freddy/detail/manager.hpp:160-171 | one pass over a unique table erases exactly the dead elements and keeps the live ones in order |
| Manager.FilterNoDup | include/freddy/detail/manager.hpp:160-171 | erasing elements keeps a duplicate-free table duplicate-free |
| Manager.InverseGrow | include/freddy/detail/manager.hpp:234-235 | appending the new variable to both var2lvl and lvl2var keeps them mutually inverse |
| Manager.Move | include/freddy/detail/manager.hpp:771-789 | moving the variable on level a to level b keeps the length and puts that variable on level b |
| Manager.MoveMove | include/freddy/detail/manager.hpp:771-789 | sifting a to b and then b to c is sifting a to c |
| Manager.ExchangeIsMove | include/freddy/detail/manager.hpp:661-732 | one exchange with the level below is a one-step sift in either direction |
| Manager.TwoSiftsTranspose | include/freddy/detail/manager.hpp:134-142 | for distinct levels the two sifts of swap transpose the two levels and leave the rest in place |
| Manager.SwapSameLevelReorders | include/freddy/detail/manager.hpp:134-142 | with equal levels swap still exchanges levels a and a + 1, so the order changes (finding 4) |
| Manager.NatToString | include/freddy/detail/manager.hpp:218 | the default label suffix is a non-empty string of decimal digits |
| Manager.ParseNatToString | include/freddy/detail/manager.hpp:218 | reading the digits back gives the variable index, so default labels of distinct variables differ |
| Manager.CleanupLevels | include/freddy/detail/manager.hpp:173-177 | walking lvl2var cleans every per-variable table exactly once |
| Manager.CollectTables | include/freddy/detail/manager.hpp:156-180 | every per-variable table and both constant tables keep exactly their live entries and stay well-formed |
| Manager.Manager.constructor | include/freddy/detail/manager.hpp:187-204 | the two terminal edges and their leaves are stored and become consts; no variables, empty cache |
| Manager.Manager.UNode | include/freddy/detail/manager.hpp:483-486 | unode returns the node (x, hi, lo): the table of x is unchanged when it held the node and gains it at the end otherwise; nothing else changes (when ctrl does not collect garbage) |
| Manager.Manager.UEdge | include/freddy/detail/manager.hpp:493-502 | uedge returns the edge (w, v), stored in the constant table or appended to the table of v's variable unless already there; nothing else changes (when ctrl does not collect garbage) |
| Manager.Manager.MakeVar | include/freddy/detail/manager.hpp:214-239 | make_var appends the type, the label (default "x" and the index), a new bottom level, and the variable's edge to (1, 0), weighted with the 1-terminal's weight for negative Davio; the new variable's tables hold exactly that node and that edge, and every other table and the caches are unchanged (when ctrl does not collect garbage) |
| Manager.Manager.MakeConst | include/freddy/detail/manager.hpp:241-244 | make_const returns the stored edge (w, leaf c): the constant node and edge tables are unchanged when they held the leaf and the edge, and gain them at the end otherwise; nothing else changes (when ctrl does not collect garbage) |
| Manager.Manager.Cached | include/freddy/detail/manager.hpp:510-515 | cached finds the stored result of the key, or nothing |
| Manager.Manager.Cache | include/freddy/detail/manager.hpp:504-508 | cache inserts a result only for a new key and hands back the stored one, so a cached result is never overwritten |
| Manager.Manager.Gc | include/freddy/detail/manager.hpp:156-180 | gc empties the cache and drops exactly the dead nodes and edges from every table, order and variables unchanged |
| Manager.Manager.Exchange | include/freddy/detail/manager.hpp:661-732 | exchange transposes level lvl with the level below in lvl2var and var2lvl and clears the cache; at the bottom level nothing changes |
| Manager.Manager.Sift | include/freddy/detail/manager.hpp:771-789 | sift performs the distance of adjacent exchanges and moves the variable from level a to level b, the others keeping their relative order |
| Manager.Manager.Swap | include/freddy/detail/manager.hpp:134-142 | swap as written transposes distinct levels, and for equal levels transposes a with a + 1 (finding 4) |
| Manager.Manager.SwapFixed | include/freddy/detail/manager.hpp:134-142 | swap with an early return for equal levels is the transposition of levels a and b in every case |
| Manager.Manager.SiftDown | include/freddy/detail/manager.hpp:791-814 | sift_down only moves the variable downwards and returns a level whose order has the remembered smallest node count, never larger than before |
| Manager.Manager.SiftUp | include/freddy/detail/manager.hpp:816-838 | sift_up likewise moves the variable upwards only and keeps the smallest node count seen |
| Manager.Manager.Reorder | include/freddy/detail/manager.hpp:144-154 | sifting every variable in turn changes only the order and never increases the node count |
| Objects.Mix | include/freddy/detail/edge.hpp:40-43 | the multiplicative hash w1 p1 + w2 p2 is reduced to a 64-bit word |
| Objects.MakeInner | include/freddy/detail/node.hpp:54-60 | a new inner node holds its variable and children, is not a constant and starts with reference count 0 |
| Objects.MakeLeaf | include/freddy/detail/node.hpp:62-65 | a new leaf holds its constant and starts with reference count 0 |
| Objects.Br | include/freddy/detail/node.hpp:129-134 | br of an inner node returns exactly its variable and children |
| Objects.C | include/freddy/detail/node.hpp:136-141 | c of a leaf returns exactly its constant |
| Objects.Move | include/freddy/detail/node.hpp:69-81 | a moved node keeps its kind, its reference count and its contents |
| Objects.NodeEqContents | include/freddy/detail/node.hpp:95-104 | two nodes are equal exactly when they have the same kind and the same constant or the same variable and children |
| Objects.NodeHashConsistent | include/freddy/detail/node.hpp:88-93 | equal nodes have equal hashes |
| Objects.NodeHashIgnoresVar | include/freddy/detail/node.hpp:88-93 | inner nodes that differ only in their variable are unequal but hash alike, since each variable has its own table |
| Objects.MakeEdge | include/freddy/detail/edge.hpp:33-38 | a new edge holds its weight and node |
| Objects.EdgeEqEquivalence | include/freddy/detail/edge.hpp:45-48 | edge equality is equality of weight and node, hence an equivalence |
| Objects.EdgeHashConsistent | include/freddy/detail/edge.hpp:40-48 | equal edges have equal hashes |
| Objects.Comp | include/freddy/detail/common.hpp:53-67 | the table comparator compares the pointed-to objects, so a pointer always matches itself |
| Objects.PtrHash | include/freddy/detail/common.hpp:69-81 | the table hash of a pointer is the hash of the pointed-to object, the same for every pointer to an equal object |
| Objects.Find | include/freddy/detail/common.hpp:134 | find returns a position at or after the start from which the pattern fits in the string |
| Objects.FindFirst | include/freddy/detail/common.hpp:134 | find returns the first occurrence at or after the start, and none only when there is no occurrence |
| Objects.ReplaceNoOccurrence | include/freddy/detail/common.hpp:129-142 | a string without the pattern is left unchanged |
| Objects.ReplaceNotRescanned | include/freddy/detail/common.hpp:138 | replacing "a" by "aa" in "a" gives "aa": the search resumes after the inserted text, so it terminates when the pattern occurs in its replacement |
| Objects.ReplaceAll | include/freddy/detail/common.hpp:129-142 | the in-place loop computes the left-to-right, non-overlapping replacement of every occurrence |
| Keys.XorComm | include/freddy/detail/entry.hpp:37-42 | XOR of words is commutative, so the order of the XOR-ed field hashes does not matter |
| Keys.XorAssoc | include/freddy/detail/entry.hpp:37-42 | XOR of words is associative |
| Keys.XorSelf | include/freddy/detail/entry.hpp:37-42 | a word XORed with itself is 0 |
| Keys.XorCancel | include/freddy/detail/operation.hpp:27-30 | XOR by the same word is injective |
| Keys.SatEntry | include/freddy/detail/entry.hpp:45-51 | the one-operand entry records the operation and operand and leaves the other fields at their defaults |
| Keys.MiscEntry | include/freddy/detail/entry.hpp:53-60 | the entry with a flag records the operation, operand and flag |
| Keys.BinaryEntry | include/freddy/detail/entry.hpp:62-70 | the two-operand entry records the operation and both operands |
| Keys.IteEntry | include/freddy/detail/entry.hpp:72-82 | the three-operand entry records the operation and its three operands |
| Keys.ComposeEntry | include/freddy/detail/entry.hpp:84-94 | the composition entry records the operand, the variable and the substituted function |
| Keys.RestrEntry | include/freddy/detail/entry.hpp:96-105 | the restriction entry records the operand, the variable and the value |
| Keys.EntryEqEquivalence | include/freddy/detail/entry.hpp:107-126 | entry equality is reflexive, symmetric and transitive and never relates different operations |
| Keys.EntrySwapEqual | include/freddy/detail/entry.hpp:117-120 | commutative entries built from swapped operands are equal although their fields differ |
| Keys.EntryHashConsistent | include/freddy/detail/entry.hpp:37-42 | equal entries, as the constructors build them, have equal hashes, because XOR does not see the operand order |
| Keys.KeyEqEquivalence | include/freddy/detail/operation.hpp:32-35 | key equality (same dynamic type, same input) is an equivalence that never relates keys of different types |
| Keys.KeySwap | include/freddy/op/conj.hpp:48-53 | conjunction, antivalence and product keys match with their operands swapped; sum keys match swapped only when both operands are the same |
| Keys.KeyHashSeparatesTypes | include/freddy/detail/operation.hpp:27-30 | keys of different types with equal input hashes get different hashes when their type hashes differ |
| Keys.KeyHashConsistent | include/freddy/detail/operation.hpp:27-35 | for every key type whose equality is order-sensitive, equal keys hash equally |
| Keys.SymmetricKeyHashCounterexample | include/freddy/op/conj.hpp:43-53 | the conjunction, antivalence and product keys of (f, g) and (g, f) are equal but hash differently whenever f * p1 + g * p2 and g * p1 + f * p2 differ as words, which breaks the hash table's contract |
| Keys.Ordered | include/freddy/detail/operation/mul.hpp:35-38 | the operand pair in pointer order is a permutation of the pair with the smaller pointer first |
| Keys.KeyHashFixedConsistent | include/freddy/detail/operation/mul.hpp:35-38 | with symmetric keys hashing their operands in pointer order, equal keys of every type hash equally |
| CacheKeys.MulInput | include/freddy/detail/operation/mul.hpp:35-38 | a product key stores its two factors in pointer order |
| CacheKeys.PlusInput | include/freddy/detail/operation/plus.hpp:35-38 | a sum key stores its two summands in pointer order |
| CacheKeys.AntivInput | include/freddy/detail/operation/antiv.hpp:35-38 | an antivalence key stores its two operands in pointer order |
| CacheKeys.CommutativeInputs | include/freddy/detail/operation/mul.hpp:35-38 | swapping the operands gives the same product, sum and antivalence key |
| CacheKeys.HashConsistent | include/freddy/detail/operation.hpp:27-35 | equal keys hash equally, swapped products hash alike, and the ordered inputs give the corrected hash of the older keys |
| CacheKeys.EdgeOperation.Mul | include/freddy/detail/operation/mul.hpp:35-41 | a new product key holds the ordered factors and no result |
| CacheKeys.EdgeOperation.Plus | include/freddy/detail/operation/plus.hpp:35-41 | a new sum key holds the ordered summands and no result |
| CacheKeys.EdgeOperation.Antiv | include/freddy/detail/operation/antiv.hpp:35-41 | a new antivalence key holds the ordered operands and no result |
| CacheKeys.EdgeOperation.Ite | include/freddy/detail/operation/ite.hpp:36-44 | a new if-then-else key holds its three operands and no result |
| CacheKeys.EdgeOperation.Restr | include/freddy/detail/operation/restr.hpp:37-43 | a new restriction key holds the operand, variable and value and no result |
| CacheKeys.EdgeOperation.Compose | include/freddy/detail/operation/compose.hpp:36-43 | a new composition key holds the operand, variable and substituted function and no result |
| CacheKeys.EdgeOperation.Replace | include/freddy/detail/operation/replace.hpp:35-40 | a new replacement key holds the operand and mark and no result |
| CacheKeys.EdgeOperation.GetResult | include/freddy/detail/operation/mul.hpp:43-48 | get_result may only be called once a result is stored, and returns that non-null result |
| CacheKeys.EdgeOperation.SetResult | include/freddy/detail/operation/mul.hpp:50-56 | set_result stores a non-null result once, after which get_result returns it |
| CacheKeys.HasConstOperation.constructor | include/freddy/detail/operation/has_const.hpp:34-39 | a new constant-search key holds its operand and constant and no result |
| CacheKeys.HasConstOperation.GetResult | include/freddy/detail/operation/has_const.hpp:41-46 | get_result returns the stored Boolean |
| CacheKeys.HasConstOperation.SetResult | include/freddy/detail/operation/has_const.hpp:48-53 | set_result stores the Boolean once |
| CacheKeys.SharpSatOperation.constructor | include/freddy/detail/operation/sharpsat.hpp:33-37 | a new #SAT key holds its operand and the NaN sentinel (no result) |
| CacheKeys.SharpSatOperation.GetResult | include/freddy/detail/operation/sharpsat.hpp:39-44 | get_result returns the stored count |
| CacheKeys.SharpSatOperation.SetResult | include/freddy/detail/operation/sharpsat.hpp:46-52 | set_result stores a non-negative count once |
| Bdd.Complement | include/freddy/dd/bdd.hpp:417-422 | complement keeps the node, flips only the edge weight, and never returns its argument |
| Bdd.ComplementSem | include/freddy/dd/bdd.hpp:417-422 | the complemented edge denotes the negated function, and complementing twice gives the edge back |
| Bdd.CofSem | include/freddy/detail/manager.hpp:391-424 | the cofactor for the value x takes in an assignment denotes the same value as f there |
| Bdd.CofCanon | include/freddy/detail/manager.hpp:391-424 | cofactoring a canonical diagram at a variable on or above its top level gives a canonical diagram strictly below that variable |
| Bdd.Branch | include/freddy/dd/bdd.hpp:396-410 | branch returns the shared child when both children are equal, otherwise a canonical node on x whose low edge is regular, the low edge's complement moved onto the incoming edge |
| Bdd.BranchSem | include/freddy/dd/bdd.hpp:396-410 | the branch denotes "if x then hi else lo" |
| Bdd.Conj | include/freddy/dd/bdd.hpp:424-456 | conj of canonical diagrams is canonical and no higher than its operands |
| Bdd.ConjSem | include/freddy/dd/bdd.hpp:424-456 | conj denotes the conjunction of its operands on every assignment |
| Bdd.Disj | include/freddy/dd/bdd.hpp:458-461 | disj of canonical diagrams is canonical |
| Bdd.DisjSem | include/freddy/dd/bdd.hpp:458-461 | disj denotes the disjunction of its operands on every assignment |
| Bdd.Antiv | include/freddy/dd/bdd.hpp:253-293 | antiv of canonical diagrams is canonical and no higher than its operands |
| Bdd.AntivSem | include/freddy/dd/bdd.hpp:253-293 | antiv denotes the exclusive or of its operands on every assignment |
| Bdd.Simplify | include/freddy/dd/bdd.hpp:320-343 | simplify reports which of the four rewrites fired (0 for none) and replaces g or h by the constant that rewrite names |
| Bdd.SimplifySem | include/freddy/dd/bdd.hpp:320-343 | each simplify rewrite keeps "if f then g else h" the same function |
| Bdd.StdTriple | include/freddy/dd/bdd.hpp:345-389 | the standard triple of each rewrite keeps the operands canonical, no larger and no higher |
| Bdd.StdTripleSem | include/freddy/dd/bdd.hpp:345-389 | the standard triple of each rewrite denotes the same ite as the triple it replaces |
| Bdd.IteVar | include/freddy/dd/bdd.hpp:495-498 | the splitting variable labels one of the operands and lies on the smallest of their levels |
| Bdd.TopCofs | include/freddy/dd/bdd.hpp:449-453 | two canonical diagrams split at their top variable have canonical cofactors strictly below it |
| Bdd.CanonConst | include/freddy/dd/bdd.hpp:207-215 | a canonical constant is constant(0) or constant(1) |
| Bdd.PastTerminal | include/freddy/dd/bdd.hpp:471-488 | past ite's terminal cases f is a node and each rewrite leaves the operand shape std_triple relies on |
| Bdd.Ite | include/freddy/dd/bdd.hpp:463-505 | ite of canonical diagrams is canonical and no higher than its operands |
| Bdd.IteSem | include/freddy/dd/bdd.hpp:463-505 | ite denotes "if f then g else h" on every assignment |
| Bdd.IteConjDisj | include/freddy/dd/bdd.hpp:463-505 | ite(f, g, 0) is conj(f, g) and ite(f, 1, g) is disj(f, g) as functions |
| Bdd.SharpSat | include/freddy/dd/bdd.hpp:295-318 | sharpsat lies between 0 and 2^n |
| Bdd.SharpSatCounts | include/freddy/dd/bdd.hpp:295-318 | on canonical diagrams sharpsat is exactly the number of satisfying assignments |
| Bdd.SharpSatComplement | include/freddy/dd/bdd.hpp:295-318 | the count of a complemented edge is 2^n minus the count of the edge |
| Bdd.RegularFalse | include/freddy/dd/bdd.hpp:396-410 | a regular canonical edge denotes a function that is false on the all-false assignment |
| Bdd.ValShannon | include/freddy/detail/manager.hpp:635-659 | a canonical node denotes the weight XOR the value of the child its variable selects |
| Bdd.ValIndependent | include/freddy/detail/manager.hpp:635-659 | a canonical diagram strictly below x does not depend on x |
| Bdd.Canonicity | include/freddy/dd/bdd.hpp:76-81 | two canonical diagrams denoting the same function are the same edge, so comparing hash-consed edges decides equivalence |
| Bdd.SemOrderFree | include/freddy/detail/manager.hpp:635-659 | evaluation reads the variable types and the assignment only, never the level order |
| Bdd.CanonBelow | include/freddy/detail/manager.hpp:661-732 | diagrams entirely below the two exchanged levels stay canonical at the same level |
| Bdd.ExchangeNode | include/freddy/detail/manager.hpp:685-703 | the node rewritten by exchange is canonical under the exchanged order and not above level x |
| Bdd.ExchangeNodeDistinct | include/freddy/detail/manager.hpp:685-703 | the two rebuilt children of a swapped node differ, so the rewritten node is a proper node |
| Bdd.ExchangeNodeSem | include/freddy/detail/manager.hpp:685-703 | every edge to the rewritten node denotes the same function under the exchanged order |
| Bdd.ExchangeDD | include/freddy/detail/manager.hpp:661-732 | exchange keeps root weights and leaves, and nodes not labelled x keep their labels |
| Bdd.ExchangeDDSem | include/freddy/detail/manager.hpp:661-732 | exchanging two adjacent levels does not change the function any edge denotes |
| Bdd.ExchangeDDInjective | include/freddy/detail/manager.hpp:661-732 | distinct canonical diagrams stay distinct across an exchange |
| Bdd.ExchangeDDCanon | include/freddy/detail/manager.hpp:661-732 | the rewritten diagram is canonical under the exchanged order; roots above level x keep their level |
| Kfdd.CanonInner | include/freddy/dd/kfdd.hpp:215-218 | a canonical edge other than constant(0) and constant(1) ends in an inner node |
| Kfdd.CofSem | include/freddy/detail/manager.hpp:391-424 | f is the expansion of its two manager cofactors at x: the selected one for Shannon, low XOR (condition and high) for Davio |
| Kfdd.CofCanon | include/freddy/detail/manager.hpp:391-424 | the cofactors of a canonical diagram at a variable on or above its top level are canonical and lie below it |
| Kfdd.TopCofs | include/freddy/dd/kfdd.hpp:502-506 | two canonical non-constant diagrams split at their top variable into canonical cofactors below it |
| Kfdd.Branch | include/freddy/dd/kfdd.hpp:418-463 | branch drops a Shannon node with equal children and a Davio node whose high child is 0; otherwise it builds a node on x with a regular low edge, the low edge's complement moved onto the incoming edge |
| Kfdd.BranchSem | include/freddy/dd/kfdd.hpp:418-463 | the branch denotes the expansion of x over its children: Shannon selection or low XOR (condition and high) |
| Kfdd.Antiv | include/freddy/dd/kfdd.hpp:275-315 | antiv of canonical diagrams is canonical and no higher than its operands |
| Kfdd.AntivSem | include/freddy/dd/kfdd.hpp:275-315 | antiv denotes the exclusive or of its operands for every mix of expansions |
| Kfdd.ExpandXor | include/freddy/dd/kfdd.hpp:309-312 | every expansion is linear over XOR, which is why antiv may XOR the cofactors at any variable |
| Kfdd.ExpandConj | include/freddy/dd/kfdd.hpp:505-523 | the Davio expansion of a conjunction has high part fh.gh XOR fl.gh XOR gl.fh and low part fl.gl |
| Kfdd.Conj | include/freddy/dd/kfdd.hpp:477-527 | conj of canonical diagrams is canonical and no higher than its operands |
| Kfdd.ConjSem | include/freddy/dd/kfdd.hpp:477-527 | conj denotes the conjunction of its operands at Shannon and Davio top variables alike |
| Kfdd.Disj | include/freddy/dd/kfdd.hpp:529-532 | disj of canonical diagrams is canonical |
| Kfdd.DisjSem | include/freddy/dd/kfdd.hpp:529-532 | disj denotes the disjunction of its operands |
| Kfdd.Var | include/freddy/detail/manager.hpp:214-239 | the variable make_var creates is a canonical node on x, complemented for negative Davio |
| Kfdd.VarSem | include/freddy/detail/manager.hpp:214-239 | the variable's diagram denotes the projection on x whatever its expansion |
| Kfdd.SemIndependent | include/freddy/detail/manager.hpp:635-659 | a canonical diagram strictly below x does not depend on x |
| Kfdd.CofValue | include/freddy/detail/manager.hpp:391-424 | the value cofactor (the XOR of the two manager cofactors on the condition side of a Davio variable) is canonical and below x |
| Kfdd.CofValueSem | include/freddy/detail/manager.hpp:391-424 | the value cofactor denotes f with x fixed to a |
| Kfdd.Restr | include/freddy/detail/manager.hpp:426-448 | restr as written keeps diagrams canonical and returns f when x is not essential (finding 6 concerns its value at a Davio top variable) |
| Kfdd.RestrFixed | include/freddy/detail/manager.hpp:426-448 | restr with the value cofactor at the top variable keeps diagrams canonical and returns f when x is not essential |
| Kfdd.RestrFixedSem | include/freddy/detail/manager.hpp:426-448 | the corrected restr fixes x to a for every expansion |
| Kfdd.RestrNonEssential | include/freddy/detail/manager.hpp:431-434 | restricting a variable that occurs nowhere in f returns f itself |
| Kfdd.RestrDavioCounterexample | include/freddy/detail/manager.hpp:435-438 | for x0 XOR x1 XOR x2 over positive Davio variables, restr(f, x0, 1) as written is constant 1 though f is false at 1, 0, 1 (finding 6) |
| Kfdd.Exist | include/freddy/detail/manager.hpp:450-456 | exist of a canonical diagram is canonical (with the corrected restr, Kfdd.RestrFixed) |
| Kfdd.Forall | include/freddy/detail/manager.hpp:458-464 | forall of a canonical diagram is canonical (with the corrected restr, Kfdd.RestrFixed) |
| Kfdd.QuantSem | include/freddy/detail/manager.hpp:450-464 | exist is the disjunction and forall the conjunction of f with x true and with x false (with the corrected restr, Kfdd.RestrFixed) |
| Kfdd.Compose | include/freddy/detail/manager.hpp:337-389 | compose of canonical diagrams is canonical and returns f when x is not essential |
| Kfdd.ComposeSem | include/freddy/detail/manager.hpp:337-389 | compose(f, x, g) denotes f with the value of g substituted for x |
| Kfdd.ComposeVarConst | include/freddy/detail/manager.hpp:337-389 | composing with x itself is the identity, composing with a constant is restriction |
| Kfdd.StdTriple | include/freddy/dd/kfdd.hpp:367-411 | the standard-triple rewrites keep the operands canonical, no larger and no higher |
| Kfdd.ComplementCanon | include/freddy/dd/kfdd.hpp:470-475 | complementing keeps an edge canonical, on the same level and of the same size |
| Kfdd.IteVar | include/freddy/dd/kfdd.hpp:570 | the splitting variable labels one of the operands and lies on the smallest of their levels |
| Kfdd.Ite | include/freddy/dd/kfdd.hpp:534-576 | ite as written keeps diagrams canonical and no higher than its operands (finding 7 concerns its value) |
| Kfdd.IteDavioCounterexample | include/freddy/dd/kfdd.hpp:570-573 | with x0 positive Davio above x1, ite(x0, 0, x1) as written returns x1, which is true at x0 = x1 = 1 where the ite is false (finding 7) |
| Kfdd.IteFixed | include/freddy/detail/manager.hpp:526-533 | ite built from the proved operators, (f and g) XOR (not f and h), is canonical |
| Kfdd.IteFixedSem | include/freddy/detail/manager.hpp:526-533 | the corrected ite denotes "if f then g else h" for every expansion |
| Kfdd.SharpSatDavioCounterexample | include/freddy/dd/kfdd.hpp:317-340 | over x0 positive Davio above x1 Shannon, sharpsat as written gives 2 for a canonical diagram with exactly one model (finding 8) |
| Kfdd.CofValueModels | include/freddy/dd/kfdd.hpp:317-340 | the models of f split into those of its two value cofactors at the top variable, each counted over all variables |
| Kfdd.SharpSatFixedCounts | include/freddy/dd/kfdd.hpp:317-340 | sharpsat averaging the value cofactors is the exact model count for every expansion |
| Bhd.IsExp | include/freddy/dd/bhd.hpp:301-304 | an edge is the expansion node exactly when it points to the leaf that stands for it, with either mark |
| Bhd.ConstCases | include/freddy/dd/bhd.hpp:287-292 | every constant is 0, 1 or the expansion node |
| Bhd.ComplementVal | include/freddy/dd/bhd.hpp:538-543 | complement flips a known value and keeps an unknown one unknown |
| Bhd.NoExpKnown | include/freddy/dd/bhd.hpp:307-329 | a diagram without the expansion node has a known value everywhere |
| Bhd.ExpReached | include/freddy/dd/bhd.hpp:310-325 | the traversal that looks for the expansion node finds it exactly when the value is unknown |
| Bhd.Eval | include/freddy/dd/bhd.hpp:307-329 | eval is unknown where the assignment's path reaches the expansion node and otherwise the manager's value |
| Bhd.EvalKnown | include/freddy/dd/bhd.hpp:307-329 | a known value is the one the manager's eval computes |
| Bhd.CofCanon | include/freddy/dd/bhd.hpp:472 | cofactors of canonical diagrams are canonical and lie below the variable's level |
| Bhd.CofVal | include/freddy/dd/bhd.hpp:472 | the cofactor for the assignment's own value of x has the diagram's value |
| Bhd.Branch | include/freddy/dd/bhd.hpp:518-531 | branch is canonical, collapses equal children, and otherwise stores a regular low edge |
| Bhd.BranchVal | include/freddy/dd/bhd.hpp:518-531 | branch has the high child's value where x holds and the low child's elsewhere |
| Bhd.Replace | include/freddy/dd/bhd.hpp:426-468 | replace as written is canonical and does not rise above its operand |
| Bhd.ReplaceCounterexample | include/freddy/dd/bhd.hpp:449-455 | for NOT(x0 ? x1 : (x1 ? 1 : exp)) both children become the same edge, returned without the operand's complement mark, so at x0 = x1 = 1 a false function reads true |
| Bhd.ReplaceFixed | include/freddy/dd/bhd.hpp:426-468 | replace that applies the operand's mark when the children collapse is canonical |
| Bhd.ReplaceFixedVal | include/freddy/dd/bhd.hpp:426-468 | under the complement parity m, the corrected replace turns every true value into unknown and keeps false and unknown values |
| Bhd.ReplaceTop | include/freddy/dd/bhd.hpp:426-468 | without an outer mark, replace maps true to unknown and keeps the rest |
| Bhd.Conj | include/freddy/dd/bhd.hpp:545-593 | conj is canonical and no higher than its operands (with the corrected replace, Bhd.ReplaceFixed) |
| Bhd.Heur | include/freddy/dd/bhd.hpp:487-511 | the heuristic step (no heuristic, or the level heuristic) is canonical (with the corrected replace, Bhd.ReplaceFixed) |
| Bhd.Compress | include/freddy/dd/bhd.hpp:470-485 | compress is canonical and lies below the variable (with the corrected replace, Bhd.ReplaceFixed) |
| Bhd.ConjVal | include/freddy/dd/bhd.hpp:545-593 | conj never contradicts the three-valued AND of its operands, and with no heuristic it equals that AND wherever both values are known (with the corrected replace, Bhd.ReplaceFixed) |
| Bhd.HeurVal | include/freddy/dd/bhd.hpp:487-501 | the heuristic step never contradicts the AND, and equals it without a heuristic when both values are known (with the corrected replace, Bhd.ReplaceFixed) |
| Bhd.CompressVal | include/freddy/dd/bhd.hpp:470-485 | compress never contradicts the AND of the cofactors, and equals it without a heuristic when both are known (with the corrected replace, Bhd.ReplaceFixed) |
| Bhd.ExpConjComplement | test/bhd/basic.cpp:74-77 | the expansion node conjoined with its complement is the expansion node |
| Bhd.Disj | include/freddy/dd/bhd.hpp:595-598 | disj is canonical (with the corrected replace, Bhd.ReplaceFixed) |
| Bhd.Plus | include/freddy/dd/bhd.hpp:610-613 | plus is canonical (with the corrected replace, Bhd.ReplaceFixed) |
| Bhd.DisjVal | include/freddy/dd/bhd.hpp:595-598 | disj never contradicts the three-valued OR and equals it without a heuristic when both values are known (with the corrected replace, Bhd.ReplaceFixed) |
| Bhd.PlusVal | include/freddy/dd/bhd.hpp:610-613 | plus never contradicts XOR and equals it without a heuristic when both values are known (with the corrected replace, Bhd.ReplaceFixed) |
| Bhd.ExpKeepsLevel | test/bhd/basic.cpp:79-86 | x0 AND exp has high child exp and low child 0, and conjoining x1 leaves it unchanged |
| Bhd.LevelStepOne | include/freddy/dd/bhd.hpp:492-501 | with threshold 2 the level heuristic conjoins x0 and x1 to x0 ? x1 : 0 |
| Bhd.LevelStepTwo | include/freddy/dd/bhd.hpp:492-501 | conjoining x2 replaces x1's true side by the expansion node |
| Bhd.LevelStepThree | include/freddy/dd/bhd.hpp:492-501 | conjoining x3 leaves the diagram unchanged |
| Bhd.LevelHeuristicExample | test/bhd/basic.cpp:259-267 | x0 AND x1 AND x2 AND x3 under the level heuristic has depth 2, contains the expansion node and is false on the all-false assignment |
| Bhd.SatSolutionsRec | include/freddy/dd/bhd.hpp:332-354 | the recursive collection appends exactly the solutions the specification lists and leaves the path as the specification says |
| Bhd.SolsFrame | include/freddy/dd/bhd.hpp:332-354 | variables not on the diagram keep their path value, in the path and in every solution |
| Bhd.SolsSat | include/freddy/dd/bhd.hpp:332-354 | every collected solution makes the node true under the mark |
| Bhd.SolsCover | include/freddy/dd/bhd.hpp:332-354 | for every assignment that makes the node true under the mark, a collected solution takes the same path: it agrees with the assignment on every variable tested along it |
| Bhd.SatSolutions | include/freddy/dd/bhd.hpp:356-374 | every returned assignment is a solution; every solution takes the path of a returned one, so there is one per path to a true leaf; none is returned exactly when the function has no solution |
| Bhd.ClauseExact | include/freddy/dd/bhd.hpp:380-388 | the path clause lists, in increasing order, exactly the variables set on the expansion path with their values |
| Bhd.CollectPath | include/freddy/dd/bhd.hpp:380-388 | the loop that collects the path clause computes that clause |
| Bhd.UnitClausesRec | include/freddy/dd/bhd.hpp:376-406 | the recursive generation appends exactly the clauses the specification lists and resets the path as specified |
| Bhd.EpAfterResets | include/freddy/dd/bhd.hpp:376-406 | after the recursion the variables of the diagram are reset to unset and the others are unchanged |
| Bhd.UcsNonEmpty | include/freddy/dd/bhd.hpp:376-406 | some clause is produced exactly when the diagram contains the expansion node |
| Bhd.UcsSound | include/freddy/dd/bhd.hpp:376-406 | every clause is increasing, and an assignment satisfying one agrees with the path and reaches the expansion node |
| Bhd.UnitClauses | include/freddy/dd/bhd.hpp:408-424 | no clause is returned exactly when the expansion node is absent, and an assignment has an unknown value exactly when it satisfies one of the returned clauses |
| Bhd.NoneReachesExp | include/freddy/dd/bhd.hpp:408-424 | an assignment with an unknown value reaches the expansion node |
| Bhd.UcsComplete | include/freddy/dd/bhd.hpp:376-406 | every assignment that agrees with the recorded path and reaches the expansion node satisfies the clause of its own path |
| Bmd.ConstSem | include/freddy/dd/bmd.hpp:382-385 | a constant edge into the 1-leaf denotes its weight |
| Bmd.NodeSemPD | include/freddy/detail/manager.hpp:635-659 | a node labelled x denotes lo + x hi: the positive Davio reading with merge as addition |
| Bmd.WeightNonZero | include/freddy/dd/bmd.hpp:387-400 | on stored diagrams only the constant 0 carries the weight 0 |
| Bmd.Gcd | include/freddy/dd/bmd.hpp:357-363 | the gcd is 0 exactly when both arguments are 0 |
| Bmd.GcdDivides | include/freddy/dd/bmd.hpp:357-363 | the gcd divides both arguments |
| Bmd.Normw | include/freddy/dd/bmd.hpp:357-363 | the normalising weight is 0 only for two zero weights, divides both weights, and its sign makes the low weight (or, when that is 0, the high weight) positive after division |
| Bmd.Apply | include/freddy/dd/bmd.hpp:387-400 | applying a weight keeps the node or yields the constant 0 |
| Bmd.ApplySem | include/freddy/dd/bmd.hpp:387-400 | applying the weight w multiplies the denoted value by w and keeps the diagram well formed |
| Bmd.VarSem | include/freddy/dd/bmd.hpp:265-273 | the variable x is the node lo = 0, hi = 1 and denotes 1 where x is true and 0 elsewhere |
| Bmd.Branch | include/freddy/dd/bmd.hpp:402-420 | make_branch is well formed, drops the node when hi is 0 (the redundancy rule), and otherwise labels the node x with its weights normalised |
| Bmd.BranchSem | include/freddy/dd/bmd.hpp:402-420 | the branch denotes lo + x hi |
| Bmd.BranchShape | include/freddy/dd/bmd.hpp:402-420 | the branch keeps the children's nodes and factors their weights as child weight times the incoming weight |
| Bmd.Cof | include/freddy/detail/manager.hpp:391-424 | a cofactor is no larger than its diagram and strictly smaller at a node for the true side or for the node's own variable |
| Bmd.CofSem | include/freddy/detail/manager.hpp:391-424 | a diagram denotes its negative cofactor plus x times its positive cofactor (moment decomposition), and both cofactors are well formed |
| Bmd.Plus | include/freddy/dd/bmd.hpp:503-549 | word-level addition is well formed |
| Bmd.PlusOperands | include/freddy/dd/bmd.hpp:516-533 | the rearranged operands carry a non-zero common weight, keep their sizes, and multiply back to the original operands in one order or the other |
| Bmd.PlusSplit | include/freddy/dd/bmd.hpp:535-548 | the recursive step of plus is well formed |
| Bmd.PlusSem | include/freddy/dd/bmd.hpp:503-549 | plus denotes the sum of the operands' values |
| Bmd.PlusSplitSem | include/freddy/dd/bmd.hpp:535-548 | the recursive step denotes the sum of its operands |
| Bmd.Mul | include/freddy/dd/bmd.hpp:458-501 | word-level multiplication is well formed whatever the node hash used to order the operands |
| Bmd.MulSplit | include/freddy/dd/bmd.hpp:487-500 | the recursive step of mul is well formed |
| Bmd.MulSem | include/freddy/dd/bmd.hpp:458-501 | mul denotes the product of the operands' values |
| Bmd.MulSplitSem | include/freddy/dd/bmd.hpp:487-500 | the recursive step, hi = ff' + (ft' + tf') with the cross terms, denotes the product |
| Bmd.Neg | include/freddy/dd/bmd.hpp:365-370 | negation is well formed |
| Bmd.Sub | include/freddy/dd/bmd.hpp:372-375 | subtraction is well formed |
| Bmd.Antiv | include/freddy/dd/bmd.hpp:377-380 | antivalence is well formed |
| Bmd.Complement | include/freddy/dd/bmd.hpp:427-430 | complement is well formed |
| Bmd.Conj | include/freddy/dd/bmd.hpp:432-435 | conjunction is well formed |
| Bmd.Disj | include/freddy/dd/bmd.hpp:437-451 | disjunction is well formed |
| Bmd.NegSem | include/freddy/dd/bmd.hpp:365-370 | negation denotes -a |
| Bmd.SubSem | include/freddy/dd/bmd.hpp:372-375 | subtraction denotes a - b |
| Bmd.AntivSem | include/freddy/dd/bmd.hpp:377-380 | antivalence denotes a + b - 2ab |
| Bmd.ComplementSem | include/freddy/dd/bmd.hpp:427-430 | complement denotes 1 - a |
| Bmd.ConjSem | include/freddy/dd/bmd.hpp:432-435 | conjunction denotes ab |
| Bmd.DisjSem | include/freddy/dd/bmd.hpp:437-451 | disjunction denotes a + b - ab |
| Bmd.BooleanOps | include/freddy/dd/bmd.hpp:377-451 | on 0/1-valued operands antivalence, conjunction, disjunction and complement are XOR, AND, OR and NOT |
| Bmd.BinValRange | include/freddy/dd/bmd.hpp:307-318 | bits that denote 0 or 1 encode an unsigned number below 2^n |
| Bmd.UnsignedBin | include/freddy/dd/bmd.hpp:307-318 | the unsigned binary encoding is well formed and denotes the sum of 2^i times bit i |
| Bmd.UnsignedBinStep | include/freddy/dd/bmd.hpp:312-316 | each loop step adds 2^i times bit i to the partial sum |
| Bmd.TwosComplement | include/freddy/dd/bmd.hpp:320-327 | the two's complement encoding denotes the unsigned value of the low bits minus 2^(n-1) times the sign bit |
| Bmd.TwosComplementRange | include/freddy/dd/bmd.hpp:320-327 | with 0/1 bits that value lies in [-2^(n-1), 2^(n-1)) |
| Phdd.CombVal | include/freddy/dd/phdd.hpp:471-474 | comb (signs XORed, exponents added) multiplies the factors the two weights stand for |
| Phdd.NodeSemInner | include/freddy/detail/manager.hpp:635-659 | an inner node denotes the selected child at a Shannon variable and lo plus, where x holds, hi at a positive Davio variable |
| Phdd.OppositeSem | include/freddy/dd/phdd.hpp:588-591 | two edges into the same node with opposite signs and equal exponents add up to 0 |
| Phdd.FactorizePow2 | include/freddy/dd/phdd.hpp:355-359 | factorize_pow2 splits w into an odd number times 2^k |
| Phdd.BitWidth | include/freddy/dd/phdd.hpp:299 | n needs BitWidth(n) bits: it lies below 2^BitWidth(n) and, when non-zero, at or above 2^(BitWidth(n)-1) |
| Phdd.BitWidthBound | include/freddy/dd/phdd.hpp:299 | a width of at most k bits is the same as a value below 2^k, the test that refuses leaves of 53 bits |
| Phdd.ConstantSem | include/freddy/dd/phdd.hpp:291-306 | constant on an integer is refused exactly when the odd part of its magnitude needs 53 bits, and otherwise denotes that integer everywhere |
| Phdd.LeafEdgeSem | include/freddy/dd/phdd.hpp:419-422 | a leaf edge denotes its weight's factor +-2^e times the leaf value |
| Phdd.Normw | include/freddy/dd/phdd.hpp:383-394 | normw is the other operand's weight when one is the constant 0, otherwise the first operand's sign with the smaller of the two exponents |
| Phdd.ApplySem | include/freddy/dd/phdd.hpp:424-429 | apply keeps the diagram well formed and multiplies its value by the weight's factor |
| Phdd.Cof | include/freddy/dd/phdd.hpp:459-469 | the cofactor is no larger than the diagram and smaller at a node of the variable |
| Phdd.CofSem | include/freddy/dd/phdd.hpp:459-469 | a diagram is recovered from its cofactors: the selected one at a Shannon variable, the false one plus x times the true one at a Davio variable |
| Phdd.Branch | include/freddy/dd/phdd.hpp:431-457 | branch is well formed |
| Phdd.BranchShape | include/freddy/dd/phdd.hpp:454-456 | when both children are non-zero and differ, the stored high edge is positive and one child carries the exponent 0 |
| Phdd.DivideSem | include/freddy/dd/phdd.hpp:454-456 | factoring the weight w out of an edge and multiplying by w gives back the edge's value |
| Phdd.BranchSem | include/freddy/dd/phdd.hpp:431-457 | branch denotes the Shannon or Davio combination of its children, in each of its five cases |
| Phdd.NormalizedSem | include/freddy/dd/phdd.hpp:611-628 | the normalised sum of n units of sign 2^e denotes that value whenever it is not refused |
| Phdd.ShiftGuard | include/freddy/dd/phdd.hpp:604-608 | the shift guard of plus lets through only shifts after which the value still fits in 64 bits |
| Phdd.PlusConstSem | include/freddy/dd/phdd.hpp:594-629 | plus on two constants is their exact sum whenever it is not refused |
| Phdd.PlusShiftedSem | include/freddy/dd/phdd.hpp:594-629 | aligning the exponents by shifting the second value and then adding or subtracting gives the sum of the two constants |
| Phdd.PlusSameSem | include/freddy/dd/phdd.hpp:611-618 | with equal signs the magnitudes add |
| Phdd.PlusOppositeSem | include/freddy/dd/phdd.hpp:619-623 | with opposite signs the smaller magnitude is subtracted from the larger, which gives its sign |
| Phdd.Plus | include/freddy/dd/phdd.hpp:574-653 | plus yields a well-formed diagram whenever it is not refused |
| Phdd.PlusFactored | include/freddy/dd/phdd.hpp:631-652 | the factored recursive case is well formed |
| Phdd.PlusSplit | include/freddy/dd/phdd.hpp:645-648 | the cofactor sums joined by branch are well formed |
| Phdd.PlusSem | include/freddy/dd/phdd.hpp:574-653 | plus denotes the sum of its operands whenever it is not refused |
| Phdd.PlusFactoredSem | include/freddy/dd/phdd.hpp:631-652 | the factored recursive case denotes the sum |
| Phdd.PlusSplitSem | include/freddy/dd/phdd.hpp:645-648 | the split recursive case denotes the sum |
| Phdd.Mul | include/freddy/dd/phdd.hpp:512-572 | mul yields a well-formed diagram whenever it is not refused |
| Phdd.MulSplit | include/freddy/dd/phdd.hpp:551-566 | the Shannon and Davio recursive cases of mul are well formed |
| Phdd.MulSem | include/freddy/dd/phdd.hpp:512-572 | mul denotes the product of its operands whenever it is not refused |
| Phdd.MulSplitSem | include/freddy/dd/phdd.hpp:551-566 | the recursive case denotes the product |
| Phdd.MulShannonSem | include/freddy/dd/phdd.hpp:553-556 | at a Shannon variable the products of equal cofactors give the product |
| Phdd.MulDavioSplitSem | include/freddy/dd/phdd.hpp:557-563 | at a Davio variable the three products with a true cofactor on the high side and the false product on the low side give the product |
| Phdd.MulDavioSem | include/freddy/dd/phdd.hpp:557-563 | the Davio node built from the four partial products denotes ff + x (tt + tf + ft) |
| Phdd.MulUnit | include/freddy/dd/phdd.hpp:521-528 | mul by an edge into the leaf 1 is never refused and applies that edge's weight |
| Phdd.Neg | include/freddy/dd/phdd.hpp:396-401 | negation is well formed where it is not refused |
| Phdd.Sub | include/freddy/dd/phdd.hpp:403-409 | subtraction is well formed where it is not refused |
| Phdd.Antiv | include/freddy/dd/phdd.hpp:411-417 | antivalence is well formed where it is not refused |
| Phdd.Complement | include/freddy/dd/phdd.hpp:476-481 | complement is well formed where it is not refused |
| Phdd.Disj | include/freddy/dd/phdd.hpp:491-505 | disjunction is well formed where it is not refused |
| Phdd.NegSem | include/freddy/dd/phdd.hpp:396-401 | negation is never refused and denotes -a: the constant 0 is returned as it is, and otherwise mul by consts[3] only applies the weight -1 |
| Phdd.SubSem | include/freddy/dd/phdd.hpp:403-409 | subtraction denotes a - b |
| Phdd.DerivedSem | include/freddy/dd/phdd.hpp:411-505 | where not refused, antivalence denotes a + b - 2ab, complement 1 - a and disjunction a + b - ab |
| Phdd.WeightedSum | include/freddy/dd/phdd.hpp:320-328 | weighted_sum, where not refused, is well formed and denotes the sum of 2^i times the value of input i |
| Phdd.FactorizeShift | include/freddy/dd/phdd.hpp:355-359 | scaling a positive number by 2^e adds e to its trailing zero bits and keeps its odd part |
| Phdd.NormalizedConstant | include/freddy/dd/phdd.hpp:611-628 | the normalised sum of n units of sign 2^e is exactly the constant for the value +-2^e n, refused in the same cases |
| Phdd.ConstantValue | include/freddy/dd/phdd.hpp:291-306 | a constant that is not refused is a leaf edge standing for the given integer |
| Phdd.LeafCanonical | include/freddy/dd/phdd.hpp:291-306 | stored constants are canonical: two well-formed leaf edges for the same integer are the same edge |
| Phdd.PlusSameExact | include/freddy/dd/phdd.hpp:611-618 | with equal signs plus is refused exactly when the magnitudes overflow 64 bits, and otherwise gives the constant for the sum |
| Phdd.PlusOppositeExact | include/freddy/dd/phdd.hpp:619-623 | with opposite signs plus gives the constant for the difference |
| Phdd.PlusOrderedExact | include/freddy/dd/phdd.hpp:594-629 | plus on two ordered constants is refused exactly when the shifted value or the same-sign sum overflows 64 bits, and otherwise gives the constant for the sum |
| Phdd.PlusLeaves | include/freddy/dd/phdd.hpp:574-629 | plus on two stored constants is refused exactly when both are non-zero, do not cancel, and either the aligned values overflow 64 bits or the sum's odd part needs 53 bits; otherwise it gives a constant for the sum |
| Phdd.MulLeaves | include/freddy/dd/phdd.hpp:512-538 | mul on two stored constants is refused exactly when both are non-zero and their odd parts multiply to 2^53 or more, where the product is not exact in a double; otherwise it gives a constant for the product |
| Phdd.Flip | include/freddy/dd/phdd.hpp:396-401 | flipping the sign of a leaf edge negates the integer it stands for |
| Phdd.NegLeaf | include/freddy/dd/phdd.hpp:396-401 | neg on a stored constant is never refused and flips its sign |
| Phdd.SubLeaves | include/freddy/dd/phdd.hpp:403-409 | sub on two stored constants is refused exactly when plus refuses the first and the negated second, and otherwise gives a constant for the difference |
| Phdd.ComplementLeaf | include/freddy/dd/phdd.hpp:476-481 | complement on a stored constant v is refused exactly when sub refuses 1 and v, and otherwise gives a constant for 1 - v |
| Phdd.ConstantSmall | include/freddy/dd/phdd.hpp:291-306 | constant never refuses an integer below 2^52 in magnitude |
| Phdd.PlusBounded | include/freddy/dd/phdd.hpp:574-629 | plus on two stored constants below 2^51 in magnitude is never refused |
| Phdd.BoundedOperands | include/freddy/dd/phdd.hpp:594-629 | two constants below 2^51 in magnitude pass both overflow checks of plus, and their sum is a constant that is not refused |
| Phdd.SmallConstants | include/freddy/dd/phdd.hpp:291-306 | the constants 1 and 2 are not refused, and plus gives 1 + 1 = 2 |
| Phdd.TwoMinusOne | include/freddy/dd/phdd.hpp:403-409 | sub gives 2 - 1 = 1 |
| Phdd.MulBool | include/freddy/dd/phdd.hpp:483-489 | conj (mul) on the constants 0 and 1 is never refused and computes AND |
| Phdd.AntivBool | include/freddy/dd/phdd.hpp:411-417 | antiv on the constants 0 and 1 is never refused and computes XOR |
| Phdd.ComplementBool | include/freddy/dd/phdd.hpp:476-481 | complement on the constants 0 and 1 is never refused and computes NOT |
| Phdd.DisjBool | include/freddy/dd/phdd.hpp:491-505 | disj on the constants 0 and 1 is never refused and computes OR |
| Mtdd.EvalValue | include/freddy/detail/manager.hpp:300-306 | evaluating an edge with the manager's eval, on a diagram of Shannon nodes, is agg applied to the leaf value the assignment reaches |
| Mtdd.Cofactor | include/freddy/detail/manager.hpp:391-424 | the cofactor is no larger than the diagram, strictly smaller when the top node is labelled by the variable, and stays well formed |
| Mtdd.CofValue | include/freddy/detail/manager.hpp:391-424 | fixing a variable to the value the assignment gives it does not change the diagram's value under that assignment |
| Mtdd.CofIsManagerCof | include/freddy/detail/manager.hpp:391-424 | on multi-terminal diagrams this cofactor coincides with the manager's generic Shannon cofactor |
| Mtdd.Branch | include/freddy/dd/add.hpp:333-340 | make_branch of a variable yields a well-formed diagram and collapses to the child when both children are equal |
| Mtdd.BranchValue | include/freddy/dd/add.hpp:333-340 | the branch's value is the high child's value where the variable is true and the low child's where it is false |
| Mtdd.ValueLeaf | include/freddy/detail/manager.hpp:635-659 | every value a diagram takes is one of its leaves: a property of all leaves holds of every value |
| Mtdd.CofLeaves | include/freddy/detail/manager.hpp:391-424 | a cofactor has no leaves its diagram does not have |
| Mtdd.BranchLeaves | include/freddy/dd/add.hpp:333-340 | a branch has no leaves its children do not have |
| Add.SemValue | include/freddy/dd/add.hpp:328-331 | reading a diagram through the ADD's agg (the leaf value, weight ignored) gives the value of the leaf the assignment reaches |
| Add.Mul | include/freddy/dd/add.hpp:380-429 | the product of two well-formed ADDs is well formed: regular edges, no node with equal children, variables in order |
| Add.MulValue | include/freddy/dd/add.hpp:380-429 | under every assignment the product diagram's value is the product of the operands' values |
| Add.Plus | include/freddy/dd/add.hpp:431-476 | the sum of two well-formed ADDs is well formed |
| Add.PlusValue | include/freddy/dd/add.hpp:431-476 | under every assignment the sum diagram's value is the sum of the operands' values |
| Add.Neg | include/freddy/dd/add.hpp:311-316 | negation keeps the diagram well formed |
| Add.NegValue | include/freddy/dd/add.hpp:311-316 | the negated diagram has value -v where the operand has v (0 is returned unchanged, anything else multiplied by the constant -1) |
| Add.Sub | include/freddy/dd/add.hpp:318-321 | subtraction keeps the diagram well formed |
| Add.SubValue | include/freddy/dd/add.hpp:318-321 | f - g evaluates to the difference of the operands' values |
| Add.Antiv | include/freddy/dd/add.hpp:323-326 | antivalence, built as (f + g) - 2 (f g), keeps the diagram well formed |
| Add.Complement | include/freddy/dd/add.hpp:348-351 | complement, built as 1 - f, keeps the diagram well formed |
| Add.Disj | include/freddy/dd/add.hpp:358-372 | disjunction, with its shortcuts for the constant 0, keeps the diagram well formed |
| Add.DerivedValue | include/freddy/dd/add.hpp:311-372 | antivalence evaluates to a + b - 2ab, complement to 1 - a and disjunction to a + b - ab, where a and b are the operands' values |
| Add.PlusOfVariables | test/add/basic.cpp:53-61 | the sum of the first two variables takes the values 0, 1, 1 and 2 on the four assignments |
| Mtbdd.SemValue | include/freddy/dd/mtbdd.hpp:329-332 | reading an MTBDD through its agg gives the value of the leaf the assignment reaches |
| Mtbdd.Neg | include/freddy/dd/mtbdd.hpp:276-281 | negation keeps the diagram well formed |
| Mtbdd.Sub | include/freddy/dd/mtbdd.hpp:283-289 | subtraction keeps the diagram well formed |
| Mtbdd.Antiv | include/freddy/dd/mtbdd.hpp:291-297 | antivalence keeps the diagram well formed |
| Mtbdd.Complement | include/freddy/dd/mtbdd.hpp:339-344 | complement keeps the diagram well formed |
| Mtbdd.Disj | include/freddy/dd/mtbdd.hpp:354-360 | disjunction keeps the diagram well formed |
| Mtbdd.NegValue | include/freddy/dd/mtbdd.hpp:276-281 | negation evaluates to -a where the operand evaluates to a |
| Mtbdd.SubValue | include/freddy/dd/mtbdd.hpp:283-289 | f - g evaluates to the difference of the operands' values |
| Mtbdd.DerivedValue | include/freddy/dd/mtbdd.hpp:291-360 | antivalence evaluates to a + b - 2ab, complement to 1 - a and disjunction to a + b - ab |
| Mtbdd.BooleanOps | include/freddy/dd/mtbdd.hpp:291-360 | on 0/1 diagrams antivalence, complement, disjunction and conjunction are XOR, NOT, OR and AND of the operands read as 1 = true |
| Bruh.SemValue | include/freddy/dd/bruh.hpp:249-252 | a BRUH diagram reads as 1 under an assignment exactly when the leaf the assignment reaches is non-zero |
| Bruh.ConjSem | include/freddy/dd/bruh.hpp:273-305 | conj, the product of leaves, is the Boolean AND of its operands whatever their leaf values |
| Bruh.NonZeroProduct | include/freddy/dd/bruh.hpp:273-305 | a product of integers is non-zero exactly when both factors are |
| Bruh.DisjSem | include/freddy/dd/bruh.hpp:307-328 | disj, the sum of leaves, is the Boolean OR of its operands when their leaves are non-negative |
| Bruh.ConjNonNeg | include/freddy/dd/bruh.hpp:273-305 | the product of diagrams with non-negative leaves has only non-negative leaves |
| Bruh.DisjNonNeg | include/freddy/dd/bruh.hpp:307-328 | the sum of diagrams with non-negative leaves has only non-negative leaves |
| Bruh.Complement | include/freddy/dd/bruh.hpp:259-271 | complement, which maps every leaf c to 1 - c, keeps the diagram well formed |
| Bruh.ComplementValue | include/freddy/dd/bruh.hpp:259-271 | the complement's value is 1 - v where the operand's value is v |
| Bruh.ComplementSem | include/freddy/dd/bruh.hpp:259-271 | on diagrams whose leaves are 0 or 1 the complement is the Boolean negation |
| Bruh.ComplementCounterexample | include/freddy/dd/bruh.hpp:259-271 | for x0 OR x0, which disj builds with the leaf 2 that reads as true, the complement has leaf -1, which also reads as true: the complement is not the negation |
| Bruh.ComplementFixed | include/freddy/dd/bruh.hpp:259-271 | complement that maps a leaf to 0 when it is non-zero and to 1 otherwise is well formed with 0/1 leaves |
| Bruh.ComplementFixedSem | include/freddy/dd/bruh.hpp:259-271 | the corrected complement is the Boolean negation on every diagram |
| Bruh.BitsNonNeg | include/freddy/dd/bruh.hpp:259-271 | a diagram whose leaves are 0 or 1 has non-negative leaves |
| EddyBdd.Conj | include/eddy/dd/bdd.hpp:461-492 | eddy's conj, with only the constant-1 and same-node shortcuts, is canonical and no higher than its operands |
| EddyBdd.ConjSplit | include/eddy/dd/bdd.hpp:485-486 | the Shannon step of conj is canonical and lies at or below the split variable |
| EddyBdd.ConjSem | include/eddy/dd/bdd.hpp:461-492 | eddy's conj is the Boolean AND of its operands |
| EddyBdd.ConjAgrees | include/eddy/dd/bdd.hpp:461-492 | despite its shorter list of terminal cases, eddy's conj returns the same edge as freddy's BDD conj |
| EddyBdd.Disj | include/eddy/dd/bdd.hpp:494-501 | disj, the complement of the conjunction of complements, is canonical |
| EddyBdd.DisjSem | include/eddy/dd/bdd.hpp:494-501 | disj is the Boolean OR |
| EddyBdd.Apply | include/eddy/dd/bdd.hpp:446-451 | apply keeps the node and complements the edge exactly when the weight is 1 |
| EddyBdd.StdTriple | include/eddy/dd/bdd.hpp:293-342 | std_triple as written never raises the top level; cases 1 and 2 agree with freddy's, while case 3 yields (NOT g, g, h) and case 4 (NOT h, g, h), because the second assignment reads the already overwritten f |
| EddyBdd.StdComplement | include/eddy/dd/bdd.hpp:320-339 | the two complementing cases, as written, yield (NOT g, g, h) and (NOT h, g, h) |
| EddyBdd.Ite | include/eddy/dd/bdd.hpp:344-392 | eddy's ite is canonical and no higher than its operands |
| EddyBdd.IteSplit | include/eddy/dd/bdd.hpp:384-386 | the Shannon step of ite is canonical |
| EddyBdd.IteStdTripleCounterexample | include/eddy/dd/bdd.hpp:320-328 | ite(x1, x0, NOT x1) becomes x0 through case 3, which is false on the all-false assignment where the intended if-then-else is true |
| EddyBdd.IteStdTripleCase4Counterexample | include/eddy/dd/bdd.hpp:330-338 | ite(x1, NOT x1, x0) becomes x0 through case 4, which is true on the all-true assignment where the intended if-then-else is false |
| EddyBdd.SatCount | include/eddy/dd/bdd.hpp:221-262 | satcount is the number of satisfying assignments over all variables |
| EddyVariable.MakeEdge | include/eddy/detail/variable.hpp:43-48 | an edge holds its weight and node, and is a constant exactly when its node is null |
| EddyVariable.EdgeEqHash | include/eddy/detail/variable.hpp:50-58 | edge equality is equality of weight and node, and equal edges hash alike |
| EddyVariable.MakeNode | include/eddy/detail/variable.hpp:78-88 | a node holds its variable and children and starts unmarked |
| EddyVariable.NodeHashConsistent | include/eddy/detail/variable.hpp:90-99 | node equality compares variable and children only, equal nodes hash alike, and the visited mark does not enter the hash |
| EddyVariable.MakeVariable | include/eddy/detail/variable.hpp:117-127 | a variable holds its decomposition and a non-empty label |
| Counting.CountSplit | include/freddy/dd/bdd.hpp:295-318 | Shannon decomposition of a model count: twice the count is the sum of the counts of the two cofactors |
| Counting.CountNot | include/freddy/dd/bdd.hpp:295-318 | a complemented function has 2^n minus the count of models |
| Counting.CountConst | include/freddy/dd/bdd.hpp:299-302 | the constant 0 has no models and the constant 1 has 2^n |
| Counting.CountModelsTwo | include/freddy/dd/bdd.hpp:295-318 | over two variables the count is the number of true entries of the truth table |
| Dimacs.Encode | test/bhd/debug.cpp:80-99 | a DIMACS literal -k is stored as 2(k-1) and +k as 2(k-1)+1: the code's half is the variable, its parity the polarity |
| Dimacs.Decode | test/bhd/debug.cpp:137-146 | a stored code stands for a non-zero DIMACS literal on variable code/2 + 1 whose sign is the code's parity |
| Dimacs.EncodeDecode | test/bhd/debug.cpp:80-99 | encoding and decoding literals are mutually inverse |
| Dimacs.OccPositive | test/bhd/debug.cpp:85-97 | a variable that occurs in the formula has a positive occurrence count |
| Dimacs.PolBounded | test/bhd/debug.cpp:85-97 | the polarity balance of a variable never exceeds its occurrence count in magnitude |
| Dimacs.Fresh | test/bhd/debug.cpp:65-103 | a freshly read instance has every variable unset, the occurrence counts and polarity balances of its clauses, and those clauses |
| Dimacs.HeaderEnd | test/bhd/debug.cpp:45-62 | skipping comment lines ends just after a "p cnf" header, or at the end of an input made of comments only; it fails on any other line |
| Dimacs.Extract | test/bhd/debug.cpp:68-102 | one `>>` of a number: a number token is read and passed, any other token stores 0 and fails the stream for good, and at the end of the input the target keeps its value |
| Dimacs.ReadRest | test/bhd/debug.cpp:81-101 | the clause after a literal is read up to the 0 that ends it, every literal on a declared variable; at the end of the input it is read only when that literal is 0, since a nonzero one is never replaced and the loop never ends |
| Dimacs.ReadClause | test/bhd/debug.cpp:78-101 | a clause is read up to its terminating 0, with every literal on a declared variable; a clause that starts at the end of the input is empty |
| Dimacs.ReadClauses | test/bhd/debug.cpp:74-102 | reading m clauses yields exactly m clauses over the declared variables |
| Dimacs.Parse | test/bhd/debug.cpp:43-104 | a parsed instance only has literals on its declared variables |
| Dimacs.CommentsOnly | test/bhd/debug.cpp:45-75 | a stream of comments only reads as the instance with no variables and no clauses, as both counts stay 0 |
| Dimacs.MissingClauses | test/bhd/debug.cpp:74-80 | clauses declared but missing at the end of the input read as empty clauses |
| Dimacs.NonNumberEndsClause | test/bhd/debug.cpp:80-102 | a token that is not a number ends the clause, since the failed extraction stores 0 |
| Dimacs.TruncatedClause | test/bhd/debug.cpp:80-102 | a clause cut off by the end of the input after a nonzero literal gives no instance, since the literal loop never ends |
| Dimacs.ReadLiterals | test/bhd/debug.cpp:78-101 | the literal loop reads the clause the specification reads and counts each literal's occurrence and polarity |
| Dimacs.TalliedFresh | test/bhd/debug.cpp:65-103 | counts that tally the clauses read are those of the fresh instance |
| Dimacs.ReadClauseList | test/bhd/debug.cpp:74-102 | the clause loop reads the clauses the specification reads and tallies all of them |
| Dimacs.Read | test/bhd/debug.cpp:43-104 | the reader computes exactly the parsed instance: it fails exactly where Dimacs.Parse does (a non-comment line other than "p cnf", a negative count, a literal beyond the declared variables, a clause cut off by the end of the input) |
| Dimacs.EncodeClause | test/bhd/debug.cpp:80-99 | encoding a clause encodes each literal in place |
| Dimacs.DecodeClause | test/bhd/debug.cpp:137-146 | decoding a clause decodes each literal in place |
| Dimacs.DecodeEncodeClause | test/bhd/debug.cpp:80-99 | decoding an encoded clause gives back the DIMACS clause |
| Dimacs.ReadClauseWritten | test/bhd/debug.cpp:78-101 | a clause line written as literals and 0 reads back as the encoded clause |
| Dimacs.ReadLinesWritten | test/bhd/debug.cpp:74-102 | the written clause lines read back as the encoded clauses |
| Dimacs.ParseWrite | test/bhd/debug.cpp:43-104 | reading what the DIMACS writer produced, whatever follows it, gives the fresh instance of the encoded clauses |
| Dimacs.ReadWritten | test/bhd/debug.cpp:43-104 | any stream laid out as the writer lays it out reads back as that fresh instance |
| Dimacs.SatLit | test/bhd/debug.cpp:157 | the literal of x that the value v makes true is on x and positive exactly when v is true |
| Dimacs.DropLiteral | test/bhd/debug.cpp:171-180 | removing a false literal of the assigned variable does not change whether a clause holds |
| Dimacs.DropClause | test/bhd/debug.cpp:159-169 | removing a clause that holds does not change whether the formula holds |
| Dimacs.ReplaceClause | test/bhd/debug.cpp:171-180 | replacing a clause by an equivalent one keeps the formula's value |
| Dimacs.Simplify | test/bhd/debug.cpp:148-182 | after x is set, simplify clears x's count, reports SAT with no clauses left, UNSAT only when some clause is false under every assignment extending x's value, and otherwise leaves clauses without x drawn from the old literals and equisatisfiable with the old ones |
| Dimacs.FirstOnVar | test/bhd/debug.cpp:153-179 | the index of the first literal on x, with no literal on x before it |
| Dimacs.SimplifyAsWritten | test/bhd/debug.cpp:148-182 | simplify as written, which decides each clause by its first literal on x and then breaks, reports SAT only with no clauses left |
| Dimacs.SimplifyDuplicateCounterexample | test/bhd/debug.cpp:171-180 | on (x1) and (NOT x1 OR NOT x1), which is unsatisfiable, the written simplify keeps (NOT x1) after x1 is set, and the solver then sets x1 false and reports SAT |
| Dpll.FreshClean | test/bhd/debug.cpp:43-104 | an instance read from a stream without empty clauses has the shape the search relies on: only unset variables in clauses, each with a positive count |
| Dpll.FreshConsistent | test/bhd/debug.cpp:65-70 | every assignment of the right length agrees with a freshly read instance, since it sets no variable |
| Dpll.SimplifiedClean | test/bhd/debug.cpp:148-182 | assigning a variable and simplifying it away keeps that shape |
| Dpll.UnitForces | test/bhd/debug.cpp:191-202 | every satisfying assignment makes the literal of a unit clause true |
| Dpll.Up | test/bhd/debug.cpp:184-216 | unit propagation reports SAT with no clauses left, or UNKNOWN with clauses and no unit clause left, only extends the assignment, keeps the satisfying assignments that agree with it, and reports UNSAT only when no assignment agreeing with the input satisfies it (with the corrected simplify, Dimacs.Simplify) |
| Dpll.MaxElement | test/bhd/debug.cpp:233 | max_element returns the first index holding the largest count |
| Dpll.BusiestUnassigned | test/bhd/debug.cpp:233 | in an instance with clauses left, the variable with the most literals is unset and occurs |
| Dpll.Solver.constructor | test/bhd/debug.cpp:43-104 | the solver holds the instance read from the stream |
| Dpll.Solver.Dpll | test/bhd/debug.cpp:218-256 | DPLL decides: on SAT the stored instance has no clauses and an assignment that extends the input's and forces all its clauses; on UNSAT no assignment agreeing with the input satisfies it and the stored instance is unchanged (with the corrected simplify, Dimacs.Simplify) |
| Dpll.Solver.Decide | test/bhd/debug.cpp:234-253 | one branch: x takes v; SAT gives a stored solution with x = v, UNSAT means no agreeing assignment with x = v satisfies the instance (with the corrected simplify, Dimacs.Simplify) |
| Dpll.Solver.Solve | test/bhd/debug.cpp:107-126 | solve returns a satisfying assignment, unset variables false, when one exists that agrees with the instance, and the empty vector when none does (with the corrected simplify, Dimacs.Simplify; as written, solve can report SAT on an unsatisfiable instance, see "## Findings") |
| Mux.Unit | test/bhd/debug.cpp:296-302 | the unit clause of (x, pol) is the DIMACS literal x+1 or -(x+1), whose code makes x take pol |
| Mux.Units | test/bhd/debug.cpp:296-302 | one unit clause per pair of the expansion path, in order |
| Mux.PathCodes | test/bhd/debug.cpp:283-302 | the formula of a path, as the reader stores it, has no empty clause and only the three MUX variables |
| Mux.SatFlags | test/bhd/debug.cpp:281-309 | one flag per expansion path |
| Mux.SatFlagsAt | test/bhd/debug.cpp:281-309 | flag k says whether the formula of path k has a solution over the three inputs |
| Mux.PathFormulaWellFormed | test/bhd/debug.cpp:283-302 | the written formula is a DIMACS formula over 3 variables with no empty clause |
| Mux.SolvePath | test/bhd/debug.cpp:283-308 | solving one path's formula gives the empty vector exactly when it has no solution, and otherwise a pattern that solves it (with the corrected simplify, Dimacs.Simplify) |
| Mux.FreshSolution | test/bhd/debug.cpp:107-126 | on a fresh instance the solver's answer is empty exactly when the formula is unsatisfiable, and otherwise a satisfying assignment of the three variables (with the corrected simplify, Dimacs.Simplify) |
| Mux.KeepSolution | test/bhd/debug.cpp:304-309 | one iteration keeps a solution exactly when the path's formula is satisfiable (with the corrected simplify, Dimacs.Simplify) |
| Mux.SourcedSolves | test/bhd/debug.cpp:275-312 | every kept pattern solves the formula of one of the paths (with the corrected simplify, Dimacs.Simplify) |
| Mux.MuxSat | test/bhd/debug.cpp:275-312 | mux_sat returns one pattern per expansion path whose formula is satisfiable, and each solves one of the formulas (with the corrected simplify, Dimacs.Simplify) |
| Faults.MuxSim | test/bhd/debug.cpp:315-345 | fault localisation returns the faults common to the first k patterns, where k is all of them or the first count from the second pattern on that leaves a single fault |
| Faults.CommonShrinks | test/bhd/debug.cpp:327-338 | the faults common to a prefix of the patterns include those common to all of them |
| Faults.StuckAt0Solutions | test/bhd/debug.cpp:355 | with the base clauses (NOT s OR a) and (s OR b) and the unit clause NOT s, every solution has s = 0 and b = 1 |
| Faults.StuckAt1Solutions | test/bhd/debug.cpp:371 | with (NOT s OR NOT a), (s OR NOT b) and NOT s, every solution has s = 0 and b = 0 |
| Faults.StuckAt0Localised | test/bhd/debug.cpp:348-363 | the diagram's pattern (1, 1, 0) and the solver's pattern (0, a, 1) leave exactly the fault f/0, whatever a is; the two patterns are given, not derived from the diagram |
| Faults.StuckAt1Localised | test/bhd/debug.cpp:365-380 | the patterns (1, 0, 0) and (0, a, 0) leave exactly the fault f/1; the two patterns are given, not derived from the diagram |
| Blif.Gate1Sem | test/util_blif.cpp:95-121 | the one-input cover table gives a buffer for 00 and 11 and an inverter for 01 and 10: the built function takes the cover's value |
| Blif.Stoi2 | test/util_blif.cpp:135 | std::stoi on a two-digit cube of 0s and 1s is the number those digits spell |
| Blif.Gate2AsWrittenSem | test/util_blif.cpp:123-160 | on cubes of 0s and 1s the switch on the cube read as a number realises the one-cube cover |
| Blif.DontCareCounterexample | test/util_blif.cpp:135-160 | the cube 1- with output 1 reads as the number 1 and builds (not a) and b, which differs from the cover a at a = 1, b = 0 (finding 10) |
| Blif.CubeLitSem | test/util_blif.cpp:123-160 | the literal a cube character asks for is the input for 1, its complement for 0, and true for a don't-care |
| Blif.Gate2Sem | test/util_blif.cpp:123-160 | the corrected two-input gate realises the one-cube cover for every cube over 0, 1 and - |
| Blif.ConstGateCounterexample | test/util_blif.cpp:87-92 | on the well-formed netlist y = a and 1, the simulation pass as written re-registers the constant with use count 0, so it ends at -1, is never erased, and on_end's count check fails (finding 11) |
| Blif.ConstNetlistPass1 | test/util_blif.cpp:53-177 | the analysis pass over that netlist counts one use each of a and the constant |
| Blif.ConstNetlistPass2 | test/util_blif.cpp:87-177 | the simulation pass as written leaves the constant with count -1 beside the output |
| Blif.UseCounts | test/util_blif.cpp:162-168 | the analysis pass adds one use per occurrence of a signal among a gate's inputs and registers the output with no uses |
| Blif.AnalysisConst | test/util_blif.cpp:87-92 | the analysis pass registers a constant gate with no uses and its constant |
| Blif.AnalysisUse | test/util_blif.cpp:115-120 | the analysis pass on a gate with inputs counts their uses and adds the output |
| Blif.Pass1 | test/util_blif.cpp:53-177 | on a netlist in topological order every analysis callback's assertions hold and each signal's count is the number of gates reading it |
| Blif.ReleaseSpec | test/util_blif.cpp:108-112 | releasing a use lowers the count by one and erases the signal at zero unless it is a primary output |
| Blif.ReleaseAllSpec | test/util_blif.cpp:145-156 | releasing a gate's inputs lowers each count by the number of times the gate reads it, erasing dead non-outputs |
| Blif.GateFunctionSem | test/util_blif.cpp:87-160 | the function the simulation pass gives a gate is the value of its cover on the values of its inputs |
| Blif.Pass2Counts | test/util_blif.cpp:108-156 | after each gate the remaining count of a signal is the number of later gates reading it, and exactly the still-needed signals remain |
| Blif.Pass2Value | test/util_blif.cpp:95-160 | the output's new function computes that signal of the netlist, and earlier signals keep their values |
| Blif.StepAgrees | test/util_blif.cpp:87-177 | the reader as written and the corrected one take the same step on every callback except a constant gate or a two-input cube with a don't-care in the simulation pass |
| Blif.Pass2 | test/util_blif.cpp:53-177 | along a well-formed netlist every simulation callback's assertions hold and each remaining entry computes its signal (with the corrected gate steps, Blif.Step) |
| Blif.Pass2Start | test/util_blif.cpp:201-213 | the end of the analysis pass is the start of the simulation pass |
| Blif.ReaderCorrect | test/util_blif.cpp:45-213 | on a well-formed netlist both passes run through, on_end's count check holds, exactly the primary outputs remain, and each computes its signal over the primary inputs (with the corrected gate steps, Blif.Step) |
| BlifReader.Reader.constructor | test/util_blif.cpp:48-51 | a new reader is in the analysis phase with an empty table and the first sifting threshold |
| BlifReader.Reader.OnModel | test/util_blif.cpp:53-58 | on_model records the model name and changes nothing else |
| BlifReader.Reader.OnInput | test/util_blif.cpp:60-70 | in the analysis phase on_input registers the next variable with use count 0 and appends the input; in the simulation phase it changes nothing |
| BlifReader.Reader.OnOutput | test/util_blif.cpp:72-80 | on_output appends the output in the analysis phase only |
| BlifReader.Reader.OnGate | test/util_blif.cpp:82-199 | on_gate updates the signal table as the callback model says; with the shared reader a garbage collection happens exactly when the threshold is non-zero and exceeded, and a reordering exactly when it is still exceeded after it; the KFDD test reader reorders whenever the threshold is exceeded (with the corrected gate steps, Blif.Step) |
| BlifReader.Reader.Update | test/util_blif.cpp:87-177 | the signal-table part of on_gate is one step of the callback model (with the corrected gate steps, Blif.Step) |
| BlifReader.Reader.Double | test/util_blif.cpp:190-191 | a reordering doubles the threshold and keeps every function |
| BlifReader.Reader.OnEnd | test/util_blif.cpp:201-213 | after the simulation pass on_end appends the remaining entries' functions in table order; every call ends the analysis phase |
| BlifReader.Reader.On | test/util_blif.cpp:45-213 | each parser callback is one step of the callback model (with the corrected gate steps, Blif.Step) |
| BlifReader.RunPrefix | test/util_blif.cpp:425-437 | a prefix of a run that went through went through |
| BlifReader.RunStep | test/util_blif.cpp:425-437 | each callback of a run sees its assertions satisfied and takes one step |
| BlifReader.Pass | test/util_blif.cpp:425-437 | one reading of the file runs the callbacks in order (with the corrected gate steps, Blif.Step) |
| BlifReader.Analyse | test/util_blif.cpp:427 | the analysis reading of a netlist in topological order leaves the primary inputs, the primary outputs and one variable per input (with the corrected gate steps, Blif.Step) |
| BlifReader.Simulate | test/util_blif.cpp:433 | the simulation reading of a well-formed netlist leaves one function per output, each computing its signal (with the corrected gate steps, Blif.Step) |
| BlifReader.ReadBlif | test/util_blif.cpp:439-451 | read_blif succeeds exactly when both readings parse; then f holds one function per primary output, each computing that output over the primary inputs (with the corrected gate steps, Blif.Step) |
| Equiv.ExhaustiveIffEquivalent | include/freddy/util.hpp:17-41 | with step 1 the enumeration passes exactly when the two diagrams agree on every input vector |
| Equiv.EquivalentSampled | include/freddy/util.hpp:17-41 | equivalent diagrams pass the test whatever the step |
| Equiv.InputVars | include/freddy/util.hpp:28-32 | the input vector of counter i gives variable j bit j of i |
| Equiv.EvalDds | include/freddy/util.hpp:17-41 | eval_dds returns true exactly when the diagrams agree on every enumerated counter value below 2^n |
| Equiv.EvalDdsNarrow | test/util.cpp:19-43 | the int-shift copy of eval_dds gives the same verdict for up to 30 variables |
| Equiv.CompareOutputs | test/util_blif.cpp:544-552 | the inner loop of blif_eq returns true exactly when every pair of outputs agrees on the input vector of counter i |
| Equiv.BlifEq | test/util_blif.cpp:527-555 | blif_eq returns true exactly when every pair of outputs agrees on every enumerated assignment |
| Equiv.SamplesDistinct | include/freddy/util.hpp:26-33 | with a step of at least 1 no input vector is evaluated twice |
| Equiv.ReadersAgree | test/kfdd/blif.cpp:591-633 | the kfdd/bdd correctness test: two readers whose outputs compute the netlist's signals pass the sampled comparison for any step (with the corrected gate steps, Blif.Step) |
| Binary.LsbAt | include/freddy/util.hpp:31 | element j of the input vector is bit j of the counter |
| Binary.MsbAt | test/mtbdd/picture.cpp:27-35 | int_to_bits puts bit i at position size - 1 - i |
| Binary.LsbRoundTrip | include/freddy/util.hpp:28-32 | reading back the input vector of a counter below 2^n gives the counter |
| Binary.LsbValueRoundTrip | include/freddy/util.hpp:28-32 | every input vector is the vector of the number it spells, so the enumeration reaches all of them |
| Binary.MsbRoundTrip | test/mtbdd/picture.cpp:27-35 | the bits int_to_bits returns for x below 2^size spell x |
| Binary.MsbValueRoundTrip | test/mtbdd/picture.cpp:27-35 | every bit vector is the int_to_bits of the number it spells |
| Binary.MsbConcat | test/mtbdd/picture.cpp:51 | the bits of pixel index y 2^wv + x are the bits of row y followed by the bits of column x |
| Picture.CreateVars | test/mtbdd/picture.cpp:10-15 | create_vars adds variables until the manager has amount of them, and does nothing when it already has that many |
| Picture.ExtendedKeeps | test/mtbdd/picture.cpp:10-15 | the added variables keep the order a permutation and keep the old variables' levels and expansions |
| Picture.LiteralValue | test/mtbdd/picture.cpp:19-23 | the literal for bit b of variable i is 1 exactly where variable i has value b |
| Picture.IntToBits | test/mtbdd/picture.cpp:27-35 | int_to_bits(x, size) puts bit i of x at position size - 1 - i |
| Picture.OperateAnd | test/mtbdd/picture.cpp:17-25 | operate_and keeps f's value on the assignments that start with bits and gives 0 on all others |
| Picture.CeilLog2 | test/mtbdd/picture.cpp:38-39 | ceil(log2 n) is the least k with 2^k at least n |
| Picture.CellBits | test/mtbdd/picture.cpp:45-57 | an assignment is the bits of y followed by the bits of x exactly when it spells row y and column x |
| Picture.DisjointOr | test/mtbdd/picture.cpp:55 | where one operand is 0 the MTBDD's arithmetic or is the sum, so or-ing minterms of distinct cells adds them |
| Picture.EncodePixel | test/mtbdd/picture.cpp:50-56 | adding the minterm of an in-range pixel stores that pixel on its cell and changes no other cell |
| Picture.EncodeRow | test/mtbdd/picture.cpp:49-58 | one row of the encoder stores that row's pixels and advances the pixel index by 2^wv |
| Picture.EncodeGrid | test/mtbdd/picture.cpp:43-60 | the loops over the padded grid build a diagram whose value on each assignment is the pixel of the cell it spells, 0 on padding |
| Picture.Encode | test/mtbdd/picture.cpp:37-61 | matrix_img_to_add grows the manager to ceil(log2 h) + ceil(log2 w) variables and returns a diagram storing the image |
| Picture.DecodeRow | test/mtbdd/picture.cpp:74-80 | one row of the decoder reads each in-range pixel from the diagram at its cell's bits |
| Picture.Decode | test/mtbdd/picture.cpp:63-84 | matrix_add_to_img returns an h x w image whose pixel (y, x) is the diagram's value at the bits of y followed by the bits of x |
| Picture.DecodedPixel | test/mtbdd/picture.cpp:63-84 | decoding reads back, at each cell, the pixel encoding stored there |
| Picture.RoundTrip | test/mtbdd/picture.cpp:86-117 | an image encoded on an empty manager and decoded again is the image |

## Left out

- Reading files and streams, lorina's BLIF parser and Catch2 are not modelled. The parser's callbacks are the events the reader model consumes, and its verdicts are parameters of `BlifReader.ReadBlif`.
- Console output, DEBUG blocks and the gdb pretty-printer are not modelled: they change no diagram.
- Concrete hash functions are not modelled. The hashes of pointers, weights and constants are parameters, so the model proves consistency of hash with equality, not particular hash values.
- The iteration order of hash tables is not modelled. Where it matters it is a parameter, such as `order` in `BlifReader.Reader.OnEnd`.
- Threads and parallel loops are not modelled.
- Memory addresses are not modelled. The pointer order of the commutative cache keys is a parameter.
- Add.Mul: does not model the overflow_error that boost safe_numerics raises on 32-bit overflow of a leaf product; leaves are unbounded integers.
- Add.Plus: does not model the overflow_error on 32-bit overflow of a leaf sum; leaves are unbounded integers.
- Mtbdd.Neg: leaves are unbounded integers, so 32-bit wrap-around of the int32 constants is not modelled.
- Kfdd.SharpSatFixedCounts: the count is exact. The source's double loses precision beyond 2^53 models, and that is not modelled.
- Bdd.SharpSat: the count is exact. The source's double loses precision beyond 2^53 models, and that is not modelled.
- PHDD constants built from a fractional double are not modelled. Values are integers, and an odd leaf stays below 2^53 so that it is exact in a double.
- Phdd.Plus: promises a well-formed result only when it is not refused. When plus throws on diagrams with inner nodes is not characterised. The exact refusal condition is proved only for constant operands (Phdd.PlusLeaves, Phdd.MulLeaves, Phdd.SubLeaves, Phdd.ComplementLeaf), together with non-refusal on the constants 0 and 1 (Phdd.MulBool, Phdd.AntivBool, Phdd.ComplementBool, Phdd.DisjBool) and for constants below 2^51 (Phdd.PlusBounded).
- Phdd.PlusSem: states the sum only when plus is not refused. When plus throws on diagrams with inner nodes is not characterised. The exact refusal condition is proved only for constant operands (Phdd.PlusLeaves, Phdd.MulLeaves, Phdd.SubLeaves, Phdd.ComplementLeaf), together with non-refusal on the constants 0 and 1 (Phdd.MulBool, Phdd.AntivBool, Phdd.ComplementBool, Phdd.DisjBool) and for constants below 2^51 (Phdd.PlusBounded).
- Phdd.PlusConstSem: states the sum only when plus is not refused; Phdd.PlusLeaves states exactly when it is. The exact refusal condition is proved only for constant operands (Phdd.PlusLeaves, Phdd.MulLeaves, Phdd.SubLeaves, Phdd.ComplementLeaf), together with non-refusal on the constants 0 and 1 (Phdd.MulBool, Phdd.AntivBool, Phdd.ComplementBool, Phdd.DisjBool) and for constants below 2^51 (Phdd.PlusBounded).
- Phdd.Mul: promises a well-formed result only when it is not refused. When mul throws on diagrams with inner nodes is not characterised. The exact refusal condition is proved only for constant operands (Phdd.PlusLeaves, Phdd.MulLeaves, Phdd.SubLeaves, Phdd.ComplementLeaf), together with non-refusal on the constants 0 and 1 (Phdd.MulBool, Phdd.AntivBool, Phdd.ComplementBool, Phdd.DisjBool) and for constants below 2^51 (Phdd.PlusBounded).
- Phdd.MulSem: states the product only when mul is not refused. When mul throws on diagrams with inner nodes is not characterised. The exact refusal condition is proved only for constant operands (Phdd.PlusLeaves, Phdd.MulLeaves, Phdd.SubLeaves, Phdd.ComplementLeaf), together with non-refusal on the constants 0 and 1 (Phdd.MulBool, Phdd.AntivBool, Phdd.ComplementBool, Phdd.DisjBool) and for constants below 2^51 (Phdd.PlusBounded).
- Phdd.Sub: promises a well-formed result only when it is not refused. sub is refused exactly when plus refuses f and the negation of g, since neg never is (Phdd.NegSem). The exact refusal condition is proved only for constant operands (Phdd.PlusLeaves, Phdd.MulLeaves, Phdd.SubLeaves, Phdd.ComplementLeaf), together with non-refusal on the constants 0 and 1 (Phdd.MulBool, Phdd.AntivBool, Phdd.ComplementBool, Phdd.DisjBool) and for constants below 2^51 (Phdd.PlusBounded).
- Phdd.SubSem: states the difference only when sub is not refused. The exact refusal condition is proved only for constant operands (Phdd.PlusLeaves, Phdd.MulLeaves, Phdd.SubLeaves, Phdd.ComplementLeaf), together with non-refusal on the constants 0 and 1 (Phdd.MulBool, Phdd.AntivBool, Phdd.ComplementBool, Phdd.DisjBool) and for constants below 2^51 (Phdd.PlusBounded).
- Phdd.Antiv: promises a well-formed result only when it is not refused. The exact refusal condition is proved only for constant operands (Phdd.PlusLeaves, Phdd.MulLeaves, Phdd.SubLeaves, Phdd.ComplementLeaf), together with non-refusal on the constants 0 and 1 (Phdd.MulBool, Phdd.AntivBool, Phdd.ComplementBool, Phdd.DisjBool) and for constants below 2^51 (Phdd.PlusBounded).
- Phdd.Complement: promises a well-formed result only when it is not refused. The exact refusal condition is proved only for constant operands (Phdd.PlusLeaves, Phdd.MulLeaves, Phdd.SubLeaves, Phdd.ComplementLeaf), together with non-refusal on the constants 0 and 1 (Phdd.MulBool, Phdd.AntivBool, Phdd.ComplementBool, Phdd.DisjBool) and for constants below 2^51 (Phdd.PlusBounded).
- Phdd.Disj: promises a well-formed result only when it is not refused. The exact refusal condition is proved only for constant operands (Phdd.PlusLeaves, Phdd.MulLeaves, Phdd.SubLeaves, Phdd.ComplementLeaf), together with non-refusal on the constants 0 and 1 (Phdd.MulBool, Phdd.AntivBool, Phdd.ComplementBool, Phdd.DisjBool) and for constants below 2^51 (Phdd.PlusBounded).
- Phdd.DerivedSem: states XOR, NOT and OR only where antiv, complement and disj are not refused. The exact refusal condition is proved only for constant operands (Phdd.PlusLeaves, Phdd.MulLeaves, Phdd.SubLeaves, Phdd.ComplementLeaf), together with non-refusal on the constants 0 and 1 (Phdd.MulBool, Phdd.AntivBool, Phdd.ComplementBool, Phdd.DisjBool) and for constants below 2^51 (Phdd.PlusBounded).
- Phdd.WeightedSum: states the weighted sum only when no addition is refused. When one of the additions throws is not characterised. The exact refusal condition is proved only for constant operands (Phdd.PlusLeaves, Phdd.MulLeaves, Phdd.SubLeaves, Phdd.ComplementLeaf), together with non-refusal on the constants 0 and 1 (Phdd.MulBool, Phdd.AntivBool, Phdd.ComplementBool, Phdd.DisjBool) and for constants below 2^51 (Phdd.PlusBounded).
- Phdd.Branch: requires a variable that is not negative Davio. The source's mul leaves its result empty for that decomposition.
- BHD's memory heuristic (include/freddy/dd/bhd.hpp:503-511) is not modelled: it depends on the manager's node count and memory use at run time. The level heuristics are modelled.
- Manager.Foa: ctrl (include/freddy/detail/manager.hpp:617-632), which foa calls on a miss (include/freddy/detail/manager.hpp:740), is not modelled: when a unique table's load factor reaches config::load_factor it runs gc, which may drop dead nodes and edges and clear the cache, and may then reserve more buckets. The model's find-or-add only appends.
- Manager.Manager.UNode: ctrl (include/freddy/detail/manager.hpp:617-632), which foa calls on a miss (include/freddy/detail/manager.hpp:740), is not modelled: when a unique table's load factor reaches config::load_factor it runs gc, which may drop dead nodes and edges and clear the cache, and may then reserve more buckets. The contract's "nothing else changes" holds only when ctrl does not collect.
- Manager.Manager.UEdge: ctrl (include/freddy/detail/manager.hpp:617-632), which foa calls on a miss (include/freddy/detail/manager.hpp:740), is not modelled: when a unique table's load factor reaches config::load_factor it runs gc, which may drop dead nodes and edges and clear the cache, and may then reserve more buckets. The contract's "nothing else changes" holds only when ctrl does not collect.
- Manager.Manager.MakeVar: ctrl (include/freddy/detail/manager.hpp:617-632), which foa calls on a miss (include/freddy/detail/manager.hpp:740), is not modelled: when a unique table's load factor reaches config::load_factor it runs gc, which may drop dead nodes and edges and clear the cache, and may then reserve more buckets. The contract's exact new tables and unchanged cache hold only when ctrl does not collect.
- Manager.Manager.MakeConst: ctrl (include/freddy/detail/manager.hpp:617-632), which foa calls on a miss (include/freddy/detail/manager.hpp:740), is not modelled: when a unique table's load factor reaches config::load_factor it runs gc, which may drop dead nodes and edges and clear the cache, and may then reserve more buckets. The contract's exact new tables and unchanged cache hold only when ctrl does not collect.
- Manager.Manager.Exchange: the permutation of levels and the cache clear are modelled; the garbage collection of the unique tables inside exchange is not. The rewrite of the nodes is modelled on values by `Bdd.ExchangeDD`.
- Manager.Manager.Reorder: the node count it minimises is a cost oracle over orders. The growth factor, a double, is a real parameter.
- The Davio cofactor of include/freddy/detail/manager.hpp does not apply the edge weight to the high child. That is right for the XOR weights of BDDs and KFDDs only. The BMD and PHDD modules use their own moment cofactor, as bmd.hpp and phdd.hpp expect.
- Kfdd.Compose: requires no negative Davio variable on or above x. The source asserts false there.
- Dpll.Solver.constructor: requires an instance without an empty clause. With an empty clause the source's dpll picks an assigned variable again and never terminates.
- Bhd.SatSolutions: requires every label to be below the variable count. The source indexes its path vector by the label.
- Faults.MuxSim: the fault table is a parameter. The MUX example's table is `Faults.DetFaults`.
- Equiv.EvalDds: requires fewer than 64 variables and a step of at least 1. 1 << 64 is undefined. A step of 0 never leaves the loop while the first input agrees. A negative step is converted to a 64-bit unsigned number by `i += skip`, so the loop ends after evaluating input 0 only; that case is not modelled.
- Equiv.EvalDdsNarrow: requires at most 30 variables, where the int shifts of the test-helper copy stay in range, and a step of at least 1, for the reasons given for Equiv.EvalDds.
- Equiv.BlifEq: requires at most 30 variables, where the int shifts stay in range, and a step of at least 1, as Equiv.EvalDds does: a step of 0 never leaves the loop while the first input agrees, and a negative step, converted to a 64-bit unsigned number, ends it after input 0; that case is not modelled. The three blif_eq overloads that return nothing only report through CHECK; they compare the same way and are not modelled separately.
- Blif.Step: covers with more than one cube, and gates with more than two inputs, are not modelled. The reader asserts one cube of at most two inputs.
- The eddy prototype's unique tables, reference counting and variable labels are not modelled. Its edges, nodes, conjunction, ite and satcount are modelled.
- CHECK macros and test-case bookkeeping are not modelled; what a test checks is stated as a lemma.
- Kfdd.Exist: modelled with the corrected restr, Kfdd.RestrFixed. The program as written does not keep this promise on the input its row under "## Findings" names.
- Kfdd.Forall: modelled with the corrected restr, Kfdd.RestrFixed. The program as written does not keep this promise on the input its row under "## Findings" names.
- Kfdd.QuantSem: modelled with the corrected restr, Kfdd.RestrFixed. The program as written does not keep this promise on the input its row under "## Findings" names.
- Bhd.Conj: modelled with the corrected replace, Bhd.ReplaceFixed. The program as written does not keep this promise on the input its row under "## Findings" names.
- Bhd.Heur: modelled with the corrected replace, Bhd.ReplaceFixed. The program as written does not keep this promise on the input its row under "## Findings" names.
- Bhd.Compress: modelled with the corrected replace, Bhd.ReplaceFixed. The program as written does not keep this promise on the input its row under "## Findings" names.
- Bhd.Disj: modelled with the corrected replace, Bhd.ReplaceFixed. The program as written does not keep this promise on the input its row under "## Findings" names.
- Bhd.Plus: modelled with the corrected replace, Bhd.ReplaceFixed. The program as written does not keep this promise on the input its row under "## Findings" names.
- Bhd.ConjVal: modelled with the corrected replace, Bhd.ReplaceFixed. The program as written does not keep this promise on the input its row under "## Findings" names.
- Bhd.HeurVal: modelled with the corrected replace, Bhd.ReplaceFixed. The program as written does not keep this promise on the input its row under "## Findings" names.
- Bhd.CompressVal: modelled with the corrected replace, Bhd.ReplaceFixed. The program as written does not keep this promise on the input its row under "## Findings" names.
- Bhd.DisjVal: modelled with the corrected replace, Bhd.ReplaceFixed. The program as written does not keep this promise on the input its row under "## Findings" names.
- Bhd.PlusVal: modelled with the corrected replace, Bhd.ReplaceFixed. The program as written does not keep this promise on the input its row under "## Findings" names.
- Dpll.Up: modelled with the corrected simplify, Dimacs.Simplify. The program as written does not keep this promise on the input its row under "## Findings" names.
- Dpll.Solver.Dpll: modelled with the corrected simplify, Dimacs.Simplify. The program as written does not keep this promise on the input its row under "## Findings" names.
- Dpll.Solver.Decide: modelled with the corrected simplify, Dimacs.Simplify. The program as written does not keep this promise on the input its row under "## Findings" names.
- Mux.SolvePath: modelled with the corrected simplify, Dimacs.Simplify. The program as written does not keep this promise on the input its row under "## Findings" names.
- Mux.MuxSat: modelled with the corrected simplify, Dimacs.Simplify. The program as written does not keep this promise on the input its row under "## Findings" names.
- Mux.KeepSolution: modelled with the corrected simplify, Dimacs.Simplify. The program as written does not keep this promise on the input its row under "## Findings" names.
- Mux.FreshSolution: modelled with the corrected simplify, Dimacs.Simplify. The program as written does not keep this promise on the input its row under "## Findings" names.
- Mux.SourcedSolves: modelled with the corrected simplify, Dimacs.Simplify. The program as written does not keep this promise on the input its row under "## Findings" names.
- BlifReader.Reader.OnGate: modelled with the corrected gate steps, Blif.Step. The program as written does not keep this promise on the input its row under "## Findings" names.
- BlifReader.Reader.Update: modelled with the corrected gate steps, Blif.Step. The program as written does not keep this promise on the input its row under "## Findings" names.
- BlifReader.Reader.On: modelled with the corrected gate steps, Blif.Step. The program as written does not keep this promise on the input its row under "## Findings" names.
- BlifReader.Pass: modelled with the corrected gate steps, Blif.Step. The program as written does not keep this promise on the input its row under "## Findings" names.
- BlifReader.Analyse: modelled with the corrected gate steps, Blif.Step. The program as written does not keep this promise on the input its row under "## Findings" names.
- BlifReader.Simulate: modelled with the corrected gate steps, Blif.Step. The program as written does not keep this promise on the input its row under "## Findings" names.
- BlifReader.ReadBlif: modelled with the corrected gate steps, Blif.Step. The program as written does not keep this promise on the input its row under "## Findings" names.
- Blif.Pass2: modelled with the corrected gate steps, Blif.Step. The program as written does not keep this promise on the input its row under "## Findings" names.
- Blif.ReaderCorrect: modelled with the corrected gate steps, Blif.Step. The program as written does not keep this promise on the input its row under "## Findings" names.
- Equiv.ReadersAgree: modelled with the corrected gate steps, Blif.Step. The program as written does not keep this promise on the input its row under "## Findings" names.
- Dpll.Solver.Solve: modelled with the corrected simplify, Dimacs.Simplify. As written, solve can return an assignment for an unsatisfiable instance such as (x1) AND (NOT x1 OR NOT x1).
- Bmd.Apply: weights are unbounded integers. The system_error that boost safe_numerics raises when a weight overflows std::int64_t (include/freddy/dd/bmd.hpp:73, test/bmd/basic.cpp:240-251) is not modelled.
- Bmd.Plus: weights are unbounded integers. The system_error that boost safe_numerics raises when a weight overflows std::int64_t (include/freddy/dd/bmd.hpp:73, test/bmd/basic.cpp:240-251) is not modelled.
- Bmd.Mul: weights are unbounded integers. The system_error that boost safe_numerics raises when a weight overflows std::int64_t (include/freddy/dd/bmd.hpp:73, test/bmd/basic.cpp:240-251) is not modelled.
- Bmd.Neg: weights are unbounded integers. The system_error that boost safe_numerics raises when a weight overflows std::int64_t (include/freddy/dd/bmd.hpp:73, test/bmd/basic.cpp:240-251) is not modelled.
- Bmd.Sub: weights are unbounded integers. The system_error that boost safe_numerics raises when a weight overflows std::int64_t (include/freddy/dd/bmd.hpp:73, test/bmd/basic.cpp:240-251) is not modelled.
- Bmd.UnsignedBin: weights are unbounded integers. The system_error that boost safe_numerics raises when a weight overflows std::int64_t (include/freddy/dd/bmd.hpp:73, test/bmd/basic.cpp:240-251) is not modelled.
- Bmd.TwosComplement: weights are unbounded integers. The system_error that boost safe_numerics raises when a weight overflows std::int64_t (include/freddy/dd/bmd.hpp:73, test/bmd/basic.cpp:240-251) is not modelled.
- Dd.PathCount: the count is exact. The source returns a double, which loses precision beyond 2^53 paths.
- Faults.StuckAt0Localised: the pattern read off the BHD diagram and the unit-clause path are taken as given. They are not computed from Bhd.Conj, Bhd.SatSolutions and the unit clauses as test/bhd/debug.cpp:348-380 computes them.
- Faults.StuckAt1Localised: the pattern read off the BHD diagram and the unit-clause path are taken as given. They are not computed from Bhd.Conj, Bhd.SatSolutions and the unit clauses as test/bhd/debug.cpp:348-380 computes them.

## Findings

| source | as written | input that shows it | evidently intended | confidence | as-written member | corrected member |
|---|---|---|---|---|---|---|
| include/freddy/dd/bruh.hpp:259-271 | complement maps every leaf c to 1 - c | x0 OR x0, whose disj has the leaf 2: its complement has the leaf -1, which still reads as true | the Boolean negation: a non-zero leaf becomes 0 and 0 becomes 1 | high, not executed | Bruh.ComplementCounterexample | Bruh.ComplementFixed |
| include/freddy/op/conj.hpp:43-53 | equality of conj, antiv and mul keys accepts swapped operands, but the hash is f * p1 + g * p2 | keys (f, g) and (g, f) with f * p1 + g * p2 != g * p1 + f * p2 | equal keys hash equally, by hashing the operands in pointer order | high, not executed | Keys.SymmetricKeyHashCounterexample | Keys.KeyHashFixedConsistent |
| include/eddy/dd/bdd.hpp:320-338 | cases 3 and 4 of std_triple set f to the complement of g and then g to the complement of the new f | ite(x1, x0, NOT x1) returns x0, false at x0 = x1 = 0 where the ite is true | ite(NOT g, NOT f, 1) and ite(NOT g, 0, NOT f), as freddy's bdd.hpp writes them | high, not executed | EddyBdd.IteStdTripleCounterexample | Bdd.Ite |
| include/freddy/detail/manager.hpp:134-142 | swap sifts a to b and then level b + 1 back to a, also when a == b | swap(0, 0) on the order [0, 1] gives [1, 0] | swap of a level with itself changes nothing | medium, not executed | Manager.SwapSameLevelReorders | Manager.Manager.SwapFixed |
| test/bhd/debug.cpp:171-180 | simplify handles the first literal on x in a clause and breaks out of the clause | (x1) AND (NOT x1 OR NOT x1): after x1 := true the clause (NOT x1) remains, x1 is set false and SAT is reported | every literal on x is removed, so a clause that becomes empty gives UNSAT | high, not executed | Dimacs.SimplifyDuplicateCounterexample | Dimacs.Simplify |
| include/freddy/detail/manager.hpp:435-438 | restr at a Davio top variable returns the manager's cofactor, which is a moment and not a value | x0 XOR x1 XOR x2 over positive Davio variables: restr(f, x0, 1) is the constant 1, but f is false at (1, 0, 1) | the value cofactor: hi XOR lo for positive Davio with a = 1 | high, not executed | Kfdd.RestrDavioCounterexample | Kfdd.RestrFixed |
| include/freddy/dd/kfdd.hpp:570-573 | ite recurses on the manager's cofactors and rebuilds with branch even at Davio variables | ite(x0, 0, x1) with x0 positive Davio above x1 returns x1, true at x0 = x1 = 1 where the ite is false | (f AND g) XOR (NOT f AND h), or value cofactors at every variable | high, not executed | Kfdd.IteDavioCounterexample | Kfdd.IteFixed |
| include/freddy/dd/kfdd.hpp:317-340 | sharpsat averages the counts of the high and low children at every node | over x0 positive Davio above x1 Shannon, a canonical diagram with one model is counted 2 | the average of the counts of the two value cofactors | high, not executed | Kfdd.SharpSatDavioCounterexample | Kfdd.SharpSatFixed |
| include/freddy/dd/bhd.hpp:449-455 | when both children become the same edge, replace returns it without the operand's complement mark | NOT(x0 ? x1 : (x1 ? 1 : exp)) reads true at x0 = x1 = 1, where the operand is false | the collapsed child carries the operand's complement mark | high, not executed | Bhd.ReplaceCounterexample | Bhd.ReplaceFixed |
| test/util_blif.cpp:135-160 | a two-input cube is dispatched on std::stoi of its text | the cube 1- with output 1 reads as 1 and builds (NOT a) AND b, false at a = 1, b = 0 where the cover is a | don't-care positions impose no literal | medium, not executed | Blif.DontCareCounterexample | Blif.Gate2 |
| test/util_blif.cpp:87-92 | in the simulation pass a constant gate is registered again with use count 0 | input a, constant c = 1, output y = a AND c: c ends at count -1, is never erased, and on_end's check fails | the simulation pass keeps the use count of the analysis pass | high, not executed | Blif.ConstGateCounterexample | Blif.Step |
