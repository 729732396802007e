# Ant colony tours and a singly linked list, modelled in Dafny

Two independent pieces of the `understanding-algorithms` repository are modelled
and verified here.

**Ant colony optimisation** (`algorithms/aco.py`, module `AntColony` in
`Aco.dfy`). Every iteration works in two phases:

- **Tours.** Each of `ants` ants builds a tour starting at point 0. The ant keeps
  a `visited` array and lists the unvisited points. It weighs each candidate by
  `pheromone[current, j] / distance * alpha[k]` and moves to one it draws at
  random. Along the way it accumulates its `path_length`. The best path over all
  ants so far is tracked with a strict `<`.
- **Deposit.** After all ants of the iteration are done, each of them adds
  `1 / path_length` to the pheromone entry of every step it took, in the forward
  direction only.

The model keeps:

- the `visited` array (`array<bool>`) and the pheromone matrix (`array2<real>`),
  updated in place;
- the growing path and its running length;
- the best-path bookkeeping;
- the batched deposit.

The random draw is a nondeterministic choice among the candidates of positive
weight. `distance` is a parameter that is only assumed positive between different
points. A ghost record of every ant's tour and length lets the contracts state:

- every path is a tour from 0 through all points;
- every recorded length is the sum of its steps;
- `best_path_length` is the first minimum of the lengths so far;
- every pheromone entry is exactly `1.0` plus what the ants laid on that edge.
  So entries only grow, and the diagonal and column 0 stay at `1.0`.

**Singly linked list of ints** (`cpp-linked-list/src/LinkedList.hpp`, module
`ListNodes` in `LinkedList.dfy`, with `std::to_string` in `Decimal.dfy`).

- `ListNode` is a class `Node` with `val` and `next`.
- The head node carries a ghost view of its list: `Nodes`, `Contents` and `Repr`.
  `Valid()` ties that view to the `next` chain.
- Every operation works in place on the nodes and is specified against
  `Contents`, including the quirks of the code as written:
  - `size()` answers the number of nodes minus two, and needs two nodes;
  - `insert(position, ListNode*)` ignores `position`;
  - `insert(val, position)` only reaches positions 1 to 100 (inclusive) past the head;
  - `remove(0)` changes nothing.
- The free functions `vector2ListNode` and `mergeTwoList` build fresh lists.
- The unit tests' scenarios are replayed as methods with concrete results.

## Model

| member | source | states |
|---|---|---|
| Decimal.NatToDecimal | cpp-linked-list/src/LinkedList.hpp:127 | the decimal text of a natural number is non-empty, all digits, and has no leading zero |
| Decimal.IntToDecimal | cpp-linked-list/src/LinkedList.hpp:127 | `std::to_string(int)`: a leading '-' exactly for negative values, digits after it |
| Decimal.NatRoundTrip | cpp-linked-list/src/LinkedList.hpp:127 | reading the decimal text of `n` back gives `n` |
| Decimal.IntRoundTrip | cpp-linked-list/src/LinkedList.hpp:127 | reading the text of any int back gives that int |
| Decimal.IntToDecimalInjective | cpp-linked-list/src/LinkedList.hpp:127 | two ints with the same text are equal |
| ListNodes.ChainDistinct | cpp-linked-list/src/LinkedList.hpp:27-29 | a null-terminated chain of `next` links never visits a node twice |
| ListNodes.ChainNextNull | cpp-linked-list/src/LinkedList.hpp:65-67 | in a chain only the last node has a null `next`, so the walks stop exactly at the tail |
| ListNodes.SplicedChain | cpp-linked-list/src/LinkedList.hpp:110-113 | linking a node between positions k-1 and k of a chain gives a chain with it at index k |
| ListNodes.UnlinkedChain | cpp-linked-list/src/LinkedList.hpp:153-155 | linking node k-1 past node k gives the chain without node k |
| ListNodes.RemoveUndoesInsert | cpp-linked-list/src/LinkedList.hpp:101-161 | for positions the insertion walk reaches, the value lands at that index and removing that position restores the values |
| ListNodes.RenderStep | cpp-linked-list/src/LinkedList.hpp:126-131 | rendering one more value appends its decimal text, then the delimiter unless it was the last |
| ListNodes.LastIndex | cpp-linked-list/src/LinkedList.hpp:122-137 | reading side of the format `toString` writes, not code of `toString`: the position of the last separator in a text, -1 when there is none; `FieldsOfJoined` uses it to invert the rendering |
| ListNodes.Fields | cpp-linked-list/src/LinkedList.hpp:122-137 | reading side of the format `toString` writes, not code of `toString`: cutting a text at a separator gives at least one field; `FieldsOfJoined` uses it to invert the rendering |
| ListNodes.DecimalHasNoSeparator | cpp-linked-list/src/LinkedList.hpp:127 | a character other than a digit or '-' never occurs in a value's text |
| ListNodes.Decimals | cpp-linked-list/src/LinkedList.hpp:127 | one decimal text per value |
| ListNodes.DecimalsInjective | cpp-linked-list/src/LinkedList.hpp:127 | equal sequences of decimal texts come from equal values |
| ListNodes.FieldsOfJoined | cpp-linked-list/src/LinkedList.hpp:122-137 | cutting the joined values at the one-character delimiter gives back each value's text in order |
| ListNodes.RenderInjective | cpp-linked-list/src/LinkedList.hpp:122-137 | two lists render the same with ";" only if they hold the same values |
| ListNodes.RenderInsertExample | cpp-linked-list/test/LinkedList_test.cpp:25 | [1, 10, 2, 3] renders as "[1;10;2;3]" |
| ListNodes.RenderRemoveExample | cpp-linked-list/test/LinkedList_test.cpp:36 | [1, 3] renders as "[1;3]" |
| ListNodes.RenderMergeExample | cpp-linked-list/test/LinkedList_test.cpp:49 | [1, 2, 3, 4, 5, 6] renders as "[1;2;3;4;5;6]" |
| ListNodes.Interleave | cpp-linked-list/src/LinkedList.hpp:183-197 | the alternation of two value lists has twice the length of the shorter one |
| ListNodes.InterleaveAt | cpp-linked-list/src/LinkedList.hpp:183-197 | element by element: even slots hold the first list's values, odd slots the second's |
| ListNodes.InterleaveSnoc | cpp-linked-list/src/LinkedList.hpp:186-191 | one more value in each input adds that pair at the end |
| ListNodes.InterleavePrefixStep | cpp-linked-list/src/LinkedList.hpp:183-196 | one more round of the merge loop adds the next pair of values |
| ListNodes.InterleaveTruncate | cpp-linked-list/src/LinkedList.hpp:183 | the values past the shorter list's length are dropped |
| ListNodes.Node.constructor | cpp-linked-list/src/LinkedList.hpp:31 | `ListNode(x)` is a fresh one-node list holding x |
| ListNodes.Node.Default | cpp-linked-list/src/LinkedList.hpp:30 | `ListNode()` is a fresh one-node list holding 0 |
| ListNodes.Node.AppendNode | cpp-linked-list/src/LinkedList.hpp:33-36 | `next` becomes the given node (or null), so the list is this node followed by that node's list; what followed before is dropped |
| ListNodes.Node.InsertNode | cpp-linked-list/src/LinkedList.hpp:38-48 | for every position, the node becomes the second node, followed by the former successors; the head's value is unchanged |
| ListNodes.Node.Size | cpp-linked-list/src/LinkedList.hpp:50-58 | on a list of at least two nodes, the answer is the number of nodes minus two |
| ListNodes.Node.Count | cpp-linked-list/src/LinkedList.hpp:50-58 | the count the tests expect: number of nodes minus one, also for a single node |
| ListNodes.Node.Append | cpp-linked-list/src/LinkedList.hpp:60-71 | one fresh node holding v is linked after the tail; the earlier nodes and their values stay as they were |
| ListNodes.Node.Insert | cpp-linked-list/src/LinkedList.hpp:73-120 | an exception carrying position and `size()` exactly when position > size()+1, with the list unchanged; otherwise the value is inserted at index position (1 to 100), before the head's old value while keeping the head object (0), or nowhere (beyond 100) |
| ListNodes.Node.InsertAtHead | cpp-linked-list/src/LinkedList.hpp:92-100 | the head object stays first and holds v; a fresh second node holds the old head value |
| ListNodes.Node.HeadLink | cpp-linked-list/src/LinkedList.hpp:95-100 | the fresh node takes the head's value and successor; the head takes v and points to it |
| ListNodes.Node.SpliceWalk | cpp-linked-list/src/LinkedList.hpp:101-118 | for 1 <= position <= 100 the new node is linked at index position; beyond that nothing changes |
| ListNodes.Node.LinkWalk | cpp-linked-list/src/LinkedList.hpp:104-118 | the counter-capped walk leaves a chain with the new node at index position, or the original chain when position exceeds the cap |
| ListNodes.Node.ToString | cpp-linked-list/src/LinkedList.hpp:122-137 | "[" then the decimal values joined by the delimiter, then "]" |
| ListNodes.Node.RenderWalk | cpp-linked-list/src/LinkedList.hpp:124-136 | the walk along the chain produces exactly that rendering of its values |
| ListNodes.Node.Remove | cpp-linked-list/src/LinkedList.hpp:139-162 | an exception exactly when position > size(), with the list unchanged; position 0 changes nothing; otherwise exactly the node at index position is unlinked and the others keep their order |
| ListNodes.Node.UnlinkWalk | cpp-linked-list/src/LinkedList.hpp:149-161 | the walk leaves the chain without the node at index position, or unchanged for position 0 |
| ListNodes.VectorToList | cpp-linked-list/src/LinkedList.hpp:165-177 | null for an empty vector, otherwise a fresh list holding the vector's values in order |
| ListNodes.Push | cpp-linked-list/src/LinkedList.hpp:169-173 | a null list becomes a fresh one-node list; any other list gets the value appended |
| ListNodes.PushPair | cpp-linked-list/src/LinkedList.hpp:186-192 | one merge round adds the two values at the end, starting a fresh list on the first round |
| ListNodes.MergeTwoLists | cpp-linked-list/src/LinkedList.hpp:179-200 | null exactly when an input is null; otherwise a fresh list alternating the inputs' values while both last; the inputs are only read |
| ListNodes.MergeWalk | cpp-linked-list/src/LinkedList.hpp:182-199 | the merge loop over the two input chains builds the interleaving of their values |
| ListNodes.ListOfThree | cpp-linked-list/test/LinkedList_test.cpp:10-12 | `ListNode(1)` then `append(2)`, `append(3)` holds [1, 2, 3] |
| ListNodes.SizeOfThreeAsWritten | cpp-linked-list/test/LinkedList_test.cpp:9-15 | `size()` of [1, 2, 3] is 1 as written |
| ListNodes.SizeOfThreeCorrected | cpp-linked-list/test/LinkedList_test.cpp:9-15 | the corrected count of [1, 2, 3] is 2 |
| ListNodes.InsertScenario | cpp-linked-list/test/LinkedList_test.cpp:17-26 | after `insert(10, 1)` on [1, 2, 3] the text is "[1;10;2;3]"; `size()` answers 2 |
| ListNodes.RemoveScenario | cpp-linked-list/test/LinkedList_test.cpp:28-37 | after `remove(1)` on [1, 2, 3] the text is "[1;3]"; `size()` answers 0 |
| ListNodes.MergeScenario | cpp-linked-list/test/LinkedList_test.cpp:39-50 | merging [1, 3, 5] and [2, 4, 6] gives "[1;2;3;4;5;6]"; `size()` answers 4 |
| AntColony.Unvisited | algorithms/aco.py:133 | the unvisited indices in increasing order: every index listed is unvisited and every unvisited index is listed |
| AntColony.UnvisitedMark | algorithms/aco.py:131-169 | marking an unvisited point removes exactly one candidate, so the tour loop terminates |
| AntColony.UnvisitedAllVisited | algorithms/aco.py:131-133 | with every point visited there is no candidate |
| AntColony.UnvisitedNone | algorithms/aco.py:112-133 | with nothing visited every point is a candidate |
| AntColony.WeightSign | algorithms/aco.py:139-152 | with positive pheromone and distance, a weight is never negative, and it is positive exactly when its alpha is |
| AntColony.Weights | algorithms/aco.py:137-152 | the k-th weight is the pheromone on the edge to the k-th candidate over its length, times `alpha[k]` |
| AntColony.ChooseNext | algorithms/aco.py:133-158 | the drawn point is one of the unvisited candidates, never the current point, and its weight is positive |
| AntColony.PathLengthSnoc | algorithms/aco.py:165-166 | one more step adds the distance of that step to the length |
| AntColony.PathLengthPositive | algorithms/aco.py:82-86 | a path through two or more distinct points has a positive length |
| AntColony.Walk | algorithms/aco.py:161-166 | the path gets the new point and the length stays the sum of the steps' distances |
| AntColony.PartialStart | algorithms/aco.py:112-126 | the path [0] with only point 0 visited is the start of a tour |
| AntColony.PartialStep | algorithms/aco.py:157-169 | moving to an unvisited point keeps a repetition-free path that matches the visited marks, with one candidate fewer |
| AntColony.PartialDone | algorithms/aco.py:131 | when no point is left unvisited, the path is a tour |
| AntColony.Advance | algorithms/aco.py:131-172 | one pass of the loop extends the path by one candidate, marks it visited and strictly lowers the number of candidates |
| AntColony.ConstructTour | algorithms/aco.py:110-172 | the ant's path starts at 0 and holds every point exactly once, and its length is the sum of its steps' distances |
| AntColony.FirstMin | algorithms/aco.py:178-180 | the first position holding the least length: nothing is smaller, everything before it is larger |
| AntColony.Best | algorithms/aco.py:98-180 | infinity before any ant, afterwards a length some ant had that no ant beat |
| AntColony.BestNonIncreasing | algorithms/aco.py:178-180 | more ants never raise the best length |
| AntColony.FirstMinSnoc | algorithms/aco.py:178-180 | a new length takes over only when strictly shorter, so the earliest wins ties |
| AntColony.Track | algorithms/aco.py:178-180 | after the check, best path and length are those of the first shortest path so far |
| AntColony.RunAnt | algorithms/aco.py:111-180 | one ant appends a tour with its length to those before it, leaving them as they were, on a matrix it does not change, and the best path and length stay the first shortest of all ants so far |
| AntColony.RunAnts | algorithms/aco.py:110-180 | all ants of an iteration build tours on the same matrix, which they do not change, and the best path stays up to date |
| AntColony.DepositedOffPath | algorithms/aco.py:186-188 | an entry that is not a step of the path gets nothing |
| AntColony.DepositedDistinct | algorithms/aco.py:186-188 | on a path without repeated points a step gets `1/path_length` exactly once |
| AntColony.DepositOffEdges | algorithms/aco.py:186-188 | an entry no ant stepped along gets nothing from the update |
| AntColony.DepositedNonNegative | algorithms/aco.py:186-188 | a non-negative increment never lowers an entry |
| AntColony.DepositNonNegative | algorithms/aco.py:186-188 | with positive path lengths no entry loses pheromone |
| AntColony.DepositConcat | algorithms/aco.py:101-188 | the deposits of two batches of ants add up |
| AntColony.DepositMore | algorithms/aco.py:101-188 | a later batch of tours adds its deposits to those already laid and takes none away |
| AntColony.TourEdges | algorithms/aco.py:117-172 | a tour never steps from a point to itself, nor back onto point 0 |
| AntColony.ToursLeaveDiagonalAndColumnZero | algorithms/aco.py:186-188 | ants walking tours lay nothing on the diagonal or in column 0 |
| AntColony.DepositPheromone | algorithms/aco.py:186-188 | each entry grows by exactly what the ants' steps lay on it, `1/path_length` per step and forward only |
| AntColony.Iteration | algorithms/aco.py:101-188 | after one iteration the matrix holds 1.0 plus the deposits of all ants so far, no entry has decreased, all paths so far are tours, and the best length has not risen |
| AntColony.AntColonyOptimization | algorithms/aco.py:89-188 | all recorded paths are tours with their lengths; best path and length are the first shortest; each entry is 1.0 plus the ants' deposits, never below 1.0, and exactly 1.0 on the diagonal and column 0 |
| AntColony.WalkedDivisible | algorithms/aco.py:188 | every tour with a step has a non-zero length, so `1/path_length` is defined |
| AntColony.WalkedConcat | algorithms/aco.py:175-176 | the tours of two batches together are still all tours |
| AntColony.PheromonePositive | algorithms/aco.py:97-188 | the matrix the ants read is positive everywhere |
| AntColony.PositiveLengths | algorithms/aco.py:165-166 | every tour through two or more points has a positive length |

## Left out

- `distance` (aco.py:82-86) is a parameter rather than the square root of a sum of squares. The model only asks that it be positive between different points, which holds when the points are pairwise distinct; `np.sqrt` and the real arithmetic behind it are not modelled.
- Floating point: weights, lengths and pheromone are exact reals. Rounding, NaN and infinity are not modelled, except `np.inf` as the initial best length.
- The normalisation of the weights (aco.py:155) and the sampling distribution of `np.random.choice` are not modelled. The draw is any candidate of positive weight, which is exactly the set of candidates with non-zero probability.
- AntColonyOptimization: covers only `alpha[0] > 0` with every other entry used non-negative (`ValidAlpha`). Pheromone and distances are positive, so each weight has its `alpha` entry's sign, and the last pass of every tour through two or more points has a single candidate, at position 0. With two or more points the program therefore runs exactly when `alpha[0] != 0` and every entry used has `alpha[0]`'s sign or is 0: mixed signs leave a negative probability after the division by the sum (aco.py line 155) and `np.random.choice` raises, while an all-non-positive `alpha` runs because dividing by the negative sum makes every probability non-negative. The model leaves out that non-positive half.
- The `print` logging, the plotting and GIF functions, the plotting calls after the update (aco.py:190-211) and `main` in aco.py are not modelled: they are output only.
- `points` is a sequence of `Point` values that only `distance` reads; the numpy array shape is not modelled.
- Memory management is not modelled, because Dafny collects garbage: the node `insert(val, 0)` allocates and never uses, nodes unlinked by `remove`, and the lists never freed.
- The exception message strings are not modelled; the error result carries the position and the `size()` value the message quotes.
- ListNodes.Node.Size, Insert, Remove: require at least two nodes. With one node `size()` dereferences a null pointer, which has no defined behaviour to model.
- ListNodes.Node.InsertNode: requires `position < 2^32 - 1`, because at the largest unsigned value its `idx <= position` loop never ends. It also requires a node not already in the list; otherwise the splice makes a cycle, which an acyclic list view cannot describe.
- ListNodes.Node.AppendNode: requires the appended list to be well formed and not to contain this node, for the same reason.
- Positions are natural numbers: the conversion of a negative `int` argument to `unsigned int` is not modelled. Neither are the 32-bit counters, since lists never come near that length.
- Two lists sharing nodes are not described: each head's ghost view covers its own list, and only the inputs of `mergeTwoList` may share nodes, since they are only read.
- `main.cpp` is not part of this model; it is a demo driver over stack-allocated nodes and console output.

## Findings

| source | as written | input that shows it | evidently intended | confidence | as-written member | corrected member |
|---|---|---|---|---|---|---|
| cpp-linked-list/src/LinkedList.hpp:50-58 | `size()` starts at the second node and counts the links after it: nodes minus two, and a null dereference for a single node | the list [1, 2, 3] of the size test (LinkedList_test.cpp:9-15): `size()` is 1, the test expects 2; the single node of LinkedList_test.cpp:4-7 crashes where 0 is expected | the number of links, nodes minus one, 0 for one node | not executed | ListNodes.SizeOfThreeAsWritten | ListNodes.SizeOfThreeCorrected |

`ListNodes.Node.Count` is the corrected count, proved to be the number of nodes
minus one for every list, a single node included. The bound checks of
`insert(val, position)` and `remove(position)` keep calling `size()` as written,
because those bounds are part of what the list does today. So `insert` rejects
position n on an n-node list, and the tests' `size()` expectations (3, 1 and 5)
differ from the answers of `InsertScenario`, `RemoveScenario` and `MergeScenario`
(2, 0 and 4).
