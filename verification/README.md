# Event scheduler core in Dafny

This project models the in-memory core of a small terminal calendar. The program keeps events with a date, a start and an end time, and a set of ids of the events each one depends on. It is built from three parts, and the model covers all three:

- **The AVL index** (`AVLTree` in AVLTree.h). It is a self-balancing search tree ordered by `(date, startTime, endTime)`. Each node caches its height, with the height of an empty subtree being -1 and of a leaf 0. It supports insertion with single and double rotations, `balance`, `findMin`, removal by id, and a date-aware conflict scan. The tree is an immutable datatype, and every pointer-rewiring routine becomes a pure function that recomputes exactly the cached heights the C++ code recomputes.
- **The record codec.** `operator<<` writes the line `id,name,date,start,end[,dep]*`. `operator>>` reads that line back with `std::getline` and `std::stoi`. `EventGraph::saveEvents` writes one such line per event. The model covers:
  - `getline`, with its stream states;
  - `stoi`, with leading whitespace, sign, trailing text, and the invalid-argument and out-of-range errors;
  - both directions of the record format;
  - a whole-file round trip.
- **The sequence-backed `EventGraph`** (Graph.cpp). It holds two parallel vectors: the events, and one outgoing edge list per slot. Its operations are `addEvent`, `addDependency`, the four `updateEvent*` mutators, `deleteEvent` and `hasConflict`. The free validators `validate_date` and `validate_time` are modelled with it.

Modules, in dependency order:

| module | file | contents |
|---|---|---|
| `Wrappers` | wrappers.dfy | `Option`, `Result` |
| `Lex` | lex.dfy | `std::string` ordering |
| `Events` | events.dfy | `Event`, `operator<`, the overlap test |
| `AvlTree` | avl.dfy | the tree and its operations |
| `AvlOrder` | avl_order.dfy | the search-tree property and a sorted-insertion reference definition |
| `AvlRemoval` | avl_removal.dfy | the removal defects and a corrected removal |
| `Codec` | codec.dfy | getline, stoi, the record format, save/read |
| `EventGraph` | graph.dfy | the graph operations |
| `Validation` | validation.dfy | the two regex validators |

Behaviours of the code worth knowing:

- **Cycles.** The code never rejects a cycle and has no topological sort. `EventGraph.CycleIsAccepted` shows a two-cycle being recorded.
- **`deleteEvent`.** `EventGraph::deleteEvent` removes the event from `events` but leaves the edge lists untouched. `EventGraph.DeleteMisalignsDependencies` shows an example where the edge lists fall out of step with the events. Its caller `delete_event` (Graph.cpp:386-387) also calls `AVLTree::remove(id)`, and that call can miss the event (see Findings).
- **`hasConflict`.** The graph's conflict check ignores the date. `EventGraph.GraphConflictIgnoresDate` shows this.
- **Tree removal.** Removal from the tree is steered by id, so it does not implement the standard deletion by key. See Findings.

## Model

| member | source | states |
|---|---|---|
| Lex.Transitive | AVLTree.h:26-28 | string `<` is transitive |
| Lex.Total | AVLTree.h:26-28 | any two different strings are ordered one way or the other |
| Events.SameKeyUnordered | AVLTree.h:25-33 | two events with equal `(date, startTime, endTime)` are neither `<` nor `>` each other, whatever their ids |
| Events.LessAsymmetric | AVLTree.h:25-29 | `a < b` excludes `b < a` |
| Events.LessTransitive | AVLTree.h:25-29 | the lexicographic event order is transitive |
| Events.Trichotomy | AVLTree.h:25-33 | exactly one of `a < b`, `b < a`, equal key holds |
| Events.TouchingDoesNotOverlap | AVLTree.h:171-172 | an interval ending where the other starts is not an overlap, in either order |
| AvlTree.CachedHeightIsTrue | AVLTree.h:188-190 | with correct cached heights, `height` (-1 for null) is the true height of the subtree |
| AvlTree.Refresh | AVLTree.h:145 | recomputing a node's height keeps its contents, and makes the height correct when the children's heights are correct |
| AvlTree.RotateWithLeftChild | AVLTree.h:192-199 | the left child becomes the root, the in-order sequence is unchanged, and both rewired nodes get correct heights |
| AvlTree.RotateWithRightChild | AVLTree.h:201-208 | the mirror image: the right child becomes the root, same in-order sequence, correct heights |
| AvlTree.DoubleWithLeftChild | AVLTree.h:210-213 | the left child's right child becomes the root, in-order sequence and heights preserved |
| AvlTree.DoubleWithRightChild | AVLTree.h:215-218 | the right child's left child becomes the root, in-order sequence and heights preserved |
| AvlTree.RotateLeftChildAvl | AVLTree.h:192-199 | a node two higher on the left with a left-leaning left child becomes AVL after the single rotation |
| AvlTree.RotateRightChildAvl | AVLTree.h:201-208 | the mirror case for the right side |
| AvlTree.DoubleLeftChildAvl | AVLTree.h:210-213 | a node two higher on the left with a right-leaning left child becomes AVL after the double rotation, keeping its height |
| AvlTree.DoubleRightChildAvl | AVLTree.h:215-218 | the mirror case for the right side |
| AvlTree.Insert | AVLTree.h:123-146 | insertion into an AVL tree yields an AVL tree whose height grows by at most one; when it grows the root is the same and leans to the side the event went |
| AvlTree.InsertedLeft | AVLTree.h:126-134 | after inserting left, the rotation chosen by comparing with the left child restores the AVL bound, contents in order |
| AvlTree.InsertedRight | AVLTree.h:135-143 | after inserting right, the rotation chosen by comparing with the right child restores the AVL bound, contents in order |
| AvlTree.Balance | AVLTree.h:230-248 | balancing keeps the in-order sequence, keeps null as null, and leaves correct cached heights |
| AvlTree.BalanceAvl | AVLTree.h:230-248 | a node whose AVL children differ in height by at most two becomes AVL, its height between the higher child's and one above it |
| AvlTree.BalanceOfAvl | AVLTree.h:230-248 | balancing an AVL tree changes nothing |
| AvlTree.FindMin | AVLTree.h:220-228 | null for an empty subtree, otherwise a node with no left child holding the first event in order |
| AvlTree.Remove | AVLTree.h:148-165 | removal by id: an empty tree stays empty, no node is gained, no event appears that was not there, heights stay correct |
| AvlTree.RemoveAvl | AVLTree.h:148-165 | removal by id keeps the AVL invariant and lowers the height by at most one, found or not |
| AvlTree.RemoveMatchedWithOneChild | AVLTree.h:159-163 | a matched node with at most one child is replaced by that child |
| AvlTree.DetectConflicts | AVLTree.h:167-176 | true iff some stored event has the same date and an overlapping interval |
| AvlOrder.InsertInOrder | AVLTree.h:123-146 | on a search tree, the in-order sequence after insertion is the sorted insertion of the event into the old sequence |
| AvlOrder.InsertKeepsBst | AVLTree.h:123-146 | insertion keeps the search-tree order; the event is added iff no stored event has its key, otherwise the contents are unchanged |
| AvlOrder.SortedInsertContents | AVLTree.h:123-146 | the reference insertion adds exactly the new event, and only when its key is absent |
| AvlOrder.FindMinIsLeast | AVLTree.h:220-228 | on a search tree, `findMin` yields an event below every other stored event |
| AvlRemoval.RemoveMissesStoredId | AVLTree.h:152-155 | a two-node AVL search tree built by `insert` where `remove(id)` leaves the event with that id in place |
| AvlRemoval.ScenarioTree | AVLTree.h:123-146 | inserting x, a, c, b builds the four-node tree of the second defect |
| AvlRemoval.RemoveDuplicatesSuccessor | AVLTree.h:156-158 | on that tree, removing the root's id stores its successor twice and breaks the search-tree order |
| AvlRemoval.RemoveKeyInOrder | AVLTree.h:148-165 | removal by key with structural successor removal drops exactly the events with that key, keeping the order of the rest |
| AvlRemoval.RemoveKeyAvl | AVLTree.h:148-165 | removal by key keeps the AVL invariant, height down by at most one |
| AvlRemoval.FindById | AVLTree.h:148-165 | a full traversal finds an event with the id iff one is stored |
| AvlRemoval.RemoveByIdCorrect | AVLTree.h:148-165 | with unique ids, the corrected removal keeps AVL and search order and removes exactly the event with the id |
| Codec.GetLine | AVLTree.h:57-67 | `getline`: a failed or ended stream fails and leaves the target alone; otherwise the token has no delimiter and the stream advances |
| Codec.GetLineSplit | AVLTree.h:60-65 | reading from `tok + delim + rest` yields `tok` and leaves `rest` |
| Codec.StoiIntToString | AVLTree.h:61 | `stoi` of a written `int` gives back the same value, and the text has no comma or newline |
| Codec.StoiIgnoresSurroundings | AVLTree.h:61 | for any leading whitespace, digit run and trailing text that does not start with a digit, `stoi` gives what it gives for the digits alone |
| Codec.StoiRejects | AVLTree.h:61 | every token that contains no digit is an invalid argument |
| Codec.StoiOverflows | AVLTree.h:68 | every digit string whose value exceeds the largest `int` is out of range |
| Codec.StoiUnderflows | AVLTree.h:68 | a minus sign before digits whose value exceeds the magnitude of the least `int` is out of range |
| Codec.Ascending | AVLTree.h:49-51 | the dependency set is written in strictly increasing order, each element once |
| Codec.WriteIsOneLine | AVLTree.h:47-53 | the written record of a writable event holds no line break |
| Codec.ReadDepsJoin | AVLTree.h:67-69 | the dependency loop over comma-joined tokens adds exactly their values to the set |
| Codec.ParseLineWrite | AVLTree.h:55-72 | parsing the line `operator<<` wrote recovers id, name, date, times, and adds the dependencies to those of the target |
| Codec.ReadWrite | AVLTree.h:55-72 | `operator>>` on a written record followed by more text recovers the event and leaves the stream good at the next line |
| Codec.ReadAtEnd | AVLTree.h:57 | at the end of the input the stream fails and the event is untouched |
| Codec.SaveTextReadsBack | Graph.cpp:190-200 | the first line of the saved file reads back as the first event |
| Codec.SaveTextLoads | Graph.cpp:190-200 | reading the saved file record by record gives back all events, in order |
| EventGraph.AddEvent | Graph.cpp:22-25 | both vectors grow by exactly one: the event, and an empty edge list; nothing else changes |
| EventGraph.LastIndexOf | Graph.cpp:28-32 | the index of the last event with the id, -1 iff none |
| EventGraph.FindEndpoints | Graph.cpp:28-32 | the scan finds the last index of each of the two ids |
| EventGraph.AddDependency | Graph.cpp:27-37 | no change unless both ids occur; otherwise the edge list and the dependency set at the last index of `from` gain `to`, nothing else changes |
| EventGraph.DuplicateIdUsesLastIndex | Graph.cpp:29-35 | with a duplicated id, the edge goes to the last event holding it |
| EventGraph.CycleIsAccepted | Graph.cpp:27-37 | `1 -> 2` then `2 -> 1` are both recorded: no cycle check |
| EventGraph.FirstIndexOf | Graph.cpp:40-44 | the index of the first event with the id, -1 iff none |
| EventGraph.SetField | Graph.cpp:42 | exactly the named text field is replaced |
| EventGraph.UpdateFirst | Graph.cpp:40-45 | only the first event with the id is changed |
| EventGraph.Update | Graph.cpp:39-73 | the first event with the id gets the field; all other events and the edge lists are untouched; an unknown id is a no-op |
| EventGraph.UpdateEventName | Graph.cpp:39-46 | the name of the first event with the id is replaced, nothing else changes, unknown id no-op |
| EventGraph.UpdateEventDate | Graph.cpp:48-55 | the date of the first event with the id is replaced, nothing else changes, unknown id no-op |
| EventGraph.UpdateEventStartTime | Graph.cpp:57-64 | the start time of the first event with the id is replaced, nothing else changes, unknown id no-op |
| EventGraph.UpdateEventEndTime | Graph.cpp:66-73 | the end time of the first event with the id is replaced, nothing else changes, unknown id no-op |
| EventGraph.WithoutMembers | Graph.cpp:76-78 | the survivors of the erase-remove are exactly the events without the id, one fewer per occurrence |
| EventGraph.DeleteEvent | Graph.cpp:75-79 | every event with the id goes, the rest remain, the edge lists are unchanged |
| EventGraph.WithoutAppend | Graph.cpp:76-78 | the erase-remove distributes over concatenation, so the survivors keep their relative order |
| EventGraph.WithoutAbsent | Graph.cpp:75-79 | deleting an id that does not occur changes nothing |
| EventGraph.DeleteMisalignsDependencies | Graph.cpp:75-79 | in a three-event example, deleting the middle event leaves an edge list beside an event it does not belong to |
| EventGraph.OperationsKeepIndexable | Graph.cpp:22-79 | every operation keeps at least as many edge lists as events, so `addDependency` can index them |
| EventGraph.HasConflict | Graph.cpp:105-112 | true iff some stored event's interval overlaps the candidate's, regardless of date |
| EventGraph.DetectedConflictIsGraphConflict | Graph.cpp:105-112 | every conflict the tree reports is also a graph conflict, when the graph holds the tree's events |
| EventGraph.GraphConflictIgnoresDate | Graph.cpp:107 | in this example, the same 09:00-10:00 slot on another day is a conflict for the graph but not for the tree |
| EventGraph.SaveReadsBack | Graph.cpp:190-200 | the saved events read back in order |
| Validation.MatchesIffFits | Graph.cpp:257-265 | a whole-string match is an equal-length, position-by-position fit |
| Validation.ValidateDate | Graph.cpp:257-260 | accepted iff ten characters, `-` at positions 4 and 7, ASCII digits elsewhere |
| Validation.ValidateTime | Graph.cpp:262-265 | accepted iff five characters, `:` at position 2, ASCII digits elsewhere |
| Validation.DateNotRangeChecked | Graph.cpp:258 | month 13 and day 45 are accepted |
| Validation.TimeNotRangeChecked | Graph.cpp:263 | hour 25 and minute 99 are accepted |
| Validation.ShapeIsExact | Graph.cpp:257-265 | unpadded fields and trailing text are rejected |

## Left out

- The ncurses user interface and menu handling are not modelled: `create_event`, `update_event`, `delete_event`, `add_dependency`, `viewSchedule`, `display_menu` and `main`. They are terminal I/O only.
- File and process I/O is not modelled: opening files, `exportGraph`, `visualize_event_graph`, `AVLTree::visualize`, and the `system("dot ...")` calls. Only the text written and read is modelled, as strings.
- `loadEvents` (Graph.cpp:114-162) is not modelled:
  - it parses each line inline rather than through `operator>>`;
  - it calls `addEvent` and the tree insert before the dependency tokens are read, so loaded dependencies never reach the stored events;
  - it sets the global id counter.

  The record format it reads is the one `Codec` models.
- The global id counter `e_id` is ambient state used only by the interface.
- `makeEmpty` and the destructor are not modelled: memory management has no counterpart in an algebraic datatype.
- The Python plotting scripts are not modelled.
- AvlTree.Insert: requires its input to be an AVL tree. The C++ code dereferences children on the strength of that invariant, which every tree the class builds satisfies.
- AvlTree.Remove: does not claim the id is gone. The code does not achieve that (see Findings).
- Codec.Stoi: a conversion failure is an error value. In C++ it is an exception thrown out of `operator>>` after some fields of the event have already been assigned; that partial update is not modelled.
- Codec.ParseLineWrite: the round trip is stated for events whose text fields contain no comma and no newline. Other events do not survive the format.
- Lex.Less: compares characters by code point, which agrees with the C++ byte comparison on ASCII text only.
- Validation.ValidateDate: `\d` is taken as the ASCII digits, as in the default ECMAScript grammar of `std::regex`. Locale-dependent digit classes are not modelled.

## Findings

| source | as written | input that shows it | evidently intended | confidence | as-written member | corrected member |
|---|---|---|---|---|---|---|
| AVLTree.h:152-155 | `remove(id)` descends by comparing ids, although the tree is ordered by `(date, startTime, endTime)` | insert b (id 1, 10:00-11:00), then a (id 2, 09:00-10:00), then `remove(2)`: the search goes right of b and a stays | remove the event carrying the id | not executed | AvlRemoval.RemoveMissesStoredId | AvlRemoval.RemoveByIdCorrect |
| AVLTree.h:156-158 | a matched node with two children copies its successor, then removes the successor's id from the right subtree by the same id descent | insert x (id 5), a (id 9), c (id 1), b (id 2) on one day in time order, then `remove(5)`: b is copied to the root and not found under c, so it is stored twice | the successor node is taken out of the right subtree | not executed | AvlRemoval.RemoveDuplicatesSuccessor | AvlRemoval.RemoveKeyInOrder |
