# Models of the hachee parsers, the spanning-tree solver and the JSON codec

A Dafny model of four parts of the repository, with proofs about all their inputs and runs.

* **Chu-Liu-Edmonds solver** (`ChuLiuEdmonds.dfy`, on `Contraction.dfy`). The solver works in place on an array of
  predecessors and on a score table (a class whose map its methods update): greedy choice, cycle search,
  contraction, recursion, expansion. The main result is that, when every vertex can be reached from 0, the arcs
  returned form a spanning arborescence whose score no other spanning arborescence exceeds; when some vertex
  cannot be reached, they do not form one. The exchange argument behind it is proved on parent maps, apart from
  the arrays.
* **Swap-based shift-reduce parser and its oracle** (`ShiftReduce.dfy`, `ProjectiveOrder.dfy`, `SwapFree.dfy`,
  `Oracle.dfy`). A configuration class with four moves, each proved against a step function on states. Runs are sequences of
  enabled moves, however chosen: they keep the partition of the vertices, take at most n*n + n moves and end in a
  spanning arborescence. The oracle run over any gold tree never errs and builds exactly that tree; it does without a
  swap exactly when the tree is projective. The order in which vertices are listed and moves are offered is told by
  the arcs and the moves alone, apart from the functions that compute it.
* **Easy-first parser** (`EasyFirst.dfy`). The parse side, for any chooser of offered actions.
* **picojson** (`Json*.dfy`). A printer that appends to an output object; a parser over a cursor with one
  pushed-back byte, proved equal to functions of the unread bytes (`JsonGrammar.dfy`); and an independent
  definition of JSON texts as derivation trees (`JsonSyntax.dfy`). The parser accepts exactly the texts of
  well-formed trees, with their meaning. The round trip, the framing of messages by lines and by reads, the decoding of
  escapes, and the exact inputs on which the two parse contexts part are proved for all inputs.

`Arborescences.dfy` defines a spanning arborescence once, by one head per vertex and reachability from the root, for
the solver and both parsers. `Inversions.dfy` holds what both parsers need about lines of vertices,
`Sequences.dfy` what it means to keep some items of a list, and that an order leaves one way to list given items.

## How the model reads the source

* Scores are real numbers. They must not be negative on the arcs that count, those between two different current
  vertices and not into 0: the source uses -1 as "no score so far". Arcs from a vertex to itself and arcs into 0 may be in
  the table; they are never chosen.
* The order of a hash table's keys is arbitrary: `KeysOf` returns the cycle's vertices in some order, and the
  representative is the first of them.
* Vertices are integers from -1 up; -1 is the artificial root of both parsers. Both parsers take any integers as nodes
  and err on a negative one.
* The action chooser and the scorer are arbitrary functions. `None` stands for a signalled error. What is proved
  of the parsers' results is about distinct nodes. `:right-arc` is offered on a stack of one vertex, where it signals an error; `OfferedIffEnabled`
  says so.
* The stream of configurations is a loop, and the result of `parse` is read from the last configuration before the
  terminal one, as in the source: with no vertex at all there is none, which is an error.
* `sort` is an insertion sort on a fresh list.
* JSON text is a sequence of bytes from 0 to 255. Shifts and masks on code points are written as divisions and
  remainders. Numbers have an arbitrary type with two functions: `show` prints one, `decode` converts a token (the
  whole token or not at all) to a finite number or reports overflow, on which the default context throws. The round trip
  asks of every printed number only that its token looks like a number and decodes to it; `IntegersPrint` shows
  this for whole numbers below 2^53.
* An object is a list of entries in ascending order of keys, as `std::map` keeps it.
* The precondition of `Input.UngetC` is the assertion in the source. Every call in the parse functions meets it, whatever
  the input, so the assertion never fires; the unread input shrinks from call to call, so they all end.

## Model

| member | source | states |
|---|---|---|
| `Arborescences.ArborescenceIffRanked` | hachee/src/algorithm/chu-liu-edmonds.lisp:38-59 | one head per vertex and reachability from the root is the same as one head per vertex but the root and no cycle |
| `ChuLiuEdmonds.ScoreTable.SetScore` | hachee/src/algorithm/chu-liu-edmonds.lisp:7-11 | looking up the pair afterwards finds the score, and every other pair what it found before |
| `ChuLiuEdmonds.PickBestInto` | hachee/src/algorithm/chu-liu-edmonds.lisp:31-37 | the parent found has the greatest score of all arcs into the vertex, and is the first of those that have it, or there is no such arc |
| `ChuLiuEdmonds.PickBestIncoming` | hachee/src/algorithm/chu-liu-edmonds.lisp:27-37 | after the loop the array holds a best parent of every current vertex that has one |
| `ChuLiuEdmonds.TabulateCycle` | hachee/src/algorithm/chu-liu-edmonds.lisp:48-51 | the cycle table has exactly the cycle's vertices as keys and maps each predecessor to its successor |
| `ChuLiuEdmonds.WalkBack` | hachee/src/algorithm/chu-liu-edmonds.lisp:43-59 | a walk back either closes a cycle, tabulated whole, or shows that no cycle can be reached from its start |
| `ChuLiuEdmonds.SettledHasNoCycle` | hachee/src/algorithm/chu-liu-edmonds.lisp:53-59 | no cycle passes through a vertex whose walk has ended |
| `ChuLiuEdmonds.FindCycle` | hachee/src/algorithm/chu-liu-edmonds.lisp:38-59 | a cycle is reported exactly when the predecessor array has one; the table then holds one full cycle |
| `ChuLiuEdmonds.CollectEdges` | hachee/src/algorithm/chu-liu-edmonds.lisp:60-66 | without a cycle the result is exactly the chosen arcs |
| `ChuLiuEdmonds.WeighCycle` | hachee/src/algorithm/chu-liu-edmonds.lisp:68-71 | the sum of the cycle's own arcs |
| `ChuLiuEdmonds.ScanCycle` | hachee/src/algorithm/chu-liu-edmonds.lisp:86-109 | the best arc from the cycle to an outside vertex, and the best entry into the cycle with the cycle arc it replaces taken off |
| `ChuLiuEdmonds.Redirect` | hachee/src/algorithm/chu-liu-edmonds.lisp:84-120 | the arcs between the representative and one outside vertex get those best scores, with the real end noted, and no other entry changes |
| `ChuLiuEdmonds.Contract` | hachee/src/algorithm/chu-liu-edmonds.lisp:68-120 | after the in-place update this holds for every outside vertex at once |
| `ChuLiuEdmonds.TableIsContracted` | hachee/src/algorithm/chu-liu-edmonds.lisp:84-136 | read on the remaining vertices, the updated table is exactly the contraction of the graph, with non-negative scores |
| `ChuLiuEdmonds.RemoveMerged` | hachee/src/algorithm/chu-liu-edmonds.lisp:131-135 | what remains is the vertices outside the cycle and its representative, without repetition |
| `Contraction.CycleExchange` | hachee/src/algorithm/chu-liu-edmonds.lisp:38-59 | in any tree, the cycle's vertices can take their cycle arcs but one without losing score |
| `Contraction.ShrinkIsNoLighter` | hachee/src/algorithm/chu-liu-edmonds.lisp:84-120 | every arborescence of the graph maps to one of the contraction that is no lighter |
| `Contraction.ShrinkTree` | hachee/src/algorithm/chu-liu-edmonds.lisp:84-137 | for every arborescence of the graph the contraction has one at least as heavy |
| `Contraction.ExpandIsTree` | hachee/src/algorithm/chu-liu-edmonds.lisp:155-169 | expanding an arborescence of the contraction gives an arborescence of the graph |
| `Contraction.ExpandKeepsCost` | hachee/src/algorithm/chu-liu-edmonds.lisp:155-169 | the expansion weighs exactly what the contracted arborescence does, the cycle counted once |
| `Contraction.ExpandIsOptimal` | hachee/src/algorithm/chu-liu-edmonds.lisp:84-169 | expanding a best arborescence of the contraction gives a best one of the graph |
| `Contraction.AcyclicGreedyIsOptimal` | hachee/src/algorithm/chu-liu-edmonds.lisp:60-66 | best parents without a cycle are a best arborescence |
| `Contraction.ContractionReaches` | hachee/src/algorithm/chu-liu-edmonds.lisp:84-138 | what can be reached from the root still can be after the contraction |
| `ChuLiuEdmonds.ContractedHasEdges` | hachee/src/algorithm/chu-liu-edmonds.lisp:138-154 | when all vertices can be reached, the recursive result is not empty, so the fallback is not taken |
| `ChuLiuEdmonds.CutLightestArc` | hachee/src/algorithm/chu-liu-edmonds.lisp:140-154 | the fallback drops a lightest arc of the cycle and keeps the others, of which there is at least one |
| `ChuLiuEdmonds.ExpandEdges` | hachee/src/algorithm/chu-liu-edmonds.lisp:155-162 | every arc at the representative is replaced by the real arc behind it |
| `ChuLiuEdmonds.AddCycleArcs` | hachee/src/algorithm/chu-liu-edmonds.lisp:163-169 | a cycle vertex gets its cycle arc exactly when no arc enters it from outside |
| `ChuLiuEdmonds.HeadsExpanded` | hachee/src/algorithm/chu-liu-edmonds.lisp:155-169 | the arcs built are, vertex by vertex, the expansion that the optimality argument is about |
| `ChuLiuEdmonds.SolveCycle` | hachee/src/algorithm/chu-liu-edmonds.lisp:67-170 | the branch with a cycle solves the problem for the table as it was on entry and leaves entries outside the current vertices alone |
| `ChuLiuEdmonds.Solve` | hachee/src/algorithm/chu-liu-edmonds.lisp:26-170 | the result is a spanning arborescence of greatest total original score if and only if every current vertex can be reached from 0; in any case it has arcs of the table only, no two with one child, and is empty for an empty graph only; entries outside the current vertices stay as they were |
| `ChuLiuEdmonds.SolvedIffReachable` | hachee/src/algorithm/chu-liu-edmonds.lisp:25-170 | the result is a spanning arborescence at all exactly when every vertex can be reached |
| `ShiftReduce.OfferedIffEnabled` | hachee/src/dependency-parsing/shift-reduce.lisp:119-133 | a move is offered exactly when it does not signal an error, but that :right-arc is always offered |
| `ShiftReduce.OfferedInOrder` | hachee/src/dependency-parsing/shift-reduce.lisp:119-139 | the list handed to the chooser is the one list of these moves, each once, in the order :swap, :left-arc, :shift, :right-arc |
| `ShiftReduce.Configuration.DoLeftArc` | hachee/src/dependency-parsing/shift-reduce.lisp:53-63 | attaches the second vertex to the top, or fails and changes nothing |
| `ShiftReduce.Configuration.DoRightArc` | hachee/src/dependency-parsing/shift-reduce.lisp:65-74 | attaches the top to the second vertex, or fails and changes nothing |
| `ShiftReduce.Configuration.DoShift` | hachee/src/dependency-parsing/shift-reduce.lisp:77-83 | moves the first vertex of the buffer to the stack, or fails and changes nothing |
| `ShiftReduce.Configuration.DoSwap` | hachee/src/dependency-parsing/shift-reduce.lisp:85-97 | puts the second vertex back into the buffer when it is the smaller one and neither is the root, or fails and changes nothing |
| `ShiftReduce.Configuration.Transitioned` | hachee/src/dependency-parsing/shift-reduce.lisp:99-117 | the move is made on a fresh copy and the configuration itself stays as it was |
| `ShiftReduce.StepKeepsInv` | hachee/src/dependency-parsing/shift-reduce.lisp:53-97 | every move keeps the vertices split between stack, buffer and attached children, the root at the bottom, and attached vertices never used as heads again |
| `ShiftReduce.RunKeepsInv` | hachee/src/dependency-parsing/shift-reduce.lisp:141-150 | so does every state of every run |
| `ShiftReduce.InOnePlace` | hachee/src/dependency-parsing/shift-reduce.lisp:42-97 | no vertex stands in two places or is attached twice |
| `ShiftReduce.StepDecreases` | hachee/src/dependency-parsing/shift-reduce.lisp:53-97 | every enabled move lowers a measure made of the ascents in the line, its length and the buffer |
| `ShiftReduce.RunIsShort` | hachee/src/dependency-parsing/shift-reduce.lisp:141-150 | a run over n distinct vertices has at most n*n + n moves |
| `ShiftReduce.NeverStuck` | hachee/src/dependency-parsing/shift-reduce.lisp:119-133 | a reachable state that is not terminal has an offered move that is enabled |
| `ShiftReduce.TerminalIsArborescence` | hachee/src/dependency-parsing/shift-reduce.lisp:45-51 | the arcs of a terminal state are a spanning arborescence under -1 |
| `ShiftReduce.LastMove` | hachee/src/dependency-parsing/shift-reduce.lisp:141-172 | only a right arc from the root terminates, so the last state before lacks one arc, which the result drops anyway |
| `ShiftReduce.StreamEnds` | hachee/src/dependency-parsing/shift-reduce.lisp:141-150 | the stream of configurations is all but the last state of the run from its start in which every state results from the move chosen in the one before, among the moves offered in their order; the run ends in a terminal state, and there is no stream exactly when it gets to a chosen move that is not enabled |
| `ShiftReduce.NonRootKeeps` | hachee/src/dependency-parsing/shift-reduce.lisp:167-172 | taking out the arcs from the root leaves every other arc as often as it was, in the same order |
| `ShiftReduce.Parse` | hachee/src/dependency-parsing/shift-reduce.lisp:135-172 | the result is, in their order and as often, the arcs not from the root of the last state but one of the run of chosen moves to a terminal state; it is an error when a node is negative, there is no node, or that run gets to a move that is not enabled |
| `ShiftReduce.ParseBuildsTree` | hachee/src/dependency-parsing/shift-reduce.lisp:163-172 | from distinct nodes any result is a spanning arborescence under -1 without its arcs from -1: no vertex is a child twice, and those that are a child once are exactly the vertices not headed by -1; at most n*n + n moves |
| `ShiftReduce.ParseSucceeds` | hachee/src/dependency-parsing/shift-reduce.lisp:163-172 | with a chooser of enabled moves there is a result exactly when there are nodes and none is negative |
| `Inversions.SwapRemovesOne` | hachee/src/dependency-parsing/shift-reduce.lisp:85-97 | exchanging two neighbours in ascending order removes exactly one ascent |
| `Inversions.AscentsBound` | hachee/src/dependency-parsing/shift-reduce.lisp:85-97 | n vertices have at most n(n-1)/2 ascents |
| `ProjectiveOrder.FindRootFinds` | hachee/src/dependency-parsing/shift-reduce.lisp:187-192 | for a tree with an arc, the first parent that is no child is its root |
| `ProjectiveOrder.FindRootIff` | hachee/src/dependency-parsing/shift-reduce.lisp:187-192 | on any arc list the search finds the first parent that is no child, if there is one |
| `ProjectiveOrder.SortedSorts` | hachee/src/dependency-parsing/shift-reduce.lisp:197-200 | the sorted list is ascending and has the same elements |
| `ProjectiveOrder.ChildrenOfIs` | hachee/src/dependency-parsing/shift-reduce.lisp:197-200 | the sorted outgoing arcs give exactly the children |
| `ProjectiveOrder.VisitInOrder` | hachee/src/dependency-parsing/shift-reduce.lisp:202-219 | the traversal pushes the in-order listing of the subtree, in reverse; what that listing is, `ListingIff` says |
| `ProjectiveOrder.ListOrderedVertices` | hachee/src/dependency-parsing/shift-reduce.lisp:221-228 | the result lists every vertex once; a smaller sibling with all its descendants before a larger one with all its descendants; a head after its smaller children and their descendants and before its larger children and theirs |
| `ProjectiveOrder.ListingIff` | hachee/src/dependency-parsing/shift-reduce.lisp:202-228 | the in-order listing is the one list of the vertices in that order |
| `ProjectiveOrder.ListedIffBelow` | hachee/src/dependency-parsing/shift-reduce.lisp:202-219 | the listing of a subtree holds exactly the descendants of its root, as the arcs reach them |
| `ProjectiveOrder.ProjectiveIff` | hachee/src/dependency-parsing/shift-reduce.lisp:221-228 | the listing ascends exactly when the tree is projective: the descendants of every vertex are an interval among all vertices |
| `ProjectiveOrder.OrderIsPermutation` | hachee/src/dependency-parsing/shift-reduce.lisp:202-228 | every vertex is listed exactly once, and each subtree is one contiguous piece that holds exactly its descendants |
| `ProjectiveOrder.AdjacentLeaf` | hachee/src/dependency-parsing/shift-reduce.lisp:202-228 | in any ancestor-closed part with more than one vertex, some two neighbours of the listing are a leaf of the part and its parent |
| `Oracle.VerticesListed` | hachee/src/dependency-parsing/shift-reduce.lisp:284-291 | the vertices of a tree, each once, in ascending order |
| `Oracle.LeftArcKeeps` | hachee/src/dependency-parsing/shift-reduce.lisp:240-249 | a left arc the oracle allows is enabled and keeps the oracle's invariant |
| `Oracle.RightArcKeeps` | hachee/src/dependency-parsing/shift-reduce.lisp:251-260 | a right arc the oracle allows is enabled and keeps the oracle's invariant |
| `Oracle.SwapEnabled` | hachee/src/dependency-parsing/shift-reduce.lisp:262-274 | a swap the oracle asks for always meets the guard i < j |
| `Oracle.SwapKeeps` | hachee/src/dependency-parsing/shift-reduce.lisp:262-274 | such a swap keeps the invariant: sorted stack, no attachable pair buried, vertices out of linear order in projective order |
| `Oracle.ShiftKeeps` | hachee/src/dependency-parsing/shift-reduce.lisp:276-280 | a shift, taken when nothing else applies, keeps the invariant |
| `Oracle.AttachableSomewhere` | hachee/src/dependency-parsing/shift-reduce.lisp:240-260 | on a sorted stack with an empty buffer some two neighbours can be attached |
| `Oracle.ShiftHasBuffer` | hachee/src/dependency-parsing/shift-reduce.lisp:276-280 | when the oracle falls through to a shift, the buffer is not empty |
| `Oracle.OracleStep` | hachee/src/dependency-parsing/shift-reduce.lisp:276-280 | in every state of its run the oracle picks a move without an error, and the move is enabled and offered |
| `Oracle.OracleRunSucceeds` | hachee/src/dependency-parsing/shift-reduce.lisp:152-160 | the run from any state with the invariant reaches a terminal one, and its actions replay to it |
| `Oracle.TerminalIsGold` | hachee/src/dependency-parsing/shift-reduce.lisp:230-280 | the terminal state holds exactly the gold arcs and the root arc, each once |
| `Oracle.OracleComplete` | hachee/src/dependency-parsing/shift-reduce.lisp:230-304 | for every gold tree with an arc the oracle run succeeds and builds the gold arcs and the arc from -1 to the gold root |
| `Oracle.OracleParseIsGold` | hachee/src/dependency-parsing/shift-reduce.lisp:163-172 | parsing the vertices of a gold tree with the oracle as the chooser reports every gold arc once and nothing else |
| `Oracle.CompleteRunLength` | hachee/src/dependency-parsing/shift-reduce.lisp:53-97 | any complete run over n vertices takes 2n moves and two more for every swap |
| `Oracle.OracleRunLength` | hachee/src/dependency-parsing/shift-reduce.lisp:152-160 | so does the oracle run over any gold tree, and it takes exactly 2n, that is it never swaps, if and only if the tree is projective |
| `Oracle.ListingIsLinear` | hachee/src/dependency-parsing/shift-reduce.lisp:221-228 | the projective order of a tree is the ascending list of its vertices if and only if the tree is projective |
| `SwapFree.StraightStep` | hachee/src/dependency-parsing/shift-reduce.lisp:53-83 | every move but a swap keeps the vertices in play in order with all that is attached below each, and the arcs projective |
| `Oracle.SwapFreeIsProjective` | hachee/src/dependency-parsing/shift-reduce.lisp:53-97 | whatever chose the moves, a complete run over an ascending sentence without a swap builds a projective tree |
| `Oracle.SearchOracleActionSequence` | hachee/src/dependency-parsing/shift-reduce.lisp:294-304 | the sequence found builds the gold tree, and each of its actions is the one the oracle picks at its turn, for the projective order that the arcs fix |
| `Oracle.ReplayTraining` | hachee/src/dependency-parsing/shift-reduce.lisp:307-325 | replaying any sequence passes every assertion exactly when each action is offered at its turn, and visits the states of the sequence |
| `Oracle.CallWithTrainingInstance` | hachee/src/dependency-parsing/shift-reduce.lisp:307-325 | for every gold tree with an arc no assertion fails, and the states visited are those in which the oracle picked the actions |
| `EasyFirst.ListSwap` | hachee/src/dependency-parsing/easy-first.lisp:88-93 | the in-place exchange of two items looked up by value |
| `EasyFirst.SwappedNeighbours` | hachee/src/dependency-parsing/easy-first.lisp:88-101 | on distinct items it exchanges two neighbours and nothing else |
| `EasyFirst.RemoveAt` | hachee/src/dependency-parsing/easy-first.lisp:78-86 | removal by value takes out the one place where the source stands |
| `EasyFirst.ConfigurationMove` | hachee/src/dependency-parsing/easy-first.lisp:95-101 | the move is made on a copy of the pending list and keeps the arcs |
| `EasyFirst.CollectAttaches` | hachee/src/dependency-parsing/easy-first.lisp:115-124 | the attachments, latest first, none with the root as its source |
| `EasyFirst.CollectMoves` | hachee/src/dependency-parsing/easy-first.lisp:126-131 | the exchanges of neighbours in ascending order, without the head |
| `EasyFirst.OfferedIff` | hachee/src/dependency-parsing/easy-first.lisp:115-137 | an action is offered exactly when it attaches one of two neighbours to the other, the root never being attached to its right neighbour, or exchanges two ascending ones |
| `EasyFirst.OfferedInOrder` | hachee/src/dependency-parsing/easy-first.lisp:115-137 | the list handed to the chooser is the one list of these actions in this order: the attachments before the moves, from the last pair of neighbours to the first, onto the left neighbour first; the moves from left to right; no action twice |
| `EasyFirst.InitialAscends` | hachee/src/dependency-parsing/easy-first.lisp:349-355 | at the start the root stands before all nodes in ascending order, and nothing is attached |
| `EasyFirst.StepKeeps` | hachee/src/dependency-parsing/easy-first.lisp:78-113 | any offered action can be taken and keeps the root at the head and every node pending or attached for good; an attachment adds an arc, a move removes one ascent |
| `EasyFirst.RunIsShort` | hachee/src/dependency-parsing/easy-first.lisp:139-148 | at any point of any run there are as many attachments as arcs and at most n(n-1)/2 moves, with the root at the head |
| `EasyFirst.NeverStuck` | hachee/src/dependency-parsing/easy-first.lisp:73-76 | a state that is not terminal has an action to offer |
| `EasyFirst.LastAttach` | hachee/src/dependency-parsing/easy-first.lisp:139-148 | only attaching the last node to the root terminates |
| `EasyFirst.StreamEnds` | hachee/src/dependency-parsing/easy-first.lisp:133-148 | the stream of configurations is all but the last state of the run to the terminal state in which every state results from the action chosen in the one before, among the actions offered in their order |
| `EasyFirst.Run` | hachee/src/dependency-parsing/easy-first.lisp:139-148 | for any chooser the run visits the states its choices lead to, as many as there are nodes and moves, and its last state lacks one root arc of a spanning arborescence |
| `EasyFirst.Parse` | hachee/src/dependency-parsing/easy-first.lisp:349-356 | for n distinct nodes, the arcs of the last state but one of the run of chosen actions, each chosen among those offered in their order: n-1 arcs with distinct sources that become a spanning arborescence under -1 once the one unattached node is attached to -1, after n attachments and at most n(n-1)/2 moves; an error exactly for a negative node or no node |
| `JsonText.CharactersAre` | third-party/picojson/picojson.h:449-516 | the punctuation, the white space and the words null, true and false are the characters of the source |
| `JsonText.ClassesAre` | third-party/picojson/picojson.h:556-564 | white space is blank, tab, line feed and carriage return; a number starts with a digit or a minus sign and goes on with digits, signs, point, e and E |
| `JsonText.HexValueIff` | third-party/picojson/picojson.h:592-599 | a byte is read at a value from 0 to 15 exactly when it is the hexadecimal digit for it, in lower or in upper case |
| `JsonText.IsHexIff` | third-party/picojson/picojson.h:592-602 | the bytes taken are those 22 characters |
| `JsonText.UnescapedIff` | third-party/picojson/picojson.h:660-670 | the one-letter escapes and what they stand for |
| `JsonPrinter.KeyLessIff` | third-party/picojson/picojson.h:112-112 | a key stands before another when it is a proper prefix of it, or has the smaller byte where they first differ |
| `JsonPrinter.PutAssigns` | third-party/picojson/picojson.h:858-863 | assigning to a key changes what that key holds and nothing else, and keeps the keys ascending in the order of `KeyLessIff` |
| `JsonEscapes.EscapeForm` | third-party/picojson/picojson.h:406-432 | a byte is written by its letter where it has one, as \u and four lower-case digits where it is another control byte or 0x7f, and as it is otherwise |
| `JsonPrinter.ArrayLayout` | third-party/picojson/picojson.h:449-478 | commas between the items; in the pretty form a line break and two spaces a level before each item and before the bracket that closes a list that is not empty |
| `JsonPrinter.ObjectLayout` | third-party/picojson/picojson.h:479-506 | the same for the members, with a colon after each key, and a space after it in the pretty form |
| `JsonPrinter.SerializeStr` | third-party/picojson/picojson.h:406-432 | appends the quoted and escaped string to the output |
| `JsonPrinter.WriteNewLine` | third-party/picojson/picojson.h:442-447 | appends a line break and two spaces for each level |
| `JsonPrinter.Serialize` | third-party/picojson/picojson.h:449-516 | appends the compact or the pretty text of the value, with the final line break at the top level of the pretty form |
| `JsonInput.Input.GetC` | third-party/picojson/picojson.h:532-547 | the next unread byte, or -1 at the end, with the line count kept |
| `JsonInput.Input.UngetC` | third-party/picojson/picojson.h:548-553 | the last byte becomes unread again; nothing may be pushed back already |
| `JsonInput.Input.SkipWs` | third-party/picojson/picojson.h:556-564 | exactly the white space at the front is consumed |
| `JsonInput.Input.Expect` | third-party/picojson/picojson.h:565-572 | the byte is consumed exactly when it comes next after white space |
| `JsonInput.Input.Match` | third-party/picojson/picojson.h:573-583 | consumes a literal, or stops before the first byte that differs |
| `JsonGrammar.LiteralStops` | third-party/picojson/picojson.h:573-583 | a literal that is not there as a whole is left at the first byte that differs |
| `JsonInput.ParseQuadHex` | third-party/picojson/picojson.h:586-605 | equals its description on the unread bytes, pushback included, of which `QuadHexIff` and `QuadHexStops` say what it is |
| `JsonInput.ParseCodepoint` | third-party/picojson/picojson.h:607-646 | equals its description on the unread bytes, pushback included |
| `JsonInput.ParseString` | third-party/picojson/picojson.h:648-684 | equals its description on the unread bytes, pushback included |
| `JsonInput.ReadNumber` | third-party/picojson/picojson.h:724-743 | takes exactly the run of number bytes |
| `JsonInput.ParseArray` | third-party/picojson/picojson.h:686-701 | equals its description on the unread bytes in either context |
| `JsonInput.ParseObject` | third-party/picojson/picojson.h:703-722 | equals its description on the unread bytes in either context |
| `JsonInput.ParseValue` | third-party/picojson/picojson.h:745-798 | on every input, valid or not, the parser ends without pushing a byte back over another, and verdict, value, unread bytes and pushback are those of the grammar function |
| `JsonInput.ReadNear` | third-party/picojson/picojson.h:916-923 | the rest of the line is consumed, and its bytes from 0x20 up are collected |
| `JsonInput.ShownKeeps` | third-party/picojson/picojson.h:916-923 | what is shown are the bytes from 0x20 up, as often as they stand and in their order |
| `JsonInput.LineBreaksCounted` | third-party/picojson/picojson.h:542-544 | the line number counts the line breaks |
| `JsonInput.ParseText` | third-party/picojson/picojson.h:910-926 | the line where the parse stops, and the cursor returned: the place where it stops, or after a rejection the end of that line, with what is shown of it |
| `JsonEscapes.QuadHexIff` | third-party/picojson/picojson.h:586-605 | a unit is accepted at a value and with a rest exactly when the first four bytes are the hexadecimal digits of the value, each in either case |
| `JsonEscapes.QuadHexStops` | third-party/picojson/picojson.h:586-605 | a rejected unit is left at the first of its four places where no digit stands |
| `JsonEscapes.SpellsIff` | third-party/picojson/picojson.h:607-629 | an escape spells a scalar value by the four digits of the value, or by those of the two units that its bits make |
| `JsonEscapes.EscapeIff` | third-party/picojson/picojson.h:607-646 | an escape is accepted exactly when it spells a scalar value, by one unit or a proper surrogate pair, and then gives its UTF-8 form |
| `JsonEscapes.EscapeDecodes` | third-party/picojson/picojson.h:630-644 | the bytes appended decode back to the scalar value that was spelled |
| `JsonEscapes.EveryScalarIsSpelled` | third-party/picojson/picojson.h:607-646 | every scalar value has an escape that is accepted |
| `Utf8.DecodeIffEncoded` | third-party/picojson/picojson.h:630-644 | the encoder agrees, in both directions, with a strict UTF-8 decoder in the sense of section 3 of RFC 3629 |
| `JsonSyntax.PartsRead` | third-party/picojson/picojson.h:648-684 | every proper string body is read at its meaning, up to and with the closing quote |
| `JsonSyntax.TreeReads` | third-party/picojson/picojson.h:745-798 | the text of every well-formed tree, whatever its white space and escapes, is read at its meaning |
| `JsonSyntax.LastMemberCounts` | third-party/picojson/picojson.h:858-863 | of several members with one key the last one counts |
| `JsonSyntax.OtherKeysStay` | third-party/picojson/picojson.h:858-863 | a key that no member has holds what it held |
| `JsonAccepts.StringInverse` | third-party/picojson/picojson.h:648-684 | whatever is accepted as a string is a proper string body |
| `JsonAccepts.ValueInverse` | third-party/picojson/picojson.h:745-798 | whatever is accepted as a value is white space and the text of a well-formed tree with that meaning |
| `JsonAccepts.AcceptsIff` | third-party/picojson/picojson.h:686-798 | the default context accepts a value and leaves a rest exactly when the input is a text of that value before that rest |
| `JsonRoundTrip.PrintedMeans` | third-party/picojson/picojson.h:449-516 | what the printers write is laid out as a well-formed tree that means the value |
| `JsonRoundTrip.PrintedText` | third-party/picojson/picojson.h:406-516 | the text of that tree is what the printers write, at any depth |
| `JsonRoundTrip.RoundTrip` | third-party/picojson/picojson.h:406-516 | parsing the compact or the pretty text gives the value back and leaves nothing, or the final line break, unread |
| `JsonIntegers.ShowIs` | third-party/picojson/picojson.h:375-379 | a whole number is written by its decimal digits without a leading zero, behind a minus sign when it is negative |
| `JsonIntegers.IntegersPrint` | third-party/picojson/picojson.h:375-379 | whole numbers below 2^53 meet what the round trip asks of numbers |
| `JsonContexts.ThrowsIff` | third-party/picojson/picojson.h:745-798 | the default context throws exactly when one of the number tokens that are read overflows |
| `JsonContexts.ContextsAgree` | third-party/picojson/picojson.h:820-901 | both contexts accept or reject alike and leave the same input and pushback exactly when no number token that the validating parser reads overflows; otherwise the default one throws and the validating one does not |
| `JsonContexts.ContextsPart` | third-party/picojson/picojson.h:195-208 | the bare number 1e999, out of range, makes the default context throw and is accepted by the validating one; between quotes the same bytes are no number |
| `JsonContexts.NumbersOfTree` | third-party/picojson/picojson.h:745-798 | on every text of a well-formed tree the tokens read are the number tokens of the tree, in order |
| `JsonContexts.NumbersStand` | third-party/picojson/picojson.h:724-743 | every token read is the whole run of number bytes from some place in the input where a number starts |
| `JsonContexts.ValueSuffix` | third-party/picojson/picojson.h:745-798 | in either context and whatever the verdict, what stays unread is a suffix of the input |
| `JsonFraming.CompactNoControl` | third-party/picojson/picojson.h:406-516 | the compact text of any value has no byte below 0x20 |
| `JsonFraming.LinesCarryMessages` | senn-common/kkc-engine/anthy/engine.cpp:44-52 | reading a stream of compact texts line by line and parsing each line recovers the messages, in order |
| `JsonFraming.ReceiveString` | senn/package/win/com-ime-server/dllmain.cpp:139-158 | the receiving loop gathers the pieces up to the first that ends in a line break |
| `JsonFraming.ReceivedIff` | senn/package/win/com-ime-server/dllmain.cpp:139-158 | what is received is the first piece that ends in a line break and all pieces before it |
| `JsonFraming.MessageArrives` | senn/package/win/com-ime-server/dllmain.cpp:130-182 | a compact text and its line break, cut into any non-empty pieces, is received whole and parsed to the value that was sent |

## Left out

- ChuLiuEdmonds.Solve: requires scores that are not negative, because a score at or below the sentinel -1 is never chosen; rounding of floating-point scores is not modelled.
- The oracle on an empty gold list, for which there is no root to find.
- `select-only-tree-arborescence-arc-list`: it can keep two heads for one vertex, so it has no such property.
- The training side of the easy-first parser and its no-op action: its check for children without gold children always succeeds, and its update loop may repeat.
- Feature extraction, score weights and the lazy streams: the chooser is an arbitrary function and a stream is a loop.
- The longest common subsequence in hachee/src/algorithm/longest-common-subsequence.lisp: its boundary rows do not carry a match on, so it does not meet its own description.
- JsonInput.ParseText: does not model the fixed words of the error message, nor a caller that asks for no message.
- JsonFraming.ReceiveString: requires that every read gives at least one byte; a failing read is the end of the list.
- JsonIntegers.IntegersPrint: covers whole numbers below 2^53, which are written as integers; the form with 17 digits and the conversion back are the C library's.
- Other formatting and conversion of floating-point numbers, and the decimal point of the locale: functions over an abstract number type.
- The build option for 64-bit integers in picojson, and the context that denies every value.
- What a failed parse leaves in the output value: it is not looked at.
- The tagged union, stream wrappers and accessors of picojson.
- Sharing of list structure in Lisp and of buffers in C++: lists, maps and strings are values.
- Debug printing, the n-gram models, the conversion engine, and the input-method front ends, sockets and processes of the rest of the repository.
