# Spreadsheet graphs, snapshots and masks: a verified model

The programs modelled here read a spreadsheet's formulas into a graph of operators, constants and
cells, find its circular references and calculation levels, and cut workbooks from the result. The
model follows their code branch by branch and proves what the results promise, for every input.

| part | files |
|---|---|
| component search, in arrays and in dictionaries | `Digraphs`, `TarjanMachine`, `TarjanComponents`, `AdjacencyArrays`, `ArrayTarjan`, `MemoryTarjan` |
| graph records, the disk-backed store, the graph in memory or on disk | `GraphRecords`, `DiskAnalysis`, `GraphMeaning`, `FinalRecords`, `OrderedDicts`, `GraphStores`, `GraphStoreLimits`, `AstGraphs` |
| formula parser, grammar, renderer and graph emission | `FormulaTokens`, `FormulaParser`, `FormulaConservation`, `FormulaGrammar`, `FormulaSpacing`, `FormulaReadings`, `FormulaRendering`, `FormulaEmission`, `EmissionReadings`, `EmissionLosses` |
| range index and reference clipping | `RangeIndex`, `ReferenceClipping` |
| leak closures, variable emission, alias merging | `AuditRows`, `LeakClosure`, `LeakReadings`, `FreshNames`, `NormalizerEmission`, `NormalizerReadings`, `DraftRows`, `StringOrder`, `Aliases`, `AliasReadings` |
| levels, cutoffs and snapshots | `CellLevels`, `Cutoffs`, `Snapshots` |
| input mask and its checker | `MaskModel`, `MaskSets`, `MaskRewrite`, `MaskCheck`, `MaskReadings` |
| viewer panels and the pass-at-k score | `PanelGroups`, `SkylinePacking`, `PassAtK` |

Code that changes things step by step is a class or a method with loops, tied by its contract to a
function or a predicate; the promises are lemmas about those. Both component searches are tied to
one step machine, whose invariants give the correctness of both. The files called readings, and
`FinalRecords`, say what the specifications come to on their inputs and outputs alone, in literals and
without their auxiliary definitions. `Options` holds the one optional
value all parts share. `hide` statements only keep definitions out of a proof's way.

## Findings

Where the code does not keep a promise on all inputs, the exact condition is proved, and a lemma or a
method shows one input that fails:

- Graph records, xl_ast_graph.py:346-371 and 1475-1498. An operator's record shows its text cut at 200
  characters, and nothing else holds the row count of an array. Two row counts of one array give the same
  records exactly when every separator that differs lies past the cut (`SameArrayRecords`): a text of 198
  characters and 2 have the same records in one row and in two (`RowsAreLost`), `{1,2}` and `{1;2}` do not
  (`RowsAreKept`). Two formulas have the same records exactly when they show the same operators over the
  same recorded operands with the same cut texts, and INDIRECT calls that point at the same (`SameRecords`),
  so an operand that leaves no node still counts as far as its operator's text shows it
  (`ConstantsStillShow`). When constants are recorded,
  references resolve and every array is even and fits, the records give the tree back, row counts
  included (`EmissionLosesNothing`).
- Node numbers, xl_ast_graph.py:1509-1516. Operand edges, and only they, go from lower to higher numbers
  (`RecordsAreOrdered`); a literal an INDIRECT call points at is numbered after the call
  (`IndirectPointsBack`).
- Range counts, xl_ast_graph.py:159-168. `SheetIndex.count` subtracts cells when a box has its rows
  reversed; it is the size of the plain filter exactly when no populated cell of the columns lies strictly
  between them (`CountIsSize`). One cell in row 3, counted between rows 5 and 1, gives -1
  (`CountsBelowZero`).
- Snapshot caps, xl_level_split.py:206-211. A negative cap gives no snapshot at all (`CutoffsAreRight`);
  a cap of -1 over four levels (`NegativeCapGivesNone`).
- Mask check, xl_input_mask.py:742-881. A masked workbook passes its check exactly when no kept formula
  result starts with `=` and no surviving text contains the text of an answer's formula (`MaskPassesIff`);
  a workbook of one cell fails it either way (`KeptResultFails`, `NoteFails`).
- Mask rewriting, xl_input_mask.py:690-700. A kept formula reads the same afterwards exactly when its
  stored result is not an empty text (`MaskedGrid`); an empty text, which read as nothing, reads as a text
  in the copy (`EmptyTextShows`).
- Writes after the final pass, xl_graph_store.py:72-81 and 210-245. The store is a faithful stand-in for a
  list of records up to the final pass, whatever is put, inserted, read or evicted. After it, a node put
  keeps all reads right exactly when the record carries plain degrees and a plain flag and no edge's flag
  changes by it; a put refused half-way keeps them right exactly when it changed no degree (`PutNode`,
  `PutKeepsReads`). An edge put keeps them right exactly when the flag it carries is the one its ends give
  it (`PutEdge`, `EdgeKeepsReads`). An insertion keeps them right exactly before the pass (`SetNode`,
  `SetKeepsReads`): unlike an edge, a new node is not refused afterwards.
- What then goes wrong is shown on any store with room for one cached record, and on one with two nodes and
  a loop (`ReadsGoWrong`): a node inserted after the pass is returned while it is cached and raises an
  index error once it is evicted (`InsertThenEvict`); clearing a node's flag turns the flag of an edge
  nobody wrote to (`ClearFlagThenRead`); an edge written with the other flag shows it until it leaves the
  cache and then shows the old one again (`TurnFlagThenEvict`).
- Cycle views, xl_graph_store.py:149-158 and 231-238. After the pass a node put keeps cycles, flags and
  degrees those of the graph exactly when it carries the degrees and the flag the node has; the cyclic set
  and the listed cycles agree after it exactly when the flag it writes says whether the node is listed
  (`PutNode`, `FlagsListAfter`).
- Normalizer scripts, gen_normalizer.py:123-143, 297-334 and 794-826. A generated script accepts its own
  tables exactly when the draft rows are distinct and each has an audited cell (`ScriptAccepts`), that is,
  when none has references that all run backward (`NothingAudited`, `ScriptAcceptsDraft`); a draft that
  names only B3:A1 stops the script (`BackwardStopsScript`).

## Model

| member | source | states |
|---|---|---|
| AdjacencyArrays.CountDegrees | xl_graph_store.py:269-270 | every in- and out-degree is the number of edge rows into and out of the node |
| AdjacencyArrays.BlockOffsets | xl_graph_store.py:271-272 | each node's block starts where the blocks of all lower nodes end |
| AdjacencyArrays.FillBlocks | xl_graph_store.py:273-275 | every block holds its node's successors in edge order, within the array |
| AdjacencyArrays.BeforeAll | xl_graph_store.py:271-273 | the blocks of all nodes together hold every edge once, so they fill an array of one entry per edge |
| TarjanMachine.ExamineInv | xl_graph_store.py:288-293 | looking at one more successor keeps all search invariants: stack order, reachability both ways, low values sound and tight, reported components complete and closed |
| TarjanMachine.RetreatInv | xl_graph_store.py:295-310 | leaving a node, with or without closing a component, keeps all search invariants |
| TarjanMachine.LeaveComponents | xl_graph_store.py:296-307 | what is taken off the stack is exactly one strongly connected component, disjoint from the earlier ones |
| TarjanComponents.StepProgress | xl_graph_store.py:279-310 | each step discovers a node, shortens the work stack or examines one more successor, and forgets no discovered node: the termination measure of the search |
| TarjanComponents.EveryNodeFinished | xl_graph_store.py:279-310 | when the search ends every node lies in a reported or dropped component |
| TarjanComponents.CyclesAreComponents | xl_graph_store.py:296-305 | each listed cycle is a strongly connected component with several members or a self-edge, and no node is in two of them |
| TarjanComponents.ReportedIffOnCycle | xl_graph_store.py:299-304 | a node is in a listed cycle exactly when it lies on a directed cycle |
| TarjanComponents.CyclesInReverseOrder | xl_graph_store.py:296-305 | the listed cycles stand in reverse topological order: no earlier one reaches a later one |
| TarjanComponents.CyclesNewestFirst | xl_graph_store.py:303-305 | every listed cycle runs from the node the search discovered last to the one it discovered first |
| ArrayTarjan.StacksHaveRoom | xl_graph_store.py:277 | while a node is undiscovered neither the work stack nor the component stack is full, so both fit in arrays of one entry per node |
| ArrayTarjan.ArraySearch.Discover | xl_graph_store.py:284-286 | numbering a node and pushing it is the machine's visit |
| ArrayTarjan.ArraySearch.Scan | xl_graph_store.py:288-294 | the inner loop takes the machine's steps until a new node is found or no successor is left, in bounds |
| ArrayTarjan.ArraySearch.FindStart | xl_graph_store.py:296-297 | the downward search finds the place of the node on the component stack |
| ArrayTarjan.ArraySearch.FeedsItself | xl_graph_store.py:299 | scanning the block tells whether the node feeds itself |
| ArrayTarjan.ArraySearch.Flag | xl_graph_store.py:303-305 | the members are listed from the top of the stack down, and they and no others are newly flagged cyclic |
| ArrayTarjan.ArraySearch.Report | xl_graph_store.py:298-305 | the report grows by the component exactly when a value can loop around it, with flags and count kept in step |
| ArrayTarjan.ArraySearch.Unstack | xl_graph_store.py:306-307 | the component and nothing else leaves the stack |
| ArrayTarjan.ArraySearch.Pop | xl_graph_store.py:308-310 | the work stack loses its top and the parent takes the lower low value |
| ArrayTarjan.ArraySearch.Finish | xl_graph_store.py:295-310 | leaving a node is the machine's retreat, report included |
| ArrayTarjan.ArraySearch.Turn | xl_graph_store.py:282-310 | one turn of the outer loop continues the same exploration and makes it smaller |
| ArrayTarjan.ArraySearch.ExploreRoot | xl_graph_store.py:281-310 | from an undiscovered root the loops end in the state the machine reaches, every array access in bounds |
| ArrayTarjan.ArraySearch.Run | xl_graph_store.py:278-310 | the array search reports exactly the circular components, in order and with member order, and flags exactly their members |
| MemoryTarjan.MemorySearch.Scan | xl_ast_graph.py:1641-1652 | the loop over neighbours, which saves its place only when it goes deeper, takes the machine's steps |
| MemoryTarjan.MemorySearch.PopComponent | xl_ast_graph.py:1656-1662 | popping until the node itself yields the component with its member order |
| MemoryTarjan.MemorySearch.Report | xl_ast_graph.py:1663-1664 | a component is kept exactly when a value can loop around it |
| MemoryTarjan.MemorySearch.Finish | xl_ast_graph.py:1655-1668 | leaving a node is the machine's retreat |
| MemoryTarjan.MemorySearch.Run | xl_ast_graph.py:1621-1669 | the dictionary search lists the same components with the same member order as the array search, by name |
| DiskAnalysis.Analyse | xl_graph_store.py:263-313 | degrees, flags and components of the final pass, from the edge rows alone |
| GraphMeaning.FlagMeansCycle | xl_graph_store.py:210-214 | a node reads as cyclic exactly when it lies on a directed cycle of the graph's edges |
| GraphMeaning.CyclicViewListsEachOnce | xl_graph_store.py:149-158 | the view of cyclic nodes lists every node of a component once |
| FinalRecords.NodeIsDecorated | xl_ast_graph.py:1604-1616 | by name alone: a node gains the number of edges that name it as target, the number that name it as source, and whether a chain of edges leads from it back to itself; nothing else changes |
| FinalRecords.EdgeIsDecorated | xl_ast_graph.py:1617-1618 | an edge gains whether both its ends lie on such chains; nothing else changes |
| FinalRecords.ListsByName | xl_ast_graph.py:1613-1614 | two names are listed together exactly when chains of edges lead from each to the other |
| FinalRecords.ListsAreApart | xl_ast_graph.py:1613-1614 | a name is listed exactly when a chain leads back to it, no list repeats a name, and no chain leads from an earlier list to a later one |
| GraphRecords.WithNodeIs | xl_graph_store.py:72-81 | a node of a known identity takes the place of the one before it, one of a new identity goes to the end |
| GraphRecords.WithEdgeIs | xl_ast_graph.py:1309-1331 | an edge is left out exactly when a recorded one equals it in source, target, role, argument slot and reference |
| GraphRecords.BothAreKept | xl_graph_store.py:174-176 | two edges that differ in any one of the five are both kept, such as the two operands of one call over one cell |
| GraphStores.GraphStore.ReadableMeans | xl_graph_store.py:210-230 | reads are right exactly when every cached record is the record last written, decorated by the final pass, and so is every record read from its row |
| GraphStores.GraphStore.FlushRecord | xl_graph_store.py:189-192 | writing a dirty record back makes it clean and leaves tables and cache agreeing |
| OrderedDicts.PutIs | xl_graph_store.py:184-186 | an assignment makes its key the one used last, keeps the others in their order and changes no other value |
| OrderedDicts.TrimmedIs | xl_graph_store.py:184-188 | what eviction leaves are the entries used last, as many as the capacity, in their order and with their values |
| GraphStores.GraphStore.Remember | xl_graph_store.py:184-188 | the record goes last, the least recently used ones leave until the capacity is met, every evicted dirty one is written back |
| GraphStores.GraphStore.Flush | xl_graph_store.py:193-196 | afterwards nothing is dirty, the tables hold everything, and reads that were right stay right |
| GraphStores.GraphStore.RememberId | xl_graph_store.py:197-200 | the identity cache forgets the least recently used identities and stays correct |
| GraphStores.GraphStore.NodeOrdinal | xl_graph_store.py:204-209 | the ordinal of an identity is its place in the insertion order, an unknown identity has none |
| GraphStores.GraphStore.GetNode | xl_graph_store.py:210-230 | reading a node returns the cached record, else its row with the degrees and flag the arrays hold, else an index error; while reads are right that is its last written value with its degrees and flag |
| GraphStores.GraphStore.GetEdge | xl_graph_store.py:215-230 | reading an edge returns the cached record, else its row with the flag its ends now give it; while reads are right that is its last written value with its flag |
| GraphStores.GraphStore.ListNodes | xl_graph_store.py:86-89 | the bulk reader writes back and lists every row with the degrees and flag the arrays hold, up to their end; while reads are right it lists what reading each node returns |
| GraphStores.GraphStore.ListEdges | xl_graph_store.py:108-113 | the bulk reader lists every edge with the flag its ends now give it; while reads are right it lists what reading each edge returns |
| GraphStores.GraphStore.WriteFlags | xl_graph_store.py:236-237 | degrees and flag are written one after the other, stopping at the first that is missing, refused or out of range |
| GraphStores.WhenFlagsAreWritten | xl_graph_store.py:236-237 | which records are written whole, which are refused, and which run past the arrays, by the fields they carry |
| GraphStores.WhatArraysAccept | xl_graph_store.py:236-237 | whole numbers that are not negative and truth values are counts; only an absent value, empty text, nought and false leave a flag unset |
| GraphStores.GraphStore.PutNode | xl_graph_store.py:231-245 | before and after the final pass: the outcome, the record, degrees and flag written, that reads stay right exactly when the put keeps every edge's flag, and that the results stay those of the graph exactly when the node keeps its degrees and flag |
| GraphStores.FlagsListAfter | xl_graph_store.py:149-158 | the flags go on saying what the cycles list exactly when the flag written does |
| GraphStores.GraphStore.SetNode | xl_graph_store.py:72-81 | assignment keeps a known node's place, appends an unknown one, refuses a differing identity; an insertion keeps reads right exactly before the final pass |
| GraphStores.GraphStore.AddEdge | xl_graph_store.py:246-255 | an edge is appended unless a recorded one equals it in source, target, role, argument slot and reference; unknown ends and finished graphs are refused |
| GraphStores.GraphStore.PutEdge | xl_graph_store.py:231-245 | overwriting replaces exactly that edge, is refused exactly when it would repeat another or name an unknown node, and keeps reads right exactly when the edge carries the flag of its ends |
| GraphStores.GraphStore.EdgeEnds | xl_graph_store.py:269 | the edge rows are the edges as pairs of places, all of them in range |
| GraphStores.GraphStore.Postprocess | xl_graph_store.py:258-313 | once, below the 32-bit limit, reads show the degrees, flags and components of the graph that was built, which itself is unchanged |
| GraphStores.GraphStore.Cycle | xl_graph_store.py:141-146 | the indexed cycle lists the identities of that component in member order, indices from the end included, whatever was put since |
| GraphStores.GraphStore.InCycle | xl_graph_store.py:152-155 | the answer is the node's flag, no for an unknown identity, an index error for a node inserted after the pass; it says what the cycles list as long as the flags do |
| GraphMeaning.FinalAfterNode | xl_graph_store.py:231-238 | a node overwritten under its identity changes no cycle and no final record but its own |
| GraphMeaning.FinalAfterEdge | xl_graph_store.py:239-245 | an edge overwritten at the same ends changes no cycle and no final record but its own |
| GraphStoreLimits.InsertThenEvict | xl_graph_store.py:72-81 | with one cached record, a node inserted after the final pass is read once and is an index error after another read |
| GraphStoreLimits.ClearFlagThenRead | xl_graph_store.py:210-238 | with one cached record, clearing the flag of an edge's source turns the edge's flag, without a write to the edge |
| GraphStoreLimits.TurnFlagThenEvict | xl_graph_store.py:215-245 | with one cached record, an edge written with the opposite flag is read so, and with its old flag after another read |
| GraphStoreLimits.ReadsGoWrong | xl_graph_store.py:210-245 | the three of them on a store of two nodes and one loop |
| AstGraphs.AstGraph.WriteNode | xl_ast_graph.py:1219-1238 | a node write has the same effect on the graph in memory and in the store |
| AstGraphs.AstGraph.Read | xl_ast_graph.py:1240-1243 | reading a record by its identity gives the same in memory and in the store, none for an unknown identity |
| AstGraphs.AstGraph.AddEdge | xl_ast_graph.py:1303-1331 | an edge is appended unless a recorded one equals it in source, target, role, argument slot and reference, whether the graph is in memory, in the store, or extended after its duplicate index was dropped |
| AstGraphs.AstGraph.SpillIfNeeded | xl_ast_graph.py:810-826 | the graph moves to a store exactly in automatic mode with enough edges, and spilling changes neither nodes nor edges |
| AstGraphs.AstGraph.GatherEdges | xl_ast_graph.py:1604-1612 | the dictionaries hold the degrees and the successors in edge order |
| AstGraphs.AstGraph.PostprocessInMemory | xl_ast_graph.py:1604-1619 | nodes, edges and cycles carry the same degrees, flags and names as in the store |
| AstGraphs.AstGraph.Finish | xl_ast_graph.py:1599-1619 | the final pass gives the same nodes, edges and cycles wherever the graph is kept, and fails exactly on disk with too many nodes for 32-bit ordinals |
| AstGraphs.Build | xl_ast_graph.py:785-826 | for every run of reads, node and edge writes and spill points, each step free to depend on what was read, in memory, on disk or spilled: the records read, the node order, edges, degrees and cycles with member order are the same; it fails exactly when on disk with too many nodes |
| FormulaParser.NormaliseTokens | xl_ast_graph.py:409-438 | white space is kept exactly where it means intersection, once for each white-space token that stands between the end of a value and the start of one |
| FormulaParser.UnwindLoop | xl_ast_graph.py:538-546 | the loop applies pending operators as the recursive definition does, failing where an operand is missing |
| FormulaParser.FeedItem | xl_ast_graph.py:569-631 | reading one token changes the two stacks, or fails, as defined |
| FormulaParser.ParseFormula | xl_ast_graph.py:509-641 | the stack loop accepts and rejects the same token sequences as the parsing function and gives the same trees |
| FormulaConservation.ApplyOpLeaves | xl_ast_graph.py:526-536 | applying an operator loses no leaf and reaches below no open bracket's floor |
| FormulaConservation.FeedLeaves | xl_ast_graph.py:569-631 | reading one token adds exactly its own leaf to the leaves on the stacks, in order |
| FormulaConservation.FeedTags | xl_ast_graph.py:569-631 | reading one token adds exactly its own operator to the operators on the stacks |
| FormulaConservation.ItemsConserve | xl_ast_graph.py:509-641 | an accepted sequence's tree has its operands as leaves in order and each operator once |
| FormulaConservation.ParseConserves | xl_ast_graph.py:509-641 | for every accepted token sequence outside the cell:OFFSET repair, well-formed or not, the leaves are the operand tokens in order and every operator token is exactly one node |
| FormulaGrammar.PendPrec | xl_ast_graph.py:229-239 | what a phrase leaves on the operator stack binds at least as tightly as the phrase |
| FormulaGrammar.UnwindPhrase | xl_ast_graph.py:538-546 | applying what a phrase left pending leaves the phrase's tree |
| FormulaGrammar.FeedPhrase | xl_ast_graph.py:569-631 | wherever a phrase may stand, reading its tokens leaves its operands and its pending operators on the stacks and nothing else |
| FormulaGrammar.ItemsParse | xl_ast_graph.py:229-239 | every sentence of the precedence grammar parses to the tree of its derivation: postfix tightest, then references, prefix, right-associative power, left-associative levels, nested calls, missing arguments, brackets and arrays |
| FormulaGrammar.GrammarIsUnambiguous | xl_ast_graph.py:229-239 | two derivations of one token sequence have the same tree |
| FormulaSpacing.NormaliseSpelling | xl_ast_graph.py:409-438 | padding anywhere but at an intersection is dropped, and an intersection spelled with one space or more is one operator |
| FormulaSpacing.SentencesParse | xl_ast_graph.py:509-641 | every sentence parses to its tree with any padding |
| FormulaReadings.RungsOfTheGrammar | xl_ast_graph.py:228-241 | the grammar rung by rung: comparisons below & below + - below * / below ^ below : blank and comma, a prefix between the last two, a postfix above all; the power repeats on its right, the others on their left |
| FormulaReadings.TwoOperators | xl_ast_graph.py:538-546 | of any two operators around one operand the one on the higher rung takes it; on one rung the left one, between two powers the right one |
| FormulaReadings.PrefixBeforeInfix | xl_ast_graph.py:619-632 | a sign takes its operand before every operator but a reference operator |
| FormulaReadings.PostfixFirst | xl_ast_graph.py:621-624 | a postfix takes the one operand before it, whatever stands further left |
| FormulaReadings.BracketsFirst | xl_ast_graph.py:616 | parentheses decide before any operator and leave no node |
| FormulaReadings.Calls | xl_ast_graph.py:603-609 | a call of any number of operands keeps every place, absent ones included; only a call that joins a cell to an OFFSET may stand for a range |
| FormulaReadings.Lists | xl_ast_graph.py:610-616 | a parenthesis of one operand is that operand and of more their union; an array has one row more than it has row separators |
| FormulaReadings.EmptyLists | xl_ast_graph.py:603-612 | a call without arguments has none, an empty array one row |
| FormulaReadings.CallNameIs | xl_ast_graph.py:578 | the name of a call: the bracket and blanks at its end go, small letters are raised |
| FormulaReadings.OperandsMiscounted | xl_ast_graph.py:639-640 | no operand at all, and two side by side, are refused |
| FormulaReadings.OperatorsRefused | xl_ast_graph.py:621-628 | an operator short of an operand, and one nobody knows, are refused |
| FormulaReadings.BracketsUnbalanced | xl_ast_graph.py:583-600 | a separator or a closing bracket with nothing open, and a bracket left open, are refused |
| FormulaReadings.InsideRefused | xl_ast_graph.py:548-565 | empty parentheses, two operands in one place, and a postfix that would take its operand from outside a bracket are refused |
| FormulaReadings.AnyClosingCloses | xl_ast_graph.py:593-600 | a closing token closes whatever is open, of whichever kind it says it is |
| FormulaReadings.IntegerIs | xl_ast_graph.py:467-477 | the integers an argument may stand for: number literals within the sheet, with at most one sign |
| FormulaReadings.OffsetIsRange | xl_ast_graph.py:455-488 | a cell joined to an OFFSET is a range exactly when its arguments are a cell and two integers and the joined, given and moved cells are on the sheet |
| FormulaReadings.OnlyOffsetIsRange | xl_ast_graph.py:461-463 | no other call is |
| FormulaReadings.AddressIs | xl_ast_graph.py:461-465 | a cell address: one to three letters and a number without leading nought, either behind a dollar sign |
| FormulaReadings.ColumnsCount | xl_ast_graph.py:482-483 | column letters count in base twenty-six from one, up to XFD, the 16384th |
| FormulaReadings.RepairIs | xl_ast_graph.py:491-506 | a colon that arrived as an operand or glued to INDEX becomes an operator, every other token stays |
| FormulaReadings.SpaceBetween | xl_ast_graph.py:399-438 | white space counts once between the end of a value and the start of one, by token type, and nowhere else |
| FormulaReadings.SpaceAround | xl_ast_graph.py:409-438 | white space before the first token and after the last is dropped |
| FormulaRendering.EmbedDerives | xl_ast_graph.py:348-372 | the fully bracketed rendering of every tree is a sentence whose tree is the tree rendered |
| FormulaRendering.RenderRoundTrip | xl_ast_graph.py:348-372 | parsing the tokens of a rendering gives the tree back, for calls, operators, unions, rectangular arrays, references and constants |
| FormulaRendering.RenderText | xl_ast_graph.py:348-372 | those tokens, written out, are the rendered text |
| FormulaEmission.Emitter.Put | xl_ast_graph.py:1309-1331 | an edge is recorded unless one with its source, target, role, slot and reference is |
| FormulaEmission.Emitter.WalkRef | xl_ast_graph.py:1525-1596 | a reference yields one origin per target, each with the reference's text, logical literals as new constants |
| FormulaEmission.Emitter.Walk | xl_ast_graph.py:1472-1523 | the walk numbers operands before their operator and records nodes and edges as defined, INDIRECT's extra edges included |
| FormulaEmission.Emitter.Formula | xl_ast_graph.py:1363-1378 | the records of a whole formula, its edges into the cell included |
| EmissionReadings.OperatorOverReferences | xl_ast_graph.py:1492-1506 | an operator over any number of references: one node, one edge for every operand with its own slot, role and text, repeated operands included, and the edge of the result, every field stated |
| EmissionReadings.ConstantsAreNumbered | xl_ast_graph.py:1475-1506 | a constant and a signed reference under one operator: constant, sign, operator in this order, every field stated |
| EmissionReadings.IndirectIsResolved | xl_ast_graph.py:1512-1518 | an INDIRECT call whose text is known has one more edge to what it points at, after its last operand, with that text as reference and span |
| EmissionReadings.PlainFormulas | xl_ast_graph.py:1370-1378 | a formula that is one reference or one constant has the one edge into its cell |
| EmissionReadings.ReferenceOrigins | xl_ast_graph.py:1547-1596 | a reference has one origin for each node it stands for, with its text, and that text as span exactly when it stands for several, for a range, or has a colon after its sheet |
| EmissionReadings.LogicalOrigin | xl_ast_graph.py:1561-1564 | a name that stands for a truth value is a constant node, if constants are recorded |
| EmissionReadings.AfterSheetIs | xl_ast_graph.py:1552 | the part of a reference that decides is the one after its last exclamation mark |
| EmissionReadings.EdgeIsAdded | xl_ast_graph.py:1309-1320 | an edge is left out exactly when a recorded one equals it in source, target, role, slot and reference text |
| EmissionReadings.TagsAre | xl_ast_graph.py:330-342 | the text each kind of operator is recorded under |
| EmissionReadings.ShownIs | xl_ast_graph.py:344-346 | up to 200 characters are shown as they are, of more the first 199 and an ellipsis |
| FormulaEmission.RecordsAreOrdered | xl_ast_graph.py:1423-1426 | node numbers are 0, 1, 2 and so on, and an edge between two of the formula's nodes goes from the lower to the higher exactly when it is an operand edge |
| FormulaEmission.RecordsRebuild | xl_ast_graph.py:1472-1523 | from the records alone the tree can be read back, empty slots included, up to array row counts and operands that emit nothing |
| FormulaEmission.SameRecords | xl_ast_graph.py:1475-1518 | two formulas have the same records exactly when they show the same operators over the same recorded operands, each operator with the same text up to the cut, and INDIRECT calls that point at the same |
| EmissionLosses.JoinsAgree | xl_ast_graph.py:365-370 | two texts of the same parts agree on their first characters exactly when every separator that differs stands later |
| EmissionLosses.SameShown | xl_ast_graph.py:346-371 | an array shows the same cut text under two row counts exactly when every separator that differs lies past the cut |
| EmissionLosses.SameArrayRecords | xl_ast_graph.py:1490-1498 | two row counts of one array give the same records exactly when every separator that differs lies past the cut |
| EmissionLosses.EmissionLosesNothing | xl_ast_graph.py:1475-1518 | with constants on, every reference resolved and every array even and short enough to be shown, the records give the very tree back, row counts included |
| EmissionLosses.RowsAreLost | xl_ast_graph.py:346-371 | at one input: a row count past the cut is in no record |
| EmissionLosses.RowsAreKept | xl_ast_graph.py:346-371 | at one input: a row count before the cut is in the records |
| EmissionLosses.ConstantsStillShow | xl_ast_graph.py:1475-1498 | with constants off, two formulas that differ in one have different records |
| EmissionLosses.IndirectPointsBack | xl_ast_graph.py:1509-1516 | at one input: the literal an INDIRECT call points at has a higher number than the call |
| RangeIndex.BisectLeft | xl_ast_graph.py:167 | the first place in a sorted column at or after a row |
| RangeIndex.BisectRight | xl_ast_graph.py:167 | the first place in a sorted column after a row |
| RangeIndex.SheetIndex.Add | xl_ast_graph.py:151-152 | an addition is recorded, repeats included |
| RangeIndex.SheetIndex.Finalise | xl_ast_graph.py:154-157 | sorting loses no addition and readies the index |
| RangeIndex.SheetIndex.GatherIsFilter | xl_ast_graph.py:170-182 | going column by column finds exactly the additions in the box, with their repeats |
| RangeIndex.SheetIndex.Count | xl_ast_graph.py:159-168 | the count is the size of the plain filter, less the cells strictly between reversed rows |
| RangeIndex.CountIsSize | xl_ast_graph.py:159-168 | the count is the size of the filter exactly when no populated cell of the columns lies strictly between reversed rows |
| RangeIndex.CountsBelowZero | xl_ast_graph.py:159-168 | at one input: an index of one cell counts -1 between reversed rows |
| RangeIndex.SheetIndex.Cells | xl_ast_graph.py:170-182 | the cells found are those of the plain filter, repeats included, by column and row |
| RangeIndex.SheetIndex.Clip | xl_ast_graph.py:184-212 | there is a clip exactly when the box is populated, it holds all its cells and touches one on each side |
| RangeIndex.ClipKeepsCells | xl_ast_graph.py:184-212 | querying the clip gives the same cells as the original box |
| RangeIndex.ClipIsLeast | xl_ast_graph.py:184-212 | no smaller box holds the cells |
| RangeIndex.SheetIndex.UsedRows | xl_ast_graph.py:214-220 | the frame's ends are the first and the last populated row of the sheet |
| ReferenceClipping.Resolver.ResolveOn | xl_ast_graph.py:1155-1217 | a reference resolves to its populated cells, one clipped range, a row frame, the one blank cell it names, or nothing, as its count decides; whole columns start at the first populated row, stay within the limit or one row, and end at the last populated row or where one row more would exceed the limit |
| ReferenceClipping.Resolver.ResolveColumns | xl_ast_graph.py:1171-1202 | whole columns become one range over the sheet's used rows within the budget, marked as truncated exactly when a populated cell of those columns lies outside it |
| ReferenceClipping.ColumnsByLimit | xl_ast_graph.py:1171-1201 | whole columns give nothing exactly when none of them holds a cell, and otherwise one range: where it starts, its size, and that it ends at the last populated row or at the last one the limit allows |
| ReferenceClipping.BlocksByCount | xl_ast_graph.py:1161-1216 | a block by the populated cells counted in it: nothing or its one blank cell, the cells themselves up to the limit, above it one range of that size whose sides touch them |
| ReferenceClipping.EveryCellIsReached | xl_ast_graph.py:1155-1217 | every populated cell of a reference is a target or in a target range, unless whole columns were cut, and then the range is marked |
| ReferenceClipping.OnlyCellsAreTargets | xl_ast_graph.py:1155-1217 | a cell target is a populated cell of the reference or the blank cell it names |
| LeakClosure.ExamineGroup | gen_normalizer.py:357-367 | an uncovered duplicate becomes an extra cell if it may be masked and a leak otherwise |
| LeakClosure.JudgeRow | gen_normalizer.py:354-372 | the remembered verdict of a value list and its extra cells is the one the row would get |
| LeakClosure.RunPass | gen_normalizer.py:343-379 | one pass judges every row against the cover taken before the pass |
| LeakClosure.CloseLeaks | gen_normalizer.py:341-382 | the loop ends, in the state that repeated passes reach |
| LeakClosure.ClosureIsUniqueGreatest | gen_normalizer.py:341-382 | the surviving rows are the one greatest set of clean rows in which every duplicate of every member is a cell of a member or may be masked |
| LeakReadings.CleanRowsAre | gen_normalizer.py:341-382 | of references, cells and sheets alone: the rows that stay clean hide together, every set of rows that does stays clean, and every cell repeating a clean row's value is a clean row's cell or extra cell |
| LeakReadings.RowAfter | gen_normalizer.py:366-379 | a row that stays only gains extra cells, one that falls gets the leak code and the leaking cells, one that was out is left alone |
| LeakReadings.ExtrasAreNoCells | gen_normalizer.py:343-362 | no extra cell of a clean row is a clean row's own cell |
| LeakReadings.MaskableIs | gen_normalizer.py:362-365 | a cell may be masked along exactly when the part before its last exclamation mark names a picklist sheet and it does not exist only in the delivered workbook |
| LeakClosure.CloseIsGreatest | gen_normalizer.py:341-382 | every duplicate of a survivor is among the survivors' cells and extra cells |
| LeakClosure.CloseReordered | gen_normalizer.py:341-382 | every row's outcome, extra cells and leaks included, does not depend on the row order |
| LeakClosure.CloseSharesExtras | gen_normalizer.py:354-369 | surviving rows with the same duplicates have the same extra cells |
| LeakClosure.CloseKeepsRows | gen_normalizer.py:322-334 | a surviving row still stands for its one cell |
| NormalizerEmission.ScreenRows | gen_normalizer.py:564-569 | forced and ineligible rows leave, with their codes, and no others |
| NormalizerEmission.RunRePass | gen_normalizer.py:573-584 | one pass drops exactly the rows with a duplicate that is not shown by a surviving row's reference or extra cells |
| NormalizerEmission.CloseAgain | gen_normalizer.py:572-586 | the second loop ends, in the state that repeated passes reach |
| NormalizerEmission.RecloseIsGreatest | gen_normalizer.py:570-586 | what the second loop leaves is the greatest set of rows that hide all of each other's duplicates |
| NormalizerReadings.EmittedRowsAre | gen_normalizer.py:564-586 | the emitted rows are the greatest set of rows that are clean, not forced out, eligible, and show every cell repeating one of their values |
| NormalizerReadings.RowAfterReview | gen_normalizer.py:564-586 | a clean row that leaves does so under the first code that applies: forced out, not eligible, or leaking |
| FreshNames.NextFree | gen_normalizer.py:605-609 | the identifier is the plain one if free, else the first free numbered one; the search ends |
| NormalizerEmission.DraftVariables | gen_normalizer.py:591-635 | one variable per cell of each surviving row, with a fresh identifier, listed under its draft row |
| NormalizerReadings.VariableIs | gen_normalizer.py:613-634 | the fields of a variable: its one cell, its row's extra cells in order, the description, notes and sources |
| NormalizerReadings.IdentifierIs | gen_normalizer.py:603-611 | the identifier is the row's own, or the longer one where the reference names several cells; if taken, the longer one with the first free number from 2 on |
| NormalizerReadings.DraftsInOrder | gen_normalizer.py:591-635 | one variable for each row that stays, in the rows' order, and under each draft row the identifiers of its own rows' variables in that order |
| NormalizerEmission.ExcludeRows | gen_normalizer.py:641-650 | every dropped cell is listed, and a draft row is excluded for its first dropped cell exactly when none of its cells is in |
| NormalizerReadings.CellExclusionsAre | gen_normalizer.py:641-647 | one entry for each row that did not stay, with its draft row, reference and code |
| NormalizerReadings.ExcludedUnder | gen_normalizer.py:648-650 | a draft row is left out under the code of the first of its rows that did not stay |
| NormalizerEmission.FiltersKeepAll | gen_normalizer.py:651-653 | the filters before merging remove nothing |
| NormalizerEmission.Emit | gen_normalizer.py:564-654 | screening, closure, drafting, exclusion and merging in this order |
| NormalizerEmission.SurvivorIsEmitted | gen_normalizer.py:591-654 | each surviving cell is emitted, in a variable with its extra cells, its description and all its sources |
| NormalizerEmission.EveryDuplicateIsMasked | gen_normalizer.py:570-654 | every cell holding the value of an emitted variable is among the emitted cells and extra cells |
| NormalizerEmission.OnlySurvivorsAreEmitted | gen_normalizer.py:591-654 | every emitted variable is one surviving cell with that row's extra cells |
| NormalizerEmission.ReferencesMatch | gen_normalizer.py:652-654 | the identifiers the included rows name are exactly the emitted ones, and no two emitted variables share a cell set |
| NormalizerEmission.RowsAreDisposed | gen_normalizer.py:641-651 | a draft row is included exactly when one of its cells survives, excluded exactly when it was audited and none does |
| NormalizerEmission.RunScript | gen_normalizer.py:794-826 | the generated script's checks, in their order |
| NormalizerEmission.ScriptAccepts | gen_normalizer.py:794-826 | the script accepts its tables exactly when the draft rows are distinct and each has an audited cell |
| DraftRows.ExpandsToNothing | gen_normalizer.py:123-143 | a reference to a known sheet has no cells exactly when its last column or row comes before its first |
| DraftRows.CollectAtoms | gen_normalizer.py:297-319 | each cell is audited once, in the order the references name them, with an entry for every unknown sheet and for a row without references |
| DraftRows.NothingAudited | gen_normalizer.py:297-319 | a draft row has nothing audited exactly when it has references and all run backward |
| DraftRows.ScriptAcceptsDraft | gen_normalizer.py:297-334 | the script accepts exactly when no draft row is repeated and none has references that all run backward |
| DraftRows.BackwardStopsScript | gen_normalizer.py:123-143 | at one draft: a reference that runs backward is audited nowhere and stops the script |
| Aliases.CoalesceAliases | gen_normalizer.py:491-547 | merging gives the defined result and refuses repeated identifiers, incomplete cell sets, conflicting descriptions and unknown references, in this order |
| AliasReadings.RefusalsAre | gen_normalizer.py:500-545 | the four refusals and their order, each by its condition: an identity used twice, no cells or one twice, two variables with the same cells that differ in content, extra cells or notes that are no captions, an identity nobody has |
| AliasReadings.MergedFields | gen_normalizer.py:515-534 | a variable alone on its cells is unchanged; merged ones have sorted sources without repeats, and the common notes or, where notes are captions, all of them sorted, a line each |
| AliasReadings.MergedInOrder | gen_normalizer.py:501-514 | merged variables stand in the order in which their cells first appear |
| StringOrder.LessIs | gen_normalizer.py:526 | texts are ordered by the first character in which they differ, a beginning before the whole |
| Aliases.CellSetsAreDistinct | gen_normalizer.py:501-512 | no two merged variables have the same cells |
| Aliases.NothingIsLost | gen_normalizer.py:514-547 | every variable has a merged one with its cells, extra cells, description and sources, under the least identifier of its cell set |
| Aliases.NothingIsAdded | gen_normalizer.py:514-547 | a merged variable's identifier and sources all come from variables with its cells |
| Aliases.ProvenanceKeepsOriginals | gen_normalizer.py:535-544 | every original variable is recoverable: unchanged in the result or recorded in the provenance of its cells |
| AliasReadings.GroupsAre | gen_normalizer.py:535-544 | a recorded group holds all the variables with one set of cells, more than one, ordered by identity, under its first one, marked exactly when their notes are captions |
| Aliases.ReferencedAreEmitted | gen_normalizer.py:545-546 | when the rows name all variables before merging, the identifiers they name afterwards are exactly the merged ones |
| AliasReadings.ListsAre | gen_normalizer.py:545 | every row stays; its list names, each once and in the order in which they first stood there, the identities that now stand for those it named |
| CellLevels.BuildTables | xl_level_split.py:133-149 | successor sets and in-degrees of the owner-collapsed graph, repeated and self links left out |
| CellLevels.ProjectionHas | xl_level_split.py:133-146 | two cells are linked exactly when they differ, are neither operators nor constants, and the ends of some edge or their owners are these cells |
| CellLevels.Follow | xl_level_split.py:155-160 | following a node's links raises targets to one above it and frees exactly those with no link left |
| CellLevels.RelaxOnce | xl_level_split.py:166-171 | one pass moves only cyclic nodes and only up, and lifts them above their acyclic precedents |
| CellLevels.FreeLevelIsLongest | xl_level_split.py:151-160 | the level of a node taken from the queue is the length of the longest path into it |
| CellLevels.LeftIffBehind | xl_level_split.py:162-164 | the nodes left over are exactly those that a directed cycle leads to |
| CellLevels.CellLevels | xl_level_split.py:127-175 | cyclic nodes are those behind a directed cycle, every other level is a longest path length that the passes leave alone, each cyclic node is strictly above its acyclic precedents, up to four links into cyclic nodes lift a level by as many, and four passes lift none by more than four times the number of cyclic nodes |
| Snapshots.LevelsBySheet | xl_level_split.py:178-198 | every place of a node or a formula stands at its node's level, 0 for a node without one and -1 for a formula without a node, which are counted; the deepest level is the greatest |
| Snapshots.RewriteSheet | xl_level_split.py:229-273 | a typed cell is itself; a formula keeps its place and style and shows its stored value in its kind exactly when its level is at most the cutoff, or unknown in the complete snapshot; the tally counts what was done |
| Snapshots.CellShows | xl_level_split.py:241-271 | what one cell shows: texts as inline text, white space of another kind as nothing, other values as they are, hidden or uncalculated formulas as nothing |
| Snapshots.CellIsCounted | xl_level_split.py:241-263 | under which total a cell is counted |
| Snapshots.TotalsCount | xl_level_split.py:241-263 | each total grows by as many cells as were so counted |
| Snapshots.SnapshotsNest | xl_level_split.py:253-271 | a cell not emptied at one cutoff is written the same at every later one |
| Snapshots.TalliesAgree | xl_level_split.py:241-263 | every formula cell is emptied, uncalculated or frozen, typed cells count the same in every snapshot, and later snapshots empty no more |
| Snapshots.FinalEmptiesNothing | xl_level_split.py:229-256 | the complete snapshot empties no cell |
| Snapshots.SnapshotHoldsPrecedents | xl_level_split.py:229-256 | when a cell away from circular references is not emptied, no cell it depends on, however indirectly, is |
| Snapshots.FamilyGrowsToComplete | xl_level_split.py:201-211 | over the whole list of cutoffs each snapshot shows at least what the ones before it show, and the last empties nothing |
| Cutoffs.PicksApart | xl_level_split.py:208-210 | rounding halves to even never makes two of the capped picks fall together |
| Cutoffs.CutoffsAreRight | xl_level_split.py:201-211 | the cutoffs increase strictly, are multiples of the stride and end at the deepest level, for every cap but a negative one, which gives none |
| Cutoffs.UncappedAre | xl_level_split.py:203-205 | without a cap the cutoffs are the multiples of the stride in order and then the deepest level |
| Cutoffs.PicksAreNearest | xl_level_split.py:206-210 | a cap that bites picks the cutoffs nearest to an even division, of two as near the one in an even place |
| Cutoffs.NegativeCapGivesNone | xl_level_split.py:206-211 | at one input: a cap of -1 gives no cutoff |
| Cutoffs.CapIsMet | xl_level_split.py:206-211 | a positive cap that bites gives exactly that many cutoffs, and one that does not changes nothing |
| MaskSets.CollectKeep | xl_input_mask.py:138-191 | the kept cells are the input spans, the input literals that are no outputs, typed text spans outside the strictest mode, and axis cells that read as periods |
| MaskSets.CollectInputs | xl_input_mask.py:194-213 | the frontier is the input spans without the output cells |
| MaskReadings.KeptAre | xl_input_mask.py:138-191 | which cells are kept, by the bands that cover them and, for axis bands, by what they show |
| MaskReadings.PeriodIs | xl_input_mask.py:113-135 | a cell reads as a period exactly when it shows a date or a whole number from 1990 to 2100 or its format contains yy, mmm or dd |
| MaskSets.FindPasted | xl_input_mask.py:290-374 | denied are exactly the typed numbers outside the frontier that match an output's number and are not small whole numbers |
| MaskReadings.DeniedAre | xl_input_mask.py:290-374 | a cell is denied exactly when it is served from outside or holds a typed number outside the frontier that an output cell shows too, to a trillionth, neither being a whole number under 10000 in size |
| MaskReadings.PastedIsGone | xl_input_mask.py:366-367 | a typed copy of an answer outside the frontier is denied and bare in the masked copy |
| MaskSets.ComputeSets | xl_input_mask.py:820-864 | the set algebra of a run: proof inputs replace the declared frontier, externally served cells leave every set but the denied one |
| MaskReadings.FrontierAre | xl_input_mask.py:820-864 | the frontier and the kept cells of a run, by bands, proof and external cells |
| MaskSets.SetsAreConsistent | xl_input_mask.py:820-864 | the frontier is kept, nothing of it is denied, and no formula is both kept and denied |
| MaskRewrite.MaskSheet | xl_input_mask.py:657-707 | each cell is kept, redacted, blanked or frozen, and the tally counts what was done |
| MaskRewrite.TallyAccounts | xl_input_mask.py:657-707 | every typed cell with content is kept or redacted, every formula blanked, uncached or frozen |
| MaskReadings.CellIsCounted | xl_input_mask.py:657-707 | under which total a cell is counted |
| MaskReadings.TotalsAre | xl_input_mask.py:657-707 | each total is the number of cells so counted |
| MaskCheck.MaskedGrid | xl_input_mask.py:657-707 | typed cells outside the denied ones are untouched, kept formulas show their stored result, which reads as before exactly unless it is an empty text, and nothing else shows anything |
| MaskCheck.CopyHidesTheRest | xl_input_mask.py:657-707 | the masked copy depends on no formula text, and on no stored result beyond the kept ones, the period verdicts of axis cells and the outputs' numbers |
| MaskCheck.Verify | xl_input_mask.py:742-881 | the check lists formula, leak, loss and change faults cell by cell |
| MaskReadings.FormulaFaultsAre | xl_input_mask.py:785-805 | a formula fault is a formula, a text beginning with an equals sign in a formula's place, or one that contains an answer's formula |
| MaskReadings.LeakFaultsAre | xl_input_mask.py:780-824 | a leak is anything shown in a denied place, or anything but text in a formula's place that is not kept |
| MaskReadings.LostFaultsAre | xl_input_mask.py:845-872 | a cell is lost exactly when it is typed or in the frontier, not denied, shows something, and nothing in its place does |
| MaskReadings.ChangedFaultsAre | xl_input_mask.py:845-879 | a cell is changed exactly when such a cell's place shows another value, numbers compared to a billionth |
| MaskCheck.MaskPassesIff | xl_input_mask.py:742-881 | with consistent sets the masked copy has no fault exactly when no kept formula result starts with an equals sign and no surviving text contains an answer's formula |
| MaskCheck.KeptResultFails | xl_input_mask.py:742-881 | at one workbook: a kept result that starts with an equals sign is a fault |
| MaskCheck.NoteFails | xl_input_mask.py:742-881 | at one workbook: a typed note with the text of an answer's formula is a fault |
| MaskCheck.EmptyTextShows | xl_input_mask.py:690-700 | at one workbook: a kept empty text reads as nothing before and as a text afterwards |
| MaskCheck.Run | xl_input_mask.py:817-970 | sets, masking and check together: no fault exactly under that condition |
| PanelGroups.Components.Find | xl_ast_graph.py:2636-2639 | the lookup ends at the root of its node, and halving paths changes no node's root |
| PanelGroups.Components.Union | xl_ast_graph.py:2640-2643 | after a link is joined, two nodes have one root exactly when they are connected |
| PanelGroups.SameRootIffConnected | xl_ast_graph.py:2633-2643 | two nodes have one root exactly when some chain of links, in any direction, connects them |
| PanelGroups.CollectNodes | xl_ast_graph.py:2644-2655 | each root with a visible node gets one group, with its visible nodes in ascending order and its cells counted |
| PanelGroups.CountLinks | xl_ast_graph.py:2656 | each group counts the links that start in its component; the count fails exactly when a link starts where no node is visible |
| PanelGroups.GroupView | xl_ast_graph.py:2633-2656 | the groups partition the visible nodes by connection and their links add up to the number of links |
| SkylinePacking.Packer.LowestGap | xl_ast_graph.py:2807-2820 | the place is the leftmost of the lowest segment starts with room, or the left edge above everything when none has room |
| SkylinePacking.Packer.Claim | xl_ast_graph.py:2821-2838 | carving, sorting and merging give the defined skyline |
| SkylinePacking.ClaimIs | xl_ast_graph.py:2821-2838 | after a claim the profile is at the panel's bottom over its columns and unchanged elsewhere, still gap-free, with no two neighbours at one height |
| SkylinePacking.GapFits | xl_ast_graph.py:2807-2820 | nothing of the profile under the place reaches below the panel's top edge |
| SkylinePacking.Packer.Place | xl_ast_graph.py:2841-2844 | placing a panel keeps the skyline sorted, gap-free and at or below the bottom of every placed panel |
| SkylinePacking.PackAll | xl_ast_graph.py:2805-2844 | no two padded panels overlap, whatever their sizes, panels wider than the first row included |
| PassAtK.Score | xl_passk_score.py:56-64 | no result for too few attempts, 1 when every draw contains a pass, otherwise one minus the ratio of the binomial coefficients |
| PassAtK.ScoreIsFraction | xl_passk_score.py:56-64 | the score is the fraction of k-element subsets of the attempts that contain a pass |
| PassAtK.SubsetsCount | xl_passk_score.py:56-64 | a set has as many k-element subsets as its binomial coefficient |
| PassAtK.ScoreInRange | xl_passk_score.py:56-64 | the score lies between 0 and 1 |
| PassAtK.ScoreOfOne | xl_passk_score.py:56-64 | with one draw it is the share of passes |
| PassAtK.ScoreGrowsWithPasses | xl_passk_score.py:56-64 | more passes never lower it |
| PassAtK.ScoreGrowsWithDraws | xl_passk_score.py:56-64 | more draws never lower it |

## Left out

- GraphStores.GraphStore.PutNode: the degrees a record carries are numbers or truth values, anything else is refused; that an array entry holds 64 bits is not modelled.
- Sharing of one dictionary between the cache and a caller who changes it in place; commits, the write counter, closing, temporary files, and the encoding of records.
- The 64-bit width of counters and offsets in the array files; only the 32-bit bound on nodes is modelled.
- AstGraphs.AstGraph.AddEdge: requires the ends and the cell of an edge to exist, as every call site creates them first; in memory the program would notice an unknown target only in the final pass.
- FormulaConservation.ParseConserves: does not cover calls named cell:OFFSET, whose repair moves an operand out of a call's name; the repair itself is in the parser model.
- Character-level tokenizing: the parser starts from the token list. A number literal carries the value it reads as, function names are raised to upper case for ASCII letters only, and error messages are reduced to their kinds.
- FormulaRendering.RenderText: the text before the cut.
- FormulaRendering.RenderRoundTrip: inside parentheses a union is given separator tokens, where the tokenizer yields an infix comma, which the parser reads as a binary operator.
- FormulaEmission.Settings: reference resolution, operand roles and the text an INDIRECT call assembles are parameters; labels and values of nodes are not recorded, and a constant's record holds its token beside its text.
- Defined names, sheet spans, external and table references: reference resolution starts from a box of rows and columns on known sheets.
- Loading a workbook, reading the audit draft and writing files: draft rows start from references already read, closures from rows, levels from a graph, snapshots and masks from cells with their references.
- DraftRows.Workbook: the known sheets, the text of an address and the state of a cell are parameters.
- NormalizerEmission.Review: the review files, slugs and descriptions are parameters; malformed review files, which stop the program, are not modelled.
- Aliases.Variable: the fields that are only compared are one canonical text; values that JSON cannot encode are not modelled, and hashes of definitions are the definitions themselves.
- Sources of one unmerged variable keep their order and repeats; merged ones are sorted by their canonical text.
- Cutoffs.PicksApart: exact arithmetic; the program computes the step in floating point.
- PassAtK.Score: exact arithmetic, likewise.
- MaskSets.CollectKeep: the note of which bucket a period header came from, and the report of suspected pastes, which change no set.
- MaskCheck.Verify: the chart caches, the sheet of embedded assumptions and the census of raw formula elements; every cell element has a reference, the answers' formulas come without blank entries, and whole numbers are compared to the same tolerance as other numbers.
- PanelGroups.GroupView: the ranking of the groups and the sheets they touch, and the sharing of group objects between the list and the dictionary.
- SkylinePacking.PackAll: the layered drawing inside a panel; the width of the first row and the sizes are parameters, in exact arithmetic.
- Numeric tolerance is exact rational comparison; dates are their serial numbers.
