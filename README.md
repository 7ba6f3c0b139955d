# austral-map-v2: a verified model of the study-plan engine

austral-map-v2 shows a university study plan as a graph. Each subject is a node, placed by year and
semester. A prerequisite ("to take" or "to pass") is an arrow. Each subject has a status:
NO_DISPONIBLE, DISPONIBLE, CURSANDO, EN_FINAL, DESAPROBADA or APROBADA. Good standing in a
subject's prerequisites makes it available.

This project models the parts of that repository that compute rather than render:

- the prerequisite-string parser, the two status rules and the layout of `lib/curriculum-parser.ts`;
- the connection deduplication and transitive reduction of `components/connections.tsx`;
- the graph views' filters, highlight sets, semester headers and double-click toggle, in both the
  current and the older revision;
- the edit-and-recompute protocol and the progress counters of `app/page.tsx`;
- the status-button gating of the current subject panel and of the older navbar;
- the ingestion rules of the upload route: student name, status, semester, core module, course
  rows and the template merge;
- the same rules in the Python parser;
- the spreadsheet-to-JSON plan converter, which writes the `(ID, Condition)` strings the parser
  reads;
- the README markdown-to-HTML pass.

Functional code becomes datatypes, functions and lemmas. The source's loops become methods with
`while`/`for` loops, proved against the functions that specify them:

- the regular-expression loop of `parsePrerequisites`;
- the layout's grouping and placement loops;
- the in-place status pass over the node array;
- the depth-first search of the reduction;
- the converter's row loop and reverse map.

Each file is one module:

| file | module | source |
|---|---|---|
| wrappers.dfy, strings.dfy, seqs.dfy | Wrappers, Strings, Seqs | JavaScript/Python string and list built-ins used by the sources |
| types.dfy | Types | types/curriculum.ts |
| prereq_parser.dfy | PrereqParser | lib/curriculum-parser.ts:3-19 |
| status_engine.dfy | StatusEngine | lib/curriculum-parser.ts:21-61 |
| layout.dfy, layout_positions.dfy, layout_properties.dfy | CurriculumLayout, LayoutPositions, LayoutProperties | lib/curriculum-parser.ts:63-238 |
| graph_edges.dfy | GraphEdges | lib/curriculum-parser.ts:240-261 |
| connections.dfy | Connections | components/connections.tsx |
| graph_view.dfy | GraphView | components/curriculum/curriculum-graph.tsx |
| graph_view_legacy.dfy | GraphViewLegacy | components/curriculum-graph.tsx |
| page.dfy | Page | app/page.tsx |
| subject_info.dfy | SubjectInfo | components/navigation/subject-info.tsx |
| navbar.dfy | NavbarLegacy | components/navbar.tsx |
| upload_route.dfy, course_pattern.dfy | UploadRoute, CoursePattern | app/api/parse-plan/route.ts |
| plan_parser_py.dfy | PlanParserPy | parse_plan_estudios.py |
| plan_converter.dfy | PlanConverter | scripts/convert_plan_excel_to_json.py |
| markdown.dfy | Markdown | app/api/readme/route.ts, scripts/generate-static-content.js |

The layout's `parsePrerequisites(a) || parsePrerequisites(b) || []` never falls back to its
second operand, because an empty array is truthy in JavaScript. In the model, `prerequisites` is
always the parse of "Prerequisites to Take", and `prerequisiteFor` always the parse of
"Prerequisite to Take for".

The converter's header comment (scripts/convert_plan_excel_to_json.py:11-12) describes "Prerequisite
to Take for" as '(ID, Aprobada)' entries and "Prerequisite to Pass for" as equal to it. The code at
lines 138-143 writes the direct dependents as Regularizada in "Take for" and as Aprobada in "Pass
for", so the two strings differ whenever a subject has a dependent. The model follows the code
(`PlanConverter.TakeForAndPassFor`).

## Model

| member | source | states |
|---|---|---|
| Types.StatusOf | types/curriculum.ts:18 | reading a status from its text keeps the text: the name of the result is the raw input, so unknown text survives as `Other` |
| Types.StatusOfName | types/curriculum.ts:18 | each of the six status names reads back as that status |
| Types.FindIndex | lib/curriculum-parser.ts:29 | a found index is in range and carries the ID searched for |
| Types.FindIndexFirst | lib/curriculum-parser.ts:29 | `find` returns the first node with the ID, and nothing exactly when no node has it |
| Types.Find | lib/curriculum-parser.ts:29 | a found node is one of the nodes and has the ID |
| Types.FindFound | lib/curriculum-parser.ts:29 | `find` succeeds exactly when some node has the ID |
| PrereqParser.MatchHere | lib/curriculum-parser.ts:7 | a match of `\(([^,]+),\s*([^)]+)\)` at the start consumes at least one character and stays in the text |
| PrereqParser.Exec | lib/curriculum-parser.ts:11 | `regex.exec` finds a match that starts before it ends, within the text |
| PrereqParser.ExecIsLeftmost | lib/curriculum-parser.ts:11 | the match found is the leftmost: the expression matches at no earlier position, and at none when nothing is found |
| PrereqParser.ExecStep | lib/curriculum-parser.ts:11-16 | the entries of a text are the first match's entry followed by the entries after that match, or none when nothing matches |
| PrereqParser.ExecAdvance | lib/curriculum-parser.ts:11-16 | one turn of the loop advances strictly and keeps "entries so far + entries of the remainder" equal to all entries |
| PrereqParser.ExecDone | lib/curriculum-parser.ts:11-16 | when `exec` returns null the entries pushed so far are all the entries |
| PrereqParser.ParsePrerequisites | lib/curriculum-parser.ts:3-19 | the loop returns exactly `PrereqParser.Parse`'s entries: none for null or "", else one per match in order, both parts trimmed |
| PrereqParser.EntriesWellFormed | lib/curriculum-parser.ts:12-15 | every parsed ID is trimmed and has no ','; every condition is trimmed and has no ')' |
| PrereqParser.EntryWellFormed | lib/curriculum-parser.ts:12-15 | the entry of a single match is trimmed and free of its delimiter |
| PrereqParser.PartWellFormed | lib/curriculum-parser.ts:13-14 | the trimmed text before a delimiter is trimmed and free of that delimiter |
| PrereqParser.NoParenNoEntries | lib/curriculum-parser.ts:7-11 | text without '(' yields no entries |
| PrereqParser.GarbageText | lib/curriculum-parser.ts:7-11 | "garbage text" yields no entries |
| PrereqParser.SkipSeparator | lib/curriculum-parser.ts:7-11 | the ", " between entries contributes nothing |
| PrereqParser.MatchHereAt | lib/curriculum-parser.ts:7 | a match is determined by the first ',' after '(' and the first ')' after it, with both parts trimmed |
| PrereqParser.EntryComma | lib/curriculum-parser.ts:7 | in "(p, tag)" the first ',' is right after a well-formed ID p |
| PrereqParser.EntryParen | lib/curriculum-parser.ts:7 | in "(p, tag)" the first ')' after the comma closes a well-formed tag |
| PrereqParser.MatchEntry | lib/curriculum-parser.ts:7 | one written entry "(p, tag)" is matched whole and gives back p and tag |
| PrereqParser.ParseEntry | lib/curriculum-parser.ts:11-16 | the entries of "(p, tag)" followed by more text are that prerequisite and then the entries of the rest |
| PrereqParser.ParseJoinedEntries | lib/curriculum-parser.ts:3-19 | parsing the ", "-joined entries of well-formed prerequisites gives them back in order |
| PrereqParser.ExampleText | lib/curriculum-parser.ts:6 | the format example is two written entries joined by ", " |
| PrereqParser.ParseTwo | lib/curriculum-parser.ts:3-19 | two written entries parse to the two prerequisites |
| PrereqParser.ExampleWellFormed | lib/curriculum-parser.ts:6 | the IDs and conditions of the format example are well formed |
| PrereqParser.TwoEntries | lib/curriculum-parser.ts:6 | "(101, Aprobada), (102, Regularizada)" parses to (101, Aprobada) then (102, Regularizada) |
| StatusEngine.Meets | lib/curriculum-parser.ts:32-38 | a found prerequisite is met only by a committed status other than DESAPROBADA, and only under one of the two condition texts 'Aprobada' and 'Regularizada'; APROBADA meets both |
| StatusEngine.CalculateAvailableStatus | lib/curriculum-parser.ts:44-61 | the result is DISPONIBLE or NO_DISPONIBLE, and DISPONIBLE exactly when each prerequisite's first node with its ID meets its condition |
| StatusEngine.CalculateSubjectStatus | lib/curriculum-parser.ts:21-42 | CURSANDO, EN_FINAL, DESAPROBADA and APROBADA are returned unchanged; otherwise DISPONIBLE iff every prerequisite is met and NO_DISPONIBLE iff one is not |
| StatusEngine.FirstDecides | lib/curriculum-parser.ts:28-39 | `every` over the prerequisites is decided by the first node with each ID; an ID without a node counts as met |
| StatusEngine.UncommittedMeetsNothing | lib/curriculum-parser.ts:33-38 | DISPONIBLE, NO_DISPONIBLE and unknown statuses meet no condition |
| StatusEngine.UnknownConditionBlocks | lib/curriculum-parser.ts:38 | a found prerequisite whose condition is neither 'Aprobada' nor 'Regularizada' makes the subject NO_DISPONIBLE |
| StatusEngine.NoPrerequisitesAvailable | lib/curriculum-parser.ts:47-60 | a subject without prerequisites is DISPONIBLE |
| StatusEngine.UnknownIdsAreMet | lib/curriculum-parser.ts:30-31 | prerequisites whose IDs are none of the plan's are met |
| StatusEngine.AtLeastMeets | lib/curriculum-parser.ts:33-37 | a status at least as advanced meets every condition the weaker one meets |
| StatusEngine.FindIndexSameIds | lib/curriculum-parser.ts:29 | lookup by ID depends only on the IDs |
| StatusEngine.AvailabilityMonotone | lib/curriculum-parser.ts:28-41 | raising prerequisite statuses never makes an available subject unavailable |
| StatusEngine.SameStandingSameStatus | lib/curriculum-parser.ts:44-61 | node lists that are mutually at least as advanced give the same availability |
| CurriculumLayout.Filter | lib/curriculum-parser.ts:67-69 | `filter` keeps exactly the subjects that pass the test, never more than the input |
| CurriculumLayout.IngressNodes | lib/curriculum-parser.ts:94-117 | one node per ingress subject |
| CurriculumLayout.PlaceIngress | lib/curriculum-parser.ts:94-117 | the `forEach` pushes exactly the ingress nodes of `CurriculumLayout.IngressNodes` |
| CurriculumLayout.GroupOf | lib/curriculum-parser.ts:72-77 | a group is no longer than the input |
| CurriculumLayout.GroupOfNone | lib/curriculum-parser.ts:72-77 | a key that no subject has gets an empty group |
| CurriculumLayout.GroupOfMembers | lib/curriculum-parser.ts:72-77 | a subject is in a group exactly when it is in the input with that `${Year}-${Semester}` key |
| CurriculumLayout.KeysOf | lib/curriculum-parser.ts:72-120 | the keys are exactly those of the input's subjects |
| CurriculumLayout.GroupCore | lib/curriculum-parser.ts:72-77 | the reduce gives the keys in order of first appearance and, under each, exactly that key's subjects in input order |
| CurriculumLayout.GroupStep | lib/curriculum-parser.ts:73-76 | one reduce step (create the key if missing, push the subject) keeps the grouping invariant |
| CurriculumLayout.GroupOfSnoc | lib/curriculum-parser.ts:75 | appending a subject appends it to its own group only |
| CurriculumLayout.YearGroupStep | lib/curriculum-parser.ts:81-84 | one step of the annual reduce keeps its grouping invariant |
| CurriculumLayout.YearGroupSnoc | lib/curriculum-parser.ts:83 | appending an annual subject appends it to its year's group only |
| CurriculumLayout.InsertKey | lib/curriculum-parser.ts:121-126 | insertion keeps the keys sorted by (year, semester) and adds exactly the new key |
| CurriculumLayout.SortKeys | lib/curriculum-parser.ts:120-126 | the sort gives the same keys in strictly increasing (year, semester) order |
| CurriculumLayout.SortedKeysUnique | lib/curriculum-parser.ts:120-126 | two sorted key lists with the same members are equal, so the sorted order is determined |
| CurriculumLayout.SortedHeadLeast | lib/curriculum-parser.ts:121-126 | the first sorted key comes before every other |
| CurriculumLayout.SortedTail | lib/curriculum-parser.ts:121-126 | a sorted list has no repeated head |
| CurriculumLayout.GroupNodes | lib/curriculum-parser.ts:135-155 | one node per subject of the group |
| CurriculumLayout.PlaceGroup | lib/curriculum-parser.ts:135-155 | the inner `forEach` pushes exactly the group's nodes, row by row |
| CurriculumLayout.PlaceRegular | lib/curriculum-parser.ts:120-156 | the outer `forEach` pushes the groups' blocks in sorted key order |
| CurriculumLayout.YearGroup | lib/curriculum-parser.ts:80-85 | a year group is no longer than the input |
| CurriculumLayout.YearGroupNone | lib/curriculum-parser.ts:80-85 | a year that no subject has gets an empty group |
| CurriculumLayout.YearGroupMembers | lib/curriculum-parser.ts:80-85 | a subject is in a year group exactly when it is an input subject of that year |
| CurriculumLayout.YearsOf | lib/curriculum-parser.ts:80-85 | the year keys are exactly the years of the annual subjects (also lib/curriculum-parser.ts:159) |
| CurriculumLayout.GroupAnnual | lib/curriculum-parser.ts:80-85 | the annual reduce groups the subjects by year, each year's subjects in input order; the model lists the years in order of first appearance, where `Object.keys` would list integer-like years ascending, and the order is immaterial once the years are sorted (also lib/curriculum-parser.ts:160) |
| CurriculumLayout.InsertYear | lib/curriculum-parser.ts:160 | insertion keeps the years sorted and adds exactly the new year |
| CurriculumLayout.SortYears | lib/curriculum-parser.ts:159-160 | the numeric sort gives the same years in strictly increasing order |
| CurriculumLayout.PlaceAnnual | lib/curriculum-parser.ts:159-195 | the loops push each year's block below the taller of that year's two semester groups, years in sorted order |
| CurriculumLayout.MaxYear | lib/curriculum-parser.ts:201-202 | the largest year of the regular subjects, reached by one of them, or 0 with none |
| CurriculumLayout.ElectiveNodes | lib/curriculum-parser.ts:205-224 | one node per elective |
| CurriculumLayout.PlaceElectives | lib/curriculum-parser.ts:198-225 | the `forEach` pushes exactly the electives' nodes |
| CurriculumLayout.RecomputeAll | lib/curriculum-parser.ts:230-235 | the status pass keeps the number of nodes |
| CurriculumLayout.SameStandingRaised | lib/curriculum-parser.ts:230-235 | lists whose statuses agree, or are both uncommitted, are mutually at least as advanced |
| CurriculumLayout.RecomputeAllStanding | lib/curriculum-parser.ts:232-233 | the pass rewrites only uncommitted statuses, into uncommitted ones, so every node keeps its standing |
| CurriculumLayout.PassStep | lib/curriculum-parser.ts:230-235 | recomputing node i in place against the partly updated list gives what recomputing it against the list before the pass gives |
| CurriculumLayout.PassDone | lib/curriculum-parser.ts:230-235 | after the last node, the in-place pass has produced the snapshot recomputation |
| CurriculumLayout.FinalPass | lib/curriculum-parser.ts:230-235 | the in-place pass over the node array equals recomputing every node against the list before the pass, so its order does not matter |
| CurriculumLayout.CalculateLayout | lib/curriculum-parser.ts:63-238 | the method returns exactly `CurriculumLayout.Layout`: ingress, regular, annual and elective blocks, then the status pass |
| LayoutPositions.IngressPositions | lib/curriculum-parser.ts:94-99 | the i-th ingress node is at `x = 100 + (250 - 180) / 2 = 135`, `y = 100 + 120 * i` |
| LayoutPositions.ElectivePositions | lib/curriculum-parser.ts:203-210 | the i-th elective is in column `2 * maxYear + 1 + i / 6`, row `i % 6` |
| LayoutPositions.GroupPositions | lib/curriculum-parser.ts:133-136 | a group's nodes share its column and take consecutive rows from its first row |
| LayoutPositions.RegularGroupAt | lib/curriculum-parser.ts:128-136 | a regular subject sits in column `1 + 2 * (year - 1) + (semester - 1)`, on its row within its group |
| LayoutPositions.ConcatAt | lib/curriculum-parser.ts:127-195 | a fact about the nodes of every block holds for all the blocks one after another |
| LayoutPositions.RegularPositions | lib/curriculum-parser.ts:120-156 | every regular node is at its year-semester column, on its row within its group |
| LayoutPositions.AnnualGroupAt | lib/curriculum-parser.ts:165-175 | an annual subject sits in column `1 + 2 * (year - 1)`, at row `max(size of group year-1, size of group year-2) + i` |
| LayoutPositions.AnnualPositions | lib/curriculum-parser.ts:159-195 | every annual node is placed by its year's column and the taller semester group |
| LayoutPositions.IngressPositioned | lib/curriculum-parser.ts:94-99 | every ingress node of the layout has the ingress position |
| LayoutPositions.RegularPositioned | lib/curriculum-parser.ts:120-156 | every regular node of the layout has the regular position |
| LayoutPositions.AnnualPositioned | lib/curriculum-parser.ts:159-195 | every annual node of the layout has the annual position |
| LayoutPositions.ElectivePositioned | lib/curriculum-parser.ts:198-210 | every elective node of the layout has the elective position |
| LayoutPositions.PlacedPositions | lib/curriculum-parser.ts:94-225 | every pushed node has the position of its subject's category |
| LayoutPositions.LayoutPositions | lib/curriculum-parser.ts:63-238 | every node calculateLayout returns has the position its category's formula gives |
| LayoutProperties.SubjectsOf | lib/curriculum-parser.ts:104-105 | helper of `LayoutProperties.RegularSubjects` and `LayoutProperties.AnnualSubjects`: the subjects of n nodes are n |
| LayoutProperties.SubjectsOfAppend | lib/curriculum-parser.ts:64 | the subjects of concatenated blocks are the concatenated subjects |
| LayoutProperties.GroupSubjects | lib/curriculum-parser.ts:135-155 | a group block holds exactly the group's subjects, in order |
| LayoutProperties.GroupPlaced | lib/curriculum-parser.ts:142-154 | each node of a group block is its own subject's node, not elective |
| LayoutProperties.RegularSubjects | lib/curriculum-parser.ts:120-156 | the regular block holds the groups' subjects, group after group |
| LayoutProperties.RegularPlaced | lib/curriculum-parser.ts:120-156 | each regular node is its subject's node, for a regular subject of a listed key |
| LayoutProperties.ConcatPlaced | lib/curriculum-parser.ts:127-195 | blocks whose nodes are each placed for a subject of their own key hold, one after another, only nodes placed for listed keys |
| LayoutProperties.AnnualSubjects | lib/curriculum-parser.ts:159-195 | the annual block holds the year groups' subjects, year after year |
| LayoutProperties.AnnualPlaced | lib/curriculum-parser.ts:159-195 | each annual node is its subject's node, for an annual subject of a listed year |
| LayoutProperties.ConcatSubjects | lib/curriculum-parser.ts:127-195 | blocks that each hold their group's subjects hold, one after another, the groups one after another |
| LayoutProperties.IngressBlock | lib/curriculum-parser.ts:94-117 | the ingress block holds the ingress subjects in order, each as a non-elective node |
| LayoutProperties.ElectiveBlock | lib/curriculum-parser.ts:205-224 | the elective block holds the electives in order, each with `isElective` true |
| LayoutProperties.PlacedNodes | lib/curriculum-parser.ts:94-225 | every pushed node is an input subject of Year 0, a positive numeric Year or 'Electives', and is elective exactly for 'Electives' |
| LayoutProperties.RecomputeKeeps | lib/curriculum-parser.ts:230-235 | the status pass changes nothing but the status |
| LayoutProperties.LayoutNodes | lib/curriculum-parser.ts:101-115 | each output node is an input subject in one of the four categories, elective exactly for 'Electives', with prerequisites and prerequisiteFor parsed from the "to Take" fields only, and a grade of 0 made null (also lib/curriculum-parser.ts:219-222) |
| LayoutProperties.LayoutStatus | lib/curriculum-parser.ts:101 | a truthy committed raw status is kept; otherwise (including a missing one) the status is DISPONIBLE exactly when the node's prerequisites are met in the returned list, else NO_DISPONIBLE (also lib/curriculum-parser.ts:230-235) |
| LayoutProperties.FilterSplits | lib/curriculum-parser.ts:67-69 | the four category filters split the laid-out subjects exactly (also lib/curriculum-parser.ts:198) |
| LayoutProperties.SortedLastFresh | lib/curriculum-parser.ts:121-126 | a sorted key list has no repeat of its last key |
| LayoutProperties.GroupOfCount | lib/curriculum-parser.ts:72-77 | a group holds each subject of its key as often as the input |
| LayoutProperties.GroupsCount | lib/curriculum-parser.ts:120-156 | the groups of distinct keys hold each subject as often as the input when its key is listed, else never |
| LayoutProperties.GroupsCover | lib/curriculum-parser.ts:120-156 | the groups of all keys are a permutation of the regular subjects |
| LayoutProperties.SortedLastFreshYear | lib/curriculum-parser.ts:160 | a sorted year list has no repeat of its last year |
| LayoutProperties.YearGroupCount | lib/curriculum-parser.ts:80-85 | a year group holds each subject of its year as often as the input |
| LayoutProperties.YearGroupsCount | lib/curriculum-parser.ts:159-195 | the year groups of distinct years hold each subject as often as the input when its year is listed |
| LayoutProperties.YearGroupsCover | lib/curriculum-parser.ts:159-195 | the year groups of all years are a permutation of the annual subjects |
| LayoutProperties.LayoutSubjects | lib/curriculum-parser.ts:63-238 | the layout's subjects are a permutation of the input subjects of Year 0, positive numeric Year, or 'Electives': no subject is lost or duplicated |
| GraphEdges.Arrows | lib/curriculum-parser.ts:245-257 | a node has at most one arrow per `prerequisiteFor` entry |
| GraphEdges.GetConnections | lib/curriculum-parser.ts:240-261 | the two nested loops return exactly `GraphEdges.Connections`, in node order then entry order |
| GraphEdges.ArrowsMembers | lib/curriculum-parser.ts:245-254 | a connection is among a node's arrows exactly when it is (node ID, entry ID, entry condition, node status) for an entry whose target ID names a node |
| GraphEdges.ConnectionsMembers | lib/curriculum-parser.ts:243-258 | a connection is emitted exactly when it is the arrow of some node's entry with a known target |
| GraphEdges.ConnectionsOfAppend | lib/curriculum-parser.ts:243 | the connections of concatenated node lists are the concatenated connections, so order follows node order |
| GraphEdges.ConnectionsBound | lib/curriculum-parser.ts:243-258 | there are never more connections than `prerequisiteFor` entries |
| GraphEdges.ArrowsAllFound | lib/curriculum-parser.ts:245-257 | when every target is known, a node's arrows are one per entry, in entry order |
| GraphEdges.ConnectionsAllFound | lib/curriculum-parser.ts:243-258 | when every target is known, there is exactly one connection per entry: nothing is deduplicated |
| Connections.KeysOfSnoc | components/connections.tsx:23-25 | appending a connection adds exactly its `${from}-${to}` key to the seen set |
| Connections.UniqueSubseq | components/connections.tsx:20-28 | deduplication keeps an order-preserving subsequence with the same set of keys |
| Connections.UniqueDistinct | components/connections.tsx:20-28 | after deduplication no two connections share a key |
| Connections.UniqueKeepsFirst | components/connections.tsx:22-27 | each kept connection is the first of its key in the input |
| Connections.KeyCollision | components/connections.tsx:23 | ('a-b','c') and ('a','b-c') have the same key, and only the first survives |
| Connections.Deduplicate | components/connections.tsx:20-28 | the `filter` with the `seen` set returns exactly `Connections.Unique` |
| Connections.AdjOfEdges | components/connections.tsx:32-37 | the adjacency map has exactly the connections as edges, and a key exactly for each source node |
| Connections.BuildAdjacency | components/connections.tsx:32-37 | the `forEach` builds exactly that map |
| Connections.RemoveAll | components/connections.tsx:43 | filtering never lengthens a list |
| Connections.RemoveAllMembers | components/connections.tsx:43 | `neighbors.filter(n => n !== to)` keeps exactly the other neighbours |
| Connections.WithoutEdges | components/connections.tsx:42-44 | while an edge is tested, the map has every edge but that one |
| Connections.ReachRoot | components/connections.tsx:46 | every start of the search is reachable |
| Connections.ReachExtend | components/connections.tsx:57-59 | a successor of a reachable node is reachable |
| Connections.ClosedSetBlocks | components/connections.tsx:46-61 | a set holding the starts, closed under edges and missing the target, shows the target unreachable |
| Connections.RemoveOneUnvisited | components/connections.tsx:55-56 | marking a new node visited shrinks the unvisited part, so the search terminates even on cycles and self-loops |
| Connections.Unvisited | components/connections.tsx:57-59 | the pushed successors are no more than the successors |
| Connections.UnvisitedMembers | components/connections.tsx:58 | exactly the successors not yet visited are pushed |
| Connections.PushUnvisited | components/connections.tsx:57-59 | the `forEach` pushes the unvisited successors, in order, on top of the stack |
| Connections.SearchStart | components/connections.tsx:46-48 | the starting stack and empty visited set satisfy the search invariant |
| Connections.SearchFound | components/connections.tsx:50-53 | popping the target means it is reachable |
| Connections.SearchStep | components/connections.tsx:50-60 | popping another node, and expanding it if it was new, keeps the search invariant |
| Connections.Dfs | components/connections.tsx:46-61 | the explicit-stack search returns found exactly when the target is reachable from the starting neighbours |
| Connections.RootsOfWithout | components/connections.tsx:42-46 | the search starts from exactly the source's other successors |
| Connections.SearchDecidesRedundant | components/connections.tsx:41-61 | the search finds the target exactly when the edge is redundant: a walk of one or more connections that avoids it joins its ends |
| Connections.RestoreMap | components/connections.tsx:63 | putting the original list back restores the map, so every edge is tested against the whole deduplicated graph |
| Connections.RemovedEdge | components/connections.tsx:42-46 | the tested edge's source is a key, and every node the search can reach is a node of the graph |
| Connections.ReduceStep | components/connections.tsx:39-67 | one turn of the loop appends the connection exactly when it is not redundant |
| Connections.ReduceConnections | components/connections.tsx:31-69 | the loop returns exactly the connections that are not redundant in the deduplicated graph, in order |
| Connections.ReducedByMembers | components/connections.tsx:39-67 | the kept connections form an order-preserving subsequence holding exactly the non-redundant ones |
| Connections.ReducedSpec | components/connections.tsx:31-69 | the reduction is an order-preserving subsequence that keeps an edge exactly when it is not redundant |
| Connections.WalkInSuper | components/connections.tsx:41-61 | a walk over some of the connections is a walk over all of them |
| Connections.ReducedByAll | components/connections.tsx:39-67 | when no connection is redundant, the loop keeps them all |
| Connections.ReducedIdempotent | components/connections.tsx:31-69 | reducing the reduction removes nothing more, for any graph |
| Connections.WalkRanks | components/connections.tsx:30 | along a walk in an acyclic graph the rank strictly decreases |
| Connections.ReachEdge | components/connections.tsx:30 | a connection makes its target reachable from its source |
| Connections.ReachJoin | components/connections.tsx:30 | reachability is transitive |
| Connections.ReachAlong | components/connections.tsx:30 | a chain of reachable steps makes its end reachable from its start |
| Connections.EdgeSurvivesReduction | components/connections.tsx:30-69 | in an acyclic graph every connection's target stays reachable from its source in the reduction |
| Connections.ReductionPreservesReach | components/connections.tsx:30-69 | for an acyclic graph, reachability in the reduction is exactly reachability in the graph: it is a transitive reduction |
| Connections.ClosedAvoiding | components/connections.tsx:41-61 | a set closed under all edges but (u, v), holding u and not v, shows the edge is kept |
| Connections.TriangleEdges | components/connections.tsx:30 | in A→B, B→C, A→C only A→C is redundant |
| Connections.TriangleReduction | components/connections.tsx:30-69 | reducing A→B, B→C, A→C gives A→B, B→C |
| Connections.ReducedByDistinct | components/connections.tsx:39-67 | the reduction of a deduplicated list is still deduplicated |
| Connections.DisplayOfReduced | components/connections.tsx:20-69 | deduplicating and reducing connections that were already deduplicated and reduced changes nothing, so reducing the view's already reduced list again would be harmless; whether the newer view's arrow layer reduces again is not visible here, see "## Left out" (also components/curriculum/curriculum-graph.tsx:91-142) |
| Connections.DistinctInit | components/connections.tsx:20-28 | the last key of a deduplicated list does not occur before it |
| Connections.UniqueOfDistinct | components/connections.tsx:20-28 | deduplication leaves a list with distinct keys alone |
| Connections.NodePosition | components/connections.tsx:71-78 | a known ID gives the first such node's (x + 90, y + 30); an unknown one gives (0, 0) |
| Connections.ConnectionColor | components/connections.tsx:95-116 | APROBADA green, CURSANDO blue, EN_FINAL yellow, DESAPROBADA red, anything else gray |
| Connections.MarkerMatchesColour | components/connections.tsx:131-187 | every arrow names a defined marker whose head has the line's colour (also components/connections.tsx:196-201) |
| Connections.ColoursDistinct | components/connections.tsx:95-116 | the five colours are pairwise different |
| Connections.StrokeWidth | components/connections.tsx:194 | the stroke is wide (2.5) exactly when the arrow's source status meets a "Regularizada" prerequisite (`StatusEngine.Meets`), and 1.5 otherwise |
| Connections.Opacity | components/connections.tsx:212 | full opacity 0.8 exactly when nothing is selected or one end is the selected subject, else 0.1 |
| GraphView.OpacityWithinHighlight | components/connections.tsx:212 | with a subject selected, every arrow drawn at full opacity joins two subjects that `ConnectedIds` draws bright (also components/curriculum/curriculum-graph.tsx:228-242) |
| Connections.MaxX | components/connections.tsx:121 | the largest node x, reached by some node |
| Connections.MaxY | components/connections.tsx:122 | the largest node y, reached by some node |
| Connections.SvgHoldsNodes | components/connections.tsx:118-122 | every 180×60 node fits inside the SVG, whose width is the largest x plus 200, and which is 0×0 with no nodes |
| GraphView.CoreNodes | components/curriculum/curriculum-graph.tsx:39-50 | the filter never adds nodes |
| GraphView.CoreNodesSpec | components/curriculum/curriculum-graph.tsx:39-50 | the shown nodes keep their order; a node is shown exactly when it is not an elective with electives hidden and not of Year 0 with the ingress course hidden |
| GraphView.AllShown | components/curriculum/curriculum-graph.tsx:39-50 | with both toggles on every node is shown |
| GraphView.ReducedConnections | components/curriculum/curriculum-graph.tsx:86-142 | the view's arrows are `getConnections` of the shown nodes, deduplicated and reduced by the same rule as the arrow layer |
| GraphView.ReducedConnectionsSpec | components/curriculum/curriculum-graph.tsx:86-142 | the view's arrows are an order-preserving subsequence of the shown nodes' connections, with distinct keys |
| GraphView.NeighboursSpec | components/curriculum/curriculum-graph.tsx:236-239 | an ID is collected exactly when some connection joins it to the selected ID, in either direction |
| GraphView.ConnectedIdsSpec | components/curriculum/curriculum-graph.tsx:232-242 | with nothing selected the set is empty; otherwise it holds exactly the selected ID and the IDs joined to it by a connection |
| GraphView.ConnectedSymmetric | components/curriculum/curriculum-graph.tsx:236-239 | if selecting a lights b, selecting b lights a |
| GraphView.ConnectedMonotone | components/curriculum/curriculum-graph.tsx:232-242 | fewer connections light no more nodes |
| GraphView.CollectConnectedIds | components/curriculum/curriculum-graph.tsx:232-242 | the `forEach` collects exactly that set |
| GraphView.DimmedSpec | components/curriculum/curriculum-graph.tsx:232-242 | nothing is dimmed without a selection, and the selected node never is |
| GraphView.ReducedLightsLess | components/curriculum/curriculum-graph.tsx:231-242 | highlighting along the reduced arrows lights no more than along all connections |
| GraphView.TriangleSelection | components/curriculum/curriculum-graph.tsx:231-242 | in A→B, B→C, A→C, selecting A lights A, B and C along all arrows but only A and B along the reduced ones |
| GraphView.DoubleClickStatus | components/curriculum/curriculum-graph.tsx:227-229 | a double click asks for APROBADA or DISPONIBLE |
| GraphView.DoubleClickTwice | components/curriculum/curriculum-graph.tsx:227-229 | two double clicks restore the status exactly for APROBADA and DISPONIBLE; any other status ends at DISPONIBLE; the older view toggles the same way (also components/curriculum-graph.tsx:113-115) |
| GraphView.SemesterKeysMembers | components/curriculum/curriculum-graph.tsx:245-249 | a numeric key is listed exactly when a shown node with a numeric year and a semester has it, so annual nodes give none |
| GraphView.SemestersSpec | components/curriculum/curriculum-graph.tsx:245-255 | the numeric semester keys are sorted by year then semester, and are exactly the keys of the shown non-annual nodes with a numeric year; the older view computes its keys by the same rule (also components/curriculum-graph.tsx:131-141) |
| GraphView.KeyKinds | components/curriculum/curriculum-graph.tsx:245-249 | every shown node with a semester gives a key: a numeric year a numeric key among `Semesters`, a text year (an elective's "Electives") a text key among `TextKeysOf` |
| GraphView.Headers | components/curriculum/curriculum-graph.tsx:304-329 | at most one header per key |
| GraphView.HeadersFrom | components/curriculum/curriculum-graph.tsx:304-307 | each header is that of a key of year other than 0, in key order |
| GraphView.HeadersMembers | components/curriculum/curriculum-graph.tsx:304-307 | every key of year other than 0 has its header |
| GraphView.CuatriLabelSpec | components/curriculum/curriculum-graph.tsx:310-312 | the label is `ordinals[(year - 1) * 2 + semester] + " Cuatrimestre"` for the first ten semesters, and "undefined Cuatrimestre" beyond the table; the older view uses the same table (also components/curriculum-graph.tsx:192-194) |
| GraphView.OrdinalsDistinct | components/curriculum/curriculum-graph.tsx:310 | the ordinal table's entries are pairwise different |
| GraphView.SuffixCancel | components/curriculum/curriculum-graph.tsx:312 | helper of `GraphView.LabelsDistinct`: equal labels have equal ordinals |
| GraphView.LabelsDistinct | components/curriculum/curriculum-graph.tsx:310-312 | the first ten semesters carry ten different labels |
| GraphView.HeadersLeftToRight | components/curriculum/curriculum-graph.tsx:304-315 | with semesters 1 and 2 only, the headers run strictly left to right |
| GraphView.HeadersOrder | components/curriculum/curriculum-graph.tsx:304-315 | the same ordering fact, proved by induction over the keys |
| GraphView.HeaderForNode | components/curriculum/curriculum-graph.tsx:245-307 | every shown regular node gets its semester's header |
| GraphView.RegularShown | components/curriculum/curriculum-graph.tsx:39-50 | regular nodes of the layout are shown whatever the toggles |
| GraphView.RegularColumn | components/curriculum/curriculum-graph.tsx:313-315 | a regular node of the layout sits at `x = 100 + 250 * (1 + 2 * (year - 1) + (semester - 1))` (also lib/curriculum-parser.ts:132-133) |
| GraphView.HeaderOverRegular | components/curriculum/curriculum-graph.tsx:304-328 | every regular node of the layout has a header with its semester's label at its own x; the older view uses the same column formula (also lib/curriculum-parser.ts:132-133; components/curriculum-graph.tsx:186-197) |
| GraphView.ElectivesHeaderOverElectives | components/curriculum/curriculum-graph.tsx:332 | the electives header, one column after all the semester keys, numeric and text alike, stands over the first elective column `2 * maxYear + 1` exactly when there are twice as many keys as regular years (also lib/curriculum-parser.ts:203) |
| GraphView.TextKeyShiftsElectivesHeader | components/curriculum/curriculum-graph.tsx:332 | a shown node with a text year and a semester moves the electives header at least one column right of the column after the numeric keys (also components/curriculum/curriculum-graph.tsx:245-249) |
| GraphViewLegacy.LegacyCoreNodes | components/curriculum-graph.tsx:35-46 | the older filter never adds nodes |
| GraphViewLegacy.LegacyCoreNodesSpec | components/curriculum-graph.tsx:35-46 | the older filter always drops electives and drops Year 0 unless shown: it is the newer filter with electives off |
| GraphViewLegacy.NewerLightsLess | components/curriculum-graph.tsx:118-128 | the newer view, lighting along reduced arrows, lights no more than the older one, which lights along every connection (also components/curriculum/curriculum-graph.tsx:232-242) |
| GraphViewLegacy.SameArrowsDrawn | components/curriculum-graph.tsx:48-50 | both revisions draw the same arrows, on the assumption under "## Left out" that the newer view's arrow layer reduces what it is given as components/connections.tsx does: reducing the reduced list again changes nothing (also components/curriculum-graph.tsx:215; components/curriculum/curriculum-graph.tsx:91-142, 346) |
| Page.SetStatus | app/page.tsx:60 | the first `map` keeps the number of nodes |
| Page.Repass | app/page.tsx:61-65 | the second `map` keeps the number of nodes |
| Page.StatusChangeSpec | app/page.tsx:58-66 | a status edit changes only statuses. The edited node gets the requested status and keeps it even when its prerequisites are unmet. Other committed statuses stay. Other nodes become DISPONIBLE exactly when their prerequisites are met in the list holding the edit and everyone else's old status, else NO_DISPONIBLE, in one pass (also lib/curriculum-parser.ts:21-42) |
| Page.RepassStanding | app/page.tsx:61-65 | the recompute pass keeps every node's standing |
| Page.RepassIdempotent | app/page.tsx:61-65 | running the recompute pass a second time changes nothing: one pass is already a fixed point (also lib/curriculum-parser.ts:33-36) |
| Page.StatusChangeIdempotent | app/page.tsx:58-66 | repeating the same status edit changes nothing |
| Page.SelectedCopyCurrent | app/page.tsx:68-70 | the selected copy gets the requested status and otherwise equals the stored node, with at most a difference between two uncommitted statuses |
| Page.GradeChange | app/page.tsx:43-44 | a grade edit keeps the number of nodes |
| Page.Drag | app/page.tsx:73-75 | a drag keeps the number of nodes |
| Page.LastEditWins | app/page.tsx:43-75 | of two grade edits or two drags of a node, the later one wins |
| Page.EditsKeepAvailability | app/page.tsx:43-75 | grade edits and drags change nobody's derived status |
| Page.SelectedCopyGraded | app/page.tsx:45-47 | the selected copy's grade follows a grade edit exactly as the stored node does |
| Page.Select | app/page.tsx:117-123 | `filter` never adds nodes |
| Page.SelectMembers | app/page.tsx:117-123 | `filter` keeps exactly the nodes that pass |
| Page.ProgressSpec | app/page.tsx:117-129 | each approved count is at most its total; elective hours are 32 per approved elective; 12 electives are needed; the approved count is ingress plus plan |
| Page.SelectPartition | app/page.tsx:117-119 | three tests that each node passes exactly one of split the list's length |
| Page.LayoutCounted | app/page.tsx:117-119 | every node of a layout is counted once, as ingress, plan or elective (also lib/curriculum-parser.ts:63-238) |
| Page.TimesIsProduct | app/page.tsx:135 | helper of `Page.MeanBounds`: repeated addition is multiplication |
| Page.GradeSumBounds | app/page.tsx:135 | the sum of n grades in [lo, hi] lies in [n lo, n hi] |
| Page.MeanBounds | app/page.tsx:134-135 | the mean of such a sum lies in [lo, hi] |
| Page.GradedMembers | app/page.tsx:132-133 | the averaged nodes are exactly the approved ingress and plan nodes with a grade |
| Page.AverageExists | app/page.tsx:132-136 | there is an average exactly when some approved ingress or plan node has a grade, else null |
| Page.AverageBounds | app/page.tsx:132-136 | the average lies between the lowest and highest grade |
| SubjectInfo.StatusText | components/navigation/subject-info.tsx:47-64 | each of the six statuses gets a label that reads back as that status; any other text is shown as it is |
| SubjectInfo.CanTakeSubject | components/navigation/subject-info.tsx:70-82 | false with nothing selected. Otherwise true exactly when each prerequisite's first node with its ID meets its condition: 'Aprobada' needs APROBADA, anything else needs EN_FINAL or APROBADA. A missing ID counts as met |
| SubjectInfo.TakeFirstDecides | components/navigation/subject-info.tsx:72-81 | `every` over the prerequisites is decided by the first node with each ID |
| SubjectInfo.CanApprove | components/navigation/subject-info.tsx:100-109 | false with nothing selected; otherwise true exactly when every found prerequisite is APROBADA, whatever its condition |
| SubjectInfo.ApproveFirstDecides | components/navigation/subject-info.tsx:102-108 | that `every` is decided by the first node with each ID |
| SubjectInfo.ApproveImpliesTake | components/navigation/subject-info.tsx:70-109 | whatever may be approved may be taken |
| SubjectInfo.PanelStricterThanEngine | components/navigation/subject-info.tsx:70-82 | for 'Aprobada'/'Regularizada' conditions, the panel allowing CURSANDO implies the engine calls the subject available (also lib/curriculum-parser.ts:28-39) |
| SubjectInfo.CursandoNotEnough | components/navigation/subject-info.tsx:79-80 | a 'Regularizada' prerequisite that is CURSANDO satisfies the engine but not the panel (also lib/curriculum-parser.ts:35-36) |
| SubjectInfo.UnknownConditionAccepted | components/navigation/subject-info.tsx:79-80 | an unknown condition on an EN_FINAL prerequisite fails the engine but passes the panel (also lib/curriculum-parser.ts:38) |
| SubjectInfo.Click | components/navigation/subject-info.tsx:67 | a click on an enabled button sends the subject's ID and that status. DESAPROBADA is always enabled; CURSANDO and EN_FINAL are enabled exactly when the subject may be taken; APROBADA exactly when it may be approved (also components/navigation/subject-info.tsx:147-185) |
| SubjectInfo.ClickKept | components/navigation/subject-info.tsx:67 | every status the panel can send is committed, so it survives recomputation (also components/navigation/subject-info.tsx:185; lib/curriculum-parser.ts:23-25) |
| SubjectInfo.ApproveEnablesAll | components/navigation/subject-info.tsx:152-180 | when APROBADA is enabled, every offered button is |
| SubjectInfo.FailedPrereqs | components/navigation/subject-info.tsx:165-169 | no more entries are listed than there are prerequisites |
| SubjectInfo.FailedPrereqsSpec | components/navigation/subject-info.tsx:165-169 | the listed prerequisites are, in prerequisite order, exactly those whose node is in the plan and not APROBADA |
| SubjectInfo.FailedPrereqsEmpty | components/navigation/subject-info.tsx:100-109 | nothing is listed exactly when the subject may be approved (also components/navigation/subject-info.tsx:165-169) |
| SubjectInfo.FailedEntries | components/navigation/subject-info.tsx:170-173 | one "id (STATUS)" text per listed prerequisite |
| SubjectInfo.ApproveTooltip | components/navigation/subject-info.tsx:161-174 | a disabled APROBADA button carries the reason text, and its list is never empty |
| SubjectInfo.FailedEntriesSpec | components/navigation/subject-info.tsx:165-173 | each listed entry is a prerequisite in the plan, not APROBADA, shown as its ID and raw status |
| NavbarLegacy.CanModifyProgress | components/navbar.tsx:76-87 | false with nothing selected. Otherwise true exactly when every prerequisite ID is in the plan and its first node meets the condition: 'Aprobada' needs APROBADA, anything else EN_FINAL or APROBADA. A missing ID fails |
| NavbarLegacy.ModifyFirstDecides | components/navbar.tsx:78-86 | that `every` is decided by the first node with each ID, a missing one failing |
| NavbarLegacy.NavbarClick | components/navbar.tsx:73 | EN_FINAL, DESAPROBADA and APROBADA are always clickable; DISPONIBLE and CURSANDO exactly when progress may be modified; a click sends the ID and status (also components/navbar.tsx:155-161) |
| NavbarLegacy.ModifyImpliesTake | components/navbar.tsx:76-87 | the older rule is at least as strict as the newer panel's (also components/navigation/subject-info.tsx:70-82) |
| NavbarLegacy.ModifyIsTakeWhenKnown | components/navbar.tsx:76-87 | when every prerequisite ID is in the plan, the two rules agree (also components/navigation/subject-info.tsx:70-82) |
| NavbarLegacy.MissingIdsRestrict | components/navbar.tsx:80 | prerequisites missing from the plan block CURSANDO in the older bar but not in the newer panel (also components/navbar.tsx:156; components/navigation/subject-info.tsx:75, 154) |
| NavbarLegacy.DisponibleIsRecomputed | components/navbar.tsx:73 | DISPONIBLE, which only the older bar offers, is not kept by the engine: recomputing such a node gives DISPONIBLE or NO_DISPONIBLE by availability (also components/navbar.tsx:160; lib/curriculum-parser.ts:21-42) |
| NavbarLegacy.NavbarLabelsDistinct | components/navbar.tsx:54-73 | the five offered statuses have five different labels |
| UploadRoute.FirstCellWith | app/api/parse-plan/route.ts:42-44 | the index found is a cell of the row |
| UploadRoute.FirstCellWithSpec | app/api/parse-plan/route.ts:42-48 | no index exactly when no cell contains the text; otherwise the first cell that does |
| UploadRoute.DetectStudentName | app/api/parse-plan/route.ts:41-49 | the detected name never holds a colon, and a non-empty name comes from a cell containing "Alumno:" |
| UploadRoute.BetweenColonsNoColon | app/api/parse-plan/route.ts:45 | `split(':', 2)[1]` never holds a colon |
| UploadRoute.StudentNameHasNoColon | app/api/parse-plan/route.ts:41-49 | a name the route detects never contains a colon: text after a second colon is dropped |
| UploadRoute.FirstDigit | app/api/parse-plan/route.ts:70 | the index found holds a decimal digit |
| UploadRoute.FirstDigitSpec | app/api/parse-plan/route.ts:70 | no index exactly when the text has no digit; otherwise the leftmost digit, where the leftmost regex match starts |
| UploadRoute.GradeToken | app/api/parse-plan/route.ts:70 | a match of `(\d+(?:\.\d+)?)` is a non-empty run of digits with an optional run of fraction digits |
| UploadRoute.TokenAt | app/api/parse-plan/route.ts:70 | the token read at a digit is digits, optionally a point and digits |
| UploadRoute.TokenAtSpec | app/api/parse-plan/route.ts:70 | the token is a prefix of the text and greedy: no digit follows it, and a point followed by a digit is always taken |
| UploadRoute.ParseSubjectStatus | app/api/parse-plan/route.ts:52-82 | the status is one of CURSANDO, EN_FINAL, APROBADA, DESAPROBADA or DISPONIBLE, and a grade comes only with APROBADA |
| UploadRoute.DesaprobadoReadsApproved | app/api/parse-plan/route.ts:69-76 | a nota containing "desaprobado" (and no "en curso" or "regularidad") is APROBADA, because the "aprobado" test runs first |
| UploadRoute.DesaprobadaNeedsFeminine | app/api/parse-plan/route.ts:69-78 | DESAPROBADA is read only for a nota containing "desaprobada" and not "desaprobado" |
| UploadRoute.GradeOnlyWhenApproved | app/api/parse-plan/route.ts:68-73 | for an approved subject a grade is read exactly when the trimmed nota contains a digit |
| UploadRoute.GradeOfWholeNumber | app/api/parse-plan/route.ts:70-71 | a nota made of digit-free text, a whole number and a tail that does not continue the number reads as that number |
| UploadRoute.IsCoreModule | app/api/parse-plan/route.ts:85-86 | an empty header is never core (also parse_plan_estudios.py:116-119) |
| UploadRoute.IsCoreModuleIgnoresCase | app/api/parse-plan/route.ts:87-89 | a header and its lower-cased form are classified alike (also parse_plan_estudios.py:121-129) |
| UploadRoute.YearHeaderIsCore | app/api/parse-plan/route.ts:87-89 | a header containing one of the five year patterns, in any case, is core (also parse_plan_estudios.py:121-129) |
| UploadRoute.CalculateSemester | app/api/parse-plan/route.ts:93-100 | no semester exactly for an empty or ANUAL period; otherwise 1 or 2, with 2 exactly when the period has "2C" and not "1C" (also parse_plan_estudios.py:97-113) |
| UploadRoute.JsParseIntOfDigitFirst | app/api/parse-plan/route.ts:169 | text starting with a digit is read by `parseInt` without sign or white space |
| UploadRoute.MagnitudeOfDecimal | app/api/parse-plan/route.ts:169 | decimal digits followed by a non-digit read as their value unless they are a "0x" prefix |
| UploadRoute.JsParseIntOfDigits | app/api/parse-plan/route.ts:169 | a run of decimal digits reads as its value |
| UploadRoute.JsParseIntStopsAtLetter | app/api/parse-plan/route.ts:169 | only the leading digits count: "2do" reads as 2 |
| UploadRoute.YearValue | app/api/parse-plan/route.ts:169 | a year `parseInt` cannot read becomes 1 |
| UploadRoute.TrimCells | app/api/parse-plan/route.ts:105 | every cell is trimmed, none is dropped; the cells are the texts of the raw cells, see "## Left out" |
| UploadRoute.RowCourse | app/api/parse-plan/route.ts:133-174 | a course read from a row has credits that are neither empty nor "nan", and a grade only when approved |
| UploadRoute.ExtractCourses | app/api/parse-plan/route.ts:35-38 | the loop yields the student name and the courses of the row-by-row scan (also app/api/parse-plan/route.ts:103-177) |
| UploadRoute.ScanCount | app/api/parse-plan/route.ts:103-177 | at most one course per row |
| UploadRoute.StepName | app/api/parse-plan/route.ts:108-114 | one turn sets the name only while it is empty and the row yields one |
| UploadRoute.ScanNameIsFirst | app/api/parse-plan/route.ts:108-114 | the scanned name is the name of the first row that yields one |
| UploadRoute.FirstNameEmpty | app/api/parse-plan/route.ts:108-114 | that name is empty exactly when no row yields one |
| UploadRoute.FirstNameFirst | app/api/parse-plan/route.ts:108-114 | otherwise some row yields it and no earlier row yields any |
| UploadRoute.ScanName | app/api/parse-plan/route.ts:35 | the route's student name is "" exactly when no row yields one, and otherwise the first row's name (also app/api/parse-plan/route.ts:108-114) |
| UploadRoute.ScanCore | app/api/parse-plan/route.ts:117-121 | the core flag is set only by a module header whose text is core |
| UploadRoute.ScanCourses | app/api/parse-plan/route.ts:129-176 | every course is the course of some row read while the current module was core |
| UploadRoute.StepCourses | app/api/parse-plan/route.ts:103-177 | one turn keeps the courses or appends the row's course, and only under a core module |
| UploadRoute.NoModuleNoCourses | app/api/parse-plan/route.ts:129-131 | rows before the first module header add no course |
| UploadRoute.FindCourse | app/api/parse-plan/route.ts:197 | a course found is in the list and has the ID asked for |
| UploadRoute.FindCourseSpec | app/api/parse-plan/route.ts:197 | none exactly when no course has the ID; otherwise the first one that has it |
| UploadRoute.Merge | app/api/parse-plan/route.ts:196-227 | the merged plan has one entry per template entry |
| UploadRoute.MergeSpec | app/api/parse-plan/route.ts:196-227 | each entry keeps every template field but status and grade; electives are kept whole; a reported course gives the first report's status and grade; an unreported year-0 course is APROBADA with grade 10 and any other is DISPONIBLE with its template grade |
| UploadRoute.MergeIdempotent | app/api/parse-plan/route.ts:196-227 | merging the same report into the merged plan again changes nothing |
| UploadRoute.MergedStatusNamed | app/api/parse-plan/route.ts:196-227 | a non-elective entry merged from a report with named statuses has a status the engine recognises (also lib/curriculum-parser.ts:21-42) |
| UploadRoute.Respond | app/api/parse-plan/route.ts:195-243 | with a template the response follows it entry by entry, keeping its IDs; without one it holds one entry per extracted course |
| CoursePattern.ShapeAt | app/api/parse-plan/route.ts:139 | white space, "(" and the next ")" spell the tail `\s*\(([^)]+)\)` with the text between as the ID (also parse_plan_estudios.py:164) |
| CoursePattern.TailSound | app/api/parse-plan/route.ts:139 | a tail match captures a non-empty ID free of ")" and the text has the tail's shape, ending there when anchored (also parse_plan_estudios.py:164) |
| CoursePattern.TailComplete | app/api/parse-plan/route.ts:139 | every text of that shape is matched, capturing that ID (also parse_plan_estudios.py:164) |
| CoursePattern.LazyMatch | app/api/parse-plan/route.ts:139 | a name length found lies within the text (also parse_plan_estudios.py:164) |
| CoursePattern.LazyMatchFound | app/api/parse-plan/route.ts:139 | the lazy search returns a match, and no shorter name from its starting point has a matching tail (also parse_plan_estudios.py:164) |
| CoursePattern.LazyMatchNone | app/api/parse-plan/route.ts:139 | when the search finds nothing no name length from its starting point matches (also parse_plan_estudios.py:164) |
| CoursePattern.MatchSpec | app/api/parse-plan/route.ts:139 | `(.+?)` captures the shortest name after which the tail matches, and there is no match exactly when no name length works (also parse_plan_estudios.py:164) |
| CoursePattern.AnchoredThenUnanchored | app/api/parse-plan/route.ts:139 | whatever the route's `$`-anchored pattern matches, the Python pattern matches too, with a name no longer (also parse_plan_estudios.py:164) |
| CoursePattern.AnchoredEndsWithParen | app/api/parse-plan/route.ts:139 | the anchored pattern only matches text ending in ")" |
| CoursePattern.TrailingTextPython | parse_plan_estudios.py:164-169 | the Python reader accepts "name (ID)" followed by any text |
| CoursePattern.TrailingTextRoute | app/api/parse-plan/route.ts:139-142 | the route rejects any activity not ending in ")" |
| PlanParserPy.StudentName | parse_plan_estudios.py:44-51 | a non-empty name is the one read from the first row that has a cell containing "Alumno:" |
| PlanParserPy.FirstCellWithAt | parse_plan_estudios.py:48-50 | the first cell containing the text is found at its index |
| PlanParserPy.FirstCellWithNone | parse_plan_estudios.py:48-51 | no cell is found when none contains the text |
| PlanParserPy.NameSearchKeeps | parse_plan_estudios.py:46-50 | rows after the first name row do not change the name |
| PlanParserPy.FindStudentName | parse_plan_estudios.py:44-51 | the nested loop returns the name of the row-by-row search, "" when there is none |
| PlanParserPy.NameSearchNone | parse_plan_estudios.py:44-51 | no name exactly when no cell of any row contains "Alumno:" |
| PlanParserPy.NameSearchFirst | parse_plan_estudios.py:44-51 | otherwise the name is the first such row's, even when it is empty |
| PlanParserPy.FirstColon | parse_plan_estudios.py:50 | the first colon of a cell is the one after a colon-free prefix (also app/api/parse-plan/route.ts:45) |
| PlanParserPy.OneColonAgrees | parse_plan_estudios.py:50 | with a single colon the two splits read the same name (also app/api/parse-plan/route.ts:45) |
| PlanParserPy.SecondColonDiffers | parse_plan_estudios.py:50 | with a second colon they differ: Python keeps it, the route cuts at it (also app/api/parse-plan/route.ts:45) |
| PlanParserPy.NamesAgree | parse_plan_estudios.py:44-51 | when every "Alumno:" cell yields the same non-empty name in both, the Python search and the route's scan give the same student name (also app/api/parse-plan/route.ts:41-49, 108-114) |
| PlanParserPy.ParseStatus | parse_plan_estudios.py:54-94 | the status is one of the five the reader produces, and a grade comes only with APROBADA |
| PlanParserPy.ShortNotContains | parse_plan_estudios.py:64-65 | a text shorter than a keyword does not contain it |
| PlanParserPy.SameLengthNotContains | parse_plan_estudios.py:64-65 | a text as long as a keyword contains it only by being it |
| PlanParserPy.NanHoldsNoKeyword | parse_plan_estudios.py:64-88 | "nan" holds none of the keywords, so cleaning it to "" changes no decision |
| PlanParserPy.StatusAgree | parse_plan_estudios.py:54-94 | the two readers agree on every nota whose "en curso" test does not depend on case (also app/api/parse-plan/route.ts:52-82) |
| PlanParserPy.CapitalEnCursoMissed | parse_plan_estudios.py:72 | a nota "En Curso" is CURSANDO in the route but DISPONIBLE in Python, which tests the nota before lower-casing it (also app/api/parse-plan/route.ts:59) |
| PlanParserPy.YearOf | parse_plan_estudios.py:192 | the year read is never negative |
| PlanParserPy.YearsAgreeOnDigits | parse_plan_estudios.py:192 | on a run of digits both readers read the same year (also app/api/parse-plan/route.ts:169) |
| PlanParserPy.OrdinalYearDiffers | parse_plan_estudios.py:192 | on "2do" the route reads 2 and Python reads 1 (also app/api/parse-plan/route.ts:169) |
| PlanParserPy.CourseOfRow | parse_plan_estudios.py:159-206 | a course read from a row has credits that are neither empty nor "nan", and a grade only when approved |
| PlanParserPy.ParseRows | parse_plan_estudios.py:137-210 | the loop yields the courses of the row-by-row scan |
| PlanParserPy.ParseExcel | parse_plan_estudios.py:132-210 | the name comes from its own pass over the rows and the courses from the scan |
| PlanParserPy.ParserStepCourses | parse_plan_estudios.py:142-208 | one turn keeps the courses or appends the row's course, and only under a core module |
| PlanParserPy.ParserScanCourses | parse_plan_estudios.py:155-208 | every course is the course of some row read while the current module was core |
| PlanParserPy.ParserScanCore | parse_plan_estudios.py:146-149 | the core flag is set only by a module header whose text is core |
| PlanParserPy.RouteActivityAccepted | parse_plan_estudios.py:164 | every activity the route reads as a course, Python reads as one too (also app/api/parse-plan/route.ts:139) |
| PlanConverter.ParseOrdinal | scripts/convert_plan_excel_to_json.py:21-43 | a text with leading digits always gives a number, and a number read from an ordinal word lies between 1 and 10 |
| PlanConverter.OrdinalOfDigits | scripts/convert_plan_excel_to_json.py:21-26 | leading digits are read as their value whatever follows: "2do Año" gives 2 |
| PlanConverter.FirstWordNone | scripts/convert_plan_excel_to_json.py:40-43 | the word search finds nothing exactly when the text contains none of the remaining words |
| PlanConverter.FirstWordSome | scripts/convert_plan_excel_to_json.py:40-42 | a word found is contained in the text and no word listed before it is |
| PlanConverter.OrdinalOfWords | scripts/convert_plan_excel_to_json.py:21-43 | text without leading digits has no number exactly when it contains no ordinal word; otherwise the number of the first listed word it contains |
| PlanConverter.OrdinalWordRange | scripts/convert_plan_excel_to_json.py:29-39 | the ordinal words stand for 1 to 10 |
| PlanConverter.NonEmptyPieces | scripts/convert_plan_excel_to_json.py:102 | no more pieces than parts |
| PlanConverter.NonEmptyPiecesSpec | scripts/convert_plan_excel_to_json.py:102 | the pieces are exactly the non-empty trimmed parts, each trimmed |
| PlanConverter.NonEmptyPiecesAvoid | scripts/convert_plan_excel_to_json.py:102 | a character absent from every part is absent from every piece |
| PlanConverter.PiecesOfText | scripts/convert_plan_excel_to_json.py:102 | the pieces of a text are non-empty, trimmed and free of ";" |
| PlanConverter.CorrelativesSpec | scripts/convert_plan_excel_to_json.py:99-102 | the correlatives are non-empty, trimmed and free of ";"; for a cell that is not missing, "-" or blank they are exactly the non-empty trimmed ";"-parts of its text |
| PlanConverter.CodeId | scripts/convert_plan_excel_to_json.py:91 | an ID written from a code is a non-empty run of digits |
| PlanConverter.ReadSheet | scripts/convert_plan_excel_to_json.py:70-112 | the row loop yields the state of the row-by-row reading, or nothing when `int(code)` raises |
| PlanConverter.ReadFails | scripts/convert_plan_excel_to_json.py:91 | once a row raises, the whole sheet does |
| PlanConverter.AddSubjectConsistent | scripts/convert_plan_excel_to_json.py:103-112 | adding a subject keeps the dictionary's keys distinct, in insertion order, equal to its key set, and every ID well formed |
| PlanConverter.ReadRowsConsistent | scripts/convert_plan_excel_to_json.py:70-112 | every read sheet satisfies that invariant |
| PlanConverter.AddDependent | scripts/convert_plan_excel_to_json.py:117-119 | the inner loop appends the subject once per occurrence of each key among its correlatives, and adds no key |
| PlanConverter.ReverseMap | scripts/convert_plan_excel_to_json.py:114-119 | the reverse map has one key per subject ID, each holding the dependents in dictionary order |
| PlanConverter.HitsSpec | scripts/convert_plan_excel_to_json.py:117-119 | the subject is recorded under a key exactly when the key is among its correlatives |
| PlanConverter.DependentsSpec | scripts/convert_plan_excel_to_json.py:114-119 | `reverse_map[q]` holds exactly the subjects with `q` among their correlatives |
| PlanConverter.HitsOnce | scripts/convert_plan_excel_to_json.py:117-119 | with correlatives free of repetitions each subject is recorded at most once |
| PlanConverter.DependentsInOrder | scripts/convert_plan_excel_to_json.py:116-119 | the dependents then come in dictionary order without repetitions |
| PlanConverter.FlattenSpec | scripts/convert_plan_excel_to_json.py:132-134 | the extended list holds exactly the dependents of the children |
| PlanConverter.DedupSpec | scripts/convert_plan_excel_to_json.py:136 | the deduplicated list holds exactly the elements not excluded, each once |
| PlanConverter.GrandchildrenSpec | scripts/convert_plan_excel_to_json.py:130-136 | the grandchildren are exactly the dependents of the children that are not children, each once |
| PlanConverter.Tagged | scripts/convert_plan_excel_to_json.py:127-142 | every ID is written with the same condition, in order |
| PlanConverter.Convert | scripts/convert_plan_excel_to_json.py:70-161 | every written entry has a digit ID; its "to Take" and "to Pass" strings are null together, and so are its "Take for" and "Pass for" strings |
| PlanConverter.BuildEntries | scripts/convert_plan_excel_to_json.py:121-161 | the final loop writes one entry per subject, in order, each from that subject |
| PlanConverter.ConvertSheet | scripts/convert_plan_excel_to_json.py:70-161 | the body of the sheet loop yields the converted entries, or nothing when a code raises |
| PlanConverter.IdsWellFormed | scripts/convert_plan_excel_to_json.py:127-142 | digit IDs with a condition word are entries the viewer's parser accepts (also lib/curriculum-parser.ts:3-19) |
| PlanConverter.JoinedRoundTrip | scripts/convert_plan_excel_to_json.py:127-143 | a written list is null exactly when empty; for entries whose IDs are non-empty, trimmed and free of ',' and whose conditions are trimmed and free of ')', the viewer reads it back as itself (also lib/curriculum-parser.ts:3-19) |
| PlanConverter.TakeAndPass | scripts/convert_plan_excel_to_json.py:126-128 | "Prerequisites to Take" and "to Pass" are null exactly without correlatives, and, when no correlative contains ',', read back as the correlatives tagged Regularizada and Aprobada (also lib/curriculum-parser.ts:3-19) |
| PlanConverter.ReverseListsIds | scripts/convert_plan_excel_to_json.py:114-119 | every ID the reverse map lists is a subject ID |
| PlanConverter.GrandchildrenAreIds | scripts/convert_plan_excel_to_json.py:130-136 | so is every grandchild |
| PlanConverter.ForListsRoundTrip | scripts/convert_plan_excel_to_json.py:138-143 | the dependent lists are null exactly without children or grandchildren, and read back as written (also lib/curriculum-parser.ts:3-19) |
| PlanConverter.TakeForAndPassFor | scripts/convert_plan_excel_to_json.py:130-143 | "Prerequisite to Take for" reads back as the children tagged Regularizada then the grandchildren tagged Aprobada; "to Pass for" as both tagged Aprobada (also lib/curriculum-parser.ts:3-19) |
| PlanConverter.SemesterFromLastHeader | scripts/convert_plan_excel_to_json.py:84-86 | a subject without its own semester gets the semester of the sheet's last header as written, and the header above it in the corrected conversion (also scripts/convert_plan_excel_to_json.py:145-149) |
| PlanConverter.ReadRowsExtends | scripts/convert_plan_excel_to_json.py:75-112 | reading more rows keeps the subjects read so far |
| PlanConverter.IntendedSemester | scripts/convert_plan_excel_to_json.py:84-86 | in the corrected conversion each subject's semester is its own cell or the header in force at its row (also scripts/convert_plan_excel_to_json.py:145-149) |
| PlanConverter.HeaderExample | scripts/convert_plan_excel_to_json.py:84-85 | "N cuatrimestre" is a semester header for semester N |
| PlanConverter.SemesterExample | scripts/convert_plan_excel_to_json.py:145-149 | headers "1 cuatrimestre" and "2 cuatrimestre" around a subject without a semester cell: as written it gets 2, corrected 1 |
| Markdown.LineEnd | app/api/readme/route.ts:13-28 | the end of the first line lies within the text (also scripts/generate-static-content.js:19-21, 33-34) |
| Markdown.LineEndSpec | app/api/readme/route.ts:13-28 | `(.*$)` takes the text up to the first line terminator, or all of it when there is none (also scripts/generate-static-content.js:19-21, 33-34) |
| Markdown.LineEndAt | app/api/readme/route.ts:13-15 | the first line ends at the first terminator (also scripts/generate-static-content.js:19-21) |
| Markdown.MapLinesLine | app/api/readme/route.ts:13-28 | a single line is rewritten by the rule (also scripts/generate-static-content.js:19-21, 33-34) |
| Markdown.MapLinesAppend | app/api/readme/route.ts:13-28 | with the `m` flag each line is rewritten on its own and the terminators are kept (also scripts/generate-static-content.js:19-21, 33-34) |
| Markdown.TagLineUnchanged | app/api/readme/route.ts:13-28 | a line starting with "<" is left alone by every line rule (also scripts/generate-static-content.js:19-21, 33-34) |
| Markdown.NoTerminatorAppend | app/api/readme/route.ts:13-15 | two one-line texts join into one line (also scripts/generate-static-content.js:19-21) |
| Markdown.NoTerminatorSlice | app/api/readme/route.ts:13-15 | a slice of a line is within one line (also scripts/generate-static-content.js:19-21) |
| Markdown.WrapKeepsLine | app/api/readme/route.ts:13-15 | wrapping a line in an element keeps it one line (also scripts/generate-static-content.js:19-21) |
| Markdown.RuleKeepsLine | app/api/readme/route.ts:13-28 | every rule rewrites a line into one line, so later line rules see the same lines (also scripts/generate-static-content.js:19-21, 33-34) |
| Markdown.NotPrefixAt | app/api/readme/route.ts:13-15 | helper of `Markdown.HeadingLine`, `Markdown.ListLine` and `Markdown.TagLineUntouched`: a marker differing from a line at some position is not its prefix (also scripts/generate-static-content.js:19-21) |
| Markdown.PrefixAt | app/api/readme/route.ts:13-15 | a line that starts with a marker agrees with it at each of its positions (also scripts/generate-static-content.js:19-21) |
| Markdown.HeadingLine | app/api/readme/route.ts:13-15 | "### ", "## " and "# " lines become h3, h2 and h1 around the rest of the line; other lines are kept (also scripts/generate-static-content.js:19-21) |
| Markdown.ListLine | app/api/readme/route.ts:27-28 | "- " lines become a bulleted list item; "n. " lines a list item keeping "n. "; other lines are kept (also scripts/generate-static-content.js:33-34) |
| Markdown.CloseAt | app/api/readme/route.ts:18 | a closing `**` found lies within the text (also scripts/generate-static-content.js:24) |
| Markdown.CloseAtOf | app/api/readme/route.ts:18 | the lazy `(.*?)` closes at the first `**` of a one-line text (also scripts/generate-static-content.js:24) |
| Markdown.BoldMatch | app/api/readme/route.ts:18 | `**x**` becomes a strong element around x, for a one-line x without `*` (also scripts/generate-static-content.js:24) |
| Markdown.BoldNone | app/api/readme/route.ts:18 | text without `*` is left alone (also scripts/generate-static-content.js:24) |
| Markdown.LinkAt | app/api/readme/route.ts:21 | a link match has a positive length within the text (also scripts/generate-static-content.js:27) |
| Markdown.ImageAt | app/api/readme/route.ts:24 | an image match has a positive length within the text (also scripts/generate-static-content.js:30) |
| Markdown.NoBracketUnchanged | app/api/readme/route.ts:21-24 | text without "[" has neither links nor images (also scripts/generate-static-content.js:27, 30) |
| Markdown.LinkAtMatch | app/api/readme/route.ts:21 | "[text](href)" at the start of a text is a link of that text and target, with a non-empty text free of "]" and a non-empty target free of ")" (also scripts/generate-static-content.js:27) |
| Markdown.LinkMatch | app/api/readme/route.ts:21 | such a link becomes an `a` element opening in a new tab, and the pass resumes after it (also scripts/generate-static-content.js:27) |
| Markdown.NoCharAppend | app/api/readme/route.ts:21 | helper of `Markdown.LinkHtmlNoBracket` and `Markdown.ImageBecomesLink`: a character absent from two texts is absent from their concatenation (also scripts/generate-static-content.js:27) |
| Markdown.LinkHtmlNoBracket | app/api/readme/route.ts:21 | an `a` element adds no "[" of its own (also scripts/generate-static-content.js:27) |
| Markdown.ImageBecomesLink | app/api/readme/route.ts:21-24 | as written, "![alt](src)" with a non-empty alt becomes "!" and a link, and no img element (also scripts/generate-static-content.js:27, 30) |
| Markdown.LinksSkip | app/api/readme/route.ts:21 | where no link starts, the link pass keeps the first character and goes on (also scripts/generate-static-content.js:27) |
| Markdown.EmptyAltNoLink | app/api/readme/route.ts:21 | the link pass leaves "![](src)" alone, its text being empty (also scripts/generate-static-content.js:27) |
| Markdown.EmptyAltImageMatch | app/api/readme/route.ts:24 | the image pass turns "![](src)" into an img element (also scripts/generate-static-content.js:30) |
| Markdown.EmptyAltImage | app/api/readme/route.ts:21-24 | as written, only an image with an empty alt becomes an img element (also scripts/generate-static-content.js:27, 30) |
| Markdown.ImageAtOfLink | app/api/readme/route.ts:21-24 | "!" followed by a link is an image of the same text and target (also scripts/generate-static-content.js:27, 30) |
| Markdown.ImgHtmlNoBracket | app/api/readme/route.ts:24 | an img element adds no "[" of its own (also scripts/generate-static-content.js:30) |
| Markdown.ImagesFirst | app/api/readme/route.ts:21-24 | with the image pass run before the link pass, "![alt](src)" becomes an img element (also scripts/generate-static-content.js:27, 30) |
| Markdown.ToHtml | app/api/readme/route.ts:11-45 | the header, bold, link, image and list rules run in that order before the paragraph pass; an empty document converts to an empty page (also scripts/generate-static-content.js:17-51) |
| Markdown.Blocks | app/api/readme/route.ts:32-44 | one wrapped block per paragraph, in order (also scripts/generate-static-content.js:38-50) |
| Markdown.PlainBlock | app/api/readme/route.ts:43 | a non-blank paragraph without "<" becomes a p element whose line breaks are `<br/>`, with no newline left (also scripts/generate-static-content.js:49) |
| Markdown.ReplaceCharRemoves | app/api/readme/route.ts:43 | helper of `Markdown.PlainBlock`: replacing a character by text without it removes it (also scripts/generate-static-content.js:49) |
| Markdown.ListBlock | app/api/readme/route.ts:34-39 | a paragraph with a list item and no heading is wrapped in a ul element (also scripts/generate-static-content.js:40-45) |
| Markdown.IndexOfAt | app/api/readme/route.ts:31 | a separator occurring at k and nowhere before is first found at k (also scripts/generate-static-content.js:37) |
| Markdown.FirstBlankLine | app/api/readme/route.ts:31 | the first blank line of `p + "\n\n" + q` is the one after p (also scripts/generate-static-content.js:37) |
| Markdown.ParagraphsStep | app/api/readme/route.ts:31-45 | a paragraph before a blank line is wrapped on its own and joined by "\n" to the rest (also scripts/generate-static-content.js:37-51) |
| Markdown.BlocksCons | app/api/readme/route.ts:44-45 | joining the blocks of a first paragraph and more puts a "\n" after the first (also scripts/generate-static-content.js:50-51) |
| Markdown.ParagraphsOne | app/api/readme/route.ts:31-45 | text with no blank line is a single paragraph (also scripts/generate-static-content.js:37-51) |
| Markdown.TagLineUntouched | app/api/readme/route.ts:18-28 | a line that is an element without `*` or "[" passes bold, links, images and lists unchanged (also scripts/generate-static-content.js:24-34) |
| Markdown.H1Plain | app/api/readme/route.ts:15 | an h1 around a plain line is such an element (also scripts/generate-static-content.js:21) |
| Markdown.H1Block | app/api/readme/route.ts:31-36 | an h1 element without a newline is a paragraph kept as it is (also scripts/generate-static-content.js:37-42) |
| Markdown.HeadingDocument | app/api/readme/route.ts:11-45 | a document that is one "# " line of plain text converts to exactly that h1 element (also scripts/generate-static-content.js:17-51) |
| Markdown.PrefixAtOwn | app/api/readme/route.ts:13-15 | a "# " line is not an h2 or h3 line (also scripts/generate-static-content.js:19-21) |

## Left out

- Rendering: JSX, Tailwind classes, legends, modals, logo and developer information are presentation only.
- DOM events: zoom, pan, wheel, mouse and touch handlers, and node dragging in the browser. Only the state change of a drag (`Page.Drag`) is modelled.
- The Bezier path of a connection, which needs `Math.tan`, and the bottom bar's percentage with `toFixed`. Both are floating point.
- React state, `useMemo` and `useEffect`. The wrapped computations are plain functions over node sequences.
- The zod schemas in lib/models, which wrap a library outside the repository; the datatypes come from types/curriculum.ts. next.config.js and app/layout.tsx are not part of this model.
- I/O: the request's form data and the file checks that answer 400 or 500, the XLSX reader, reading the template plan file, the `fetch` of the page, the README reads and writes, pandas, openpyxl, the LibreOffice fallback, and printing. The route takes the sheet as rows of cells and the template as a parameter, with an empty template when none loads. scripts/excel_to_json.py is not part of this model.
- Grades are exact `real` numbers. `parseFloat` and `float` are taken to give the decimal's exact value, so rounding to binary floating point is not modelled, and neither is the rounding in the average grade.
- PlanConverter.ConvertSheet: "Credits" is the credits cell as read. The `float(cred_raw)` and `f"{cred_val:.2f}"` formatting (scripts/convert_plan_excel_to_json.py:93-97) is floating point.
- The converter's column detection and header-row choice (scripts/convert_plan_excel_to_json.py:55-69) are not modelled. The rows are given already projected onto the code, course, correlatives, credits and semester columns, and a sheet without those columns is not modelled.
- A pandas cell is missing, text or a whole number. Fractional numeric cells, and codes such as "+12" or "1_000" that Python's `int` accepts, are left out.
- Character classes: digits are ASCII '0' to '9', although Python's `\d` and `isdigit` also accept other Unicode digits. Trimming, and the `\s*` of the course pattern (parse_plan_estudios.py:164, app/api/parse-plan/route.ts:139), use JavaScript's white-space set in both languages; Python's `strip` and `\s` differ from it on U+001C to U+001F and U+0085, which Python counts as white space, and on U+FEFF, which it does not. Lower- and upper-casing cover ASCII and the Spanish accented letters only.
- `parseInt` is modelled on unbounded integers: the `Infinity` of a number too long for a double is not modelled.
- PlanConverter.TakeAndPass: the read-back is promised only when no correlative contains ','. The converter splits the correlatives cell on ';' alone (scripts/convert_plan_excel_to_json.py:102), so a cell "1,2" gives the correlative "1,2" and the string "(1,2, Regularizada)". The viewer's parser reads that back as the ID "1" with the condition "2, Regularizada", which no status meets, so a subject 1 in the plan blocks it (`StatusEngine.UnknownConditionBlocks`).
- PlanConverter.Grandchildren: Python's `set` gives the grandchildren in an unspecified order. The model keeps them in order of first appearance and states only which IDs appear, each once.
- GraphView.Semesters: when a text-year key is present the sort comparator returns NaN, and the order of the semester array is then left to the JavaScript engine. The model keeps the numeric keys sorted and the text keys as a set. The headers are placed absolutely, so what is drawn does not depend on that order.
- GraphView.TextKeysOf: the header a text key draws, labelled "undefined Cuatrimestre" at a NaN `left`, is not a `Header` of the model. Only its key, and the column it adds before the electives header, are modelled. A text year that spells a number (the text "3") shares the numeric year's key string `3-1` in the source's `Set`; the model keeps the two keys apart.
- GraphViewLegacy.SameArrowsDrawn: the newer view hands its reduced list to an arrow layer in components/curriculum/connection/connections.tsx, which is not part of this model. The lemma assumes that layer deduplicates and reduces what it is given, as components/connections.tsx does. `Connections.DisplayOfReduced` shows that this second reduction changes nothing.
- UploadRoute.TrimCells: the rows are the texts that `String(cell || '')` gives for the sheet's raw cells, so a blank cell, a numeric 0 and `false` all arrive as "". A raw numeric 0 in the Year column therefore gives Year 1, and one in the Credits column gives "0.00", as in the source. Raw cell values other than text are not modelled.
- Semesters are `Option<nat>`. A fractional or negative semester, which the views' `${year}-${semester}` keys would mangle, is not modelled.
- Markdown: the elements are written without their `class` attributes. These hold no `*`, `[`, line terminator or tag name, so no pass behaves differently with them. The two source files carry the same chain, so one definition (`Markdown.ToHtml`) models both, and their agreement holds by construction.
- SubjectInfo.CanTakeFinal has no contract of its own: the source defines it with the same body as `canTakeSubject`, and the model defines it as `CanTakeSubject`, so every lemma about one is about the other.
- The Python reader's course record also carries `_debug_nota`, `_debug_origen` and four prerequisite fields that are always None. These are constants of the output and are not modelled.

## Findings

| source | as written | input that shows it | evidently intended | confidence | as-written member | corrected member |
|---|---|---|---|---|---|---|
| scripts/convert_plan_excel_to_json.py:149 | a subject without a text semester cell gets `current_semester`, read after the row loop has ended, so it gets the sheet's last semester header | a "1 cuatrimestre" header, a subject row with an empty Sem. cell, then a "2 cuatrimestre" header: the subject gets semester 2 | the semester header in force at the subject's row, as the header detection at lines 84-86 sets it | not executed | PlanConverter.SemesterFromLastHeader, PlanConverter.SemesterExample | PlanConverter.IntendedSemester (on PlanConverter.ConvertIntended) |
| app/api/readme/route.ts:21-24; scripts/generate-static-content.js:27-30 | the link rule runs before the image rule, so an image `![alt](src)` with a non-empty alt becomes "!" followed by a link, and only an empty alt gives an img element | `![TS](ts.svg)` becomes `!<a href="ts.svg" ...>TS</a>` | an img element for every image, as the rule's comment "Images (for skill icons)" says | not executed | Markdown.ImageBecomesLink | Markdown.ImagesFirst (on Markdown.ToHtmlImagesFirst) |

The rest of the model keeps the code as written: `Markdown.ToHtml` runs links first, and `PlanConverter.Convert` uses the last header.
