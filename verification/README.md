# Query engine: a Dafny model with proofs

The query engine turns query text into tokens, the tokens into expression trees, checks
and evaluates the trees, orders the steps of a plan by their dependencies and runs them,
with a cache and scoped variables beside it. This project models those parts and proves
what they promise. `dafny verify dfyconfig.toml` checks everything.

| files | what they model |
|---|---|
| `Cache`, `CacheSpec`, `CacheTheorems`, `CacheHistory`, `Eviction` | the query cache: entries on a doubly linked list beside a map and counters, refined to a plain recency list; properties of all runs, told from their events; what the eviction loop drops and when it ends |
| `Graphs`, `PlanGraph` | dependency relations, walks and cycles; building the step graph |
| `KahnSort`, `DepthFirstSort`, `CycleDetector`, `DependencyResolver` | the four separately written orderings and cycle tests |
| `ParallelGroups`, `LevelFacts`, `CallStack`, `LongestPath`, `CriticalCost` | level grouping, when the memoised recursion returns, longest chain, costliest chain and its estimate |
| `Agreement` | the analyses above run on one plan and compared |
| `NestedSteps`, `NestedResults`, `Executor`, `CachedRun` | steps inside steps and the results they leave, execution order, run loop and what the cache answers in it |
| `ExprSyntax`, `ExprGrammar`, `ExprComplete`, `Parser`, `Precedence`, `ExprPrinter` | the expression parser over its cursor, its grammar both ways, how operators group, printing with the fewest parentheses |
| `LexSpec`, `Lexer`, `SourceText`, `Spellings`, `Unescape` | the lexer, how tokens are spelled, string escaping and its undoing, and the way from tree to source text and back |
| `TypeCheck`, `FilterMeaning` | type inference against evaluation, the WHERE filter, and what conditions mean for the rows |
| `EditDistance` | the Levenshtein matrix against edit scripts |
| `JoinSpec`, `JoinOrder`, `HashJoin` | the indexed joins against the nested loop, and which rows come out in which order |
| `Bits`, `IPv6`, `IPv6Text` | IPv6 parsing, prefix arithmetic and the textual forms |
| `FlatObjects` | flattening objects to dotted paths and back |
| `ScopeSpec`, `Scopes` | scope chains and the execution context against a stack of frames |
| `Csv` | writing and reading a CSV row |
| `Seqs`, `JsMaps`, `Strings` | sequences without repetition, the insertion-ordered `Map`, characters, `split` and `join` |

How things are represented:

- What the source mutates is a class or a loop: the cache, the visitors of the graph
  searches, the parser, the lexer, the scopes and the execution context. Each method is tied
  to a function on plain values, and the theorems are about that function.
- A JavaScript `Map` is a map with its insertion order. A thrown error is `None`, `Throws`,
  `ParseError` or a `false` result, without its message.
- A string is the sequence of its UTF-16 code units. Dafny has no surrogate characters, so the
  code unit 0xD800 + n is written as U+10F800 + n; nothing is normalised. Costs are non-negative reals,
  sizes and counters unbounded integers, and `await` is sequential.
- The clock, how many nested calls fit on the stack (one that does not is `None`), the size
  estimate, the outcomes of steps, the conversions and built-in functions of the evaluator,
  and the text `parseFloat` reads are parameters, so every theorem holds for all of them.

Where the code differs from what one would expect, the model follows the code, and a
theorem says exactly when it still does the right thing:

- The eviction loop of the cache never ends when the key "" has to go (`EvictsShortestPrefix`,
  `StuckForever`, `StuckInput`).
- Critical path and time estimate recurse without a test for cycles: they return exactly when
  none is led into, however large the stack (`ReturnsExactly`, `WalkNeedsNoCycle`).
- A critical path is cut short at a step named "" (`CutOffExactly`, `CutOffInput`).
- Unescaping an escaped string mistakes a letter behind a backslash for an escape
  (`UnescapeEscaped`, `UnescapeInput`).
- A right join repeats every matched right row (`RightJoinOnlyWithoutMatches`,
  `RightJoinInput`).
- A sum can be typed Number and yield a string (`PreservationExactly`, `DoubtfulSumFails`).
- An IPv6 "::" directly before a dotted quad is never understood (`MixedCompressedForm`).
- Flattening and back loses empty nested objects, dotted keys, the key `__proto__` and some
  empty keys (`FlattenRoundTrip`, `PrototypeInput`).
- An empty CSV row is read as one empty field (`RowRoundTrip`).
- Only levels of at least two steps are reported as parallel groups (`FindParallelGroups`).

## Model

| member | source | states |
|---|---|---|
| `Cache.QueryCacheManager.AddToFront` | `query-engine/state/cache-manager.ts:338-351` | The list from `head` (next pointers, inverse prev pointers, `tail`) becomes the old one with the entry in front |
| `Cache.QueryCacheManager.RemoveFromList` | `query-engine/state/cache-manager.ts:366-381` | The list becomes the old one without that node, still properly linked both ways, and the node is detached |
| `Cache.QueryCacheManager.MoveToFront` | `query-engine/state/cache-manager.ts:356-361` | The list becomes the node followed by the others in their old order |
| `Cache.QueryCacheManager.Get` | `query-engine/state/cache-manager.ts:101-130` | The pointers, map and counters stay consistent and stand for the recency-list state after a read: a live entry is promoted and counted as a hit, an expired one is dropped, anything else is a miss |
| `Cache.QueryCacheManager.EvictUntilFits` | `query-engine/state/cache-manager.ts:150-158` | The eviction loop ends with room for the entry; where it goes round for ever, the state is one that another eviction leaves unchanged |
| `Cache.QueryCacheManager.Set` | `query-engine/state/cache-manager.ts:135-169` | The linked structure refines replacing the old entry, evicting until there is room and inserting in front; failing to return is told apart, exactly |
| `Cache.QueryCacheManager.Has` | `query-engine/state/cache-manager.ts:174-182` | Presence of a live entry; an expired one is deleted on the way, nothing else changes |
| `Cache.QueryCacheManager.DeleteKey` | `query-engine/state/cache-manager.ts:187-202` | Removes the entry from map, list and counters together, and says whether there was one |
| `Cache.QueryCacheManager.Clear` | `query-engine/state/cache-manager.ts:207-213` | Map, list, size and count are emptied; the hit, miss and eviction counters survive |
| `Cache.QueryCacheManager.Cleanup` | `query-engine/state/cache-manager.ts:239-248` | The linked structure refines deleting the expired entries one by one, and returns how many there were |
| `Cache.QueryCacheManager.EvictOne` | `query-engine/state/cache-manager.ts:263-289` | Evicts the victim of the policy from map, list and counters; a victim called "" is never evicted |
| `Cache.QueryCacheManager.FindLeastKey` | `query-engine/state/cache-manager.ts:304-333` | The first key, in map order, whose access count (LFU) or creation time (FIFO) is least |
| `Cache.QueryCacheManager.FindKeyForEntry` | `query-engine/state/cache-manager.ts:294-299` | Finds the key of an entry that is held, and nothing for any other |
| `CacheTheorems.GetInv` | `query-engine/state/cache-manager.ts:101-130` | A read keeps the invariant tying recency list, map and counters, and removes a key only if it has expired |
| `CacheTheorems.SetInv` | `query-engine/state/cache-manager.ts:135-169` | A returning `set` keeps the invariant and ends within the limits, or holding one oversized entry alone |
| `CacheTheorems.CleanupInv` | `query-engine/state/cache-manager.ts:239-248` | Cleaning up keeps the invariant |
| `CacheTheorems.AllRunsBounded` | `query-engine/state/cache-manager.ts:135-202` | After every run of the six operations `currentSize` is the sum of the sizes held, `entryCount` the number of entries, and the limits hold except for a single oversized entry |
| `CacheTheorems.RunsTerminate` | `query-engine/state/cache-manager.ts:150-158` | Under all three policies a run whose keys are non-empty never gets stuck in the eviction loop |
| `Eviction.EvictsShortestPrefix` | `query-engine/state/cache-manager.ts:135-158` | Under every policy the loop drops exactly the shortest prefix of the eviction order that makes room, and ends exactly when the key "" is not in it; both are read off the state before |
| `Eviction.SetReturns` | `query-engine/state/cache-manager.ts:135-169` | A `set` returns exactly when the key "" is not among the entries it would have to evict |
| `Eviction.StuckForever` | `query-engine/state/cache-manager.ts:150-158` | A `set` does not return exactly when its loop guard holds after every number of evictions; it then gets as far as "" in the eviction order and stays there |
| `Eviction.StuckInput` | `query-engine/state/cache-manager.ts:284-288` | Two calls, with the keys "" and "a", after which a cache for one entry never answers, whatever the policy |
| `Eviction.OrderIsQueued` | `query-engine/state/cache-manager.ts:304-333` | The eviction order lists every key once: by last use under LRU, otherwise by score and, among equals, by age in the map |
| `CacheTheorems.LruDropsShortestTail` | `query-engine/state/cache-manager.ts:150-158` | LRU eviction drops exactly the shortest tail of the recency list that makes room, and returns exactly when "" is not on that tail |
| `CacheTheorems.RecencyIsHistory` | `query-engine/state/cache-manager.ts:101-130` | After every run the list from head to tail is ordered by last hit or insert, read off the history of the run alone |
| `CacheHistory.HeldIsStored` | `query-engine/state/cache-manager.ts:135-169` | After every run the record of a key is that of its last `set`: value, size, creation and expiry by the given or default time to live capped by maxTTL; its access count is the number of reads of the key answered since then, its access time that of the last of them |
| `CacheHistory.KeysBySet` | `query-engine/state/cache-manager.ts:135-169` | The map lists its keys in the order in which they were last stored |
| `CacheHistory.LfuEvictsLeastUsed` | `query-engine/state/cache-manager.ts:304-316` | Under LFU the loop of a `set` evicts, of the keys it does not replace, those with the fewest answered reads since they were stored, the oldest first among equals, and only as many as needed |
| `CacheHistory.StatsAreHistory` | `query-engine/state/cache-manager.ts:101-130` | Hits and misses count the answered and unanswered reads of the whole run, and the hit rate is their ratio |
| `CacheHistory.HasAgrees` | `query-engine/state/cache-manager.ts:174-182` | `has` says yes exactly when a read would be answered, with the value on record before its expiry |
| `Eviction.FifoEvictsInInsertionOrder` | `query-engine/state/cache-manager.ts:321-333` | Under a clock that never runs back the eviction loop of FIFO drops the entries inserted first, no more than needed, in every reachable state |
| `CacheTheorems.SetThenGet` | `query-engine/state/cache-manager.ts:101-169` | A stored value is returned until its time to live, given or by default, or maxTTL has passed, and not after that |
| `CacheTheorems.CleanupExact` | `query-engine/state/cache-manager.ts:239-248` | Cleaning up removes the expired entries and no others, and counts them |
| `PlanGraph.Build` | `query-engine/planner/dependency-graph.ts:14-55` | The graph has the dependencies of the last step of each id, dependents are their exact inverse, roots and leaves are the steps without dependencies and without dependents |
| `KahnSort.InDegrees` | `query-engine/utils/array-utils.ts:457-467` | Every node starts with as many pending dependencies as its list is long, duplicates included |
| `KahnSort.Discharge` | `query-engine/utils/array-utils.ts:483-492` | Discharging a node lowers exactly its dependents and queues exactly those that become ready, once each |
| `KahnSort.TopologicalSort` | `query-engine/utils/array-utils.ts:453-504` | When every edge key is a node: returns exactly when nodes are distinct, dependency lists are duplicate-free and inside the nodes, and there is no cycle; the result is a permutation with dependencies first |
| `DepthFirstSort.Sorter.Visit` | `query-engine/planner/dependency-graph.ts:65-83` | Keeps the finished nodes in dependency order and the open ones a walk; throws only on a cycle |
| `DepthFirstSort.TopologicalSort` | `query-engine/planner/dependency-graph.ts:60-95` | Throws exactly on graphs with a dependency cycle; otherwise all ids mentioned come out, dependencies first |
| `DepthFirstSort.HasCycles` | `query-engine/planner/dependency-graph.ts:149-156` | True exactly when some step depends on itself through a chain of dependencies |
| `CycleDetector.Detector.Dfs` | `query-engine/planner/execution-plan.ts:371-399` | The path is restored, visited steps grow, and finished steps depend on finished ones only while nothing has been reported |
| `CycleDetector.DetectCircularDependencies` | `query-engine/planner/execution-plan.ts:366-407` | Reports something exactly when there is a dependency cycle, and everything reported is one |
| `DependencyResolver.DependencyResolver.AddDependency` | `query-engine/planner/dependency-resolver.ts:41-54` | Replaces what is known of the id, duplicates dropped, and makes it the provider of what it provides, changing no other provider |
| `DependencyResolver.Resolver.Visit` | `query-engine/planner/dependency-resolver.ts:193-227` | Keeps the resolution state: the path is a dependency walk, reports are genuine, and the id is dealt with afterwards |
| `DependencyResolver.DependencyResolver.Resolve` | `query-engine/planner/dependency-resolver.ts:186-237` | `ordered` is always a permutation of the ids; `cycles` is non-empty exactly when there is a cycle and holds only cycles; `unresolved` is exactly the unknown requirements; with both empty the order is a dependency order |
| `Agreement.CompareCycleTests` | `query-engine/planner/dependency-graph.ts:149-156` | On closed duplicate-free plans Kahn sort, depth-first sort, the cycle report and the resolver all agree with the existence of a cycle |
| `Agreement.CompareMeasures` | `query-engine/planner/dependency-graph.ts:161-273` | On one acyclic plan: critical path cost equals the parallel time estimate, both are the greatest cost of a chain, and the number of levels is the length of the longest chain |
| `Graphs.TopologicalIsAcyclic` | `query-engine/utils/array-utils.ts:496-501` | A relation that has a dependency order has no cycle |
| `Graphs.StuckSetHasCycle` | `query-engine/utils/array-utils.ts:496-501` | If every one of some nodes waits for another of them there is a cycle, so leftovers of a sort prove one |
| `ParallelGroups.FindParallelGroups` | `query-engine/planner/dependency-graph.ts:100-144` | Terminates on every graph, cyclic ones included, and reports, in order, exactly the levels of at least two steps, each step once |
| `LevelFacts.GroupsAreWideLevels` | `query-engine/planner/dependency-graph.ts:119-124` | The groups reported are the levels with at least two steps, in their order and none left out |
| `LevelFacts.LevelsDisjoint` | `query-engine/planner/dependency-graph.ts:100-144` | No step is in two levels, with or without cycles |
| `LevelFacts.LevelMembersIndependent` | `query-engine/planner/dependency-graph.ts:100-144` | No step of a level reaches another (or itself) through dependencies |
| `LevelFacts.LevelsCover` | `query-engine/planner/dependency-graph.ts:100-144` | The levels hold every step exactly when the graph is closed and acyclic |
| `LevelFacts.WalkDrops` | `query-engine/planner/dependency-graph.ts:119-141` | Along every dependency walk the level drops at least by one a step |
| `LevelFacts.LevelCountIsLongestChain` | `query-engine/planner/execution-plan.ts:540-581` | There are as many levels as the longest dependency chain has steps |
| `CallStack.ReturnIsSafe` | `query-engine/planner/execution-plan.ts:543-568` | A call that returns, on whatever stack, started at an id that does not lead into a cycle, and so did all it memoised |
| `CallStack.SafeReturns` | `query-engine/planner/execution-plan.ts:543-568` | A call at an id that does not lead into a cycle returns as soon as there is room for every step not already on the stack |
| `CallStack.ReturnsExactly` | `query-engine/planner/execution-plan.ts:540-581` | Given room for every step, the whole recursion returns exactly when none of the ids it starts from leads into a cycle |
| `CallStack.CycleIsLedInto` | `query-engine/planner/execution-plan.ts:543-568` | There is a cycle exactly when some step leads into one |
| `LongestPath.PathMemo.Dfs` | `query-engine/planner/execution-plan.ts:543-568` | What is memoised is a longest chain ending in the step; the call returns, and memoises these ids in this order, exactly when a walk defined on the relation alone fits on the stack |
| `LongestPath.FindCriticalPath` | `query-engine/planner/execution-plan.ts:540-581` | With room on the stack for every step it returns exactly when no leaf leads into a cycle, and overflows any stack otherwise; the path is a longest of the chains ending in a leaf, and on an acyclic graph a longest of all chains |
| `CriticalCost.WalkNeedsNoCycle` | `query-engine/planner/dependency-graph.ts:165-189` | Started from every step, the recursion returns only on acyclic graphs, on those it returns given room for every step, and it memoises every step |
| `CriticalCost.OrderAtAnyDepth` | `query-engine/planner/dependency-graph.ts:165-189` | The order in which costs are memoised is the same on every stack on which the recursion returns |
| `CriticalCost.CostMemo.CalculateCost` | `query-engine/planner/dependency-graph.ts:165-188` | The memoised cost of a step is the cost of the heaviest chain ending in it, whatever the graph; when the call returns and in which order it memoises is a walk on the relation alone |
| `CriticalCost.CostMemo.CalculateStartTime` | `query-engine/planner/dependency-graph.ts:237-258` | Start time plus own cost is the cost of the heaviest chain ending in the step; it returns when that walk does |
| `CriticalCost.GetCriticalPath` | `query-engine/planner/dependency-graph.ts:161-228` | The path is the greedy trace behind its last step named ""; it is a costliest chain exactly when the trace, which depends on the graph alone, has no such step; given room for every step it returns exactly on acyclic graphs |
| `CriticalCost.GreedyTraceIsCostliest` | `query-engine/planner/dependency-graph.ts:191-225` | Going back from the first dearest step to the first dearest dependency at each step yields a costliest of all chains |
| `CriticalCost.CutOffExactly` | `query-engine/planner/dependency-graph.ts:205-225` | What is left behind a step named "" is a costliest chain exactly when there is no such step on the trace |
| `CriticalCost.CutOffInput` | `query-engine/planner/dependency-graph.ts:191-225` | A valid, acyclic graph with non-negative costs for which the path is cut: "" of cost 1 and "a" of cost 1 that depends on it yield "a" alone, which is not a costliest chain |
| `CriticalCost.EstimateParallelExecutionTime` | `query-engine/planner/dependency-graph.ts:233-273` | The estimate is the greatest total cost of any dependency chain; given room for every step it returns exactly on acyclic graphs |
| `Executor.GetExecutionOrder` | `query-engine/executor/executor.ts:1119-1139` | A dependency order and a permutation of the ids when the plan is sortable, otherwise the order of the plan |
| `NestedSteps.ExecuteStep` | `query-engine/executor/executor.ts:187-328` | A container succeeds exactly when everything it tries does; what it writes are the results of the steps inside it, up to the first failure |
| `NestedSteps.ExecuteInOrder` | `query-engine/executor/executor.ts:499-570` | Inner steps in order, each result recorded, stopping at the first failure |
| `NestedSteps.ExecuteTogether` | `query-engine/executor/executor.ts:782-804` | All inner steps are tried, then their results are recorded up to the first failure |
| `NestedSteps.WritesInside` | `query-engine/executor/executor.ts:499-570` | A step writes only under the ids inside it, and a step that succeeds leaves only successes |
| `NestedResults.ContainerEnds` | `query-engine/executor/executor.ts:499-570` | A container of steps succeeds exactly when all its inner steps do, and then yields its data |
| `NestedResults.InnerResult` | `query-engine/executor/executor.ts:782-830` | Under the id of an inner step stands how that step ended, provided that all inner steps before it succeeded; otherwise what stood there before. For steps in order and steps together, with ids not used elsewhere inside |
| `NestedResults.SingleResult` | `query-engine/executor/executor.ts:499-570` | The same at any depth: an id that occurs once inside gets exactly the result that is recorded for it, or keeps what it had |
| `NestedResults.RunKeepsInner` | `query-engine/executor/executor.ts:100-142` | The results of a run hold, for every executed step, what is recorded inside it, and nothing under the ids of inner steps that never had their turn |
| `Executor.Execute` | `query-engine/executor/executor.ts:88-182` | Steps end as the cache or their execution says, in order, up to the first failure; success means every result, nested ones included, is a success and every step of the plan has one; results, hits, misses and cache are accounted for exactly |
| `Executor.RecordSucceeds` | `query-engine/executor/executor.ts:100-142` | As long as no step fails, no result on record is a failure, whatever steps inside steps wrote |
| `Executor.RecordKeys` | `query-engine/executor/executor.ts:100-142` | Every step started has a result, and any other result belongs to a step inside an executed step |
| `Executor.RecordKeepsOwn` | `query-engine/executor/executor.ts:131-133` | A step keeps the result it ended with unless a step inside a step has the same id |
| `Executor.SortedRun` | `query-engine/executor/executor.ts:100-142` | In a sorted run a step starts only when each dependency has ended with success and a success stands under its id; no step of the plan starts twice |
| `Executor.OnlySuccessIsCached` | `query-engine/executor/executor.ts:131-136` | Nothing leaves the cache, and whatever is new in it is the data of a successful step under its own key |
| `CachedRun.CacheIsHeld` | `query-engine/executor/executor.ts:109-138` | At each step a cache key holds what the latest successful execution before it stored under that key, or what the cache held before the run |
| `CachedRun.HitsExactly` | `query-engine/executor/executor.ts:105-133` | The cache answers a step exactly when its plan entry is cacheable under a non-empty key that then holds something truthy, and the step ends with that |
| `CachedRun.MissesExactly` | `query-engine/executor/executor.ts:109-129` | The misses are the executed steps whose plan entry is cacheable under a non-empty key |
| `Parser.Parser.ParseExpression` | `query-engine/parser/parser.ts:566-568` | The cursor ends where the grammar says, with the tree the tokens denote, or the parse fails where the grammar has no reading; the cursor never passes EOF |
| `Parser.Parser.ParseLevel` | `query-engine/parser/parser.ts:573-723` | Each binary level reads a left-associative chain of its own operators over the next level |
| `Parser.Parser.ParseUnary` | `query-engine/parser/parser.ts:728-740` | NOT and minus apply to the whole unary expression behind them |
| `Parser.Parser.ParseCall` | `query-engine/parser/parser.ts:745-769` | A call is read only on an identifier |
| `Parser.Parser.ParseItems` | `query-engine/parser/parser.ts:774-784` | The comma-separated expressions up to the closing token, which is left for the caller |
| `Parser.Parser.ParseMember` | `query-engine/parser/parser.ts:789-820` | Dots and brackets after a primary expression, left to right |
| `Parser.Parser.ParsePrimary` | `query-engine/parser/parser.ts:825-898` | Literals, arrays, objects, parentheses and identifiers; anything else fails |
| `Parser.Parser.ParseObjectLiteral` | `query-engine/parser/parser.ts:903-922` | Keys with values up to the closing brace |
| `ExprGrammar.ReadExpr` | `query-engine/parser/parser.ts:566-898` | Soundness: what is read is a well-formed text of the tree, spelled exactly by the tokens consumed, and the next token cannot continue it |
| `Precedence.ChainsGroup` | `query-engine/parser/parser.ts:573-723` | Operands joined by any number of operators parse to the tree with the last operator of the loosest of the seven classes at its root, and so on to both sides; the classes are listed literally |
| `Precedence.ThreeOperands` | `query-engine/parser/parser.ts:573-723` | a op1 b op2 c is a op1 (b op2 c) exactly when op2 stands in a later class than op1, otherwise (a op1 b) op2 c, for all operators and all operands without a bare operator |
| `Precedence.PrefixBindsTighter` | `query-engine/parser/parser.ts:728-740` | NOT and minus apply before any binary operator, on either side of it |
| `Precedence.MemberBindsTighter` | `query-engine/parser/parser.ts:728-820` | Members are taken before NOT and minus apply |
| `Precedence.IndexIsText` | `query-engine/parser/parser.ts:801-813` | A literal in brackets names the member by its text, anything else by the empty text |
| `Precedence.CallText` | `query-engine/parser/parser.ts:745-784` | A call has its arguments in order, and nothing can be taken of it without parentheses |
| `Precedence.ListText` | `query-engine/parser/parser.ts:859-875` | An array has its elements in order |
| `Precedence.ObjectText` | `query-engine/parser/parser.ts:903-922` | An object has its properties in order |
| `Precedence.AtomText` | `query-engine/parser/parser.ts:825-898` | Tokens that are operands by themselves, and parentheses around anything |
| `ExprComplete.ReadsExactlyTheGrammar` | `query-engine/parser/parser.ts:566-898` | Soundness and completeness in one: a reading exists exactly for the well-formed texts, and is that text |
| `ExprPrinter.MinimalIsRight` | `query-engine/parser/parser.ts:566-898` | Printing with the fewest parentheses gives a well-formed text that denotes the tree |
| `ExprPrinter.NoShorterText` | `query-engine/parser/parser.ts:566-898` | No well-formed text of the same tree is shorter, so the precedence and associativity of the parser need every parenthesis printed |
| `ExprPrinter.PrintThenParse` | `query-engine/parser/parser.ts:566-898` | Every tree is printed and parsed back to itself, with the cursor on the first token behind it |
| `ExprPrinter.ParsedTreesRoundTrip` | `query-engine/parser/parser.ts:566-898` | Whatever parses can be printed and parsed again to the same tree |
| `Lexer.Lexer.Tokenize` | `query-engine/lexer/tokenizer.ts:29-43` | The tokens of the whole input with comments left out and EOF last, or an error |
| `Lexer.Lexer.NextToken` | `query-engine/lexer/tokenizer.ts:48-87` | One token behind skipped whitespace; the position moves over exactly its text |
| `Lexer.Lexer.ScanString` | `query-engine/lexer/tokenizer.ts:92-119` | The value of the literal with its escapes decoded, or an error when it does not end |
| `Lexer.Lexer.ScanEscapeSequence` | `query-engine/lexer/tokenizer.ts:124-172` | One decoded character; four hexadecimal digits are needed behind a u |
| `Lexer.Lexer.ScanNumber` | `query-engine/lexer/tokenizer.ts:177-235` | Number, duration or byte count: the longest numeral with its unit |
| `Lexer.Lexer.ScanMultiLineComment` | `query-engine/lexer/tokenizer.ts:354-378` | The text up to the first end mark, or to the end of the input |
| `LexSpec.BlockText` | `query-engine/lexer/tokenizer.ts:354-378` | The longest text without an end mark: one follows it unless the input ends |
| `Strings.CodeUnitsDiffer` | `query-engine/lexer/tokenizer.ts:162-172` | Every code unit, surrogates included, is a character of its own |
| `LexSpec.OnlyStringsFail` | `query-engine/lexer/tokenizer.ts:29-172` | A text without quote characters always lexes |
| `SourceText.EscapeOne` | `query-engine/utils/string-utils.ts:11-21` | The eight successive replacements do not disturb each other: together they act character by character |
| `Spellings.EscapeLetters` | `query-engine/utils/string-utils.ts:11-21` | The letter written behind the backslash for each of the eight characters that are escaped |
| `Spellings.EscapesWhatNeedsIt` | `query-engine/utils/string-utils.ts:11-21` | Escaping leaves a text as it is exactly when it holds none of those characters |
| `Spellings.EscapedIsPlain` | `query-engine/utils/string-utils.ts:11-21` | An escaped text holds no control character of these and no quote but behind a backslash |
| `Spellings.ReadsCodeUnit` | `query-engine/lexer/tokenizer.ts:162-172` | Four hexadecimal digits of either case behind u read as the code unit they spell |
| `Spellings.ReadsLetter` | `query-engine/lexer/tokenizer.ts:124-157` | A backslash before any other character stands for that character |
| `Spellings.ScansUnit` | `query-engine/lexer/tokenizer.ts:205-232` | A numeral with ms, s, m or h directly behind it is one duration, with KB, MB or GB one byte count |
| `Spellings.ScansAnyCase` | `query-engine/lexer/tokenizer.ts:237-254` | The word operators, NOT, NULL, TRUE and FALSE are read in any mixture of cases |
| `Spellings.ScansOperatorSign` | `query-engine/lexer/tokenizer.ts:259-328` | The twelve operator signs are read as those operators |
| `Spellings.ScansMarkSign` | `query-engine/lexer/tokenizer.ts:259-328` | Brackets, comma, dot and colon are read as such |
| `Spellings.LineCommentIsSkipped` | `query-engine/lexer/tokenizer.ts:334-349` | A comment up to the end of its line is as if it were not there |
| `Spellings.BlockCommentIsSkipped` | `query-engine/lexer/tokenizer.ts:354-378` | A comment between its marks is as if it were not there |
| `Unescape.AllAtOnce` | `query-engine/utils/string-utils.ts:26-37` | The first eight of the nine successive replacements act at once, left to right; only the escaped backslash needs a pass of its own |
| `Unescape.UnescapeEscaped` | `query-engine/utils/string-utils.ts:11-37` | For every string and either quote: unescaping the escaped string turns each n, r, t, f, v or 0 directly behind a backslash into its control character and keeps all else; it gives the string back exactly when there is none |
| `Unescape.UnescapeInput` | `query-engine/utils/string-utils.ts:26-37` | A backslash and the letter n, escaped and unescaped, become a backslash and a line feed |
| `SourceText.ScansEscaped` | `query-engine/lexer/tokenizer.ts:92-157` | Scanning undoes escaping, whatever follows the closing quote |
| `SourceText.StringRoundTrip` | `query-engine/utils/string-utils.ts:11-21` | For every string and either quote, lexing quote, escaped string, quote gives one STRING token with that value and EOF |
| `SourceText.WriteThenLex` | `query-engine/lexer/tokenizer.ts:29-87` | Spelled tokens with single spaces between them lex back to the same tokens and EOF |
| `SourceText.SourceRoundTrip` | `query-engine/parser/parser.ts:566-898` | From tree to source text and back: printing, lexing and parsing gives the tree again |
| `EditDistance.LevenshteinDistance` | `query-engine/utils/string-utils.ts:387-413` | The last cell of the matrix is the least cost of any script of edits turning one text into the other |
| `EditDistance.DistanceIsLeast` | `query-engine/utils/string-utils.ts:387-413` | Some script has the computed cost and none is cheaper |
| `EditDistance.NoCheaperScript` | `query-engine/utils/string-utils.ts:400-409` | No script is cheaper than the recurrence says, although matching characters take a shortcut |
| `EditDistance.Symmetric` | `query-engine/utils/string-utils.ts:387-413` | The distance is symmetric |
| `EditDistance.ZeroOnlyWhenEqual` | `query-engine/utils/string-utils.ts:387-413` | It is zero exactly for equal texts |
| `EditDistance.TriangleInequality` | `query-engine/utils/string-utils.ts:387-413` | It obeys the triangle inequality, by composing scripts |
| `EditDistance.Bounds` | `query-engine/utils/string-utils.ts:387-413` | It lies between the difference of the lengths and the longer length |
| `EditDistance.StringSimilarity` | `query-engine/utils/string-utils.ts:418-423` | Similarity is one minus the distance over the longer length: it lies in [0, 1] and is 1 exactly for equal texts |
| `HashJoin.BuildIndex` | `query-engine/executor/executor.ts:985-997` | The index maps every right key to the rows that have it, in order |
| `HashJoin.ExecuteJoin` | `query-engine/executor/executor.ts:985-1075` | The rows stand one for one at the pairs of equal keys, by left row and then by right row, with the unmatched left rows of a left or full join at their places and then the lone right rows; they equal the nested loop: matches in left-then-right order, unmatched left rows once for left and full, then the groups of unmatched right rows for full |
| `JoinOrder.JoinPlaces` | `query-engine/executor/executor.ts:1000-1075` | Which positions yield a row of the join and in which order: pairs of equal keys, left rows without a partner, and lone right rows grouped by the first row of their key |
| `HashJoin.InJoin` | `query-engine/executor/executor.ts:1000-1025` | A row is produced exactly when it merges two rows of equal key or is a kept left row without partner |
| `HashJoin.GroupsAreUnmatched` | `query-engine/executor/executor.ts:1028-1040` | The tail of a full join is, as a bag, exactly the unmatched right rows: nothing lost or repeated |
| `HashJoin.RightJoinOnlyWithoutMatches` | `query-engine/executor/executor.ts:1042-1071` | A right join as executed yields the rows of a right join exactly when no right row has a match |
| `HashJoin.RightJoinInput` | `query-engine/executor/executor.ts:1042-1071` | A row joined with itself comes out twice |
| `TypeCheck.TypePreservation` | `query-engine/analyzer/type-checker.ts:137-278` | In an environment that respects the symbol table a trusted expression evaluates, if at all, to a value of its inferred type |
| `TypeCheck.CallFreeIsTrusted` | `query-engine/analyzer/type-checker.ts:185-251` | Among call-free expressions exactly the doubtful sums, Number sums with an unknown operand, cannot be trusted |
| `TypeCheck.PreservationExactly` | `query-engine/analyzer/type-checker.ts:137-278` | For every call-free expression: the value has the inferred type exactly when it is not a sum typed Number one of whose operands evaluates to a string |
| `TypeCheck.DoubtfulSumFails` | `query-engine/analyzer/type-checker.ts:185-251` | The condition is needed: an undeclared variable holding a string makes a Number sum a string |
| `TypeCheck.AcceptedFilterIsWhere` | `query-engine/analyzer/type-checker.ts:83-92` | Behind an accepted WHERE the filter keeps exactly the rows where it evaluates to true |
| `TypeCheck.ExecuteFilter` | `query-engine/executor/executor.ts:397-408` | The rows whose condition is truthy, in order; an error on any row ends the filter |
| `TypeCheck.FilterThrowsIff` | `query-engine/executor/executor.ts:397-408` | The filter fails exactly when the condition fails on some row, an invalid regular expression in MATCHES included |
| `FilterMeaning.ComparisonFilter` | `query-engine/executor/expression-evaluator.ts:142-158` | With numbers compared as real numbers, filtering by each of the six comparisons keeps exactly the rows whose two numbers stand in that relation |
| `FilterMeaning.ColumnFilter` | `query-engine/executor/expression-evaluator.ts:97-109` | The same for a column against a number, whatever variables are called |
| `FilterMeaning.LogicFilter` | `query-engine/executor/expression-evaluator.ts:161-200` | Filtering by p AND q is filtering by p and then by q, p OR q keeps what either keeps, NOT p what p does not |
| `FilterMeaning.FilterKeeps` | `query-engine/executor/executor.ts:397-408` | A filter keeps exactly the rows its condition decides for, in order |
| `FilterMeaning.RowsWhereAt` | `query-engine/executor/executor.ts:397-408` | The rows kept stand at rising positions and none with the property is left out |
| `FilterMeaning.OtherConditions` | `query-engine/executor/executor.ts:397-408` | Of values that are not Boolean, the number 1 and texts that are not empty keep a row |
| `FilterMeaning.ComparisonsAgree` | `query-engine/executor/expression-evaluator.ts:316-342` | Swapping the sides turns a comparison round, null comes before everything and false before true, and nothing is both smaller and greater |
| `FilterMeaning.EqualIsIdentity` | `query-engine/executor/expression-evaluator.ts:282-311` | Deep equality of scalars and nested lists is identity |
| `FilterMeaning.InIsMembership` | `query-engine/executor/expression-evaluator.ts:181-185` | IN holds exactly for the elements of the list |
| `FilterMeaning.ArithmeticIsReal` | `query-engine/executor/expression-evaluator.ts:120-140` | With real arithmetic, sums, differences, products, quotients and negations evaluate to the number they denote and fail exactly when they divide by zero |
| `FilterMeaning.TextOperators` | `query-engine/executor/expression-evaluator.ts:168-178` | Texts are joined left to right, and CONTAINS holds exactly when the right text stands in the left one |
| `FilterMeaning.NameIsVisible` | `query-engine/executor/expression-evaluator.ts:97-109` | A name is read from the row first and then from the variables, and fails exactly when neither has it |
| `FilterMeaning.ListElements` | `query-engine/executor/expression-evaluator.ts:261-263` | An array evaluates element by element, and fails exactly when an element does |
| `FilterMeaning.ObjectFields` | `query-engine/executor/expression-evaluator.ts:268-277` | An object has exactly the keys written, each with its last value |
| `FilterMeaning.RejectedComparison` | `query-engine/analyzer/type-checker.ts:185-206` | A comparison is rejected exactly when its operand types are known, differ, and are not null beside a number, string or Boolean |
| `FilterMeaning.AcceptedTypes` | `query-engine/analyzer/type-checker.ts:185-278` | Exactly which operand types logic, arithmetic, sums, joined texts, NOT and minus accept, and the type that results |
| `FilterMeaning.AcceptedOperands` | `query-engine/analyzer/type-checker.ts:185-251` | Where operand types are known and trusted, an accepted operation finds values of the kind it works on, so nothing is converted |
| `IPv6.IsIPv6InPrefix` | `query-engine/utils/validation.ts:238-267` | For segments in range the segment loop and masks decide equality of the top bits of two 128-bit numbers; an unparsable address or ill-sized prefix is never inside |
| `IPv6.PrefixMatch` | `query-engine/utils/validation.ts:248-264` | Two addresses share their leading bits, as numbers, exactly when whole segments and the masked one agree |
| `IPv6.MaskedSegment` | `query-engine/utils/validation.ts:257-262` | The 32-bit shift and mask keep the leading bits of a segment |
| `IPv6.PrivateBlocks` | `query-engine/utils/validation.ts:276-310` | Private means ::1/128, fc00::/7 or fe80::/10 and nothing else (section 2.5.3 and 2.5.6 of RFC 4291, section 3.1 of RFC 4193) |
| `IPv6.UnsignedIsInRange` | `query-engine/utils/validation.ts:174-230` | Segments are in 0..0xFFFF unless the text has a minus sign |
| `IPv6Text.FullForm` | `query-engine/utils/validation.ts:217-228` | Eight groups of one to four hexadecimal digits parse to their values (section 2.2 of RFC 4291) |
| `IPv6Text.CompressedForm` | `query-engine/utils/validation.ts:176-216` | Groups around one "::" parse to their values with zeros in between |
| `IPv6Text.OverfullForm` | `query-engine/utils/validation.ts:203-208` | A "::" that leaves no segment to fill is refused |
| `IPv6Text.Bracketed` | `query-engine/utils/validation.ts:142-144` | Brackets around the address make no difference |
| `IPv6Text.MixedFullForm` | `query-engine/utils/validation.ts:147-165` | Six groups and a dotted quad parse to their values |
| `IPv6Text.MixedCompressedForm` | `query-engine/utils/validation.ts:147-165` | With "::" and a dotted quad the address parses, to the right value, exactly when a group stands between the two; RFC 4291 also allows none |
| `IPv6Text.PrintThenParse` | `query-engine/utils/validation.ts:142-170` | Every address has a full text that parses back to it |
| `FlatObjects.Flatten` | `query-engine/utils/object-utils.ts:347-364` | The loop and recursion collect the entries key by key, later ones overriding earlier ones |
| `FlatObjects.FlattenDescribes` | `query-engine/utils/object-utils.ts:347-364` | On trees without dots or __proto__ in keys the result holds exactly the leaves, each at the dotted path to it |
| `FlatObjects.Unflatten` | `query-engine/utils/object-utils.ts:369-379` | The paths are written one after the other, failing where `set` walks into null or out of the object into its prototype |
| `FlatObjects.WriteOneMore` | `query-engine/utils/object-utils.ts:174-189` | Writing one more leaf into a partly rebuilt tree adds that leaf and nothing else |
| `FlatObjects.FlattenRoundTrip` | `query-engine/utils/object-utils.ts:347-379` | Writing the flattened paths back, in any order, rebuilds the tree exactly when no key has a dot or is __proto__, no nested object is empty, and empty keys are neither at the top nor in front of a leaf |
| `FlatObjects.PrototypeInput` | `query-engine/utils/object-utils.ts:174-189` | An object that owns a key __proto__, as parsed data can, is not rebuilt |
| `FlatObjects.PlainIsTidy` | `query-engine/utils/object-utils.ts:347-379` | Non-empty keys without dots, none of them __proto__, and no empty nested objects are enough |
| `Scopes.VariableScope.Get` | `query-engine/state/variable-scope.ts:62-75` | The value in the flat view of the chain, inner scopes hiding outer ones |
| `Scopes.VariableScope.Has` | `query-engine/state/variable-scope.ts:80-82` | Whether the flat view has the name |
| `Scopes.VariableScope.Set` | `query-engine/state/variable-scope.ts:95-97` | Only the own frame changes, at one name |
| `Scopes.VariableScope.Update` | `query-engine/state/variable-scope.ts:106-121` | Exactly the nearest defining scope (this one if none) gets the value, all others are untouched, and the flat view changes at that name only |
| `Scopes.VariableScope.Delete` | `query-engine/state/variable-scope.ts:127-129` | Only the own frame loses the name |
| `Scopes.VariableScope.GetAllVariables` | `query-engine/state/variable-scope.ts:142-162` | The merged map is the flat view that `get` looks up |
| `Scopes.VariableScope.GetVariableNames` | `query-engine/state/variable-scope.ts:167-183` | The names of the flat view, once each, own names first |
| `Scopes.VariableScope.FindDefiningScope` | `query-engine/state/variable-scope.ts:249-259` | The nearest scope that has the name, null exactly when `has` is false |
| `Scopes.ExecutionContextManager.PushScope` | `query-engine/state/execution-context.ts:83-85` | The stack of frames gets a new empty frame on top |
| `Scopes.ExecutionContextManager.PopScope` | `query-engine/state/execution-context.ts:91-97` | The innermost frame is dropped; at the root nothing happens but the error |
| `Scopes.ExecutionContextManager.SetVariable` | `query-engine/state/execution-context.ts:53-55` | The innermost frame gets the binding |
| `Scopes.ExecutionContextManager.UpdateVariable` | `query-engine/state/execution-context.ts:61-63` | The nearest frame that binds the name gets the value |
| `ScopeSpec.PushedScopeVanishes` | `query-engine/state/execution-context.ts:83-97` | A balanced run inside a pushed scope, without updates, leaves every outer binding as it was |
| `ScopeSpec.PushedScopeIsLocal` | `query-engine/state/execution-context.ts:53-97` | With updates, outer frames change at most at the names updated |
| `ScopeSpec.UpdateReachesOut` | `query-engine/state/variable-scope.ts:106-121` | An update inside reaches the outer binding exactly when no frame in between binds the name |
| `Csv.ParseCSVLine` | `query-engine/utils/data-conversion.ts:366-392` | The scanning loop yields the fields of the line |
| `Csv.ReadsEveryRecord` | `query-engine/utils/data-conversion.ts:366-392` | Every record of section 2 of RFC 4180 is read field by field, however its writer chose to quote |
| `Csv.RowRoundTrip` | `query-engine/formatter/formatter.ts:175-204` | Escaping, joining and parsing gives the fields back exactly when there is at least one and the delimiter is no quote (or there is only one field) |
| `Csv.QuotedWhenNeeded` | `query-engine/formatter/formatter.ts:190-204` | A field is written as it is exactly when it holds no delimiter, quote, line feed or carriage return; any other is enclosed in quotes |

## Left out

- Cache: the size estimate of a value is a parameter; one operation reads the clock once; the cleanup timer, configuration getters and `keys` are not modelled. `findLFUKey` and `findOldestKey` are one method over two scores.
- CycleDetector.DetectCircularDependencies: a reported cycle is a list of ids, not yet joined with arrows into one string.
- CriticalCost.GetCriticalPath: requires costs that are not negative; the source searches for the dearest step from 0 upwards, so negative ones would need a statement of their own.
- CriticalCost.EstimateParallelExecutionTime: likewise.
- Planner output is not claimed to be acyclic: the generators for SELECT and UPDATE share one dependency array with their ids, so graphs are arbitrary inputs here.
- `validateExecutionPlan`, `buildDependencyGraph`, plan statistics, merging, cloning and serialising of plans: easy members.
- Executor.Execute: which inner steps a step tries and how simple steps end is arbitrary; the members of a parallel step are run one after the other instead of interleaved, which matters only when two of them write under one id; `executeMap` shares one evaluator between concurrent rows, so no pointwise law is claimed. Step timings and error objects are dropped.
- Join keys are functions of the row compared by equality; object keys, which the source compares by identity, and the check that both inputs are arrays are not modelled.
- Parser: statements, NAVIGATE options, and the position in error messages. The seven methods of the binary levels are one method with the level as parameter, and the two item loops (arguments and array elements) one method.
- SourceText.SourceRoundTrip: number literals carry their decimal text, not a floating-point value, so it is about expressions whose numerals are in that form and whose names are identifiers that are not keywords.
- Lexer: line, column and offset of tokens.
- Evaluator: unary plus, NOT IN and NOT LIKE, which the parser never produces; keys that `in` finds on object prototypes; fields that `equals` finds on object prototypes; the bodies of built-in functions. The conversions to text, number and Boolean, the arithmetic and order of numbers, `localeCompare`, LIKE and MATCHES, and the equality of an array and an object are arbitrary functions.
- `unescapeHTML` is not modelled.
- IPv6.IsIPv6InPrefix: the 128-bit meaning is stated for segments in 0..0xFFFF; only a minus sign leaves that range.
- IPv6 texts: `parseInt` also takes signs, a `0x` prefix and trailing junk; the model parses those as the source does, but the textual theorems are about well-formed groups. IPv4 ranges are not modelled.
- FlatObjects.Unflatten: `set` changes nested objects in place; the model works on values, so aliasing between the written leaves and the result is not captured. Arrays, dates and regular expressions count as leaves, and writing below one is not modelled; nor is what later writes do once one has gone to the prototype.
- Scopes: ids and the legacy context; the scope tree downwards is only the set of children.
- CSV: quote and escape characters other than the double quote, delimiters of several characters, and splitting a file into lines.
- Optimizer, planner, browser, proxy, sessions, permissions, metrics, formatting other than CSV: heuristics, input and output, or library behaviour.
