# A verified model of gosible's cores

gosible runs Ansible playbooks. Most of it talks to other machines, but a handful of its parts are algorithms
with a state of their own, and these are modelled here, one module a part:

| module | part of gosible |
|---|---|
| `Text` | splitting, joining and trimming of strings |
| `Quotes` | which quote marks open and which close, by their positions, and the pass that finds it out |
| `Tokenizer` | the argument tokenizer: cutting a command line without breaking quotes or Jinja blocks |
| `TokenMeaning` | what the tokenizer means on the text: quotes and blocks stay in one parameter, tags are counted where they stand |
| `Graph` | directed graphs, and the depth-bounded search for a cycle |
| `InventoryModel` | the inventory as a value: what lines add, what normalisation yields, what validation guarantees |
| `Inventory` | the inventory as objects that point at each other, updated in place; each method is proved against `InventoryModel` |
| `IniLines` | what the lines of an inventory say, read off them alone, and that exactly this is stored |
| `Patterns` | host patterns |
| `Parallel` | the goroutine fan-out and fan-in, as a machine over all interleavings |
| `Play` | the `linear` and `free` strategies on top of it |
| `PythonExecutor` | the tagged line protocol between the Go side and its Python process |
| `Mode` | symbolic file modes on 32-bit vectors |
| `ModeText` | which permissions a text leaves each class with, and how long texts are made of short ones |
| `Ordering`, `VarsManager` | sorting by name; layered variables |
| `VarsMeaning` | where a variable comes from, in terms of the inventory and the manager's tables |
| `TaskLoop` | tasks with a loop, and the loop context they open |
| `Sequence` | the `sequence` lookup in 64-bit integers |
| `Diff` | keeping the paths that are no prefix of another |
| `Pip` | recovering package names from comma-separated parts |
| `Callbacks` | one-shot and persistent callbacks |
| `Flaws`, `Cases` | inputs at which a promise is broken, worked out |

Code that updates objects in place is a class, code that loops is a method with a loop, and both are tied by their
postconditions to functions and relations on values, about which the lemmas speak. Map iteration, goroutine
scheduling and the start and death of processes are nondeterministic choices, so every result holds for all of them.

## Where the code does not do what it is meant to

The model follows the code. Where that differs from what the code's comments or its documentation promise, the
difference is stated as a lemma, with the exact condition under which the promise holds.

- `joinArgs` is documented to restore what `splitArgs` took apart. It does so exactly when no token has one of four
  flaws (`Tokenizer.SplitArgs`, `Tokenizer.WorstExactly`): a white-space token before the first parameter, which
  crashes (`Flaws.LeadingSpaces`); a lone backslash outside quotes (`Flaws.LoneBackslash`); exactly one space at the
  start of a line before a token outside quotes and blocks (`Flaws.LeadingSpace`); and a line without spaces inside a
  Jinja block (`Flaws.BlockOverLines`).
- Setuid is taken from the setgid flag of Go's portable mode, and the setuid flag is ignored (`Mode.SetuidFollowsSetgid`).
- `=` spells the class of others `'0'` instead of `'o'`, so `o=` clears nothing: it is exact only when the mode had no
  other bit of that class (`Mode.AssignOthersExactly`, `Cases.OthersKeepAll`). `u=` and `g=` drop special bits they
  should keep and keep the one they should replace (`Mode.AssignSpecialBits`).
- A clause without users spares the umask with `+` and `-`. With `=` in it, it clears all bits that the umask holds
  back but those of others, so these survive exactly when the mode had no such bit (`Mode.AssignClearsUmaskBits`,
  `Cases.UmaskBitsCleared`).
- A `count` with a negative stride yields one or two members too many (`Sequence.CountGiven`, `Cases.FiveForThree`);
  an end of -1 reads as no end (`Sequence.EndOfMinusOne`).
- A sequence yields what it promises exactly when the capacity does not come out negative and the index after the last
  member fits into 64 bits (`Sequence.PromiseKept`, with `Sequence.CapacityExactly` and `Sequence.StopsExactly`). Up to
  the largest integer it crashes or yields nothing (`Sequence.UpToTheLargest`), and there are sequences with room for
  one number whose loop never stops (`Sequence.LoopsForEver`).
- Validation rejects a file in which `all` is somebody's child, although the file has no cycle of its own: hanging
  orphans under `all` closes one (`InventoryModel.CycleOrigin`, `Cases.CycleOutOfNowhere`).

## Model

| member | source | states |
|---|---|---|
| `Text.JoinSplit` | parsing/splitter.go:141-159 | joining the pieces that splitting a text yields gives the text back |
| `Text.SplitJoin` | modules/pip/pip.go:254-259 | splitting joined pieces gives the pieces back when none of them holds the separator |
| `Text.SplitAround` | modules/pip/pip.go:254-259 | the pieces of two texts with a separator between them are the pieces of the one and then of the other |
| `Text.TrimExactly` | inventory/common.go:236 | trimming takes off white space at both ends, all of it and nothing else |
| `Quotes.GetQuoteState` | parsing/splitter.go:263-281 | starting outside quotes or inside a quote of either kind, the loop ends outside quotes exactly when every unescaped mark is paired with the next of its kind, and inside a quote exactly when a mark of that kind stands outside quotes and no such mark follows |
| `Quotes.QuoteExactly` | parsing/splitter.go:263-281 | the pass over a text, in positions alone: it ends outside quotes if and only if some division of the text into quoted stretches covers all unescaped marks, and inside a quote if and only if an unescaped single or double mark is left over as the last of its kind |
| `Quotes.QuoteConcat` | parsing/splitter.go:163-188 | tracking quotes piece by piece equals one pass when no piece ends in a backslash |
| `Tokenizer.JoinArgs` | parsing/splitter.go:111-122 | the builder that remembers its last character puts a space between parameters except after a line end |
| `Tokenizer.HandleToken` | parsing/splitter.go:163-239 | one token reaches the parameters in exactly one way, the quote and the three depths advance as specified, and the loop crashes exactly on a white-space token with no parameter to extend |
| `Tokenizer.HandleLine` | parsing/splitter.go:161-240 | over a line the state, the parameters and the line-continuation flag are those of the token-wise specification, or the flaw that crashes occurs |
| `Tokenizer.SplitArgs` | parsing/splitter.go:136-257 | crashes, fails and succeeds under exact conditions on the text; on success the parameters are those of the token-wise specification, none is empty, and joining them restores the text if and only if no token has a flaw |
| `Tokenizer.ParameterStarts` | parsing/splitter.go:190-239 | there are as many parameters as tokens with content outside quotes and blocks, and each parameter begins with the token that started it |
| `Tokenizer.QuotePass` | parsing/splitter.go:163-188 | tracking quotes token by token, lone backslashes skipped or not, equals one pass over all text read so far |
| `Tokenizer.UnbalancedExactly` | parsing/splitter.go:250-254 | input is unbalanced exactly when one quote pass over the whole text ends open or a clamped depth is left |
| `TokenMeaning.UnbalancedMarks` | parsing/splitter.go:250-254 | input is unbalanced exactly when its marks do not pair up or a clamped depth is left |
| `TokenMeaning.InsideQuotes` | parsing/splitter.go:190-198 | a token read while the text before it has an unpaired mark is glued to the last parameter, with the space before it, whatever blocks are open |
| `TokenMeaning.OutsideQuotes` | parsing/splitter.go:190-239 | a token with content starts a parameter when all marks before it are paired and no block is open |
| `TokenMeaning.QuotedStaysWhole` | parsing/splitter.go:136-257 | a text whose first token opens a quote that is not closed before the last character is one parameter, with all its spaces and line ends |
| `TokenMeaning.QuotedValue` | parsing/splitter.go:136-257 | a key followed by any words in single or in double quotes is one parameter |
| `TokenMeaning.BlockStaysWhole` | parsing/splitter.go:200-239 | words between an opening and a closing tag are one parameter, for print blocks, statement blocks and comments alike |
| `TokenMeaning.CountIsLargest` | parsing/splitter.go:286-296 | what is counted is the largest number of tags that stand in a token without overlapping |
| `TokenMeaning.DepthExactly` | parsing/splitter.go:286-296 | the depth changes by the difference of the two counts and does not fall below zero |
| `TokenMeaning.Tags` | parsing/splitter.go:200-229 | each of the three opening tags raises its own depth and the closing tag that belongs to it lowers it, not below zero |
| `Tokenizer.WorstIsSomewhere` | parsing/splitter.go:161-247 | the worst flaw is the flaw of some token, and no token has a worse one |
| `Tokenizer.WorstExactly` | parsing/splitter.go:124-257 | crashing and lossless cutting read off the single tokens: a stuck token, respectively no flaw of any of the four kinds |
| `Tokenizer.NeverStuck` | parsing/splitter.go:166-169 | when the input is empty or its first token is neither empty nor a lone backslash, every access to the last parameter is in bounds |
| `Tokenizer.BlankStart` | parsing/splitter.go:163-188 | as long as only blank tokens were seen no quote and no block is open |
| `Tokenizer.ReadAll` | parsing/splitter.go:141-159 | cutting a text into lines and tokens loses nothing and leaves no line end inside a token |
| `Tokenizer.TallyDecides` | parsing/splitter.go:108-122 | the joined text equals the original exactly when no flaw occurred: each kind of flaw leaves a character count that no later one repairs |
| `Tokenizer.FindUnescapedEqualsSignPos` | parsing/splitter.go:72-89 | finds the first equals sign past the first character that no backslash precedes, and -1 exactly when there is none |
| `Flaws.ChunksExactly` | parsing/splitter.go:141-159 | cutting a text into lines and tokens is the inverse of writing lines and tokens down |
| `Flaws.LeadingSpaces` | parsing/splitter.go:166-169 | two spaces before the first parameter crash the loop |
| `Flaws.LoneBackslash` | parsing/splitter.go:171-177 | a backslash on its own is lost |
| `Flaws.LeadingSpace` | parsing/splitter.go:111-122 | a single space at the start of a line is lost |
| `Flaws.BlockOverLines` | parsing/splitter.go:200-212 | the end of a line without spaces inside a block is doubled |
| `Graph.BelowShrinks` | inventory/data_types.go:44-58 | without cycles, what lies below a successor is strictly less: the measure by which walks without a visited set end |
| `Graph.BelowSplit` | inventory/data_types.go:44-58 | what lies below a node are its successors and what lies below those |
| `Graph.TopReached` | inventory/common.go:47-55 | without cycles, when only one node has no successors every other node reaches it |
| `Graph.CyclicInverse` | inventory/common.go:102-121 | children have a cycle exactly when parents have one, if the two mirror each other |
| `Graph.CycleFound` | inventory/common.go:111-121 | a way back to the group is found under every budget |
| `Graph.SearchWalk` | inventory/common.go:111-121 | a positive answer of the search comes with a walk back to the group or with one as long as the budget |
| `Graph.LongWalkCycles` | inventory/common.go:102-109 | a walk with more nodes than the graph has goes round a cycle, by the pigeonhole principle |
| `Graph.SearchIsExact` | inventory/common.go:102-121 | with the number of groups as its budget the search reports a cycle if and only if there is one |
| `Graph.BudgetIsTight` | inventory/common.go:102-109 | for every number of groups there is a chain without a cycle that the search would report under a budget of one less |
| `InventoryModel.HandleLineKeeps` | inventory/ini.go:63-118 | after every line parent and child lists mirror each other, so do group and host lists, every name is registered, and the open group exists |
| `InventoryModel.ParseLinesKeep` | inventory/ini.go:27-49 | the same after any sequence of lines |
| `IniLines.ToldAt` | inventory/ini.go:63-87 | every line stands in the section that the last section line before it opened, or in the hosts of `all` |
| `IniLines.ReadsExactly` | inventory/ini.go:89-118 | a file is read to its end exactly when every data line is one that its section calls for |
| `IniLines.HostVariables` | inventory/ini.go:92-99 | a host has a variable exactly when some host line of that name gives it, with the value of the last such line |
| `IniLines.GroupVariables` | inventory/ini.go:100-105 | a group has a variable exactly when a line of one of its `vars` sections sets it, with the value of the last such line |
| `IniLines.LastForHostExactly` | inventory/ini.go:92-99 | the last value: no line gives one, or a line after which none gives one does |
| `IniLines.LastForGroupExactly` | inventory/ini.go:100-105 | the same for the lines of `vars` sections |
| `IniLines.GroupsReadOff` | inventory/ini.go:80-113 | the groups are `all` and those that a section or a child line names; one is initialized exactly when it is `all` or has a section other than `vars` |
| `IniLines.HostsReadOff` | inventory/ini.go:92-99 | the hosts are those that host lines name, each in exactly the groups in whose sections those lines stand |
| `IniLines.ChildrenReadOff` | inventory/ini.go:106-113 | a group is a child of exactly those groups in whose `children` sections it stands |
| `IniLines.AcceptedVariables` | inventory/ini.go:27-49 | end to end: after normalisation hosts and groups still have exactly the variables that the lines give them |
| `InventoryModel.RemoveFirstRemovesAll` | inventory/common.go:67-78 | removing one occurrence removes all, because duplicates are gone by then |
| `InventoryModel.RemoveFirstNoDuplicates` | inventory/common.go:67-78 | the removal brings no duplicates back |
| `InventoryModel.AddUngroupedShape` | inventory/common.go:57-65 | moving the hosts of `all` changes no family tie and no other group's hosts |
| `InventoryModel.HungShape` | inventory/common.go:47-55 | hanging orphans adds exactly the ties between `all` and them, on both sides, in whatever order the map yields them |
| `InventoryModel.NormalisedHasForm` | inventory/common.go:30-78 | normalisation keeps the mirrored family lists and the registration, keeps host lists mirrored except for `all` and `ungrouped`, leaves only `all` without parents, leaves no host in `all`, and leaves no duplicates among parents or the groups of a host |
| `InventoryModel.FamilyGraph` | inventory/common.go:102-121 | parents and children are inverse closed graphs, so acyclic parents make both recursive walks end |
| `InventoryModel.AllIsTheOnlyRoot` | inventory/common.go:47-55 | in a validated inventory `all` is the only group without parents |
| `InventoryModel.EveryGroupBelowAll` | inventory/common.go:47-55 | in a validated inventory every other group is a descendant of `all` |
| `InventoryModel.HostsOfSplit` | inventory/data_types.go:44-58 | the hosts of a group and its descendants are its own and those of its children |
| `InventoryModel.AllReachesEveryHost` | inventory/common.go:243-245 | walking from `all` yields exactly the registered hosts, so the shortcut for `all` agrees with the walk |
| `InventoryModel.CycleOrigin` | inventory/common.go:30-55 | validation finds a cycle exactly when the parsed groups had one or `all` was somebody's child |
| `Cases.CycleOutOfNowhere` | inventory/common.go:47-55 | the two lines that make `all` a child: they hold no cycle, and every normal form of them does |
| `InventoryModel.InitializedOrigin` | inventory/common.go:57-65 | normalisation initializes `ungrouped` and no other group |
| `InventoryModel.AcceptedExactly` | inventory/common.go:80-109 | validation accepts exactly the files whose groups all have a section, whose parents have no cycle and where `all` is nobody's child; what it accepts is a validated inventory |
| `InventoryModel.GroupVarsKeys` | inventory/data_types.go:35-41 | a group sees exactly the variables that it or an ancestor sets |
| `InventoryModel.GroupVarsSource` | inventory/data_types.go:35-41 | the value comes from a group that sets the variable, along a line on which no nearer group sets it; its own value always wins |
| `InventoryModel.GroupValue` | inventory/data_types.go:35-41 | a group's own value wins, and otherwise that of the last parent that has the variable |
| `InventoryModel.HostVarsKeys` | inventory/data_types.go:26-32 | the groups of a host give it exactly the variables that they or their ancestors set |
| `InventoryModel.HostValue` | inventory/data_types.go:26-32 | a host's own value wins, and otherwise that of the last of its groups that has the variable |
| `Inventory.MergeVars` | inventory/data_types.go:60-65 | the map passed first, and only that, ends up overridden by the second, in any order of iteration |
| `Inventory.Deduplicate` | inventory/common.go:157-168 | the same groups, each once, in an order of the map's choosing |
| `Inventory.Data.GroupByName` | inventory/common.go:123-130 | the registered group of that name, made and registered when there was none; nothing else changes |
| `Inventory.Data.HostByName` | inventory/common.go:140-147 | the registered host of that name, made and registered when there was none; nothing else changes |
| `Inventory.Data.AddVarsToHost` | inventory/common.go:132-138 | the host exists afterwards and its variables are overridden by the new ones; no group changes |
| `Inventory.Data.AddUngroupedGroup` | inventory/common.go:57-65 | the hosts of `all` move behind those of `ungrouped`, which exists and is initialized |
| `Inventory.Data.AddToAllGroup` | inventory/common.go:47-55 | every other group without parents becomes a child of `all`, on both sides, in some order |
| `Inventory.Data.Simplify` | inventory/common.go:38-45 | every host's groups and every group's parents lose their duplicates and nothing else |
| `Inventory.Data.RemoveAllGroupFromHosts` | inventory/common.go:67-78 | every host loses the first mention of `all`; nothing else changes |
| `Inventory.Data.ValidateGroupInitialization` | inventory/common.go:93-100 | accepts exactly when every group is initialized |
| `Inventory.Data.CircularReference` | inventory/common.go:111-121 | the search over the objects answers what the search over names does, and ends by its budget |
| `Inventory.Data.ValidateNoCircularReferences` | inventory/common.go:102-109 | accepts exactly when the search from every group, with the number of groups as its budget, finds nothing |
| `Inventory.Data.FormatAndValidate` | inventory/common.go:30-36 | normalises the object graph and fails exactly for an uninitialized group, or else for a cycle among the parents |
| `Inventory.GetHosts` | inventory/data_types.go:44-58 | the walk without a visited set ends and yields exactly the hosts of the group and its descendants, each the registered object |
| `Inventory.GroupAllVars` | inventory/data_types.go:35-41 | the walk up the parents ends, fills a fresh map and changes no stored one |
| `Inventory.HostAllVars` | inventory/data_types.go:26-32 | the variables of the host over those of its groups, in a fresh map; no stored one changes |
| `Inventory.IniState.constructor` | inventory/ini.go:51-61 | a new inventory whose only group `all` is initialized and open |
| `Inventory.IniState.HandleSectionLine` | inventory/ini.go:80-88 | opens the group of the section, initializes it and sets the kind of section |
| `Inventory.IniState.HandleHostLine` | inventory/ini.go:92-99 | creates the host if need be, overrides its variables by those of the line, and ties host and open group on both sides; what this amounts to over a file is `IniLines.HostVariables` and `IniLines.HostsReadOff` |
| `Inventory.IniState.HandleVarLine` | inventory/ini.go:100-105 | sets a variable of the open group |
| `Inventory.IniState.HandleChildLine` | inventory/ini.go:106-113 | ties child and open group on both sides, even when they are the same group |
| `Inventory.IniState.HandleLine` | inventory/ini.go:63-118 | one line changes the object graph as the specification says, and fails exactly where it does |
| `Inventory.ParseIni` | inventory/ini.go:27-49 | a file is accepted if and only if all lines are well formed and the parsed groups are acceptable; the result is a normal form of what was parsed, and validated |
| `Inventory.NoRecovery` | inventory/ini.go:36-42 | a format error ends the reading for good |
| `Patterns.DetermineHostsFromGroupsPattern` | inventory/common.go:173-229 | on the characters of the pattern: it succeeds exactly when every term names a known group, plain or behind `!` or `&`; and a host is selected exactly when some plain term names a group holding it, every later `!g` has it outside g, and every later `&g` has it inside g |
| `Patterns.SelectedExactly` | inventory/common.go:173-229 | a host is selected exactly when some term adds it and every later term spares it |
| `Patterns.TermsReadOff` | inventory/common.go:197-225 | the fold over the terms selects exactly the hosts that a plain term picks and every later term leaves in, the two marks read off the characters |
| `Patterns.BadExactly` | inventory/common.go:197-225 | a term is refused exactly when neither it nor what follows its mark is a known group |
| `Patterns.AllAgrees` | inventory/common.go:243-245 | `all` selects the same hosts inside a group pattern as alone |
| `Patterns.DetermineHosts` | inventory/common.go:233-277 | what every trimmed pattern selects, and exactly when it names a host or group that does not exist |
| `Patterns.ListedHosts` | inventory/common.go:262-270 | names joined with commas select exactly the named hosts, and fail exactly when one of them is no host |
| `Patterns.JoinedTerms` | inventory/common.go:271-275 | terms joined with colons select exactly the hosts they pick, and fail exactly when one of them names no group |
| `Patterns.HostShadowsGroup` | inventory/common.go:252-261 | a name of both a host and a group is the host alone, but the group within a colon pattern |
| `Patterns.SingleName` | inventory/common.go:252-261 | a single name fails exactly when it is neither; a group selects what it does as a term |
| `Parallel.NextInv` | utils/parallel/parallel.go:36-54 | every step of every interleaving keeps: each worker is on its own track, the channel holds one message of each queued worker, and received slots hold outcomes |
| `Parallel.SlotsAreOutcomes` | utils/parallel/parallel.go:36-54 | at the end slot i is exactly what the function returns for element i, whatever the order of arrival |
| `Parallel.NoSendBlocks` | utils/parallel/parallel.go:37-41 | a worker that has returned always finds room in the channel |
| `Parallel.NoDeadlock` | utils/parallel/parallel.go:36-54 | until the caller has everything some step is possible |
| `Parallel.EveryStepCounts` | utils/parallel/parallel.go:36-54 | when the function returns on every element, every step of every interleaving is exactly one step less to do |
| `Parallel.FinishedExactly` | utils/parallel/parallel.go:36-54 | the caller has everything exactly when nothing is left to do |
| `Parallel.RunsFinish` | utils/parallel/parallel.go:36-54 | when the function returns on every element, `ForAll` finishes: all runs take the same number of steps, a shorter one can go on, and none goes beyond |
| `Parallel.CombineErrors` | utils/parallel/parallel.go:47-54 | whatever the order of arrival, each error ends up in the slot of its element |
| `Parallel.IsError` | utils/parallel/parallel.go:9-16 | true exactly when some slot holds an error |
| `Parallel.PresentExactly` | utils/parallel/parallel.go:18-29 | the combined texts are exactly those of the slots that hold an error |
| `Parallel.Combine` | utils/parallel/parallel.go:18-29 | nil exactly when all slots are nil, else the texts of all errors, last one first, on lines of their own |
| `Play.PlayNextInv` | executor/playbook_executor.go:98-201 | every step of a play, barriers included, keeps every host on its own sequential run |
| `Play.LinearBarrier` | executor/playbook_executor.go:98-110 | under `linear`, whenever some host has started task k every host has run all tasks before it, and none of these failed anywhere |
| `Play.HostRunsPrefix` | executor/playbook_executor.go:182-201 | under either strategy, in every reachable state, a host has run a prefix of the tasks, is in the state that running them alone leads to, and only the last may have failed |
| `Play.DonePlay` | executor/playbook_executor.go:98-125 | a successful play ran everything on every host; a failed one stopped each host at the end of a batch or at its first failure |
| `Play.FailureHasCause` | executor/playbook_executor.go:165-180 | a failed play has a host on which a task fails, under `linear` one of the tasks up to the failed barrier |
| `Play.FailsExactly` | executor/playbook_executor.go:98-180 | under either strategy a play fails exactly when some task fails on some host |
| `Play.StrategiesAgree` | executor/playbook_executor.go:98-125 | the tasks a host ran under `linear` are a prefix of those it ran under `free`; one fails exactly when the other does; without failure the final states agree |
| `Play.PlayProgress` | executor/playbook_executor.go:98-125 | a play that is not done can go on |
| `Play.PlayStepCounts` | executor/playbook_executor.go:98-125 | every step of a play, barriers included, leaves at least one step less to go |
| `Play.FanReturns` | executor/playbook_executor.go:182-201 | every host returns from a batch |
| `Play.RunsAreFinite` | executor/playbook_executor.go:98-125 | no run of a play is longer than the bound for its batches, whatever the interleaving, and a run that has not reached the end can go on |
| `Play.BoundInFigures` | executor/playbook_executor.go:98-125 | the bound: under `linear` three steps a host and one for the barrier, for every task; under `free` one step a task and two more for every host, and one for the end |
| `Play.ExecuteTasksOnHost` | executor/playbook_executor.go:182-201 | the loop on one host makes exactly the steps of the worker, and reports an error exactly when its last task did |
| `PythonExecutor.FlightKept` | py_runtime/py_runtime/py_runtime.py:66-76 | whatever step the server makes, a command under way stays under way: its lines and those of its answer are all that the pipes hold |
| `PythonExecutor.Server.Step` | py_runtime/py_runtime/py_runtime.py:48-76 | a step of the server loop, or its death, keeps an idle server idle and a command under way, and uses up the work left before the server waits for input; a steady server stays up |
| `PythonExecutor.LineTaken` | module_utils/pythonModule/python_executor.go:94-109 | the next line in the pipe is the next one of the answer, unless it is noise, which is told by its tag |
| `PythonExecutor.Server.TakeLine` | module_utils/pythonModule/python_executor.go:94-109 | taking that line off the pipe leaves the command one line further |
| `PythonExecutor.Executor.constructor` | module_utils/pythonModule/python_executor.go:49-55 | a new executor is usable and counts tags from 1 |
| `PythonExecutor.Executor.Invalidate` | module_utils/pythonModule/python_executor.go:66-69 | latches the executor as invalid and answers nothing more |
| `PythonExecutor.Executor.WriteLine` | module_utils/pythonModule/python_executor.go:76-92 | a line that does not marshal is not written and does not invalidate; a failed write invalidates; a written line advances the command |
| `PythonExecutor.Executor.AwaitOutput` | module_utils/pythonModule/python_executor.go:94-98 | a read does not block for ever: the server has work to do or is dead until there is output |
| `PythonExecutor.Executor.ReadLine` | module_utils/pythonModule/python_executor.go:94-109 | a failed read invalidates; a successful one yields the next line of the answer to this very command, or noise; with a steady server it succeeds |
| `PythonExecutor.Executor.Send` | module_utils/pythonModule/python_executor.go:116-126 | header and body are written, or the executor is invalid; with a steady server and a request that marshals they are written |
| `PythonExecutor.Executor.Receive` | module_utils/pythonModule/python_executor.go:128-138 | the body of the answer to this very request is read and the pipes are empty, or the executor is invalid; with a steady server it is read |
| `PythonExecutor.Executor.ExecuteCommand` | module_utils/pythonModule/python_executor.go:111-138 | a success returns the body that the handler produced for this very request, in order and once; any failure leaves the executor invalid; a usable executor is left with empty pipes; and a command that marshals succeeds if the server lives, the pipes hold, the answer decodes and the modules print nothing |
| `PythonExecutor.Manager.NewExecutor` | module_utils/pythonModule/python_executor.go:25-64 | a new executor is handed out only after it answered the greeting; a steady server that starts answers it |
| `PythonExecutor.Manager.GetExecutor` | module_utils/pythonModule/python_executor_manager.go:31-51 | reuses a usable executor, replaces an invalid one by a fresh one, never hands out an invalid one, and hands one out whenever a steady server can be started |
| `Mode.SyscallMode` | module_utils/gosibleModule/mode.go:23-35 | the result lies within 07777 |
| `Mode.SetuidFollowsSetgid` | module_utils/gosibleModule/mode.go:23-35 | the setuid flag changes nothing; setuid and setgid are set together, exactly by the setgid flag |
| `Mode.PlainAndSticky` | module_utils/gosibleModule/mode.go:23-35 | the rwx bits are those of the portable mode and the sticky bit follows the sticky flag |
| `Mode.LetterMeaning` | module_utils/gosibleModule/mode.go:117-175 | the whole table in octal digits: r, w and x are 4, 2 and 1 without what the umask holds back, a class copies that class of the file, X is x for directories and executable files, s and t name one special bit each and no digit |
| `Mode.GetOctalModeFromSymbolicPerms` | module_utils/gosibleModule/mode.go:108-115 | the result has some of any given bits exactly when one of the letters names some of them |
| `Mode.LettersUnite` | module_utils/gosibleModule/mode.go:108-115 | several letters name a bit exactly when one of them does |
| `ModeText.LettersAsk` | module_utils/gosibleModule/mode.go:108-175 | a text of letters grants a class a permission exactly when it holds that letter (and the umask, without users, allows it), a class that has it on the file, or an `X` that applies |
| `Mode.PermBitInClass` | module_utils/gosibleModule/mode.go:117-175 | a letter given to a class names rwx bits of that class only, and no bits beyond 07777 |
| `Mode.PermBitAvoidsUmask` | module_utils/gosibleModule/mode.go:122-157 | without a user, r, w and x name no bit of the umask |
| `Mode.ApplyIsMasks` | module_utils/gosibleModule/mode.go:84-106 | each operator acts as one pair of masks; subtraction in `-` is the clearing of bits |
| `Mode.RunIsMasks` | module_utils/gosibleModule/mode.go:40-82 | any list of actions acts as one pair of masks on every mode |
| `Mode.RunTwice` | module_utils/gosibleModule/mode.go:40-82 | applying a list twice equals applying it once |
| `Mode.RunInRange` | module_utils/gosibleModule/mode.go:84-106 | a mode within 07777 stays there |
| `Mode.AssignIsExact` | module_utils/gosibleModule/mode.go:84-106 | `u=` and `g=` set the rwx bits of their class exactly and leave those of the other classes alone |
| `Mode.AssignOthers` | module_utils/gosibleModule/mode.go:84-106 | `o=` adds to the rwx bits as `o+` does, and drops all special bits but its own |
| `Mode.AssignOthersExactly` | module_utils/gosibleModule/mode.go:94-99 | `o=` sets the bits of others exactly if and only if the mode had none beyond those named |
| `Mode.AssignSpecialBits` | module_utils/gosibleModule/mode.go:90-99 | which special bits survive an assignment: the setuid bit under `u=`, the setgid bit under `g=`, none under `o=` |
| `Mode.RunSparesUmask` | module_utils/gosibleModule/mode.go:84-106 | adding and removing bits outside the umask changes no bit of the umask |
| `Mode.ClauseSparesUmask` | module_utils/gosibleModule/mode.go:40-82 | a clause with no users that adds or removes only r, w and x changes no bit of the umask |
| `Mode.RunUnderUmask` | module_utils/gosibleModule/mode.go:84-106 | actions that name no bit of the umask only clear some of its bits, those that "=" clears |
| `Mode.AssignClearsUmaskBits` | module_utils/gosibleModule/mode.go:40-82 | a clause without users and with "=" among its operators clears all bits of the umask but those of others; they survive if and only if the mode had none of the others set |
| `Cases.OthersKeepAll` | module_utils/gosibleModule/mode.go:94-99 | `o=r` leaves the mode 0777 as it is |
| `Cases.UmaskBitsCleared` | module_utils/gosibleModule/mode.go:40-82 | `=r` under umask 022 makes 0446 of 0666 |
| `Mode.CutExactly` | module_utils/gosibleModule/mode.go:43-54 | cutting a clause at its operators loses nothing and leaves no operator inside a piece |
| `Mode.AcceptedMode` | module_utils/gosibleModule/mode.go:40-82 | for a fixed file and umask every accepted text is one pair of masks, stays within 07777 and can be applied twice |
| `Mode.SymbolicModeToOctal` | module_utils/gosibleModule/mode.go:40-82 | accepts exactly the texts of legal clauses and yields the mode that their actions lead to from the file's own mode |
| `ModeText.OneOperator` | module_utils/gosibleModule/mode.go:40-115 | for every text of users, one operator and letters: when it is accepted, and exactly which of r, w and x each class has afterwards on any mode; no users and `a` name all three classes, and a class that is not named keeps what it had |
| `ModeText.ClausesInTurn` | module_utils/gosibleModule/mode.go:43-80 | two texts joined by a comma are accepted exactly when both are, and the second runs on what the first leaves |
| `ModeText.OperatorsInTurn` | module_utils/gosibleModule/mode.go:44-80 | several operators behind the same users do what several clauses with these users do |
| `ModeText.NoOperator` | module_utils/gosibleModule/mode.go:44-66 | a text without operators does nothing, and is accepted exactly when it consists of users |
| `Cases.OwnerReadsAndWrites` | module_utils/gosibleModule/mode.go:40-115 | `u=rw` makes 0600 of 0, and `u-rw` makes 0111 of 0711 |
| `Mode.RunClause` | module_utils/gosibleModule/mode.go:44-80 | one clause: refused exactly when it is not legal, else its actions follow those of the clauses before it |
| `Mode.RunItem` | module_utils/gosibleModule/mode.go:70-78 | one operator with its letters, applied for every user of the clause in turn |
| `Ordering.PrefixBetween` | e2e/diff/diff.go:140-146 | whatever lies between a prefix and its extension in string order has the prefix too |
| `Ordering.LeqExactly` | vars/manager.go:195-197 | one name comes before another when it is a prefix of it or has the smaller character where they first differ |
| `Ordering.SortByKeeps` | vars/manager.go:193-197 | sorting yields the same elements in order |
| `Ordering.SortUnique` | vars/manager.go:193-197 | where the key tells elements apart there is only one sorted arrangement |
| `Diff.NextIsEnough` | e2e/diff/diff.go:140-146 | in sorted order a path that the next one does not extend is extended by none, and does not occur again |
| `Diff.RejectDirs` | e2e/diff/diff.go:134-150 | the result is strictly sorted, free of duplicates, and holds exactly the paths that are no proper prefix of another; the input is sorted in place |
| `VarsManager.CombineVars` | vars/utils.go:15-26 | a copy of the first map overridden by the second; neither changes |
| `VarsManager.HighestWins` | vars/manager.go:100-156 | of layers merged one after the other the highest that defines a key has its value |
| `VarsManager.RegisteredAreIdentified` | inventory/common.go:123-130 | the names tell the groups of a registered host apart |
| `VarsManager.Manager.BaseInAnyOrder` | vars/manager.go:193-220 | the order in which a host lists its groups makes no difference to what is looked up for it |
| `VarsManager.LastNameDecides` | vars/manager.go:193-220 | of several direct groups that define a key the one whose name comes last decides |
| `VarsManager.SetMagicVars` | vars/manager.go:354-364 | the magic variables do not depend on the order in which the mapping is iterated |
| `VarsManager.LastSetExactly` | vars/manager.go:354-364 | an attribute is set exactly when one of its variables is, and from the last one named |
| `VarsManager.TemplateVarsTemplates` | vars/utils.go:38-57 | in whatever order, everything is rendered, or the whole fails exactly when one template does |
| `VarsManager.EarlyExtraVanishes` | vars/manager.go:133-149 | the two early passes of the extra variables leave no trace once they are merged last |
| `VarsManager.Precedence` | vars/manager.go:100-156 | every key comes from the highest defining layer in the order loop, magic, extra, set_fact, include, task, play, facts, host, group, and a key that none defines is absent |
| `VarsManager.Manager.GroupVars` | vars/manager.go:181-244 | sorts the groups of the host in place and merges the group layer of the configured precedence, whose meaning `VarsMeaning.LastEntryDecides` and `VarsMeaning.GroupsOverAll` state |
| `VarsMeaning.LastEntryDecides` | vars/manager.go:201-240 | for every precedence: the last of the entries for `all` and for the direct groups whose variables define the key decides it, and without one it is absent |
| `VarsMeaning.GroupsOverAll` | vars/manager.go:201-240 | with the direct groups after `all`, they decide a key they define, `all` decides the others it defines, and there are no more |
| `VarsMeaning.DefaultOrder` | config/base.yml:1979-1981 | the default precedence has the direct groups after `all` |
| `VarsMeaning.DirectValue` | vars/manager.go:193-220 | the direct groups give a key exactly when one of them defines it, with the value of the one whose name comes last |
| `VarsMeaning.RenderedExactly` | vars/utils.go:38-57 | a text that is no template stays, a template becomes what it yields, and one that fails makes the whole fail |
| `VarsMeaning.Environments` | vars/manager.go:133-141 | the play's variables are rendered with extra variables over facts over host over groups at hand, the task's with the play's variables below the extra ones as well |
| `VarsMeaning.WhereToConnect` | vars/manager.go:354-364 | address, user, port and passwords come from the variable named last in the mapping, and from the other one without it |
| `VarsManager.Manager.HostLayers` | vars/manager.go:249-276 | merges the host's variables and then its facts, or only the local ones where facts are not injected |
| `VarsManager.Manager.IncludeVars` | vars/manager.go:318-328 | merges included variables and then set facts, where the host has any |
| `VarsManager.Manager.LoopVars` | vars/manager.go:345-350 | merges the loop variables of the host, where there is one |
| `VarsManager.Manager.GetVars` | vars/manager.go:100-156 | pass by pass as coded, early extra variables included, the result is that of merging each layer once; it fails exactly when a template does, and changes nothing but the order of the host's groups, on which it does not depend where names tell groups apart |
| `VarsMeaning.WhereFrom` | vars/manager.go:100-156 | for every key, from which of the manager's tables, the host's own variables, the direct groups or `all` its value comes, facts being all or the local ones alone according to the setting; what none defines is absent |
| `VarsManager.Manager.ResetLoopContext` | vars/manager.go:379-383 | gives the host an empty loop context and touches no other |
| `VarsManager.Manager.SetLoopItem` | vars/manager.go:385-390 | sets the item in the loop context of the host and touches no other |
| `TaskLoop.ItemIsSeen` | vars/manager.go:342-350 | in a loop context a task sees the item, whatever other layer defines a variable of that name |
| `TaskLoop.LoopExactly` | executor/playbook_executor.go:263-268 | the first item that has no variables, or on which the action fails, decides: the action has run for exactly the items up to there, in the lookup of each, and the error is that of this item; without such an item there is no error |
| `TaskLoop.RunItem` | executor/playbook_executor.go:263-288 | one item: the action runs in the lookup with this item as the only loop variable, and the error is its error, or that there is no lookup |
| `TaskLoop.RunItems` | executor/playbook_executor.go:263-268 | the error and the sequence of variables that the action ran in are those of the loop over the items |
| `TaskLoop.ListItems` | executor/playbook_executor.go:254-261 | the items are listed in the lookup outside the loop; it fails exactly when there is no such lookup, or no list in it |
| `TaskLoop.RunLoop` | executor/playbook_executor.go:250-271 | the error and the sequence of variables that the action ran in are those of listing the items and looping over them; on every path out the loop context of the host is empty and no other host's is touched |
| `Sequence.SizeExactly` | plugins/lookup/sequence/sequence.go:131-141 | a member has not passed the end exactly when its index is below the size |
| `Sequence.MembersExactly` | plugins/lookup/sequence/sequence.go:131-141 | the members are exactly the numbers start + k * stride up to and including the end |
| `Sequence.CountGiven` | plugins/lookup/sequence/sequence.go:108-124 | which counts are accepted, and how many members each gives: as many as asked for with a positive stride, one more with a negative one, two more with -1 |
| `Sequence.EndGiven` | plugins/lookup/sequence/sequence.go:119-124 | an explicit end is accepted exactly when the stride points towards it, and the first member is the start |
| `Sequence.EndOfMinusOne` | plugins/lookup/sequence/sequence.go:101-103 | an end of -1 is refused as missing |
| `Sequence.CapacityExactly` | plugins/lookup/sequence/sequence.go:131-136 | for all limits and strides, when the capacity is not negative: the span fits, or misses a whole turn by less than a stride, or is half a turn backwards with a stride other than -1 |
| `Sequence.StopsExactly` | plugins/lookup/sequence/sequence.go:132-140 | for all limits and strides, the loop ends after as many rounds as there are members if and only if the index after the last member fits |
| `Sequence.InsideStops` | plugins/lookup/sequence/sequence.go:137-139 | while it fits, no index of the loop wraps |
| `Sequence.EdgeStops` | plugins/lookup/sequence/sequence.go:132-137 | with the end at the edge of the range the loop makes no round at all |
| `Sequence.UpToTheLargest` | plugins/lookup/sequence/sequence.go:131-137 | counting by ones to the largest integer crashes exactly for the starts from the smallest but one to 0, and yields no number for any |
| `Sequence.LoopsForEver` | plugins/lookup/sequence/sequence.go:132-139 | an accepted sequence of two members and capacity 1 whose loop stops after no number of rounds |
| `Cases.FiveForThree` | plugins/lookup/sequence/sequence.go:108-117 | three numbers from 10 down by ones are five |
| `Sequence.Seq.SanityCheck` | plugins/lookup/sequence/sequence.go:100-129 | the refusal, if any, and the limits that an accepted sequence is left with; the stride then points from start to end |
| `Sequence.Seq.GenerateSequence` | plugins/lookup/sequence/sequence.go:131-141 | crashes exactly on a negative capacity, yields nothing at the edge, and else ends with exactly the members in order |
| `Sequence.PromiseKept` | plugins/lookup/sequence/sequence.go:100-141 | an accepted term yields the numbers promised if and only if the capacity is not negative and the index after the last member fits |
| `Sequence.FormattedExactly` | plugins/lookup/sequence/sequence.go:125-138 | under an accepted format the number takes the place of the verb, and the text around it stays |
| `Sequence.DecimalReads` | plugins/lookup/sequence/sequence.go:137-139 | the decimals of a number, sign and all, read back as that number |
| `Sequence.Run` | plugins/lookup/sequence/sequence.go:145-170 | the members of all terms, formatted, one term after the other, up to the first that is refused or crashes |
| `Sequence.FirstFailure` | plugins/lookup/sequence/sequence.go:149-163 | whatever follows the first term that is refused or crashes, the lookup ends as that term does |
| `Sequence.LookedConcat` | plugins/lookup/sequence/sequence.go:145-170 | the items of the terms follow each other in the order of the terms, none left out |
| `Pip.InBracketsExactly` | modules/pip/pip.go:271-276 | the flag is set exactly when some part opened a bracket and none from there on closed one |
| `Pip.RecoverPackageName` | modules/pip/pip.go:254-281 | the two loops compute the packages of the specification |
| `Pip.GroupsHoldTheParts` | modules/pip/pip.go:263-281 | the packages are the parts, in order, none of them lost or used twice |
| `Pip.TextConserved` | modules/pip/pip.go:254-281 | joined by commas, what comes out is what went in |
| `Pip.OnlyTheTextMatters` | modules/pip/pip.go:254-259 | how the input was cut into names does not matter, only its text does |
| `Pip.Idempotent` | modules/pip/pip.go:254-281 | recovering what has been recovered changes nothing |
| `Pip.CutsExactly` | modules/pip/pip.go:263-278 | a package other than the first starts exactly at the parts that are no version specifier and stand outside brackets |
| `Pip.SpecifierExactly` | modules/pip/pip.go:283-291 | a part is a package name unless, spaces aside, it starts with a comparison: `<`, `>`, `==`, `!=` or `~=` |
| `Callbacks.PersistentEventLeavesNoOneWaiting` | utils/callbacks/callbacks.go:26-72 | over every history, once an event is persistent no one-shot callback waits for it until a purge |
| `Callbacks.ForGoodExactly` | utils/callbacks/callbacks.go:45-78 | an event is persistent exactly when it was registered as such and nothing was purged since |
| `Callbacks.RunsFromHere` | utils/callbacks/callbacks.go:26-39 | how often a callback still runs follows from what waits and how often its event occurs before the next purge |
| `Callbacks.RunsExactly` | utils/callbacks/callbacks.go:26-78 | over every history, how often a callback runs: a one-shot one at most once, and once exactly if its event was persistent or occurs later; a persistent one once per later occurrence, and once more if its event was persistent |
| `Callbacks.EventRunsInOrder` | utils/callbacks/callbacks.go:26-39 | after every history an event runs the persistent callbacks scheduled since the last purge and then the one-shots scheduled since it last occurred, each in the order of scheduling |
| `Callbacks.Registry.RegisterEvent` | utils/callbacks/callbacks.go:26-39 | runs all that waits, persistent callbacks first, and empties the one-shot list; an event nobody waits for changes nothing |
| `Callbacks.Registry.RegisterPersistentEvent` | utils/callbacks/callbacks.go:45-48 | marks the event and runs all that waits for it |
| `Callbacks.Registry.ScheduleCallback` | utils/callbacks/callbacks.go:51-72 | runs the callback at once for a persistent event, and adds it to the list it has to wait in, if any |
| `Callbacks.Registry.Purge` | utils/callbacks/callbacks.go:75-78 | forgets all callbacks and all persistent events |

## Left out

- Template rendering: whether a text is a template and what it yields in an environment are parameters.
- The YAML inventory, regular expressions and file reading: lines come classified, with what each data parser makes of them.
- Values of variables are opaque texts, and an empty table of facts is one fixed text.
- Meta tasks: a play has none.
- A task on a host in `Play` is an uninterpreted deterministic step on that host's own state; its connection and banner are part of that step. The loop inside such a step is modelled in `TaskLoop`.
- Several plays one after the other, and the closing of connections after a play.
- The order in which the hosts of a play occupy the slots of a fan-out: it only orders the texts of a combined error.
- Error texts, except that combined errors keep those of their parts.
- Connections, SSH, gRPC, becoming another user, the command line, configuration tables and display.
- Facts are read but not stored: the manager of a running program has no tables to store them in.
- `ParseKeyValuePairsString`, the decoding of escapes and unquoting, and which parameters count as raw.
- Strings are sequences of characters, not bytes; the tokenizer looks at one-byte characters only.
- PythonExecutor.Server.Step: a printed line that happens to carry the outstanding tag does not occur, and a line is read or written whole or not at all.
- PythonExecutor.Executor.ExecuteCommand: the two commands that the server has handlers for, which are all that the program sends.
- Sequence.Seq.GenerateSequence: requires that the loop is not run, or that the index after the last member fits into 64 bits; otherwise the index wraps past the end, the loop goes on with other numbers and may never stop, see `Sequence.LoopsForEver`.
- Sequence.Run: requires the same of every term. The arguments of a term are taken as read, and a capacity beyond the memory of the machine is not told from one that fits.
- Sequence.CountGiven: requires that the end that stands for the count fits into 64 bits; otherwise it wraps, and the term is one with an explicit end.
- Callbacks.Registry.RegisterEvent: callbacks do not call back into the package.
- TaskLoop.RunLoop: checking the conditions and running the action is one function of the variables, and stores no facts. It is proved for hosts whose groups are told apart by name, as those of every registered host are.
- Diff.RejectDirs: the rest of the image comparison is not part of this model.
