# Verification of core algorithms of Z-Wave JS

A Dafny model of the parts of this repository that hold real algorithms, with machine-checked proofs of what those
algorithms guarantee. `dafny verify dfyconfig.toml` checks everything.

Each component is modelled in the form the source has. Code that changes state is a class or a method with its loops,
proved equal to a specification function; code that only computes is a function. What the source promises is then proved
about the specification functions, over all inputs and, for stateful components, over all runs.

| component | files |
|---|---|
| Dirty-test walk over the import graph | `ResolveDirtyTests.dfy` |
| `$import` templates: syntax, selection, expansion, success condition, meaning, caches | `Text.dfy`, `Json.dfy`, `ImportSpecifier.dfy`, `TemplateSpec.dfy`, `TemplateImports.dfy`, `TemplateExpansion.dfy`, `TemplateReader.dfy`, `TemplateSelection.dfy` |
| Condition language: tokenizer, grammar and parser, printer, JSON Logic, versions | `LogicTokenizer.dfy`, `LogicParser.dfy`, `LogicParserState.dfy`, `LogicPrinter.dfy`, `LogicParentheses.dfy`, `LogicRules.dfy`, `LogicTokens.dfy`, `LogicVersions.dfy` |
| Write-behind IndexedDB cache | `WriteBehind.dfy`, `WriteBehindRuns.dfy`, `WriteBehindEarly.dfy` |
| `AsyncQueue` and its histories | `AsyncQueue.dfy`, `QueueHistory.dfy` |
| Mock radio between a controller and nodes | `MockRadio.dfy`, `MockParties.dfy`, `MockExecution.dfy` |
| NVM node table, and conversion between the 500 and 700 series | `NodeTable.dfy`, `NvmConvert.dfy` |
| `setImmediate` polyfill | `SetImmediate.dfy` |
| Binary and linear search | `DiscreteSearch.dfy` |
| Hexadecimal and integer codecs | `HexCodec.dfy`, `ByteCodec.dfy`, `ByteBuffer.dfy` |
| Shared datatypes and searching | `Wrappers.dfy`, `Collections.dfy` |

Stateful systems are step systems with history: `WriteBehindRuns` (any number of caches over one store, written to at
any time), `QueueHistory` (any interleaving of calls), `MockRadio` (senders, nodes that come and go, deliveries),
`MockExecution` (the delivery loop over the real queue, which refines `MockRadio`), `SetImmediate` (calls, events and
nested events), and the call histories in `TemplateReader`. The effect of a step is the contract of the method it stands
for.

## Where the code does less than its documentation or its name says

Each of these is proved, with the exact condition under which the promise holds.

- `readUIntBE` shifts the upper four bytes by 32 bits for the widths 5 and 6, so of the values that fit, exactly those
  come back whose upper four bytes are zero; the example in its documentation is not among them
  (`WideBigEndianRoundTripIff`, `DocumentedExampleFails`).
- `ver !==` is generated by the translation of conditions, but no such operator is registered: evaluation throws exactly
  if it comes to a version inequality (`TranslationKeepsMeaning`, `VersionInequalityThrows`).
- `AsyncQueue.end` does not resolve consumers that are waiting already: whoever waits when it is called is resolved
  exactly if `abort` is called later (`WaitingAfterEndIff`, `EndLeavesConsumersWaiting`).
- What is written to a cache between a call of `open` and its completion can be hidden by the stored entries, which the
  cursor reads one by one while other code runs: memory and store agree then exactly if, for every stored key, some
  write touches the key after its record was read or the writes before that leave the entry as it was
  (`EarlyWritesIff`); a run in which they disagree for good is `EarlySetIsHidden`.
- The k-th acknowledgement on a mock link answers the k-th delivered request exactly if no acknowledgement of an earlier
  request was dropped because its node was removed (`AcksAnswerInOrderIff`, `LoopAcksInOrderIff`, `RemovalShiftsAcks`).
- The conversion 700 → 500 → 700 changes the node ID and the controller configuration in some cases (`NodeIdKeptIff`,
  `ConfigurationKeptIff`, `UnchangedIff`, `IdentityCanChange`), and a node with one of the two cached routes comes back
  with the other one filled in (`GatherInvertsScatter`, `OneRouteIsFilledIn`).

## Model

| member | source | states |
|---|---|---|
| DirtyTests.ResolveDirtyTests | packages/maintenance/src/resolveDirtyTests.ts:222-275 | for every graph and order of tests, a scanned test is reported iff it is changed or reaches a changed file through non-external imports; every marked file reaches a change and is changed itself or imported by a scanned test; all walks terminate |
| DirtyTests.Walk | packages/maintenance/src/resolveDirtyTests.ts:230-269 | one walk, cut short by files that earlier walks marked: the root is dirty afterwards iff it reaches a change, and only files it imports are marked |
| DirtyTests.Expand | packages/maintenance/src/resolveDirtyTests.ts:236-268 | the loop over imports: the whole import stack is marked iff some import is dirty; what is queued is unvisited, not dirty and has its path as import stack; every import is then visited, queued or dirty |
| DirtyTests.MarkStack | packages/maintenance/src/resolveDirtyTests.ts:259-261 | the inner loop marks the whole import stack and nothing else |
| DirtyTests.WalkStep | packages/maintenance/src/resolveDirtyTests.ts:233-269 | every step keeps the walk invariant and decreases (unvisited files, position of the first unvisited queue entry), duplicates included |
| DirtyTests.DuplicateMakesProgress | packages/maintenance/src/resolveDirtyTests.ts:233-234 | dequeuing a duplicate brings the first unvisited queue entry forward |
| DirtyTests.StackReaches | packages/maintenance/src/resolveDirtyTests.ts:256-261 | every file on an import stack in front of a file that reaches a change reaches it too |
| DirtyTests.DuplicatePushesNothing | packages/maintenance/src/resolveDirtyTests.ts:233-269 | when only visited files are queued, expanding a duplicate queues nothing |
| DirtyTests.WalkIsComplete | packages/maintenance/src/resolveDirtyTests.ts:233-269 | with an empty queue, the root is dirty iff it reaches a change |
| DirtyTests.ClosedWalkMissesChanges | packages/maintenance/src/resolveDirtyTests.ts:233-269 | visited files that are closed under imports and import nothing dirty contain every path, so no change can be reached |
| DirtyTests.StackBecomesDirty | packages/maintenance/src/resolveDirtyTests.ts:256-261 | marking an import stack marks only files that reach a change, and always the test itself |
| ImportSpecifier.ParseSpecifier | packages/config/src/JsonTemplate.ts:9-10 | the parts of an import specifier put together give it back; a selector is not empty and holds no `#` |
| TemplateSelection.SpecifierIff | packages/config/src/JsonTemplate.ts:9-10 | exactly which texts the regular expression matches, and with which file name and selector |
| Json.LookupAssign | packages/config/src/JsonTemplate.ts:289-289 | `Object.assign`: the assigned object wins wherever it has the key |
| Json.PutKeepsOrder | packages/config/src/JsonTemplate.ts:290-322 | assigning a property keeps the order of the keys; a new key comes last |
| TemplateSpec.BudgetShrinks | packages/config/src/JsonTemplate.ts:160-170 | pushing a loadable specifier that is not on the stack uses up a finite set of specifiers, which is why resolution terminates |
| TemplateSpec.LoadImports | packages/config/src/JsonTemplate.ts:86-115 | whatever a selector selects can import only what some file imports |
| TemplateSelection.PartIsPicked | packages/config/src/JsonTemplate.ts:92-107 | what one part of a selector picks: the first parameter with that number, without the number and with all its other fields; else the property, array element or length; a type fault for null and undefined |
| TemplateSelection.SelectorIsFollowed | packages/config/src/JsonTemplate.ts:86-115 | a selector picks part after part, skips empty parts and must end at an object; each outcome with its cause |
| TemplateSelection.LoadedFields | packages/config/src/JsonTemplate.ts:172-199 | what is loaded for a target: the fields of the file or of what its selector finds, or the error |
| TemplateSelection.TargetIff | packages/config/src/JsonTemplate.ts:216-278 | exactly which file and selector an import leads to: the same file, a sibling, or the first root directory that holds it; everything else is an invalid configuration |
| TemplateImports.ResolutionSucceedsIff | packages/config/src/JsonTemplate.ts:130-325 | resolution succeeds iff on every import chain from the file the last file is usable and no specifier repeats |
| TemplateImports.ResolvesIffNoneRepeats | packages/config/src/JsonTemplate.ts:160-170 | when all reachable specifiers, files and selectors are valid: success iff no import chain repeats a specifier, and the circular-import error otherwise |
| TemplateImports.RepeatsIffCycle | packages/config/src/JsonTemplate.ts:80-84 | if no file name holds a `#`, a repeated specifier is an import cycle |
| TemplateImports.ResolvesIffAcyclic | packages/config/src/JsonTemplate.ts:160-170 | for file names without `#`: success iff the reachable imports are acyclic |
| TemplateImports.UsableOkOrCircular | packages/config/src/JsonTemplate.ts:160-170 | if every reachable file is usable, no other error can arise |
| TemplateImports.FileResolves | packages/config/src/JsonTemplate.ts:130-200 | a file resolves iff it is allowed, not on the stack, loads, and everything it imports resolves |
| TemplateImports.SpecifiersDiffer | packages/config/src/JsonTemplate.ts:80-84 | file names without `#` make specifiers unique |
| TemplateExpansion.ResolutionIsTheExpansion | packages/config/src/JsonTemplate.ts:203-325 | a successful result is what any solution of the import equations says, whatever the import stack was |
| TemplateExpansion.ExpansionSolvesTheEquations | packages/config/src/JsonTemplate.ts:203-325 | the results of resolution solve the import equations |
| TemplateExpansion.StackDoesNotMatter | packages/config/src/JsonTemplate.ts:130-200 | two import stacks that admit a result admit the same one |
| TemplateExpansion.ShorterStackResolves | packages/config/src/JsonTemplate.ts:160-170 | a longer import stack can only turn a result into an error |
| TemplateExpansion.LaterKeysOverride | packages/config/src/JsonTemplate.ts:213-323 | a key's value comes from the last field or import that provides it |
| TemplateSelection.PropertyIsResolved | packages/config/src/JsonTemplate.ts:290-322 | a property that nothing later overrides holds its resolved value: objects and direct array elements are resolved, everything else stays as it is, in place |
| TemplateSelection.ImportIsResolved | packages/config/src/JsonTemplate.ts:214-289 | the last import of an object: every key of the imported file that no later field overrides |
| TemplateSelection.OutsideIsRefused | packages/config/src/JsonTemplate.ts:140-170 | a file outside all root directories is refused first, then one on the import stack; every other file resolves iff it loads and its imports resolve |
| TemplateExpansion.ResolvedFileIsClean | packages/config/src/JsonTemplate.ts:202-325 | no `$import` key remains in any object reached through object properties and direct array elements, and no key occurs twice |
| TemplateReader.Select | packages/config/src/JsonTemplate.ts:86-115 | the selection loop computes the specified selection, including the lookup of parameters by `#` |
| TemplateReader.ResolvePath | packages/config/src/JsonTemplate.ts:216-278 | the target of an import, including the search through root directories, and its errors |
| TemplateReader.ReadInternal | packages/config/src/JsonTemplate.ts:130-200 | reading through any cache equals cache-free resolution of the files as seen through it; the cache grows by exactly the files on the import chains |
| TemplateReader.ResolveJsonImports | packages/config/src/JsonTemplate.ts:203-325 | the same for the loop over properties |
| TemplateReader.ResolveProperty | packages/config/src/JsonTemplate.ts:290-322 | the same for objects, arrays and other values |
| TemplateReader.FilesOfFile | packages/config/src/JsonTemplate.ts:172-199 | the files a read needs: the file, and those on the chains from what it imports |
| TemplateReader.Reader.ReadJsonWithTemplate | packages/config/src/JsonTemplate.ts:23-56 | under any root directories and with a consistent template cache, the result of an uncached read; a success adds exactly the templates on the import chains, a failure changes nothing |
| TemplateReader.Reader.ClearTemplateCache | packages/config/src/JsonTemplate.ts:17-20 | empties the cache |
| TemplateReader.CachesStayConsistent | packages/config/src/JsonTemplate.ts:37-55 | over any sequence of reads, each with its own root directories, and clears, cached entries equal the parsed files |
| TemplateReader.TemplateCacheIsTransparent | packages/config/src/JsonTemplate.ts:17-56 | over any sequence of reads, each with its own root directories, and clears, every read returns what an uncached read with those directories returns |
| TemplateReader.Reader.RememberTemplates | packages/config/src/JsonTemplate.ts:48-53 | the loop at the end of a read adds exactly the templates among the parsed files |
| TemplateSelection.TemplateIff | packages/config/src/JsonTemplate.ts:49-53 | templates are the files in a directory called `templates`, at any depth |
| TemplateReader.OverlappingReadsAreTransparent | packages/config/src/JsonTemplate.ts:17-56 | however reads and clears overlap in time, every read returns what an uncached read with its root directories returns |
| LogicTokenizer.Tokenize | packages/config/src/LogicParser.ts:92-226 | the index loop yields the specified tokens, or the position of the unexpected character |
| LogicTokenizer.Scan | packages/config/src/LogicParser.ts:94-165 | the operator cases; a lone bar, ampersand, equals sign or exclamation mark is skipped |
| LogicTokenizer.ScanWord | packages/config/src/LogicParser.ts:166-224 | white space, hexadecimal and decimal numbers, identifiers |
| LogicTokens.LongestToken | packages/config/src/LogicParser.ts:92-226 | every step takes the longest token the input starts with; if there is none, white space and lone operator characters are skipped, and anything else is an error |
| LogicTokens.NumeralsArePositional | packages/config/src/LogicParser.ts:475-484 | number tokens have their positional value, hexadecimal and decimal, also with leading zeros and capital digits; a bare `0x` is not a number |
| LogicParserState.ParserState.ParseExpressionAt | packages/config/src/LogicParser.ts:252-254 | on success the position is that of the parsing function, strictly further on; on failure it is restored |
| LogicParserState.ParserState.ParseAndAt | packages/config/src/LogicParser.ts:256-299 | the same for conjunctions, including the loop that backs up before a dangling `&&` |
| LogicParserState.ParserState.ParseOrAt | packages/config/src/LogicParser.ts:301-344 | the same for disjunctions |
| LogicParserState.ParserState.ParseGroupAt | packages/config/src/LogicParser.ts:346-368 | the same for parentheses |
| LogicParserState.ParserState.ParseComparisonAt | packages/config/src/LogicParser.ts:370-401 | the same for comparisons; an identifier on the right throws |
| LogicParserState.ParserState.ParseVersionAt | packages/config/src/LogicParser.ts:441-473 | the same for versions of two or three parts |
| LogicParserState.ParseInput | packages/config/src/LogicParser.ts:234-250 | a tree, `undefined` or an exception, as the specification says |
| LogicParser.ParserDecidesGrammar | packages/config/src/LogicParser.ts:234-473 | the parser returns a tree iff the whole token list derives it, with conjunction binding tighter than disjunction; `undefined` iff there are no tokens |
| LogicParser.ExpressionSound | packages/config/src/LogicParser.ts:252-401 | whatever is parsed at a position is derived by the tokens moved past |
| LogicParser.ExpressionComplete | packages/config/src/LogicParser.ts:252-401 | whatever is derived in front of an end or a closing parenthesis is found by the backtracking parser |
| LogicParser.DerivationsAreUnique | packages/config/src/LogicParser.ts:252-401 | the grammar is unambiguous |
| LogicTokens.SpellingDoesNotMatter | packages/config/src/LogicParser.ts:411-439 | replacing `==` by `===` or `!=` by `!==`, anywhere in the tokens, changes nothing |
| LogicPrinter.PrintThenParse | packages/config/src/LogicParser.ts:92-484 | for every tree with at least two operands per `And`/`Or`, tokenizing and parsing its minimally parenthesised text gives exactly that tree |
| LogicPrinter.LexTree | packages/config/src/LogicParser.ts:92-226 | the text of a tree tokenizes to a derivation of it, in front of any text that does not continue it |
| LogicRules.TranslationKeepsMeaning | packages/config/src/LogicParser.ts:486-532 | applying the translated rules gives the direct truth value, or throws iff evaluation comes to a version inequality |
| LogicParentheses.FewestParentheses | packages/config/src/LogicParser.ts:234-401 | no text that parses to a tree has fewer pairs of parentheses than the rendering of that tree |
| LogicParentheses.ExprNeeds | packages/config/src/LogicParser.ts:252-401 | every derivation of a tree has at least as many parentheses as precedence requires |
| LogicRules.CompareIsLexicographic | packages/config/src/Logic.ts:26-45 | the version comparison is the lexicographic order |
| LogicRules.NoInequalityIsMet | packages/config/src/LogicParser.ts:496-511 | an expression without version inequality never comes to one |
| LogicRules.VersionInequalityThrows | packages/config/src/Logic.ts:42-61 | `v !== 2.0` throws although it has a truth value |
| LogicRules.ParsedIsNonEmpty | packages/config/src/LogicParser.ts:234-344 | every `And` and `Or` that the parser returns has an operand |
| LogicRules.EvaluateIsTruth | packages/config/src/Logic.ts:47-61 | for every text and context: `evaluate` throws iff the text does not parse or evaluation comes to a version inequality, and returns the truth value of the parsed expression otherwise |
| LogicRules.EvaluatePrinted | packages/config/src/Logic.ts:55-61 | for the rendering of an expression without version inequality: its truth value, in every context |
| LogicVersions.PaddedTripleIff | packages/shared/src/utils.ts:144-147 | exactly which texts are which version once they are padded, and that all others are none |
| LogicVersions.VersionComparison | packages/config/src/Logic.ts:26-61 | from text to truth: comparing a variable with a version, each of two or three parts, is the lexicographic comparison of the padded versions, for all five registered operators |
| LogicVersions.NoVersionIsFalse | packages/config/src/Logic.ts:13-45 | a variable that holds no version makes every such comparison false |
| LogicVersions.NumberComparison | packages/config/src/Logic.ts:47-61 | from text to truth: comparing a variable of any kind with an integer, for all six operators |
| WriteBehind.IndexedDBCache.Set | packages/bindings-browser/src/db/browser.ts:106-119 | the key holds the value with a new or the kept timestamp, other keys stay, and a transaction with the same record is queued |
| WriteBehind.IndexedDBCache.Delete | packages/bindings-browser/src/db/browser.ts:128-135 | memory and queue after `delete`, and whether the key was there |
| WriteBehind.IndexedDBCache.Clear | packages/bindings-browser/src/db/browser.ts:155-160 | memory and queue after `clear` |
| WriteBehind.IndexedDBCache.Open | packages/bindings-browser/src/db/browser.ts:51-55 | `open` queues a reading transaction |
| WriteBehind.IndexedDBCache.Close | packages/bindings-browser/src/db/browser.ts:77-80 | `close` empties the memory and leaves queued writes alone |
| WriteBehind.IndexedDBCache.Commit | packages/bindings-browser/src/db/browser.ts:90-153 | a queued write changes the store as specified |
| WriteBehind.IndexedDBCache.OnSuccess | packages/bindings-browser/src/db/browser.ts:57-74 | one event of the cursor of `open`: a record of this file goes to memory, any other is skipped; without a record `open` is done |
| WriteBehind.IndexedDBCache.ReadWithCursor | packages/bindings-browser/src/db/browser.ts:51-75 | if nothing runs between its events, the cursor of `open` adds exactly the records of this file |
| WriteBehind.IndexedDBCache.DeleteWithCursor | packages/bindings-browser/src/db/browser.ts:137-153 | the cursor of `clear` deletes exactly the records of this file |
| WriteBehind.OwnWrite | packages/bindings-browser/src/db/browser.ts:90-153 | a write to the store is, for its own file, the same change as in memory |
| WriteBehind.OtherWrite | packages/bindings-browser/src/db/browser.ts:90-153 | a write changes nothing of another file |
| WriteBehindRuns.StepKeepsInv | packages/bindings-browser/src/db/browser.ts:51-160 | every step of every cache keeps the refinement invariant of all caches |
| WriteBehindRuns.OthersUntouched | packages/bindings-browser/src/db/browser.ts:51-160 | no step of one cache changes what another one holds, now or after its queued writes |
| WriteBehindRuns.CacheShowsEventualStore | packages/bindings-browser/src/db/browser.ts:51-160 | in every reachable state, an opened cache that was not written to while opening holds, with timestamps, exactly what the store will hold for its file after its queued writes |
| WriteBehindRuns.ReopenRestoresContent | packages/bindings-browser/src/db/browser.ts:51-80 | closing and opening again restores the same content, whatever other caches do and however far the writes had come |
| WriteBehindRuns.ReadsAnswerEventualStore | packages/bindings-browser/src/db/browser.ts:82-164 | `has`, `get` and `getTimestamp` of an opened cache answer what the store will hold under that key after the queued writes |
| WriteBehindRuns.SetIsStored | packages/bindings-browser/src/db/browser.ts:90-119 | after `set` the key has the value, with the current or the kept timestamp, in memory and in what the store will hold, and nothing else changes |
| WriteBehindRuns.DeleteIsStored | packages/bindings-browser/src/db/browser.ts:121-135 | after `delete` the key is gone from both, and nothing else changes |
| WriteBehindRuns.ClearIsStored | packages/bindings-browser/src/db/browser.ts:137-160 | after `clear` memory is empty, the store will hold no record of this file, and all records of others |
| WriteBehindRuns.SetReachesStore | packages/bindings-browser/src/db/browser.ts:90-119 | over runs: once the queue of the cache is empty, the store holds the record that `set` made, whatever happened since other than writes to the same cache |
| WriteBehindRuns.AgreementIsKept | packages/bindings-browser/src/db/browser.ts:77-160 | an opened cache that agrees with what the store will hold, also after early writes, keeps agreeing under every step but its own `open` or `close` |
| WriteBehindRuns.AgreementLasts | packages/bindings-browser/src/db/browser.ts:77-160 | the same over runs |
| WriteBehindRuns.AwaitedIsNeverEarly | packages/bindings-browser/src/db/browser.ts:51-160 | a cache whose callers await `open` never counts as written to early, so that the refinement holds for it |
| WriteBehindEarly.EarlyWritesIff | packages/bindings-browser/src/db/browser.ts:51-160 | `open` called in any reachable state, with writes still queued and any calls of `set`, `delete` and `clear` before it resolves, also between two events of its cursor: memory and store agree iff for every stored key some write touches the key after its record was read, or the writes before that leave the entry as it was |
| WriteBehindEarly.ReadyIff | packages/bindings-browser/src/db/browser.ts:57-74 | the same for the moment at which the cursor comes to the end |
| WriteBehindEarly.AgreesIff | packages/bindings-browser/src/db/browser.ts:57-119 | the same for any order of writes and reads in which every stored record is read once |
| WriteBehindEarly.UndoneWritesAreSafe | packages/bindings-browser/src/db/browser.ts:57-119 | writes that in the end leave an entry as it was do no harm to it, whenever its record is read |
| WriteBehindEarly.LateSetIsSeen | packages/bindings-browser/src/db/browser.ts:57-119 | a `set` after the record was read: memory and store agree although the entry changes |
| WriteBehindEarly.EarlySetIsHidden | packages/bindings-browser/src/db/browser.ts:51-119 | a run after which nothing is queued, the store holds the new value and `get` answers the old one |
| AsyncQueues.AsyncQueue.Add | packages/shared/src/AsyncQueue.ts:8-20 | the hand-over loop: waiting consumers first, the rest to the backlog; nothing once ended |
| AsyncQueues.AsyncQueue.Remove | packages/shared/src/AsyncQueue.ts:26-37 | removes the first occurrence in the backlog, and says whether there was one |
| AsyncQueues.AsyncQueue.Abort | packages/shared/src/AsyncQueue.ts:57-76 | discards the backlog and resolves all listeners with `undefined` |
| AsyncQueues.AsyncQueue.End | packages/shared/src/AsyncQueue.ts:52-54 | only marks the queue as ended |
| AsyncQueues.AsyncQueue.Next | packages/shared/src/AsyncQueue.ts:80-91 | takes the head of the backlog, waits, or is done |
| QueueHistory.CallKeepsInv | packages/shared/src/AsyncQueue.ts:8-102 | every call keeps conservation, order and hand-over |
| QueueHistory.NeverWaitingWithBacklog | packages/shared/src/AsyncQueue.ts:8-102 | after any calls, waiting consumers and backlog are never both non-empty |
| QueueHistory.ItemsAreConserved | packages/shared/src/AsyncQueue.ts:8-102 | every accepted item is exactly once one of delivered, in the backlog, removed or discarded |
| QueueHistory.ServedInOrder | packages/shared/src/AsyncQueue.ts:8-102 | the k-th pull that is served gets the k-th accepted item that was not removed, and a waiting pull is resolved with it |
| QueueHistory.NextPullGets | packages/shared/src/AsyncQueue.ts:80-100 | after any calls, what a further pull returns: the next accepted item that was not removed; or it waits, as the last in line, iff neither `end` nor `abort` was called; or it is done |
| QueueHistory.EndedQueueDrains | packages/shared/src/AsyncQueue.ts:51-54 | a queue that has ended gives out its backlog in order, and is done from then on |
| QueueHistory.RemovableIff | packages/shared/src/AsyncQueue.ts:22-37 | after any calls, an item can be removed iff it is in the backlog and neither `end` nor `abort` was called; the first one is taken |
| QueueHistory.WaitingAfterEndIff | packages/shared/src/AsyncQueue.ts:51-76 | a consumer that waits when `end` is called is resolved iff `abort` is called later |
| QueueHistory.EndLeavesConsumersWaiting | packages/shared/src/AsyncQueue.ts:51-54 | such a consumer exists: the first pull of a new queue waits, also after `end` |
| QueueHistory.EndedStep | packages/shared/src/AsyncQueue.ts:51-76 | once ended, no call but `abort` resolves a promise, and `abort` resolves every listener |
| QueueHistory.KeptWithout | packages/shared/src/AsyncQueue.ts:30-34 | removing one item takes exactly its place out of the order |
| MockRadio.DeliveredInSendOrder | packages/testing/src/MockController.ts:634-704 | in every run, delivered frames are the sent ones in order; a frame survives iff exactly one of its ends is the controller and its node exists at the step that takes the frame |
| MockRadio.SentByStep | packages/testing/src/MockController.ts:582-646 | which frames a step sends: requests with their two ends, and for a delivered request one acknowledgement back to where it came from |
| MockRadio.AcksAnswerInOrderIff | packages/testing/src/MockController.ts:582-646 | on every link the k-th acknowledgement received answers the k-th delivered request iff no earlier one was dropped |
| MockRadio.AcksAnswerInOrder | packages/testing/src/MockController.ts:582-646 | hence always, as long as no node is removed |
| MockRadio.NoAckIsLost | packages/testing/src/MockController.ts:676-704 | without removals, no acknowledgement is dropped |
| MockRadio.StepKeepsAckInv | packages/testing/src/MockNode.ts:439-448 | every step keeps the matching of acknowledgements and requests on every link |
| MockRadio.AirEmpties | packages/testing/src/MockController.ts:676-704 | without new sends and with all nodes present, the air is empty after exactly 2 · requests + acknowledgements deliveries, and never stuck before |
| MockParties.MockController.FindNode | packages/testing/src/MockController.ts:676-693 | the node at the other end of a frame that has exactly one end at the controller, if it exists |
| MockParties.MockController.Transmit | packages/testing/src/MockController.ts:682-702 | delivering a frame records it and queues exactly the acknowledgement that the step system says |
| MockParties.MockController.OnNodeFrame | packages/testing/src/MockController.ts:582-592 | acknowledges requests only, and only if told to |
| MockParties.MockController.SendToNode | packages/testing/src/MockController.ts:634-646 | queues the frame with the node as its target |
| MockParties.MockNode.OnControllerFrame | packages/testing/src/MockNode.ts:439-448 | records the frame, acknowledges requests if told to |
| MockParties.MockNode.SendToController | packages/testing/src/MockNode.ts:422-437 | queues the frame with the node as its source |
| MockParties.AddAppends | packages/testing/src/MockController.ts:638-641 | with a single consumer, adding a frame appends it to what the consumer will see |
| MockParties.PullTakesHead | packages/testing/src/MockController.ts:676-677 | with a single consumer, a pull takes the head of that line or starts to wait on an empty one |
| MockParties.ResumeTakesHead | packages/testing/src/MockController.ts:676-677 | a waiting consumer that is resolved goes on with the head of that line |
| MockExecution.MoveIsAStep | packages/testing/src/MockController.ts:676-704 | every move of the delivery loop over the real queue - pulling, waiting, resuming, transmitting - is a step of the radio or invisible |
| MockExecution.ExecutionIsARun | packages/testing/src/MockController.ts:676-704 | every execution of the loop is a run of the radio with the same frames and the same outside calls |
| MockExecution.ExecutionIsARunFrom | packages/testing/src/MockController.ts:676-704 | the same from any point of an execution, with the same number of deliveries |
| MockExecution.LoopDeliversInSendOrder | packages/testing/src/MockController.ts:634-704 | the loop delivers the sent frames in order, a frame iff exactly one of its ends is the controller and its node exists when the loop takes the frame, and will see exactly the rest |
| MockExecution.LoopAcksInOrder | packages/testing/src/MockController.ts:582-704 | without removals, the k-th acknowledgement on a link answers the k-th delivered request, for the loop over the real queue |
| MockExecution.LoopAcksInOrderIff | packages/testing/src/MockController.ts:582-704 | whatever nodes come and go, acknowledgements answer requests in order iff no earlier one was dropped, for the loop over the real queue |
| MockExecution.LoopEmptiesAir | packages/testing/src/MockController.ts:676-704 | without new sends and with all nodes present, the loop is done after exactly 2 · requests + acknowledgements deliveries, and never stuck before |
| MockExecution.LoopIsNeverStuck | packages/testing/src/MockController.ts:676-704 | no wake-up is missed: while there are frames to see or to transmit, the loop can go on |
| MockParties.RemovalShiftsAcks | packages/testing/src/MockController.ts:263-268 | a run in which the first acknowledgement a node receives answers its second request |
| NodeTable.NVMAdapter.WriteNodes | packages/nvmedit/src/convert.ts:1452-1556 | the loop over the node entries writes the specified ID sets, infos and routes |
| NodeTable.NVMAdapter.ReadNodes | packages/nvmedit/src/convert.ts:826-896 | the loop over the node IDs reads the specified table, or fails if a property is missing |
| NodeTable.GatherInvertsScatter | packages/nvmedit/src/convert.ts:1452-1556 | writing any table and reading it back gives exactly the nodes with information, with a missing one of two routes filled in |
| NodeTable.WrittenFor | packages/nvmedit/src/convert.ts:1471-1555 | for every node: in which ID sets it is written, and with which info and routes |
| NodeTable.ReadFrom | packages/nvmedit/src/convert.ts:826-896 | reading any properties: when it fails, and what the entry of every listed node is |
| NodeTable.FlagsAndInfoSurvive | packages/nvmedit/src/convert.ts:826-896 | every node with information comes back with the same information, the same five flags and its routes |
| NodeTable.OneRouteIsFilledIn | packages/nvmedit/src/convert.ts:1493-1502 | a table that does not come back unchanged |
| NodeTable.OnlyBareVirtualNodesAreLost | packages/nvmedit/src/convert.ts:235-237 | the entries that do not come back are exactly the virtual nodes without information |
| NodeTable.UnchangedIff | packages/nvmedit/src/convert.ts:1470-1502 | which tables come back unchanged |
| NodeTable.SecondRoundTripIsIdentity | packages/nvmedit/src/convert.ts:826-896 | a second round trip changes nothing |
| NvmConvert.Json500To700 | packages/nvmedit/src/convert.ts:1791-1917 | the whole conversion equals its specification, including the order of its errors |
| NvmConvert.Identify | packages/nvmedit/src/convert.ts:1838-1869 | home ID, node ID and configuration of a controller that did or did not start its network |
| NvmConvert.ConvertData | packages/nvmedit/src/convert.ts:1813-1836 | trimming, truncation or error for application data |
| NvmConvert.TrimZeros | packages/nvmedit/src/convert.ts:1817-1825 | the two trimming loops compute the trimmed data |
| NvmConvert.TrimKeepsTheMiddle | packages/nvmedit/src/convert.ts:1817-1825 | data without a zero at either end, surrounded by zeros, is exactly what trimming leaves |
| NvmConvert.OnlyZerosAreLost | packages/nvmedit/src/convert.ts:1817-1825 | trimming loses only zeros at either end and leaves none there |
| NvmConvert.ConvertedIdentity | packages/nvmedit/src/convert.ts:1838-1869 | 500 to 700: home ID, node ID and configuration by whose network it is |
| NvmConvert.DeviceFields | packages/nvmedit/src/convert.ts:1797-1811 | 500 to 700: the device fields of the controller's node entry, or those of a static PC controller |
| NvmConvert.ConvertedFields | packages/nvmedit/src/convert.ts:1871-1917 | 500 to 700: all other fields |
| NvmConvert.ConvertedBackFields | packages/nvmedit/src/convert.ts:1919-1980 | 700 to 500, field by field |
| NvmConvert.RoundTripFailsIff | packages/nvmedit/src/convert.ts:1791-1836 | 700 → 500 → 700 fails iff the looked-up controller entry is missing, the data is not hexadecimal, or it is too long without its outer zeros and truncation is off |
| NvmConvert.AlwaysKept | packages/nvmedit/src/convert.ts:1919-1980 | home ID, node table, SUC data, versions, system state and insecure command classes survive whatever the configuration |
| NvmConvert.ConfigurationKeptIff | packages/nvmedit/src/convert.ts:1838-1869 | exactly when the controller configuration survives |
| NvmConvert.NodeIdKeptIff | packages/nvmedit/src/convert.ts:1848-1869 | exactly when the node ID survives |
| NvmConvert.IdentityCanChange | packages/nvmedit/src/convert.ts:1838-1869 | inputs whose node ID or configuration does not survive |
| NvmConvert.DataLosesOnlyZerosAndExcess | packages/nvmedit/src/convert.ts:1813-1836 | application data loses only outer zeros, and what is past 512 bytes if truncation is allowed |
| NvmConvert.DataKeptIff | packages/nvmedit/src/convert.ts:1813-1836 | exactly which application data survives literally |
| NvmConvert.UnchangedIff | packages/nvmedit/src/convert.ts:1791-1980 | exactly which 700-series JSON comes back unchanged |
| NvmConvert.HomeIdsMerge | packages/nvmedit/src/convert.ts:1919-1960 | 500 → 700 → 500: the two home IDs become one, and which of node ID and configuration are kept |
| SetImmediate.Scheduler.SetImmediate | packages/web/setimmediate.js:14-29 | stores the callback under a new handle and posts one event for it |
| SetImmediate.Scheduler.ClearImmediate | packages/web/setimmediate.js:31-33 | removes the callback |
| SetImmediate.Scheduler.DeliverEvent | packages/web/setimmediate.js:57-76 | a delivered event is posted again, runs its callback to the end, or does nothing |
| SetImmediate.Scheduler.Run | packages/web/setimmediate.js:35-55 | running a callback performs its actions in order, with nested deliveries |
| SetImmediate.Scheduler.Act | packages/web/setimmediate.js:14-33 | what one action of a running callback does, nested deliveries included |
| SetImmediate.RunIfPresentIsARun | packages/web/setimmediate.js:57-76 | a call of `runIfPresent` is a run of steps, and starts its callback iff that is present and no other one is running |
| SetImmediate.DeliveredEvent | packages/web/setimmediate.js:57-76 | a delivered event is put off while a task is running; otherwise it is used up, and starts its task if that is still there |
| SetImmediate.ActionsInOrder | packages/web/setimmediate.js:35-55 | a callback that does some actions and then others has the effect of both, one after the other |
| SetImmediate.OneAction | packages/web/setimmediate.js:14-33 | what a single action of a running callback changes |
| SetImmediate.TasksNeverNest | packages/web/setimmediate.js:57-76 | over every run with nested deliveries, each callback ends before the next one begins |
| SetImmediate.HandlesRunAtMostOnce | packages/web/setimmediate.js:57-76 | each handle starts at most once, and only if it was given out |
| SetImmediate.HandlesAreNeverReused | packages/web/setimmediate.js:8-29 | over every run, the handle of a later call is positive and greater than that of an earlier one |
| SetImmediate.WaitingHandlesHaveOneEvent | packages/web/setimmediate.js:57-64 | a handle that has neither started nor been cleared has exactly one posted event, however often it was put off |
| SetImmediate.ClearedNeverStarts | packages/web/setimmediate.js:31-33 | a handle that was cleared before its start never starts |
| SetImmediate.ClearingClears | packages/web/setimmediate.js:31-33 | clearing a handle that has not started counts as cleared |
| SetImmediate.ClearedEventIsUsedUp | packages/web/setimmediate.js:57-76 | over runs: once the event of a cleared handle is delivered with no task running, it is never posted again |
| DiscreteSearch.DiscreteBinarySearch | packages/shared/src/utils.ts:153-177 | a result succeeds and its successor fails or is out of range; at most ⌊log2(max − min)⌋ + 2 calls; an empty or single-value range is checked at its minimum only |
| DiscreteSearch.DiscreteLinearSearch | packages/shared/src/utils.ts:185-214 | the last value before the first failure, and exactly when there is no result |
| DiscreteSearch.BoundaryIsUnique | packages/shared/src/utils.ts:149-177 | if the executor never turns true again, only one value qualifies |
| DiscreteSearch.SearchBothWays | packages/shared/src/utils.ts:149-214 | both searches then return the same |
| HexCodec.Uint8ArrayToHex | packages/shared/src/uint8array-extras.ts:484-495 | the loop over the lookup table yields two digits per byte |
| HexCodec.HexToUint8Array | packages/shared/src/uint8array-extras.ts:535-561 | the decoding loop, and the position of the first invalid pair |
| HexCodec.DecodeEncoded | packages/shared/src/uint8array-extras.ts:484-561 | decoding an encoded byte array gives it back |
| HexCodec.EncodeDecoded | packages/shared/src/uint8array-extras.ts:535-561 | decoding succeeds iff the string is an even number of hexadecimal digits; encoding the result gives it back in lower case |
| HexCodec.DecodingFailsIff | packages/shared/src/uint8array-extras.ts:535-561 | decoding fails for an odd length, and otherwise exactly at the first pair with a character that is no hexadecimal digit |
| HexCodec.ConcatUint8Arrays | packages/shared/src/uint8array-extras.ts:165-200 | the joined arrays, numbers taken modulo 256; with a total length, cut off or filled with zeros |
| HexCodec.JoinedAt | packages/shared/src/uint8array-extras.ts:165-200 | where every element of every array ends up, modulo 256 |
| HexCodec.JoinedLength | packages/shared/src/uint8array-extras.ts:165-175 | each array is joined behind the ones before it and takes up its length |
| HexCodec.Fill | packages/shared/src/uint8array-extras.ts:177-199 | the copying loop, which stops when the result is full |
| ByteCodec.UnsignedFits | packages/shared/src/Bytes.ts:376-484 | positional digits give the value back iff it fits the width |
| ByteCodec.SignedFits | packages/shared/src/Bytes.ts:504-573 | two's-complement digits give the value back iff it fits the width |
| ByteBuffer.Bytes.WriteUIntLE | packages/shared/src/Bytes.ts:376-418 | each case stores exactly the base-256 digits and changes no other byte; after a range error exactly the parts that fit were written |
| ByteBuffer.Bytes.WriteUIntBE | packages/shared/src/Bytes.ts:433-484 | the same for big-endian, widths 1 to 8 |
| ByteBuffer.Bytes.WriteIntLE | packages/shared/src/Bytes.ts:504-533 | the same for two's complement, widths 1 to 4 |
| ByteBuffer.Bytes.WriteIntBE | packages/shared/src/Bytes.ts:549-578 | the same for big-endian two's complement |
| ByteBuffer.Bytes.ReadUIntLE | packages/shared/src/Bytes.ts:910-941 | each case reads the positional value, widths 1 to 6 |
| ByteBuffer.Bytes.ReadUIntBE | packages/shared/src/Bytes.ts:959-987 | the positional value for widths 1 to 4; for 5 and 6, the upper four bytes shifted by 32 bits and rounded to a number |
| ByteBuffer.NumberIsNearest | packages/shared/src/Bytes.ts:972-981 | the conversion from BigInt rounds to the nearest number with 53 significant bits, ties to even |
| ByteBuffer.Bytes.ReadIntLE | packages/shared/src/Bytes.ts:1006-1035 | each case reads the two's-complement value |
| ByteBuffer.Bytes.ReadIntBE | packages/shared/src/Bytes.ts:1052-1080 | the same for big-endian |
| ByteBuffer.WriteThenRead | packages/shared/src/Bytes.ts:376-1078 | reading back at the same place gives the value iff it fits |
| ByteBuffer.WideBigEndianRoundTripIff | packages/shared/src/Bytes.ts:972-981 | exactly which 5- and 6-byte values `readUIntBE` gives back |
| ByteBuffer.DocumentedExampleFails | packages/shared/src/Bytes.ts:944-958 | the documented example is not given back |
| ByteBuffer.NarrowBigEndianRoundTripIff | packages/shared/src/Bytes.ts:959-971 | up to 4 bytes, values come back iff they fit |

## Left out

- Dirty tests: finding imports with the TypeScript compiler, `git` output, source-map resolution, the linter context and
  the reports; the import graph is an input, in which either of a file's two names identifies it.
- Templates: JSON5 text and read errors (a file parses or does not), path functions (parameters of the file system),
  error texts, inherited object properties, the order of integer-like keys, shared references between results and cached
  files, and files that change during a read.
- Conditions: code units beyond the first plane, rounding of numbers (they are reals, NaN and the infinities),
  prerelease and build parts of versions (they count as invalid), string-to-number conversion (a parameter), and
  variables that hold objects or arrays.
- Evaluation of an `And` or `Or` without operands, which the parser never returns.
- Write-behind cache: several database connections that race before the first `open`, failing requests, iteration over
  entries, and a second `open` or a `close` while an `open` is waiting. Transactions of one cache run in creation order
  and those of different caches interleave freely, but nothing is written while a cursor reads (section 2.7 of the
  Indexed Database API 3.0). A cursor may visit the records in any order.
- `AsyncQueue`: falsy items, which the iterator takes for the end, and `Symbol.dispose` on aborted items.
- Mock radio: real time, timeouts, expectations, behaviours, lazy payloads and routes. The loop in `execute` is modelled
  by its moves between two waits; ending it with `destroy` is left out. The numbers of acknowledgements are history that
  the source does not have.
- NVM: the adapters and binary layouts (a map of properties stands for them), Long Range nodes, RF configuration,
  metadata and the file formats' versions. Set iteration order is not modelled.
- MockParties.MockController.OnNodeFrame: without expectation handlers and behaviours, which see a frame after it was
  acknowledged and are assumed to send nothing.
- MockParties.MockNode.OnControllerFrame: likewise, and without the responses that behaviours may give.
- MockParties.MockController.SendToNode: without the wait for a requested acknowledgement, which changes no state
  modelled here.
- MockParties.MockNode.SendToController: likewise.
- SetImmediate.Scheduler.SetImmediate: without callback arguments and string callbacks, which change nothing of what the
  scheduler does.
- `setImmediate`: the choice of the event source; events are a multiset.
- Searches: executors with side effects and non-integer ranges.
- Codecs: a bitwise or of disjoint bits is addition.
- Joining arrays: elements that are not integers, and the error for arguments that are not arrays.
- Device drivers, serial ports, servers, command classes and everything else in the repository.
