# Verification of the indexer's core

This project models, in Dafny, the parts of the code indexer whose correctness is hardest
to see from the code, and proves what they promise:

- **Macro expansion and incremental invalidation** (`Text`, `MacroScan`, `Replacing`,
  `MacroApply`, `Substitution`, `SubstitutionOrder`, `MacroExpand`, `MacroContext`, `MacroDiff`,
  `DeclarationMacros`, `Spelling`, `MacroInvalidation`, `MacroWitnesses`,
  `OwnPasteWitness`, `UnlistedWitness`): the bounded recursive C/C++
  macro expander, character by character, the project macro context, and the set of names a
  change affects. The main theorem says that files which mention no affected name need not be
  parsed again. What an expansion is and why a name is affected is said apart from the functions that
  compute it (`ExpansionLaws`, `OperatorLaws`, `ArgumentLists`, `DefinitionLaws`, `SourcePieces`, `OwnDefinitions`,
  `AffectedReasons`).
- **Crash-safe sync** (`MacroSync`): which files a sync stores again, the pending marker and the
  publication of the manifest, with a crash possible after every single write.
- **Parse worker pool** (`ParsePool`, `PoolLaws`, `ParseWorkerPool`): the scheduler as a state machine
  over calls, messages, exits and timers, and the class that implements it.
- **Store protocol** (`StoreProtocol`, `StoreDelivery`, `StoreWriter`): main thread and store worker, two
  first-in-first-out channels, windowed backpressure and drain barriers.
- **Graph algorithms** (`GraphStore`, `GraphPaths`, `GraphBall`, `GraphCycles`): shortest path,
  breadth-first ball and cycle detection over any stored graph.
- **Graph store** (`Reindex`, `StoredContents`, `NodeCache`, `LastWrites`, `BulkLoad`): replacing a file
  without losing edges, the node cache and batched inserts, and the repair of interrupted bulk loads.
- **Mechanisms** (`Masking`, `Transactions`, `Mutex`): the comment and literal masker, flattened
  transactions, the mutex.

Code that changes state in place is given as classes and loops. Each method is tied to a function
of the old state, and the lemmas and run theorems are about those functions. Workers, timers,
channels, crashes and the outcome of parses and writes are events or parameters that may turn out
either way.

## Results

What the proofs found where the code does less than its comments or callers may expect:

- Invalidation is sound only for regular expansions. An expansion is regular if no argument brings in
  `##` or a replacement pattern (`$$`, `$&`, `` $` `` or `$'`), no expansion runs together with an identifier
  next to it, and no text is cut at the size limit. The other conditions are that files list the names they
  define, that a parameter which is also the name of an affected macro does not stand after a digit, that a
  file's own definitions have no `##`, and that no macro outside the affected names changed the spacing of its
  body alone, which signatures do not tell. A parameter after a digit that is the name of no affected macro,
  as `f` in `1.0f`, does no harm. For each condition there are two manifests and a source that meet the others
  and whose expansion changes (`MacroWitnesses`, `OwnPasteWitness`, and `UnlistedWitness`, which starts from
  the bytes of a header); only the cut at the size limit has none.
- Parameters are substituted one after another, so an argument that mentions a later parameter may be
  substituted again (`LaterParameterIsReplacedAgain`). The order is immaterial exactly if substituting the
  later parameters leaves each argument as it is (`OrderIsImmaterial`).
- After a parse error a retry in the same process takes the manifest in memory, which is already the
  new one, for the published one. It plans the edited files only, clears the mark, and leaves a failed file
  that was not edited as it was (`RetryInSameProcess`, `RetryLeavesStaleFile`); after a restart this cannot
  happen (`RecoverAfterCrashes`).
- The mark of a pending update makes the next process read all macros again, but it compares them with the
  published manifest only. If the edit was taken back in the meantime nothing seems to have changed, and files
  that were stored under the edited macros stay so (`RevertedEditLeavesStaleFile`). Edits made after a sync
  completed are followed (`KeepUp`), and `Sync` says for every database when a sync that completes makes the index
  consistent.
- The store writer's `ready` promise may never be settled (`ReadyMayNeverSettle`); the indexing loop does
  not await it.
- A new node that takes the id of another file's node deletes that file's edges silently
  (`SharedIdLosesEdge`). Ids are hashes of path, kind, name and line, so this needs a collision.
- The record of a file is written last, apart from its nodes and edges. If the process dies before, the next
  store of the file looks up no incoming edges, replaces the nodes, and the edges put back before are deleted
  without a trace (`DeathBeforeRecordLosesEdge`). Incoming edges are accounted for exactly if the file has a
  record, no new node takes the id of an end, or they are extracted again (`AccountedIfRecorded`).
- No timer watches a worker that is loading grammars: queued jobs wait until it answers, ends or the pool is
  destroyed (`UnwatchedStays`, `RequestCanWait`). What holds is that a queued job always has a worker that is starting or busy (`EveryJobIsAccountedFor`).
- Replacing a node stored under the same id while the triggers are in place leaves the old entry in the search
  index (`WriteKeeps`, `PromiseIsExact`): SQLite fires no delete trigger for it unless recursive triggers are
  enabled. Inside a bulk window it does no harm. And a second process that opens the database inside a bulk
  window leaves the search index behind with all triggers present exactly if nodes change between its rebuild
  and its triggers (`OpeningBetweenWrites`).
- With a recycle interval of zero a worker still parses once; the bound is the larger of one and the interval.

## Model

| member | source | states |
|---|---|---|
| `MacroInvalidation.InvalidationIsSound` | src/extraction/macro-context.ts:247-311 | for any old and new manifest, a source that mentions no affected name expands to the same text, lines and names under both contexts, if every file lists the names it defines, no parameter that bears an affected name is out of reach of substitution, no other name changed only the spacing of its body, and the source's own definitions have no `##` and its expansion is regular (or nothing changed at all) |
| `MacroInvalidation.TextInvalidationIsSound` | src/extraction/macro-context.ts:247-311 | the same with changes of spacing included, for a source that also mentions no name such a change can reach; the condition on parameters is then about these names too |
| `MacroInvalidation.AffectedTextIsAffected` | src/extraction/macro-context.ts:57-63 | unless a name beside the affected ones changed its spacing alone, the names to avoid are exactly those the program computes |
| `MacroInvalidation.CoveredIsSound` | src/extraction/macro-context.ts:274-296 | any set that holds the changed and pasting names and is closed under reverse dependency separates the two contexts, if the parameters that bear a name of the set can be substituted |
| `Spelling.AlikeContained` | src/extraction/macro-context.ts:57-63 | two definitions with one signature mention and paste the same names, however their bodies are spaced |
| `MacroInvalidation.DiffIsSound` | src/extraction/macro-context.ts:247-297 | outside the affected names the two contexts have the same names and signatures, and no unaffected macro pastes or mentions an affected name, if the parameters that bear an affected name can be substituted |
| `MacroInvalidation.BuiltIsWellFormed` | src/extraction/macro-context.ts:206-234 | a context built from clean contributions keeps every definition under its own, listed name, with the parameters that bear one of the given names in reach |
| `MacroInvalidation.SameTextSameExpansion` | src/extraction/declaration-macros.ts:562-732 | contexts that agree outside the names a source avoids give its declaration macros the same expansion, if regular |
| `MacroInvalidation.ScanSourceAgrees` | src/extraction/declaration-macros.ts:619-715 | the source scanner finds the same replacements under two projects that agree outside avoided names, if the first scan is regular |
| `MacroExpand.ExpandAgrees` | src/extraction/declaration-macros.ts:413-484 | recursive expansion of a text that avoids `names` is the same under two macro tables that agree outside `names`, if regular, and its result avoids `names` too |
| `MacroExpand.InvocationAgrees` | src/extraction/declaration-macros.ts:455-482 | the same for one invocation, if regular: arguments expanded, substituted and expanded again |
| `MacroExpand.ExpandText` | src/extraction/declaration-macros.ts:413-484 | the expansion loop, with its hide sets and its depth and size limits, computes the expansion the theorems are about |
| `MacroExpand.ExpandOne` | src/extraction/declaration-macros.ts:468-480 | one invocation is expanded with its own name hidden in its arguments and in its body |
| `ExpansionLaws.NoMacroStays` | src/extraction/declaration-macros.ts:413-484 | a text that mentions no macro but those being expanded stays as it is, at any depth |
| `ExpansionLaws.InvocationIsSubstituted` | src/extraction/declaration-macros.ts:455-482 | an invocation of a macro without operators becomes the expansion of its body with the expanded arguments in place of the parameters, all at once, the macro itself being hidden in arguments and body |
| `ExpansionLaws.NotInsideItself` | src/extraction/declaration-macros.ts:468-480 | a macro that mentions no other macro is expanded once, even if it mentions itself |
| `ExpansionLaws.ObjectMacroIsItsBody` | src/extraction/declaration-macros.ts:336-336 | an object-like macro that mentions no other macro becomes its body, even if it mentions itself |
| `ExpansionLaws.EachParameterGetsItsArgument` | src/extraction/declaration-macros.ts:331-360 | a parameter stands for its own argument, a missing one for nothing, the variadic one for all that are left |
| `ExpansionLaws.QuotedIsOneLiteral` | src/extraction/declaration-macros.ts:322-324 | the literal made of an argument ends where it was made to end, whatever quotes and backslashes the argument holds |
| `ExpansionLaws.QuotedSaysTheArgument` | src/extraction/declaration-macros.ts:322-324 | read as a literal it says the argument, up to white space |
| `OperatorLaws.OperandsAreJoinedAsWritten` | src/extraction/declaration-macros.ts:375-411 | `##` joins the arguments as they were written, whatever they expand to |
| `OperatorLaws.LiteralIsMadeAsWritten` | src/extraction/declaration-macros.ts:366-373 | `#` makes a literal of the argument as it was written, whatever it expands to |
| `OperatorLaws.CommaIsSwallowed` | src/extraction/declaration-macros.ts:357-364 | `, ##__VA_ARGS__` vanishes with its comma when no argument is left for it, and becomes the rest of the arguments otherwise |
| `DefinitionLaws.FileIsReadBack` | src/extraction/declaration-macros.ts:138-216 | a round trip: a file of definitions, with or without parameters, `...` and `name...` among them, is scanned to exactly these definitions, in order, each at its own `#` |
| `DefinitionLaws.WrittenIsRead` | src/extraction/declaration-macros.ts:138-187 | the text of one definition is read back: its name, its parameters, the variadic one, and its body |
| `DefinitionLaws.DirectiveOpensItsLine` | src/extraction/declaration-macros.ts:530-537 | a directive begins with a `#` that only blanks precede on its line |
| `DefinitionLaws.DirectiveEndIsFirst` | src/extraction/declaration-macros.ts:84-98 | it ends at the first line end that is not continued |
| `ArgumentLists.ArgumentsAreReadBehindGap` | src/extraction/declaration-macros.ts:285-320 | a round trip: arguments with balanced parentheses and closed literals and comments, joined by commas in parentheses, are read back, trimmed, also behind spaces and line ends; blank parentheses give no argument |
| `Substitution.ApplyAvoids` | src/extraction/declaration-macros.ts:331-411 | substitution invents nothing: if definition and arguments avoid `names`, so does the result, unless pasting or a replacement pattern is involved |
| `MacroApply.ApplyArguments` | src/extraction/declaration-macros.ts:331-411 | binding, comma swallowing, stringification, protection of pasted operands, substitution and pasting, in this order; fails exactly when arguments are missing |
| `Replacing.PasteTokens` | src/extraction/declaration-macros.ts:401-410 | the pasting loop ends, and computes repeated rounds of pasting until no `##` is left or nothing changes |
| `Replacing.SubstitutePlain` | src/extraction/declaration-macros.ts:326-329 | a value without a replacement pattern (`$$`, `$&`, ``$` ``, `$'`) is inserted as it is |
| `Replacing.PatternIsRead` | src/extraction/declaration-macros.ts:326-329 | the condition is exact: a value with one of these patterns does not always come out as it is |
| `SubstitutionOrder.ApplyIsSimultaneous` | src/extraction/declaration-macros.ts:331-411 | a macro whose body has no `#` is applied as if all expanded arguments were substituted at once, token by token, when no argument has a replacement pattern and substituting the later parameters in an argument leaves it as it is; it fails exactly when arguments are missing |
| `SubstitutionOrder.OrderIsImmaterial` | src/extraction/declaration-macros.ts:398-398 | for values without a replacement pattern, substituting parameter after parameter equals substituting all at once in every text if and only if substituting the later parameters leaves each value as it is |
| `SubstitutionOrder.BindIsDistinct` | src/extraction/declaration-macros.ts:331-360 | every parameter is bound once, so that this applies to every invocation |
| `SubstitutionOrder.ReplaceWordIsAtOnce` | src/extraction/declaration-macros.ts:326-329 | replacing one parameter replaces exactly the whole runs of identifier characters that are its name |
| `SubstitutionOrder.LaterParameterIsReplacedAgain` | src/extraction/declaration-macros.ts:398-398 | a result: with `a` bound to `b` and `b` to `c`, `a b` becomes `c c` and not `b c` |
| `MacroScan.ParseInvocation` | src/extraction/declaration-macros.ts:285-320 | the argument list and end of an invocation, with literals and comments skipped and nested parentheses counted |
| `MacroScan.ArgumentsAvoid` | src/extraction/declaration-macros.ts:285-320 | arguments hold no identifier that the text they were cut from does not hold |
| `MacroScan.SkipQuoted` | src/extraction/declaration-macros.ts:59-72 | the end of a quoted literal, a backslash protecting the next character |
| `MacroScan.FindDirectiveEnd` | src/extraction/declaration-macros.ts:84-98 | a directive ends at the first line end that is not continued |
| `MacroScan.SplitArguments` | src/extraction/declaration-macros.ts:100-136 | top-level commas split the parameter list, outside quotes and brackets |
| `MacroScan.ScanCppMacroDefinitions` | src/extraction/declaration-macros.ts:189-216 | the `#define` lines of a file, each with its offset, outside literals and comments |
| `MacroScan.LocalDefinitionsAvoid` | src/extraction/declaration-macros.ts:138-216 | replacement texts of a file's own definitions hold only identifiers of the file |
| `MacroContext.SelectUnambiguousCppMacroDefinitions` | src/extraction/declaration-macros.ts:231-253 | keeps the names with one signature only, and for each the last definition |
| `MacroContext.SelectedIsUnambiguous` | src/extraction/declaration-macros.ts:218-253 | a name is selected if and only if it is defined and all its definitions have one signature |
| `MacroContext.BuildCppMacroContext` | src/extraction/macro-context.ts:206-234 | the union of all contributions, with the unambiguous definitions |
| `MacroContext.DefinitionDependencies` | src/extraction/macro-context.ts:65-78 | exactly the identifiers of the replacement text that are not parameters |
| `MacroContext.SourceReferencesAnyCppMacro` | src/extraction/macro-context.ts:300-311 | true if and only if some identifier of the source is one of the names |
| `MacroDiff.DiffCppMacroContexts` | src/extraction/macro-context.ts:247-297 | the changed names, and the affected names: the least set below; the worklist ends although dependencies may be cyclic |
| `MacroDiff.AffectedIsLeast` | src/extraction/macro-context.ts:247-297 | the affected names contain the changed and the opaque ones, are closed under reverse dependency in both contexts, and are contained in every such set |
| `AffectedReasons.AffectedHasReason` | src/extraction/macro-context.ts:247-297 | a macro is affected if and only if some macro changed and a chain leads from it, each link mentioning the next, to one that changed or pastes |
| `AffectedReasons.ChangedIsExact` | src/extraction/macro-context.ts:236-260 | a name changed if and only if one context lists it and the other does not, or its emptiness or spelling differs |
| `MacroDiff.LeastIsAffected` | src/extraction/macro-context.ts:274-296 | a set between the seeds and the affected names that is closed is the set of affected names |
| `MacroDiff.AddDependencies` | src/extraction/macro-context.ts:262-273 | the reverse dependencies of one context, and its pasting macros, for names known to either context |
| `MacroInvalidation.AffectedIsEmpty` | src/extraction/macro-context.ts:256-260 | nothing is affected when nothing changed |
| `MacroWitnesses.ConditionsSuffice` | src/extraction/macro-context.ts:247-311 | the five conditions, met together, leave no source that is missed |
| `UnlistedWitness.UnlistedNameIsMissed` | src/extraction/macro-context.ts:118-139 | the condition on names is needed: a header `#define` with a continued line before `S int a;` is scanned to a definition of `S` and to no macro name; it is edited, nothing is affected, and a source that meets the other conditions is missed |
| `UnlistedWitness.DefinitionIsFound` | src/extraction/declaration-macros.ts:138-216 | the scan of definitions reads the definition across the continuation |
| `UnlistedWitness.NothingIsListed` | src/extraction/macro-context.ts:118-126 | the scan of names finds none: its expression does not know continuations |
| `MacroWitnesses.SpacingInLiteralIsMissed` | src/extraction/macro-context.ts:57-63 | the condition on spacing is needed: signatures collapse white space inside string literals |
| `MacroWitnesses.PastedArgumentIsMissed` | src/extraction/declaration-macros.ts:401-410 | regularity is needed: `M(a##b)` is pasted after substitution and expands through `ab` |
| `MacroWitnesses.DollarArgumentIsMissed` | src/extraction/declaration-macros.ts:326-329 | regularity is needed: `M($&)` brings the parameter name back and expands through it |
| `MacroWitnesses.GluedExpansionIsMissed` | src/extraction/declaration-macros.ts:467-480 | regularity is needed: in `M(A()b)` the expansion of `A()` runs together with `b` to `ab` and expands through it |
| `OwnPasteWitness.OwnPasteIsMissed` | src/extraction/declaration-macros.ts:401-410 | that own definitions do not paste is needed: a file defines `M()` as `a##b;`, and `M()` expands through `ab` |
| `MacroWitnesses.HiddenParameterIsMissed` | src/extraction/macro-context.ts:65-78 | visible parameters are needed: in `1x` the parameter, which is the name of a macro that is added, is neither substituted nor a dependency |
| `DeclarationMacros.ExpandDeclarationMacros` | src/extraction/declaration-macros.ts:562-732 | the scanner, with its running line and line start, its first-character filter and its limits, computes the expansion of the theorems below |
| `OwnDefinitions.LastPassedIsUsed` | src/extraction/declaration-macros.ts:539-555 | an invocation uses the last of the file's own definitions of its name that begins before it |
| `OwnDefinitions.NonePassedIsGlobal` | src/extraction/declaration-macros.ts:539-555 | an invocation that no own definition of its name precedes uses the project's definition, if there is one, and is left alone otherwise |
| `OwnDefinitions.DefinitionsAscend` | src/extraction/declaration-macros.ts:189-216 | a file's definitions are found in the order in which they stand, each at its own `#` |
| `OwnDefinitions.HelpersAreUnambiguous` | src/extraction/declaration-macros.ts:591-602 | while an expansion goes on, an own definition counts exactly if all own definitions of the name have one spelling, and else the project's |
| `SourcePieces.ReplacementsAreThePieces` | src/extraction/declaration-macros.ts:619-715 | the source is cut into literals, comments, directives, words and invocations, and the replacements are exactly the invocations in declaration scope whose expansion is a declaration, up to the limit of 4096 |
| `SourcePieces.OnePieceFits` | src/extraction/declaration-macros.ts:619-715 | at each position only one kind of piece fits, and it ends in one place only |
| `SourcePieces.ErasedIsCommentFree` | src/extraction/declaration-macros.ts:510-528 | what is put in place of an invocation holds no line comment that could swallow what follows, keeps its length, and differs from the expansion in blanks only |
| `SourcePieces.CommentFreeStays` | src/extraction/declaration-macros.ts:510-528 | nothing but comments is erased |
| `SourcePieces.JoinedReadsTheSame` | src/extraction/declaration-macros.ts:708-709 | joining the lines of an expansion changes white space only and never joins two words |
| `DeclarationMacros.LinesPreserved` | src/extraction/declaration-macros.ts:706-731 | the output has as many line ends as the source, replacements are ordered and disjoint, and every character outside them stays on its line |
| `DeclarationMacros.KeptCharacterKeepsItsLine` | src/extraction/declaration-macros.ts:724-730 | a character outside the replaced invocations is in the output, on its original line |
| `DeclarationMacros.ScanPlaces` | src/extraction/declaration-macros.ts:619-715 | each replacement lies after the one before, records the line it stands on, and holds as many line ends as what it replaces |
| `DeclarationMacros.FilterIsExact` | src/extraction/declaration-macros.ts:584-589 | a name whose first character no known macro starts with has no definition at any offset |
| `DeclarationMacros.AdvanceLineState` | src/extraction/declaration-macros.ts:610-617 | line number and line start after a stretch of text are those of its end |
| `DeclarationMacros.AssembleChunks` | src/extraction/declaration-macros.ts:724-731 | source and replacement texts interleaved in order |
| `DeclarationMacros.EraseLineComments` | src/extraction/declaration-macros.ts:510-528 | line comments outside literals are erased up to their line ends |
| `DeclarationMacros.TryReplace` | src/extraction/declaration-macros.ts:680-715 | an invocation is replaced when it expands to a declaration within the limits and the scope predicates allow it |
| `MacroSync.RecoverAfterCrashes` | src/extraction/index.ts:2188-2782 | from a consistent index and an edit that meets the conditions on names and parameters, any number of syncs that fail to parse files or die after any write, each followed by a restart, and one sync that runs through: the index is consistent with the disk again; with enough writes left it does run through |
| `MacroSync.HeaderIsRead` | src/extraction/index.ts:2447-2463 | the environment that `RetryLeavesStaleFile` and `RevertedEditLeavesStaleFile` ask for exists |
| `MacroSync.KeepUp` | src/extraction/index.ts:2188-2782 | over any number of edits of the disk that meet these conditions, each made after the sync of the one before completed, the index keeps up through all interruptions |
| `MacroSync.RevertedEditLeavesStaleFile` | src/extraction/index.ts:2447-2487 | a result: a header is edited, a sync stores one of its users and fails on another, the process ends, and the edit is taken back; the next sync completes, clears the mark, and the index is not consistent |
| `MacroSync.RevertPlansEditedFiles` | src/extraction/index.ts:2447-2487 | when the disk is back at the published manifest, a pending update plans the edited files only |
| `MacroSync.Orchestrator.Sync` | src/extraction/index.ts:2222-2782 | one sync from any database: what it leaves in files, manifest, marks and memory unless it dies; that completing makes the files stored those on disk, with their bytes, and makes the index consistent if and only if it starts from the manifest of a full scan and each stored C-family file it does not plan agrees with it; that from a recoverable index with a trusted memory it always does, every write leaves it recoverable, and, however it ends, a file stored from the bytes it has keeps its record if it is no C-family file or mentions no name affected between the published manifest and a full scan; that it writes nothing when no byte changed and nothing is pending; and how many writes it needs at most |
| `MacroSync.ConsistentExpansions` | src/extraction/index.ts:2443-2525 | in a consistent index every stored C-family file has the expansion that the current context gives it, if the stored one is regular and the file mentions no name through which a macro that changed only its spacing since can reach it; if there are such names, parameters that bear one must be in reach of substitution |
| `MacroInvalidation.RespelledApart` | src/extraction/macro-context.ts:57-63 | contexts that agree in signatures outside `names` are equal to the letter outside these and the names a change of spacing can reach, if the parameters that bear one of the latter can be substituted |
| `MacroSync.SyncAfterRestart` | src/extraction/index.ts:2188-2782 | a sync, a restart, and a sync of another state of the disk: what each leaves, and when the index is consistent in the end |
| `MacroSync.CompletedIsConsistent` | src/extraction/index.ts:2743-2775 | the exact condition for it, for all databases |
| `MacroSync.TrustedSettles` | src/extraction/index.ts:2443-2525 | from a recoverable index and a trusted memory the condition holds; being recoverable includes the conditions on names and parameters for the published manifest and the scan of the disk |
| `MacroSync.SameForChains` | src/extraction/index.ts:2489-2515 | agreement on all a source can expand through is transitive |
| `MacroSync.CandidateIsFullScan` | src/extraction/index.ts:2447-2463 | the incrementally updated manifest is the manifest of a full scan |
| `MacroSync.KeptFileAgrees` | src/extraction/index.ts:2489-2515 | a file that is not stored again agrees with the new context on all it can expand through |
| `MacroSync.ConsistentIsRecoverable` | src/extraction/index.ts:2222-2236 | a consistent index is recoverable whatever the disk becomes, if the edit meets the conditions on names and parameters |
| `MacroSync.Orchestrator.PlanIndexing` | src/extraction/index.ts:2437-2525 | marks the update as pending before anything depends on it, and plans exactly the changed files and the consumers of affected names |
| `MacroSync.Orchestrator.PlanAndStore` | src/extraction/index.ts:2437-2782 | plan and store together: no file beside the changed ones and the consumers of affected names is touched |
| `MacroSync.UnaffectedIsKept` | src/extraction/index.ts:2489-2515 | a file stored from the bytes it has, that is no C-family file or mentions no affected name, is not planned |
| `MacroSync.CompletedMirrors` | src/extraction/index.ts:2314-2782 | a sync that completes leaves the files stored that are on disk, with their bytes, and no others |
| `MacroSync.IdleHasNoWork` | src/extraction/index.ts:2437-2447 | when no byte changed and nothing is pending there is nothing to plan |
| `MacroSync.Orchestrator.RemoveMissing` | src/extraction/index.ts:2314-2340 | deletes the files gone from disk, C-family ones only after marking the update as pending |
| `MacroSync.Orchestrator.StoreAndPublish` | src/extraction/index.ts:2670-2782 | stores the plan and publishes the manifest unless macro meanings changed and a file failed |
| `MacroSync.Orchestrator.Publish` | src/extraction/index.ts:2765-2774 | the three publication writes: after any of them the index is still recoverable |
| `MacroSync.Orchestrator.Invalidate` | src/extraction/index.ts:2489-2519 | the unchanged C-family files that mention an affected name, or all of them when forced |
| `MacroSync.RetryInSameProcess` | src/extraction/index.ts:2465-2487 | a result: a sync in which files fail to parse and a second one in the same process in which none does; both end as they should, the mark is cleared, and the index is consistent if and only if the unchanged files that failed agree with the new context as they were stored |
| `MacroSync.RetryPlansEditedFiles` | src/extraction/index.ts:2465-2487 | the second sync compares the manifest in memory with itself and plans the edited files only |
| `MacroSync.RetryLeavesStaleFile` | src/extraction/index.ts:2465-2487 | an edited header and a file that uses it: after the two syncs the index is not consistent |
| `ParsePool.RunIsSound` | src/extraction/parse-pool.ts:93-455 | in every state of every run the invariant and progress hold, and verdicts and the dispatch log of earlier states stand |
| `ParsePool.StepKeeps` | src/extraction/parse-pool.ts:172-455 | every call, message, exit and timer keeps the invariant and progress, and settles each job once |
| `ParsePool.EveryJobIsAccountedFor` | src/extraction/parse-pool.ts:172-184 | every accepted job is queued, in flight or settled, and only one of these; one in flight has a live worker and exactly one armed timer, a queued one a worker starting or busy and none idle |
| `ParsePool.DispatchedInOrder` | src/extraction/parse-pool.ts:362-367 | jobs are dispatched in request order, each once, before all that are still queued |
| `ParsePool.CrewIsBounded` | src/extraction/parse-pool.ts:186-228 | at most `maxSize` workers, crashes and workers together below the budget, and no worker beyond its parse interval |
| `ParsePool.DrainKeeps` | src/extraction/parse-pool.ts:353-382 | draining keeps the invariant and afterwards no job waits beside an idle worker or without any worker |
| `ParsePool.DestroyedIsFinal` | src/extraction/parse-pool.ts:433-455 | once destroyed every job is settled and no event changes the pool |
| `ParsePool.ResultResolves` | src/extraction/parse-pool.ts:230-264 | a result for the job in flight resolves it, also after its soft timeout |
| `ParsePool.UnwatchedStays` | src/extraction/parse-pool.ts:186-264 | a result: while all workers are starting no timer is armed, and only an answer or the end of a worker, or destroying the pool, ends the wait of queued jobs |
| `ParsePool.QueueIsUnwatched` | src/extraction/parse-pool.ts:186-228 | between two events queued jobs are in this state if and only if no job is in flight |
| `ParsePool.RequestCanWait` | src/extraction/parse-pool.ts:172-184 | a new pool is one request away from that |
| `ParsePool.StartedIsSound` | src/extraction/parse-pool.ts:119-140 | a new pool is sound |
| `PoolLaws.VerdictsAreJust` | src/extraction/parse-pool.ts:230-351 | whatever happens, a job that is settled now is resolved if and only if its own result was delivered, and rejected otherwise |
| `PoolLaws.ResolvedByItsResult` | src/extraction/parse-pool.ts:230-455 | over every run: of the jobs settled exactly those are resolved whose result was delivered |
| `PoolLaws.LostJobIsRejected` | src/extraction/parse-pool.ts:266-351 | the job of a worker that is lost, or that its hard timer gives up on, is rejected at once |
| `PoolLaws.SoftTimerOnlyWarns` | src/extraction/parse-pool.ts:308-329 | the soft timer settles nothing and takes no worker; it arms the hard timer |
| `PoolLaws.WorkersChange` | src/extraction/parse-pool.ts:186-455 | of every event: which workers leave, that attempts add starting workers or count as crashes, and that only the loss of a worker is charged besides |
| `PoolLaws.LostWorkerIsReplaced` | src/extraction/parse-pool.ts:266-306 | a worker that is lost, recycled or timed out is replaced at once unless the budget for crashes is used up |
| `PoolLaws.PrewarmFills` | src/extraction/parse-pool.ts:155-161 | prewarming fills the pool unless the budget is used up or an attempt fails |
| `PoolLaws.QueueStartsWorkers` | src/extraction/parse-pool.ts:353-361 | workers are started while jobs outnumber those idle and starting, two at a time, as far as the pool may grow |
| `PoolLaws.ReadinessIsTold` | src/extraction/parse-pool.ts:142-170 | who waits for readiness is told once no worker is starting any more, and not before |
| `WorkerPool.ParseWorkerPool.constructor` | src/extraction/parse-pool.ts:119-140 | the size is clamped to 1..16 and one worker is started |
| `WorkerPool.ParseWorkerPool.OnMessage` | src/extraction/parse-pool.ts:230-264 | the message handler makes the step of the state machine |
| `WorkerPool.ParseWorkerPool.OnWorkerGone` | src/extraction/parse-pool.ts:266-281 | likewise the loss of a worker, which by `PoolLaws.LostJobIsRejected` rejects its job |
| `WorkerPool.ParseWorkerPool.OnTimeout` | src/extraction/parse-pool.ts:308-329 | likewise the soft timer |
| `WorkerPool.ParseWorkerPool.OnHardTimeout` | src/extraction/parse-pool.ts:331-351 | likewise the hard timer |
| `WorkerPool.ParseWorkerPool.Drain` | src/extraction/parse-pool.ts:353-382 | likewise draining; its loops end even if every attempt to create a worker fails |
| `WorkerPool.ParseWorkerPool.RequestParse` | src/extraction/parse-pool.ts:172-184 | likewise a request, refused once destroyed |
| `WorkerPool.ParseWorkerPool.Prewarm` | src/extraction/parse-pool.ts:155-161 | likewise prewarming |
| `WorkerPool.ParseWorkerPool.RecycleAll` | src/extraction/parse-pool.ts:428-431 | likewise recycling all idle workers |
| `WorkerPool.ParseWorkerPool.Destroy` | src/extraction/parse-pool.ts:433-455 | likewise destruction: all open jobs are rejected, whatever the order |
| `StoreProtocol.ResolvedDrainMeansStored` | src/extraction/store-writer.ts:124-155 | in every run bundles are stored in the order sent; a drain that resolves tells that all bundles sent before it are stored, and one is rejected only after a failure |
| `StoreProtocol.FailureRejects` | src/extraction/store-writer.ts:84-95 | a failed bundle keeps every later drain from resolving |
| `StoreProtocol.FreshIndexIsComplete` | src/extraction/index.ts:1605-1614 | once a drain asked for after the last bundle resolves, exactly the bundles sent are stored, in order |
| `StoreProtocol.WindowHolds` | src/extraction/index.ts:1551-1561 | a loop that waits after each bundle never has more than the window under way, whatever else happens |
| `StoreProtocol.RestLeavesNoWaiter` | src/extraction/store-writer.ts:131-155 | once worker and channels are at rest, every drain is settled and nobody waits for a limit of one or more |
| `StoreProtocol.RestMeansNothingEnabled` | src/extraction/store-worker.ts:31-78 | at rest is where nothing can happen any more without a call, a crash or a stop |
| `StoreProtocol.SpontaneousStepsEnd` | src/extraction/store-worker.ts:31-78 | left to themselves worker and channels come to rest |
| `StoreProtocol.ExitLeavesNoWaiter` | src/extraction/store-writer.ts:102-115 | after the worker's exit no waiter is left and none can arise |
| `StoreProtocol.DrainMarksItsPlace` | src/extraction/store-writer.ts:144-155 | a drain remembers how many bundles were sent before it |
| `StoreProtocol.StepKeeps` | src/extraction/store-writer.ts:77-192 | every call, delivery, request handled and exit keeps the invariant of the protocol |
| `StoreProtocol.ReadyIsPendingUntilSettled` | src/extraction/store-writer.ts:79-106 | `ready` is pending exactly until the ready message, a worker error or an exit with a code |
| `StoreProtocol.ReadyMayNeverSettle` | src/extraction/store-writer.ts:77-122 | a result: if the database cannot be opened and the worker is then closed, the `ready` promise is never settled |
| `StoreDelivery.EverythingIsStored` | src/extraction/store-worker.ts:31-78 | over every run in which requests succeed and neither an error nor an end comes: the writer never fails, and at rest exactly the bundles sent are stored, in order, and every drain asked for has resolved |
| `StoreDelivery.CalmComesToRest` | src/extraction/store-worker.ts:31-78 | such a run does come to rest, however far it got |
| `StoreDelivery.ReadyMeansConnected` | src/extraction/store-worker.ts:52-59 | in every run, once readiness was told the worker has an open database to write to |
| `StoreDelivery.ReadyIsSettledOnce` | src/extraction/store-writer.ts:77-115 | `ready` is settled at most once: fulfilled by the ready message, broken by an error or an exit with a code |
| `StoreDelivery.FailureIsFinal` | src/extraction/store-writer.ts:84-129 | a writer that failed stays so: no bundle is sent any more and every drain is rejected |
| `StoreObjects.StoreWriter.SendBundle` | src/extraction/store-writer.ts:124-129 | refuses after an error or the exit, else counts and posts the bundle |
| `StoreObjects.StoreWriter.WaitBelow` | src/extraction/store-writer.ts:131-142 | resolves at once or adds a waiter |
| `StoreObjects.StoreWriter.Drain` | src/extraction/store-writer.ts:144-155 | posts a numbered barrier and waits, or is rejected at once |
| `StoreObjects.StoreWriter.OnMessage` | src/extraction/store-writer.ts:77-97 | the handler of replies makes the step of the protocol |
| `StoreObjects.StoreWriter.OnExit` | src/extraction/store-writer.ts:102-115 | likewise the exit |
| `StoreObjects.StoreWriter.SettleOne` | src/extraction/store-writer.ts:171-179 | releases exactly the waiters whose limit is undercut |
| `StoreObjects.StoreWriter.FailAll` | src/extraction/store-writer.ts:181-191 | rejects every drain and releases every waiter |
| `StoreObjects.StoreWorker.OnRequest` | src/extraction/store-worker.ts:31-78 | the worker's side of each request: what is stored, posted and connected |
| `StoreObjects.AdmitBatch` | src/extraction/index.ts:1461-1575 | parses finish in any order and anything may happen between two files: bundles are sent in the order of the files, no more than the window are under way, and a refusal, an abort or a wait that is not over leaves those of the first files |
| `StoreObjects.AdmitBatches` | src/extraction/index.ts:1430-1603 | batch after batch, with anything happening while the next is parsed: if all finish, the bundles sent are those of all batches in the order of the files |
| `StoreObjects.IndexFresh` | src/extraction/index.ts:1430-1614 | if the drain after the last batch resolves, exactly the bundles of all batches are stored, in the order of the files; and it does resolve when requests succeed and neither an error nor an end comes, before or after |
| `GraphPaths.FindPath` | src/graph/traversal.ts:550-607 | returns an edge-connected path from source to target of minimal length, and none if and only if none exists; ends although nodes are queued repeatedly |
| `GraphPaths.FirstIsShortest` | src/graph/traversal.ts:568-604 | the first of the queue is no longer than any path to a node not yet visited |
| `GraphBall.TraverseBFS` | src/graph/traversal.ts:48-120 | returns only nodes of the ball, all of it unless the limit is reached, with fewer nodes than the limit before the last one was visited and all neighbours of those visited; the edges form a tree of shortest walks and those of one node come by priority |
| `GraphBall.HopIsAnEdge` | src/graph/traversal.ts:87-108 | a hop takes an edge of an allowed kind in an allowed direction to a stored node of an allowed kind, no list of kinds allowing every kind |
| `GraphBall.FirstIsNearest` | src/graph/traversal.ts:65-72 | a node leaves the queue for the first time at its distance |
| `GraphBall.PriorityIsStable` | src/graph/traversal.ts:88-91 | sorting adjacent edges by priority is stable and loses none |
| `GraphBall.PriorityIsSorted` | src/graph/traversal.ts:88-91 | ranks never fall in the sorted list |
| `GraphBall.StructuralFirst` | src/graph/traversal.ts:88-91 | edges of containment come first, then calls, then the rest |
| `GraphCycles.FindCircularDependencies` | src/graph/queries.ts:226-264 | every list reported is a simple cycle that tracked files reach; none is reported if and only if they reach no cycle; and every cycle they reach has an edge that closes a reported one |
| `GraphCycles.ReachedCyclesClose` | src/graph/queries.ts:226-264 | if every edge back in a post-order closes a reported list, every reachable cycle holds such an edge |
| `GraphCycles.NoCycleReached` | src/graph/queries.ts:246-254 | if all files were left only after their dependencies, no cycle can be reached |
| `GraphCycles.CycleFinder.Dfs` | src/graph/queries.ts:232-255 | the recursive search keeps the stack, reports cycles only, and leaves a file after its dependencies while none is found |
| `Reindex.IncomingEdgeIsConserved` | src/extraction/index.ts:2046-2178 | an edge into the file from another one is present again on the only new node with its target's name and kind, or its file is recorded |
| `StoredContents.NodesAreReplaced` | src/extraction/index.ts:2041-2114 | unless it is left alone, a store leaves exactly the complete extracted nodes, the last of each id, and the nodes of other files whose ids none of them takes; the file's record is written and no other changes |
| `StoredContents.EdgesAreStored` | src/extraction/index.ts:2065-2075 | every extracted edge between complete nodes is stored, the first of each row, and edges that have nothing to do with the file stay as they are |
| `StoredContents.ReferencesAreStored` | src/extraction/index.ts:2077-2089 | a reference is pending afterwards if and only if it was before and its node is neither deleted nor replaced, or it was extracted for a complete node, with the file's path and language where it had none |
| `StoredContents.SkippedIfStoredAlready` | src/extraction/index.ts:2029-2044 | a file stored from the same contents, completely, is left alone unless the store is forced |
| `StoredContents.StoredAgainIsSkipped` | src/extraction/index.ts:2029-2044 | storing a file twice from the same contents is storing it once |
| `StoredContents.EdgeFollowsItsTarget` | src/extraction/index.ts:2121-2178 | an edge into the file leads to the only complete new node with the name and kind of its target; if there is none or several, its file is remembered |
| `StoredContents.OnlyUnplacedAreRemembered` | src/extraction/index.ts:2148-2178 | only the files of such edges are remembered |
| `StoredContents.RemovalIsExact` | src/extraction/index.ts:2321-2335 | removing a file deletes its nodes, its record and what hangs on them, makes pending the references its incoming edges were resolved from, and changes nothing else |
| `Reindex.OtherEdgeIsKept` | src/extraction/index.ts:2046-2089 | an edge between other files stays as it is unless a new node takes the id of one of its ends; then its identity is present if and only if it is among the extracted edges or among those put back |
| `Reindex.NoEdgeIsInvented` | src/extraction/index.ts:2065-2089 | every edge afterwards was kept, was extracted, or was put back |
| `Reindex.StoredKeepsSound` | src/extraction/index.ts:2015-2114 | both ends of every edge are stored |
| `Reindex.RecordedIsKept` | src/extraction/index.ts:2102-2113 | a file with nodes keeps having a record |
| `Reindex.CandidateIsStored` | src/extraction/index.ts:2055-2063 | with distinct ids a new node is stored as extracted |
| `Reindex.NameKeyTellsApart` | src/extraction/index.ts:2126-2135 | the lookup key is the same only for the same name and kind |
| `Reindex.SharedIdLosesEdge` | src/db/queries.ts:463-516 | a result: replacing a node stored under the same id deletes its edges, and nobody is told |
| `Reindex.AccountedIfRecorded` | src/extraction/index.ts:2046-2113 | an edge into the file is kept, put back on its only candidate, or its file recorded, if and only if the file has a record, or no new node takes the id of one of its ends, or it was extracted again |
| `Reindex.StoreWithoutRecord` | src/extraction/index.ts:2046-2113 | the store of a file without a record puts nothing back and tells nobody: an edge that leads to a new node was extracted with it |
| `Reindex.DeathBeforeRecordLosesEdge` | src/extraction/index.ts:2091-2113 | a result: a process that dies between the rewiring and the record of the file leaves the edge it put back to be deleted by the next store, which tells nobody |
| `Reindex.RemovalLeavesReferences` | src/extraction/index.ts:2321-2335 | after removing a file each stamped edge into it from a surviving file is a pending reference, and no other reference appears |
| `Reindex.Indexer.StoreExtractionResult` | src/extraction/index.ts:2015-2114 | from any sound store, looks up the incoming edges if the file has a record, replaces its contents, puts back what can be put back and writes the record; both ends of every edge stay stored |
| `Reindex.Indexer.RewireEdges` | src/extraction/index.ts:2121-2178 | puts back the edges with one candidate and collects the files of the others |
| `Reindex.Place` | src/extraction/index.ts:2148-2169 | one candidate or the file is recorded |
| `Reindex.Indexer.RemoveFile` | src/extraction/index.ts:2321-2335 | removes a file as the lemma says |
| `Reindex.Indexer.IncomingCrossFileEdges` | src/db/queries.ts:2375-2414 | exactly the edges from other files into this one, with their targets' names and kinds |
| `Reindex.Indexer.InsertEdges` | src/db/queries.ts:1783-1800 | edges with a missing end or a present identity are dropped, the others added in order |
| `NodeCache.QueryBuilder.Replay` | src/db/queries.ts:397-741 | any reads and writes in any order answer as the table alone would, and the cache never exceeds 1000 entries |
| `LastWrites.ReadIsLastWrite` | src/db/queries.ts:397-741 | in any run of operations a query reads a node if and only if it asks for its id and the node is the last one written under it and not deleted since |
| `LastWrites.OneOperation` | src/db/queries.ts:397-631 | a node is stored after an operation if and only if it was written, the last of its id in a batch, or was stored and neither deleted nor written over |
| `NodeCache.RecentlyUsedStays` | src/db/queries.ts:634-667 | a node asked for stays cached while fewer others are asked for than the cache holds |
| `NodeCache.QueryBuilder.Query` | src/db/queries.ts:634-655 | a cached or freshly read node is the one in the table, and is the newest entry of the cache afterwards |
| `NodeCache.QueryBuilder.QueryMany` | src/db/queries.ts:672-707 | chunked reads return exactly the stored nodes among the ids |
| `NodeCache.QueryBuilder.RunBatched` | src/db/queries.ts:341-373 | statements of 32, 8 and 1 rows have the effect of one row after another |
| `NodeCache.QueryBuilder.InsertMany` | src/db/queries.ts:463-516 | invalid nodes are skipped, the others inserted or replaced, and no stale entry is left |
| `NodeCache.QueryBuilder.DeleteByFile` | src/db/queries.ts:618-629 | the nodes of a file go from table and cache |
| `BulkLoad.Survive` | src/db/index.ts:90-155 | processes open the database one after the other, open and close bulk windows in any order, write, and die after any statement: once the next one has opened it, triggers and indexes are there; wherever all triggers are there the search index holds exactly the nodes, unless a stored node was replaced with all triggers in place and the index was neither rebuilt nor a trigger missing since; and if rows of deleted nodes are not reused, exactly then |
| `BulkLoad.PromiseIsExact` | src/db/index.ts:90-155 | that this is exact, over what was executed |
| `BulkLoad.StepKeeps` | src/db/index.ts:120-155 | every statement keeps it, if triggers are created only while the search index is in step |
| `BulkLoad.DatabaseConnection.Operate` | src/db/index.ts:120-254 | one operation leaves a sound database sound if and only if it does not replace a stored node with all triggers in place; opening or closing the window of the nodes makes it sound; and one that completes drops exactly the triggers or indexes of its window, or has them there again, and changes nothing else |
| `BulkLoad.DatabaseConnection.Open` | src/db/index.ts:108-143 | opening leaves triggers and indexes in place, keeps a sound database sound, and then has healed it; it executes nothing on a healed one |
| `BulkLoad.DatabaseConnection.BeginBulkNodeLoad` | src/db/index.ts:122-126 | drops the triggers one by one |
| `BulkLoad.DatabaseConnection.EndBulkNodeLoad` | src/db/index.ts:129-132 | rebuilds before the first trigger is there again, so that dying in between is noticed |
| `BulkLoad.DatabaseConnection.HealBulkParseIndexes` | src/db/index.ts:257-277 | creates the missing ones among the deferrable indexes, and no others |
| `BulkLoad.WriteKeepsStep` | src/db/queries.ts:400-420 | a result: with the triggers in place a write keeps the search index in step if and only if it replaces no stored node, because the replaced row is deleted without its trigger |
| `BulkLoad.WindowsAreHealed` | src/db/index.ts:213-254 | the indexes dropped by the windows of the resolution are among those that opening restores |
| `BulkLoad.WriteKeeps` | src/db/queries.ts:400-420 | a write keeps a sound database sound if and only if it does not replace a stored node with all triggers in place |
| `BulkLoad.OpeningBetweenWrites` | src/db/index.ts:134-143 | a result: a second process opens the database inside the window of a first one, which writes between the rebuild and the triggers the second creates; the triggers are all there then, and the search index is in step if and only if these writes change nothing |
| `BulkLoad.OpeningInsideAWindow` | src/db/index.ts:134-143 | so one node written there is missing although all triggers are there |
| `Masking.MaskIsClean` | src/extraction/grammars.ts:354-426 | masking keeps length and line ends, writes only spaces, leaves no quote and no comment opener, and is idempotent |
| `Masking.MaskedCharacter` | src/extraction/grammars.ts:359-363 | a character changes if and only if it is inside a comment or literal and no line end |
| `Masking.SpanIsShortest` | src/extraction/grammars.ts:365-426 | a line comment goes to the end of its line, a block comment to its first end, and code that opens nothing is no span |
| `Masking.QuotedEndsAtQuote` | src/extraction/grammars.ts:384-426 | a literal ends at the first quote that no backslash protects, or with the text |
| `Masking.MaskCStyleCommentsAndLiterals` | src/extraction/grammars.ts:354-426 | the one-pass scanner computes the masked text |
| `Transactions.OutermostIsAllOrNothing` | src/db/sqlite-adapter.ts:104-130 | the outermost transaction issues one BEGIN and one COMMIT with every write made under it, or one ROLLBACK with the state it began from |
| `Transactions.InnerIsFlat` | src/db/sqlite-adapter.ts:110-117 | a nested transaction issues nothing, restores the depth and keeps its writes, thrown or caught |
| `Transactions.StatementsArePaired` | src/db/sqlite-adapter.ts:375-396 | between transactions the depth is zero and statements come in pairs |
| `Transactions.Adapter.Perform` | src/db/sqlite-adapter.ts:104-130 | the wrapper runs any nesting of calls as the lemmas say |
| `Mutexes.RunIsSafe` | src/utils.ts:454-499 | in every run at most one task holds the lock, and while somebody waits it is held or a wake-up is on its way |
| `Mutexes.NobodyIsStuck` | src/utils.ts:463-479 | if no task holds the lock or was woken, nobody waits |
| `Mutexes.FirstComeFirstWoken` | src/utils.ts:463-479 | in every run no waiter is woken before one that queued earlier |
| `Mutexes.Mutex.TryAcquire` | src/utils.ts:463-470 | one round of the loop: take the free lock, else queue |
| `Mutexes.Mutex.Release` | src/utils.ts:472-478 | frees the lock and wakes the first waiter |

## Left out

- MacroInvalidation.InvalidationIsSound: the condition that the expansion is regular is sufficient, and the converse is not claimed, because an irregular expansion may come out the same by accident; for each part of the condition but the cut at the size limit there is a concrete miss.
- MacroSync.RecoverAfterCrashes: the bytes on disk are the same from the first interrupted attempt to the one that completes; for files edited in between the claim is false (`MacroSync.RevertedEditLeavesStaleFile`), and what holds is the equivalence in `MacroSync.Orchestrator.Sync`.
- MacroSync.Orchestrator.Sync: scoped paths, unreadable files, the size and time pre-filter and files stored with skipped macro recovery are not modelled; a changed file is one whose content differs.
- ParsePool.StepKeeps: a worker is taken to announce its grammars once, and a timer to fire only while it is armed; durations are not modelled.
- StoreObjects.AdmitBatch: the write-ahead-log valve, which may pause the loop, is one of the things that can happen between two files; its own promise is not part of this model.
- GraphBall.TraverseBFS: when the limit is reached the nodes returned are those visited and all their neighbours, by priority; which ones of equal priority come first depends on the order of rows.
- Transactions.Adapter.Perform: the ROLLBACK statement and BEGIN are taken to succeed; COMMIT may fail.
- Reindex.Indexer.StoreExtractionResult: JSON text of metadata is a value, and a corrupt one is not modelled; the list of failed source files is a set.
- NodeCache.QueryBuilder.Replay: reads inside a transaction that is rolled back later are not modelled.
- Text is a sequence of UTF-16 units; the identifier and space classes are those of the regular expressions.
- The definition parser and the reading of parameters are functions and not loops.
- `looksLikeDeclaration`, the structural test and the scope predicates are parameters of the scan; the scan of one file is a parameter of the sync. The expression that lists macro names is modelled for `UnlistedWitness`; that for names with an empty body is not.
- The sort by locale and the order in which the store returns rows are parameters or arbitrary.
- Durations of timeouts, worker threads, message ports, process exits and SQLite itself are events, maps and sequences.
- Manifest serialisation and parsing are left out; a stored manifest is a value.
- Filtering a bundle before it is sent is three filters over sets of ids and is left out; bundles are numbers in the protocol.
- BulkLoad.Survive: migrations, the failure of a statement to execute and the wait between two indexes are not modelled; two processes at once are the subject of `BulkLoad.OpeningBetweenWrites` only, with all writes between the rebuild and the first trigger.
- The write-ahead-log valve and the file lock are left out: their promises rest on the systems below.
- The recursive depth-first walks, the type hierarchy, search ranking, extractors, commands and user interface are left out.
