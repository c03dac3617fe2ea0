# Clang migration tools, delta debugging and shuffle fuzzing: a verified model

This project models the self-contained algorithms of the Clang/LLVM tree that
edit programs, reduce inputs or reason about other programs, and proves what
they promise. The modules follow the source files.

**The ARC migrator's rewrite engine** (`TransformActions.cpp`, `Internals.h`,
`ARCMT.cpp`). Edits are queued in a transaction, checked together, and then
merged into a map of insertions, a list of removed ranges, a set of removed
statements, a list of indented ranges and the captured diagnostics.
`EditModel` is the reference: one document that says of every character whether
it is deleted and of every location which texts stand in front of it.
`Removals` holds the lemmas about range lists, `TransactionModel` the meaning of
single actions and of whole histories, `TransformActions` the classes with the
fields and loops of the original, proved against the two. `RewriteStream` reads
the calls that the engine makes on a receiver.

**The rewriter behind it** (`Rewriter.cpp`, `RewriteBuffer.h`), with the options
that the migrator gives it: `RewriteBuffer` is the edited text with its offset
deltas, `Rewriter` indents inserted lines, increases indentation and removes
ranges together with lines that they leave blank. `RewriteCells` says what all of
this means without offsets into the edited text; `RewriterOffsets` shows when the
offsets are right, and `RemovedLines` and `RewrittenText` compare the outcome with
the reference document. `Lines` holds what there is to say of lines and white
space.

**The delta debugger** (`token-delta.py`): `DeltaAlgorithm` for any
deterministic test, `TokenDelta` for the token files around it, `Sublists` for
the facts about order-preserving sublists that both need.

**The file remapper** (`FileRemapper.cpp`): `RemapFile` is the text format with
its 64-bit number parser, `FileRemapper` the two maps, the owned buffers, the
disk and the writing and reading loops.

**Smaller cores.** `AutoreleasePools` matches pool scopes and emits braces.
`EmptyStatements` defines a small language with the checker and the remover of
empty statements; `EmptyStatementProofs` shows when an empty statement does
nothing, `EmptyStatementShapes` which statements are accepted and what is left,
and `EmptyStatementRemoval` that removing such statements preserves meaning.
`PropertyAttributes` edits attribute lists token by token. `ShuffleFuzz` has the
symbolic evaluation of shuffle trees and the program emitted for them.
`NodeKinds` walks up the hierarchy of syntax-node kinds. `Diagnostics` erases
captured diagnostics in place.

Where the code falls short of what one would expect of it, the model keeps the
code, a lemma shows an input, and another lemma says exactly when things go well:

- *Lines that go with a removal.* The offset of such a line in the edited text is
  entered into the deltas as if it were an offset of the original file. The next
  removal finds its range exactly if the line ended before it and that number is
  smaller than its own offset (`RewriterOffsets.RemovalsRun`); otherwise it may take
  other characters (`RewriteBuffer.WrongCharacterGoes`).
- *The rewritten file* is the text of the reference document, with indentation,
  exactly if no removal leaves its line blank and neither a text nor an indentation
  lies between two deleted characters (`RewrittenText.RewrittenIsRendered`,
  `SeamTextIsLost`, `IndentationIsLost`, `RewriteBuffer.BlankLineGoes`); and
  indentation shows exactly if a line is indented or a text with a line break is put
  into an indented line (`RewrittenText.IndentationShows`).
- *Property attributes.* Removing an attribute that occurs once leaves just the
  others exactly when it has no value, and the tokens to remove form a forward
  range exactly when a value-less first attribute is not repeated
  (`PropertyAttributes.ChosenRemoval`, `ValueIsLeftBehind`, `RepeatedRunsBackwards`).
  On the token lists of `RunsIntoEof` the lexing loop does not end.
- *Empty statements.* How an accepted statement ends is told by looking at every
  condition once, where the statement starts (`EmptyStatementProofs.EmptyEnds`); it
  is harmless exactly unless that is a jump (`HarmlessExactly`, `OverlookedReturn`).
  With harmless parts, an `if` or a for-in loop is so exactly when its condition or
  collection does not jump, a `while` or `do` loop exactly when its condition does
  not return, since a `break` or `continue` there belongs to the loop
  (`HarmlessIf`, `HarmlessForIn`, `HarmlessWhile`, `HarmlessDo`). A for-in loop over
  an outer variable leaves nil in it, and is harmless exactly when, besides, the
  variable was nil before (`OuterLoopVariable`, `OuterVariableChanges`).
- *Endless loops* are accepted too. An empty loop with a harmless body ends exactly
  when its condition gives 0, or jumps other than by a `continue`, the first time
  (`HarmlessWhile`, `HarmlessDo`); and a program ends exactly when its reduced form
  ends and passes no place where an endless statement was removed
  (`EmptyStatementRemoval.RemovalKeepsTermination`, `EndlessLoopIsRemoved`).
- *Shared remapping targets.* The reverse map is a full inverse in all states of a
  run exactly if no state of the run has a shared target
  (`FileRemapper.InverseOverRuns`). After a shared target it can lack one although
  targets are unshared again (`SharedTargetIsForgotten`), until the file is remapped
  once more (`RemappingRepairs`, `SetInverseExactly`).
- *Transactions.* `replaceText` does not check that a transaction is open. Commits
  are about what was asked for since their own start exactly if none comes after a
  `replaceText` outside (`TransactionModel.OwnTransactionsCount`); otherwise one that
  is not possible undoes a transaction that is (`StrayUndoesTransaction`).

The remover makes one pass. A condition with an empty statement in it that manages
memory can lose its side effects, and its statement would then be accepted
(`EmptyStatementShapes.SomethingIsLeft`); if no condition does, nothing is left
(`NothingIsLeft`).

`commitReplace` follows the build without assertions: a replacement that is not
inside the replaced range changes nothing.

Locations are offsets in one file, or macro expansions over such offsets. What
the preprocessor, the lexer and the syntax tree answer is a parameter (`Source`):
ends of tokens, system headers, ranges of statements. The test programs of delta
debugging, the contents of undefined lanes, the disk and its clock, and the order
in which a hash table is walked are arbitrary too.

## Model

| member | source | states |
|---|---|---|
| Removals.Canonical | clang/lib/ARCMigrate/TransformActions.cpp:110-112 | a sorted list of ranges with gaps is determined by the positions it covers: two such lists that cover the same are identical |
| Removals.RearrangedCoverSame | clang/lib/ARCMigrate/TransformActions.cpp:518-553 | ranges given in any other order cover the same positions |
| Removals.MergeInsert | clang/lib/ARCMigrate/TransformActions.cpp:535-537 | when the new range lies after the range looked at, putting it there keeps the list sorted with gaps and covers the old positions and the new range |
| Removals.MergeContained | clang/lib/ARCMigrate/TransformActions.cpp:538-539 | when the new range lies inside a range of the list, nothing is missing from what the list covers |
| Removals.MergeAbsorb | clang/lib/ARCMigrate/TransformActions.cpp:540-545 | swallowing a range that the new one contains or touches at its end loses no position, and the ranges behind stay a gap away |
| Removals.MergeExtend | clang/lib/ARCMigrate/TransformActions.cpp:546-548 | stretching a range that the new one touches from behind keeps the gaps and covers exactly both |
| Removals.MergedSet | clang/lib/ARCMigrate/TransformActions.cpp:518-553 | a list that merging leaves behind covers, as a set, the old positions and the new range and nothing else |
| Removals.BuriedInOneRange | clang/lib/ARCMigrate/TransformActions.cpp:505-516 | in a list with gaps, a location has deleted characters on both sides exactly when one range has it strictly inside |
| EditModel.DeletedExactly | clang/lib/ARCMigrate/TransformActions.cpp:518-553 | after any sequence of edits a character is deleted exactly when some removal covered it |
| EditModel.DeletionsCommute | clang/lib/ARCMigrate/TransformActions.cpp:518-553 | edits that remove the same ranges in any order, with any insertions in between, delete the same characters |
| EditModel.TextsAreSurvivors | clang/lib/ARCMigrate/TransformActions.cpp:505-553 | the texts at a location are, in request order, exactly those whose location was not buried when they came and that no later single removal has strictly inside |
| EditModel.NothingInsideARemoval | clang/lib/ARCMigrate/TransformActions.cpp:505-524 | over any run, no text survives strictly inside a range that was removed by one request |
| EditModel.SeamKeepsText | clang/lib/ARCMigrate/TransformActions.cpp:81-96 | touching ranges merge and yet keep a text between them: a concrete sequence of edits with a surviving text inside the merged range |
| TransformActions.TransformActionsImpl.AddInsertion | clang/lib/ARCMigrate/TransformActions.cpp:505-516 | walking the removals backwards, the text is kept at its location exactly when the characters on both sides are not both deleted; otherwise nothing changes |
| TransformActions.TransformActionsImpl.AddRemoval | clang/lib/ARCMigrate/TransformActions.cpp:518-553 | keeps the list sorted with gaps, deletes exactly the characters of the range besides the old ones, and drops exactly the texts strictly inside it |
| TransformActions.TransformActionsImpl.MergeRemoval | clang/lib/ARCMigrate/TransformActions.cpp:526-552 | the backward loop, whichever of its six cases it meets, ends with the sorted list with gaps that covers the old positions and the range |
| TransformActions.TransformActionsImpl.CommitRemove | clang/lib/ARCMigrate/TransformActions.cpp:445-447 | deletes, besides what is gone, exactly the characters from the start of the range's first token to the end of its last |
| TransformActions.TransformActionsImpl.CommitRemoveStmt | clang/lib/ARCMigrate/TransformActions.cpp:449-461 | removes a statement only the first time, and leaves the placeholder macro in front of a removed expression |
| TransformActions.TransformActionsImpl.CommitReplace | clang/lib/ARCMigrate/TransformActions.cpp:463-477 | removes what the range has before and behind the replacement, and nothing if the replacement is not contained in it |
| TransformActions.TransformActionsImpl.CommitReplaceText | clang/lib/ARCMigrate/TransformActions.cpp:479-489 | removes as many characters as the old text has and then puts the new text there |
| TransformActions.TransformActionsImpl.CommitAction | clang/lib/ARCMigrate/TransformActions.cpp:190-277 | every kind of action changes the committed state as its meaning says, and neither the queue nor the open flag |
| TransformActions.TransformActionsImpl.CheckCached | clang/lib/ARCMigrate/TransformActions.cpp:198-242 | true exactly when every queued action passes its own check |
| TransformActions.TransformActionsImpl.CommitTransaction | clang/lib/ARCMigrate/TransformActions.cpp:190-277 | commits all queued actions in order if all are possible, drops all otherwise, reports which, and closes the transaction |
| TransformActions.TransformActionsImpl.AbortTransaction | clang/lib/ARCMigrate/TransformActions.cpp:279-283 | drops the queue, closes the transaction and changes nothing that was committed |
| TransformActions.TransformActionsImpl.Ask | clang/lib/ARCMigrate/TransformActions.cpp:285-380 | every entry point queues its actions and commits nothing; clearing a diagnostic is queued only if there is one to clear, and says so |
| TransformActions.TransformActionsImpl.ApplyRewrites | clang/lib/ARCMigrate/TransformActions.cpp:555-577 | sends the insertions by location and in request order, then indentations, then removals; read positionally the calls spell the text of the reference document |
| TransformActions.Transaction.constructor | clang/lib/ARCMigrate/Internals.h:128-130 | opening a scope starts a transaction |
| TransformActions.Transaction.Abort | clang/lib/ARCMigrate/Internals.h:137-140 | aborting drops what the scope has queued |
| TransformActions.Transaction.LeaveScope | clang/lib/ARCMigrate/Internals.h:132-135 | leaving the scope commits unless it was aborted, and then does nothing |
| TransactionModel.UselessClearings | clang/lib/ARCMigrate/TransformActions.cpp:368-380 | not queueing a clearing that finds nothing is harmless: no later commit can make it useful, since diagnostics are only ever removed |
| TransactionModel.AllOrNothing | clang/lib/ARCMigrate/TransformActions.cpp:184-283 | after any legal history the committed state is the in-order effect of exactly those transactions that were committed with every action possible |
| TransactionModel.OutcomeOfHistory | clang/lib/ARCMigrate/TransformActions.cpp:184-553 | after any legal history of a fresh engine a character is deleted exactly when a successful transaction removed it, and the texts at a location are the survivors of successful transactions in request order |
| TransactionModel.RemovalOrderIsIrrelevant | clang/lib/ARCMigrate/TransformActions.cpp:518-553 | two histories whose successful transactions removed the same ranges in any order end with the identical list of removals |
| TransactionModel.OwnTransactionsCount | clang/lib/ARCMigrate/TransformActions.cpp:338-347 | commits are about what was asked for since their own start exactly if none comes after a `replaceText` outside a transaction, and then exactly the transactions that could do all they asked for themselves count |
| TransactionModel.StrayUndoesTransaction | clang/lib/ARCMigrate/TransformActions.cpp:338-347 | a concrete `replaceText` outside a transaction because of which a possible transaction has no effect |
| TransactionModel.WhatIsDeleted | clang/lib/ARCMigrate/TransformActions.cpp:436-503 | a possible action deletes, besides what is gone, just the characters from the start of its first token to the end of its last, a statement only the first time, a replaced range without its replacement; the range to indent is stored likewise |
| TransactionModel.RemovedTokens | clang/lib/ARCMigrate/TransformActions.cpp:67-108 | from one token of the file to another the characters up to the end of the last are deleted, and a macro expansion is deleted whole |
| TransactionModel.WhatIsWritten | clang/lib/ARCMigrate/TransformActions.cpp:436-489 | a location that keeps a character next to it keeps its texts, with the text of the action behind them if that is for it |
| TransactionModel.WhatIsPossible | clang/lib/ARCMigrate/TransformActions.cpp:382-434 | insertions need a place outside system headers, at the start or the end of a macro expansion if in one, removals both, and a replaced text has to be there |
| TransactionModel.WhatRequestsDelete | clang/lib/ARCMigrate/TransformActions.cpp:285-380 | what every entry point deletes; statements without what stands for them implicitly |
| TransactionModel.WhereRequestsWrite | clang/lib/ARCMigrate/TransformActions.cpp:285-380 | every entry point with a text puts it behind the texts that are at its location, unless both characters there are gone in the end |
| RewriteStream.FindLeast | clang/lib/ARCMigrate/TransformActions.cpp:557-563 | the location that the ordered walk over the insertions visits first is the smallest one left |
| RewriteStream.StreamAt | clang/lib/ARCMigrate/TransformActions.cpp:555-577 | at every location the stream inserts the texts of the document in order and removes exactly its deleted characters |
| RewriteStream.StreamRenders | clang/lib/ARCMigrate/TransformActions.cpp:555-577 | read positionally, insertions and removals of the stream give the same text as the reference document |
| RewriteStream.StreamInOrder | clang/lib/ARCMigrate/TransformActions.cpp:555-577 | insertions come first, by location, then the indentations as they are listed, then the removals |
| Lines.IndentNewLines | clang/lib/Rewrite/Rewriter.cpp:244-273 | splitting at line breaks and joining again puts the white space behind every line break |
| Lines.IndentingAdds | clang/lib/Rewrite/Rewriter.cpp:244-273 | indenting a text changes it exactly when it has a line break and there is white space to add, and then makes it longer |
| Lines.BlankLineIsWhole | clang/lib/Rewrite/Rewriter.cpp:63-88 | what goes with a removal is one whole line of white space, with its line break and with the place of the removal in it |
| Lines.BlankLineIsFound | clang/lib/Rewrite/Rewriter.cpp:63-88 | every line of nothing but white space and its line break goes with a removal in it |
| Lines.IndentationIsMaximal | clang/lib/Rewrite/Rewriter.cpp:244-262 | the indentation of a line is all its white space up to the first other character |
| RewriteBuffer.RewriteBuffer.constructor | clang/include/clang/Rewrite/Core/RewriteBuffer.h:39-46 | a new buffer holds the unedited text and no deltas |
| RewriteBuffer.RewriteBuffer.InsertText | clang/lib/Rewrite/Rewriter.cpp:92-103 | for any valid location, at any time, the text and the deltas become those of the value-level insertion |
| RewriteBuffer.RewriteBuffer.RemoveText | clang/lib/Rewrite/Rewriter.cpp:49-90 | for any valid location and size, the text and the deltas become those of the value-level removal, with the line if that is asked for and blank |
| RewriteBuffer.RewriteBuffer.FindLine | clang/lib/Rewrite/Rewriter.cpp:67-84 | the two loops find the start of the line of an offset and the end of the white space there |
| RewriteBuffer.BlankLineGoes | clang/lib/Rewrite/Rewriter.cpp:63-88 | a concrete removal of one character that takes a line break along |
| RewriteBuffer.WrongCharacterGoes | clang/lib/Rewrite/Rewriter.cpp:85-88 | a concrete insertion and two removals after which another character is gone than the one asked for |
| Rewriter.Rewriter.InsertText | clang/lib/Rewrite/Rewriter.cpp:238-277 | a text is inserted behind earlier ones, its lines indented like the line it is put into |
| Rewriter.Rewriter.RemoveText | clang/lib/ARCMigrate/ARCMT.cpp:485-493 | a range is removed without the texts at its two ends, and with its line if that is left blank |
| Rewriter.Rewriter.IncreaseIndentation | clang/lib/Rewrite/Rewriter.cpp:327-393 | every line of the range that starts with the white space of its first line gets what that has more than the parent's line |
| Rewriter.ApplyStream | clang/lib/ARCMigrate/ARCMT.cpp:478-499 | a stream of insertions, indentations and removals in any order gives the text of the value-level calls, or comes to a call that is not valid exactly when they do |
| RewriterOffsets.PutStep | clang/lib/Rewrite/Rewriter.cpp:92-103 | an insertion goes behind, or in front of, what its location has, and all offsets are still found afterwards |
| RewriterOffsets.CutStep | clang/lib/Rewrite/Rewriter.cpp:49-90 | a removal whose offsets are found takes the range, and then the line that is left blank, out of the text |
| RewriterOffsets.LineStep | clang/lib/Rewrite/Rewriter.cpp:85-88 | behind a line that went, an offset is found exactly if the line ended before it and was entered before it |
| RewriterOffsets.MissedByTheLine | clang/lib/Rewrite/Rewriter.cpp:85-88 | an offset that the line was entered behind is missed by just the length of the line |
| RewriterOffsets.RemovalsRun | clang/lib/Rewrite/Rewriter.cpp:49-155 | over a whole list of ranges, all are looked up where they are exactly if every line that went was past in time, and the text is then the intended one |
| RemovedLines.BlankLinesShorten | clang/lib/Rewrite/Rewriter.cpp:63-88 | if any removal leaves its line blank, the final text is shorter than without removing lines, whatever is removed later |
| RewrittenText.PutsRun | clang/lib/Rewrite/Rewriter.cpp:92-103 | insertions alone are never misplaced, however many and in whatever order |
| RewrittenText.CallsOfInsertions | clang/lib/Rewrite/Rewriter.cpp:238-277 | what a stream puts behind a location are its texts for it in order, indented like the line they are in |
| RewrittenText.ReindentsLines | clang/lib/Rewrite/Rewriter.cpp:327-393 | re-indenting puts in front of an offset what the first line has more than the parent's line exactly if the offset starts a line of the range that starts with the first line's white space, and nothing elsewhere |
| RewrittenText.IndentationShows | clang/lib/Rewrite/Rewriter.cpp:238-393 | with indentation the text is that of the reference document exactly if no line is indented and no text with a line break is put into an indented line |
| RewrittenText.RewrittenIsRendered | clang/lib/Rewrite/Rewriter.cpp:49-155 | what is made of the engine's stream is the text of the indented document exactly if no removal leaves its line blank and neither a text nor an indentation lies between two deleted characters |
| RewrittenText.RewriterRuns | clang/lib/ARCMigrate/ARCMT.cpp:478-499 | for the engine's whole stream, indentations included, all ranges are looked up where they are exactly if every line that went was past in time, and then the rewriter makes of the file what it is meant to |
| RewrittenText.SeamTextIsLost | clang/lib/Rewrite/Rewriter.cpp:124-155 | a concrete text between two merged removals that the document has and the rewritten file has not |
| RewrittenText.IndentationIsLost | clang/lib/Rewrite/Rewriter.cpp:327-393 | a concrete removal with an indented line strictly inside: the document has the indentation and the rewritten file has not |
| Diagnostics.CapturedDiagList.HasDiagnostic | clang/lib/ARCMigrate/ARCMT.cpp:57-77 | true exactly when a captured diagnostic has one of the ids (any, if none is given) and lies in the valid range |
| Diagnostics.CapturedDiagList.ClearDiagnostic | clang/lib/ARCMigrate/ARCMT.cpp:27-55 | returns whether there was a match before, and leaves in order exactly the diagnostics that neither match nor are notes following a matching non-note |
| Diagnostics.CapturedDiagList.HasErrors | clang/lib/ARCMigrate/ARCMT.cpp:84-90 | true exactly when an error or a fatal error was captured |
| Diagnostics.SelectedExactly | clang/lib/ARCMigrate/ARCMT.cpp:33-45 | selected are the diagnostics with one of the ids, or any if none is given, in a valid range with both its ends |
| Diagnostics.ClearedNext | clang/lib/ARCMigrate/ARCMT.cpp:27-55 | one after the other, diagnostics stay unless they are selected, or notes and the last before them that is no note is selected |
| Diagnostics.ClearingIsComplete | clang/lib/ARCMigrate/ARCMT.cpp:27-55 | no matching diagnostic is left behind, and nothing new appears |
| Diagnostics.ClearingNothing | clang/lib/ARCMigrate/ARCMT.cpp:27-77 | clearing leaves the list as it was exactly when nothing matches |
| DeltaAlgorithm.SplitPartition | clang/utils/token-delta.py:48-61 | splitting gives one piece, or two nonempty ones of nearly equal size that make up the whole |
| DeltaAlgorithm.RefinePartition | clang/utils/token-delta.py:75-80 | refining a partition gives a partition into pieces of nearly equal size, with more pieces unless all are single changes |
| DeltaAlgorithm.BudgetOfRun | clang/utils/token-delta.py:33-46 | the tests that a run needs are quadratic in the number of changes: at most n * n + 7 * n and 3 * n * (n + 1) besides two |
| DeltaAlgorithm.DeltaAlgorithm.GetTestResult | clang/utils/token-delta.py:20-31 | despite being keyed by sets the cache never lies: the answer is that of the test, every failure is cached, and no failing candidate is executed twice |
| DeltaAlgorithm.DeltaAlgorithm.Run | clang/utils/token-delta.py:33-46 | raises exactly when the initial test fails without force; otherwise the result is an order-preserving sublist, 1-minimal and passing (or the forced input), within n * n + 7 * n + 2 and 3 * n * (n + 1) + 2 test results |
| DeltaAlgorithm.DeltaAlgorithm.Delta | clang/utils/token-delta.py:63-80 | ends, within its budget, in a 1-minimal sublist that passes or is the unreduced list |
| DeltaAlgorithm.DeltaAlgorithm.Search | clang/utils/token-delta.py:82-93 | a result is a 1-minimal passing sublist; no result means that no piece and, with more than two pieces, no complement passes |
| DeltaAlgorithm.SinglesAreMinimal | clang/utils/token-delta.py:75-78 | if nothing passes among single-change pieces and their complements, the list is 1-minimal |
| Sublists.SameElemsSameSublist | clang/utils/token-delta.py:20-31 | sublists of a duplicate-free list with equal sets of elements are equal, so a set identifies a candidate |
| TokenDelta.ChosenKeepsOrder | clang/utils/token-delta.py:148-160 | for any candidate every file holds some of its own tokens in their original order, and all changes together keep every file whole |
| TokenDelta.ChosenNext | clang/utils/token-delta.py:147-159 | without changes all files are empty, and one more change puts the token it names behind those of its file and nothing anywhere else |
| TokenDelta.TokenOfChange | clang/utils/token-delta.py:147-159 | every token of the files can be dropped by dropping one change |
| TokenDelta.TMBDDelta.WriteFiles | clang/utils/token-delta.py:148-160 | sorting changes by file writes to each file the tokens that its changes name |
| TokenDelta.TMBDDelta.Run | clang/utils/token-delta.py:206-213 | succeeds exactly when the program does on the whole files; the target files then make it succeed, hold tokens in order, and dropping any one token makes it fail |
| RemapFile.DecimalRoundTrip | clang/lib/ARCMigrate/FileRemapper.cpp:132-137 | reading the digits of a printed modification time gives the time back |
| RemapFile.RecordsAt | clang/lib/ARCMigrate/FileRemapper.cpp:120-164 | every file has three lines, in the order of the walk: its name, its modification time, the name of its new contents |
| RemapFile.GetAsUnsignedInteger | llvm/lib/Support/StringRef.cpp:378-417 | with 64-bit wrap-around, an error is reported exactly when the line is not a number or does not fit, and otherwise the value is right |
| RemapFile.DecimalExample | clang/lib/ARCMigrate/FileRemapper.cpp:130-140 | numbers are written and read in the usual digits |
| RemapFile.NumbersFit | llvm/lib/Support/StringRef.cpp:378-417 | numbers of up to 64 bits are read back as written, and no others |
| Lines.SplitJoined | llvm/lib/Support/StringRef.cpp:283-308 | lines without line breaks come back from the joined text, with an empty line behind the last one |
| RemapFile.ParseRecords | clang/lib/ARCMigrate/FileRemapper.cpp:71-101 | parsing the records of a mapping gives the pairs that are still fresh, or an error if one is not and may not be ignored |
| RemapFile.RemapFileRoundTrip | clang/lib/ARCMigrate/FileRemapper.cpp:56-164 | reading back what was written restores exactly the entries whose files exist and whose original has its old modification time; all of the mapping if all are fresh, and without leave to ignore an error if not |
| FileRemapper.FileRemapper.ResetTarget | clang/lib/ARCMigrate/FileRemapper.cpp:241-251 | the file has no target afterwards: an owned buffer is freed or the target file forgotten, the reverse map still says what the forward map says, every buffer is freed once or owned by one file, and a full inverse stays one |
| FileRemapper.FileRemapper.RemapToBuffer | clang/lib/ARCMigrate/FileRemapper.cpp:211-217 | the file now owns the buffer handed over and its old target is released; reverse map and ownership stay right |
| FileRemapper.FileRemapper.RemapToFile | clang/lib/ARCMigrate/FileRemapper.cpp:219-225 | the file is mapped to the new file and back, and its old target is released |
| FileRemapper.FileRemapper.GetOriginalFile | clang/lib/ARCMigrate/FileRemapper.cpp:227-239 | finds the original behind a remapped file, or the file itself; the assertion of the original holds in every valid state |
| FileRemapper.FileRemapper.Remap | clang/lib/ARCMigrate/FileRemapper.cpp:206-209 | a path is remapped at its original file, so remapping twice does not chain |
| FileRemapper.FileRemapper.Clear | clang/lib/ARCMigrate/FileRemapper.cpp:31-41 | empties both maps and frees every buffer that is still owned: afterwards each buffer ever handed over has been freed exactly once |
| FileRemapper.FileRemapper.FlushToFile | clang/lib/ARCMigrate/FileRemapper.cpp:120-164 | writes three lines for every file, turns every buffer into a new file with its contents, and touches no other file |
| FileRemapper.FileRemapper.InitFromFile | clang/lib/ARCMigrate/FileRemapper.cpp:56-108 | a missing file is no error; a bad one is, and then nothing is remapped; otherwise the mapping is that of the parsed pairs |
| FileRemapper.FileRemapper.ReadPairs | clang/lib/ARCMigrate/FileRemapper.cpp:71-101 | the reading loop finds exactly the pairs of the format, and errors where the format does |
| FileRemapper.SetKeepsReverse | clang/lib/ARCMigrate/FileRemapper.cpp:211-225 | after any remapping, what the reverse map says of a file is what the forward map says |
| FileRemapper.SetBufferKeepsOwned | clang/lib/ARCMigrate/FileRemapper.cpp:211-217 | handing over a new buffer keeps every buffer freed once or owned by exactly one file |
| FileRemapper.SetInverseExactly | clang/lib/ARCMigrate/FileRemapper.cpp:206-225 | the reverse map is a full inverse after a remapping exactly if it knew all other targets and none of them is the file's old or new one |
| FileRemapper.SetKeepsInverse | clang/lib/ARCMigrate/FileRemapper.cpp:206-225 | from a full inverse one comes to a full inverse exactly if no target is shared then |
| FileRemapper.InverseOverRuns | clang/lib/ARCMigrate/FileRemapper.cpp:31-251 | in all states of any run of remappings and clearings the reverse map is a full inverse, exactly if no state has a shared target |
| FileRemapper.SharedTargetIsForgotten | clang/lib/ARCMigrate/FileRemapper.cpp:241-251 | a concrete sequence of calls after which the reverse map misses a target although targets are unshared again |
| FileRemapper.RemappingRepairs | clang/lib/ARCMigrate/FileRemapper.cpp:219-225 | one more remapping of the forgotten file to the target it has makes the reverse map a full inverse again |
| FileRemapper.FlushAndReload | clang/lib/ARCMigrate/FileRemapper.cpp:56-164 | flushing a remapper and reading the file with a new one restores the post-flush mapping if no file was touched in between |
| AutoreleasePools.RecordedAreScopes | clang/lib/ARCMigrate/TransAutoreleasePool.cpp:164-215 | recorded scopes begin before they end, at statements of their variable, share no endpoint, and are nested or disjoint |
| AutoreleasePools.InnerPoolsAreClosed | clang/lib/ARCMigrate/TransAutoreleasePool.cpp:204-212 | a drain closes the innermost pool: every pool created inside the scope was closed inside it |
| AutoreleasePools.ClosedExactly | clang/lib/ARCMigrate/TransAutoreleasePool.cpp:164-215 | told without the stack: a drain closes the last pool of its variable that was not closed before it, exactly if all pools created in between were |
| AutoreleasePools.ClosedIsNoted | clang/lib/ARCMigrate/TransAutoreleasePool.cpp:296-348 | a closed scope ends at the drain of its variable and is marked exactly if a simple return comes next |
| AutoreleasePools.NamesStayInside | clang/lib/ARCMigrate/TransAutoreleasePool.cpp:296-348 | a scope lets no name out exactly if no statement behind it refers to a name declared in it, where a simple return that comes next is not behind it |
| AutoreleasePools.ScopesArePlaced | clang/lib/ARCMigrate/TransAutoreleasePool.cpp:84-162 | the places of all braces are distinct and do not cross, even where a return is pulled into a scope |
| AutoreleasePools.EveryScopeIsBraced | clang/lib/ARCMigrate/TransAutoreleasePool.cpp:84-162 | every chosen scope gets its opening and its closing brace at its own places |
| AutoreleasePools.EmittedBracesBalance | clang/lib/ARCMigrate/TransAutoreleasePool.cpp:84-162 | for any subset of the pool variables the emitted braces of a whole body are balanced, and every closing brace closes the scope opened last |
| AutoreleasePools.OpenAroundChild | clang/lib/ARCMigrate/TransAutoreleasePool.cpp:84-162 | around every child just those scopes to rewrite are open that begin at it or before it and end behind it, and those that pull it in as their return |
| AutoreleasePools.EveryBraceIsEmitted | clang/lib/ARCMigrate/TransAutoreleasePool.cpp:84-162 | at every depth, each recorded scope of a variable to rewrite gets one opening and one closing brace, and there are no others |
| AutoreleasePools.RecordedForMembers | clang/lib/ARCMigrate/TransAutoreleasePool.cpp:296-348 | the list of a variable holds exactly its closed scopes none of whose declared names is referred to behind them, apart from a simple return that comes next |
| AutoreleasePools.AutoreleasePoolRewriter.VisitCompoundStmt | clang/lib/ARCMigrate/TransAutoreleasePool.cpp:164-215 | one visit appends to every variable's list exactly its recorded scopes of this block, in closing order |
| AutoreleasePools.AutoreleasePoolRewriter.HandlePoolScope | clang/lib/ARCMigrate/TransAutoreleasePool.cpp:296-348 | records a scope, marked if a simple return comes next, exactly when no name declared in it is referred to behind it |
| AutoreleasePools.GetIndentedRange | clang/lib/ARCMigrate/TransAutoreleasePool.cpp:236-245 | the indented statements are those strictly between begin and end, none for neighbours |
| EmptyStatementProofs.NoMigratorEffectsQuiet | clang/lib/ARCMigrate/Transforms.cpp:173-200 | an expression the migrator sees no side effects in can change nothing but retain counts, however it is left |
| EmptyStatementProofs.EmptyKeepsState | clang/lib/ARCMigrate/TransEmptyStatementsAndDealloc.cpp:78-146 | whatever way a statement accepted as empty is left, the observable state is as before, if its for-in loops declare their variables |
| EmptyStatementProofs.EmptyIsSound | clang/lib/ARCMigrate/TransEmptyStatementsAndDealloc.cpp:78-146 | if besides no jump leaves it, an accepted statement ends normally whenever it ends |
| EmptyStatementProofs.MoreFuel | clang/lib/ARCMigrate/TransEmptyStatementsAndDealloc.cpp:78-182 | an ending does not depend on retain counts, nor on how long one is ready to wait for it |
| EmptyStatementProofs.HarmlessIf | clang/lib/ARCMigrate/TransEmptyStatementsAndDealloc.cpp:97-108 | an accepted if with harmless branches does nothing exactly when evaluating its condition does not jump |
| EmptyStatementProofs.HarmlessWhile | clang/lib/ARCMigrate/TransEmptyStatementsAndDealloc.cpp:109-120 | an accepted while loop with a harmless body ends exactly when its condition gives 0, or jumps other than by a `continue`, the first time, and does nothing exactly when the condition does not return |
| EmptyStatementProofs.HarmlessDo | clang/lib/ARCMigrate/TransEmptyStatementsAndDealloc.cpp:121-130 | an accepted do loop with a harmless body ends exactly when its body does and its condition then gives 0 or jumps other than by a `continue`, and does nothing exactly unless the body ends and the condition then returns |
| EmptyStatementProofs.HarmlessForIn | clang/lib/ARCMigrate/TransEmptyStatementsAndDealloc.cpp:131-140 | an accepted for-in loop over a variable of its own does nothing exactly when evaluating the collection does not jump |
| EmptyStatementProofs.EmptyEnds | clang/lib/ARCMigrate/TransEmptyStatementsAndDealloc.cpp:78-146 | any accepted statement whose for-in loops declare their variables, with whatever jumps and nesting, ends just as is told without repeating a loop and with all conditions evaluated where it starts |
| EmptyStatementProofs.HarmlessExactly | clang/lib/ARCMigrate/TransEmptyStatementsAndDealloc.cpp:78-146 | such a statement does nothing exactly unless it is told to end in a jump |
| EmptyStatementProofs.OuterLoopVariable | clang/lib/ARCMigrate/TransEmptyStatementsAndDealloc.cpp:131-140 | an accepted for-in loop over a variable declared outside, with a harmless body, is harmless exactly when its collection is evaluated without a jump and the variable was nil before |
| EmptyStatementProofs.OuterVariableChanges | clang/lib/ARCMigrate/TransEmptyStatementsAndDealloc.cpp:131-140 | a concrete accepted for-in loop over nothing that sets an outer variable to nil |
| EmptyStatementProofs.OverlookedReturn | clang/lib/ARCMigrate/Transforms.cpp:173-200 | a concrete statement that is accepted as empty and yet returns from the function |
| EmptyStatementShapes.AcceptedExactly | clang/lib/ARCMigrate/TransEmptyStatementsAndDealloc.cpp:78-146 | a statement is accepted exactly if no statement in it is anything but a leftover `;`, a nonempty compound, or an if, loop or pool whose condition has no side effects and declares nothing |
| EmptyStatementShapes.EffectsExactly | clang/lib/ARCMigrate/TransEmptyStatementsAndDealloc.cpp:97-140 | an expression has side effects exactly if there is an assignment or a message in it, at any depth |
| EmptyStatementShapes.MigratorEffectsExactly | clang/lib/ARCMigrate/Transforms.cpp:173-200 | to the migrator, memory management on something has the side effects that this has, and none on `super` |
| EmptyStatementShapes.RemovedOneByOne | clang/lib/ARCMigrate/TransEmptyStatementsAndDealloc.cpp:152-182 | of the children, an accepted one goes and any other stays where it is; the last one of a statement expression always stays |
| EmptyStatementShapes.NothingIsLeft | clang/lib/ARCMigrate/TransEmptyStatementsAndDealloc.cpp:148-182 | if no condition loses its side effects, no accepted child is left |
| EmptyStatementShapes.SomethingIsLeft | clang/lib/ARCMigrate/TransEmptyStatementsAndDealloc.cpp:148-182 | a concrete statement that would be accepted after its condition has been reduced |
| EmptyStatementRemoval.RemovingIn | clang/lib/ARCMigrate/TransEmptyStatementsAndDealloc.cpp:148-182 | every ending of a program, with its jump, its value and its observable state, is an ending of the program without its empty statements, and every statement removed on the way ends |
| EmptyStatementRemoval.RestoringIn | clang/lib/ARCMigrate/TransEmptyStatementsAndDealloc.cpp:148-182 | conversely, if the reduced program ends and passes no removed statement that is endless, the program ends alike, from every state that differs in retain counts only |
| EmptyStatementRemoval.RemovingEmpty | clang/lib/ARCMigrate/TransEmptyStatementsAndDealloc.cpp:166-170 | removing the accepted children of a compound statement preserves its state transformer |
| EmptyStatementRemoval.RemovingAllButLast | clang/lib/ARCMigrate/TransEmptyStatementsAndDealloc.cpp:155-164 | in a statement expression even the value is preserved, since the last statement stays |
| EmptyStatementRemoval.RemovalKeepsTermination | clang/lib/ARCMigrate/TransEmptyStatementsAndDealloc.cpp:148-182 | a program ends exactly when its reduced form ends and passes no place where an endless statement was removed |
| EmptyStatementRemoval.RemovalKeepsEndings | clang/lib/ARCMigrate/TransEmptyStatementsAndDealloc.cpp:148-182 | if a program and its reduced form both end, they end alike |
| EmptyStatementRemoval.RemovedTerminates | clang/lib/ARCMigrate/TransEmptyStatementsAndDealloc.cpp:78-182 | a removed statement ends exactly when it is told to without repeating its loops |
| EmptyStatementRemoval.RemovedWhileTerminates | clang/lib/ARCMigrate/TransEmptyStatementsAndDealloc.cpp:109-120 | a removed while loop with a harmless body is endless exactly when its condition does not end it the first time |
| EmptyStatementRemoval.RemovedDoTerminates | clang/lib/ARCMigrate/TransEmptyStatementsAndDealloc.cpp:121-130 | a removed do loop with a harmless body ends exactly when the body does and its condition ends it the first time |
| EmptyStatementRemoval.EndlessLoopIsRemoved | clang/lib/ARCMigrate/TransEmptyStatementsAndDealloc.cpp:109-120 | a concrete endless loop that is removed, so that the program ends |
| PropertyAttributes.RewritePropertyAttribute | clang/lib/ARCMigrate/Transforms.cpp:384-464 | on any tokens that do not run into the end of the file, the lexing loop comes to the edit that `RewritesList` is about |
| PropertyAttributes.LexAttribute | clang/lib/ARCMigrate/Transforms.cpp:433-446 | one turn of the loop notes where the attribute is and which tokens surround it, and stops at the next comma or parenthesis |
| PropertyAttributes.RewritesList | clang/lib/ARCMigrate/Transforms.cpp:384-464 | on a well-formed list the loop ends and succeeds exactly when the attribute is there; an attribute that occurs once is renamed in place; removing it leaves the others, in order and well separated, exactly when it has no value |
| PropertyAttributes.NothingToRewrite | clang/lib/ARCMigrate/Transforms.cpp:384-419 | without a list of attributes, or with an empty one, nothing is edited |
| PropertyAttributes.ClosedEnds | clang/lib/ARCMigrate/Transforms.cpp:420-447 | a list that is closed is lexed to its end |
| PropertyAttributes.StuckBehind | clang/lib/ARCMigrate/Transforms.cpp:437-441 | on exactly the token lists that the rewrite excludes, the loop comes to a token behind which there is no separator at all |
| PropertyAttributes.UnclosedLists | clang/lib/ARCMigrate/Transforms.cpp:420-447 | one unclosed list on which the loop ends at once, and one on which it does not end |
| PropertyAttributes.ValueIsLeftBehind | clang/lib/ARCMigrate/Transforms.cpp:449-461 | a concrete attribute with a value of which the value stays |
| PropertyAttributes.RepeatedRunsBackwards | clang/lib/ARCMigrate/Transforms.cpp:449-461 | a concrete repeated first attribute whose tokens to remove run backwards |
| PropertyAttributes.ChosenRemoval | clang/lib/ARCMigrate/Transforms.cpp:449-461 | the tokens chosen form a forward range exactly unless a value-less first attribute is repeated, and are the right ones exactly for an attribute without a value |
| PropertyAttributes.AddedComesFirst | clang/lib/ARCMigrate/Transforms.cpp:466-512 | with or without other attributes the new one comes first, and the parentheses and commas are right |
| PropertyAttributes.AddedToEmptyParens | clang/lib/ARCMigrate/Transforms.cpp:466-512 | an empty pair of parentheses is filled |
| PropertyAttributes.NothingAdded | clang/lib/ARCMigrate/Transforms.cpp:466-512 | nothing is added to what is no property declaration, or to a list that does not start with a name |
| PropertyAttributes.AddThenRemove | clang/lib/ARCMigrate/Transforms.cpp:384-512 | adding an absent attribute and removing it again restores the declaration token by token |
| ShuffleFuzz.EvaluateTree | llvm/utils/shuffle_fuzz.py:121-134 | every level has one result less, and the single vector left holds in every lane what tracing the lane back through the masks comes to: an input lane, or undefined |
| ShuffleFuzz.LaneIsTraced | llvm/utils/shuffle_fuzz.py:124-130 | after any number of levels, every lane of every result holds the input lane it is traced back to, and is undefined exactly if tracing meets -1 |
| ShuffleFuzz.ExpectationTellsOrigin | llvm/utils/shuffle_fuzz.py:120-134 | an expected lane is undefined exactly if it comes from nowhere, and if the elements are wide enough two are equal exactly if they come from the same input lane |
| ShuffleFuzz.Emit | llvm/utils/shuffle_fuzz.py:160-167 | the loops emit, level by level, one shufflevector for every mask of the tree |
| ShuffleFuzz.ShuffleAgrees | llvm/utils/shuffle_fuzz.py:126-130 | one emitted shufflevector sets a new register that agrees with the symbolic shuffle in every defined lane |
| ShuffleFuzz.LevelRuns | llvm/utils/shuffle_fuzz.py:160-167 | a level of instructions never gets stuck and leaves the level's symbolic results in its registers |
| ShuffleFuzz.TreeRuns | llvm/utils/shuffle_fuzz.py:160-172 | for every tree, width and choice of undefined lanes, all registers of every level agree with the symbolic evaluation |
| ShuffleFuzz.EmitChecks | llvm/utils/shuffle_fuzz.py:217-242 | main skips undefined lanes and compares the others with the expected value |
| ShuffleFuzz.ChecksDecide | llvm/utils/shuffle_fuzz.py:217-246 | main returns 0 exactly when the vector agrees with the expectation in every defined lane |
| ShuffleFuzz.EmittedProgramPasses | llvm/utils/shuffle_fuzz.py:121-246 | on a machine that implements shufflevector the emitted program always returns 0 |
| NodeKinds.IsBaseOf | clang/lib/AST/ASTTypeTraits.cpp:42-57 | decides the reflexive-transitive parent relation on any acyclic table, and the distance leads from the derived kind to the base |
| NodeKinds.DistanceIsUnique | clang/lib/AST/ASTTypeTraits.cpp:46-57 | two kinds are never two different distances apart |
| NodeKinds.DistancesAdd | clang/lib/AST/ASTTypeTraits.cpp:46-57 | distances along the hierarchy add up |
| NodeKinds.DerivesTransitive | clang/lib/AST/ASTTypeTraits.cpp:42-57 | being a base is transitive |
| NodeKinds.DerivesAntisymmetric | clang/lib/AST/ASTTypeTraits.cpp:42-57 | two kinds that are bases of each other are the same |
| NodeKinds.GetMostDerivedType | clang/lib/AST/ASTTypeTraits.cpp:61-66 | the one of the two kinds that derives from the other, and none exactly when neither does |
| NodeKinds.GetMostDerivedCommonAncestor | clang/lib/AST/ASTTypeTraits.cpp:68-75 | the lowest common base: a base of both that derives from every common base, and none exactly when there is no common base |
| NodeKinds.LowestIsUnique | clang/lib/AST/ASTTypeTraits.cpp:68-75 | the result does not depend on which kind comes first |

## Left out

- Macro locations inside `SourceManager` and `Lexer`, system-header queries, and
  how a token's end is measured: the model takes their answers as functions.
- Reversed token ranges: actions are required to run forwards, as ranges of
  syntax trees do.
- Ids of captured diagnostics beyond equality, and reporting them.
- The listener of `RewritesApplicator`, rewriting more than one file, other line
  breaks than the newline character, the B-tree behind the deltas and the rope
  behind the buffer, which are a list and a string here, and `Rewriter::ReplaceText`.
- Rewriter.ApplyStream: says nothing of the text after a call that is not valid, on which the original asserts or goes on with a size that has wrapped around. Locations are offsets in the file, and a re-indentation has a parent location in it, since the original asserts that.
- RewrittenText.RewrittenIsRendered: is about the intended text; `RewriterRuns` says when the rewriter comes to it, and nothing is said of the final text when it looks up a wrong range.
- Subprocesses, logging and temporary names of the delta debugger; changes are
  required to be distinct, as those of token files are.
- DeltaAlgorithm.DeltaAlgorithm.Search: its loop body is two methods of their own, called in the order of the original.
- Errors of the file system while flushing (creating temporary files, writing),
  `overwriteOriginal`, `applyMappings`, the name of the remap file, and removal of
  the file from the output directory in `clear`.
- Files that are one through links, relative paths, and a file manager's memory
  of missing files: files are told apart by absolute names.
- FileRemapper.FileRemapper.FlushToFile: new temporary names are required to be unused, which the original gets from the file system.
- RemapFile.RemapFileRoundTrip: file names are required to be free of line breaks, since the format has no escapes.
- Recognising pool creation, drains and simple returns in syntax trees, clearing
  diagnostics about `release`, and the loops that turn recorded scopes into edit
  requests: the emitted text is given by the places of its braces.
- AutoreleasePools.EmittedBracesBalance: which pool variables are rewritten is left open, because it depends on other references to them; the claim holds for every choice. It takes the place behind a return that is pulled in to be in front of the next statement. The original inserts behind the token at the place after the semicolon, which is that place only if white space follows the semicolon (TransAutoreleasePool.cpp:131-136).
- Where an emptied macro statement is recognised by its location: a flag on null
  statements here. Condition variables are a flag, and arguments of messages, C++
  statements and `switch` are not in the language.
- EmptyStatementProofs.EmptyIsSound: excludes jumps out of the statement and for-in loops over outer variables, where it can fail; `HarmlessExactly` and, for one such loop, `OuterLoopVariable` say exactly when.
- EmptyStatementProofs.EmptyKeepsState: messages that retain, release, autorelease or deallocate are taken to change nothing but counts, as the checker takes them to; what a `dealloc` method does besides is not modelled.
- EmptyStatementRemoval.RemovingIn: the same is excluded for the statements that are removed, not for the others.
- Random choice of shuffle trees, bit casts of floating-point lanes, and the text
  of the emitted IR and its error messages.
- `asStringRef` and `getFromNode` of node kinds: plain tables.
- `libdyncast`, the test programs, the remaining migration passes and headers
  without algorithms.
