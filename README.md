# Pipeline loader and string utilities

This project is a model of the pipeline-file core of a small job runner.
A pipeline file declares procedures (`name() {` … `}`), top-level blocks,
include lines, variables and plain shell commands. `Pipeline::Load` reads
such a file into:
- an arena of blocks (`blockList_`), where block 0 is the default block;
- a procedure table (`procList_`);
- the line of each declaration (`procAtLineNo_`).

`FinalCheckAfterLoad` then turns every shell command that calls a declared
procedure into a procedure call. `Save` writes the pipeline back as text.
The string utilities split a command line into words, take a command's
display name and render elapsed times.

The model is in seven modules:

- `Wrappers`: the `Option` type.
- `StringUtils` (`src/StringUtils.cpp`):
  - `ParseCommandLine` is a method proved equal to a recursive lexer `Lex`. The lexer is proved to agree with a plain word splitter on unquoted input.
  - `GetFirstWord`.
  - `RemoveSpecialCharacters` is a method proved equal to `DisplayName`.
  - `DiffTimeString` is a method proved equal to the rendering of `DurationParts`. Those parts add up to the elapsed time and are in canonical form.
- `Collaborators`: the code this model calls but does not contain, as function-valued fields of the record `Env`. This covers the `PipeFile` line classifiers, `CommandLineParser`, `Trim`, `ShellQuote`, reading a file's lines and the file-system probes. The class `LineCursor` stands for the `PipeFile` read position.
- `Document` (`src/Pipeline.cpp`, the value types):
  - `ProcArgs`, `CommandItem` (shell command, procedure call, or reference to a nested block), `Block` and `Procedure`;
  - the arena invariant `WellFormed`, under which every block reference points to an existing block other than block 0, and only backwards from any other block;
  - the renderers `ToString` and `ToStringRaw`;
  - the name order of `std::map`, as `SortedNames`.
- `Loader`: recursive specification functions for each loading step:
  - `ReadLeftBracket`, `LoadBlock` (`LoadItems` / `LoadNested` / `LoadCommand`), `AppendCommandLineFromFile` (`Gather`), `LoadProc`, `LoadConf` and `Load` (`LoadLines`);
  - the lemmas about them.
- `Rewrite`: `TryConvertShellToProc`, `UpdateCommandToProcCalling` and the rewrite of the whole arena. This includes the `(\w+)=(.*)` argument syntax.
- `Pipelines`: the class `Pipeline`, with fields `blockList`, `procList` and `procAtLineNo`.
  - Every loading method reassigns those fields as the source does. Each is proved to compute the corresponding `Loader` function.
  - Each query and update of the default block is specified against the state.

The model follows `src/Pipeline.cpp`. `src/Pipeline.h` declares an older interface (a `defaultProc_`, no block arena), which the model does not follow.

## Model

| member | source | states |
|---|---|---|
| Collaborators.LineCursor.constructor | src/Pipeline.cpp:395-400 | A freshly opened file has no line read yet, over exactly the file's lines. |
| Collaborators.LineCursor.ReadLine | src/Pipeline.cpp:250-253 | Reading succeeds exactly when a line is left, and then moves one line on; at the end of the file it fails and stays. |
| Document.ProcArgs.Add | src/Pipeline.cpp:17-22 | Adding a new key keeps the arguments consistent, makes the key map to the value, leaves every other key's presence and value alone, and appends the key to the order. |
| Document.NoArgs | src/Pipeline.cpp:36-40 | Empty arguments have no key, every lookup gives "", and they are consistent. |
| Document.ArgsTextAdd | src/Pipeline.cpp:24-34 | Adding an argument appends ` key=quoted value` to the argument text, and changes nothing before it. |
| Document.ChunksFrame | src/Pipeline.cpp:24-34 | The argument text depends only on the values of the keys in the order list. |
| Document.ProcArgsSizes | src/Pipeline.cpp:27 | Consistent arguments have as many map entries as order entries, which is the size check `ToString` asserts. |
| Document.DistinctCard | src/Pipeline.cpp:27 | A list without repetitions has as many distinct names as entries. |
| Document.ShellItem | src/Pipeline.cpp:53-60 | A shell item keeps its command text. Its name is the command's display name, or "shell" when that is empty, so it is never empty and holds only name characters. |
| Document.ProcItem | src/Pipeline.cpp:42-46 | A call item is named after the procedure it calls and carries its arguments. |
| Document.Block.Clear | src/Pipeline.cpp:139-143 | A cleared block is empty and sequential. |
| Document.Block.AppendCommand | src/Pipeline.cpp:145-148 | The items grow by exactly one shell item for the command; the kind is unchanged. |
| Document.Block.AppendCall | src/Pipeline.cpp:150-153 | The items grow by exactly one call item; the kind is unchanged. |
| Document.Block.AppendBlock | src/Pipeline.cpp:155-159 | The items grow by exactly one reference to the given block; the kind is unchanged. |
| Document.EmptyBlock | src/Pipeline.cpp:261-262 | A new block has no items and the requested kind. |
| Document.AppendToArena | src/Pipeline.cpp:689-694 | Appending a block whose references are valid keeps the arena well formed, keeps every earlier block, and puts the new block at the old length. |
| Document.ItemsOkGrow | src/Pipeline.cpp:689-694 | References valid in an arena stay valid when the arena grows. |
| Document.BlockOpening | src/Pipeline.cpp:171-180 | A rendered block starts with its indentation and `{`, and its second bracket character is `{` exactly when the block is parallel. It ends with the same indentation and the matching `}}` (parallel) or `}` (sequential) and a line break. |
| Document.BlockStable | src/Pipeline.cpp:96-103 | A block renders the same in any larger arena that extends the current one, so appending blocks never changes the text of existing ones. |
| Document.ItemsStable | src/Pipeline.cpp:171-180 | The same, for a block's item list. |
| Document.ItemStable | src/Pipeline.cpp:96-103 | The same, for one item. |
| Document.RawMatchesPlain | src/Pipeline.cpp:516-537 | A block without nested blocks has the same raw text as its plain text. |
| Document.ItemsRawMatchPlain | src/Pipeline.cpp:528-537 | The same, for an item list without references. |
| Document.LexIrreflexive | src/Pipeline.cpp:551 | No name sorts before itself in the map's order. |
| Document.LexTransitive | src/Pipeline.cpp:551 | The name order is transitive. |
| Document.LexTotal | src/Pipeline.cpp:551 | Any two different names are ordered one way. |
| Document.LexAsymmetric | src/Pipeline.cpp:551 | Two names are never ordered both ways. |
| Document.LeastNameExists | src/Pipeline.cpp:551 | Every non-empty set of names has a least one. |
| Document.SortedNames | src/Pipeline.cpp:551-554 | The procedure names in iteration order are exactly the table's keys, each once, in strictly ascending order. |
| Document.PrependLeast | src/Pipeline.cpp:551-554 | Putting the least name before the sorted rest gives the sorted whole. |
| Document.SaveEmpty | src/Pipeline.cpp:544-567 | A pipeline with no procedures and an empty default block is saved as an empty file. |
| Loader.ReadLeftBracketSpec | src/Pipeline.cpp:232-256 | The search stops at or after the current line and within the file. |
| Loader.ReadLeftBracketFinds | src/Pipeline.cpp:232-256 | On success the line where it stopped is a left bracket, neither empty nor a comment, and all lines passed over are empty or non-attribute comments. |
| Loader.Gather | src/Pipeline.cpp:307-337 | Gathering a command stays within the file. |
| Loader.GatherOutcome | src/Pipeline.cpp:313-331 | A command is accepted exactly when the parser accepts the gathered text. A text still unfinished at the end of the file is rejected there. |
| Loader.AppendCommandSpec | src/Pipeline.cpp:307-337 | An accepted, non-empty gathered text is appended as exactly one shell item holding the whole text; otherwise the block is unchanged. The block kind is kept either way. |
| Loader.LoadItems | src/Pipeline.cpp:258-305 | Loading the rest of a block moves forward and stays within the file. |
| Loader.LoadNested | src/Pipeline.cpp:276-294 | Loading a nested block moves forward and stays within the file. |
| Loader.LoadCommand | src/Pipeline.cpp:296-302 | Loading a command line moves forward and stays within the file. |
| Loader.LoadItemsExtends | src/Pipeline.cpp:258-305 | Loading a block only appends to the arena and keeps the block's kind. |
| Loader.LoadNestedExtends | src/Pipeline.cpp:276-294 | The same, for a nested block. |
| Loader.LoadCommandExtends | src/Pipeline.cpp:296-302 | The same, for a command line. |
| Loader.LoadItemsWellFormed | src/Pipeline.cpp:258-305 | Loading a block keeps the arena well formed, and the loaded block references only blocks already in the arena. |
| Loader.LoadNestedWellFormed | src/Pipeline.cpp:276-294 | The same, for a nested block. |
| Loader.LoadCommandWellFormed | src/Pipeline.cpp:296-302 | The same, for a command line. |
| Loader.LoadItemsCloses | src/Pipeline.cpp:263-274 | A block loads successfully only when loading stopped on a right bracket of its own kind. |
| Loader.LoadNestedCloses | src/Pipeline.cpp:276-294 | The same, for the block that holds a nested block. |
| Loader.LoadCommandCloses | src/Pipeline.cpp:296-302 | The same, for the block that holds a command. |
| Loader.RightBracketOutcome | src/Pipeline.cpp:263-274 | A right bracket ends the block on that line without changing anything, and succeeds exactly when its kind matches the block's. |
| Loader.LoadBody | src/Pipeline.cpp:348-358 | Loading a body stays within the file. |
| Loader.LoadProcAsWritten | src/Pipeline.cpp:339-359 | `LoadProc` as written stays within the file. |
| Loader.LoadProcSpec | src/Pipeline.cpp:339-359 | The corrected `LoadProc`, which the model uses, stays within the file. |
| Loader.LoadProcExtends | src/Pipeline.cpp:339-359 | `LoadProc` only appends to the arena. |
| Loader.LoadBodyWellFormed | src/Pipeline.cpp:348-358 | A body keeps the arena and the table well formed. It adds only its own name. On success the name maps to the last block. |
| Loader.LoadProcWellFormed | src/Pipeline.cpp:339-359 | The same, for the whole of `LoadProc`. |
| Loader.IntendedBracketOnOwnLine | src/Pipeline.cpp:339-347 | With the correction, a header without a bracket loads the same procedure as a header ending in that bracket, when empty or comment lines and then a bracket line follow it. |
| Loader.BracketAfterSkippable | src/Pipeline.cpp:232-256 | The bracket search passes over empty and comment lines and stops at the first bracket line, reporting its kind. |
| Loader.ConfLinesOk | src/Pipeline.cpp:361-386 | A configuration file is accepted exactly when every line is a variable, empty or comment line. |
| Loader.ConfLastWriteWins | src/Pipeline.cpp:372-376 | After an accepted file, each variable has the value of its last definition, or keeps its earlier value when the file does not define it. |
| Loader.LastValueCons | src/Pipeline.cpp:372-376 | The last definition can be found by reading from the front. |
| Loader.LoadLinesPreserves | src/Pipeline.cpp:388-514 | Loading keeps the state consistent, only grows the arena, and never forgets or moves a recorded declaration line. |
| Loader.LoadFuncPreserves | src/Pipeline.cpp:412-436 | The same, from a procedure header. |
| Loader.LoadTopBlockPreserves | src/Pipeline.cpp:438-459 | The same, from a top-level block. |
| Loader.NextPreserves | src/Pipeline.cpp:433-435 | The same, after any handled line. |
| Loader.ProcsOkGrow | src/Pipeline.cpp:352-356 | The procedure table stays well formed when the arena grows. |
| Loader.DefaultBlockUpdate | src/Pipeline.cpp:452-453 | Replacing the default block by one with valid references keeps the arena well formed. |
| Loader.DuplicateProcedureFails | src/Pipeline.cpp:416-421 | A second declaration of a name fails loading on its header line, with the state unchanged. |
| Loader.RecordsDeclaration | src/Pipeline.cpp:416-422 | A first declaration records its header line, and that record survives the rest of loading. |
| Loader.OwnLineBracketRejected | src/Pipeline.cpp:339-347 | As written, the body of `foo()` followed by `{` on its own line, a command and `}` is rejected at the command line. |
| Loader.OwnLineBracketIntended | src/Pipeline.cpp:339-347 | With the correction, the same file declares `foo` with that command as its body, and the whole file loads. |
| Rewrite.WordPrefix | src/Pipeline.cpp:650 | The leading run of word characters is the longest one. |
| Rewrite.SplitAssignmentIff | src/Pipeline.cpp:650-654 | An argument is split exactly when it is `name=value`, with a non-empty word name and a value without line breaks. The split then gives that name and value. |
| Rewrite.NameLength | src/Pipeline.cpp:650 | In `name=value` the word prefix is exactly the name. |
| Rewrite.KeysOf | src/Pipeline.cpp:653 | The keys of the arguments, one per argument, in order. |
| Rewrite.ScanMatched | src/Pipeline.cpp:647-660 | The arguments become call arguments exactly when every one is an assignment and no key repeats. |
| Rewrite.ScanMatchedArgs | src/Pipeline.cpp:647-660 | The resulting call arguments have the keys in argument order, each with its value, and leave other keys alone. |
| Rewrite.FirstKeyNotRepeated | src/Pipeline.cpp:655-658 | After a successful scan, the first key is not repeated later. |
| Rewrite.ScanDuplicate | src/Pipeline.cpp:655-658 | A reported duplicate key really occurs twice. |
| Rewrite.ScanRepeat | src/Pipeline.cpp:648-658 | The converse of `ScanDuplicate`: when an argument repeats an earlier key, after assignments only, the scan reports a duplicate. |
| Rewrite.ScanNoMatchAt | src/Pipeline.cpp:648-653 | A non-assignment after distinct assignments only ends the scan with no match. |
| Rewrite.RepeatsAtCons | src/Pipeline.cpp:655-658 | A repetition in the rest is a repetition in the whole, one position later. |
| Rewrite.ScanNoMatch | src/Pipeline.cpp:650-652 | A scan stops at a non-assignment only when there is one, after assignments only. |
| Rewrite.TryConvertShellToProc | src/Pipeline.cpp:623-666 | Anything but a shell command that is one call of a declared procedure is kept as it is, with success. Failure leaves the item unchanged. A changed item is a call with the same display name. The result is `ConvertItem`, which `ConvertFails`, `ConvertRepeatFails`, `ConvertNoMatchKeeps` and `ConvertedCall` characterise. |
| Rewrite.ConvertedCall | src/Pipeline.cpp:642-665 | A converted call names the procedure and has distinct keys in argument order, each mapped to its value. |
| Rewrite.ConvertFails | src/Pipeline.cpp:655-658 | The conversion fails only for a call of a declared procedure where a key is repeated, after assignments only. |
| Rewrite.ConvertRepeatFails | src/Pipeline.cpp:655-658 | The converse: a call of a declared procedure that repeats a key, after assignments only, makes the conversion fail and leaves the item unchanged. |
| Rewrite.ConvertNoMatchKeeps | src/Pipeline.cpp:650-653 | A call of a declared procedure with a non-assignment after distinct assignments is left unchanged, and the conversion reports success. |
| Rewrite.ConvertSucceeds | src/Pipeline.cpp:642-665 | A call of a declared procedure with distinct assignment arguments is converted. |
| Rewrite.FirstFailure | src/Pipeline.cpp:163-167 | All items before the first failure convert, and the item at it does not. |
| Rewrite.UpdateCommandToProcCalling | src/Pipeline.cpp:161-169 | A block succeeds exactly when every item converts. Items are converted up to and including the first failure, and the block's size and kind are kept. |
| Rewrite.RewriteKeepsRefs | src/Pipeline.cpp:161-169 | Converting a block keeps every block reference where it was and creates no new one. |
| Rewrite.FirstFailingBlock | src/Pipeline.cpp:672-676 | All blocks before the first failing one succeed, and that one fails. |
| Rewrite.RewriteBlocksKeeps | src/Pipeline.cpp:668-678 | The pass keeps the arena well formed, with every block's size and kind. It succeeds exactly when every item of every block converts. |
| StringUtils.SingleQuoted | src/StringUtils.cpp:16-26 | A quoted span ends at a single quote after its start. |
| StringUtils.DoubleQuoted | src/StringUtils.cpp:27-69 | The double-quote scan as written: a span ends at a double quote after its start. |
| StringUtils.ParseCommandLine | src/StringUtils.cpp:5-92 | The line is accepted exactly when the lexer accepts it. The command is then its first word and the arguments the rest; on rejection the outputs are empty. Double-quoted escapes are copied as intended. It accepts exactly the lines the lexer as written (`LexAsWritten`) accepts, with as many words. |
| StringUtils.ScanSingleQuoted | src/StringUtils.cpp:16-26 | The inner loop over a single-quoted span computes `SingleQuoted`. |
| StringUtils.ScanDoubleQuoted | src/StringUtils.cpp:27-69 | The inner loop over a double-quoted span computes the corrected scan `DoubleQuotedVerbatim`. |
| StringUtils.EscapeLength | src/StringUtils.cpp:31-61 | An escape inside double quotes is four characters (`\x` or `\0` and two digits), two (a backslash and one of `t r n b`), or malformed, and never runs past the line. |
| StringUtils.LexFromNoEmptyWord | src/StringUtils.cpp:11-15 | The lexer never produces an empty word. |
| StringUtils.LexWords | src/StringUtils.cpp:80-91 | An accepted line has at least one word, none of them empty. |
| StringUtils.LexFromFinishesNonEmpty | src/StringUtils.cpp:84-86 | Any accepted suffix yields at least one word. |
| StringUtils.LexAllBlank | src/StringUtils.cpp:84-86 | A line of blanks only is rejected. |
| StringUtils.WordEnd | src/StringUtils.cpp:10-78 | The run of non-blank characters ends at a blank or at the end of the line. |
| StringUtils.LexFromIsPlainLex | src/StringUtils.cpp:5-92 | Without quotes or backslashes, the lexer takes only its blank and ordinary-character branches. |
| StringUtils.PlainLexRun | src/StringUtils.cpp:76-78 | Ordinary characters are copied into the word as one run. |
| StringUtils.PlainLexWords | src/StringUtils.cpp:5-92 | From a word boundary, the plain lexer gives exactly the blank-separated words. |
| StringUtils.PlainLexWord | src/StringUtils.cpp:5-92 | The same, from the first character of a word. |
| StringUtils.LexPlain | src/StringUtils.cpp:5-92 | A line without quotes or backslashes is split into its blank-separated words, and is rejected only when it has none. |
| StringUtils.SingleQuotedVerbatim | src/StringUtils.cpp:16-26 | A single-quoted span is copied verbatim, closing quote included, and it closes at the first quote. |
| StringUtils.LexUnclosedSingleQuote | src/StringUtils.cpp:24-26 | An unclosed single quote rejects the line. |
| StringUtils.LexUnclosedDoubleQuote | src/StringUtils.cpp:66-68 | An unclosed double quote rejects the line, in the corrected lexer and in the lexer as written. |
| StringUtils.DoubleQuotedBadEscape | src/StringUtils.cpp:31-34 | Inside double quotes, a backslash at the end, or before anything but `x 0 t r n b`, is rejected by the corrected scan and by the scan as written. |
| StringUtils.DoubleQuotedBadNumericEscape | src/StringUtils.cpp:36-55 | `\x` without two hex digits after it, or `\0` without two octal digits, is rejected by the corrected scan and by the scan as written. |
| StringUtils.LexBareBackslash | src/StringUtils.cpp:70-75 | Outside quotes, a backslash takes itself and the next character into the word. |
| StringUtils.LexTrailingBackslash | src/StringUtils.cpp:72-74 | A backslash as the last character rejects the line. |
| StringUtils.DoubleQuotedVerbatim | src/StringUtils.cpp:27-69 | The corrected double-quote scan, which the lexer uses: a span ends at a double quote after its start. |
| StringUtils.DoubleQuotedVerbatimCopies | src/StringUtils.cpp:27-69 | The corrected scan copies the double-quoted span verbatim, closing quote included. |
| StringUtils.DoubleQuotedSameAcceptance | src/StringUtils.cpp:27-69 | The corrected scan accepts exactly the spans the written one accepts, and closes at the same quote. |
| StringUtils.EscapesAsWritten | src/StringUtils.cpp:30-58 | As written, `"\t"` gives the word `"\\t"` and `"\x41"` gives `"\\x4141"`. The corrected scan gives back the input. |
| StringUtils.SingleQuotedSameClose | src/StringUtils.cpp:16-26 | Where a single-quoted span closes does not depend on the word built before it. |
| StringUtils.LexFromSameAcceptance | src/StringUtils.cpp:5-92 | From any position, the corrected and the written lexer accept the same input and find as many words. |
| StringUtils.LexSameAcceptance | src/StringUtils.cpp:5-92 | The corrected lexer rejects exactly the lines the source rejects and finds as many words in an accepted line. |
| StringUtils.LineEscapeAsWritten | src/StringUtils.cpp:30-34 | On the line `"\t"`, the written lexer yields `"\\t"` and the corrected one yields `"\t"`. |
| StringUtils.GetFirstWord | src/StringUtils.cpp:94-101 | The result is a blank-free prefix that ends at a blank or at the end. |
| StringUtils.FirstWordUnique | src/StringUtils.cpp:94-101 | Only one prefix has those properties, so they define the first word. |
| StringUtils.KeepNameChars | src/StringUtils.cpp:136-150 | Only name characters are kept. |
| StringUtils.RemoveSpecialCharacters | src/StringUtils.cpp:136-150 | The result is the display name: the name characters of the first word. |
| StringUtils.KeepNameCharsIsSubsequence | src/StringUtils.cpp:136-150 | The kept characters appear in the input, in order. |
| StringUtils.DisplayNameShape | src/StringUtils.cpp:136-150 | The display name holds only name characters and is a subsequence of the first word. |
| StringUtils.KeepNameCharsOfNameChars | src/StringUtils.cpp:136-150 | A text of name characters is kept whole. |
| StringUtils.DisplayNameIdempotent | src/StringUtils.cpp:136-150 | Taking the display name twice gives the same name. |
| StringUtils.NatToString | src/StringUtils.cpp:119 | A decimal rendering is non-empty, all digits, and without a leading zero. |
| StringUtils.IntToString | src/StringUtils.cpp:131 | A negative number renders as a minus sign and its magnitude. |
| StringUtils.DecimalRoundTrip | src/StringUtils.cpp:119 | The decimal rendering reads back as the same number. |
| StringUtils.RenderParts | src/StringUtils.cpp:114-134 | Some parts never render as empty text. |
| StringUtils.TotalAppend | src/StringUtils.cpp:114-134 | The seconds of two part lists add up. |
| StringUtils.DurationTotal | src/StringUtils.cpp:114-134 | The parts shown for an elapsed time add up to exactly that time. |
| StringUtils.PartsTotal | src/StringUtils.cpp:114-134 | Days, hours, minutes and seconds, as shown, add up to their weighted sum. |
| StringUtils.StagedSum | src/StringUtils.cpp:116-129 | The staged quotients and remainders recompose the elapsed time. |
| StringUtils.DurationCanonical | src/StringUtils.cpp:114-134 | The parts are in the order d, h, m, s. Hours are below 24 and minutes and seconds below 60. Every part shown is positive, and only "0s" stands for zero. |
| StringUtils.OrderedAppend | src/StringUtils.cpp:120-133 | Adding a later unit keeps the parts in unit order. |
| StringUtils.PartsCanonical | src/StringUtils.cpp:114-134 | In-range amounts give canonical parts. |
| StringUtils.PartsOrdered | src/StringUtils.cpp:114-134 | In-range amounts give parts in range and in unit order. |
| StringUtils.PartsPositive | src/StringUtils.cpp:131-133 | A positive time shows at least one part, and only positive ones. |
| StringUtils.DiffTimeString | src/StringUtils.cpp:114-134 | A non-negative time renders as its parts separated by single spaces. A negative time renders as itself followed by "s". |
| StringUtils.AppendStage | src/StringUtils.cpp:116-127 | One stage shows the whole units of its size exactly when there is at least one, keeps the rendering in step with the parts, and keeps the remainder. |
| StringUtils.AppendSeconds | src/StringUtils.cpp:130-132 | The seconds are shown exactly when they are nonzero or nothing was shown before, and the rendering stays in step with the parts. |
| StringUtils.RenderedEmpty | src/StringUtils.cpp:120-133 | The rendering is empty exactly when there are no parts. |
| Pipelines.Pipeline.constructor | src/Pipeline.cpp:689-694 | A new pipeline has only its empty, sequential default block and no procedures, and is consistent. |
| Pipelines.Pipeline.AppendBlock | src/Pipeline.cpp:689-694 | The block is stored at the end of the arena, its index is the old size, and nothing else changes. |
| Pipelines.Pipeline.ReadLeftBracket | src/Pipeline.cpp:232-256 | The method computes the bracket search of `ReadLeftBracketSpec`: result, kind and final line. |
| Pipelines.Pipeline.LoadBlock | src/Pipeline.cpp:258-305 | The method computes `LoadBlockSpec`: the result, the final line, the new arena and the loaded block; the tables are unchanged. |
| Pipelines.Pipeline.LoadNestedBlock | src/Pipeline.cpp:276-294 | The nested-block step, with the rest of the block still to load, computes `LoadNested`. |
| Pipelines.Pipeline.LoadCommandLine | src/Pipeline.cpp:296-302 | The command step, with the rest of the block still to load, computes `LoadCommand`. |
| Pipelines.Pipeline.AppendCommandLineFromFile | src/Pipeline.cpp:307-337 | The method computes `AppendCommandSpec`: the result, the final line and the block. |
| Pipelines.Pipeline.ReadContinuation | src/Pipeline.cpp:313-324 | Reading one continuation line moves one line on and leaves the rest of the gathering to do, or ends it as a failure at the end of the file. |
| Pipelines.Pipeline.LoadProc | src/Pipeline.cpp:339-359 | The method computes the corrected `LoadProcSpec`: the result, the final line, the arena and the table. |
| Pipelines.Pipeline.LoadConf | src/Pipeline.cpp:361-386 | The variables read are those of `LoadConfSpec`. The file is accepted exactly when it can be read and every line is a variable, empty or comment line. |
| Pipelines.Pipeline.Load | src/Pipeline.cpp:388-514 | The method computes `LoadSpec` from the old state, and keeps the pipeline consistent. |
| Pipelines.Pipeline.LoadLine | src/Pipeline.cpp:396-506 | One pass of the main loop, with the rest of the file still to load, computes `LoadLines`. |
| Pipelines.Pipeline.LoadDeclaration | src/Pipeline.cpp:412-436 | The header branch, with the rest still to load, computes `LoadFunc`. |
| Pipelines.Pipeline.LoadTopLevelBlock | src/Pipeline.cpp:438-459 | The top-level block branch computes `LoadTopBlock` and leaves the tables alone. |
| Pipelines.Pipeline.LoadDefaultCommand | src/Pipeline.cpp:496-503 | The shell branch computes `LoadShell` and leaves the tables alone. |
| Pipelines.Pipeline.ClearDefaultBlock | src/Pipeline.cpp:569-572 | Only the default block changes, and it becomes empty and sequential; the pipeline stays consistent. |
| Pipelines.Pipeline.SetDefaultBlock | src/Pipeline.cpp:574-581 | The default block gets the kind and one shell item per trimmed command, in order. Other blocks are unchanged. It has a command exactly when the list is not empty. |
| Pipelines.Pipeline.SetDefaultCall | src/Pipeline.cpp:583-587 | The default block becomes one call of the procedure with the arguments and keeps its kind; it now has a command. |
| Pipelines.Pipeline.HasProcedure | src/Pipeline.cpp:589-592 | A name is a procedure exactly when the name listing with a pattern matching everything contains it. |
| Pipelines.Pipeline.HasAnyDefaultCommand | src/Pipeline.cpp:618-621 | True exactly when the default block returned by `GetDefaultBlock` has an item. |
| Pipelines.Pipeline.GetDefaultBlock | src/Pipeline.cpp:594-597 | The result is block 0 of the arena, the block `GetBlock(0)` gives. Its references point to existing blocks other than block 0. |
| Pipelines.Pipeline.GetBlock | src/Pipeline.cpp:599-602 | Block `index` of the arena is returned exactly when the index is in range, where `at` would otherwise throw, and its references are valid. |
| Pipelines.Pipeline.GetBlockIndex | src/Pipeline.cpp:609-616 | The procedure's own block index is returned exactly for a declared procedure, where the source otherwise throws, and it is a block other than block 0. |
| Pipelines.Pipeline.GetProcBlock | src/Pipeline.cpp:604-607 | The procedure's own body is returned exactly for a declared procedure: the block that `GetBlock` gives at the index `GetBlockIndex` gives, never block 0. |
| Pipelines.Pipeline.GetProcNameList | src/Pipeline.cpp:220-230 | The list holds exactly the procedure names that match, in ascending order, as `Matching` selects them from the sorted names. |
| Pipelines.Pipeline.FinalCheckAfterLoad | src/Pipeline.cpp:668-678 | The result and the new arena are those of the rewrite pass over the declared names, which keeps the pipeline consistent; the tables are unchanged. |
| Pipelines.Pipeline.ProcNameSet | src/Pipeline.cpp:670-671 | The name set built from the full listing is exactly the set of declared procedures. |
| Pipelines.Pipeline.Save | src/Pipeline.cpp:544-567 | Saving succeeds exactly when the file can be written. The text is then the procedures in name order, each followed by an empty line, and then the default block. |
| Pipelines.Matching | src/Pipeline.cpp:223-228 | The selected names are exactly the matching ones, and there are no more of them than names. |
| Pipelines.SelectMatching | src/Pipeline.cpp:223-228 | The loop over the sorted names computes `Matching`. |
| Pipelines.MatchingSorted | src/Pipeline.cpp:223-228 | Selecting from names in ascending order keeps them in ascending order. |

## Left out

- The `PipeFile` classifiers, `CommandLineParser`, `StringUtils::Trim`, `StringUtils::ShellQuote` and the `System` probes are not part of this model. They are the fields of `Collaborators.Env`, and every property holds for whatever they compute.
- Opening and reading files: `PipeFile::Open` and `std::ifstream` become `Env.readLines`, which gives a file's lines or `None`.
- `TimeString`: it formats the local clock time; clocks and locales are not modelled.
- `Dump`, `DetailToString` and `operator<<`: diagnostic output only.
- `CheckIfPipeFile`: it only asks the file system.
- The messages written to `std::cerr` (errors, the duplicate-option warning) are not modelled; only the results are.
- `Pipelines.Pipeline.GetProcNameList`: the regular-expression pattern is a predicate `matches` on names. `regex_search` itself is not modelled, and `FinalCheckAfterLoad`'s empty pattern is the predicate `Everything`.
- `Pipelines.Pipeline.Save`: the file is not written. The method returns the text and takes whether the file could be opened as `writable`.
- Exceptions (`std::vector::at`, the `runtime_error` of `GetBlockIndex`) become `None` results. The C++ `assert`s become preconditions.
- `Pipelines.Pipeline.Load` returns the variables it read, which the source keeps in a local map and discards.
- `Pipelines.Pipeline.GetProcBlock` is `GetBlock(procName)`, and `Pipelines.Pipeline.SetDefaultCall` is the `SetDefaultBlock` overload for a procedure call. Dafny does not overload names.
- `Pipelines.Pipeline.AppendBlock` does not promise consistency on its own. The block's references are checked where it is called (`Document.AppendToArena` states the arena invariant it keeps).
- The branches of the loops of `Load` and `LoadBlock`, and the continuation step of `AppendCommandLineFromFile`, are separate methods in the model. These are `LoadLine`, `LoadDeclaration`, `LoadTopLevelBlock`, `LoadDefaultCommand`, `LoadNestedBlock`, `LoadCommandLine` and `ReadContinuation`. The order of their updates is the source's.
- `StringUtils.DiffTimeString`: `elapsed` is an unbounded integer, so 32-bit overflow of `int` is not modelled; no intermediate value of the source can overflow.
- `StringUtils.ParseCommandLine`: on rejection the model returns empty outputs, where the source leaves the caller's variables untouched.
- `StringUtils.ParseCommandLine`: its words are those of the corrected lexer. Against the lexer as written (`StringUtils.LexAsWritten`) it promises the same acceptance and the same number of words, not the same text of words with double-quoted escapes.
- The serialisation round trip (loading the text `Save` writes gives back the same blocks, items and procedures) is not proved. The line classifiers and the command-line parser are unconstrained parameters, so nothing ties the text `Save` writes to how the loader classifies it.
- The character classes follow the C locale: `isxdigit`, the blank set `' ' '\t' '\r' '\n'` and the name characters `- _ + 0-9 A-Z a-z`.

## Findings

| source | as written | input that shows it | evidently intended | confidence | as-written member | corrected member |
|---|---|---|---|---|---|---|
| src/StringUtils.cpp:30-58 | Inside double quotes, the backslash is appended and then the escape is appended again with its own backslash. For `\x` and `\0` the index is not moved past the two digits, so they are copied a second time. | `"\x41"` gives the word `"\\x4141"`, and `"\t"` gives `"\\t"` | the escape is copied once, verbatim, as single-quoted text is | high, not executed | StringUtils.EscapesAsWritten | StringUtils.DoubleQuotedVerbatimCopies |
| src/Pipeline.cpp:339-347 | `Load` has already moved to the line after a header without a bracket. `LoadProc` reads one more line before it looks for the bracket, so the line right after the header is never examined. The body is then loaded from the bracket line itself, which reads as a nested block. | `foo()`, then `{`, a command and `}`, each on its own line: the load fails | the bracket search starts at the line right after the header, and the body after the bracket line | medium, not executed | Loader.OwnLineBracketRejected | Loader.OwnLineBracketIntended |

The model uses the corrected definitions:
- The lexer and `ParseCommandLine` use `StringUtils.DoubleQuotedVerbatim`. `StringUtils.DoubleQuotedSameAcceptance` proves that it accepts exactly the spans the written scan accepts, and `StringUtils.LexSameAcceptance` that the whole lexer accepts exactly the lines the written lexer accepts, with as many words; only the words' text differs.
- `Pipelines.Pipeline.LoadProc` and `Load` use `Loader.LoadProcSpec`. `Loader.IntendedBracketOnOwnLine` proves, for every such file, that a bracket on its own line gives the same procedure as a bracket at the end of the header.
- `StringUtils.DoubleQuoted`, `StringUtils.LexAsWritten` and `Loader.LoadProcAsWritten` keep the code as written.
