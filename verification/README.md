# Model of the ASQ analysis engine and the batch processor

This project models the algorithms behind two DOS programs: the ASQ system-analysis engine
(`ASQENG/`) and the batch processor (`BATPROC/`). The batch processor is taken as built with
`COMPAT_4DOS` and run with `flag_4dos` set, the information text as built with `TEXTWRAP`. Each
part is written in the form of its source: classes with the fields the program updates, methods
with its loops, arrays where it works in place. Each method is proved against a function or a
predicate on the state, and the promises of the program are lemmas about those.

`dafny verify dfyconfig.toml` checks everything.

## The parts

**Memory map** (`UMaps`, `MapOverlap`, `MapMarks`, `MapFix`, `MapMerge`, `MapShort`, `MapHoles`, `MapBuild`). The
map is a list of layered address ranges. Overlap resolution is a painter's algorithm that edits the list in
place and starts over whenever an edit disturbs the order. The main results: it terminates on every
sorted list (empty ranges of high layers included, where a split removes no byte), the result is
disjoint, every address belongs to an item of the highest layer that covered it, what the cuts have
emptied is gone, and what nothing beats is untouched. Merging
short items keeps the covered addresses, and comes to an end, under exact conditions on the map it
is given. `find_holes` leaves no gap exactly when every gap starts on a paragraph boundary; replaying
its hole list rebuilds the identical map exactly when no item is passed that starts above the next
hole. `BuildMap` carries this through the whole last part of `make_umap`.

**IFF machine** (`IffMeaning`, `BatchRun`, `Batch`). Three flags stand in for a stack of open conditionals. The
stack machine is the specification: flags and stack correspond after every line, and reading the
flat lines of a nested program has its nested meaning, at any depth. Batch files sit around it: the
recursive interpreter, which keeps what it saves in its own calls, makes step for step the run of a
flat machine in which the stack of open files is written out, whether it ends or is cut short; and
a completed CALL restores level and flags whatever the callee did.

**Snapshot files** (`Scanner`, `Numbers`, `Reader`, `Escapes`, `Fields`, `Records`, `MacList`, `Dumps`,
`OldFiles`, `Rows`, `AdfText`, `AdfChains`, `AdfFiles`, `AdfReader`, `Snapshot`). What `lprintf` puts out
`scn_token` takes back, token by token, whatever separates the tokens; lines and tokens of files
from elsewhere keep the backslashes that escape nothing. On that stand the records:
rows and tables of plain values, hole lists, memory chains, byte dumps, text files, and the adapter
lists whose options and choices are chained by handles and rebuilt as equal chains.
`SnapshotSurvives` puts any number of records one after another, with the framing that lets each
record find its keyword.

**Environment** (`EnvMap`, `EnvBlock`). A block of bytes ended by two NULs, edited with moves and
copies, implements a bounded map with case-insensitive names.

**Lists and buffer** (`Glist`, `SysBuf`). One sequence in two representations; a buffer that cuts
blocks from its front and can change only the last one.

**Evaluator** (`EvalParser`, `EvalTree`, `EvalMeaning`, `Evaluator`). A recursive-descent evaluator with shared
token state computes every expression tree from any text of it, and some that lack parentheses; what
its operators compute is told of texts and the numbers they evaluate to.

**Directory listings** (`DirPages`, `ShellSort`). The index arithmetic of column-wise pages, and a
Shell sort.

**Wildcards** (`WildCmp`, `WildExact`), **information text** (`Info`) and **chain search** (`Qtas`)
complete the picture. `CText`, `Seqs` and `Options` hold what the parts share.

## Properties that do not hold as one might expect

- Hole filling leaves a gap uncovered when the gap does not start on a paragraph (`FilledTiles`
  gives the exact condition, `OffParagraphShows` a map).
- A memory chain entry whose type is a blank, NUL, ^Z, a semicolon or a quote does not come back,
  since the type is printed without quotes (`TypeSurvives`); a NUL type, which
  `ASQENG/QTAS.C:276-334` can produce, cuts its line short.
- An adapter with number 0 comes back as an empty slot (`SlotsRead`).
- A quoted string as long as its buffer less the terminator leaves its closing quote unread
  (`QuotedToken`).
- A pattern can miss names that match it; `ExactlyFaithful` says which patterns do: those that do
  not start with a dot and in which, after a `*` and a dot-free literal, a run of `?` with no `*` in
  it follows.
- A text with a closing parenthesis too many is evaluated, and the rest of it ignored
  (`SurplusPasses`).
- A text that lacks closing parentheses at its end is evaluated all the same, exactly when one still
  stands there (`UnbalancedPasses`); the shortest is `((1)` (`OneOfTwoIsEnough`).
- Merging short items changes the covered addresses, and can make items overlap
  (`EmptyNextOverlaps`), exactly when it joins items that do not touch (`KeepsCoverExactly`); and it
  goes wrong, the item after the last one being asked for, exactly when a short item at the start of
  the device area is packed to the end of the map (`GoesWrongExactly`).
- Replaying recorded holes builds another map exactly when an item was passed that starts above the
  next hole (`ReplayExactly`; `OffParagraphShows` gives a map).
- A path with a blank, a semicolon or ^Z in it or a quote at its start does not come back
  (`PathSurvives`).
- A token is one character too long for its buffer exactly when a backslash that escapes nothing falls
  on its last place (`TokenOverruns`, `BareOverruns`, `QuotedOverruns`), which no file put out by the
  writer has (`WrittenTokenFits`).
- A list of flexed ROMs comes back exactly when no entry has source or destination 0; from the first
  such entry on it is taken for something else (`FlexSurvives`).
- The array form of a list does not find the item before its second one, so the two forms show a list
  backwards alike only when it has one item (`BackwardsAgree`).
- The chain search overruns a buffer that has no room for one block (`Report`).

## Model

| member | source | states |
|---|---|---|
| UMaps.UmCmpIsOrder | ASQENG/MAPINFO.C:1062-1077 | the comparison decides any two items and is consistent over any three, names compared with case ignored: it is usable as a sort order |
| UMaps.SortOrders | ASQENG/MAPINFO.C:1062-1077 | sorting under the comparison leaves every pair of items of any map in order |
| UMaps.OrderedKeys | ASQENG/MAPINFO.C:1062-1077 | in a sorted map starts ascend; at one start layers ascend; in one layer the longer item comes first; at one length names ascend with case ignored |
| CText.StrICmpIsLexicographic | ASQENG/MAPINFO.C:1076-1076 | of two names that agree with case folded up to some place, the shorter comes first, otherwise the one with the smaller next character |
| MapOverlap.TrimIsDifference | ASQENG/MAPINFO.C:1136-1192 | one trim, in all its cases, leaves of the lower item exactly the addresses the upper item does not cover, as one or two pieces of the lower item |
| MapMarks.CutMarks | ASQENG/MAPINFO.C:1149-1192 | one cut marks the upper item as overlapping and every piece of the lower item as a fragment; a piece differs from the item otherwise in place and size only, and no other item changes |
| MapMarks.CutIntact | ASQENG/MAPINFO.C:1149-1192 | an item without a fragment mark after the cut is an item from before it, save for its overlap mark |
| MapMarks.CutStays | ASQENG/MAPINFO.C:1126-1192 | an item that no other meets from a higher layer, or from its own layer starting no later, stays as it is through the cut, empty items included |
| MapOverlap.CutKeepsSkyline | ASQENG/MAPINFO.C:1136-1192 | after one cut an address is reached by some layer at or above any given one exactly when it was before, and every item is a piece of an item before it |
| MapOverlap.CutLowersWeight | ASQENG/MAPINFO.C:1136-1192 | a cut lowers the termination measure strictly unless it leaves every start and length as they were |
| MapOverlap.TotalWeightPermuted | ASQENG/MAPINFO.C:1083-1134 | the measure does not depend on the order of the items, so re-sorting never raises it |
| MapFix.UMapList.ItemOverlap | ASQENG/MAPINFO.C:1136-1192 | the in-place edit equals the cut, marks included; it reports a split exactly when two pieces are left, and has then sorted the list |
| MapFix.UMapList.ResolvePair | ASQENG/MAPINFO.C:1126-1131 | the item of the higher layer cuts the other (the earlier one on a tie); a split lowers the measure, a cut without a split has the scan's effect |
| MapFix.CutOutcome | ASQENG/MAPINFO.C:1126-1192 | what one pairwise resolution does, split or not, including strict progress |
| MapFix.AscendingScanEnds | ASQENG/MAPINFO.C:1093-1133 | after scanning one item against its successors in an ascending list, that item is apart from all others, and either the rest still ascends or the next out-of-order pair will be met before anything else is cut |
| MapFix.DoomedScanEnds | ASQENG/MAPINFO.C:1093-1133 | a list already out of order further on keeps that out-of-order pair in place while earlier items are scanned |
| MapFix.ScanEnds | ASQENG/MAPINFO.C:1093-1133 | the scan of one item re-establishes the state of the pass for the next item |
| MapFix.UMapList.ScanOverlaps | ASQENG/MAPINFO.C:1100-1132 | the inner loop: restarts only with a sorted list and strict progress, otherwise hands the pass on |
| MapFix.UMapList.OverlapPass | ASQENG/MAPINFO.C:1088-1133 | one pass from the top ends either with all items disjoint or with a re-sorted list and a strictly smaller measure |
| MapFix.UMapList.FixOverlap | ASQENG/MAPINFO.C:1083-1134 | terminates on every sorted list, empty items of any layer included; afterwards items are pairwise disjoint, paint the same addresses and are pieces of input items; what bears no fragment mark is an input item, and an item that no other beats, by layer or within its layer by start, is untouched |
| MapFix.TopLayerOwns | ASQENG/MAPINFO.C:1083-1134 | after overlap resolution an address is covered exactly when it was, by one item only, which is a piece of an input item of the highest layer that covered the address |
| MapMerge.KeptKeepsOrder | ASQENG/MAPINFO.C:1002-1013 | dropping empty fragments keeps a sorted disjoint map sorted and disjoint |
| MapMerge.KeptExactly | ASQENG/MAPINFO.C:1002-1013 | what is kept is exactly all that has a length and the empty items that bear no fragment mark |
| MapMerge.MapZeroes | ASQENG/MAPINFO.C:1002-1013 | exactly the empty fragments are removed; the others stay in order |
| MapShort.MergedDownKeeps | ASQENG/MAPINFO.C:1047-1050 | merging an item into the one before, over any empty items between, keeps order, coverage and bounds when the two touch |
| MapShort.MergedUpKeeps | ASQENG/MAPINFO.C:1029-1043 | merging an item into the one after it, empty or not, keeps the same when the two touch |
| MapShort.MergedLength | ASQENG/MAPINFO.C:1020-1056 | merging loses no length and gains none, whatever the list |
| MapShort.MergedOwners | ASQENG/MAPINFO.C:1020-1056 | whatever the list, every item left is an item of the input grown and perhaps moved, name, layer and marks unchanged, and every item of 32 bytes or more is still there |
| MapShort.KeepsCoverExactly | ASQENG/MAPINFO.C:1020-1056 | from any sorted disjoint map, empty items included, that leaves the last 32 bytes of the address space free, the whole run keeps the covered addresses if and only if every merge it makes joins touching items, which is a condition on the map before the run: each item that crowds the start of the device area touches the next, each other short item the item before it |
| MapShort.GoesWrongExactly | ASQENG/MAPINFO.C:1027-1044 | from any such map the run goes wrong if and only if it comes to a short item at the start of the device area from which on all items to the end of the map touch and end within 32 bytes of that start |
| MapShort.JoiningTidies | ASQENG/MAPINFO.C:1020-1056 | when every merge joins touching items the map stays sorted, disjoint and within its bounds, and no short item is left below the end of the data area that has a nonempty item before it or starts the device area |
| MapShort.MapShortItems | ASQENG/MAPINFO.C:1020-1056 | the loop over the list makes exactly these merges, with these results, owners and total length kept on every list |
| MapShort.EmptyNextOverlaps | ASQENG/MAPINFO.C:1029-1043 | a whole run on a sorted disjoint map without empty fragments whose result overlaps and covers other addresses |
| MapHoles.ProbingIsSensible | ASQENG/MAPINFO.C:623-700 | with a memory tester that answers between 1 and the requested paragraphs each probe takes something of its gap and no more than the gap, and in the first megabyte a hole starts where its gap does exactly when that is a paragraph boundary |
| MapHoles.HoleTells | ASQENG/MAPINFO.C:636-680 | a hole records the kind of memory the tester found, its class and how far it lasts; a gap that is not tested or is shorter than a paragraph is one unknown hole |
| MapHoles.FilledAddsHoles | ASQENG/MAPINFO.C:636-690 | every entry added stands for a recorded hole, in layer 1 and without marks, and counts as high exactly when it lies above 640K and above the memory there is |
| MapHoles.FilledTiles | ASQENG/MAPINFO.C:623-700 | on a spaced map the filled map tiles memory without gaps exactly when every gap that opens starts on a paragraph boundary, and it then ends where the old one did |
| MapHoles.FilledKeepsOriginals | ASQENG/MAPINFO.C:623-700 | filling only adds hole items; the others are kept, in order |
| MapHoles.ReplayExactly | ASQENG/MAPINFO.C:706-738 | replaying the recorded holes on the map they were found in rebuilds the identical map if and only if no item is passed that starts above the next recorded hole |
| MapHoles.ReplayRebuilds | ASQENG/MAPINFO.C:706-738 | so it does when every gap that opens starts on a paragraph boundary, within the first megabyte |
| MapHoles.OffParagraphShows | ASQENG/MAPINFO.C:623-738 | three items, probed as the program does, whose filled map leaves an address uncovered and is not rebuilt by its recorded holes |
| MapHoles.FillGaps | ASQENG/MAPINFO.C:623-700 | the insertion loop terminates and computes the filled map and the hole list |
| MapHoles.FindHoles | ASQENG/MAPINFO.C:623-700 | `find_holes` terminates, fills the map and records each hole it puts in |
| MapHoles.ReplayHoles | ASQENG/MAPINFO.C:706-738 | `map_holes` computes the replayed map |
| MapBuild.PermutedDisjoint | ASQENG/MAPINFO.C:268-269 | sorting a disjoint map again leaves it disjoint |
| MapBuild.Settle | ASQENG/MAPINFO.C:259-276 | sort, resolve, sort and drop empty fragments: sorted and disjoint, painting exactly what the collected ranges painted; no empty fragment is left, every item without a fragment mark was collected as it is, every empty item left was an empty item with the same owner and start, and what no other item beats is still there |
| MapBuild.EmptiesWereThere | ASQENG/MAPINFO.C:1002-1013 | an empty item left without a fragment mark is an input item of the same start and owner: what the cuts have emptied is gone |
| MapBuild.KeptUndisturbed | ASQENG/MAPINFO.C:259-276 | dropping empty fragments takes no item away that nothing else beats |
| MapBuild.BuildMap | ASQENG/MAPINFO.C:259-289 | the whole last part of `make_umap` on any collected ranges: same painting, no length lost in merging, the recorded holes are those of the merged map and rebuild the finished map exactly when the items stay in place; merging goes wrong, and changes the covered addresses, exactly under the two conditions above; otherwise, in the first megabyte, the finished map tiles memory exactly when every gap starts on a paragraph |
| IffMeaning.SkipsProg | BATPROC/BATCH.C:740-788 | lines of a nested program inside a branch that does not run change nothing, at any depth |
| IffMeaning.TakesAlt | BATPROC/BATCH.C:740-788 | while waiting for an ELSE, the first branch whose condition holds is run and no later condition is tested |
| IffMeaning.FinishesAlt | BATPROC/BATCH.C:740-788 | after a branch has run the remaining branches are skipped up to the ENDIFF |
| IffMeaning.RunsBranch | BATPROC/BATCH.C:740-788 | from a tested IFF to its ENDIFF the lines have the nested meaning and restore the stack |
| IffMeaning.RunsProg | BATPROC/BATCH.C:740-788 | flat lines through the machine test and run exactly what the nested if / else-if / else meaning prescribes, in order |
| Batch.EncodeReads | BATPROC/BATCH.C:740-788 | what the three flags say about the stack of open IFFs: `else_flag` describes the innermost one that was reached, `endiff_flag` counts those passed over, and is positive only when `else_flag` is not zero |
| Batch.WaitsForElse | BATPROC/BATCH.C:740-788 | the masked test of `else_flag` means "waiting for ELSE" and nothing else |
| Batch.Interpreter.IffParsing | BATPROC/BATCH.C:740-788 | updating the flags for a line is one step of the stack machine; a line is skipped exactly in a branch that does not run |
| Batch.Interpreter.IffThen | BATPROC/BATCH.C:625-635 | the IFF step of the IF command opens one level with the tested condition |
| Batch.Interpreter.Feed | BATPROC/BATCH.C:740-788 | one line through both is exactly one step of the machine, flags and stack staying in correspondence |
| Batch.Interpreter.FeedProgram | BATPROC/BATCH.C:740-788 | every well-nested script evaluates exactly the conditions and runs exactly the commands of its nested meaning, starting and ending with all flags zero |
| Batch.Interpreter.ExitBat | BATPROC/BATCH.C:149-172 | leaving a batch file drops its frame and no other |
| Batch.Interpreter.RunNested | BATPROC/BATCH.C:104-125 | the machine run from the first line of the file, ending when the file is left; a nested file that ends has its frame dropped and the level and flags put back, whatever it ran; without fuel the run is cut short within the machine run, and not before as many steps as there was fuel, less one for each level |
| Batch.Interpreter.RunBatch | BATPROC/BATCH.C:45-130 | nesting level stays within its bounds; a nested file runs as the machine does and when it ends restores the level and the flags, whatever it ran; chaining replaces the current frame and clears the flags; at the limit nothing happens |
| Batch.Interpreter.CallFile | BATPROC/BATCH.C:135-145 | a CALL runs the file as the machine does; completed it restores the nesting level and all three flags, whatever unbalanced IFFs or chained files the callee ran |
| Batch.Interpreter.GotoCmd | BATPROC/BATCH.C:307-316 | reading goes on after the first line with the label, and all IFFs are closed; without such a line it ends at the end of the file and the IFFs stay |
| Batch.Interpreter.Directive | BATPROC/BATCH.C:45-358 | each line that is no command and no IFF line: CALL runs a plain file to its end, once and in full; chaining puts the other file in place of the current one with no IFF open; a GOTO lands behind its label and closes all IFFs exactly when there is one; QUIT ends the file, CANCEL all files |
| Batch.Interpreter.CancelCmd | BATPROC/BATCH.C:893-904 | CANCEL puts every batch file at its end, and changes nothing else of it |
| Batch.Interpreter.RunLine | BATPROC/BATCH.C:45-358 | a line that is skipped calls, jumps and quits nothing; otherwise as above; in every case the line is one step of the machine, and what follows it is the run of the file it calls; the callers stay suspended where they were |
| Batch.Interpreter.BatchCli | BATPROC/BATCH.C:115-129 | any file, with CALL, chain, GOTO, QUIT and CANCEL lines in it, is run line after line as the machine runs it, until its lines are used up or it is quit; a file of commands and IFF lines is one machine step a line |
| Batch.FindLabel | BATPROC/BATCH.C:320-358 | the first line carrying the label, case ignored and one leading colon of the label asked for dropped, or none |
| BatchRun.LabelsMatch | BATPROC/BATCH.C:320-358 | a label line has the label asked for exactly when the names compare equal with case ignored, with or without a colon in front |
| BatchRun.NextKeepsUnder | BATPROC/BATCH.C:45-145 | one step of the machine over all open files leaves what lies under the innermost file as it was: the open IFFs exactly, the files but for a CANCEL |
| BatchRun.UnderIsKept | BATPROC/BATCH.C:45-145 | so does every run of any length, whatever files it calls, chains to, jumps in or quits |
| BatchRun.ReachesOnce | BATPROC/BATCH.C:115-129 | a run that has come back to a level does so once: every other run from the same place is a part of it, and if it has come back too it is the same |
| Scanner.Writer.Lprintf | ASQENG/WRITSYS.C:79-97 | the file grows by the text with quotes and backslashes escaped and ^Z made a quote, up to a NUL |
| Reader.Reader.ScnToken | ASQENG/READSYS.C:575-630 | the scanner loop, comments, escapes, quotes, truncation and end of file included, computes the token function; the token has at most as many characters as its buffer, and one less in any file the writer has put out |
| Scanner.TokenFits | ASQENG/READSYS.C:584-629 | a token that leaves no room for its terminator ends with a lone backslash and an ordinary character, and is one character too long |
| Scanner.WrittenTokenFits | ASQENG/READSYS.C:584-629 | no token of a file whose backslashes all escape a backslash or a quote, as the writer puts them out, is too long for its buffer |
| Scanner.TokenOverruns | ASQENG/READSYS.C:584-629 | of any file: a token is too long for its buffer if and only if a walk over the input that only counts places comes to a backslash that escapes nothing, before a character of the token, with one place left |
| Scanner.BareOverruns | ASQENG/READSYS.C:584-629 | after any gap, a token without quotes, with any escapes in it, is too long if and only if, an escaped backslash or quote taking one place and a kept backslash with its character two, a kept backslash falls on the last place |
| Scanner.QuotedOverruns | ASQENG/READSYS.C:584-629 | the same for a token between quotes, the opening one escaped or not |
| Scanner.SkipGap | ASQENG/READSYS.C:586-627 | blanks, line ends and whole comments before a token only tell whether a line end was passed |
| Scanner.QuotedToken | ASQENG/READSYS.C:575-630 | a string printed between ^Z is read back, with what follows it left to read, exactly when the buffer has a byte to spare beyond the string and its terminator |
| Scanner.BareToken | ASQENG/READSYS.C:575-630 | a token printed without quotes is read back with the one blank or line end after it |
| Scanner.ScanAllReads | ASQENG/WRITSYS.C:79-97 | any sequence of quoted strings and bare tokens is read back in order, whatever blanks, line wraps and comments separate the items |
| Reader.Reader.Ltrnbln | ASQENG/READSYS.C:1604-1621 | escapes and then trailing blanks come out in place, a backslash that escapes nothing being kept |
| Escapes.InPieces | ASQENG/READSYS.C:1604-1621 | every text consists of escaped pairs, backslashes before other characters, and other characters, but for a backslash at its very end |
| Escapes.CookedPieces | ASQENG/READSYS.C:1604-1621 | each escaped pair of a line gives one character, every other character is kept, a backslash that escapes nothing with it; then the blanks at the end go; a backslash at the very end is lost |
| Escapes.CookedPlain | ASQENG/READSYS.C:1604-1621 | a line in which every backslash stands before a character it does not escape only loses the blanks at its end |
| Escapes.QuotedPieces | ASQENG/READSYS.C:575-630 | the same for a token between quotes, whatever escapes are in it |
| Escapes.BarePieces | ASQENG/READSYS.C:575-630 | and for a token without quotes |
| Escapes.PathAsItStands | ASQENG/READSYS.C:575-630 | a path written with single backslashes is read as it stands |
| Reader.TrimmedTail | QUILIB/TRNBLN.C:46-64 | what is trimmed is all blank and has no form feed in it, and what stays does not end in such a blank |
| Reader.Reader.Trnbln | QUILIB/TRNBLN.C:46-64 | trailing blanks come out in place, a form feed is kept |
| Reader.Reader.Fgets | ASQENG/READSYS.C:795-797 | the next line, its line end with it, cut to the buffer, and a terminator |
| Reader.LineOfLong | ASQENG/READSYS.C:795-797 | a line too long for the buffer is taken in parts, and nothing of it is lost |
| Reader.LineSurvives | ASQENG/READSYS.C:1604-1621 | a line written and read back loses exactly its trailing blanks and its ^Z; it comes back unchanged exactly when it has neither; the longest line that can be written fits the read buffer |
| Reader.Reader.AssertEol | ASQENG/READSYS.C:1592-1602 | the rest of the line is skipped unless the last token passed a line end |
| Reader.SkipLineStops | ASQENG/READSYS.C:1592-1602 | skipping stops behind the line end, behind a character 255 as well, or at the end of the file |
| Reader.Reader.ScnString | ASQENG/READSYS.C:646-653 | one token is taken and one byte less than the field is copied |
| Reader.FieldCut | ASQENG/READSYS.C:646-653 | the field gets the token, or as much of its front as leaves room for the terminator |
| Reader.Reader.ScnNumber | ASQENG/READSYS.C:655-698 | one token is taken; its sign, 0x prefix and leading digits are converted, and a token without a number leaves the variable as it was |
| Numbers.NumberSurvives | ASQENG/WRITSYS.C:708-726 | a number printed in decimal or hexadecimal, padded or not, is a bare token that converts back to itself |
| Numbers.TheDigits | ASQENG/WRITSYS.C:708-726 | hexadecimal digits are printed as capitals and read in either case |
| Numbers.ScannedSigned | ASQENG/READSYS.C:664-690 | a number may have a sign in front |
| Numbers.ScannedPrefixed | ASQENG/READSYS.C:664-669 | a hexadecimal number may have 0x or 0X in front, behind the sign |
| Numbers.WidthsWrap | ASQENG/READSYS.C:655-690 | what a byte, word or longer variable keeps of a number: the number itself within its range, and the same for numbers that differ by a multiple of it |
| Fields.HeadingRead | ASQENG/READSYS.C:174-194 | keyword and count of a record are read back, and the reader stands at the first line or at the path |
| Fields.Columns | ASQENG/WRITSYS.C:696-726 | the columns of the formats: the count behind a keyword filled up to ten, 32-bit numbers right-aligned in eight, words in four digits |
| Records.HoleRead | ASQENG/READSYS.C:1223-1228 | one hole line is read back, its line end left for the next token |
| Records.HolesRead | ASQENG/READSYS.C:1213-1230 | every list of holes is read back, and the next record follows |
| Records.PrtHoles | ASQENG/WRITSYS.C:708-726 | nothing for an empty list, else heading and one line for each hole |
| Records.ScnHoles | ASQENG/READSYS.C:1213-1230 | the reading loop computes the list, or fails where the file ends |
| MacList.MacRead | ASQENG/READSYS.C:1282-1290 | one memory chain line is read back and left behind by `assert_EOL`, embedded line ends included |
| MacList.MacsRead | ASQENG/READSYS.C:1263-1300 | every list of chain entries is read back; at most one line end stands before the next record |
| MacList.TypeSurvives | ASQENG/WRITSYS.C:840-846 | a type printed without quotes comes back exactly when it is not blank, NUL, ^Z, a semicolon or a quote |
| MacList.PrtMacInfo | ASQENG/WRITSYS.C:831-848 | heading and one line for each entry, a NUL type cutting its line short |
| MacList.ScnMacInfo | ASQENG/READSYS.C:1263-1300 | the reading loop computes the list, or fails where the file ends |
| Dumps.DumpRead | ASQENG/READSYS.C:728-744 | all bytes of a dump are read back across its line wraps, and nothing of it is left |
| Dumps.DumpSurvives | ASQENG/WRITSYS.C:315-325 | keyword, count and bytes of a dump are read back, also for no bytes |
| Dumps.TwoDigits | ASQENG/WRITSYS.C:321-321 | a byte is printed as its two hexadecimal digits |
| Dumps.DumpLines | ASQENG/WRITSYS.C:320-324 | twenty-five bytes fill a line, and the rest starts the next; the last line is ended unless it is empty |
| Dumps.PrtHexBytes | ASQENG/WRITSYS.C:315-325 | the writer wraps after every 25 bytes and at the end |
| Dumps.ScnHexBytes | ASQENG/READSYS.C:728-744 | no more bytes are read than there is room for |
| Dumps.PathSurvives | ASQENG/READSYS.C:784-788 | a path printed without quotes is read back, with the file's lines next, if and only if it has no blank, semicolon or ^Z and does not start with a quote |
| Dumps.FileSurvives | ASQENG/READSYS.C:777-810 | a text file whose path is of that kind comes back line by line, path and all, and the next record follows |
| Dumps.PrtFile | ASQENG/WRITSYS.C:357-372 | nothing for no lines, else heading, path and lines |
| Dumps.ScnFile | ASQENG/READSYS.C:777-810 | reads the count, the path when the count has not ended its line, and that many cooked lines; what that gives for files of this writer is `FileSurvives`, for others `OldFile` |
| OldFiles.OldFile | ASQENG/READSYS.C:777-810 | a file that this writer has not put out: its count, its path with single backslashes as it stands, and of every line what its pieces mean, without the blanks at the end |
| OldFiles.PlainLine | ASQENG/READSYS.C:1604-1621 | a line in which no backslash escapes anything means itself |
| AdfText.ChoicesRead | ASQENG/READSYS.C:1467-1476 | every list of choices is read back, with the state of `ReachedEOL` |
| AdfText.OptionsRead | ASQENG/READSYS.C:1436-1444 | every list of options, each with its choices, is read back |
| AdfText.SlotsRead | ASQENG/READSYS.C:1411-1425 | every list of slots is read back, an adapter with number 0 as an empty slot; at most one line end stands before the next record |
| AdfText.AdfSurvives | ASQENG/WRITSYS.C:919-970 | the whole adapter section is read back from its keyword on |
| AdfChains.ChoiceAppended | ASQENG/READSYS.C:1476-1486 | storing a choice and linking it to the last one extends the chain by that choice |
| AdfChains.OptionAppended | ASQENG/READSYS.C:1445-1455 | the same for options; the choices of all options stay reachable |
| AdfFiles.PrtAdfChoices | ASQENG/WRITSYS.C:955-970 | walking the chain prints exactly the choices it holds, in order |
| AdfFiles.PrtAdfOptions | ASQENG/WRITSYS.C:941-953 | walking the chain prints every option with its choices, in order |
| AdfFiles.PrtAdfInfo | ASQENG/WRITSYS.C:919-939 | the records reached from the handles are printed as the adapters they stand for |
| AdfReader.ScnAdfChoices | ASQENG/READSYS.C:1460-1489 | the chain built holds exactly the choices read; earlier records are not touched |
| AdfReader.ScnAdfOptions | ASQENG/READSYS.C:1429-1458 | the chain built holds exactly the options read, each with its choices; a file that ends too early leaves nothing unread |
| AdfReader.ScnAdfInfo | ASQENG/READSYS.C:1400-1427 | the handles set stand for exactly the slots read; the others are zero |
| Rows.RowSurvives | ASQENG/READSYS.C:655-698 | keyword and values of a one-line record, decimal and hexadecimal numbers of 16 or 32 bits and quoted strings in any order, are read back |
| Rows.CellColumns | ASQENG/WRITSYS.C:678-726 | a number is filled up to its width behind its gap with zeros or blanks, and its digits have its value |
| Rows.TableRead | ASQENG/READSYS.C:1144-1179 | every row of a table of such values is read back, and at most one line end is left |
| Rows.FlexSurvives | ASQENG/READSYS.C:1181-1211 | the list of flexed ROMs is read back, with the next record behind it, if and only if no entry has source or destination 0; otherwise it comes back empty and what follows the first such entry is left to be read as the next record |
| Rows.ScnFlexRom | ASQENG/READSYS.C:1181-1211 | the loop with its break computes this reading |
| Snapshot.FindsItself | ASQENG/READSYS.C:182-188 | the keyword search finds the entry of its own name |
| Snapshot.FlexBack | ASQENG/READSYS.C:290-292 | after any gap, keyword, count and entries of the flexed ROMs are read back if and only if no entry has source or destination 0 |
| Snapshot.RecordBack | ASQENG/READSYS.C:174-194 | any one record is read back after any gap, and at most its own line end stands before the next |
| Snapshot.SnapshotSurvives | ASQENG/READSYS.C:174-490 | a whole file of records of eight kinds, in any order and number, is read back equal to what was written, save adapters with number 0, and reading stops at the end keyword |
| EnvMap.PutProper | BATPROC/ENV.C:314-400 | inserting, replacing or deleting keeps names unique, upper case and well formed |
| EnvMap.PutLookup | BATPROC/ENV.C:314-400 | the new list decides the one name and agrees with the old list on every other |
| EnvMap.PutKeepsOthers | BATPROC/ENV.C:314-400 | every other entry, and their order, is left alone |
| EnvMap.ImageSplit | BATPROC/ENV.C:404-424 | the block around an entry: what is before it, its bytes, the image of the rest |
| EnvBlock.Normalize | BATPROC/ENV.C:323-339 | the argument is split at its first blank or =, the name upper-cased, blanks around = closed up, a missing = supplied |
| EnvBlock.ArgumentForms | BATPROC/ENV.C:323-339 | name, equals sign with or without blanks around it, value; or name, blanks, value: all give the same name in capitals and the same value |
| EnvBlock.SpliceValue | BATPROC/ENV.C:374-378 | moving the tail and copying the value turns the image with the old value into the one with the new value |
| EnvBlock.Environment.MatchEntry | BATPROC/ENV.C:292-306 | the comparison loop finds a name exactly when it equals the name asked for with case ignored, and otherwise stays inside the entry |
| EnvBlock.Environment.EnvGet | BATPROC/ENV.C:280-310 | the value of the variable, whatever the case of the name asked for, or nothing |
| EnvBlock.Environment.NextEnv | BATPROC/ENV.C:404-412 | from inside an entry to the next one |
| EnvBlock.Environment.EndOfEnv | BATPROC/ENV.C:416-424 | the terminating NUL of the list |
| EnvBlock.Environment.DeleteAt | BATPROC/ENV.C:360-362 | the block then holds the list without the entry |
| EnvBlock.Environment.ReplaceAt | BATPROC/ENV.C:363-379 | the block then holds the list with the new value; out of space exactly when the entries would reach the last two bytes, and then nothing changes |
| EnvBlock.Environment.AppendAt | BATPROC/ENV.C:381-393 | the same for a new entry at the end |
| EnvBlock.Environment.AddEnv | BATPROC/ENV.C:314-400 | refines insert, replace and delete on the list of entries; fails exactly when a value is given and there is no room, and then leaves the block as it was |
| Glist.LinkedList.New | ASQENG/GLIST.C:66-139 | appends; links forward and back stay mutually inverse |
| Glist.LinkedList.Insert | ASQENG/GLIST.C:141-199 | inserts before an item, or at the end when no item is given; links stay mutually inverse |
| Glist.LinkedList.Delete | ASQENG/GLIST.C:201-243 | removes an item and returns the one after it; links stay mutually inverse |
| Glist.LinkedList.Lookup | ASQENG/GLIST.C:352-375 | the item of an ordinal, the first for a smaller one, none past the end |
| Glist.ArrayList.New | ASQENG/GLIST.C:66-139 | appends, growing when full |
| Glist.ArrayList.Insert | ASQENG/GLIST.C:141-199 | inserts before a place, the rest moved up, or at the end |
| Glist.ArrayList.Delete | ASQENG/GLIST.C:201-243 | removes a place, the rest moved down; tells whether an item follows |
| Glist.OnwardMeetsAll | ASQENG/GLIST.C:316-332 | going on by `glist_next` meets every item in order, in both forms |
| Glist.BackwardMeets | ASQENG/GLIST.C:334-350 | going back by `glist_prev` meets all items before, last one first; in the array form the first item of the list is never reached from another |
| Glist.BackwardsAgree | ASQENG/GLIST.C:334-350 | the two forms show a list backwards alike if and only if it has one item |
| Glist.LookupsAgree | ASQENG/GLIST.C:352-375 | the two forms agree on every ordinal from 1 on, found or not; below 1 the linked form gives the first item and the array form none, as long as the 16-bit offset does not come round |
| Glist.ArrayList.Lookup | ASQENG/GLIST.C:352-375 | an ordinal of the list gives the place of its item; an ordinal above or below the list gives none as long as its 16-bit offset does not come round to the items |
| Glist.ToArray | ASQENG/GLIST.C:274-298 | moves all items of a linked list into an array list, in order, leaving none |
| Glist.ToLinked | ASQENG/GLIST.C:301-314 | the linked list has the items of the array list, in order |
| SysBuf.Buffer.Alloc | ASQENG/SYSBUF.C:19-31 | a block is cut from the front of the free space; used and free space always make up the buffer and live blocks lie apart |
| SysBuf.Buffer.Realloc | ASQENG/SYSBUF.C:33-61 | only the last block changes size, exactly when it fits |
| SysBuf.Buffer.Free | ASQENG/SYSBUF.C:63-71 | only the last block gives its space back |
| SysBuf.Buffer.Store | ASQENG/SYSBUF.C:82-99 | a new block holds the data; earlier blocks are not altered |
| SysBuf.Buffer.StoreList | ASQENG/SYSBUF.C:132-152 | a new block holds the items end to end; earlier blocks are not altered |
| SysBuf.Buffer.Append | ASQENG/SYSBUF.C:101-123 | the data stands behind the length kept for appending and becomes the end of the block, no other byte altered; fails exactly when there is no room or the block is not the last one, and a failure for a given block changes nothing |
| SysBuf.Buffer.AppendAll | ASQENG/SYSBUF.C:101-123 | a run of appends from handle 0 stores exactly the concatenation of its pieces in one block |
| EvalTree.Reads4 | BATPROC/EVAL.C:162-180 | a literal or parenthesised text is read as its tree |
| EvalTree.Reads2 | BATPROC/EVAL.C:126-139 | products associate to the left and stop where a sum or a closing parenthesis follows |
| EvalTree.Reads1 | BATPROC/EVAL.C:109-122 | sums associate to the left over products |
| EvalTree.EveryTreeCanBeWritten | BATPROC/EVAL.C:109-180 | every tree has a text with parentheses only where they are needed |
| EvalTree.EvaluatesText | BATPROC/EVAL.C:184-202 | every text of a tree, whatever blanks stand before each token and whatever needless parentheses it has, evaluates to the value of the tree, or to the divide-by-zero error exactly when some divisor is zero; numbers may have commas in them |
| EvalMeaning.QuotientRemainder | BATPROC/EVAL.C:96-104 | the dividend is divisor times quotient plus remainder, the remainder is smaller than the divisor and goes with the sign of the dividend |
| EvalMeaning.SumsOfTexts | BATPROC/EVAL.C:87-92 | told of texts and what they evaluate to: + adds, and - gives the number that added to the right one is the left one |
| EvalMeaning.ProductsOfTexts | BATPROC/EVAL.C:93-104 | * multiplies; / and % give the quotient and the remainder that belong together, or the same error when the divisor is zero |
| EvalMeaning.SignsOfTexts | BATPROC/EVAL.C:143-158 | a + in front changes nothing, a - gives the number that added to it is zero |
| EvalMeaning.NumberOfText | BATPROC/EVAL.C:69-77 | the digits of a number, up to 20 and with commas anywhere after the first, evaluate to the number |
| EvalMeaning.NothingToEvaluate | BATPROC/EVAL.C:192-197 | the empty text is 0; one that does not begin with a digit or an operator is no expression |
| EvalMeaning.JunkIsBadSyntax | BATPROC/EVAL.C:178-179 | a number or a text in parentheses with anything else behind it is bad syntax, unless a division by zero comes first |
| EvalTree.SurplusPasses | BATPROC/EVAL.C:184-202 | a text with one closing parenthesis too many is evaluated up to it, whatever stands behind |
| EvalTree.Cut1 | BATPROC/EVAL.C:109-180 | a level reads a text that lacks closing parentheses at its end as if they were there while one still stands, and ends in the error when none does |
| EvalTree.UnbalancedPasses | BATPROC/EVAL.C:166-172 | of any text the last m of the n parentheses closed at its end are missing: for m < n it is evaluated all the same, for m = n it is rejected as unbalanced unless a division by zero comes first |
| Evaluator.Parser.GetToken | BATPROC/EVAL.C:61-84 | the token function, on the shared state |
| Evaluator.Parser.Sum | BATPROC/EVAL.C:109-122 | the recursive descent terminates on every text and ends in the specified value, state or error |
| Evaluator.Parser.Run | BATPROC/EVAL.C:184-202 | the answer for every text, stale delimiter code included |
| DirPages.ShownOnPage | BATPROC/DIRCMDS.C:253-262 | a page shows its own entries only |
| DirPages.ShownOnce | BATPROC/DIRCMDS.C:253-262 | no entry is shown twice on a page |
| DirPages.ShownAll | BATPROC/DIRCMDS.C:253-262 | every entry of a page is shown on it, uneven last page included |
| DirPages.ReadsDown | BATPROC/DIRCMDS.C:253-262 | below each entry stands the next one, and a column starts where the column to its left ends |
| DirPages.PagedShowsAll | BATPROC/DIRCMDS.C:234-266 | over all pages every entry is shown |
| DirPages.PageEnd | BATPROC/DIRCMDS.C:241-251 | page offsets stay multiples of the number of columns |
| DirPages.ListVertically | BATPROC/DIRCMDS.C:234-320 | the listing loop shows every entry exactly once, page by page |
| ShellSort.KeepsLargerGap | BATPROC/DIRCMDS.C:512-540 | sorting with a smaller gap keeps the order of every larger gap |
| ShellSort.InOrderApart | BATPROC/DIRCMDS.C:512-540 | two places a larger gap apart are in order after a smaller-gap pass, by counting |
| ShellSort.SiftDown | BATPROC/DIRCMDS.C:522-538 | the inner exchange loop puts one item in its place within its class |
| ShellSort.GapPass | BATPROC/DIRCMDS.C:522-539 | a pass sorts every class of its gap and moves nothing between classes |
| ShellSort.SSort | BATPROC/DIRCMDS.C:512-540 | a permutation for any comparison; sorted for any total preorder |
| WildCmp.MatchesIsGlob | BATPROC/MISC.C:501-553 | whatever `wild_cmp` accepts matches the declarative glob, for all patterns |
| WildCmp.CaseDoesNotMatter | BATPROC/MISC.C:501-553 | folding the case of pattern and name changes nothing, from any place of either, for all patterns and names |
| WildCmp.PlainIsEquality | BATPROC/MISC.C:539-547 | a pattern without wildcards and dots accepts its own name in any case and nothing else |
| WildCmp.QuestionsAccept | BATPROC/MISC.C:533-538 | a pattern of question marks accepts the names that are no longer and have no dot |
| WildCmp.StarDotStar | BATPROC/MISC.C:501-553 | `*.*` accepts the names with one dot or none |
| CText.ToUpperLetters | BATPROC/MISC.C:521-521 | `toupper` turns each small letter into its capital and nothing else |
| WildCmp.LeftmostWillDo | BATPROC/MISC.C:512-529 | after a * the leftmost place of the literal is as good as any other |
| WildCmp.GlobIsMatches | BATPROC/MISC.C:501-553 | for patterns in which no run of ? without a * follows a * across a dot-free literal, all that matches the glob is accepted, for all names |
| WildCmp.FaithfulMatches | BATPROC/MISC.C:501-553 | the same also for patterns that start with a dot |
| WildCmp.LateQuestionMisses | BATPROC/MISC.C:501-553 | a pattern and a name that match the glob and are not accepted |
| WildExact.FillPasses | BATPROC/MISC.C:510-547 | a name made for a stretch of the pattern takes `wild_cmp` through that stretch, every search ending at its first place |
| WildExact.MissedIsGlob | BATPROC/MISC.C:512-529 | for every pattern with such a run of ? a name is built that matches the glob |
| WildExact.MissedIsMissed | BATPROC/MISC.C:512-529 | and that `wild_cmp` does not accept, because the leftmost place of the literal is not given back |
| WildExact.ExactlyFaithful | BATPROC/MISC.C:501-553 | a pattern is right for every name if and only if it starts with a dot or has no such run of ? |
| WildCmp.FindLiteral | BATPROC/MISC.C:519-529 | the search loop with its step back in pattern and name computes the leftmost place |
| WildCmp.WildCompare | BATPROC/MISC.C:501-553 | terminates on all inputs; zero exactly when accepted, and that whatever the case of pattern and name |
| Info.LineAt | ASQENG/INFO.C:149-184 | where a stored line lies in the packed buffer |
| Info.InfoText.IPuts | ASQENG/INFO.C:227-261 | a line is stored at the end with its coding bytes, or the overflow is recorded and nothing changes |
| Info.InfoText.InfoFetch | ASQENG/INFO.C:149-184 | the line at an offset and the offset of the next, or 0 at the end |
| Info.InfoText.FetchAll | ASQENG/INFO.C:149-184 | fetching from 0 until 0 returns exactly the stored lines in order |
| Info.InfoText.InfoSeek | ASQENG/INFO.C:121-147 | the offset after that many fetches |
| Info.WrappedKeepsText | ASQENG/INFO.C:374-410 | no wrapped line is wider than the width, each starts with its leader, and the bodies put end to end are the string |
| Info.WrappedFills | ASQENG/INFO.C:374-410 | every wrapped line but the last fills the width exactly |
| Info.StoredAt | ASQENG/INFO.C:374-426 | the first line is stored in its color and the others in theirs, each with its text |
| Info.InfoText.IWrapText | ASQENG/INFO.C:351-426 | terminates and stores exactly the wrapped lines, the color restored |
| Qtas.ChainHeaders | ASQENG/QTAS.C:250-274 | what a counted chain is: rising M headers and one Z at the end |
| Qtas.ChainUnique | ASQENG/QTAS.C:250-274 | at most one chain starts at a segment |
| Qtas.ChainBound | ASQENG/QTAS.C:250-274 | a chain has no more headers than there are segments |
| Qtas.ValidChain | ASQENG/QTAS.C:250-274 | terminates over any memory; a positive count is the length of the chain at the segment, and every reportable chain is counted |
| Qtas.BlocksAt | ASQENG/QTAS.C:232-239 | what is reported at each place of the list |
| Qtas.BlocksEndToEnd | ASQENG/QTAS.C:232-239 | each block reported starts one paragraph behind the end of the one before it, segments wrapping; up to the last M they do not wrap |
| Qtas.Report | ASQENG/QTAS.C:232-239 | a buffer with room for no block is overrun, since the count of free places comes round; no other is |
| Qtas.FindMzChain | ASQENG/QTAS.C:208-248 | terminates despite wrapping segments; reports, as far as the count of free places allows, the chain at the first segment at or above the start where one begins, and nothing exactly when there is none |

## Left out

- MapFix.UMapList.GlistSort: the library's `qsort` is replaced by insertion sort under the same comparison; callers rely only on its result being an ordered rearrangement.
- Segmented addresses of map items are not kept: they follow the flat ones; address plus length is taken not to overflow 32 bits, except that the subtraction in `map_shortitems` wraps.
- MapFix.UMapList.ItemOverlap: the list of ranges is an array list; its places are indices of a sequence, so addresses of items are not captured there.
- MapHoles.FilledTiles: starts are asked to lie in the first megabyte, where a segment can name them.
- MapHoles.FindHoles: hole names and classes stand for the message texts and constants of the program; the memory tester is a parameter.
- MapShort.MapShortItems: coverage and failure are exact for sorted disjoint maps that leave the last 32 bytes of the 32-bit address space free; of other lists only the run itself and the total length are stated.
- MapBuild.BuildMap: the branch taken on a live machine; when a snapshot is read, `map_holes` takes the place of `find_holes`, on the merged ranges and with the recorded holes that the last clauses are about. Of maps whose merges do not join touching items the tiling is not characterised.
- The collection of ranges from DOS, drivers, ROMs and video (`map_lowmem` to `map_extra`) and the interrupt map: they read hardware tables.
- Batch.Interpreter.BatchCli: a script may jump back and run forever, so the interpreter has a bound on the lines it runs; a run cut off by the bound reports that it is not done, and every result about a completed run holds for every bound.
- Batch.Interpreter.RunNested: the n steps that the contracts speak of are a ghost result.
- Batch.Interpreter.RunLine: GOSUB, FOR, SETLOCAL, parameters, several commands on one line, ^C handling and missing files are not modelled; conditions and commands are opaque events judged by an oracle.
- Batch.Interpreter.IffParsing: ELSEIFF is one step with the IFF it leaves behind.
- Reader.Reader.ScnNumber: larger numbers than the variable holds are cut to its width, which `sscanf` does not promise; the record functions start from 0 in every variable.
- Reader.Reader.ScnString: the byte after the copied ones is taken to be NUL, as it is in a zeroed record; holes and adapter records are not zeroed, and their round trips ask for strings that do not need it.
- Scanner.Writer.Lprintf: formatted text that does not fit the function's buffer is not modelled; the `%` formats used are functions on the values.
- Dumps.FileSurvives: asks for a path of the kind `PathSurvives` characterises.
- Dumps.ScnFile: the temporary file the lines pass through is a sequence.
- AdfReader.ScnAdfInfo: records are stored in a heap of handles rather than as bytes of the system information buffer; when the file ends before the count of a record the program returns an uninitialised number, which is modelled as failure.
- Snapshot.SnapshotSurvives: covers eight kinds of records, with the keyword table as a parameter and the loop bounded by the number of records written. Versions, flags, processor, clock rate, far addresses, word lists, disk cache, file statistics, environment strings and device drivers have formats of their own and are not modelled; driver names fill their field completely and do not survive.
- Rows.RowSurvives: stands for the many functions that print and scan such a row value by value; the format of each is a parameter, and their bodies are not written out.
- Snapshot.RecordBack: keywords are compared as `stricmp` does, but a table entry's own name is what is written.
- EnvBlock.Environment.AddEnv: the alias list with its wildcards, the copy to the master environment and the error message are left out.
- Glist.LinkedList.Tail: `last` of an emptied linked list means nothing, and purging and sorting a list are left out.
- SysBuf.Buffer.Alloc: where the program ends for lack of memory the model reports failure.
- SysBuf.Buffer.Append: the kept length and the data together are taken not to pass 16 bits.
- EvalTree.EvaluatesText: numbers are unbounded where the program's `long` wraps.
- Error codes of texts that are wrong in other ways than those named are computed by `Evaluate` and not characterised further.
- ShellSort.SSort: the comparison is a parameter; `files_cmp` returns raw character differences at `BATPROC/DIRCMDS.C:452`, which is not a preorder on mixed case.
- DirPages.ListVertically: which entry is shown where, not how it is printed.
- Info.InfoText.IPuts: the room for text is what the buffer has beyond its header; formats and centred text are left out.
- Info.InfoText.IWrapText: leaders are asked to be shorter than the width, since the loop does not end otherwise.
- Qtas.FindMzChain: of an entry only the header fields are filled in.
- Screens, menus, help, printing, dialogs, hardware and DOS probing, file commands, redirection and variable expansion.
