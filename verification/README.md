# Verification of the es shell's core

These modules model the parts of the es shell whose correctness is least obvious from reading
one function, and prove what the rest of the shell relies on.  They follow the C code branch by
branch; each file names the C files it is about.  Loops over buffers, tables and lists are
methods proved against functions of their inputs, and the promises are lemmas about those
functions or invariants that every method keeps.

* **Collector** (`Heaps`, `Copying`, `Collector`, `Gc`, `Witness`).  Cheney copying with forwarding
  tags over a chain of bump-allocated segments, the scan of new space step by step, and the retry
  loop with its adaptive `minspace`.  When none of its requests makes `gcalloc` retry forever, a
  collection ends, in at most two rounds, with one segment.  It replaces the reachable graph by an
  isomorphic one exactly when no copy that was made behind the scan still points to old space; no
  copy is when everything live fits one segment.  An isomorphic graph keeps every field of every
  live object but the cached string of a variable that a rebinding made stale.
* **Dictionary** (`Masking`, `Dict`).  The hash table with linear probing, tombstones and growth by
  re-insertion refines a finite map over every run.
* **Deferred descriptors** (`Descriptors`).  The parent's reading of the stack of pending
  redirections and the child's replay of it agree, with `dup` as "lowest free descriptor"
  (section 2.14 of POSIX.1-2017 System Interfaces).  Nested redirections do what their nesting
  says, without real descriptors.
* **Globbing** (`Glob`).  The matcher decides the language of the pattern, given character by
  character of its text; extraction finds the shortest pieces that rebuild the subject.
* **Printers and readers** (`Lexing`, `Quoting`, `Arith`, `Expressions`, `ArithEval`, `TreeNodes`,
  `EnvNames`, `EnvLists`, `Splitting`).  Quoted strings and lists, arithmetic, environment names and
  lists, and split lists are read back as what was printed.  The arithmetic parser accepts exactly
  the grammar's expressions, and what is typed evaluates to its meaning; integer arithmetic is exact
  or fails.
* **Variable store** (`Variables`, `Scoping`, `VarStore`).  A machine with a stack of pushed values,
  throws that unwind it and a two-level environment cache does what a semantics without stack and
  cache says.

Strings are sequences of nonzero bytes (`CStrings`); reading the terminator is allowed, reading past
it is not.

Some promises hold only under a condition.  Where that is so, the lemma states the condition as an
"if and only if", or a concrete input shows the failure:

* `fdmap` follows a real descriptor on to an entry below it (`Descriptors.FdmapExactly`,
  `Descriptors.FdmapCanBeLedOn`).  Redirections mean what their nesting says when the command names
  no descriptor that the shell uses itself (`Descriptors.RedirectionsNest`); naming one may still
  come out right, when it happens to be open on the wanted file.
* A scan pass over two segments can leave copies unscanned.  Which ones is recorded by the scan
  (`Collector.LateExactly`), when that breaks the graph is stated exactly (`Gc.Heap.Collect`,
  `Gc.Heap.Collecting`), and five objects at the smallest `minspace` show that it happens
  (`Witness.CollectFive`).
* `gcalloc`, while collection is blocked, retries forever for a request that needs more than a fresh
  segment but is not above `minspace` (`Heaps.RetriesForever`), as for 9996 bytes at the smallest
  `minspace` (`Witness.SmallestRetry`).
* The assertion in `extractsinglematch` fails for some patterns that end in two stars
  (`Glob.ExtractionCorrect`, `Glob.AssertionCanFail`).
* `-` lets a difference of exactly 2^63 overflow, and the check for `*` by -1 itself overflows
  (`ArithEval.DoOp`, `ArithEval.UndefinedAt`).
* What is printed in the quoting form runs on into a quote after a closing quote and into an octal
  digit after a number, and into nothing else (`Quoting.ReadBack`).
* Importing an exported list fails when an element has two bytes that need an escape
  (`EnvLists.ImportOfExport`).
* Decoding a foreign name that ends in two underscores, or in those and one hexadecimal digit, reads
  past its end (`EnvNames.OverrunExactly`).

## Model

| member | source | states |
|---|---|---|
| Masking.MaskedStep | dict.c:104-104 | counting an unsigned long up or down and masking it walks the slots cyclically, also where the long wraps around; every loop over the table steps this way |
| Dict.StrHash2 | dict.c:15-41 | the two-part hash is the hash of the concatenation, empty parts included |
| Dict.StrEq2 | util.c:44-54 | true exactly when the string is the concatenation of the two parts |
| Dict.Table.constructor | dict.c:66-73 | a new table is empty, consistent, and has REMAIN(size) as its budget |
| Dict.Table.Find | dict.c:101-108 | probing stops, and finds the name exactly when the table's map has it |
| Dict.Table.Get | dict.c:170-175 | gives the map's value for the name |
| Dict.Table.Get2 | dict.c:202-209 | gives the map's value for the concatenation of the names |
| Dict.Table.FindFree | dict.c:129-135 | the probe loop of put stops at the first slot on the probe path that is not live |
| Dict.Table.Insert | dict.c:110-140 | adds one association; grows only when the budget is spent, and then leaves the old table alone |
| Dict.Table.CopyInto | dict.c:116-127 | re-insertion into the larger table never grows again, so dropping put's result is sound |
| Dict.Table.AfterTombstones | dict.c:147-151 | the first loop of rm stops behind the run of tombstones |
| Dict.Table.Remove | dict.c:142-158 | deletes one name and keeps the table consistent and tidy |
| Dict.Table.Reclaim | dict.c:154-157 | turning tombstones back into empty slots stops and changes no lookup |
| Dict.Table.Put | dict.c:177-187 | updates or deletes as the map does; the invariant (budget plus occupied slots is REMAIN(size), no broken chain, unique names, no tombstone before an empty slot) is kept |
| Dict.Table.ForAll | dict.c:189-199 | folds the callback over the live associations in slot order |
| Dict.Inserted | dict.c:129-139 | a live name in the first free slot of its path keeps all chains and names unique and adds it to the map |
| Dict.Buried | dict.c:146-147 | a tombstone removes the name from the map and cuts no chain |
| Dict.Reclaimed | dict.c:154-157 | emptying a tombstone before an empty slot cuts no live chain and gives budget back |
| Dict.RunEnd | dict.c:148-154 | only the last tombstone of a run can stand before an empty slot |
| Dict.SomeEmpty | dict.c:6-8 | the budget leaves an empty slot, which is why every probe loop stops |
| Dict.EntriesAreContents | dict.c:189-199 | what is visited is every association of the map, once |
| Dict.Step | dict.c:170-209 | one operation answers as the map does and keeps the refinement |
| Dict.Run | dict.c:166-209 | over every run each answer is the one a finite map gives |
| Glob.ClassStart | match.c:30-39 | an unquoted ']' that comes first is a member of its class |
| Glob.RangeMatching | match.c:26-55 | decides membership in the parsed class; the end of a class does not depend on the character |
| Glob.Match | match.c:58-105 | true exactly when the subject is in the language of the quoted pattern |
| Glob.MatchStar | match.c:72-80 | the star case: leaving out the empty suffix loses nothing after stars are collapsed |
| Glob.ClassWritten | match.c:26-55 | a class stands for one character that is among those written, or is not after a tilde |
| Glob.PartsOf | match.c:39-50 | every class can be read as single characters and ranges in this way |
| Glob.ListedClass | match.c:35-50 | [xs] is any character of xs and [~xs] any other, with a bracket first or a hyphen at either end counting as themselves |
| Glob.RangeClass | match.c:42-47 | [x-y] is any character from x to y and [~x-y] any other |
| Glob.ClassMatches | match.c:26-55 | the same for a whole pattern and a text of one character |
| Glob.OpenBracket | match.c:91-93 | a bracket that is never closed is that character |
| Glob.QuestionMark | match.c:68-71 | an unquoted ? is any one character |
| Glob.Asterisk | match.c:72-80 | an unquoted * is any text |
| Glob.Ordinary | match.c:98-103 | any other character, and every quoted one, is itself |
| Glob.EmptySpan | match.c:75-80 | only stars span nothing |
| Glob.DoubleStar | match.c:73-74 | two stars mean what one means |
| Glob.QuotedMatches | match.c:60-61 | a wholly quoted pattern matches itself only |
| Glob.HasWild | glob.c:17-35 | finds an unquoted wildcard character if there is one |
| Glob.WildExactly | glob.c:17-35 | the wildcards are *, ? and [ |
| Glob.MatchesIffFilled | match.c:58-105 | a subject matches exactly when some pieces for the wildcards rebuild it |
| Glob.PiecesRebuild | match.c:183-221 | the extracted pieces, put in for the wildcards, rebuild the subject |
| Glob.PiecesShortest | match.c:193-202 | no other pieces have shorter stars, earlier stars first |
| Glob.ExhaustsExactly | match.c:195-195 | the assertion fails exactly when the pattern ends in two stars and no proper prefix matches it without them |
| Glob.Exchange | match.c:193-202 | two spans, one inside the other, give a span from the earlier start to an earlier end |
| Glob.ExtractSingle | match.c:174-224 | gives the pieces in reverse, or fails the assertion, or gives nothing without wildcard or match |
| Glob.ExtractStar | match.c:189-203 | the star case takes the shortest piece and extracts the rest |
| Glob.ExtractionCorrect | match.c:174-224 | for a matching subject: when the assertion fails, and otherwise that the pieces rebuild it and are the shortest |
| Glob.AssertionCanFail | match.c:195-195 | subject a with the pattern a** fails the assertion |
| Glob.ExtractMatches | match.c:234-264 | for each subject in turn the pieces of the first pattern that has some |
| Glob.FirstDecides | match.c:234-264 | the pieces of a subject rebuild it from the first pattern that has any and are the shortest that do; every earlier pattern does not match, or has no wildcard to give a piece for |
| Glob.SubjectsInOrder | match.c:234-264 | the pieces stand in the order of the subjects, and one failed assertion is the end |
| Heaps.RetriesForever | gc.c:492-513 | a blocked gcalloc returns exactly when the request fits, now or in the segment it opens |
| Gc.Heap.Alloc | gc.c:492-513 | allocation while collection is blocked bumps one frontier and opens at most one segment |
| Gc.Heap.ForwardPointer | gc.c:310-334 | forwards as the specification does: unchanged outside old space, followed when tagged, else copied and tagged |
| Gc.Heap.ScanFields | list.c:28-33 | a scan routine forwards the fields of the object one after the other |
| Gc.Heap.ScanSegment | gc.c:353-360 | scans one segment up to its moving frontier |
| Gc.Heap.ScanPass | gc.c:349-361 | one pass, newest segment first, down to those scanned before |
| Gc.Heap.ScanSpace | gc.c:346-366 | the scan ends as its steps say, and what it leaves unscanned is exactly what came too late |
| Gc.Heap.ScanRoots | gc.c:337-343 | every root is forwarded once, also one that is on the lists twice |
| Gc.Heap.LiveData | gc.c:453-454 | adds up the bytes in use |
| Gc.AdaptedFits | gc.c:464-467 | after the step the live data fits twice and the lower bound of minspace is kept; minspace is halved exactly above twelve times the live data and twice its lower bound, raised exactly below twice the live data, and once raised it is left alone |
| Gc.Heap.AdaptMinspace | gc.c:464-467 | the step takes minspace there, to exactly four times the live data when it raises it |
| Gc.Heap.constructor | gc.c:474-484 | the first heap is well-formed and has one empty segment |
| Gc.Heap.Evacuate | gc.c:426-447 | flips the spaces and copies what the roots reach; the copies left unscanned are those that came too late for the scan |
| Gc.Heap.Collect | gc.c:407-471 | one round: the graph is replaced by an isomorphic one exactly when the late copies need no scanning, and otherwise by none; no more bytes are in use than the live data takes; one segment when the live data fits one; minspace at four times the live data if a second segment was opened |
| Gc.Heap.Collecting | gc.c:407-471 | if no request can retry forever, the loop runs at most twice, once when the live data fits one segment, and ends with one segment; the reachable graph is carried over isomorphically exactly when no late copy has a kept field to old space, and then every live object, every root and every field is, but for the string of a variable with captured bindings after a rebinding |
| Gc.Heap.GcEnable | gc.c:374-379 | a collection that was put off is made up for when the last block is lifted, with the same result |
| Copying.CopyKeeps | gc.c:329-331 | copying one object keeps the invariant of the collection |
| Copying.ForwardKeeps | gc.c:310-334 | forwarding one pointer keeps it, and cannot get stuck when no request of the collection can |
| Copying.ForwardAllKeeps | gc.c:337-343 | so does forwarding a list of pointers |
| Copying.ScanKeeps | gc.c:354-360 | so does scanning one copy |
| Copying.CanCopy | gc.c:492-513 | there is room for the next copy: either all of old space fits one segment, or the object fits a fresh one |
| Collector.StepKeeps | gc.c:346-366 | every step of the scan keeps the invariant and that every copy behind the scan was scanned or is recorded as late |
| Collector.LateExactly | gc.c:346-366 | at the end of the scan the late copies are exactly the unscanned ones, and there are none in a single segment |
| Collector.ExactlyLive | gc.c:407-448 | the objects copied are exactly the reachable ones when no late copy points back |
| Collector.SettledExactly | gc.c:407-451 | the copies are the reachable graph, up to fields still to be dropped, exactly when no late copy has a kept field to old space |
| Collector.IsomorphicExactly | gc.c:407-451 | the copies are an isomorphic image of the reachable graph exactly when the late copies need no scanning; otherwise they are one under no renaming at all |
| Collector.IsomorphicCarries | var.c:58-63 | field by field: each live object has a copy of its own with the same contents, each field leads to the copy of what it led to, and only the second field of a variable with captured bindings is dropped, after a rebinding |
| Collector.LiveExactly | gc.c:310-366 | live is what a root, or a field of a live object that is not dropped, points to |
| Collector.FreedHeap | gc.c:450-451 | the heap is well-formed again after old space is freed |
| Collector.AllLive | gc.c:407-470 | every object of the collected heap is reachable, so a second round copies all of it |
| Collector.Compose | gc.c:408-470 | two rounds in a row are one isomorphism, even if the first left fields behind that it should have dropped |
| Collector.BrokenStays | gc.c:408-470 | a dangling copy is reachable after the first round, and a second round does not mend it |
| Gc.EndsOnce | gc.c:346-366 | how the scan ends, late copies included, is settled by the heap and the roots before collection |
| Gc.BothRounds | gc.c:407-471 | two rounds carry the graph over exactly when the first one left no kept field to old space behind |
| Witness.FiveHeap | gc.c:492-513 | five objects in two segments of the smallest size are a well-formed heap |
| Witness.FiveCalm | gc.c:492-513 | and one whose collection never retries forever |
| Witness.RootsForwarded | gc.c:337-343 | forwarding its three roots takes two segments |
| Witness.PassOverTwoSegmentsMisses | gc.c:346-366 | the scan then ends with the copy of the fourth object late |
| Witness.CollectFive | gc.c:407-471 | gc on this heap leaves no isomorphic graph |
| Witness.SmallestRetry | gc.c:492-513 | a blocked request of 9996 bytes at the smallest minspace never fits, however often it is retried |
| Descriptors.LowestFree | fd.c:186-186 | dup gives the lowest number that is not open |
| Descriptors.FdmapExactly | fd.c:93-104 | fdmap finds the topmost real descriptor exactly when no entry below is for that number |
| Descriptors.FdmapCanBeLedOn | fd.c:93-104 | two entries that lead it on to another descriptor |
| Descriptors.ReplayStep | fd.c:107-114 | replaying one entry keeps what is known of every descriptor of the child |
| Descriptors.ReleaseDistinct | fd.c:179-194 | releasing a descriptor disturbs no other open descriptor and no other registered variable |
| Descriptors.ViewsAgree | fd.c:93-114 | after the replay a user descriptor refers to the file of its topmost real descriptor; fdmap names that file under the exact condition; a topmost close closes it |
| Descriptors.NothingLeaks | fd.c:107-114 | which descriptors are open after the replay, exactly |
| Descriptors.Shell.RegisterFd | fd.c:135-148 | adds one variable to the list |
| Descriptors.Shell.UnregisterFd | fd.c:151-161 | takes exactly that variable off the list |
| Descriptors.Shell.ReleaseFd | fd.c:179-194 | a registered holder of the descriptor moves to the lowest free one, and the descriptor is closed |
| Descriptors.Shell.DoDeferred | fd.c:33-43 | releases the user descriptor, then closes it or moves the real one there |
| Descriptors.Shell.MvFd | fd.c:7-15 | moves a descriptor |
| Descriptors.Shell.FdMap | fd.c:93-104 | walks the stack from the top |
| Descriptors.Shell.RemapFds | fd.c:107-114 | the whole replay, for every stack, from the parent's state at the fork |
| Descriptors.Shell.IsDeferred | fd.c:197-203 | finds a user descriptor on the stack if it is there |
| Descriptors.Shell.NewFd | fd.c:206-224 | gives a number that is neither open nor deferred, and leaves the table as it was |
| Descriptors.Shell.GrowTable | fd.c:48-56 | moving the table re-registers every entry and changes neither the stack nor other registered variables |
| Descriptors.Shell.PushDefer | fd.c:45-66 | a parent remembers the operation on top of the stack, a child does it at once |
| Descriptors.Shell.Undefer | fd.c:79-90 | takes the top entry back and closes its real descriptor |
| Descriptors.Shell.RunRedir | prim-io.c:18-36 | an entry pushed around any commands is what they see on top of the stack, and is taken back when they end, normally or by an exception; its real descriptor is closed |
| Descriptors.Shell.RunOpened | prim-io.c:71-123 | a file opened or duplicated on the lowest free descriptor is such an entry |
| Descriptors.Shell.RunRedirections | prim-io.c:18-137 | any well-nested run of redirections fails, and shows its commands the stack, as worked out from fdmap and the lowest free descriptors, and leaves all descriptors, the stack and the other registered variables as they were |
| Descriptors.EffectIsNested | prim-io.c:71-137 | that is what nested redirections mean, each giving a user descriptor another file or none for the commands inside, if nobody names the shell's own descriptors |
| Descriptors.RedirectionsNest | prim-io.c:71-137 | so it is from every state of the shell |
| Descriptors.ChildSees | fd.c:107-114 | a child forked inside sees, under every number, just the file that stands there |
| Arith.MkOpBuilt | syntax.c:243-255 | what mkop builds from built trees is built |
| Arith.MkNegBuilt | syntax.c:257-272 | negation of a tree the parser has never overflows |
| Arith.OperandBuilt | parse.y:202-209 | every tree the rules produce is built |
| Arith.ReadBack | conv.c:195-223 | reading a printed tree where it fits is like having the tree there |
| Arith.ReadRest | conv.c:209-221 | reading the later operands folds them back into the flat list |
| Arith.PrintParse | conv.c:186-223 | printing any parsed arithmetic tree and parsing it again gives the same tree |
| Expressions.ParseSpelled | parse.y:26-29 | an expression written with the parentheses its operators need, and any others, is parsed as its nesting: % above * and /, those above + and -, each to the left, a sign above all |
| Expressions.ParseComparison | parse.y:194-200 | a comparison stands below all operators |
| Expressions.ParseExactly | parse.y:194-209 | the parser accepts exactly what is written so, and gives the tree of that |
| Arith.Tconv | conv.c:174-223 | the printer puts out the printed form, after what the buffer held |
| Arith.TconvOp | conv.c:195-223 | the loop over operands, with its two tables of precedences |
| TreeNodes.Node.Append | syntax.c:31-48 | an operand list grows at its end in place |
| TreeNodes.MkOpInPlace | syntax.c:243-255 | the in-place mkop gives the tree of the functional one, reusing its first argument only |
| TreeNodes.MkNegInPlace | syntax.c:257-272 | the in-place mkneg gives the tree of the functional one, a literal negated where it stands, otherwise from new nodes and the argument's |
| ArithEval.TruncatingDivision | glom.c:235-251 | quotient and remainder are those of section 6.5.5 of ISO/IEC 9899 |
| ArithEval.MulGuard | glom.c:216-223 | the quotient checks hold exactly when the product fits |
| ArithEval.DoOp | glom.c:188-258 | exact, or an error exactly when the result does not fit or the divisor is zero, or undefined in C exactly for the two cases listed |
| ArithEval.UndefinedAt | glom.c:203-224 | both cases happen: 0 minus the smallest integer, and 5 times -1 |
| ArithEval.Arithmefy | glom.c:287-351 | evaluates a tree as the specification does, effects of its words in order |
| ArithEval.ArithmefyOp | glom.c:295-319 | the accumulator loop is a left fold |
| ArithEval.MkOpMeaning | syntax.c:243-255 | evaluating mkop's node is evaluating the two operands in turn, failures and effects included |
| ArithEval.BuildMeaning | parse.y:202-209 | flattening and folding signs preserve the meaning of every expression |
| ArithEval.TypedMeaning | glom.c:287-351 | what is typed as an expression evaluates to its meaning |
| ArithEval.TypedComparison | glom.c:320-348 | what is typed as a comparison answers 1 or 0 as its two sides compare |
| ArithEval.OperatorsYield | glom.c:188-258 | a value is the sum, difference, product, or the quotient or remainder toward zero |
| EnvNames.Fconv | conv.c:355-368 | the encoder |
| EnvNames.Nconv | conv.c:371-388 | the decoder, including where it reads past the end |
| EnvNames.NameRoundTrip | conv.c:355-388 | decoding an encoded name gives the name, for every name |
| EnvNames.EncodedIsIdentifier | conv.c:361-366 | an encoded name has letters, digits and underscores only and starts with no digit |
| EnvNames.UnchangedExactly | conv.c:361-366 | a name stands for itself exactly when it has letters, digits and single underscores only and starts with no digit |
| EnvNames.OverrunExactly | conv.c:375-383 | the decoder reads past the end exactly for names that end in two underscores, or in those and one hexadecimal digit |
| EnvNames.DecoderCanOverrun | conv.c:375-383 | the name __ is one of them |
| Splitting.Splitter.Start | split.c:14-37 | whatever was split before, the table says exactly what separates |
| Splitting.Splitter.SplitstringR | split.c:41-82 | consumes up to the next separator inside a word, or everything |
| Splitting.Splitter.Splitstring | split.c:84-91 | consumes a whole chunk |
| Splitting.Splitter.Endsplit | split.c:93-104 | gives the words in order and clears the splitter |
| Splitting.Splitter.Fsplit | split.c:106-118 | splits each element and gives all pieces in order |
| Splitting.Splitter.Bqinput | prim-io.c:350-366 | the words of what was read depend only on the concatenation of the chunks |
| Splitting.OnlyConcatenationMatters | split.c:41-82 | so for every list of chunks, coalescing or not |
| Splitting.WordsHoldAll | split.c:14-82 | the words together are the text without the bytes of the separator string and the terminator |
| Splitting.CoalescingIsMaximalRuns | split.c:61-73 | a coalescing split gives the maximal separator-free runs, all of them, in order |
| Splitting.FieldsAndSeparators | split.c:58-79 | fields hold no separator and, woven with the separators, are the text |
| Splitting.FieldsOfWeave | split.c:58-79 | splitting undoes weaving, so the fields are the only such ones |
| Splitting.FieldsAround | split.c:64-68 | the fields on both sides of a separator are found independently |
| Splitting.FlattenOfFsplit | prim-etc.c:81-89 | joining a split list at its separator gives what joining the list gives |
| Splitting.FsplitOfFlatten | split.c:106-118 | splitting a joined list gives it back exactly when it has an element and none holds the separator |
| Splitting.Flatten | conv.c:8-20 | prints the separator between elements only |
| EnvLists.Wconv | conv.c:391-407 | the encoder of lists |
| EnvLists.ImportCell | var.c:385-420 | the loop over one word, which looks at the word as it was at first |
| EnvLists.Importvar | var.c:375-422 | the decoder of lists |
| EnvLists.NothingToDo | var.c:382-382 | a text without an escape needs no second look |
| EnvLists.ScanElement | var.c:389-418 | one escaped escape is undone; with two the stale word brings one back |
| EnvLists.FirstCell | var.c:389-418 | the cell of an element is right exactly when at most one of its bytes needed an escape |
| EnvLists.ImportOfExport | var.c:375-422 | importing an exported list gives it back exactly when it has an element and none has two bytes that need an escape |
| EnvLists.InitEntry | var.c:434-457 | an environment string is divided at its first equals sign, decoded and imported; one without is kept, and a protected shell ignores functions and settors |
| EnvLists.FromInsideExactly | var.c:434-457 | the names a protected shell ignores start with fn- or set- |
| EnvLists.EntryRoundTrip | var.c:9-10 | an exported variable is found under its name, and its list under the condition above |
| Lexing.Lexer.LexWord | token.c:227-284 | reads the longest word and recognises keywords |
| Lexing.WordExactly | token.c:227-284 | the word is the longest one without the bytes that end words, an equals sign aside where it may stand, and the keywords are the seven listed |
| Lexing.Lexer.LexQuoted | token.c:346-363 | reads a quoted string, doubled quotes included, or fails at the end of input |
| Lexing.Lexer.LexEscape | token.c:378-426 | reads one backslash escape or rejects it |
| Lexing.NumericEscape | token.c:387-407 | digits after a backslash, or after an x, are read as far as they go and stand for the byte with the number they write; zero is refused |
| Lexing.LetterEscape | token.c:379-412 | seven letters stand for control bytes, other letters and digits are refused, anything else is itself |
| Lexing.Lexer.LexNumber | token.c:388-407 | reads the digits of a numeric escape |
| Lexing.Lexer.Yylex | token.c:220-454 | blanks, continued lines, free carets and the tokens above, in the order the lexer tries them |
| Quoting.Sconv | conv.c:281-338 | the printer of strings, in bare or quoting form |
| Quoting.PutQuoted | conv.c:296-335 | the loop over its three states |
| Quoting.ReadOctal | conv.c:312-312 | reading an unpadded octal escape comes to its byte, and then to what follows |
| Quoting.ReadEscape | token.c:379-412 | every escape the printer uses is read back as its byte, unless it is a number and an octal digit follows |
| Quoting.ReadQuoted | token.c:346-360 | a quoted piece is read up to the quote the printer closed it with, unless another quote follows |
| Quoting.ReadQuotingForm | conv.c:296-335 | the quoting form of any string is read as its pieces, joined by carets, exactly when what follows does not run on from the last piece |
| Quoting.ReadBare | conv.c:290-294 | a bare string is read as one word or keyword exactly when what follows does not belong to a word |
| Quoting.WordsOfTokens | parse.y:121-126 | the grammar joins the pieces of a printed string into that string |
| Quoting.ReadBack | conv.c:281-338 | a printed string is read back as itself, exactly when what follows it fits |
| Quoting.OctalRunsOn | conv.c:312-312 | without that condition an octal escape runs into the next digit |
| Quoting.Lconv | conv.c:8-20 | the printer of quoted lists |
| Quoting.ReadBackList | conv.c:8-20 | a list printed with blanks between is read back as that list of words |
| Variables.RenderNames | var.c:276-276 | strings of different variables differ |
| Variables.RenderWithout | var.c:30-39 | a list without captured bindings prints the same whatever the bindings hold |
| Variables.RefusedExactly | var.c:66-90 | the names refused are the empty one and the numbers other than 0 |
| Variables.LookupExactly | var.c:173-178 | finds the innermost binding of the name that the chain comes by, and nothing exactly when it comes by none |
| Variables.ExportedExactly | var.c:265-287 | a variable's string is in the environment once, unless it is empty, internal, called * or 0, or on the list of those not exported |
| Variables.LeqExactly | vec.c:52-54 | the order is that of the first byte that differs, a prefix first |
| Variables.SortSorts | vec.c:51-60 | sorting gives an ordered permutation |
| Scoping.LocalsRestore | eval.c:126-144 | a name assigned only inside local blocks for it has its old value afterwards, after a normal end or an exception |
| Scoping.AssignedExactly | var.c:169-198 | an assignment changes the innermost binding of the name and nothing else, or without one the variable of that name and nothing else |
| Scoping.ThrownExactly | except.c:20-43 | whether a program ends by an exception is settled by its text: a throw, or a refused name, that no handler is around |
| Scoping.UnmentionedStays | eval.c:126-144 | a name that is not mentioned keeps its value throughout, as a variable and as a binding |
| Scoping.LocalSees | eval.c:126-144 | inside its local block a name has the value given there |
| Scoping.OneAfterTheOther | except.c:20-43 | nothing after a throw is run |
| Scoping.HandlerTakesOver | es.h:520-543 | a handler runs exactly after a throw, from the state at the throw |
| VarStore.FindBindings | var.c:30-39 | finds a closure with captured bindings if there is one |
| VarStore.PutKeeps | var.c:185-197 | a new definition keeps every cached string right, and changes the environment only if the name is exported |
| VarStore.DropKeeps | var.c:192-192 | so does removing one |
| VarStore.RebindingKeeps | var.c:173-178 | after a lexical rebinding the cached strings without captured bindings are still fresh |
| VarStore.EnvKeeps | var.c:275-278 | a string kept or made by mkenv0 is fresh |
| VarStore.Store.constructor | var.c:359-372 | there are no variables at first and nothing is cached |
| VarStore.Store.Vardef | var.c:169-198 | assigns the innermost lexical binding of the name, or else the global variable, and nothing else; fails for a refused name |
| VarStore.Store.Varpush | var.c:200-233 | gives the name a new value and saves the old one on the stack |
| VarStore.Store.Varpop | var.c:235-263 | puts the saved value back, or removes the variable |
| VarStore.Store.Mkenv0 | var.c:265-287 | adds the fresh string of an exported variable, from the cache where it may |
| VarStore.Store.CollectAll | var.c:289-294 | gathers the strings kept from the start and one fresh string for each exported variable |
| VarStore.Store.Mkenv | var.c:289-305 | gives the sorted fresh strings, also when it takes the shortcut |
| VarStore.Store.VarScan | var.c:58-63 | a collection drops the string of a variable exactly when a rebinding may have changed it |
| VarStore.Store.ScanAll | var.c:58-63 | and so changes no variable |
| VarStore.Store.DoThrow | except.c:20-43 | pops exactly what was pushed since the handler was set |
| VarStore.Store.Run | except.c:13-43 | running any well-nested program does what it means, every environment asked for on the way is the right one, and after a throw the stack is the handler's |
| VarStore.Store.RunLocal | eval.c:126-144 | a local block restores on both ways out |
| VarStore.Store.RunCatch | es.h:520-543 | a handler restores the state and then runs |
| VarStore.Store.RunProgram | except.c:13-43 | at the end of a whole program no push is left and the variables are what it means |

## Left out

- Collector: unblocked `gcalloc` that collects and retries, `gcreserve`, the debugging variants and the root macros; the roots are given lists of variables.
- Collector: addresses are a segment number and a rank in it, numbers are not reused, and `size_t` does not wrap around.
- Collector: Vector objects, whose scan routine skips unused slots; and what a program does with a copy that the scan missed.
- Gc.Heap.ScanFields: all scan routines are one, over the fields of an object in scanning order; only the variable's routine differs.
- Dict: a table size that overflows `int`, and so one with more slots than `unsigned long` has values; the association the callback of `dictforall` may change during the visit.
- Glob: `rangematch` steps through the flags even for the UNQUOTED quoting; all of it counts as raw here.
- Glob: `listmatch`, directory reading and home expansion.
- Descriptors: failures of `dup` and `dup2`, and the loop of `closefds` that closes registered descriptors after the replay.
- Descriptors.Shell.GrowTable: the size of the registered list and memory failures.
- Arith.Tconv: tokens rather than characters are printed, so that blanks between them are not said; floating point numbers are left out.
- Arith.TconvOp: likewise tokens.
- ArithEval.DoOp: the floating branches, which depend on the C floating environment.
- ArithEval.Arithmefy: integers only; command and call words are one opaque word whose evaluation is a parameter.
- TreeNodes.Node.Append: the operand list is a field, so that the walk to its end is not modelled.
- Lexing.Lexer.LexWord: arithmetic mode, in which a word is a number.
- Lexing.Lexer.LexEscape: numeric escapes that overflow `int`.
- Lexing.Lexer.LexNumber: likewise, the number is unbounded.
- Lexing.Lexer.Yylex: arithmetic mode, names after a dollar sign, redirections, pipes and the other punctuation; what an error skips of its line.
- Quoting.Lconv: terms that are closures, which are printed as code and then quoted.
- EnvNames: letters and digits are those of the C locale.
- Splitting: the lists are sequences, so the cells that move during a collection are not modelled; `splitstring` reads beyond a chunk of raw bytes when it splits into characters, which no caller does.
- EnvLists: growth of the vector of kept strings.
- Variables: settor functions, strings converted to closures in place, changes of the list of names not exported, and marking all variables internal after the start; each of these can leave the cache stale.
- Variables: the lexical bindings of a run exist from its start, each holding what it is made with, which no closure sees before it is made.
- Scoping: programs are built from constants; choosing and repeating commands is left to the choice of the program, since every run is one of these.
- VarStore.Store.Vardef: settor functions.
- VarStore.Store.Varpush: settor functions and the root list.
- VarStore.Store.Varpop: settor functions and the root list.
- VarStore.Store.DoThrow: the evaluation depth and the root list, which a handler also restores.
- VarStore: the dictionary of variables is a map, which module Dict justifies; `qsort` is an insertion sort.
- Processes, signals, the line editor, history and the shell scripts.
