# A verified model of the COBOL compiler's layout, code generation and preprocessor

This project models the parts of the compiler where a mistake would silently change what a COBOL
program does, and proves what each of them is there for:

* **Record layout** (`cobc/field.c`): level numbers become a tree, REDEFINES is resolved, and every
  item gets a byte offset, a size and storage.
* **Code generation** (`cobc/codegen.c`): the emitted C is a small target language with an interpreter
  - labels and gotos with an explicit frame stack, `memset`/`memcpy`, `for` loops - and the generators
  are proved to preserve the meaning of the COBOL statement: PERFORM, PERFORM VARYING, INITIALIZE,
  VALUE, SEARCH ALL. The caches, the in-place list sort and the collating tables it uses are modelled
  as well.
* **Preprocessor** (`cobc/pplex.c`): reading fixed-form lines (`ppinput`, `ppopen`) and COPY REPLACING
  (`ppecho`), both with the state they keep between calls.

Code that updates fields, lists, buffers or arrays in place is modelled by classes and methods with
loops (`RecordFields`, `FieldTree`, `CacheSort`, `Interning`, `PerformCode.Codegen`,
`ReplaceText.Preprocessor`, `LineReader.Reader`, `ValueCode`, `Alphabet`). Each of those methods is
proved equal to a function on values, or to its effect, and the properties are proved about these.
`dafny verify dfyconfig.toml` checks everything.

| files | what they hold |
|---|---|
| PerformSource, PerformCode, PerformProof, PerformTheorems | PERFORM: meaning, emitted frame-stack code, simulation, results |
| Records, ItemSizes, RecordLayout, RecordFields, Redefines | layout on values, what sizes are for, its soundness, the in-place version, REDEFINES |
| FieldLevels, FieldTree | level numbers as trees, and the linking of entries |
| Addressing | subscripted references |
| Initialize, InitializeProof, InitializeTheorems, InitializeValues, InitializeOccurs, InitializeOutside | INITIALIZE and the initial state of storage |
| ValueCode | string literals and the fills of VALUE |
| Varying, VaryingTheorems | PERFORM UNTIL / VARYING / AFTER |
| SearchAll | SEARCH ALL |
| MergeRuns, CacheSort, Interning | list sort, comparators, attribute and literal caches |
| Alphabet | ALPHABET tables |
| ReplaceText, ReplaceStandard, ReplaceLists | COPY REPLACING |
| LineReader, PhysicalLines, Indicators, LineBalance, LiteralLines, LogicalLines, SplitLiterals | reference format: lines, columns, line numbers, continuation, literals |
| Optional, Sequences, StrCase, Modulus | Option, repeated values, `strcasecmp`, remainders |

## Where the code does not do what one would expect

Each of these is kept as the code has it. The lemma named gives the exact condition under which the
expected property holds, or an input that breaks it.

* `SearchAll.RightIffPrefix`: a WHEN condition that skips a key of the table makes the binary search
  miss matches; without a gap it is right on every sorted table.
* `SearchAll.WholeTableIffMinimumOne`: for OCCURS m TO n the search starts at occurrence m. It covers
  the whole table just when m is 1.
* `SearchAll.KeptMeansWhenIff`: of two values that a WHEN condition asks of one key only the last is kept
  (`LastValueSearched` is one).
* `ReplaceStandard.LeftmostIffOneWord`: after a partial match fails, `ppecho` lets go of all it held
  back, so a match that starts inside it is missed ("A A B" with "A B" to be replaced). One rule alone
  replaces from left to right on all texts just when its old text is one word, once or repeated.
* `SplitLiterals.SplitsComeBackIff`: a line that leaves a literal open is padded to column 72 whatever
  `text-column` is, so the trailing columns that are kept are those up to the text column just when it
  is 72. `SplitLiterals.FullLinesIff`: a literal on full lines comes back whole just when it is at least 72.
* `SplitLiterals.SplitComesBack`: a literal may be broken anywhere but between the two marks of a doubled
  one before the last column; there it is closed (`DoubledMarkBroken` is one).
* `LiteralLines.EmptyIffLonelyMark`: a continuation line that only reopens a literal in the last column
  gives the scanner an empty text, which reads as the end of the file (`LonelyMarkAt72` is one).
* `LogicalLines.MeantIffNotMisjoined`: a line with a hyphen in column 7 that is passed over makes the next
  line with text a continuation, without a hyphen of its own: it is joined to the word before it
  (`WordJoined`), or refused. `ReadAsMeantIff`: a file is read as its lines say just when this never happens.
* `LogicalLines.LiteralStateIff`: behind a literal that was closed in the last column such a line also loses
  its first mark, and the open literal is the wrong one (`LiteralMisread`); otherwise it is always right.
* `LogicalLines.TrackInStep`: the end of a copy file restores the open quotation mark but not the flag for
  the last column, and the state is right again just when the flag is what it was (`FlagLeftSet`: it is not).
* `Alphabet.MeantIffAscending`: the loop for a descending THRU runs no turn; the table is the one meant
  just when every range ascends.
* `Alphabet.NoGapsIff`: giving a character twice leaves a rank empty unless another character shares it
  (`TwiceLeavesGap` is one).
* `VaryingTheorems.OrderMattersFromThree`: from three phrases on, the variable of the third is set only
  when the second loop is entered, not before the first condition.
* `Redefines.OnOriginalsIff`: an item may redefine its own name, and is then linked to itself
  (`SelfRedefined` is one). `DeclaredEndlessIff`: with indirect redefinitions allowed, a later REDEFINES of
  that name, at the same level, follows the link for ever (`EndlessRedefinition` is one), and no other does.
* `RecordLayout.LayoutSoundIff`: SYNCHRONIZED on a group moves the group and not its items. A record is laid
  out soundly just when no group is moved further than the padding its own first item gets
  (`SyncGroupUnsound` is one that is).
* `ItemSizes.CompXSizeLeast`: the size of a COMP-X item has no room for a sign with 7 or 12 digits, and with
  every other number of digits it has.
* `RecordLayout.RedefinesAligned`: a synchronized redefinition gets no padding of its own, and is aligned
  wherever it stands just when its original's alignment is a multiple of its own
  (`RedefinitionMisaligned` is one that is not).
* `InitializeOccurs.InitialStateIff`: of an OCCURS item at level 01 or 77 that is filled or set as a whole,
  only the first occurrence gets its initial state (`FirstOccurrenceOnly` is one).
* `InitializeOccurs.InitializeIff`: INITIALIZE WITH FILLER ... TO VALUE sets every item but an OCCURS item
  below level 01 that has a VALUE (`NoCodeForValue` is one).
* `InitializeOutside.ConfinedIff`: INITIALIZE WITH FILLER of one occurrence at level 01 or 77 writes into all
  of them just when it goes part by part (`FirstOverwritten` is one).
* `PerformTheorems.DialectsDiffer`: the two PERFORM dialects differ on exactly one kind of step.

## Model

| member | source | states |
|---|---|---|
| PerformCode.Codegen.OutputPerformCall | cobc/codegen.c:2712-2754 | the code of a call and the new label counter and label cache: a fresh label, and with P_switch a call number one above the newest |
| PerformCode.Codegen.OutputStmt | cobc/codegen.c:2855-2895 | exit tests and C labels appear only for the labels that need them |
| PerformCode.Codegen.OutputProgram | cobc/codegen.c:2977-3110 | the whole statement list is emitted in order, with one counter and one label cache |
| PerformSource.StepKeepsReachable | cobc/codegen.c:2756-2795 | every step keeps: base activation ends at no label, each one above it was pushed by the PERFORM before its return point |
| PerformSource.RunKeepsBase | cobc/codegen.c:4040-4041 | over any run in either dialect the base frame is never popped or changed |
| PerformSource.EvalMonotone | cobc/codegen.c:2712-2754 | the big-step meaning of PERFORM has one outcome, whatever the fuel |
| PerformSource.EvalIsRun | cobc/codegen.c:2756-2795 | whenever the big-step meaning has an outcome, the activation stack reaches it |
| PerformSource.RunIsEval | cobc/codegen.c:2756-2795 | conversely, a run that comes back to its caller, or stops, is the big-step outcome |
| PerformProof.LabelsOnce | cobc/codegen.c:2712-2754 | every label of the emitted code is defined exactly once |
| PerformProof.SwitchFinds | cobc/codegen.c:4391-4405 | P_switch sends the call number of each call to that call's own return label: call numbers are unique |
| PerformProof.FindsReturn | cobc/codegen.c:2730-2750 | the return address stored by a call leads to the statement behind it, with either dispatch |
| PerformProof.ScanTopmost | cobc/codegen.c:2780-2794 | the OSVS scan finds the topmost frame of the label, or none when no frame has it |
| PerformProof.EndedIsNeeded | cobc/codegen.c:2861-2864 | a label that is the end of no THRU ends no reachable activation, so its exit test is not needed |
| PerformProof.SimulateStep | cobc/codegen.c:2712-2795 | each step of the source machine is matched by steps of the emitted code that keep the relation between activations and frames |
| PerformTheorems.SimulateRun | cobc/codegen.c:2712-2795 | so is every run of any length, in both dialects and both dispatch schemes |
| PerformTheorems.CoverRun | cobc/codegen.c:2712-2795 | and every run of the emitted code is covered by a run of the source machine |
| PerformTheorems.NeverBroken | cobc/codegen.c:4040-4041 | no run jumps to a missing label, meets an unknown return code or pops the base frame |
| PerformTheorems.PerformCorrect | cobc/codegen.c:2712-2795 | PERFORM lb THRU le runs from lb to the exit of le at its own activation; then control is behind the call, frame_ptr is restored, older frames are unchanged and the store is the body's |
| PerformTheorems.PerformDiverges | cobc/codegen.c:2712-2795 | when the meaning has no outcome the code stays above the caller's frame for ever |
| PerformTheorems.OptionsRunAlike | cobc/codegen.c:2730-2750 | computed goto or P_switch, all exit tests or only those needed: runs are the same but for code addresses |
| PerformTheorems.OsvsScan | cobc/codegen.c:2780-2794 | in every reachable state an OSVS exit leaves frame_ptr alone or moves it to the topmost matching frame |
| PerformTheorems.DialectsDiffer | cobc/codegen.c:2757-2795 | one step differs between the dialects exactly at the exit of a label held by an older frame but not the newest |
| PerformTheorems.DialectsAgree | cobc/codegen.c:2757-2795 | runs that never cross such an exit are step for step the same |
| Records.StorageFits | cobc/field.c:1008-1014 | after any number of 01 records are validated, each fits the storage it is addressed through, and no storage is larger than its largest user |
| ItemSizes.BinarySizeLeast | cobc/field.c:880-917 | a BINARY or COMP-5 item of up to 18 digits has the least size that binary-size allows and that holds every value of its picture, signed or not |
| ItemSizes.CompXSizeLeast | cobc/field.c:870-879 | a COMP-X item of up to 18 digits has the least size that holds every unsigned value; it holds every signed one as well, if and only if the digits are not 7 or 12 |
| ItemSizes.AcceptedBinary | cobc/field.c:880-887 | a BINARY or COMP-5 item is accepted if and only if its size is at most 8 |
| ItemSizes.AcceptedGroup | cobc/field.c:860-866 | a group of accepted items is accepted if and only if its size is a value of an int |
| ItemSizes.PackedSizeLeast | cobc/field.c:925-927 | a COMP-3 item has the least number of bytes whose half-bytes hold its digits and the sign |
| ItemSizes.DisplaySize | cobc/field.c:918-924 | a DISPLAY item has a byte for each character and one for a separate sign |
| ItemSizes.HostSizes | cobc/field.c:928-945 | indexes, floating point and addresses have the sizes of the host |
| ItemSizes.PlacedFirst | cobc/field.c:821-857 | an item that is no redefinition starts where the running size ends, or, synchronized, at the first multiple of its own size, of an int or of an address from there |
| RecordLayout.LayoutSoundIff | cobc/field.c:793-866 | for every record that draws no error: items lie inside their groups, at every depth, what is no redefinition starts behind everything before it, redefinitions start with their originals and synchronized items are aligned, if and only if SYNCHRONIZED moves no group further than its own first item is moved |
| RecordLayout.MovedSound | cobc/field.c:821-856 | an item placed at one offset and then moved by its padding is laid out soundly if and only if its first item is moved as far at that offset, and all groups below keep their items |
| RecordLayout.LayoutSound | cobc/field.c:793-866 | in particular all records whose SYNCHRONIZED clauses are on elementary items |
| RecordLayout.PlaceTurn | cobc/field.c:797-857 | one turn of the loop over sisters keeps what is placed; the running size then ends with the new item, or has grown by what a redefinition is larger than its original |
| RecordLayout.PlaceInOrder | cobc/field.c:797-857 | no item overlaps one that follows it and is no redefinition, with any number of larger redefinitions |
| RecordLayout.PlaceAligned | cobc/field.c:798-856 | offsets of synchronized items are multiples of their alignment; those of redefinitions as well when the alignment of their original is a multiple of theirs |
| RecordLayout.SyncGroupUnsound | cobc/field.c:821-856 | a record with SYNCHRONIZED on a group, accepted, whose items are left outside the group |
| RecordLayout.RedefinesAligned | cobc/field.c:798-818 | an elementary item that redefines another is aligned in every group and at every offset if and only if the alignment of its original is a multiple of its own |
| RecordLayout.RedefinitionMisaligned | cobc/field.c:798-818 | an accepted group with a synchronized halfword, redefining a PIC X(2), at an odd offset |
| RecordFields.ComputeSize | cobc/field.c:776-964 | the in-place walk writes exactly the offsets and sizes of the layout into every field of the tree, and reports an error just when a binary item has more than 18 digits, a redefinition, also of an EXTERNAL record, is larger than its original where that is not allowed, or a group's size does not fit an int |
| RecordFields.PlaceChildren | cobc/field.c:797-857 | the loop over sisters with its running size |
| RecordFields.PlaceItem | cobc/field.c:818-856 | an item is placed with its subtree, then moved by its padding |
| RecordFields.PlaceRedefinition | cobc/field.c:798-817 | a redefinition is placed at its original, and the running size grows by what it is larger |
| RecordFields.ValidateField | cobc/field.c:1006-1014 | a record's fields and the storage of the record or its original after cb_validate_field |
| Redefines.ResolveRedefines | cobc/field.c:234-296 | the loops find the first item of the name, refuse on level or indirect links, and follow links to an original |
| Redefines.ResolvesTo | cobc/field.c:234-296 | a name stands for the first item that has it, or that item's original; it is refused for another level, 66 or 88, or a redefinition where that is not allowed |
| Redefines.Chase | cobc/field.c:291-295 | following the links ends at an original definition, no later than the item |
| Redefines.LastLink | cobc/field.c:258-267 | the item is linked to an earlier original if and only if an earlier item has the name |
| Redefines.OnOriginalsIff | cobc/field.c:234-296 | a whole group is linked to earlier originals if and only if every name redefined belongs to an earlier item |
| Redefines.SelfRedefined | cobc/field.c:258-296 | an accepted group with an item that redefines its own name, and is linked to itself |
| Redefines.EndlessIff | cobc/field.c:258-296 | the link loop never ends if and only if indirect redefinitions are allowed, the levels agree, and the chain from the first item of the name ends at an item linked to itself |
| Redefines.DeclaredEndlessIff | cobc/field.c:258-296 | behind any accepted group: if and only if, in what was written, the first item of the name redefines a name that no item before it has |
| Redefines.EndlessRedefinition | cobc/field.c:291-295 | two entries for which the loop never ends |
| Redefines.FollowsOriginal | cobc/field.c:456-462 | the check passes if and only if only redefinitions stand between |
| Redefines.EndsBeforeNext | cobc/field.c:456-462 | then a redefinition starts with its original and ends before the next item that is none |
| FieldLevels.FlattenForest | cobc/field.c:117-221 | the tree of any level sequence, read in preorder, is the sequence |
| FieldLevels.Rebuilds | cobc/field.c:117-221 | the levels of any well-formed records build those records again |
| FieldLevels.ForestAdds | cobc/field.c:158-221 | one more entry changes the tree only at the end of its last path |
| FieldLevels.SpineIsPath | cobc/field.c:191-197 | the groups the last entry is in are those whose span reaches the end of the sequence |
| FieldLevels.AcceptsBySpine | cobc/field.c:117-221 | the entry-by-entry rule in terms of the tree: deeper than the last, or of a level on the last path |
| FieldLevels.AcceptedIffWellFormed | cobc/field.c:117-221 | a sequence is accepted if and only if its tree is well formed: 01 and 77 at the top, nothing under 77, equal and deeper levels in every group |
| FieldLevels.RoundTrip | cobc/field.c:117-221 | well-formed records write out to an accepted sequence that reads back as them |
| FieldTree.LinksAreTree | cobc/field.c:158-221 | in an accepted sequence the child and sister links lead through exactly the trees that the levels describe |
| FieldTree.ParentsLeadBack | cobc/field.c:158-221 | the parent links lead back from a first item to its group, and from a sister to the same group |
| FieldTree.Builder.AddEntry | cobc/field.c:81-221 | an entry is accepted exactly by that rule; the children, sister and parent links of all entries are then those of the tree; an error changes nothing |
| FieldTree.Builder.Founder | cobc/field.c:158-167 | the record of the last entry |
| FieldTree.Builder.FindLevel | cobc/field.c:191-197 | climbing the parents finds the group of the level, or there is none |
| FieldTree.GoesBeside | cobc/field.c:186-190 | linking as a sister changes one link only |
| FieldTree.GoesInto | cobc/field.c:182-185 | linking as a child changes one link only |
| Addressing.OutputData | cobc/codegen.c:434-472 | the terms the loop emits, with the subscripts in the order given, add up to the address |
| Addressing.PrefixInside | cobc/codegen.c:354-472 | each further level of a reference stays inside the occurrence selected so far |
| Addressing.InBounds | cobc/codegen.c:354-472 | with subscripts in range a reference stays inside the record's storage, REDEFINES included |
| Addressing.References | cobc/codegen.c:354-472 | references that part at some level address disjoint bytes |
| Addressing.LeavesDisjoint | cobc/codegen.c:354-472 | different elementary items or occurrences, none a redefinition, never share a byte |
| Initialize.OutputInitializeCompound | cobc/codegen.c:1914-2001 | the loop over items, with merged runs, gives the code of the specification |
| Initialize.OutputChild | cobc/codegen.c:1914-2001 | an item's own code, in a loop when it OCCURS |
| Initialize.OutputInitialize | cobc/codegen.c:2002-2031 | the code for each classification; part by part, an OCCURS item at level 01 or 77 is looped over unless for a statement |
| InitializeProof.DefaultHasChar | cobc/codegen.c:1521-1625 | an elementary item classified DEFAULT has a uniform character |
| InitializeProof.CorrectLocal | cobc/codegen.c:2002-2043 | whether an item is initialised right depends on its own bytes only |
| InitializeProof.UniformFill | cobc/codegen.c:2015-2023 | one memset over a group whose items share a character initialises every item in it, at every depth and occurrence |
| InitializeProof.RunInitialises | cobc/codegen.c:1914-1990 | so does one memset over a run of neighbouring items |
| InitializeProof.LoopInitialises | cobc/codegen.c:1914-2001 | the loop over occurrences initialises each of them |
| InitializeProof.CompoundInitialises | cobc/codegen.c:1914-2001 | the code of a group initialises all items in it, and writes nothing outside |
| InitializeTheorems.InitializeCorrect | cobc/codegen.c:1914-2031 | INITIALIZE, and the initial state, leave every part of the referenced item that is no redefinition as its own initialisation says. Nothing outside it is written, or, where the code loops over a whole record that OCCURS, all its occurrences are initialised and nothing outside them is written |
| InitializeTheorems.LeafInitialised | cobc/codegen.c:1914-2031 | every elementary item, in every occurrence, has the bytes that initialising it alone gives; items left alone keep theirs |
| InitializeValues.InitializeMeans | cobc/codegen.c:1521-1625 | phrase by phrase, every elementary item under no redefinition and in no group with a VALUE of its own, in every occurrence and of every size: it holds its VALUE; or, FILLER in a statement, what it held; or what REPLACING gives; or by default binary zero, zero digits or spaces as its usage and picture say; or what it held |
| InitializeValues.LeafKinds | cobc/codegen.c:1521-1592 | each classification of an elementary item, by VALUE, FILLER, REPLACING category and default |
| InitializeOccurs.InitializeIff | cobc/codegen.c:1541-1547 | whatever the VALUE and storage: the referenced item ends up as its own initialisation says, if and only if it is not an OCCURS item below level 01 with a VALUE that INITIALIZE WITH FILLER should set, or has no bytes |
| InitializeOccurs.NoCodeForValue | cobc/codegen.c:1541-1547 | such an item, with no code at all |
| InitializeOutside.ConfinedIff | cobc/codegen.c:1927-1932 | nothing outside the referenced occurrence is written, whatever the VALUEs and storage, if and only if it is not an OCCURS item at level 01 or 77 that is initialised part by part outside a statement without FILLER, or has one occurrence only, or nothing in it is written |
| InitializeOutside.FirstOverwritten | cobc/codegen.c:1927-1932 | INITIALIZE G (2) WITH FILLER overwrites G (1) |
| InitializeOccurs.InitialStateIff | cobc/codegen.c:1924-1931 | every occurrence of an item at level 01 or 77 gets the initial state if and only if there is only one, or the item is initialised part by part, or nothing is to be written |
| InitializeOccurs.FirstOccurrenceOnly | cobc/codegen.c:2014-2020 | an item with two occurrences of which one is filled |
| ValueCode.OutputString | cobc/codegen.c:297-324 | the C literal decodes to the bytes it was made from |
| ValueCode.Decodes | cobc/codegen.c:307-322 | both spellings, escaped or octal, decode to the bytes |
| ValueCode.ValueEmitter.OutputValue | cobc/codegen.c:1805-1878 | the emitted store, memset, memcpy or memcpy with memset puts exactly the padded or cut-off literal into the item, and changes nothing else |
| ValueCode.ValueEmitter.OutputMixed | cobc/codegen.c:1848-1878 | a run of more than two equal bytes at the end of eight or more is set, the rest copied; either way the item holds the bytes of the buffer |
| ValueCode.ValueEmitter.Fill | cobc/codegen.c:1825-1831 | the buffer holds the padded literal, whatever it held before |
| ValueCode.ValueEmitter.CountSame | cobc/codegen.c:1848-1856 | the run of equal bytes at the end |
| ValueCode.FillsByBoth | cobc/codegen.c:1856-1870 | memcpy and memset together fill the item |
| ValueCode.CopiesRepeat | cobc/codegen.c:1677-1687 | the copy loop repeats the literal |
| ValueCode.OutputAllLiteral | cobc/codegen.c:1648-1696 | byte k of an ALL literal is byte k mod length, for every k and every size |
| Varying.Turn | cobc/codegen.c:2811-2853 | what a turn of an emitted loop does, from its statements |
| VaryingTheorems.LoopRuns | cobc/codegen.c:2811-2853 | a loop that ends takes the flowchart to where the loop around it goes on |
| VaryingTheorems.LoopEnds | cobc/codegen.c:2811-2853 | when the flowchart gets out, every loop ends, with the same store and body trace |
| VaryingTheorems.LoopsAreFlowchart | cobc/codegen.c:2811-2885 | to any depth, TEST BEFORE and AFTER: the loops end with a store and body trace if and only if the flowchart does |
| VaryingTheorems.UpToTwo | cobc/codegen.c:2826-2829 | one or two phrases: the same as setting all variables before the first condition |
| VaryingTheorems.OrderMattersFromThree | cobc/codegen.c:2826-2829 | this holds for all statements of a depth if and only if the depth is at most two |
| SearchAll.SearchSetKeys | cobc/typeck.c:5422-5455 | the values written into the keys, or an error |
| SearchAll.AcceptedIffAsksOnly | cobc/typeck.c:5422-5455 | a WHEN condition is accepted if and only if it is made of comparisons of keys that the table has; the order of no key is changed |
| SearchAll.LastIsKept | cobc/typeck.c:5437-5447 | the value of a key is the last one that the condition asks of it |
| SearchAll.KeptMeansWhenIff | cobc/typeck.c:5422-5455 | a row has the values that are kept just when it meets the WHEN condition, for all rows, if and only if no key is asked for two values |
| SearchAll.LastValueSearched | cobc/typeck.c:5422-5455 | KEY = 1 AND KEY = 2 searches for 2 |
| SearchAll.RetIsSign | cobc/codegen.c:1397-1473 | after the short-circuited condition ret is the lexicographic sign of the row, and the condition holds just when it is 0 |
| SearchAll.BuildEvals | cobc/typeck.c:5457-5488 | the condition built key by key, operands swapped for descending keys |
| SearchAll.SignMonotone | cobc/codegen.c:2100-2160 | the sign does not fall along a sorted table |
| SearchAll.RunSearchAll | cobc/codegen.c:2100-2160 | the loop tests only occurrences occurs_min to count, at most as many as the binary digits of their number, and stops at the one it found |
| SearchAll.SearchRight | cobc/codegen.c:2100-2160 | on a sorted table it finds a match if and only if there is one in that range |
| SearchAll.WhenFound | cobc/typeck.c:5422-5488 | from the WHEN condition as written: when it names keys without a gap and one value for each, an occurrence that meets it is found, or there is none in the range |
| SearchAll.OrderMeans | cobc/codegen.c:2100-2160 | the rows of a sorted table: at the first key where two differ the lower value comes first when the key is ascending, and the higher when it is descending |
| SearchAll.RightIffPrefix | cobc/codegen.c:2100-2160 | right on all sorted tables if and only if the condition skips no key |
| SearchAll.WholeTableIffMinimumOne | cobc/codegen.c:2111 | right about occurrences 1 to count, in all tables with at least occurs_min of them, if and only if occurs_min is 1 |
| MergeRuns.MergeStable | cobc/codegen.c:4673-4697 | merging keeps the order of equal entries |
| MergeRuns.PassDoubles | cobc/codegen.c:4657-4706 | a pass over sorted runs leaves sorted runs twice as long |
| MergeRuns.SortCorrect | cobc/codegen.c:4637-4706 | for every total preorder the result is a sorted, stable permutation |
| CacheSort.MergeTwo | cobc/codegen.c:4673-4697 | the inner loop relinks two runs into their merge, behind what is merged already |
| CacheSort.OnePass | cobc/codegen.c:4657-4706 | a pass in place; one merge or none exactly when the list is at most two runs |
| CacheSort.ListCacheSort | cobc/codegen.c:4637-4706 | the sort ends, and relinks exactly the nodes of the input into the sorted list |
| CacheSort.FieldCacheCmpOrders | cobc/codegen.c:4611-4623 | the field comparator is a total preorder |
| CacheSort.BaseCacheCmpOrders | cobc/codegen.c:4625-4635 | so is the comparator of storage |
| CacheSort.BaseCacheAscends | cobc/codegen.c:4625-4635 | storage comes out in ascending order of its numbers |
| CacheSort.FieldCacheAscends | cobc/codegen.c:4611-4623 | fields come out program by program, alphabetically whatever the case, with ascending numbers in each |
| CacheSort.FieldCacheSorted | cobc/codegen.c:4999-5001 | the field cache comes out sorted by program and number, with ties in order |
| StrCase.StrCaseCmpZero | cobc/codegen.c:4611-4623 | strings compare equal if and only if they are but for case |
| StrCase.StrCaseCmpOrder | cobc/codegen.c:4611-4623 | a negative answer if and only if the first string is before the second in a dictionary |
| StrCase.SameLetterIff | cobc/codegen.c:4611-4623 | two characters are the same if and only if they are equal or one letter in both cases |
| Interning.AttrReadsBack | cobc/codegen.c:605-617 | the attribute of a literal with its bytes gives back its value: sign, digits and scale, or text and ALL |
| Interning.Cache.Lookup | cobc/codegen.c:559-590 | the number found or given, and the new cache, as a map |
| Interning.LookupLiteral | cobc/codegen.c:696-733 | a literal enters its attribute and itself |
| Interning.Cache.Reverse | cobc/codegen.c:184-210 | the list is reversed in place, same nodes |
| Interning.InternedKeeps | cobc/codegen.c:559-590 | a lookup keeps keys and numbers one to one, and all earlier answers |
| Interning.SameIdIffSameKey | cobc/codegen.c:559-590 | over any sequence of lookups, two get the same number if and only if their keys are equal |
| Interning.DefinitionsComplete | cobc/codegen.c:4976-4997 | the definitions come out in ascending order, one for every number ever given, each with its key |
| Interning.DefinitionsNeedNoNewAttr | cobc/codegen.c:4999-5035 | writing the definitions of fields and constants, in any order, looks up only attributes that were defined before them |
| Alphabet.BuildTable | cobc/codegen.c:3597-3644 | the loops give each character its rank |
| Alphabet.RankUp | cobc/codegen.c:3608-3611 | an ascending range |
| Alphabet.RankDown | cobc/codegen.c:3613-3615 | the loop for a descending range, as written |
| Alphabet.UnlistedFollow | cobc/codegen.c:3639-3644 | ranks are below their number; unlisted characters follow all others, in native order |
| Alphabet.OneRankIffOneGroup | cobc/codegen.c:3617-3622 | with nothing repeated, one rank if and only if the same character or one ALSO group |
| Alphabet.NoGapsIff | cobc/codegen.c:3597-3644 | the ranks have no gap if and only if every group keeps a character that is not given again |
| Alphabet.TwiceLeavesGap | cobc/codegen.c:3628-3636 | the literal "AA" leaves the first rank empty |
| Alphabet.PermutationWithoutAlso | cobc/codegen.c:3597-3644 | without ALSO and repeats the table is a permutation of 0 to 255 |
| Alphabet.MeantIffAscending | cobc/codegen.c:3606-3616 | the table is the one the phrase means if and only if no range descends |
| ReplaceText.Compare | cobc/pplex.c:2897-2919 | one rule against the queue |
| ReplaceText.TryOutcome | cobc/pplex.c:2897-2930 | a match if and only if the rule's words begin the queue's, a wait if and only if the queue's words are a proper beginning of the rule's; a match takes the queue up to its last word |
| ReplaceText.Preprocessor.SetReplaceList | cobc/pplex.c:2422-2426 | another list is in force, and the queue stays |
| ReplaceText.Preprocessor.Echo | cobc/pplex.c:2880-2938 | queue and output after a call |
| ReplaceText.StepAccounts | cobc/pplex.c:2880-2938 | one call: tokens are shared out in order between echoed stretches, replaced stretches and the queue; what is kept waits for more of a rule in force |
| ReplaceText.FeedAccounts | cobc/pplex.c:2880-2938 | so for any number of calls under one list |
| ReplaceText.RunAccounts | cobc/pplex.c:2880-2938 | and over any run with any changes of the list |
| ReplaceLists.StepReplaces | cobc/pplex.c:2887-2930 | any list of rules with words: when the words that have come are those of a rule and every rule before it differs from them at a word, exactly its new text goes out and nothing waits |
| ReplaceLists.StepReplacesTwo | cobc/pplex.c:2916-2930 | words that the first fitting rule leaves over and that are those of a rule behind it are replaced as well |
| ReplaceLists.StepWaits | cobc/pplex.c:2887-2930 | while they are a proper beginning of a rule's words and no rule before it matches, nothing goes out and all waits |
| ReplaceLists.StepEchoes | cobc/pplex.c:2933-2936 | when every rule differs, all goes out unchanged |
| ReplaceLists.OldTextReplaced | cobc/pplex.c:2880-2938 | an old text of any number of words, with any blanks between, comes out as the new text of the first rule that does not differ from it |
| ReplaceLists.ReplacedInText | cobc/pplex.c:2880-2938 | so it does behind any text that leaves nothing waiting and before any other |
| ReplaceLists.BlankByCharacter | cobc/pplex.c:2897-2910 | tokens that begin with a blank or a newline do not count, and all others do |
| ReplaceStandard.OneWordLeftmost | cobc/pplex.c:2880-2938 | one word, once or repeated: the result on any text is replacement from left to right |
| ReplaceStandard.StutterMissed | cobc/pplex.c:2933-2936 | any other old text: an occurrence that goes through unreplaced |
| ReplaceStandard.LeftmostIffOneWord | cobc/pplex.c:2880-2938 | replacement from left to right, for all texts and new texts, if and only if the words of the old text are one word |
| ReplaceStandard.SingleWordsLeftmost | cobc/pplex.c:2880-2938 | any list of rules whose old texts are single words: the result on any text is replacement from left to right, by the first rule for each word |
| LineReader.Reader.GetLine | cobc/pplex.c:2658-2700 | a physical line: tabs, carriage returns, lines that are too long, end of file |
| LineReader.Reader.TakeText | cobc/pplex.c:2748-2866 | a line's text and the state behind it, or an error, or nothing |
| LineReader.Reader.Ppinput | cobc/pplex.c:2646-2878 | text, state and rest of the file after one call |
| LineReader.Reader.Ppopen | cobc/pplex.c:2444-2481 | pending newlines go back to the file that is left |
| LineReader.Reader.Resume | cobc/pplex.c:1402-1412 | the file and the quotation mark that were left |
| PhysicalLines.ReadAsColumns | cobc/pplex.c:2658-2700 | a line of at most 256 columns: tabs are blanks up to the next stop, the carriage return before the newline is dropped, all other characters are kept |
| PhysicalLines.CutOffOrLost | cobc/pplex.c:2658-2700 | a line that reaches column 256 is cut off there; a file that ends before a newline has no more lines |
| Indicators.LineByCharacters | cobc/pplex.c:2709-2803 | by its characters: a short line, '*', '/', or 'd' and 'D' without debugging lines is counted and passed over, blank text as well, ' ', and 'd' and 'D' with debugging lines, gives the text up to the text column, any other character than '-' is an error |
| Indicators.ContinuationByCharacters | cobc/pplex.c:2807-2831 | a continuation is refused if and only if it does not reopen an open literal with its mark, or one closed in the last column with two; else it gives the text behind |
| Indicators.LineAddsNewline | cobc/pplex.c:2704-2745 | a line without text, put anywhere into a file, changes one call by one newline and no other call |
| Indicators.PutBetween | cobc/pplex.c:2658-2700 | put between any lines of the file as text |
| LineBalance.LinesAreNewlines | cobc/pplex.c:2658-2700 | physical lines are the newlines of the file and the breaks in lines that are too long |
| LineBalance.CallBalances | cobc/pplex.c:2646-2878 | one call: newlines returned, pending and still to be read are conserved; an error loses its line |
| LineBalance.PushBackBalances | cobc/pplex.c:2449-2451 | newlines pushed back are lines again |
| LineBalance.StepBalances | cobc/pplex.c:2444-2481 | reads, COPY and ends of copy files each keep the balance of every open file; at its end a file has returned all its lines |
| LineBalance.RunBalances | cobc/pplex.c:2646-2878 | so does any run without an error |
| LineBalance.EndOfFileBalances | cobc/pplex.c:2664-2671 | at end of file as many newlines have been returned as the file has lines |
| LiteralLines.ScanFollows | cobc/pplex.c:2836-2852 | the loop over the marks is the quote automaton, and notes a mark that closes in the last column |
| LiteralLines.LineFollows | cobc/pplex.c:2807-2866 | a line goes on inside the literal that was open, without the mark that reopens it |
| LogicalLines.OutcomeByIndicator | cobc/pplex.c:2713-2733 | a line counts as a continuation by itself if and only if it has a hyphen in column 7, and what is passed over is so with either flag |
| LogicalLines.MeantIffNotMisjoined | cobc/pplex.c:2652-2657 | a call reads the file as the indicators of its lines say, if and only if it does not hand on a line without a hyphen behind one with a hyphen that it passed over; such a line is joined to the text before it, or refused |
| LogicalLines.ReadAsMeantIff | cobc/pplex.c:2646-2878 | so any sequence of calls, if and only if none of them does that |
| LogicalLines.WordJoined | cobc/pplex.c:2652-2657 | a word on a line of its own that is joined to the word before it |
| LogicalLines.CallAgreesIff | cobc/pplex.c:2807-2852 | one call: the statics are the literal open at the end of the logical text, cut by the indicators of the lines, if and only if the call does not misjoin a line after a literal closed in the last column |
| LogicalLines.LiteralStateIff | cobc/pplex.c:2807-2878 | over any sequence of normal, continuation and other lines the statics are always the state of the quote automaton at the end of the logical text, if and only if no call misreads a line in that way |
| LogicalLines.LiteralMisread | cobc/pplex.c:2807-2852 | a file of three lines whose last literal is read without its first mark |
| LogicalLines.TrackInStep | cobc/pplex.c:1402-1412 | one call, COPY or end of a copy file keeps the statics so, if and only if the call misreads no line, or the flag for the last column is at the end of the copy file what it was at the COPY |
| LogicalLines.LiteralStateOverCopiesIff | cobc/pplex.c:2646-2878 | so over any run with COPY statements and ends of copy files |
| LogicalLines.FlagLeftSet | cobc/pplex.c:1402-1412 | a run, from the start of a file, through a copy file that leaves the flag set |
| LiteralLines.EmptyIffLonelyMark | cobc/pplex.c:2807-2866 | the text of a line is empty if and only if it only reopens a literal in its last column |
| LiteralLines.LonelyMarkAt72 | cobc/pplex.c:2807-2866 | such a line |
| SplitLiterals.SplitComesBack | cobc/pplex.c:2807-2878 | a literal split at any places, with any text before it and behind it, any indentation and any comment, blank or short lines between: its parts come out in order, each but the last with its trailing columns up to 72 and without the mark that reopens it, if and only if no split falls between the marks of a doubled one before the last column |
| SplitLiterals.RestComesBack | cobc/pplex.c:2807-2866 | the same from any split on; after a bad split the lines are refused or a reopening mark stays in the text |
| SplitLiterals.JoinedPasses | cobc/pplex.c:2704-2803 | lines that are passed over leave no trace before a continuation line |
| SplitLiterals.DoubledMarkBroken | cobc/pplex.c:2836-2852 | a literal that does not come back |
| SplitLiterals.FullLinesIff | cobc/pplex.c:2854-2859 | a literal on full lines, with text behind it, comes back as from one line if and only if the text column is at least 72 |
| SplitLiterals.SplitsComeBackIff | cobc/pplex.c:2854-2859 | for all literals, the trailing columns kept are those up to the text column if and only if it is 72 |

## Left out

- Level 66, 78 and 88 entries, and the relaxed level hierarchy.
- Names at level 01 in REDEFINES, which go through the symbol table, and the checks for variable length.
- Sizes are unbounded integers; the only overflow modelled is the compiler's own check of a group's size.
- Addresses and lengths of items behind OCCURS DEPENDING ON; BASED, EXTERNAL and CHAINED items; reference modification.
- ItemSizes.CompXSizeLeast: excludes alphanumeric COMP-X pictures, which are replaced by numeric ones before sizes are computed.
- RecordLayout.RedefinesAligned: is about elementary redefinitions of an elementary item or of a group that is not synchronized itself, for which offsets and sizes do not depend on where they stand.
- Redefines.EndsBeforeNext: is about one group, and leaves the check of OCCURS on originals out, which is a warning.
- InitializeTheorems.InitializeCorrect: excludes the VALUE that InitializeOccurs.InitializeIff shows not to be set; the bytes of a MOVE or VALUE into one item are a parameter, given for literals by ValueCode.
- PerformTheorems.PerformCorrect: the frame-stack check is taken to be on; statements other than PERFORM, GO TO, labels and exits are changes of an opaque store.
- PERFORM TIMES and FOREVER, and EXIT PERFORM, which add one counter, nothing, or a goto to what is modelled.
- VaryingTheorems.LoopsAreFlowchart: moves, conditions, steps and the body are functions on a store, so a body that leaves the loop by GO TO is not covered.
- SearchAll.RunSearchAll: key values are integers and their comparison one call that sets ret; conditions compiled to plain arithmetic, which do not set it, are not modelled.
- Alphabet.BuildTable: characters and numbers in the phrase are taken to be in 0 to 255.
- ValueCode.ValueEmitter.OutputValue: C trigraphs are left aside; numeric and edited VALUEs, moved at run time, are not modelled.
- ReplaceText.Preprocessor.Echo: the tokens are the scanner's; the queue that is dropped at the end of all input is not modelled.
- ReplaceStandard.LeftmostIffOneWord: is about one rule; of lists of rules, SingleWordsLeftmost covers those of single words, and RunAccounts all.
- LineReader.Reader.Ppinput: the buffer is a string and not an array of fixed size, characters are not zero, and directives and free form are left out; pushing back more than one newline is taken to work.
- LineBalance.EndOfFileBalances: an unterminated last line is dropped by the code, and counts as no line.
- SplitLiterals.SplitComesBack: text before the literal and behind it on its last line leaves no other literal open, and no line goes beyond the text column, where it would be cut off first.
- SplitLiterals.SplitsComeBackIff: takes the text column to be at least 10, so that a literal of two characters can be split.
- The Bison and Flex machinery, option handling, files, screens and calls of the run-time library.
