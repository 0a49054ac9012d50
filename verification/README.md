# SWI-Prolog foreign interface and OS helpers, modelled in Dafny

This project models three parts of the SWI-Prolog kernel and proves properties
of the model:

- **The foreign-language interface term layer** of `src/pl-fli.c`. The Prolog
  stacks are one array of tagged cells: the global stack lies below `lBase`
  and the local stack above it.
  - `FliCells`: the cell datatype, dereferencing and the `linkVal*` words, the
    typed getters, `PL_term_type` and `PL_skip_list`.
  - `FliFrames`: the validity scans over foreign frames, foreign argument
    vectors and query frames.
  - `FliBind`: the facts about binding and building terms.
  - `FliEngine`: a class holding the array and the stack pointers. It models
    the term-handle allocator, the binding primitives, and the term builders
    that write `1+arity` or `3·n` cells at `gTop`.
  - `FliConvert`: the `char`/`short` converters.
  - `FliExceptions`: exception classification, `has_emergency_space`,
    `copy_exception` and `PL_raise_exception`.
  - `FliRegistry`: the abort and initialise hook lists, the `codeToAtom` page
    cache, `PL_free_blob`, `PL_cvt_set_encoding`, `PL_quote`,
    `compareUCSAtom` and `charCode`.
- **Path and environment handling** of `src/os/pl-os.c`:
  - `OsPath`: `BaseName`, `DirName`, `PrologPath`, `IsAbsolutePath` and the
    working-directory cache of `PL_cwd`, `PL_changed_cwd`, `is_cwd` and
    `ChDir`, with its trailing-`/` invariant.
  - `OsCanon`: the in-place POSIX `canonicaliseFileName`, with its read and
    write positions and its stack of saved output positions, the normal
    form it leaves (no `.` component and `..` only in a leading run), and
    that the result names what the path named.
  - `PathMeaning`: what a path names, read lexically one character at a
    time: `.` and empty components name nothing, `..` cancels the name
    before it and is the root itself at the root.
  - `OsEnv`: `getenv3`/`Getenv`, `takeWord`/`expandVars`, and the `environ`
    array edited by `Setenv`/`Unsetenv`/`growEnviron`.
  - `OsDirs`: the hash table of canonical directories.
- `Seqs`: unlinking the first occurrence of a node from a singly linked list,
  shared by the hook lists of `src/pl-fli.c` and the directory chains of
  `src/os/pl-os.c`.
- **Windows helpers** of `src/pl-nt.c` (`NtSupport`):
  - `langid_num` and `is_windows_abs_path`;
  - the `ms_snprintf` work-around;
  - the name tables of `win_shell/3` and `win_folder/2`;
  - the path walk of `reg_open_key`.

Some things are parameters of the model rather than part of it:

- the environment, as a map from names to values;
- the password database, as a map from user names to home directories;
- the `isAlpha` character class, as a set of characters;
- the directory-name hash;
- the outcome of `duplicate_term`;
- what the Win32 registry calls answer.

Stack growth is modelled as a call that succeeds exactly when the room is
already there.

## Model

| member | source | states |
|---|---|---|
| FliCells.CharAtom | src/pl-fli.c:3269-3297 | the atom codeToAtom() gives a code below 256 is a text atom of one character, and that character is the code |
| FliCells.CodeWordsRead | src/pl-fli.c:2857-2882 | each head PL_put_list_ncodes() writes reads back, through PL_get_integer(), as the low byte `c & 0xff` of its input character |
| FliConvert.CharWordsRead | src/pl-fli.c:2891-2916 | each head PL_put_list_nchars() writes converts back, through PL_cvt_i_uchar(), to the low byte `c & 0xff` of its input character |
| FliCells.DictFunctorPairs | src/pl-fli.c:4224 | the dict functor's arity is odd, gives back the number of pairs, and two dicts share a functor exactly when they have as many pairs |
| FliCells.DerefFacts | src/pl-fli.c:277-308 | under the stack invariant, deRef() ends at a cell that is not a reference; a non-reference dereferences to itself; a reference chain ends on the global stack, below the allocated part when it starts from a live cell |
| FliCells.LinkValNoGFacts | src/pl-fli.c:366-381 | linkValNoG() never yields an attributed variable. A reference it yields points to a bindable global cell; any other result is the dereferenced value, and an unbound such value lives on the local stack |
| FliCells.ArgCell | src/pl-fli.c:2294-2304 | an argument cell exists exactly when the word is a compound and 1 ≤ index ≤ arity; the cell lies inside that structure |
| FliCells.TermTypeOf | src/pl-fli.c:4272-4303 | PL_NIL exactly for `[]`, PL_LIST_PAIR exactly for a `'[|]'/2` term, PL_DICT exactly for a `dict` compound, PL_VARIABLE exactly for a bindable cell, PL_BLOB exactly for a non-text atom; other tags follow type_map |
| FliCells.TermTypeIsDefined | src/pl-fli.c:4272-4303 | every dereferenced word that is not a functor cell has a type other than PL_NOTYPE |
| FliCells.TypeMap | src/pl-fli.c:1623-1631 | type_map gives PL_VARIABLE exactly for a bindable cell and no type exactly for a reference or functor cell; it never gives PL_NIL, PL_BLOB, PL_LIST_PAIR or PL_DICT, which PL_term_type() itself picks out |
| FliCells.SkipListShape | src/pl-fli.c:2440-2467 | PL_LIST exactly when the tail is `[]`; PL_PARTIAL_LIST exactly when it is unbound; PL_CYCLIC_TERM exactly when it is still a list cell; anything else is PL_NOT_A_LIST |
| FliCells.TaggedRoundTrip | src/pl-fli.c:792-799 | valInt(consInt(v)) always lies in the tagged-integer range |
| FliCells.ConsSmallInt | src/pl-fli.c:793-799 | a word it returns is the tagged v, and v then lies in the tagged-integer range |
| FliCells.ConsSmallIntExact | src/pl-fli.c:792-799 | _PL_cons_small_int() gives a word exactly when v fits a tagged integer, and that word is the tagged v |
| FliCells.GetInteger | src/pl-fli.c:1950-1963 | succeeds exactly on tagged integers within the C `int` range and yields that value |
| FliCells.GetUint | src/pl-fli.c:1973-1986 | succeeds exactly on tagged integers within 0..UINT_MAX and yields that value |
| FliCells.GetInt64 | src/pl-fli.c:2020-2029 | succeeds on every tagged integer and on every indirect integer that fits 64 bits; the value always fits int64 |
| FliCells.GetLong | src/pl-fli.c:1989-2010 | any value it yields lies in the `long` range |
| FliCells.GetUintptr | src/pl-fli.c:2068-2089 | any value it yields is non-negative and fits int64 |
| FliCells.GettersAgree | src/pl-fli.c:1950-2089 | the getters agree where their ranges overlap: int with long, uint with uintptr, long with int64, and a non-negative int with uint |
| FliCells.GetIntegerNarrowerThanLong | src/pl-fli.c:1950-2010 | INT_MAX+1 is refused by PL_get_integer() but accepted by PL_get_long() |
| FliCells.AtomToBool | src/pl-fli.c:1679-1687 | 1 exactly for `true`/`on`, 0 exactly for `false`/`off`, and -1 for any other atom |
| FliCells.GetBool | src/pl-fli.c:1690-1715 | true exactly for `true`, `on` or 1; false exactly for `false`, `off` or 0 |
| FliCells.BoolMatches | src/pl-fli.c:3580-3593 | a bound word unifies with a truth value exactly when it is an atom that PL_get_bool() reads as that value |
| FliCells.UnifyBoolGetBoolRoundTrip | src/pl-fli.c:3580-3593 | the atom PL_unify_bool() binds is read back by PL_get_bool() as the same value, and never as the other one |
| FliFrames.InForeignFrame | src/pl-fli.c:155-166 | a frame it reports holds the cell within its `[fr+1, fr+1+size)` |
| FliFrames.InForeignFrameComplete | src/pl-fli.c:155-166 | for ordered frames, the scan reports exactly the frame that holds the cell |
| FliFrames.InForeignArgvSound | src/pl-fli.c:139-152 | when the scan accepts a cell, some foreign environment frame has it among its arguments |
| FliFrames.InForeignArgvComplete | src/pl-fli.c:139-152 | a cell among the arguments of a foreign frame is accepted |
| FliFrames.InQueryArgumentsAsWrittenSound | src/pl-fli.c:169-181 | a cell the written test accepts is an argument cell of some query other than its first |
| FliFrames.InQueryArgumentsWidens | src/pl-fli.c:169-181 | the corrected test accepts exactly what the written one accepts plus the first argument cell of every query with at least one argument |
| FliFrames.QueryFirstArgumentMissed | src/pl-fli.c:169-181 | the strict test as written rejects a query's first argument cell, which the corrected test accepts |
| FliFrames.QueryArgumentsAgreeElsewhere | src/pl-fli.c:169-181 | on every cell other than a first argument, the written and the corrected test agree |
| FliFrames.ValidTermTCases | src/pl-fli.c:183-198 | valid_term_t() accepts exactly what valid_user_term_t() accepts, plus the unfreed local cells among a foreign predicate's arguments or a query's arguments |
| FliFrames.ValidUserTermTChar | src/pl-fli.c:183-213 | valid_user_term_t() implies valid_term_t(). It accepts a handle exactly when the handle lies on the local stack, is not freed, and lies in some fli frame |
| FliBind.BindConstFacts | src/pl-fli.c:658-678 | binding an unbound cell to a constant keeps the stack invariant and changes no dereference; every cell whose chain ended there now denotes the constant, and every other cell keeps its term |
| FliBind.BArgVarFacts | src/pl-fli.c:428-444 | after bArgVar() the argument cell and the value cell denote the same term; the invariant holds and only those two chain ends changed |
| FliBind.CopyLinkVal | src/pl-fli.c:615-638 | storing linkValI(p) in another handle cell is a legal write, after which that cell denotes p's term and p still does |
| FliBind.BindConsValFacts | src/pl-fli.c:1442-1454 | bindConsVal() fills the argument cell so that it and the handle denote the same term; every new reference points down, except towards an attributed variable; nothing else changes |
| FliBind.DerefRedirect | src/pl-fli.c:1442-1454 | binding an unbound end cell to a reference to a lower cell redirects every chain that ended there |
| FliBind.ConsStructFacts | src/pl-fli.c:1459-1487 | cons_functorv() keeps the invariant and links argument k to handle k; nothing changes but the new cells and the variables the handles held |
| FliBind.ConsListFacts | src/pl-fli.c:1583-1617 | the loop of PL_cons_list_v() lays out a proper list of n cells whose k-th head is linked to handle k; nothing else changes but the variables the handles held |
| FliBind.NewListDenoted | src/pl-fli.c:3632-3671 | in the unbound branch of PL_unify_list(), l denotes the new list cell, and h and t denote its fresh head and tail |
| FliBind.ListArgsDenoted | src/pl-fli.c:3632-3671 | in the list branch, l still denotes its list, and h and t denote its head and tail |
| FliBind.ByteListClose | src/pl-fli.c:2857-2882 | once the last tail is overwritten with `[]`, the cells form a proper list with the heads unchanged |
| FliBind.DictValuesDenoted | src/pl-fli.c:4206-4256 | each value cell of the new dict denotes the term of its value handle |
| FliEngine.Engine.TermTIsLocal | src/pl-fli.c:183-198 | a handle that valid_term_t() accepts lies strictly above lBase and below lTop, so handle 0 is never valid |
| FliEngine.Engine.UserTermTIsTermT | src/pl-fli.c:200-213 | every handle valid for users is valid, and lies on the local stack |
| FliEngine.Engine.NewTermRefs | src/pl-fli.c:450-475 | with room, n unbound cells are added at lTop, lTop and the frame size grow by n, and the frame invariant holds; without room, the result is 0 and nothing changes |
| FliEngine.Engine.NewTermRefUnchecked | src/pl-fli.c:479-499 | one unbound cell at lTop becomes a handle that valid_user_term_t() accepts; lTop and the frame size grow by one |
| FliEngine.Engine.NewTermRef | src/pl-fli.c:502-508 | as NewTermRefUnchecked when one cell fits; otherwise 0 and no change |
| FliEngine.Engine.NewTermRefNoShift | src/pl-fli.c:511-516 | the same result, tested as lTop+1 > lMax |
| FliEngine.Engine.FreeTermRef | src/pl-fli.c:518-533 | the top handle is popped, so lTop and size drop by one. An interior handle gets the tombstone and lowers its frame's no_free_before to min(old, index), with lTop unchanged |
| FliEngine.Engine.ResetTermRefs | src/pl-fli.c:606-613 | lTop drops to the handle, the frame size becomes its distance from the frame base, and no cell changes |
| FliEngine.Engine.DerefCell | src/pl-fli.c:277-308 | the loop ends at deRef(p), a cell that is not a reference |
| FliEngine.Engine.LinkValNoGAt | src/pl-fli.c:366-381 | returns linkValNoG(p): never an attributed variable, and a reference it returns points to a bindable global cell |
| FliEngine.Engine.LinkValGAt | src/pl-fli.c:319-357 | a bound value is returned as is; an unbound global variable gives a reference to it. An unbound local variable is bound, with a trail entry, to a new global variable, or the call fails without change when the global stack is full |
| FliEngine.Engine.Globalize | src/pl-fli.c:578-600 | only an unbound handle cell is bound (and trailed) to one new global cell; otherwise nothing changes. Afterwards the cell is bound, so a second call changes nothing; a full global stack fails without change |
| FliEngine.Engine.CopyTermRef | src/pl-fli.c:615-638 | a new handle at lTop denotes the same term as `from`; 0 and no change when the local stack is full |
| FliEngine.Engine.BindConst | src/pl-fli.c:658-678 | the unbound cell gets the constant and one trail entry; no dereference changes, and exactly the cells whose chain ended there now denote the constant |
| FliEngine.Engine.PushWordAsTermRef | src/pl-fli.c:404-412 | the next reserved tmp handle takes linkValNoG(p) and denotes p's term |
| FliEngine.Engine.PopTermRef | src/pl-fli.c:415-420 | the last reserved handle is released and its cell reset to a variable |
| FliEngine.Engine.BArgVar | src/pl-fli.c:428-444 | the memory becomes that of bArgVar(); a trail entry is made exactly when a lower argument cell binds a higher variable; afterwards both cells denote the same term |
| FliEngine.Engine.BindConsValAt | src/pl-fli.c:1442-1454 | the memory becomes that of bindConsVal(), whose facts FliBind.BindConsValFacts states |
| FliEngine.Engine.UnifyAtomic | src/pl-fli.c:658-678 | succeeds exactly when the term is unbound or already holds w, indirect data (big integers, rationals, floats as their bit patterns, strings) being compared by contents as equalIndirect() does. An unbound term is bound to w with one trail entry, a bound one is left alone, and on success the handle denotes w |
| FliEngine.Engine.UnifyBool | src/pl-fli.c:3580-3593 | succeeds exactly when the term is unbound or a boolean atom of that value. An unbound term is bound to `true`/`false`; on success PL_get_bool() reads back the value |
| FliEngine.Engine.PutFunctor | src/pl-fli.c:3002-3023 | arity 0 puts the name atom. Otherwise `f(_,...,_)` is written at gTop and gTop advances by 1+arity; false and no change when the global stack has no room |
| FliEngine.Engine.PutList | src/pl-fli.c:3026-3041 | the handle gets a new `[_|_]` of three cells; false and no change without room |
| FliEngine.Engine.UnifyCompound | src/pl-fli.c:3134-3170 | succeeds exactly when the term already has the functor, or is unbound and the new structure fits; an unbound term is bound (and trailed) to a new `f(_,...,_)` |
| FliEngine.Engine.UnifyFunctor | src/pl-fli.c:3173-3211 | as UnifyCompound, except that arity 0 binds or matches the name atom |
| FliEngine.Engine.GetArg | src/pl-fli.c:2329-2349 | succeeds exactly for 1 ≤ index ≤ arity of a compound; then `a` denotes that argument, otherwise nothing changes |
| FliEngine.Engine.UnifyArg | src/pl-fli.c:3601-3615 | the same 1-based index check before unification |
| FliEngine.Engine.UnifyList | src/pl-fli.c:3632-3671 | succeeds exactly when l is a list cell, or unbound with room for three cells. An unbound l is bound (and trailed) to a new `[H|T]`; for an existing list, h and t are set to its head and tail |
| FliEngine.Engine.ConsStruct | src/pl-fli.c:1459-1487 | writes `f/n` and n linked argument cells at gTop. Argument k denotes the term of handle k, and nothing else changes except the variables the handles held |
| FliEngine.Engine.ConsFunctorV | src/pl-fli.c:1515-1546 | arity 0 gives the name atom. Otherwise the handle gets a new structure whose k-th argument denotes handle a0+k; false and no change without room |
| FliEngine.Engine.ConsList | src/pl-fli.c:1549-1569 | the handle gets a new `[H|T]` whose head and tail denote the terms of `head` and `tail`; false and no change without room |
| FliEngine.Engine.ConsListAt | src/pl-fli.c:1549-1569 | the cell gets a new `[H|T]` of three cells at gTop; H and T denote the terms of the head and tail cells; false and no change without room |
| FliEngine.Engine.ConsListCells | src/pl-fli.c:1583-1617 | the loop lays out 3·n cells forming a proper list whose k-th head is linked to handle k |
| FliEngine.Engine.ConsListV | src/pl-fli.c:1583-1617 | count 0 gives `[]`. Otherwise the handle gets a proper list of count cells whose k-th element denotes handle e0+k; false and no change without room |
| FliEngine.Engine.PutByteList | src/pl-fli.c:2857-2916 | a proper list of the given heads is written at gTop and nothing else changes |
| FliEngine.Engine.PutListNCodes | src/pl-fli.c:2857-2882 | `[]` for no input. Otherwise a proper list whose heads are exactly the codes `c & 0xff`; false and no change without room |
| FliEngine.Engine.PutListNChars | src/pl-fli.c:2891-2916 | the same, with one-character atoms as heads |
| FliEngine.Engine.GlobalizeValues | src/pl-fli.c:4206-4256 | on success no value handle holds an unbound local variable; bound handles keep their value and no other local cell changes |
| FliEngine.Engine.PutDictAt | src/pl-fli.c:4206-4256 | 0 without room. The result is -1 on an invalid tag or key and -2 on an unordered key list; in both cases gTop is rolled back. 1 writes the dict functor, the tag, each key, and a value cell denoting each value handle |
| FliEngine.Engine.PutDict | src/pl-fli.c:4206-4256 | the result is one of 1, 0, -1, -2 with those meanings; on 1 the handle holds the new dict, whose values denote the value handles |
| FliConvert.WordText | src/pl-fli.c:1152-1180 | an integer has no text; a text atom's text is its name |
| FliConvert.CharAsSeen | src/pl-fli.c:1152-1180 | storing into a signed char keeps the code modulo 256 within -128..127; an unsigned char keeps the code |
| FliConvert.CvtISchar | src/pl-fli.c:1183-1186 | a converted value lies in -128..127, and every tagged integer in that range converts to itself |
| FliConvert.CvtIUchar | src/pl-fli.c:1188-1191 | a converted value lies in 0..255, and every tagged integer in that range converts to itself |
| FliConvert.CvtIChar | src/pl-fli.c:1152-1180 | converts an integer within [mn, mx] or a one-character Latin-1 text. Otherwise it fails with a representation error (`char`/`uchar`) for an integer, and a type error for anything else |
| FliConvert.CvtIPlainChar | src/pl-fli.c:1194-1198 | plain char follows the signed or the unsigned range, as the platform's `char` does |
| FliConvert.CvtIShort | src/pl-fli.c:1201-1216 | converts exactly the tagged integers within [mn, mx]; other integers give a representation error (`short`/`ushort`) and anything else a type error |
| FliConvert.CvtRangeExact | src/pl-fli.c:1183-1231 | each converter accepts exactly the integers of its C type's range and yields them unchanged |
| FliConvert.CvtCharAtom | src/pl-fli.c:1152-1191 | a one-character atom converts to its code as unsigned char, and to code-256 as signed char for codes from 128 |
| FliConvert.CharAcceptsTextShortDoesNot | src/pl-fli.c:1152-1216 | the atom `a` converts as a char but is a type error as a short |
| FliExceptions.ClassifyUnwind | src/pl-fli.c:4666-4702 | the argument of unwind/1 gives ABORT exactly for `abort`, HALT exactly for halt/1, THREAD_EXIT exactly for thread_exit/1, and UNWIND otherwise |
| FliExceptions.ClassifyAsWritten | src/pl-fli.c:4666-4702 | as written: NONE exactly for a variable; an error/2 term is ERROR unless its formal is the atom `resource_error` |
| FliExceptions.Classify | src/pl-fli.c:4666-4702 | NONE, RESOURCE, ERROR, TIMEOUT, the unwind classes and OTHER, each characterised exactly by the shape of the term |
| FliExceptions.ClassifyAgrees | src/pl-fli.c:4666-4702 | the written and the corrected classification agree on every term whose error/2 formal is not a compound resource_error |
| FliExceptions.StackOverflowMisclassified | src/pl-fli.c:4666-4702 | `error(resource_error(stack),global)` is classified ERROR as written. So a later type error replaces it, which the corrected RESOURCE class prevents |
| FliExceptions.Rank | src/pl-fli.c:4723-4735 | the rank is at most 8 and is 0 exactly for no exception |
| FliExceptions.Stack.HasEmergencySpace | src/pl-fli.c:4599-4612 | with lacking = top+needed-max: success with no change when lacking ≤ 0; lacking moves from spare to max when 0 < lacking < spare; otherwise failure with no change. max+spare is preserved |
| FliExceptions.CopyLadder | src/pl-fli.c:4617-4662 | the copy is the term itself, the stack-overflow error, abort, or (only for an error/2 term) another error/2 term |
| FliExceptions.CopyLadderRungs | src/pl-fli.c:4617-4662 | the copy is, in order of preference: an exact duplicate; `error(Formal,_)`; the stack-overflow term (only for a non-error/2 term with emergency space); or `abort` |
| FliExceptions.ExceptionState.CopyException | src/pl-fli.c:4617-4662 | exception_bin becomes the ladder's result. Taking the stack-overflow rung spends five words of emergency space, and max+spare is preserved |
| FliExceptions.ExceptionState.RaiseException | src/pl-fli.c:4709-4739 | always returns false with an exception pending. Unless re-throwing exception_bin, the pending exception is replaced only when the new class ranks at least as high; a resource error enables the spare stack |
| FliExceptions.RaisePriority | src/pl-fli.c:4723-4735 | any exception replaces no exception; an ordinary error never replaces a timeout, resource or unwind exception; an unwind always replaces an error |
| Seqs.RemoveFirst | src/pl-fli.c:5172-5193 | unlinking shortens the list by one when f is in it and leaves it alone otherwise |
| Seqs.RemoveFirstSplit | src/pl-fli.c:5172-5193 | unlinking removes exactly the first node holding f, keeping the order of the rest |
| Seqs.RemoveFirstMultiset | src/pl-fli.c:5172-5193 | unlinking removes one occurrence of f and nothing else |
| Seqs.RemoveFirstKeepsOthers | src/os/pl-os.c:1108-1130 | every node other than f is in the list after the unlink exactly when it was before |
| FliRegistry.AbortHooks.Hook | src/pl-fli.c:5143-5155 | the hook is appended at the tail |
| FliRegistry.AbortHooks.Unhook | src/pl-fli.c:5172-5193 | succeeds exactly when f is registered, and removes its first occurrence |
| FliRegistry.AbortHooks.Run | src/pl-fli.c:5197-5204 | calls the non-NULL hooks from head to tail, in registration order |
| FliRegistry.AbortHooks.Clean | src/pl-fli.c:5159-5169 | the list becomes empty |
| FliRegistry.InitialiseHooks.Hook | src/pl-fli.c:5220-5241 | a hook that is already registered is not added again; a new one is appended; the list stays duplicate-free |
| FliRegistry.UncachedCodeToAtom | src/pl-fli.c:3248-3265 | the atom of a code is a one-unit text atom |
| FliRegistry.CharCode | src/pl-fli.c:1071-1092 | a non-negative result comes only from a one-unit text atom |
| FliRegistry.CharCodeRoundTrip | src/pl-fli.c:1071-1092 | charCode() of the atom codeToAtom() makes for a code is that code; end_of_file gives -1 |
| FliRegistry.CodeAtomCache.CodeToAtom | src/pl-fli.c:3269-3297 | -1 gives end_of_file and a code gives its atom. A code below the cached range lands in its page slot, and every other filled slot keeps its atom |
| FliRegistry.Blob.Free | src/pl-fli.c:4184-4198 | succeeds exactly for a no-copy blob that has a release function and still has its data, when the release function agrees. Then the length becomes 0 and the data is gone; otherwise nothing changes |
| FliRegistry.CvtSettings.SetEncoding | src/pl-fli.c:1123-1133 | succeeds exactly for the supported encodings, and only then changes the setting |
| FliRegistry.Quote | src/pl-fli.c:1934-1947 | the buffer is `(char)chr`, the body with `(char)chr` written before each byte that compares equal to chr as a plain char, `(char)chr` again, and a NUL; when chr is a value a char can hold, that is the quote, the text with every quote doubled, the quote, and a NUL |
| FliRegistry.QuoteBodyAgrees | src/pl-fli.c:1938-1942 | when chr is in the range of a plain char, the bytes that compare equal to chr are exactly those equal to `(char)chr`, so each quote byte is doubled |
| FliRegistry.HighQuoteNeverDoubled | src/pl-fli.c:1938-1942 | where char is signed, a chr from 128 to 255 never compares equal to a byte, so nothing is doubled |
| FliRegistry.UnquoteQuoteBody | src/pl-fli.c:1934-1947 | undoubling the quoted body up to the closing quote gives back the text |
| FliRegistry.QuoteRoundTrip | src/pl-fli.c:1934-1947 | the quoted text starts with the quote and unquotes to the original |
| FliRegistry.CompareCodes | src/pl-fli.c:922-940 | -1, 0 or 1, and 0 exactly for equal texts |
| FliRegistry.CompareCodesAntisymmetric | src/pl-fli.c:922-940 | swapping the arguments negates the result |
| FliRegistry.CompareCodesPrefix | src/pl-fli.c:922-940 | a proper prefix compares below the longer text |
| FliRegistry.CompareUCSAtom | src/pl-fli.c:922-940 | the loop computes the lexicographic comparison |
| NtSupport.HexValueBound | src/pl-nt.c:1301-1317 | n hex digits have a value below 16^n |
| NtSupport.HexValuePrefixMonotone | src/pl-nt.c:1301-1317 | the accumulator never decreases along the string |
| NtSupport.LangidNum | src/pl-nt.c:1301-1317 | the loop yields the base-16 value of the digits, below 16^n |
| NtSupport.HexRoundTrip | src/pl-nt.c:1301-1317 | parsing the fixed-width hex rendering of v gives back v |
| NtSupport.IsWindowsAbsPath | src/pl-nt.c:807-814 | true exactly for `X:` with an ASCII letter X, or a leading `\\` |
| NtSupport.AbsPathPrefixClosed | src/pl-nt.c:807-814 | only the first two characters matter |
| NtSupport.PosixRootNotWindowsAbs | src/pl-nt.c:807-814 | a path starting with `/` is never Windows-absolute |
| NtSupport.VSnprintf | src/pl-nt.c:964-972 | the Microsoft _vsnprintf contract: terminated when the text is shorter than the limit; unterminated at equal length; negative and truncated when longer |
| NtSupport.MsSnprintfAsWritten | src/pl-nt.c:975-989 | as written: a text of exactly count-1 characters returns count-1 and leaves buffer[count-1] as it was |
| NtSupport.MsSnprintfUnterminatedWitness | src/pl-nt.c:975-989 | the buffer "xxxx" with text "abc" and count 4 ends with no NUL |
| NtSupport.MsSnprintf | src/pl-nt.c:975-989 | the corrected version always NUL-terminates within count and keeps the documented return value |
| NtSupport.FirstNamed | src/pl-nt.c:433-471 | the index of the first table entry with the name, or none when no entry has it |
| NtSupport.GetShowCmd | src/pl-nt.c:433-471 | a 0 handle gives SW_SHOWNORMAL; a non-atom gives a type error; an atom gives the command of the first entry with that name, or a `win_show` domain error |
| NtSupport.FirstNamedIsFirst | src/pl-nt.c:433-471 | the lookup finds exactly the first entry with that name |
| NtSupport.ShowCmdAliases | src/pl-nt.c:436-453 | `normal` and `shownormal`, `iconic` and `minimize` give the same commands |
| NtSupport.WinFolderLookup | src/pl-nt.c:1063-1090 | a bound name gives the csidl of its first table entry, or a `win_folder` domain error |
| NtSupport.NextFolder | src/pl-nt.c:1093-1110 | enumeration resumes at the first index from n on whose folder resolves |
| NtSupport.WinFolderGenerate | src/pl-nt.c:1093-1110 | the loop returns NextFolder |
| NtSupport.PersonalEnumeratedTwice | src/pl-nt.c:1006-1041 | the folder table lists `personal` twice, and enumeration yields it at both places |
| NtSupport.SegmentLength | src/pl-nt.c:1126-1154 | the first segment runs up to the first `/` or `\` |
| NtSupport.SegmentsHaveNoSeparator | src/pl-nt.c:1126-1154 | no segment contains a separator |
| NtSupport.SegmentsJoinRoundTrip | src/pl-nt.c:1126-1154 | a `/`-separated path with no trailing separator is its segments joined again |
| NtSupport.RegOpenKey | src/pl-nt.c:1126-1176 | the loop walks the segments from HKEY_CURRENT_USER, opening or creating subkeys |
| NtSupport.LastRootWins | src/pl-nt.c:1126-1176 | a path whose last segment is a root name opens that root, whatever came before |
| NtSupport.OpenOnlyIgnoresCreate | src/pl-nt.c:1126-1176 | without `create`, the result never depends on the create call |
| OsPath.TrimSlashes | src/os/pl-os.c:1891-1920 | removes exactly the trailing slashes |
| OsPath.BaseNameOf | src/os/pl-os.c:1891-1920 | the base name is `/` or contains no slash |
| OsPath.BaseName | src/os/pl-os.c:1891-1920 | NULL gives NULL and "" gives "". Otherwise the result is the last component, or `/` for an all-slash path; a component too long for PATH_MAX gives ENAMETOOLONG |
| OsPath.DirName | src/os/pl-os.c:1924-1961 | NULL gives NULL and "" gives ".". Otherwise the result is the directory part, with `/` or `.` when nothing remains; too long for PATH_MAX gives ENAMETOOLONG unless it is truncated in place |
| OsPath.SplitJoined | src/os/pl-os.c:1891-1961 | for `d/b` followed by any number of slashes, BaseName gives b and DirName gives d |
| OsPath.NoDirectory | src/os/pl-os.c:1924-1961 | a name without a slash is its own base name, and its directory is `.` |
| OsPath.OnlySlashes | src/os/pl-os.c:1891-1961 | an all-slash path has base name and directory `/` |
| OsPath.PrologPath | src/os/pl-os.c:912-919 | succeeds exactly when the path and its NUL fit len, and copies the path unchanged |
| OsPath.PrologPathStable | src/os/pl-os.c:912-919 | a path that is accepted is accepted again, unchanged: the conversion is idempotent |
| OsPath.IsAbsolutePath | src/os/pl-os.c:1751-1755 | an IRI is absolute; any other path is absolute exactly when it starts with `/` |
| OsPath.AbsoluteIsRooted | src/os/pl-os.c:1751-1755 | without the IRI answer, a path is absolute exactly when it names components from the root |
| OsPath.WithSlash | src/os/pl-os.c:2003-2006 | the result ends in `/`, extends the input by at most that one slash, and leaves a name already ending in `/` alone |
| OsPath.WithSlashIdempotent | src/os/pl-os.c:2003-2006 | appending the slash twice is appending it once |
| OsPath.CwdTextAsWritten | src/os/pl-os.c:1859-1861 | as written, the cached cwd is the canonical path plus one slash, always |
| OsPath.RootCwdDoubled | src/os/pl-os.c:1859-1861 | for the root that gives `//`, where ChDir() caches `/` |
| OsPath.CwdTextAgrees | src/os/pl-os.c:1859-1861 | for every canonical path not ending in `/`, the written and corrected texts agree |
| OsPath.CwdCache.Changed | src/os/pl-os.c:1812-1818 | the length and the stored directory are both cleared, so no text is taken for the working directory until it is computed again |
| OsPath.CwdCache.Cwd | src/os/pl-os.c:1823-1875 | a valid cache is kept. Otherwise it is filled with the canonical directory ending in exactly one `/`. The text is returned exactly when it fits cwdlen |
| OsPath.CwdCache.ChangedTo | src/os/pl-os.c:1985-2018 | after a successful chdir the cache holds the absolute directory with one trailing `/` |
| OsPath.CwdCache.IsCwd | src/os/pl-os.c:1973-1981 | a text equal to the cached directory is non-empty, as long as the cache, and ends in `/` |
| OsPath.CwdCache.ChDir | src/os/pl-os.c:1985-2018 | "", "." and the cached directory succeed with no change; a failing AbsoluteFile() fails with no change; an absolute path equal to the cache succeeds with no change; otherwise the result is chdir()'s, and only a successful chdir() stores the absolute path with one trailing `/` |
| OsCanon.SkipRootDotDotKeepsSlash | src/os/pl-os.c:1367-1368 | skipping leading `/..` components leaves the position on a `/` |
| OsCanon.SkipRootDotDot | src/os/pl-os.c:1367-1368 | skipping leading `/..` components never moves the position back |
| OsCanon.SkipDotSlash | src/os/pl-os.c:1369-1370 | skipping `./`, with the slashes after each, never moves back and leaves no `./` at the position |
| OsCanon.DotSlashSlashMadeAbsolute | src/os/pl-os.c:1367-1372 | for `.//x`, skipping `./` leaves `/x`, so the root slash is written |
| OsCanon.StripLeadingKeepsAbsoluteness | src/os/pl-os.c:1367-1372 | with the slashes after each `./` skipped too, the position after the skips holds `/` exactly when the path starts with `/`, so the root `/` is written exactly for an absolute path |
| OsCanon.SkipRootDotDotReads | src/os/pl-os.c:1367-1368 | the skipped leading `/..` components, read from the root, name the root itself |
| OsCanon.SkipDotSlashReads | src/os/pl-os.c:1369-1370 | the skipped leading `./` prefixes and their slashes name nothing |
| OsCanon.SkipSlashesReads | src/os/pl-os.c:1381-1382 | a skipped run of `/` names nothing where no component is being read |
| OsCanon.InitialFaithful | src/os/pl-os.c:1367-1374 | after the skips and the root `/`, the output followed by the unread input names what the path names, and the saved position matches the output |
| OsCanon.RuleAsWritten | src/os/pl-os.c:1392-1411 | as written, every rule agrees with the corrected one except a `..` read just after a `../` that a pop went back to: it is never kept, and falls to the pop, the root drop or no rule |
| OsCanon.PopPastKeptDotDot | src/os/pl-os.c:1393-1406 | for `../a/../..` the written rules pop for both `..`, the second one back to the start, so the result is empty, where the path names `../..` and the corrected rules keep the second `..` |
| OsCanon.UpUpMeaning | src/os/pl-os.c:1393-1406 | for every name c, `../c/../..` names `../..`, which the written rules do not keep |
| OsCanon.DotDotGuardReadsBeforeBuffer | src/os/pl-os.c:1393-1394 | for `a/../../b` the test of the second `..` reads before the buffer |
| OsCanon.DotDotGuardAgrees | src/os/pl-os.c:1393-1394 | wherever the written test stays inside the buffer, the corrected one agrees |
| OsCanon.DotDotAtEndOverwritesNul | src/os/pl-os.c:1415-1418 | for `../..` the written tail puts a `/` over the terminating NUL |
| OsCanon.PopComponent | src/os/pl-os.c:1399-1406 | `name/..` makes the output go back to the last saved position and pops it; at the end of the path, unless only the root would remain, the slash before it is cut off and the rewrite is done in normal form; otherwise the buffer is unchanged and the state invariant holds; either way what is written and what is left to read still name what the path names |
| OsCanon.KeepDotDot | src/os/pl-os.c:1393-1397 | a `..` following `..` is copied as `/..`, the read and write positions advance by three, the state invariant holds and the meaning is kept |
| OsCanon.KeepDotDotAfterPop | src/os/pl-os.c:1393-1397 | a `..` read where a pop left the output just after `../` is kept as `..` written after that `/`; the read position advances by three, the write position by two, the state invariant holds and the meaning is kept |
| OsCanon.KeepRule | src/os/pl-os.c:1393-1397 | with `..` or `../` just before the output, the `..` is kept, with the exact new buffer and positions of each case |
| OsCanon.UpRule | src/os/pl-os.c:1398-1411 | otherwise `/..` pops the last saved position, is dropped right after the root, or is left to be copied, with the exact new buffer, positions and stack |
| OsCanon.SlashStep | src/os/pl-os.c:1377-1419 | one `/` step keeps the state invariant and the meaning and advances the read position; the position saved last is the new output position, which starts a component; when the step ends the string, the buffer is in normal form and names what the path named |
| OsCanon.SkipSlashRun | src/os/pl-os.c:1381-1382 | the read position moves to the last slash of the run; the state invariant and the meaning are kept |
| OsCanon.SlashRunKeeps | src/os/pl-os.c:1381-1382 | reading on to the last `/` of a run keeps the state invariant and the meaning: a run of `/` reads as one |
| OsCanon.ApplyRule | src/os/pl-os.c:1383-1412 | the rule that holds at the slash decides the new state exactly: `/./` is skipped; a trailing `/.` ends the string at the output; a `..` is kept (after `..`, or after a `../` a pop went back to), popped or dropped after the root; with no rule nothing changes. Every rule but the last goes back to `again:`. The meaning of output plus unread input is kept |
| OsCanon.DotDotRule | src/os/pl-os.c:1392-1411 | `/..` is kept after a `..` or after a `../` that a pop went back to (and the block starts again), pops the last component, is dropped right after the root, or is left to be copied, each with the exact new buffer and positions, keeping the meaning |
| OsCanon.EndAtTrailingDot | src/os/pl-os.c:1388-1390 | a trailing `/.` puts the NUL at the output position; the buffer is then in normal form and names what the path named |
| OsCanon.AgainLoop | src/os/pl-os.c:1379-1414 | the `again:` block either finishes the string in normal form with the meaning of the path, or ends on the NUL or on a slash where no rule applies, with the read position never moved back and the meaning kept |
| OsCanon.AgainStep | src/os/pl-os.c:1379-1412 | one pass of the block: the slash run, then the rule at its last slash; when it goes back to `again:` the read position has advanced |
| OsCanon.SkipLeading | src/os/pl-os.c:1367-1370 | the read position is where skipping leading `/../` and `./` (with the slashes after each `./`) ends, and it holds `/` exactly when the path starts with one |
| OsCanon.Rewrite | src/os/pl-os.c:1376-1423 | the main loop ends with the string rewritten: no longer, nothing changed outside it, no `//`, as absolute as before, in normal form, and naming what the path named |
| OsCanon.CanonicaliseFileName | src/os/pl-os.c:1302-1429 | the result is NUL-terminated and never longer than the input; nothing past the old end and no IRI prefix changes; no `//` remains; the result is absolute exactly when the input was; it is in normal form: no `.` component unless the whole path is `.`, and `..` only in a leading run of `../`; and, read lexically, it names the same components as the input |
| OsCanon.Initial | src/os/pl-os.c:1367-1374 | after the skips and the root slash, the state invariant holds with the root as the only saved position |
| OsCanon.CopyKeeps | src/os/pl-os.c:1421 | copying a character of a component keeps the state invariant |
| OsCanon.DropKeeps | src/os/pl-os.c:1384-1386 | skipping input that starts and ends on a separator keeps the state invariant |
| OsCanon.KeepKeeps | src/os/pl-os.c:1393-1397 | writing `/..` after a `..` keeps the state invariant: the leading run of `../` grows |
| OsCanon.PopKeeps | src/os/pl-os.c:1399-1406 | going back to the last saved position keeps the state invariant |
| OsCanon.PopDone | src/os/pl-os.c:1402-1404 | a pop at the end of the path that cuts the slash leaves the buffer in normal form |
| OsCanon.FinishAt | src/os/pl-os.c:1388-1390 | putting the NUL at the output once a component is over leaves the buffer in normal form |
| OsCanon.SlashTailKeeps | src/os/pl-os.c:1415-1419 | writing the `/` unless the output ends in one, and saving the position, keeps the state invariant |
| OsCanon.PushAtEnd | src/os/pl-os.c:1415-1419 | at the NUL, saving the position without writing keeps the state invariant |
| OsCanon.CopyFaithful | src/os/pl-os.c:1421 | copying a character of a component keeps the saved positions matching the output and the meaning of output plus unread input |
| OsCanon.SlashRunFaithful | src/os/pl-os.c:1381-1382 | skipping a `/` of a run keeps the meaning: `//` names what `/` names |
| OsCanon.DropDotFaithful | src/os/pl-os.c:1384-1387 | skipping `/./` keeps the meaning: `/./` names what `/` names |
| OsCanon.EndDotMeans | src/os/pl-os.c:1388-1391 | ending the string at the output before a trailing `/.` leaves it naming what the path named |
| OsCanon.FinishMeans | src/os/pl-os.c:1423 | copying the NUL once the input is read leaves the string naming what the path named |
| OsCanon.KeepFaithful | src/os/pl-os.c:1393-1397 | copying `/..` after a `..` keeps the saved positions matching the output and the meaning |
| OsCanon.KeepAfterPopKeeps | src/os/pl-os.c:1393-1397 | writing `..` after a `../` that a pop went back to keeps the state invariant: the leading run of `../` grows |
| OsCanon.KeepAfterPopFaithful | src/os/pl-os.c:1393-1397 | writing `..` after a `../` that a pop went back to keeps the saved positions matching the output and the meaning |
| OsCanon.PopRegion | src/os/pl-os.c:1399-1401 | when no `..` is kept, the output from the last saved position is one name, with its `/` or not, or nothing right after the root |
| OsCanon.PopFaithful | src/os/pl-os.c:1399-1406 | going back to the last saved position over `/..` keeps the saved positions matching the output and the meaning; cutting the `/` at the end leaves the string naming what the path named |
| OsCanon.PopMeans | src/os/pl-os.c:1399-1401 | `name/..` followed by the rest names what the rest names after the output that stands before the name |
| OsCanon.DropRootUpFaithful | src/os/pl-os.c:1407-1410 | dropping `/..` right after the root keeps the meaning: the root's parent is the root |
| OsCanon.TailFaithful | src/os/pl-os.c:1415-1419 | writing the `/` unless the output ends in one, and saving the position, keeps the saved positions matching the output and the meaning |
| OsCanon.MeansNames | src/os/pl-os.c:1302-1305 | a finished rewrite that keeps the meaning names the same components as the path, and is absolute exactly when it was |
| PathMeaning.ReadAppend | src/os/pl-os.c:1302-1305 | reading a path in two pieces is reading it whole, so each rewrite can be judged where it happens |
| PathMeaning.Replace | src/os/pl-os.c:1302-1305 | text that reads alike from the same point may replace other text anywhere in a path without changing what it names |
| PathMeaning.ReplaceEnd | src/os/pl-os.c:1302-1305 | text that reads alike once it ends may replace other text at the end of a path |
| PathMeaning.DoubleSlash | src/os/pl-os.c:1381-1382 | `//` reads as `/` |
| PathMeaning.SlashDotSlash | src/os/pl-os.c:1384-1387 | `/./` reads as `/` |
| PathMeaning.DotSlash | src/os/pl-os.c:1369-1370 | where no component is being read, `./` names nothing |
| PathMeaning.TrailingDot | src/os/pl-os.c:1388-1391 | a trailing `/.` names nothing |
| PathMeaning.NameUp | src/os/pl-os.c:1399-1406 | a name followed by `/..` is cancelled, before a further `/` and at the end |
| PathMeaning.RootUp | src/os/pl-os.c:1407-1410 | at the root of an absolute path `/..` names the root itself |
| PathMeaning.ResolveClean | src/os/pl-os.c:1302-1305 | what any path names has no empty or `.` component, `..` only in a leading run, and no `..` at all when it is absolute |
| OsCanon.KeepResumeAsWritten | src/os/pl-os.c:1395-1416 | as written, after a kept `..` reading resumes three or four characters on, past the next `/`, without the `again:` rules |
| OsCanon.KeptDotDotSkipsRules | src/os/pl-os.c:1393-1416 | for `../.././x` the second `..` is kept, reading resumes on the `./` that follows, where no rule applies, while going back to `again:` drops that `/./` |
| OsEnv.GetenvValue | src/os/pl-os.c:2495-2502 | a value exactly when the variable is set and fits the buffer |
| OsEnv.Getenv3 | src/os/pl-os.c:2472-2491 | (size_t)-1 exactly for an unset variable, else the full length. The value and a NUL are copied when it fits; when it does not, an empty string is written if len > 0 |
| OsEnv.Getenv | src/os/pl-os.c:2495-2502 | returns the value exactly when it is set and fits, and then the buffer holds it |
| OsEnv.WordEnd | src/os/pl-os.c:1522-1539 | the word is the maximal run of letters and `_` |
| OsEnv.TakeWord | src/os/pl-os.c:1522-1539 | the maximal run, of at most maxlen-1 characters, and the position after it; none when the run is longer |
| OsEnv.ExpandRestPlain | src/os/pl-os.c:1622-1676 | a pattern without `$` is copied verbatim |
| OsEnv.ExpandRestFailsAtDollar | src/os/pl-os.c:1622-1676 | the expansion of the rest of the pattern fails only when a `$` is left in it |
| OsEnv.ExpandSpecFails | src/os/pl-os.c:1543-1687 | a pattern with no `$` and no leading `~` always expands |
| OsEnv.TildeSlash | src/os/pl-os.c:1617-1619 | `~/x` expands to the home directory and x with exactly one `/` between them |
| OsEnv.VariableLookup | src/os/pl-os.c:1628-1661 | `$NAME` expands to the value of a set variable; an unset one fails with an existence error |
| OsEnv.LongVariableDereferencesNull | src/os/pl-os.c:1630-1635 | for `$` and PATH_MAX letters, takeWord() fails and the code as written dereferences NULL; the corrected model fails with the max_variable_length error takeWord() raised |
| OsEnv.UserDirs.Home | src/os/pl-os.c:1563-1572 | the cached home if any; else $HOME, or `/` when it is unset or does not fit; the result is cached |
| OsEnv.UserDirs.UserHome | src/os/pl-os.c:1578-1598 | the password entry's home directory, cached under the user's name; none for an unknown user |
| OsEnv.UserDirs.TildeHome | src/os/pl-os.c:1549-1607 | `~` gives the own home and `~user` gives that user's home |
| OsEnv.UserDirs.ExpandVars | src/os/pl-os.c:1543-1687 | succeeds exactly when the expansion succeeds and fits maxlen, and then the text is the expansion; a failure is max_path_length or the expansion's own error |
| OsEnv.ExpandLoop | src/os/pl-os.c:1622-1687 | the `for(;;)` loop computes the expansion of the rest of the pattern, under the same size guard |
| OsEnv.MatchName | src/os/pl-os.c:2621-2629 | the value after `name=`, or the empty value for a bare `name`; none otherwise |
| OsEnv.Find | src/os/pl-os.c:2644-2661 | the index of a matching entry, or the length when there is none |
| OsEnv.FindFirst | src/os/pl-os.c:2644-2661 | no entry before that index matches |
| OsEnv.Round32 | src/os/pl-os.c:2573-2611 | ROUND(x, 32) is a multiple of 32 no smaller than x |
| OsEnv.EntryRoundTrip | src/os/pl-os.c:2633-2640 | the entry setEntry() builds matches its name with exactly its value |
| OsEnv.OneNamePerEntry | src/os/pl-os.c:2621-2629 | an entry matches at most one name |
| OsEnv.SetThenLookup | src/os/pl-os.c:2644-2661 | after Setenv, the variable has the new value |
| OsEnv.SetKeepsOthers | src/os/pl-os.c:2644-2661 | Setenv leaves every other variable's value alone |
| OsEnv.UnsetThenLookup | src/os/pl-os.c:2665-2684 | after Unsetenv, a lookup sees only what followed the removed entry |
| OsEnv.Environ.Reset | src/os/pl-os.c:2615-2617 | growEnviron(e, 0) forgets the size and changes nothing else |
| OsEnv.Environ.CopyInto | src/os/pl-os.c:2573-2611 | the new block holds the entries and the NULL terminator |
| OsEnv.Environ.Grow | src/os/pl-os.c:2573-2611 | the entries and terminator are kept, `filled` becomes n+amount, and the block has room for them and a terminator |
| OsEnv.Environ.CountEntries | src/os/pl-os.c:2573-2611 | the counting loop yields the number of entries |
| OsEnv.Environ.Setenv | src/os/pl-os.c:2644-2661 | returns the old value. The first matching entry is replaced only when the value differs; otherwise `name=value` is appended before the NULL terminator |
| OsEnv.Environ.FindEntry | src/os/pl-os.c:2644-2661 | the scan yields the first matching index and its value |
| OsEnv.Environ.Unsetenv | src/os/pl-os.c:2665-2684 | returns the old value and removes exactly the first matching entry, keeping the order of the others |
| OsEnv.Environ.ShiftDown | src/os/pl-os.c:2665-2684 | the entries after i move down one place |
| OsEnv.ShiftEntries | src/os/pl-os.c:2665-2684 | the `do ... while` loop moves every entry from i on down by one, terminator included |
| OsDirs.DirTable.Key | src/os/pl-os.c:1039-1043 | the key is a valid bucket index |
| OsDirs.FirstNamed | src/os/pl-os.c:1046-1058 | the first node of the chain with the name, or null exactly when no node has it |
| OsDirs.FirstWithId | src/os/pl-os.c:1062-1078 | the first node with the device and inode; null exactly when no bucket holds one |
| OsDirs.DirTable.Lookup | src/os/pl-os.c:1046-1058 | finds the first node named so in its key's chain; null means no node anywhere has the name |
| OsDirs.DirTable.LookupFromId | src/os/pl-os.c:1062-1078 | scans the buckets in order for the device and inode |
| OsDirs.DirTable.Create | src/os/pl-os.c:1082-1104 | allocates the table on first use and pushes a fresh node at the head of its chain. A lookup of the name then finds it, and other chains are unchanged |
| OsDirs.DirTable.Delete | src/os/pl-os.c:1108-1130 | unlinks the node from its chain, and no other chain changes |
| OsDirs.UnlinkAt | src/os/pl-os.c:1116-1121 | the scan for the node whose next is d ends at d's first position, which is past the head |

## Left out

- Stack growth, garbage collection and stack shifts are not modelled: `ensureLocalSpace`, `ensureGlobalSpace` and `allocGlobal` succeed exactly when the room is already there. The stacks never move, so there is no reload after a shift.
- FliEngine.Engine.Globalize: when the global stack cannot be grown, the source raises a stack-overflow exception (src/pl-fli.c:587-591); the model fails without any change and without that exception.
- FliEngine.Engine.ConsFunctorV: when the global stack cannot be grown, the source raises a stack-overflow exception (src/pl-fli.c:1527-1531); the model fails without any change and without that exception.
- FliEngine.Engine.ConsList: when the global stack cannot be grown, the source raises a stack-overflow exception (src/pl-fli.c:1553-1557); the model fails without any change and without that exception.
- FliEngine.Engine.ConsListV: when the global stack cannot be grown, the source raises a stack-overflow exception (src/pl-fli.c:1591-1595); the model fails without any change and without that exception.
- FliEngine.Engine.UnifyCompound: when the global stack cannot be grown, the source raises a stack-overflow exception (src/pl-fli.c:3147-3151); the model fails without any change and without that exception.
- FliEngine.Engine.UnifyFunctor: when the global stack cannot be grown, the source raises a stack-overflow exception (src/pl-fli.c:3183-3187); the model fails without any change and without that exception.
- FliEngine.Engine.UnifyList: when the global stack cannot be grown, the source raises a stack-overflow exception (src/pl-fli.c:3642-3646); the model fails without any change and without that exception.
- FliEngine.Engine.PutFunctor: `allocGlobal()`, which is not part of this model, raises a stack-overflow exception when it fails; the model fails without any change and without that exception.
- FliEngine.Engine.PutList: `allocGlobal()`, which is not part of this model, raises a stack-overflow exception when it fails; the model fails without any change and without that exception.
- FliEngine.Engine.PutListNCodes: `allocGlobal()`, which is not part of this model, raises a stack-overflow exception when it fails; the model fails without any change and without that exception.
- FliEngine.Engine.PutListNChars: `allocGlobal()`, which is not part of this model, raises a stack-overflow exception when it fails; the model fails without any change and without that exception.
- FliEngine.Engine.PutDict: `allocGlobal()`, which is not part of this model, raises a stack-overflow exception when it fails; the model fails without any change and without that exception.
- FliEngine.Engine.ConsStruct: models the part of `cons_functorv()` after its space check, so it requires the room; the check and its failure are modelled by ConsFunctorV.
- `unify_ptrs`, `skip_list`, `duplicate_term`, `dict_order`, `PL_get_text` and the atom, functor and blob tables are defined in other files and are not part of this model. Their outcomes are parameters: the `unified` flag of UnifyArg, the tail handed to SkipListShape, `CopyOutcomes`, the `ordered` flag of PutDict, and the `listText` of the converters.
- FliEngine.Engine.UnifyArg: the unification itself is a parameter, so its contract states the index check and passes the outcome through.
- FliCells.GetLong, FliCells.GetUintptr: `get_int64()` on an indirect integer is defined outside this file and is modelled as a partial function. The contract bounds the result and does not say which indirect words succeed.
- `PL_get_float`, `PL_put_term`, `PL_put_nil`, `PL_put_bool` and the text conversions are not modelled; they only store a word through a primitive that is modelled.
- Non-local control (`PL_throw`), `PL_LOCK`, per-thread data and the `file_errors` flag are not modelled. An error is raised only when that flag is set, and either way the call fails.
- The except_class order is declared in a header that is not part of this model. Rank takes the order NONE < OTHER < ERROR < TIMEOUT < RESOURCE < UNWIND < ABORT < HALT < THREAD_EXIT; the source only compares classes with `>=`.
- FliExceptions.ExceptionState.RaiseException: ranks the new and the pending exception with the corrected Classify, under which every `resource_error(_)` formal is RESOURCE. As written, such an error is classified ERROR (see Findings). So the source lets a later ordinary error replace a pending stack overflow where the model does not, and the source does not enable the spare stacks for `error(resource_error(_),_)` where the model does.
- FliFrames.ValidTermT, FliEngine.Engine.TermT: use the corrected InQueryArguments, so the first argument cell of an open query is a valid handle here. As written, valid_term_t() rejects it (see Findings).
- OsEnv.Environ.Grow: the source copies the entries from the old block after `PL_realloc()` may have freed it. The model copies into a fresh block.
- OsEnv.ExpandSpec: skips the `/` after `~` only when the home directory is non-empty. The source reads `expanded[-1]` even when the home directory is "", which reads before the buffer.
- OsEnv.ExpandSpec: for `~` followed by a name too long for takeWord(), the source goes on to read `user[0]` through the NULL it gets back (src/os/pl-os.c:1555-1558). The model stops there with the max_variable_length error that takeWord() raises, as it does for `$` (see Findings).
- The `O_XOS`, MinGW, drive-letter, NetBIOS and share branches of pl-os.c are not modelled, and neither is the branch for platforms without `getpwnam()`.
- OsEnv.Environ, OsEnv.Environ.Setenv, OsEnv.Environ.Unsetenv: these model the `environ` array that pl-os.c edits itself when the platform has neither `setenv()` nor `putenv()` (src/os/pl-os.c:2560-2684). The branch that calls `setenv()`/`unsetenv()` (src/os/pl-os.c:2505-2551) hands the work to the C library and is not modelled.
- OsPath.IsAbsolutePath and the IRI scheme test `file_name_is_iri()` are modelled as a predicate with the IRI answer as a parameter. The `buflen` argument of canonicaliseFileName is unused on POSIX and is not modelled.
- OsCanon.CanonicaliseFileName, OsCanon.Rewrite, OsCanon.SkipLeading, OsCanon.DotDotRule: use the corrected leading skip and `..` rules (see Findings). As written, `.//x` is made absolute and `../a/../..` is rewritten to the empty string, so the source keeps neither absoluteness nor meaning on such paths where the model does.
- PathMeaning: the meaning is lexical. Symbolic links, which can make `x/..` differ from nothing on disk, are not modelled, as the source does not consult the file system either.
- OsPath.CwdCache.Cwd: `getcwd()` and `canonicalisePath()` are a parameter (the canonical directory, or none on failure). The cache buffer written at PATH_MAX-1 plus one is not modelled.
- `cleanupExpand()` and `initExpand()` are not modelled, nor is `store_string()`/`remove_string()` memory management.
- OsEnv.UserDirs: the password database is a constant map, so the cached `fred` entry can never go stale.
- OsDirs: a chain is the sequence of its nodes; the `next` pointers themselves are not modelled. The MurmurHash of the name is a parameter `hash`.
- `isAlpha` is a parameter: the set `alpha` of word characters.
- NtSupport.LangidNum: requires the value to fit an `int`. The source accumulates in an `int`, so a longer or larger hex text overflows, which the model does not cover.
- NtSupport.RegOpenKey: each segment is copied into a 256-character buffer without a bound check. The model walks segments of any length, so a segment of 256 or more characters, which overflows that buffer, is not modelled. The registry calls themselves are parameters.
- NtSupport.PersonalEnumeratedTwice: the duplicated `personal` entry is recorded, with no corrected table, because nothing in the source says which entry was meant.
- The Win32 calls behind `win_shell`, `win_folder` and `reg_open_key` (ShellExecute, SHGetSpecialFolderPath, the registry API) are parameters or are left out, as are consoles, message boxes and the MUI API.

## Findings

| source | as written | input that shows it | evidently intended | confidence | as-written member | corrected member |
|---|---|---|---|---|---|---|
| src/pl-fli.c:169-181 | in_query_arguments() tests `p > argv`, so the first argument cell of a query frame is not accepted | a handle on the first argument of an open query | `p >= argv`, as in_foreign_argv() tests | not executed | FliFrames.QueryFirstArgumentMissed | FliFrames.InQueryArgumentsWidens |
| src/pl-fli.c:4666-4702 | classify_exception_p() gives RESOURCE only when the formal is the atom `resource_error`, while resource errors are `resource_error(What)` | `error(resource_error(stack),global)` is classified ERROR, so a later type error replaces the pending stack overflow | any `resource_error/1` formal is RESOURCE | not executed | FliExceptions.StackOverflowMisclassified | FliExceptions.Classify |
| src/os/pl-os.c:1367-1372 | the root `/` is written when the input starts with `/` after `./` has been skipped | `.//x` becomes `/x` | skip the slashes after each `./` too, so that only a path that itself starts with `/` stays absolute | not executed | OsCanon.DotSlashSlashMadeAbsolute | OsCanon.StripLeadingKeepsAbsoluteness |
| src/os/pl-os.c:1393-1394 | the test for a `..` that follows `..` reads out[-1], out[-2], out[-3] before checking how far out is from the start | `a/../../b`: the second `..` is tested at the start of the buffer | compare `out - 2` with `start` before reading behind it | not executed | OsCanon.DotDotGuardReadsBeforeBuffer | OsCanon.KeepDotDot |
| src/os/pl-os.c:1393-1416 | after a `..` is kept, control does not go back to `again:`; the `/` step consumes the next `/` and the rules are not applied to what follows | `../.././x` keeps its `/./` | go back to `again:` after keeping the `..`, as the other `..` branches do | not executed | OsCanon.KeptDotDotSkipsRules | OsCanon.DotDotRule |
| src/os/pl-os.c:1393-1406 | the keep test looks only for `..` just before the output; after a pop has left the output just after `../`, out[-1] is `/`, so a `..` read there pops again, past the kept `..` | `../a/../..` becomes the empty string, which names nothing, where `../..` is meant | keep the `..` when the output ends in a `../` run, as it is kept right after `..` | not executed | OsCanon.PopPastKeptDotDot | OsCanon.DotDotRule |
| src/os/pl-os.c:1415-1418 | after a kept `..` at the end, the tail of the `/` step appends `/` at the NUL | `../..`: the NUL is overwritten and the loop reads on past the string | no `/` is appended at the end of the input | not executed | OsCanon.DotDotAtEndOverwritesNul | OsCanon.SlashStep |
| src/os/pl-os.c:1859-1861 | the cwd cache always appends `/` to the canonical directory | the root directory gives `//`, while ChDir() caches `/` | append `/` only when the name does not end in one, as ChDir() does at 2003-2006 | not executed | OsPath.RootCwdDoubled | OsPath.CwdCache.Cwd |
| src/os/pl-os.c:1630-1635 | the result of takeWord() is used without a NULL check | `$` followed by PATH_MAX letters: takeWord() returns NULL and `var[0]` dereferences it | fail with the max_variable_length error takeWord() raised | not executed | OsEnv.LongVariableDereferencesNull | OsEnv.ExpandLoop |
| src/pl-nt.c:975-989 | _vsnprintf() is given count-1; when the text is exactly count-1 long it returns count-1 without a terminator, and the fix-up only handles a negative result or count | buffer "xxxx", count 4, text "abc": the buffer ends without a NUL | also terminate when the result is count-1 | not executed | NtSupport.MsSnprintfUnterminatedWitness | NtSupport.MsSnprintf |
