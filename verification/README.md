# A verified model of the QuickJS C modules

This Dafny project models the self-contained algorithms underneath a set of C modules for QuickJS, and proves what
they promise, for every input. Where the code keeps a promise only on part of its inputs, the exact part is a
predicate, the promise is proved equivalent to it, and an input outside it is a lemma too.

| files | what they model |
|---|---|
| `Basics` | what several modules need |
| `ObjectGraph`, `SimplePaths`, `Preorder` | a frozen object graph with sharing and cycles; its simple paths; the recursive preorder as the specification of a walk |
| `PropertyEnumeration`, `Deep` | the frame stack that walks the graph in place, and its drivers: select, find, forEach, pathOf, deepest, the iterator |
| `Dereference`, `Pointer`, `PointerText` | paths of atoms: get, set, unset, shift; their text form |
| `Glob` | the backtracking pattern matcher |
| `PathComponents`, `PathRelative`, `PathNormalize`, `PathCollapse` | paths as text and as component lists |
| `Lexer`, `LexerStates` | rule choice, the token stream with its positions, start conditions |
| `LexerExpand`, `LexerInline` | macro expansion of rules, and when inlining a definition shows |
| `Vector`, `VectorBuffer`, `Escape` | checked multiplication, intersection by merging, growing buffers, escaping, the token stack |
| `KillRing` | the kill commands of the line editor |

Code that changes things step by step is modelled as classes and methods with loops, each proved against a function
or a property; the lemmas are about those functions. Text is a sequence of characters or bytes; machine widths that
matter (32-bit indices, 31-bit integer atoms, 64-bit products, 32-bit line counters, signed `char`, a `size_t` of -1)
are written out.

## Where the code is not what one expects

* When a rule fails to compile or to match, `js_lexer_lex` returns its error code as if it were a rule. `js_lexer_next`
  then skips the length of the last match once more and hands out a token of that negative kind; in a fresh lexer it
  does so for ever, and where that length does not fit it leaves the text. `StreamExact` says exactly when the stream is
  right; `FailingStream` and `FailsForEver` are the examples.
* Predicates passed to select, find and the iterator are asked about the key as it is handed out: on arrays a named
  property has become a number, and a search for its name does not find it (`PathOfArrayProperty`).
* `property_enumeration_check` reports what `vector_indexof` computes, and that subtracts the wrong way round: it is
  the index of the first frame only, but for coincidences (`IndexOfExact`, `IndexOfSecond`).
* `path_fnmatch` does not advance on a `[:` inside brackets, unless an item before it decides (`PathFnMatch`,
  `ClassSticks`). Where the string matches as well, the order of the search decides: `*[a[:b]*` matches `ba` and gets
  stuck on `ab` (`WinsMatches`, `InBoth`). A bracket that is not closed is closed by the end of the pattern, but if
  negated it matches nothing.
* `path_normalize` loses the root when `..` removes the only component: `/a/../b` becomes `b`. With no separator left
  to go back to, as on `a/../b`, `path_right` returns -1 as a size. `NormalizeExact` and `NormalizeRelativeExact` say
  exactly when neither happens, `RootLost` has the examples. A relative path of which nothing is left becomes `/`, the
  empty path among them (`NormalizeRelativeExact`, `RelativeLost`).
* `path_normalize` is idempotent except where `..` has gone back to a drive letter: the second pass puts the separator
  behind it that the first took away (`NormalizeTwice`, `NormalizeTwiceRelative`, `DriveChanges`).
* `path_collapse` moves its cursor to before the buffer when `..` removes the only component too early, as on `/a/../b`
  (`CollapseExact`, `CursorLost`). Behind two separators it does not see a `..`, and a later `..` then takes that one
  away (`TwoSeparators`).
* `path_relative` from a directory written with a separator at its end can go one level too high: from `/a/c/` to
  `/a/b` (`RelativeLeadsThere`, `RelativeAstray`). It does not clear its output buffer: text already there stays.
* `pointer_parse` looks for dots only once a text begins with `[`, and does not take off the backslashes that
  `pointer_tostring` puts before dots: two leading integers, names with dots, names of digits and some others do not
  read back (`TextRoundTrip`, `NotThese`).
* `pathOf` spells named properties of arrays as integers, so that the path it returns can lead elsewhere
  (`SpelledPathExact`, `PathOfLeadsBack`, `PathOfArrayProperty`).
* Storing through a step that the path repeats, as in `x.self.self = 1` with `x.self == x`, does not read back
  (`PrimitiveReadBack`, `SetThroughItself`). Under a value that is no object nothing reads back.
* `lexer_peek` sets `tokid` to the rule only in FIRST mode; in the other modes it is the number of rules.
* Inlining a definition can change the expansion of a rule exactly if a `{` is left open, by the text in front or by
  the definition (`InvisibleExactly`); `InliningUnclosed` is a small example.
* `\xHH` escapes are written but never read back (`UnescapeUndoes`, `EscapeStays`); bytes from 0x80 on get eight digits.
* `dbuf_token_push` escapes dots but not backslashes, and `dbuf_token_pop` leaves a buffer alone whose only dots are
  escaped if the first of them is at its beginning (`PopUndoesPush`, `PopDoesNotUndo`).
* `vector_emplace` hands out whatever the bytes held before; they are zero only where the buffer is new.
  `vector_put` drops its bytes without notice where a 32-bit position overflows.
* Deleting backwards in the middle of a surrogate pair during a run of kills puts units on the wrong side of the
  clipboard (`BackwardDeleteExact`, `PairTorn`).

## Model

| member | source | states |
|---|---|---|
| `SimplePaths.SimplePushExact` | property-enumeration.h:184-195 | a frame may be put on a stack, keeping it a simple path, exactly when its object is the value below and not on the stack yet, and its index is in range |
| `SimplePaths.SimpleIsSimplePath` | property-enumeration.h:198-229 | the recursive notion of a simple path and its frame-by-frame definition are the same |
| `PreorderTheory.PreorderIsTheSimplePaths` | property-enumeration.h:198-229 | a list is the walk order from a root if and only if it holds exactly the nonempty simple paths from it, strictly increasing: each once, an ancestor before its descendants, siblings by index |
| `PreorderTheory.PreorderSound` | property-enumeration.h:198-229 | everything visited is a simple path that goes through the object entered |
| `PreorderTheory.PreorderComplete` | property-enumeration.h:198-229 | every such path is visited |
| `PreorderTheory.PreorderSorted` | property-enumeration.h:198-229 | the order of visits is strictly increasing |
| `PreorderTheory.SortedUnique` | property-enumeration.h:198-229 | two strictly increasing lists with the same paths are equal, so that the order leaves no choice |
| `PreorderTheory.KeyPathInjective` | property-enumeration.c:124-139 | two different paths from one root have different lists of keys |
| `PreorderTheory.HeightBound` | property-enumeration.h:44-48 | the stack is never higher than the number of objects in the graph, sharing and cycles included |
| `PropertyEnumeration.TodoSplit` | property-enumeration.h:198-229 | what a walk has left is the current path, then what is below it, then the rest |
| `PropertyEnumeration.EnterStep` | property-enumeration.h:184-195 | entering an object off the stack goes to the next path; if the object is empty nothing is below |
| `PropertyEnumeration.SiblingStep` | property-enumeration.h:174-176 | stepping to the next property leaves exactly the subtree behind |
| `PropertyEnumeration.LeaveStep` | property-enumeration.c:79-99 | wherever a subtree is left to is a skip, and a move of the whole walk if the subtree is empty |
| `PropertyEnumeration.FrameVector.SetPos` | property-enumeration.h:60-70 | the index moves if it is in range, a negative one counts from the end; otherwise nothing changes |
| `PropertyEnumeration.FrameVector.Enter` | property-enumeration.h:184-195 | the current value is pushed as a frame; the answer says whether it has that property |
| `PropertyEnumeration.FrameVector.Climb` | property-enumeration.h:220-225 | the pop loop ends on the first path after the subtree left, or on the empty stack if there is none |
| `PropertyEnumeration.FrameVector.Recurse` | property-enumeration.h:198-229 | from any simple path the walk moves to its successor in preorder, never losing or repeating a path, and the stack stays a simple path; null exactly at the end |
| `PropertyEnumeration.FrameVector.Skip` | property-enumeration.c:79-99 | the walk moves to the first path in preorder that is not below the current one; null exactly when there is none |
| `PropertyEnumeration.FrameVector.Circular` | property-enumeration.c:217-227 | true if and only if the value is an object on the stack |
| `PropertyEnumeration.FrameVector.Check` | property-enumeration.c:230-245 | (-1,-1) if and only if no two frames share an object, and so always in states the walk reaches; else what vector_indexof makes of two frames that do |
| `PropertyEnumeration.IndexOfExact` | vector.c:52-57 | what it makes of an element is its index for the first element, and for another if and only if a congruence holds between its place, its size and the width of an address |
| `PropertyEnumeration.IndexOfSecond` | vector.c:52-57 | the second element, of 40 bytes, comes out as 1717986917 |
| `Deep.ChosenSkip` | quickjs-deep.c:326-329 | skipping the subtree at the depth limit loses nothing that a search within the limit reports |
| `Deep.ReportIsExact` | quickjs-deep.c:299-332 | a list is the result of a search if and only if it tells, in increasing order and each once, of exactly the simple paths of at most the given depth whose value and last key, as handed out, the predicate accepts: of each its value and the keys of all its frames, on arrays as numbers |
| `Deep.LimitInFlags` | quickjs-deep.c:267-268 | with any flags the low 24 bits are that depth, and if they are all zero it is 2^31-1 |
| `Deep.HitTells` | quickjs-deep.c:89-124 | a hit is the one thing that has the value at the top of the stack and, key by key, those of all its frames |
| `Deep.HitsLeadBack` | quickjs-deep.c:89-124 | in a graph whose arrays have elements only, dereferencing the path of every hit gives its value |
| `Deep.Select` | quickjs-deep.c:299-332 | returns exactly that, for any graph, predicate and flags |
| `Deep.Find` | quickjs-deep.c:257-296 | returns the first entry of that, or nothing if it is empty |
| `Deep.ForEach` | quickjs-deep.c:512-549 | calls back for exactly the simple paths whose values the mask admits, in order, each with its value and its keys; for none if the root is empty |
| `Deep.Advance` | quickjs-deep.c:278-290 | one turn of a depth-limited search leaves all that is still to be reported but the current path |
| `Deep.EnumerationPath` | property-enumeration.c:124-139 | the keys of all frames, bottom first |
| `Deep.DeepReturn` | quickjs-deep.c:89-124 | the value at the top of the stack, with the keys of all its frames |
| `Deep.Deepest` | property-enumeration.c:102-121 | the greatest length in the walk order, but at least 1 for an object and 0 for anything else |
| `Deep.DeepestIsLongestPath` | property-enumeration.c:102-121 | no simple path is longer than that, one is as long if the root is not empty, and the number of objects bounds it |
| `Deep.PathOf` | quickjs-deep.c:488-509 | the keys of all frames of the least simple path, in preorder, whose value equals the target; nothing only if there is no such path |
| `Deep.DerefKeyPath` | property-enumeration.h:121-124 | at every step of a walk, dereferencing the keys of all frames from the root gives the current value |
| `Deep.SpelledPathExact` | property-enumeration.h:86-97 | the path handed out holds the true keys if and only if arrays on it are left by elements |
| `Deep.PathOfLeadsBack` | quickjs-deep.c:488-509 | dereferencing what pathOf returns gives the value found, whatever numbers are made of names, if and only if arrays on the path are left by elements |
| `Deep.PathOfAlwaysLeadsBack` | quickjs-deep.c:488-509 | in a graph whose arrays have elements only, every path that pathOf returns leads back |
| `Deep.PathOfArrayProperty` | property-enumeration.h:86-97 | a graph where it does not, through a named property of an array; nor does a predicate that asks for the name accept it |
| `Deep.DeepIterator.constructor` | quickjs-deep.c:127-161 | a new iterator has the whole report to come |
| `Deep.DeepIterator.Next` | quickjs-deep.c:187-229 | hands out the first hit of those to come, which tells of a path that is to be reported, and keeps the others; done exactly when none is left, after which the walk begins again |
| `Dereference.DerefConcat` | pointer.c:189-213 | following a path made of two parts is following one after the other |
| `Pointers.LookupPut` | quickjs-deep.c:393-394 | a write changes the one property it names and nothing else |
| `Pointers.LookupRemove` | quickjs-deep.c:427-428 | a deletion removes the one property it names and nothing else |
| `Pointers.DerefMonotone` | pointer.c:189-213 | a path that exists leads to the same value in every larger graph |
| `Pointers.AcquireAllocates` | pointer.c:216-235 | acquire keeps every object and property there was, and every object it makes is fresh |
| `Pointers.AcquireReaches` | pointer.c:216-235 | through objects, acquire ends on the object to which the path then leads |
| `Pointers.AcquireMisses` | pointer.c:216-235 | past a value that is no object, what acquire returns is unconnected to the graph |
| `Pointers.AcquireKinds` | pointer.c:223-226 | each container made is an array if and only if the key that follows is an integer |
| `Pointers.AcquireFrame` | pointer.c:216-235 | among the objects there were, only the first missing step along the path is filled in |
| `Pointers.SetThenGet` | quickjs-deep.c:380-404 | what get returns after set, in every case: the stored value; nothing below a non-object; or what the stored value itself has at the rest of a path that runs through the property it writes |
| `Pointers.PrimitiveReadBack` | quickjs-deep.c:380-404 | a stored primitive is read back if and only if the path runs through objects only and not through the property it ends in |
| `Pointers.SetFrame` | quickjs-deep.c:380-404 | of the objects there were, set changes the property the path ends in and at most the first missing one; all other containers are fresh |
| `Pointers.SetThroughItself` | quickjs-deep.c:380-404 | a graph and a path where a stored value does not read back |
| `Pointers.UnsetRemoves` | quickjs-deep.c:415-436 | after unset the path leads nowhere, and every other property of every object is as it was |
| `Pointers.ShiftFollowsDeref` | pointer.c:174-186 | along a path that exists, repeated shifting ends at the value that dereferencing gives |
| `Pointers.ShiftMisses` | pointer.c:174-186 | shifting onto the first property that is missing gives undefined |
| `Pointers.Pointer.Push` | pointer.h:52-55 | appends an atom |
| `Pointers.Pointer.Pop` | pointer.h:58-66 | takes the last atom off and returns it, the null atom if there is none |
| `Pointers.Pointer.Shift` | pointer.c:174-186 | takes the first atom off and reads that property |
| `Pointers.Pointer.Get` | pointer.c:189-213 | the value at the end of the path; none if a property on it is missing |
| `Pointers.Pointer.AcquireFrom` | pointer.c:216-235 | leaves the graph and the container that the specification of acquire gives |
| `Pointers.Set` | quickjs-deep.c:380-404 | leaves the graph that the lemmas on set describe |
| `Pointers.Unset` | quickjs-deep.c:415-436 | leaves the graph that the lemmas on unset describe; unchanged if the path to the container does not exist |
| `PointerText.DecimalRoundTrip` | pointer.c:86-89 | a number reads back from its decimal text, which is digits and not empty |
| `PointerText.DecimalIsCanonical` | pointer.c:87 | a text is the decimal text of a number if and only if it is digits that read as it, with no superfluous zero in front |
| `PointerText.EscapedExact` | pointer.c:93-97 | a text is the escaped form of a name if and only if every dot in it has a backslash before it and without those it is the name |
| `PointerText.EscapedStops` | pointer.c:93 | a NUL ends the text of a name |
| `PointerText.TextOfOneMore` | pointer.c:85-98 | one more key adds an integer in brackets, or a name, behind a dot unless it is the first |
| `PointerText.TextRoundTrip` | pointer.c:82-153 | a pointer reads back from its text if and only if it does not begin with two integers and each name in it survives where it stands |
| `PointerText.TokenIs` | pointer.c:109-153 | the first key of any text: behind a `[` that opens it, the body up to the first delimiter without a backslash before it, but for a `]` right there; digits are that number if it is below 2^31, anything else is a name |
| `PointerText.PlainSurvives` | pointer.c:82-153 | names that are not empty, start with no digit and hold no special character always survive |
| `PointerText.NotThese` | pointer.c:82-153 | three pointers that do not read back |
| `PointerText.FindDelimiter` | pointer.c:117-126 | the first delimiter not behind a backslash, or the end |
| `PointerText.NextKey` | pointer.c:109-153 | one turn of the parser gives the first key and the text behind its delimiter |
| `PointerText.Parse` | pointer.c:109-153 | pushes the keys of the text, behind those already there |
| `PointerText.ToString` | pointer.c:82-99 | appends the text of the pointer |
| `Glob.MatchesIsCutting` | path.c:240-339 | matching token by token is the same as cutting the string into one part for each token |
| `Glob.TokensMean` | path.c:251-328 | which texts a star, a question mark, a character and a bracket expression stand for, under all flags |
| `Glob.LanguagesConcat` | path.c:240-339 | without PERIOD, a list of tokens stands for what its first ones stand for followed by what the others do |
| `Glob.PeriodBehindSlash` | path.c:251-256 | with PERIOD and PATHNAME, and only then, a star stands for no period behind a slash |
| `Glob.ReadsBack` | path.c:240-339 | reading a pattern undoes writing it: the text of a list of tokens, ranges and negated brackets among them, is read as those tokens |
| `Glob.MatchBracket` | path.c:259-299 | a bracket expression, closed or not, accepts a character exactly as its set of items, negated or not, says, and where the pattern goes on; the loop does not advance if and only if it meets a `[:` before an item has decided |
| `Glob.ClasslessNeverStalls` | path.c:274-275 | without a `[:` in a bracket expression the matcher always advances |
| `Glob.WinsMatches` | path.c:311-318 | a string wins if it can be cut into parts with no longer part for any token behind which the matcher can get stuck; then it is in the language, and a string in the language that cannot get the matcher stuck wins |
| `Glob.StarWins` | path.c:311-318 | a star wins by taking one more character, or else, if that does not get the matcher stuck, by taking nothing |
| `Glob.FnMatch` | path.c:240-339 | the matcher with its recursion, on the rest of the pattern and of the string: a match if and only if the string wins, stuck if and only if it does not win but can be cut so as to get stuck |
| `Glob.PathFnMatch` | path.c:240-339 | for all lengths and any PATHNAME, NOESCAPE and PERIOD flags: 0 if and only if the string wins, stuck if and only if it does not win but can be cut so as to get stuck, and a mismatch if and only if it is not in the language of the pattern and cannot get the matcher stuck; without a `[:`, 0 if and only if it is in the language |
| `Glob.ClassSticks` | path.c:274-275 | a pattern and a string that get the matcher stuck |
| `Glob.InBoth` | path.c:274-275 | a pattern and two strings, both in its language and able to get the matcher stuck: one is matched, on the other the matcher gets stuck |
| `PathComponents.ComponentsConcat` | path.h:87-93 | the components of two texts that do not meet inside a name just add up |
| `PathComponents.TidyExactly` | path.h:87-93 | text is its components joined by single separators if and only if it has no separator at either end and no two side by side |
| `PathComponents.ResolvePlain` | path.c:421-491 | names without dots are stacked as they are |
| `PathRelative.CommonIsCommon` | path.c:125-153 | what the two prefixes pass over is one list of components that both paths have, and the next ones differ |
| `PathRelative.RelativeComponents` | path.c:499-527 | the result is one `..` for each component of q left, one more for a separator run at its end, then the rest of p; `.` if that is nothing |
| `PathRelative.RelativeText` | path.c:499-527 | the text: those `..`, and behind them what is left of p as it stands but for one separator at its end, with one separator between any two; `.` if that is nothing |
| `PathRelative.RelativeTidy` | path.c:519-522 | it has no separator at either end and no two side by side, so that it is its components joined, if and only if there are no two side by side in what is left of p |
| `PathRelative.RelativeLeadsThere` | path.c:499-527 | for absolute paths, p without dot components: following the result from q leads to p if and only if q does not end in a separator, or nothing is shared, or p goes on behind it |
| `PathRelative.RelativeAstray` | path.c:499-527 | two paths where it does not |
| `PathRelative.SkipSeparator` | path.c:552-560 | the length of the separator run |
| `PathRelative.SkipComponent` | path.c:541-549 | the length of the name |
| `PathRelative.CommonPrefix` | path.c:125-153 | the two prefix lengths that the lemma describes |
| `PathRelative.PathRelative` | path.c:499-527 | the text that the lemmas describe, behind what is in the buffer already; no `.` is written if that is something |
| `PathNormalize.NormalizeExact` | path.c:422-491 | an absolute path becomes absolute text for its stack-reduced component list if and only if no `..` takes the last component away before the end and no name follows one that ends in a backslash |
| `PathNormalize.NormalizeRelativeExact` | path.c:422-491 | a relative path becomes relative text for its reduced component list if and only if the same condition holds and something of it is left |
| `PathNormalize.NormalizeText` | path.c:422-491 | the text: the reduced components with one separator between any two, one in front if the path is absolute, and one behind a drive letter at the end that no `..` has gone back to |
| `PathNormalize.RootLost` | path.c:451-455 | `/a/../b`, which becomes `b`, and `a/../b`, on which the size wraps |
| `PathNormalize.RelativeLost` | path.c:488-490 | the empty path and `.`, which become `/` |
| `PathNormalize.NormalizeTwice` | path.c:422-491 | on such paths a second pass keeps the components, and the text too if and only if the path does not go back to a drive letter |
| `PathNormalize.NormalizeTwiceRelative` | path.c:422-491 | and the same for relative paths of which something is left; the second result is relative too |
| `PathNormalize.DriveChanges` | path.c:463-464 | `/c:/x/..`, whose text a second pass changes |
| `PathNormalize.Right` | path.h:96-101 | the separator before the last name, or -1 |
| `PathNormalize.Normalize` | path.c:422-491 | the text that the lemmas describe, behind what is in the buffer already, or none once the size has wrapped |
| `PathCollapse.CollapseExact` | path.c:84-122 | for any components, what is left is those reduced, with `.` and a leading `..` as names, if no `..` takes the only component away, but at the end of a path with a root; else the cursor leaves the buffer |
| `PathCollapse.ReducedResolves` | path.c:84-122 | without `.` and a leading `..` those are the components to which the path resolves |
| `PathCollapse.WalkCollapses` | path.c:84-122 | on every path with single separators, absolute or relative, the loop leaves the text of the collapsed component list, with its trailing separator if it had one, or the cursor leaves the buffer |
| `PathCollapse.TwoSeparators` | path.c:91-107 | `/a//../../b`, which becomes `/a//b` but resolves to `b` |
| `PathCollapse.CursorLost` | path.c:104-106 | `/a/../b` and `a/../b`, on which the cursor leaves the buffer |
| `PathCollapse.CollapseLikeNormalize` | path.c:84-122 | where both go well, collapsing and normalizing give the same components |
| `PathCollapse.SingleIsText` | path.c:84-122 | a path with single separators is, from any separator on, the text of its components |
| `PathCollapse.GetSep` | path.h:104-111 | the separator if and only if there is one before the terminator |
| `PathCollapse.CutRange` | path.c:98-102 | the range is cut out in place, the terminator kept |
| `PathCollapse.BackUp` | path.c:104-106 | the cursor goes back over one name, to the separator before it or to the beginning, or leaves the buffer |
| `PathCollapse.Collapse` | path.c:84-122 | in place, on every path, the buffer ends up holding what the specification of the loop leaves of the text, or the cursor has left it |
| `LexerEngine.Utf8FromBoundary` | quickjs-lexer.c:723-771 | text read from one character boundary of valid UTF-8 to the next stays on boundaries |
| `LexerEngine.LocStep` | lexer.c:353-368 | moving over one character changes the recomputed location as the counters change |
| `LexerEngine.LocationCounts` | lexer.c:353-368 | a location is the number of newlines before it and of characters since the last of them, 32 bits wide, and the number of characters before it |
| `LexerEngine.ChoiceIsChosen` | lexer.c:299-350 | the rule chosen is of the current state and its match is not empty: the lowest such in FIRST mode, the highest in LAST mode, in LONGEST mode the highest among those of greatest length, with that length; an error is reported exactly if a rule that is tried fails |
| `LexerEngine.ModesChoose` | lexer.c:335-341 | mode 0 takes the first rule that matches, 1 the last, 2 the last of the longest matches |
| `LexerEngine.ChosenIsUnique` | lexer.c:299-350 | and this leaves only one answer |
| `LexerEngine.SpansTile` | quickjs-lexer.c:724-795 | the spans of the matches are not empty, lie on character boundaries, and each starts where the one before ends |
| `LexerEngine.SpansStop` | quickjs-lexer.c:724-795 | there are no more spans than bytes, and they stop only at the end or where no rule is chosen |
| `LexerEngine.SpansCover` | quickjs-lexer.c:724-795 | put together they are the text consumed |
| `LexerEngine.TokenTells` | quickjs-lexer.c:702-715 | a token has the bytes, offset and location of its place, and its length in characters is the number of its bytes that are not continuation bytes |
| `LexerEngine.SkippedByBits` | quickjs-lexer.c:745-770 | a match gives no token if and only if its rule is flagged or some bit is set both in its mask and in the skip mask |
| `LexerEngine.AllTokens` | quickjs-lexer.c:745-770 | with no skip mask and no rule flagged every span gives its token |
| `LexerEngine.Lexer.Peek` | lexer.c:299-350 | returns that choice and sets start and length of the match; the position stays |
| `LexerEngine.Lexer.Skip` | lexer.c:353-368 | moves over the match, and to the end of the character it ends in, with line, column and character position equal to those recomputed from the text before it; returns the characters passed |
| `LexerEngine.FailsIsChoice` | lexer.c:317-323 | the choice is an error code if and only if a rule that is tried fails |
| `LexerEngine.StreamExact` | quickjs-lexer.c:1430-1503 | calling next gives a token for each span that is not skipped, with its lexeme, recomputed location and length in characters, and then the end or the exception, if and only if no rule that is tried where the spans stop fails; the tokens up to there are right in any case, and if one fails a token with its error code follows or the code leaves the text |
| `LexerEngine.FailsForEver` | quickjs-lexer.c:1483-1499 | where a rule fails before anything has matched, next hands out the same empty token again and again |
| `LexerEngine.FailingStream` | quickjs-lexer.c:1430-1503 | a text whose second character is handed out as a token of kind -4 |
| `LexerEngine.Lexer.Lex` | quickjs-lexer.c:724-795 | passes over matches of skipped rules only, so that the result to come stays the same |
| `LexerEngine.Lexer.NextToken` | quickjs-lexer.c:1476-1503 | gives the result that the lemmas on the stream speak about, failing rules and stale lengths included, and keeps the location equal to the recomputed one |
| `LexerStates.NestedRun` | lexer.c:199-217 | any nested sequence of pushes and pops never underflows and leaves state and stack as they were |
| `LexerStates.ConditionIs` | lexer.c:146-161 | the name between the angle brackets is the condition, if it is letters and digits and not empty |
| `LexerStates.StateTable.FindState` | lexer.c:164-180 | the number of the named state, -1 if and only if there is none |
| `LexerStates.StateTable.Parse` | lexer.c:146-161 | nonzero if and only if the text begins with a nonempty name of letters and digits in angle brackets; then its length |
| `LexerStates.StateTable.New` | lexer.c:183-196 | the state has that name; one is added only if there was none, names stay distinct and numbers in use keep theirs |
| `LexerStates.StateTable.RuleAdd` | lexer.c:247-260 | the rule is appended, belongs to the state its condition names, or else to INITIAL, and has the mask of the rule before it, if there is one |
| `LexerStates.StateTable.Push` | lexer.c:199-207 | the named state becomes current above the saved ones; nothing happens if there is none |
| `LexerStates.StateTable.Pop` | lexer.c:210-217 | the state saved last becomes current again |
| `LexerStates.StateTable.Top` | lexer.c:220-230 | the i-th state from the top, -1 beyond the bottom |
| `LexerExpand.BoundDoesNotMatter` | lexer.c:48-74 | the expansion does not depend on the bound that makes the recursion terminate |
| `LexerExpand.CrossesAt` | lexer.c:54-63 | a reference crosses from one text into the next exactly where a `{` is open and the name from there to the first `}` behind is defined |
| `LexerExpand.ExpandConcat` | lexer.c:48-74 | where no reference crosses the seam the expansions just add up |
| `LexerExpand.RefExpands` | lexer.c:48-74 | a reference expands to the expansion of its definition |
| `LexerExpand.PlainExpands` | lexer.c:48-74 | text in which no name in braces is defined expands to itself |
| `LexerExpand.BackslashPasses` | lexer.c:65-67 | a backslash and what is behind it are copied, an opening brace too |
| `LexerExpand.InliningIsInvisible` | lexer.c:48-74 | inlining one reference leaves the expansion the same if no reference crosses a seam, before or after |
| `LexerExpand.InliningUnclosed` | lexer.c:48-74 | definitions and a text where it does not |
| `LexerInlining.ClosedAnyway` | lexer.c:48-74 | a text that leaves no `{` open when read literally leaves none open under any definitions |
| `LexerInlining.OpenTextShows` | lexer.c:48-74 | for every text that leaves a `{` open there are definitions under which inlining behind it changes the expansion |
| `LexerInlining.OpenExpressionShows` | lexer.c:48-74 | for every expression that does there are definitions and a text behind it |
| `LexerInlining.InvisibleExactly` | lexer.c:48-74 | inlining an expression behind a text is invisible, under all definitions and before all texts, if and only if neither leaves a `{` open |
| `LexerExpand.RuleExpand` | lexer.c:48-74 | terminates with ranked definitions, and appends the expansion |
| `Vectors.Umult64` | vector.c:21-40 | succeeds if and only if the product is below 2^64, and then gives it |
| `Vectors.MemcmpOrder` | vector.c:114 | comparing bytes is a total order on elements of one size |
| `Vectors.FirstDifference` | vector.c:114 | at the first place where elements differ the smaller byte decides |
| `Vectors.MergeIsIntersection` | vector.c:108-124 | on sorted inputs the merge is the multiset intersection |
| `Vectors.MergeIsSorted` | vector.c:108-124 | it is sorted and holds elements of the first input only |
| `Vectors.SortedByMultiset` | vector.c:108-124 | a sorted list is determined by its multiset, so that nothing else could have come out |
| `Vectors.Intersection` | vector.c:108-124 | m+n turns complete the merge, whatever the comparison returns once an index has left its array |
| `VectorBuffers.ElementsConcat` | vector.h:138-140 | whole elements followed by more bytes are those elements followed by the elements of these |
| `VectorBuffers.AppendElement` | vector.h:166-169 | bytes of one element put behind whole elements are the new last element |
| `VectorBuffers.RoundToBlocks` | vector.h:18 | at least the bytes needed, less than a block more, and whole blocks |
| `VectorBuffers.Vector.constructor` | vector.h:33-36 | a new vector is empty |
| `VectorBuffers.Vector.Allocate` | vector.h:83-106 | null if and only if the position is negative, the product overflows or the allocator fails, with nothing changed; else the offset, the size grown to hold it within capacity, all old bytes kept and new ones zero |
| `VectorBuffers.Vector.Put` | vector.c:60-68 | all the bytes are appended or none, and exactly when |
| `VectorBuffers.Vector.Emplace` | vector.h:166-169 | the elements so far are followed by one more, made of the bytes that lie there |
| `VectorBuffers.Vector.Shrink` | vector.h:109-118 | exactly the first elements asked for are kept, all of them if there are fewer |
| `VectorBuffers.Vector.At` | vector.h:121-130 | the offset of the element, or null outside the contents |
| `VectorBuffers.Vector.Find` | vector.c:127-136 | the number of the first equal element, -1 if and only if there is none |
| `VectorBuffers.Vector.Back` | vector.h:154-158 | the last element |
| `VectorBuffers.Vector.Pop` | vector.h:172-177 | the last element is dropped, and the answer is where it was |
| `Escapes.EscapedInjective` | utils.c:138-162 | different texts, of any bytes, are escaped differently |
| `Escapes.CodesAre` | utils.c:138-162 | what each character is written as: a letter for eight of them, two or eight hexadecimal digits that read as its value for other control characters and from 127 on, itself for the rest |
| `Escapes.UnescapeUndoes` | utils.c:165-183 | unescaping undoes escaping if and only if the text needs no hexadecimal escape, that is, all its characters are printable ASCII or \b \t \n \v \f \r |
| `Escapes.PairsAre` | utils.c:165-183 | what each character behind a backslash becomes; where it stands for nothing both stay |
| `Escapes.EscapeStays` | utils.c:165-183 | an escape character, which does not come back |
| `Escapes.TokenHasNoBareDot` | utils.c:227-235 | a token in the buffer has no dot without a backslash before it |
| `Escapes.PopUndoesPush` | utils.c:208-235 | popping undoes pushing if and only if the buffer does not end in a backslash, or is empty and the token does not begin with a dot |
| `Escapes.PopDoesNotUndo` | utils.c:208-235 | a buffer that ends in a backslash, and a first token that begins with a dot |
| `Escapes.PopsTheLast` | utils.c:208-235 | on a stack of tokens that do not end in a backslash, the first not empty and beginning with no dot, every pop takes off exactly the last token |
| `Escapes.StackInjective` | utils.c:227-235 | two such stacks with the same buffer hold the same tokens |
| `Escapes.ByteChr` | utils.h:171-177 | the first place of a character, or the length |
| `Escapes.ByteRchr` | utils.h:180-186 | the last place of a character, or the length |
| `Escapes.PredicateFind` | utils.h:330-336 | the first character that the predicate picks, or the length |
| `Escapes.DynBuf.PutEscaped` | utils.c:138-162 | the codes of all characters are appended, for any predicate |
| `Escapes.DynBuf.PutUnescaped` | utils.c:165-183 | the text with its backslash pairs decoded is appended; a backslash at the end takes the byte behind the text |
| `Escapes.DynBuf.TokenPush` | utils.c:227-235 | the token is put on the buffer, behind a delimiter if it was not empty |
| `Escapes.DynBuf.TokenPop` | utils.c:208-224 | the buffer is cut at its last bare dot; emptied if there is none, but left alone if it begins with an escaped dot |
| `KillRing.KillKeeps` | lib/repl.js:528-538 | killing a region that begins or ends at the cursor leaves the line as it is with the clipboard put back at the cursor |
| `KillRing.KillTakes` | lib/repl.js:528-538 | killing any region takes exactly that out of the line, and the cursor stays on its text or goes to where the region was |
| `KillRing.KillCommands` | lib/repl.js:540-554 | what the four kill commands take: the rest of the line, all before the cursor, the next whole word with what is before it, the last one with what is behind it |
| `KillRing.DeleteCommands` | lib/repl.js:445-464 | what the two deletes take: one character with all its surrogates, or nothing at the ends of the line |
| `KillRing.KillsKeep` | lib/repl.js:445-554 | so do the four kill commands, and deletes that go on with a kill |
| `KillRing.KillRunKeeps` | lib/repl.js:841-873 | over any run of such keys, with keys that only beep in between, cmd before the cursor, clipboard and cmd after it are together the line the run began with |
| `KillRing.YankRestores` | lib/repl.js:556-558 | a run that kills, begun when the previous command was not a kill, and then yank: the line is the original one |
| `KillRing.PlainKillsRun` | lib/repl.js:540-554 | any sequence of the four kill commands is such a run, on any line |
| `KillRing.BackwardDeleteExact` | lib/repl.js:445-464 | deleting backwards during a kill keeps this if and only if the units it also takes from behind the cursor commute with the clipboard; there are such units only inside a surrogate pair |
| `KillRing.PairTorn` | lib/repl.js:445-464 | a line and a clipboard where they do not |
| `KillRing.InsertedAt` | lib/repl.js:332-337 | inserting keeps what is before and behind the cursor |
| `KillRing.Typing` | lib/repl.js:841-873 | a printable character goes in, of one unit or a pair, a control character does nothing, and behind quoted-insert any character goes in |
| `KillRing.RunEnd` | lib/repl.js:373-377 | the end of the longest run of word characters, or of others, from a position on |
| `KillRing.RunStart` | lib/repl.js:379-383 | the start of the longest such run up to a position |
| `KillRing.Editor.InsertText` | lib/repl.js:332-337 | the text goes in at the cursor, which moves behind it |
| `KillRing.Editor.SkipWordForward` | lib/repl.js:373-377 | behind the next word |
| `KillRing.Editor.SkipWordBackward` | lib/repl.js:379-383 | at the start of the word before |
| `KillRing.Editor.KillRegion` | lib/repl.js:528-538 | the region is cut out, the cursor stays on its text, and the clipboard begins anew or grows at the right end |
| `KillRing.Editor.DeleteCharDir` | lib/repl.js:445-464 | the character before or behind the cursor, its surrogates included, is deleted, or killed in a run of kills |
| `KillRing.Editor.HandleKey` | lib/repl.js:841-873 | the state that the lemmas speak about, for bound, typed, quoted and unknown keys |

## Left out

- Reference counting, finalizers, allocation failure (but for the vector's) and atoms' lifetimes: owned by the QuickJS runtime, which is not part of this model.
- Getters, proxies, prototype chains and mutation of the graph during a walk: foreign calls. A graph has own enumerable properties only, in the order in which the runtime lists them.
- User callbacks that throw: a predicate or callback is a function; the equality of `js_value_equals` is a parameter.
- The pieces of a result that the flags of `js_deep_return` select (only the value, only the path), and the type errors of argument checking in `js_deep_find`: plain dispatch.
- Deep.Find: the root has at least one property, as for Select and PathOf; on an empty root the code reads a property past the end of its list.
- Deep.SpelledPathExact: what `JS_ToInt64` makes of a key that is not an integer is a parameter; negative numbers are not keys here.
- Pointers.SetThenGet: a path has at least one key, as for the other lemmas on set and unset; what the runtime makes of the null atom, which an empty one writes to, is its own.
- The keys of an array that look like integers but exceed 31 bits, and an array's length: property names are abstract.
- Deep equals, clone and flatten, `js_object_equals`, `vector_diff`, and the TreeWalker's previous, sibling and child moves: they compute something else than their names suggest, or leave the on-stack check aside.
- Glob.PathFnMatch: no bracket expression breaks off in the middle of a range, as `[a-` does; there the matcher reads past the end of the pattern.
- Glob.ReadsBack: the items in brackets begin with none of `!`, `-`, `[` and `]`, and no range ends in `]`; there they mean something else, depending on where they stand.
- Glob.LanguagesConcat: without PERIOD, under which a part's language depends on what stands before it.
- The symbolic-link branch of `path_normalize`, `path_find`, `path_gethome`, `path_absolute`, `path_realpath`: file system calls.
- PathCollapse.Collapse: what happens once the cursor has left the buffer. That the result is a component list is stated for paths with single separators only, because it fails on others.
- PathRelative.RelativeLeadsThere: p without dot components; a dot component is copied as it is.
- Windows separators: the separator is `/` throughout.
- The regular expression engine and `unicode_from_utf8`: a function from rule and position to a match or a failure, and valid UTF-8 with matches that end on character boundaries.
- LexerEngine.Lexer.Lex: user actions, the handler for text without a match and locations set from outside are callbacks; the state does not change inside one call.
- LexerEngine.Lexer.NextToken: once the code has moved past the end of the text, what it reads there.
- PropertyEnumeration.FrameVector.Check: the frames fit into the address space, and there are at most 2^31 of them.
- The compilation of rules: whether it fails is an answer of the engine. Masks only decide which matches are skipped.
- LexerExpand.RuleExpand: definitions refer to lower-ranked ones only and do not end in a lone backslash; otherwise the code recurses forever or reads past the end. The capacity request in front of each definition has no effect on contents.
- VectorBuffers.Vector.Allocate: what `dbuf_realloc` answers is a parameter; positions up to 2^31-2, because the code adds one in 32 bits; rounding up does not wrap around, which the code asserts.
- VectorBuffers.Vector.Put: up to 2^32 bytes in all, where the position has not wrapped around yet.
- VectorBuffers.Vector.Emplace: the size is a whole number of elements, as for Find, Back and Pop.
- Escapes.PopUndoesPush: the delimiter is a dot, the only character that the pushing side escapes.
- KillRing.Editor.HandleKey: the other commands (history, completion, transposing, changing case), terminal output and the commands that end the session.
- XML, inspect, console, fs, child processes, bjson, the repeater and the rest of the line editor: input and output, user interface or glue. The predicates module evaluates a tree of foreign tests, which would add only easy members.
