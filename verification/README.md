# Verified models of the resource collection's algorithms

A Dafny 4.11 project that models the self-contained algorithms of this repository and proves what
they promise. `dafny verify dfyconfig.toml` checks everything.

## What is modelled

| file | models |
|---|---|
| `SuperDispatch.dfy` | `Class.extend`: method wrapping, the mutable `this._super` slot, `init` and the `initializing` flag |
| `TrailingSpace.dfy`, `Bytes.dfy` | `skip_trailing_space`, the word-at-a-time backward scan |
| `Utf8Codec.dfy`, `Bits.dfy`, `JsString.dfy` | the UTF-8 encoder and decoder of the help pages |
| `SearchText.dfy`, `SearchInput.dfy`, `SearchHits.dfy` | the help search: cleaning the input, scoring, masking, sorting and cutting |
| `BrowserHistory.dfy` | the history manager's back and forward stacks, Firefox branch |
| `Counters.dfy` | lock-protected and unprotected counters as interleaved steps; deadlines |
| `ByteOrder.dfy` | the `intNstore`, `uintNkorr` and `sintNkorr` macros in the IA-32 and portable builds |
| `Rint.dfy` | `rint` |
| `Easing.dfy` | the Quad, Cubic, Quart, Quint, Back and Bounce easing curves |
| `Cookies.dfy`, `Escape.dfy` | `setCookie`, `getCookie`, `deleteCookie` and `GetTopCookie` over one jar |

JavaScript strings are sequences of 16-bit code units. Code that updates state in place is a class
or an array method proved against a function; what the source promises is then proved of that
function. Methods in a class keep the source's branches and order; where a long method is split,
the parts are its own blocks.

Notable results:

- The `_super` wrapper means static super in every run where super is called only in methods that
  override a function and no handler sees an exception that has left a wrapped method. Outside
  that the slot is stale, since the wrapper has no `finally`: over every parent class,
  `CatchReachesN` and `LeakReachesCallersSuper` say which super is reached instead. No condition on
  the class text is exact, because a misplaced super call or a catching handler may be one that no
  run gets to, and because the super reached may happen to answer alike. `SlotsRestoredIffReturns`
  says when the slot is put back.
- A poll can miss the browser's forward or back: two equal neighbours make one poll go forward and
  straight back again, and from the first entry a forward to the initial location is taken for a
  back (`ForwardGoesBack`). Over whole runs the stacks are the browser's own history exactly as long
  as no such move is made (`InSyncIffSafe`).
- A page whose recorded digits are too few for its words scores NaN on the words past them and
  drops out of the result even if its title matches (`ScoresOnIff`, `TitleDoesNotSave`).
- `deleteCookie` leaves a cookie with an empty value alone (`DeleteCookie`).
- `GetTopCookie` takes a `name=` behind a blank inside an earlier value for the cookie
  (`TopCookieMisled`); `getCookie` does not.
- `indexesOf` does not end on an empty pattern (`SearchEndsIff`).
- The encoder replaces CRLF once only, so CR CR LF still leaves a CRLF (`PairIsLeftIff`).
- The encoder's output is well-formed UTF-8 exactly for strings without surrogate units
  (`EncoderOutputIsRfcText`); the decoder misreads every character of four bytes
  (`FourBytesMisread`), so encoding undoes it exactly on text without one.
- `MAX_EXACT_INTEGER` in `rint` matters for some reals (`GuardBitesBeyond`) but for no double.

Where code and comments differ the code is modelled: the comment on `skip_trailing_space` names the
zones so that bytes are compared in (c) and words in (b), while the code does the reverse.

Parameters stand for what the code takes from its host: `toLowerCase` and the stop-word table are
arbitrary functions in `SearchTerm`, regular-expression case folding is arbitrary in `SearchPage`,
the browser's verdict on cookie attributes is arbitrary in `Document`, and the time is a parameter
of `SetNsec`. `DBUG_ASSERT` on a small address is not needed and not assumed.

## Model

| member | source | states |
|---|---|---|
| `SuperDispatch.WrappedExactly` | js/formValidation.js:19-41 | a property of a class is wrapped exactly when it is a function that overrides a function and passes fnTest; otherwise it is copied |
| `SuperDispatch.TestFnIff` | js/formValidation.js:4 | fnTest passes every function, or exactly those whose text names `_super`, in a super call anywhere in the body or otherwise |
| `SuperDispatch.HidesSlotIff` | js/formValidation.js:27-31 | a body hides the slot exactly when no part of it reads, sets or calls a property called `_super` |
| `SuperDispatch.ResolveIsNearest` | js/formValidation.js:16-51 | property lookup along a prototype chain finds a layer exactly when that layer owns the name and no layer above it does |
| `SuperDispatch.ResolveFails` | js/formValidation.js:16-51 | it finds nothing exactly when no layer owns the name |
| `SuperDispatch.MethodIsNearest` | js/formValidation.js:16-51 | a property of an object is the nearest layer's, unless the object has one of its own |
| `SuperDispatch.InheritedIsParents` | js/formValidation.js:16-51 | calling a method runs the function of the nearest layer that has the name, at any depth, dynamically and statically |
| `SuperDispatch.EvalAgrees` | js/formValidation.js:24-38 | a clean run of any body, one in which no handler sees an exception that has left a wrapped method, has with the mutable `_super` slot the outcome and fields of static super resolution; unless such an exception ends it, every slot of every object is as before |
| `SuperDispatch.InvokeAgrees` | js/formValidation.js:24-38 | the same for a call of any function value, wrapped or not, with nested super and this calls and calls of other objects |
| `SuperDispatch.CleanCallIsStatic` | js/formValidation.js:4-41 | the same for a method call on any class chains built by extend with super well placed, whatever try blocks they hold, and either fnTest |
| `SuperDispatch.DisciplinedIsClean` | js/formValidation.js:24-38 | where no try block holds a call, every run is clean |
| `SuperDispatch.SuperDispatchIsStatic` | js/formValidation.js:4-41 | on any class chains with super well placed and for either fnTest, a call whose runs are clean finishes with a result exactly when static dispatch does, with the same result |
| `SuperDispatch.DisciplinedIsStatic` | js/formValidation.js:4-41 | the same for every call where no try block of the class texts holds a call |
| `SuperDispatch.StaticIsUnique` | js/formValidation.js:4-41 | that result is unique |
| `SuperDispatch.MoreFuelInvoke` | js/formValidation.js:24-38 | a finished call has the same result under any larger bound on nesting |
| `SuperDispatch.SlotsRestoredIffReturns` | js/formValidation.js:25-38 | on an object whose `_super` is unset, a wrapped call with a clean run leaves all slots as found if and only if it returns normally |
| `SuperDispatch.BoundStaysBound` | js/formValidation.js:24-38 | once some super is bound to an object, every evaluation, whatever its outcome, leaves some super bound to it |
| `SuperDispatch.CatchReachesN` | js/formValidation.js:33-36 | over every parent class with functions m and n: a method m that catches an exception out of n and then calls super runs the parent's n |
| `SuperDispatch.CatchMeansM` | js/formValidation.js:33-36 | statically that method runs the parent's m, so the two agree exactly when the parent's m and n do |
| `SuperDispatch.CatchLeavesStaleSuper` | js/formValidation.js:33-36 | a parent where they do not: the program answers 2 and static dispatch 1 |
| `SuperDispatch.LeakReachesCallersSuper` | js/formValidation.js:21-41 | over every parent class: a super call in a helper that overrides no function runs the super of its caller |
| `SuperDispatch.LeakMeansTypeError` | js/formValidation.js:21-41 | statically that call is a TypeError |
| `SuperDispatch.CallersSuperLeaks` | js/formValidation.js:21-41 | a parent whose method answers, so that the program returns where static dispatch throws |
| `SuperDispatch.Runtime.Eval` | js/formValidation.js:24-38 | the imperative evaluator on the page state has exactly the modelled dynamic meaning |
| `SuperDispatch.Runtime.Invoke` | js/formValidation.js:25-38 | the wrapper: save the slot, bind the overridden method, run, put back unless the body threw |
| `SuperDispatch.Runtime.New` | js/formValidation.js:43-48 | construction runs `init` exactly when no class is being defined, the class is not the base class and `init` is truthy |
| `SuperDispatch.Runtime.Extend` | js/formValidation.js:11-60 | extend runs no `init`, changes no field or slot, and yields the prototype chain of the class text with the new layer on top, in any listing order |
| `TrailingSpace.SkipTrailingSpace` | softwares/xampp/mysql/include/m_string.h:266-290 | for 4- and 8-byte words, every address, length and content, the result is the end of the naively trimmed string; every byte read lies in the string |
| `TrailingSpace.SkipWords` | softwares/xampp/mysql/include/m_string.h:281-284 | the word loop only reads aligned words inside the string and only passes over spaces |
| `TrailingSpace.WordBeforeIsBlank` | softwares/xampp/mysql/include/m_string.h:283 | comparing a word with SPACE_INT tests exactly whether its bytes are all spaces |
| `TrailingSpace.WordOfSpaces` | softwares/xampp/mysql/include/m_string.h:224-227 | a little-endian word equals SPACE_INT iff every byte is 0x20 |
| `TrailingSpace.TrimmedLengthIsTheCut` | softwares/xampp/mysql/include/m_string.h:231-264 | the naive length is the only cut with nothing but spaces after it and none just before it |
| `Utf8Codec.Utf8Encode` | softwares/Flash/sample/graffiti_library_1.2/docs/1.2/help.js:884-908 | the loop computes the place-value encoding of the newline-normalised string |
| `Utf8Codec.PairBecomesLineFeed` | softwares/Flash/sample/graffiti_library_1.2/docs/1.2/help.js:885 | whatever stands before and after it, a CRLF becomes one LF and both sides are normalised on their own |
| `Utf8Codec.UnchangedIffPairFree` | softwares/Flash/sample/graffiti_library_1.2/docs/1.2/help.js:885 | normalisation leaves a string alone exactly when it holds no CRLF, and otherwise shortens it |
| `Utf8Codec.PairIsLeftIff` | softwares/Flash/sample/graffiti_library_1.2/docs/1.2/help.js:885 | the replacement is not repeated: a CRLF is left in the result exactly when the string holds CR CR LF |
| `Utf8Codec.LeadByte` | softwares/Flash/sample/graffiti_library_1.2/docs/1.2/help.js:896-900 | the `or` with 192 or 224 adds the mark to the high bits |
| `Utf8Codec.ContinuationByte` | softwares/Flash/sample/graffiti_library_1.2/docs/1.2/help.js:897-902 | `& 63` and `or 128` give 128 plus the low six bits |
| `Utf8Codec.EncodesToBytes` | softwares/Flash/sample/graffiti_library_1.2/docs/1.2/help.js:890-905 | every emitted unit is a byte below 240, so no character of four bytes is written |
| `Utf8Codec.Utf8Decode` | softwares/Flash/sample/graffiti_library_1.2/docs/1.2/help.js:911-939 | the decoder terminates on every text and computes the recursive decoding |
| `Utf8Codec.DecodeAt` | softwares/Flash/sample/graffiti_library_1.2/docs/1.2/help.js:916-936 | one round emits one unit and moves the index strictly forward |
| `Utf8Codec.JoinTwo` | softwares/Flash/sample/graffiti_library_1.2/docs/1.2/help.js:925-926 | the two-byte join has its place value |
| `Utf8Codec.JoinThree` | softwares/Flash/sample/graffiti_library_1.2/docs/1.2/help.js:930-932 | the three-byte join has its place value |
| `Utf8Codec.DecodeUndoesEncode` | softwares/Flash/sample/graffiti_library_1.2/docs/1.2/help.js:884-939 | decoding undoes encoding on every sequence of 16-bit units, lone surrogates included |
| `Utf8Codec.RawRoundTrip` | softwares/Flash/sample/graffiti_library_1.2/docs/1.2/help.js:884-939 | decoding the encoding of raw text gives it back with each CRLF as an LF |
| `Utf8Codec.RawRoundTripIff` | softwares/Flash/sample/graffiti_library_1.2/docs/1.2/help.js:884-939 | the round trip is exact for a string iff it holds no CRLF |
| `Utf8Codec.CutShort` | softwares/Flash/sample/graffiti_library_1.2/docs/1.2/help.js:924-933 | a lead unit at the end of the text is decoded as if missing units were zero |
| `Utf8Codec.EncodeInjective` | softwares/Flash/sample/graffiti_library_1.2/docs/1.2/help.js:884-908 | two strings encode alike iff they agree after CRLF becomes LF |
| `Utf8Codec.EncodePreservesOrder` | softwares/Flash/sample/graffiti_library_1.2/docs/1.2/help.js:888-905 | encoding preserves and reflects lexicographic order |
| `Utf8Codec.UnitIsRfcChar` | softwares/Flash/sample/graffiti_library_1.2/docs/1.2/help.js:890-903 | a unit encodes to a character of section 4 of RFC 3629 iff it is no surrogate |
| `Utf8Codec.RfcCharIsEncoding` | softwares/Flash/sample/graffiti_library_1.2/docs/1.2/help.js:890-903 | every RFC 3629 character of at most three bytes is the encoding of the unit the decoder reads from it |
| `Utf8Codec.EncodeUndoesDecode` | softwares/Flash/sample/graffiti_library_1.2/docs/1.2/help.js:884-939 | on every RFC 3629 text of characters of at most three bytes, encoding undoes decoding, and no surrogate is decoded |
| `Utf8Codec.EncodeUndoesDecodeIff` | softwares/Flash/sample/graffiti_library_1.2/docs/1.2/help.js:884-939 | on RFC 3629 text of characters of any length, encoding undoes decoding iff none has four bytes |
| `Utf8Codec.RfcCharOfFour` | softwares/Flash/sample/graffiti_library_1.2/docs/1.2/help.js:929-934 | four bytes are an RFC 3629 character iff their fields spell a code point from 0x10000 to 0x10FFFF |
| `Utf8Codec.FourBytesMisread` | softwares/Flash/sample/graffiti_library_1.2/docs/1.2/help.js:929-934 | the decoder turns every such character into two units, neither of them half of the surrogate pair it stands for |
| `Utf8Codec.EncodingIsRfcText` | softwares/Flash/sample/graffiti_library_1.2/docs/1.2/help.js:888-905 | the whole output is RFC 3629 text iff the string has no surrogate unit |
| `Utf8Codec.EncoderOutputIsRfcText` | softwares/Flash/sample/graffiti_library_1.2/docs/1.2/help.js:884-908 | the encoder's output, newline normalisation included, is RFC 3629 text iff the string has no surrogate unit |
| `SearchText.CollapseFirstPair` | softwares/Flash/sample/graffiti_library_1.2/docs/1.2/help.js:687-691 | rewriting the first pair of white-space units does not change the fully collapsed text |
| `SearchText.SpacesAre` | softwares/Flash/sample/graffiti_library_1.2/docs/1.2/help.js:666-668 | the white-space units are the fourteen single ones and the range from 8192 to 8202 |
| `SearchText.SqueezeIsTidy` | softwares/Flash/sample/graffiti_library_1.2/docs/1.2/help.js:664-692 | white-space removal leaves none at the ends and none doubled |
| `SearchText.SqueezeIdempotent` | softwares/Flash/sample/graffiti_library_1.2/docs/1.2/help.js:664-692 | white-space removal is idempotent |
| `SearchText.SqueezeKeepsWords` | softwares/Flash/sample/graffiti_library_1.2/docs/1.2/help.js:664-692 | white-space removal keeps the sequence of words |
| `SearchText.SplitWords` | softwares/Flash/sample/graffiti_library_1.2/docs/1.2/help.js:372-377 | the non-empty pieces of a split at blanks are the maximal blank-free runs, in order |
| `SearchText.SplitTidy` | softwares/Flash/sample/graffiti_library_1.2/docs/1.2/help.js:540 | a tidy text splits into no empty piece |
| `SearchInput.SearchTerm.HandleWhitespaceRemoval` | softwares/Flash/sample/graffiti_library_1.2/docs/1.2/help.js:664-692 | the three loops terminate and compute the normal form |
| `SearchInput.FilterTheChars` | softwares/Flash/sample/graffiti_library_1.2/docs/1.2/help.js:720-754 | the filter works unit by unit and leaves no white space but blanks and nothing special in a regular expression but the period |
| `SearchInput.FilterLine` | softwares/Flash/sample/graffiti_library_1.2/docs/1.2/help.js:720-754 | the loop over the line, with its branches in order, computes that filter |
| `SearchInput.FindCode` | softwares/Flash/sample/graffiti_library_1.2/docs/1.2/help.js:696-703 | the scan of a table of codes answers whether the code is in it |
| `SearchInput.WithinAcceptableRanges` | softwares/Flash/sample/graffiti_library_1.2/docs/1.2/help.js:834-845 | the scan of the ranges answers whether the code lies in one of them |
| `SearchText.FilterUnitIs` | softwares/Flash/sample/graffiti_library_1.2/docs/1.2/help.js:731-747 | what becomes of a unit, in numbers: kept, lowered by 32 more, or a blank |
| `SearchText.FilterLeavesNoSpecial` | softwares/Flash/sample/graffiti_library_1.2/docs/1.2/help.js:731-747 | no unit special in a regular expression is left but the period |
| `SearchInput.SplitIs` | softwares/Flash/sample/graffiti_library_1.2/docs/1.2/help.js:540 | the pieces of a split are free of blanks and joined by blanks give the text back |
| `SearchInput.StripPeriodIs` | softwares/Flash/sample/graffiti_library_1.2/docs/1.2/help.js:548-550 | a piece loses exactly one final period, and nothing when it has none |
| `SearchInput.PatternsMatchMixed` | softwares/Flash/sample/graffiti_library_1.2/docs/1.2/help.js:526-527 | a word matches one of the two patterns exactly when it holds both a digit and something else |
| `SearchInput.SplitOfFiltered` | softwares/Flash/sample/graffiti_library_1.2/docs/1.2/help.js:535-540 | after filtering and white-space removal the split gives exactly the words |
| `SearchInput.SearchTerm.StripPeriods` | softwares/Flash/sample/graffiti_library_1.2/docs/1.2/help.js:543-551 | one final period is dropped from each piece |
| `SearchInput.SearchTerm.RemoveStopAndShortWords` | softwares/Flash/sample/graffiti_library_1.2/docs/1.2/help.js:553-572 | exactly the surviving words are kept in order; if none is, the flag is up |
| `SearchInput.SurvivesIff` | softwares/Flash/sample/graffiti_library_1.2/docs/1.2/help.js:558-571 | a word shorter than two never survives; one of two units iff it is no stop word and exactly one of them is a digit; a longer one iff it is no stop word |
| `SearchInput.SurvivorsGrow` | softwares/Flash/sample/graffiti_library_1.2/docs/1.2/help.js:543-572 | each word is judged on its own and the order stays, and a final period is dropped before the test |
| `SearchInput.SearchTerm.Reconstruct` | softwares/Flash/sample/graffiti_library_1.2/docs/1.2/help.js:574-578 | the term is rebuilt from the kept words |
| `SearchInput.RejoinedWords` | softwares/Flash/sample/graffiti_library_1.2/docs/1.2/help.js:574-580 | splitting the rebuilt term gives back the kept words |
| `SearchInput.SearchWordsSurvive` | softwares/Flash/sample/graffiti_library_1.2/docs/1.2/help.js:553-572 | no searched word is a stop word or shorter than two, and each is solid searchable text |
| `SearchInput.NothingToDecode` | softwares/Flash/sample/graffiti_library_1.2/docs/1.2/help.js:530 | text with no `%20` is unchanged by the decoding of blanks |
| `SearchInput.RunBecomesBlank` | softwares/Flash/sample/graffiti_library_1.2/docs/1.2/help.js:530 | a run of `%20` of any length that neither side continues becomes one blank, and both sides are decoded on their own |
| `SearchInput.EncodedBlanksPartWords` | softwares/Flash/sample/graffiti_library_1.2/docs/1.2/help.js:529-540 | such a run parts words: the words of the input are those of both sides, for every lower-casing that respects blanks |
| `SearchInput.EncodedBlanksPartSearch` | softwares/Flash/sample/graffiti_library_1.2/docs/1.2/help.js:529-572 | so the words searched are the survivors of the first hundred words of both sides |
| `SearchInput.SearchTerm.CheckTheInputString` | softwares/Flash/sample/graffiti_library_1.2/docs/1.2/help.js:521-593 | the message is empty iff a word survives; the words later split out of the term are the survivors of the first hundred, in order; "no term" iff the input holds no word |
| `SearchInput.SearchTerm.CheckTheInputString2` | softwares/Flash/sample/graffiti_library_1.2/docs/1.2/help.js:595-623 | the double-byte version: the message is empty iff lower-casing leaves text, and the words later split out of the term are as specified |
| `SearchInput.SearchWords2Are` | softwares/Flash/sample/graffiti_library_1.2/docs/1.2/help.js:595-623 | those are the first hundred words of the lower-cased text, and there are some iff there is text, where lower-casing leaves the text tidy |
| `SearchHits.RegexKeepsListed` | softwares/Flash/sample/graffiti_library_1.2/docs/1.2/help.js:463-484 | the regular-expression pre-check never drops a line that lists the word, under any case folding |
| `SearchHits.LiteralPattern` | softwares/Flash/sample/graffiti_library_1.2/docs/1.2/help.js:463-484 | where case folding tells all units apart, a pattern without a period passes exactly the text it occurs in |
| `SearchHits.PeriodPattern` | softwares/Flash/sample/graffiti_library_1.2/docs/1.2/help.js:463-484 | the pattern of one period passes exactly the text that holds more than line terminators |
| `SearchHits.IndexesOf` | softwares/Flash/sample/graffiti_library_1.2/docs/1.2/help.js:706-718 | for a non-empty pattern the loop ends, in one round more than there are, with the number of all, possibly overlapping, occurrences |
| `SearchHits.OccurrencesAre` | softwares/Flash/sample/graffiti_library_1.2/docs/1.2/help.js:706-718 | those are the positions at which the text can be cut into what stands before, the pattern and what stands after |
| `SearchHits.SearchEndsIff` | softwares/Flash/sample/graffiti_library_1.2/docs/1.2/help.js:706-717 | among the positions that loop takes, one ends it iff the pattern is not empty |
| `SearchHits.SearchPage.ContentHits` | softwares/Flash/sample/graffiti_library_1.2/docs/1.2/help.js:478-494 | the content half of the score: the recorded digit of the first listing of the word, NaN where there is no digit |
| `SearchHits.ScoreIsDigit` | softwares/Flash/sample/graffiti_library_1.2/docs/1.2/help.js:458-497 | a line listing the word at a piece whose recorded digit is d scores d, and 100 more if the title lists the word |
| `SearchHits.ScoreWithoutDigit` | softwares/Flash/sample/graffiti_library_1.2/docs/1.2/help.js:478-496 | with no digit recorded at that piece the score is NaN, whatever the title |
| `SearchHits.ScoreByTitle` | softwares/Flash/sample/graffiti_library_1.2/docs/1.2/help.js:464-496 | where the line does not list the word the score is 100 or 0, by the title |
| `SearchHits.SearchPage.CheckForHitsWordAgainstTitleAndLine` | softwares/Flash/sample/graffiti_library_1.2/docs/1.2/help.js:458-497 | the score is 100 for a title word plus that count; NaN if the count is |
| `SearchHits.SearchPage.CheckForHitsWordAgainstTitleAndLine2` | softwares/Flash/sample/graffiti_library_1.2/docs/1.2/help.js:499-513 | the double-byte score is 100 for a title containing the word plus all its occurrences in the line |
| `SearchHits.ScoreByText` | softwares/Flash/sample/graffiti_library_1.2/docs/1.2/help.js:499-513 | the double-byte score is the number of occurrences in the line, and 100 more if the title has any |
| `SearchHits.SearchPage.CheckForHitsWordAgainstPages` | softwares/Flash/sample/graffiti_library_1.2/docs/1.2/help.js:426-456 | unmasked pages get fresh scores, the other hit cells stay stale, and the answer says whether any unmasked page scored |
| `SearchHits.ScoresOnIff` | softwares/Flash/sample/graffiti_library_1.2/docs/1.2/help.js:458-497 | in single-byte mode a word scores a positive number on a page iff the title or the line lists it, with a recorded digit if the line does, and not with the digit 0 alone |
| `SearchHits.TitleDoesNotSave` | softwares/Flash/sample/graffiti_library_1.2/docs/1.2/help.js:458-497 | a page with the word for its title and its line and no recorded digit does not score on it |
| `SearchHits.MaskOneMore` | softwares/Flash/sample/graffiti_library_1.2/docs/1.2/help.js:400-409 | from a mask and a hit cell that is fresh if the page is unmasked, the mask of one more word, NaN included |
| `SearchHits.SearchPage.UpdateMasks` | softwares/Flash/sample/graffiti_library_1.2/docs/1.2/help.js:400-409 | after folding in a word each mask is 1 plus the scores so far, or falsy where a word did not score, and a masked-out page has a falsy hit cell |
| `SearchHits.SearchPage.ScoreWords` | softwares/Flash/sample/graffiti_library_1.2/docs/1.2/help.js:391-410 | either the masks account for all words, or the early exit is taken and no page matches |
| `SearchHits.NoHitNoMatch` | softwares/Flash/sample/graffiti_library_1.2/docs/1.2/help.js:393-398 | if a word scores on no page still unmasked, no page is scored on by every word, so the early exit loses nothing |
| `SearchHits.SearchPage.CollectMatches` | softwares/Flash/sample/graffiti_library_1.2/docs/1.2/help.js:412-418 | the pages with a truthy mask are the matching pages |
| `SearchHits.SearchPage.CheckForHits` | softwares/Flash/sample/graffiti_library_1.2/docs/1.2/help.js:366-424 | the result is, best first, exactly the pages every word scores on, each with 1 plus the sum of its scores |
| `SearchHits.SearchPage.InputWords` | softwares/Flash/sample/graffiti_library_1.2/docs/1.2/help.js:372-377 | the loop keeps the non-empty pieces in order |
| `SearchHits.MatchesAre` | softwares/Flash/sample/graffiti_library_1.2/docs/1.2/help.js:412-418 | the matches are exactly the pages below n on which every word scores, each with 1 plus its total |
| `SearchHits.HigherTotalComesFirst` | softwares/Flash/sample/graffiti_library_1.2/docs/1.2/help.js:420-423 | in any sorted arrangement of the matches a page with a higher total stands before one with a lower |
| `SearchHits.MoreInstancesComeFirst` | softwares/Flash/sample/graffiti_library_1.2/docs/1.2/help.js:420-423 | for one word and titles alike, a page with a higher recorded digit stands before one with a lower |
| `SearchHits.ExchangeKeepsPairs` | softwares/Flash/sample/graffiti_library_1.2/docs/1.2/help.js:311-314 | exchanging two counts and their shadows keeps the multiset of pairs |
| `SearchHits.BubbleSortWithShadow` | softwares/Flash/sample/graffiti_library_1.2/docs/1.2/help.js:306-317 | the counts end non-increasing and the (count, page) pairs are the same multiset |
| `SearchHits.ShownResults` | softwares/Flash/sample/graffiti_library_1.2/docs/1.2/help.js:319-328 | the cut keeps the first 30 at most, all when there are fewer, and none below a page left out |
| `SearchHits.CutIsBest` | softwares/Flash/sample/graffiti_library_1.2/docs/1.2/help.js:319-328 | against the unsorted matches, nothing shown has fewer hits than anything left out |
| `SearchHits.RespondToSearchButton` | softwares/Flash/sample/graffiti_library_1.2/docs/1.2/help.js:771-789 | in either mode, from the raw input to the shown results: the best of the pages that all words sought score on, or a message and no results |
| `BrowserHistory.BrowserHistory.constructor` | softwares/Flash/sample/examples_3_5_0/html-template/history/history.js:39-58 | a fresh page stands for an empty timeline at the initial page |
| `BrowserHistory.BrowserHistory.AddHistoryEntry` | softwares/Flash/sample/examples_3_5_0/html-template/history/history.js:171-233 | drops the forward part, replaces a current page of the same application URL, and visits the new entry |
| `BrowserHistory.BrowserHistory.HandleBackButton` | softwares/Flash/sample/examples_3_5_0/html-template/history/history.js:241-250 | moves the cursor back one, or does nothing at the start |
| `BrowserHistory.BrowserHistory.HandleForwardButton` | softwares/Flash/sample/examples_3_5_0/html-template/history/history.js:252-258 | moves the cursor forward one, or does nothing at the end |
| `BrowserHistory.BrowserHistory.HandleArbitraryUrl` | softwares/Flash/sample/examples_3_5_0/html-template/history/history.js:260-263 | forgets the forward part |
| `BrowserHistory.BrowserHistory.FireHandlers` | softwares/Flash/sample/examples_3_5_0/html-template/history/history.js:315-367 | the stacks after the handlers that one poll fires, in their order |
| `BrowserHistory.BrowserHistory.CheckForUrlChange` | softwares/Flash/sample/examples_3_5_0/html-template/history/history.js:313-371 | the poll refines one timeline step, and does nothing while the location is the known one |
| `BrowserHistory.PollStepsAddUp` | softwares/Flash/sample/examples_3_5_0/html-template/history/history.js:323-367 | firing the handlers one after the other amounts to one move: none, one step, or a truncation |
| `BrowserHistory.PollMovesOneStep` | softwares/Flash/sample/examples_3_5_0/html-template/history/history.js:313-367 | a poll moves the cursor by at most one and keeps the timeline or drops only its forward part |
| `BrowserHistory.PollDropsForward` | softwares/Flash/sample/examples_3_5_0/html-template/history/history.js:313-367 | from a page with a forward part, a poll drops all of it exactly when it takes the change neither for a back nor for a forward |
| `BrowserHistory.PollFindsHash` | softwares/Flash/sample/examples_3_5_0/html-template/history/history.js:323-346 | from every timeline, when the poll ends on an entry carrying the new hash: iff exactly one neighbour carries it or the current entry does, and on the first entry at the initial location, iff that entry or the initial page does |
| `BrowserHistory.ForwardIsFollowed` | softwares/Flash/sample/examples_3_5_0/html-template/history/history.js:313-346 | from every timeline, the poll after the browser's forward follows it iff the location is not the known one, the entry before does not carry the same hash, and it is not the initial location seen from the first entry |
| `BrowserHistory.BackIsFollowed` | softwares/Flash/sample/examples_3_5_0/html-template/history/history.js:313-346 | the poll after the browser's back follows it iff the location is not the known one and the entry after, or on the way to the initial page the entry left, does not carry the same hash |
| `BrowserHistory.ForwardGoesBack` | softwares/Flash/sample/examples_3_5_0/html-template/history/history.js:323-337 | from a page without a fragment, setting a URL, then the empty one, then back and forward: the last poll goes back instead |
| `BrowserHistory.UrlSetIsKnown` | softwares/Flash/sample/examples_3_5_0/html-template/history/history.js:562-567 | a URL set where the browser is not becomes the current entry; its location, and its hash, are the known ones iff it does not start with # |
| `BrowserHistory.FragmentOf` | softwares/Flash/sample/examples_3_5_0/html-template/history/history.js:147-160 | the fragment of a location and the location after setting one, with and without a number sign |
| `BrowserHistory.UrlSetAdds` | softwares/Flash/sample/examples_3_5_0/html-template/history/history.js:561-569 | where the location has a fragment, setting a URL adds an entry exactly when the URL is neither the fragment nor it with a number sign after it; otherwise nothing changes |
| `BrowserHistory.FirstUrlSetAdds` | softwares/Flash/sample/examples_3_5_0/html-template/history/history.js:561-569 | where it has none, it adds an entry exactly when the URL is not empty |
| `BrowserHistory.BrowserOpens` | softwares/Flash/sample/examples_3_5_0/html-template/history/history.js:561-569 | in the same two cases the browser opens a new page after the current one, or does nothing |
| `BrowserHistory.LocationIsKnown` | softwares/Flash/sample/examples_3_5_0/html-template/history/history.js:313-371 | over every run of URLs set without a leading # and browser moves with polls, the manager knows the location after each event |
| `BrowserHistory.StepSyncsIff` | softwares/Flash/sample/examples_3_5_0/html-template/history/history.js:313-371 | while the stacks are the browser's own history, a URL set or a move back or forward keeps them so iff the move is safe: not between pages other than the initial one with the same hash on both sides of the browser |
| `BrowserHistory.InSyncIffSafe` | softwares/Flash/sample/examples_3_5_0/html-template/history/history.js:313-371 | over every run of URLs set and moves back and forward, the stacks are the browser's history throughout iff every move is safe, which the browser's pages alone decide |
| `BrowserHistory.DistinguishableIsSafe` | softwares/Flash/sample/examples_3_5_0/html-template/history/history.js:313-371 | every move is safe where pages two apart have different hashes |
| `BrowserHistory.RoamIsRun` | softwares/Flash/sample/examples_3_5_0/html-template/history/history.js:313-371 | the page's side of such a run is a run of the timeline session |
| `BrowserHistory.TimelineIsVisited` | softwares/Flash/sample/examples_3_5_0/html-template/history/history.js:171-263 | over every run of URLs set, entries added, buttons and polls the timeline holds the hashes of added entries in order |
| `BrowserHistory.BrowserHistory.SetBrowserURL` | softwares/Flash/sample/examples_3_5_0/html-template/history/history.js:552-572 | navigation by the application: visits one entry and sets the known location, or does nothing if the browser is there |
| `BrowserHistory.BrowserHistory.Handle` | softwares/Flash/sample/examples_3_5_0/html-template/history/history.js:171-371 | each event changes the stacks, the known and the actual location as one step of the timeline session |
| `BrowserHistory.BrowserHistory.Replay` | softwares/Flash/sample/examples_3_5_0/html-template/history/history.js:171-371 | the two stacks refine the timeline session over every sequence of events |
| `Counters.AlwaysConsistent` | softwares/xampp/mysql/include/my_pthread.h:888-903 | in every interleaving only the lock's holder is inside, and the counter lacks only the holder's pending change |
| `Counters.GuardedCounterIsExact` | softwares/xampp/mysql/include/my_pthread.h:888-903 | whenever the lock is free the counter is its start value plus all completed operations; no two threads are ever inside |
| `Counters.SumBalances` | softwares/xampp/mysql/include/my_pthread.h:888-903 | the operations' total is what increments and additions put on less what decrements and subtractions take off |
| `Counters.WhoMayMove` | softwares/xampp/mysql/include/my_pthread.h:888-903 | with the lock free every acquire and nothing else can happen; while it is held exactly its holder's next step can |
| `Counters.OneMoreCompletes` | softwares/xampp/mysql/include/my_pthread.h:888-903 | wherever the lock is free any thread can complete any operation, which changes the counter by its amount and frees the lock |
| `Counters.RacyAlways` | softwares/xampp/mysql/include/my_pthread.h:925-928 | the invariant of the unguarded increment over every run |
| `Counters.UnguardedCounterBounds` | softwares/xampp/mysql/include/my_pthread.h:915-928 | the unguarded counter lies between one and the number of stores above its start, and is exact iff no store fell between another thread's load and store |
| `Counters.UpdatesCanBeLost` | softwares/xampp/mysql/include/my_pthread.h:915-928 | for any number of threads there is a run whose increments count as one |
| `Counters.Timespec.SetNsec` | softwares/xampp/mysql/include/my_pthread.h:435-440 | the deadline is normalised and equals now plus the delay to the nanosecond |
| `Counters.Timespec.Compare` | softwares/xampp/mysql/include/my_pthread.h:444-467 | on normalised times the comparison is the sign of the difference |
| `ByteOrder.StoredValue` | softwares/xampp/mysql/include/my_global.h:1049-1052 | n stored bytes spell the integer modulo 2^(8n), for every integer |
| `ByteOrder.StoreOfValue` | softwares/xampp/mysql/include/my_global.h:1049-1052 | every n bytes are the stored form of the number they spell |
| `ByteOrder.SignedReadsBack` | softwares/xampp/mysql/include/my_global.h:1136-1150 | a two's-complement reading gives the stored integer iff it fits |
| `ByteOrder.Int2Store` | softwares/xampp/mysql/include/my_global.h:1180-1183 | both builds write the two low bytes in place and nothing else |
| `ByteOrder.Int3Store` | softwares/xampp/mysql/include/my_global.h:1184-1188 | both builds write the three low bytes in place and nothing else |
| `ByteOrder.Int4Store` | softwares/xampp/mysql/include/my_global.h:1189-1192 | both builds write the four low bytes in place and nothing else |
| `ByteOrder.Int5Store` | softwares/xampp/mysql/include/my_global.h:1193-1198 | writes the five low bytes in place and nothing else |
| `ByteOrder.Int6Store` | softwares/xampp/mysql/include/my_global.h:1199-1205 | writes the six low bytes in place and nothing else |
| `ByteOrder.Int8Store` | softwares/xampp/mysql/include/my_global.h:1206-1208 | both builds write the eight low bytes in place and nothing else |
| `ByteOrder.Uint2korr` | softwares/xampp/mysql/include/my_global.h:1151-1152 | both builds read the little-endian number of two bytes |
| `ByteOrder.Uint3korr` | softwares/xampp/mysql/include/my_global.h:1072-1078 | reading four bytes and masking, or adding three, gives the little-endian number of three bytes |
| `ByteOrder.Uint4korr` | softwares/xampp/mysql/include/my_global.h:1156-1159 | both builds read the little-endian number of four bytes |
| `ByteOrder.Uint5korr` | softwares/xampp/mysql/include/my_global.h:1160-1164 | reads the little-endian number of five bytes |
| `ByteOrder.Uint6korr` | softwares/xampp/mysql/include/my_global.h:1165-1170 | reads the little-endian number of six bytes |
| `ByteOrder.Uint8korr` | softwares/xampp/mysql/include/my_global.h:1171-1179 | both builds read the little-endian number of eight bytes |
| `ByteOrder.Sint2korr` | softwares/xampp/mysql/include/my_global.h:1136-1137 | both builds read two bytes in two's complement |
| `ByteOrder.Sint3korr` | softwares/xampp/mysql/include/my_global.h:1138-1145 | filling in the sign byte reads three bytes in two's complement |
| `ByteOrder.Sint4korr` | softwares/xampp/mysql/include/my_global.h:1146-1149 | both builds read four bytes in two's complement |
| `ByteOrder.Sint8korr` | softwares/xampp/mysql/include/my_global.h:1150 | both builds read eight bytes in two's complement |
| `ByteOrder.UnsignedRoundTrips` | softwares/xampp/mysql/include/my_global.h:1055-1208 | in either build every unsigned reader gives the stored integer modulo 2^(8n), whatever bytes follow, if any; only the IA-32 reader of three bytes needs one |
| `ByteOrder.SignedRoundTrips` | softwares/xampp/mysql/include/my_global.h:1055-1208 | in either build every signed reader gives the stored integer iff it fits the width |
| `ByteOrder.StoreThenRead` | softwares/xampp/mysql/include/my_global.h:1055-1208 | the store of each width in an array and then the unsigned reader on it give the integer modulo 2^(8n) and change nothing else |
| `ByteOrder.StoreThenReadSigned` | softwares/xampp/mysql/include/my_global.h:1055-1208 | the same with the signed readers: the integer comes back iff it fits |
| `Rint.Rint` | softwares/xampp/mysql/include/my_global.h:1459-1476 | on every real the result is half-even rounding iff the value is not an odd tie beyond MAX_EXACT_INTEGER |
| `Rint.MaxExactIs` | softwares/xampp/mysql/include/my_global.h:1449 | the bound is 9007199254740991, 2^53 - 1 |
| `Rint.GuardNeverBites` | softwares/xampp/mysql/include/my_global.h:1463-1474 | no double is such a tie, so the guard never changes the result |
| `Rint.GuardBitesBeyond` | softwares/xampp/mysql/include/my_global.h:1463-1474 | a half above any odd integer beyond the bound is such a tie, and no double |
| `Rint.GuardBitesIff` | softwares/xampp/mysql/include/my_global.h:1463-1474 | the ties that meet the guard are exactly those and their negatives |
| `Rint.ScaledIsDouble` | softwares/xampp/mysql/include/my_global.h:1463-1465 | every significand of at most 53 bits times or over a power of two is a double |
| `Rint.RoundsToNearestEven` | softwares/xampp/mysql/include/my_global.h:1451-1457 | half-even rounding is the one integer within a half, even when two are |
| `Rint.RoundIsOdd` | softwares/xampp/mysql/include/my_global.h:1459-1476 | rounding is an odd function |
| `Rint.RoundIsMonotone` | softwares/xampp/mysql/include/my_global.h:1459-1476 | rounding is monotone |
| `Rint.RoundedIsDouble` | softwares/xampp/mysql/include/my_global.h:1459-1476 | the rounded double is a double, so the sums are exact |
| `Easing.CurvesIncrease` | js/jquery.easing.1.3.js:48-87 | In, Out and InOut of Quad, Cubic, Quart and Quint increase strictly over the duration, across the InOut seam |
| `Easing.InOutMirrors` | js/jquery.easing.1.3.js:48-86 | In and Out mirror each other |
| `Easing.InOutSelfMirrors` | js/jquery.easing.1.3.js:54-87 | InOut mirrors itself about the middle |
| `Easing.CurvesEnds` | js/jquery.easing.1.3.js:48-87 | every curve runs from b to b + c |
| `Easing.HalfWayValues` | js/jquery.easing.1.3.js:48-87 | half-way In is at 1/4, 1/8, 1/16 and 1/32, Out as far from the end, and InOut at a quarter of the time half as far as In |
| `Easing.BackUndershoot` | js/jquery.easing.1.3.js:141-144 | easeInBack never falls below b - 4cs^3 / 27(s+1)^2 and attains it within the duration |
| `Easing.BackMirrors` | js/jquery.easing.1.3.js:141-148 | easeOutBack mirrors easeInBack |
| `Easing.BackEnds` | js/jquery.easing.1.3.js:141-148 | both Back curves run from b to b + c; with no overshoot easeInBack is easeInCubic |
| `Easing.BounceSeams` | js/jquery.easing.1.3.js:157-167 | adjacent parabolas of easeOutBounce agree at the three break points |
| `Easing.BounceBottoms` | js/jquery.easing.1.3.js:158-166 | the four parabolas bottom out at 0, 0.75, 0.9375 and 0.984375, each at its own time only |
| `Easing.BounceVisits` | js/jquery.easing.1.3.js:157-167 | easeOutBounce starts at b, reaches b + c at the three seams and the end, and those bottoms in between |
| `Easing.BounceStaysWithin` | js/jquery.easing.1.3.js:154-171 | no Bounce curve leaves [b, b + c] |
| `Easing.BounceMirrors` | js/jquery.easing.1.3.js:168-171 | easeInOutBounce mirrors itself |
| `Escape.UnescapeUndoesEscape` | softwares/Flash/sample/graffiti_library_1.2/docs/1.2/cookies.js:31-65 | unescape undoes escape (sections B.2.1 and B.2.2 of ECMA-262 5.1) on every string of 16-bit units |
| `Escape.EscapeSpells` | softwares/Flash/sample/graffiti_library_1.2/docs/1.2/cookies.js:31 | escape keeps ASCII letters, digits and `@*_+-./` and spells every other unit in two or four upper-case hexadecimal digits |
| `Escape.UnescapeReadsShort` | softwares/Flash/sample/graffiti_library_1.2/docs/1.2/cookies.js:65 | unescape reads a percent sign and two hexadecimal digits in either case as the unit they spell |
| `Escape.UnescapeReadsLong` | softwares/Flash/sample/graffiti_library_1.2/docs/1.2/cookies.js:65 | unescape reads `%u` and four hexadecimal digits in either case as the unit they spell |
| `Escape.UnescapeKeeps` | softwares/Flash/sample/graffiti_library_1.2/docs/1.2/cookies.js:65 | any other unit stands for itself, a percent sign without its digits included |
| `Escape.EscapedUnits` | softwares/Flash/sample/graffiti_library_1.2/docs/1.2/cookies.js:31 | an escaped value holds no break character |
| `Cookies.FirstCookieNamed` | softwares/Flash/sample/graffiti_library_1.2/docs/1.2/cookies.js:53-54 | the string starts with `name=` iff its first cookie has the name |
| `Cookies.OccurrenceIsCookie` | softwares/Flash/sample/graffiti_library_1.2/docs/1.2/cookies.js:50 | every occurrence of `; name=` introduces a later cookie of that name |
| `Cookies.NamedAfterBreak` | softwares/Flash/sample/graffiti_library_1.2/docs/1.2/cookies.js:50 | a later cookie has the name iff `; name=` occurs just before it |
| `Cookies.Document.CookieStart` | softwares/Flash/sample/graffiti_library_1.2/docs/1.2/cookies.js:48-58 | the two substring searches give the place after the first `; name=`, or 0 for a leading `name=`, or nothing when neither occurs |
| `Cookies.Document.FindCookie` | softwares/Flash/sample/graffiti_library_1.2/docs/1.2/cookies.js:48-65 | the text found there is the stored value, or nothing when the name is absent |
| `Cookies.Document.GetCookie` | softwares/Flash/sample/graffiti_library_1.2/docs/1.2/cookies.js:46-66 | returns the unescaped value under the name, or null |
| `Cookies.TopStartIsFirst` | softwares/Flash/sample/graffiti_library_1.2/docs/1.2/help.js:193-205 | from any position, the scan finds the first place, there or just after a later blank, where the sought text stands |
| `Cookies.Document.TopPosition` | softwares/Flash/sample/graffiti_library_1.2/docs/1.2/help.js:198-203 | the loop from blank to blank ends on every text and finds that place |
| `Cookies.Document.GetTopCookieVal` | softwares/Flash/sample/graffiti_library_1.2/docs/1.2/help.js:188-192 | the unescaped text up to the next semicolon or the end |
| `Cookies.TopStartIsOwn` | softwares/Flash/sample/graffiti_library_1.2/docs/1.2/help.js:193-205 | for values with blanks too, that place is the name's own cookie, or none if there is none, iff no earlier blank is followed by `name=` |
| `Cookies.TopTextReads` | softwares/Flash/sample/graffiti_library_1.2/docs/1.2/help.js:193-205 | then the answer is the stored value, unescaped, or null |
| `Cookies.BlankFreeIsNotMisled` | softwares/Flash/sample/graffiti_library_1.2/docs/1.2/help.js:193-205 | where no value holds a blank that is always so |
| `Cookies.TopCookieMisled` | softwares/Flash/sample/graffiti_library_1.2/docs/1.2/help.js:193-205 | on `a=x b=decoy; b=w`, for any names and such values, getCookie answers w and GetTopCookie the decoy |
| `Cookies.Document.GetTopCookie` | softwares/Flash/sample/graffiti_library_1.2/docs/1.2/help.js:193-205 | on every jar the text at that place, and the same lookup as getCookie unless misled by a blank |
| `Cookies.StoredParses` | softwares/Flash/sample/graffiti_library_1.2/docs/1.2/cookies.js:31-35 | the browser reads back from the assigned text exactly the name and the text after it without blanks around, and judges exactly the attributes |
| `Cookies.AttributesSpell` | softwares/Flash/sample/graffiti_library_1.2/docs/1.2/cookies.js:32-35 | the attribute text, each part spelled out and left out when not given or empty; deletion names the date of 1970 |
| `Cookies.TrimIs` | softwares/Flash/sample/graffiti_library_1.2/docs/1.2/cookies.js:31-35 | blanks and tabs around a name or value are dropped and nothing else |
| `Cookies.SerializeSpells` | softwares/Flash/sample/graffiti_library_1.2/docs/1.2/cookies.js:48 | the cookie string is name, equals sign and value, parted by a semicolon and a blank |
| `Cookies.UpsertValues` | softwares/Flash/sample/graffiti_library_1.2/docs/1.2/cookies.js:31 | storing updates the jar at one name |
| `Cookies.StoredReads` | softwares/Flash/sample/graffiti_library_1.2/docs/1.2/cookies.js:31-35 | after the browser takes the text, the name reads back what was written if the attributes let the document see the cookie, nothing if they expire it, and what it did otherwise; other names read as before |
| `Cookies.Document.SetCookie` | softwares/Flash/sample/graffiti_library_1.2/docs/1.2/cookies.js:29-36 | afterwards the name reads back as the verdict on the attributes written has it, every other name as before, and the jar stays valid |
| `Cookies.Document.SetTopCookie` | softwares/Flash/sample/graffiti_library_1.2/docs/1.2/help.js:213-217 | SetCookie of help.js writes its value as it is: what reads back is the part before a semicolon, trimmed and unescaped, and the rest counts as attributes |
| `Cookies.Document.DeleteCookie` | softwares/Flash/sample/graffiti_library_1.2/docs/1.2/cookies.js:75-84 | the same with the expired date, except that a cookie with an empty value is left alone |

## Left out

- SuperDispatchIsStatic: is about calls whose runs are clean and class texts with super well placed. A body that reads, assigns or calls `_super` other than by a super call is outside that, as is a call of `_super` from elsewhere.
- SuperDispatchIsStatic: nesting is bounded by a fuel argument that the theorem quantifies away; running out of stack is not an outcome of its own.
- Eval: method bodies compute with numbers; functions as values of fields, and other JavaScript values, are not in the language.
- ContentHits: every page has a string of recorded digits; without one the source throws.
- CheckForHitsWordAgainstTitleAndLine2: asks for a title and a line; with a null title the source throws.
- IndexesOf: asks for a non-empty pattern, on which alone it ends.
- GetCookie: asks for a name without '=', ';', blanks and tabs, and a jar of such names with distinct entries and no ';' in values.
- InSyncIffSafe: assumes that setting a new fragment opens one page in the browser's history and forgets those ahead, that a poll runs after each move, and that URLs set do not start with '#'.
- SetCookie: what the browser makes of the attributes is a parameter; a second cookie of the same name that another path or domain makes visible beside the first is not modelled.
- SetNsec: machine-word overflow of times is not modelled; nor is that of the counters.
- Rint: infinities, NaN, the sign of zero and the exponent range are not modelled.
- BackUndershoot: takes the overshoot s as given; the default 1.70158 is one value of it.
- `strReplace` and the display of results: they would add only easy members.
- The result lines' HTML, alerts, timers, callbacks into the Flash player and page anchors.
- The Internet Explorer and Safari branches of history.js, and page titles of history entries.
- `set_timespec`, the Windows timespec layout and the interlocked Windows counters.
- Floating-point formats in my_global.h and the big-endian byte macros.
- The Sine, Expo, Circ and Elastic easing curves and easeInOutBack; the rounding of doubles in the curves.
- The older `GetCookie`, which repeats `GetTopCookie`.
- Form validation, SWF embedding and the remaining scripts and headers of the repository.
