# A verified model of phplang's value core

phplang runs PHP programs on Rust. This project models the parts of it where a small slip gives a wrong
answer rather than a crash, and proves what they are for:

- **the byte-string representation**: a PHP string is bytes, a Rust string is Unicode text, and a stray byte
  is kept as one escape character `U+10FF00 + byte`. `Utf8.dfy` follows section 4 of RFC 3629 and Table 3-7
  of the Unicode Standard; `StoredStrings.dfy` holds the theory of the stored form (round trip, canonical form,
  the seam theorem behind the constant-work `append`), `ByteStrings.dfy` the loops and the buffer that is
  appended to in place, and `Decoders.dfy` the two decoders and what they agree on;
- **the intercept matcher** (`Glob.dfy`): one backtrack point against the recursive meaning of `?` and `*`;
- **the constant-expression printer** (`AstExport.dfy`), read back twice: by a precedence-climbing reader
  over the printer's own table, which is a device of this model, and by phplang's own expression parser
  (`ConstParser.dfy`, with `Regrouping.dfy` for the trees it makes and `ReadBack.dfy` for the proof);
  `Parentheses.dfy` says which of its parentheses are needed;
- **the comparison operators and builtins**: `Compare.dfy` with `Orderings.dfy`, `MinMax.dfy` with `Extremes.dfy`
  and `HandOvers.dfy`, `Power.dfy`, `Range.dfy`, `WordWrap.dfy`, `Json.dfy` with `JsonSpelling.dfy`, `Explode.dfy`,
  `NumberFormat.dfy`;
- **the sort** that every PHP sort runs (`ZendSort.dfy`), in place, and the walk over its result that
  `array_unique` makes (`Unique.dfy`);
- **argument binding**: named arguments (`ArgBinding.dfy`) and the two per-parameter tables that are merged
  by position (`CheckArgs.dfy`), with what each declared type lets through (`DeclaredTypes.dfy`).

`Common.dfy` holds what several of these share.

Code that is a loop over changing variables is a method here, proved against a function; what the source
promises is then proved about that function. The printer's sink and the string that `.=` grows are classes. Doubles
are not a number, infinite, or a real number; integers are mathematical ones, with the width of the machine
written out wherever the code depends on it. What the interpreter's host supplies (the number a string reads
as, the text of a number, whether a value is callable) is a record of functions, with the one coherence
condition a theorem needs.

## What does not hold, and exactly when it does

- **A printed default is not always read back.** The printer parenthesizes by the priority table of
  `src/ast_export.rs`, and that table is sound by itself: a reader that climbs it takes every default of
  non-negative literals back (`AstExport.ExportReadsBack`). The parser of `src/parser.rs` groups otherwise in two
  places. It attaches `?` to the last operand, so `(a ? b : c) ? d : e`, printed without its parentheses, is read as
  `a ? b : (c ? d : e)`, and the same goes for `?:` and `??` as a condition. And it reads `<=>` at the level of the
  equalities, so `a === (b <=> c)`, printed as if `<=>` bound tighter, is read as `(a === b) <=> c`.
  The text is the one the printer is for, that of `zend_ast_export`; what fails is reading it back.
  `ReadBack.PrintedIsRegrouped` says what is read for every default, and `ReadBack.ParserReadsBack`
  exactly when that is the default itself.
- **`max` and the plain fold part at a NaN**: `max` tests by `<`, which keeps a NaN that came first and passes over
  every other, and the fold takes each NaN and then whatever follows. `HandOvers.MaxCallMeetsFold` says exactly on
  which calls they pick one argument, and `Extremes.MaxMeetsFold`, for numbers that doubles hold, also on which one
  number. `min` picks what the fold picks always.

## What the theorems rest on

Where a theorem is an equivalence, it says that its condition is needed and how much. Each condition below names
the code that sees to it, or the obligation the source states.

- The matcher decides the language of a pattern exactly on the texts without `*` (`Glob.GlobMatchIsExact`), as it
  tries byte equality before the star. Its texts are function names, and the lexer takes a name's bytes from letters,
  digits, `_` and the bytes above ASCII (`src/lexer.rs:337-341`).
- An integer literal is not negative: the lexer reads digits (`src/lexer.rs:405-423`), the parser passes the number on
  (`src/parser.rs:4044`) and makes a minus sign a negation (`src/parser.rs:3624-3626`). A negative literal
  would read back as that negation.
- Strings are canonical. The source states this as an obligation of the engine's boundary, where concatenation and
  every library result are to be made so (`src/bytes.rs:31-34`); the boundary itself is not modelled. `==` compares
  what is stored and `<=>` what it stands for, so a value agrees with every canonical one under both exactly when it
  is canonical itself (`Compare.AgreesExactlyOnCanonical`).
- No parameter without a published default stands behind one that has one, the last parameter aside: then every
  slot that a call jumps over has a default, although only the first is asked (`ArgBinding.HolesPublishedExactly`).
  The rows of the signature table in `src/argsig.rs` are such, with the required parameters first.
- No string reads as a NaN, and one that reads as a number is plain text: the host's scanner of numbers takes
  digits, a point and an exponent (`src/host.rs:12843-12899`).

## Model

| member | source | states |
|---|---|---|
| Utf8.EncodeDecode | src/bytes.rs:85-110 | a character that decodes by Table 3-7 is encoded to the bytes it was read from, so no two byte sequences give one character |
| Utf8.DecodeEncode | src/bytes.rs:119-127 | an encoded character is recognised and read back whatever bytes follow it |
| Utf8.CharLenPrefix | src/bytes.rs:85-110 | whether a position starts a character, and which, depends on that character's own bytes alone |
| Utf8.InvalidLenIsMaximalSubpart | src/bytes.rs:98-106 | the bytes given up at an invalid position are the longest initial part of some well-formed character there, or one byte |
| Utf8.ErrorLen | src/bytes.rs:100-102 | no error length is given exactly when the input ends inside a character, and then the rest of the input is given up |
| StoredStrings.HasRawIsHasEscape | src/bytes.rs:56-60 | looking for the byte 0xF4 first never changes the answer of `has_raw` |
| StoredStrings.PlainTextIsItself | src/bytes.rs:69-72 | text without escapes is its own UTF-8 bytes and its own stored form, which is what the early returns rely on |
| StoredStrings.BytesOfStored | src/bytes.rs:69-110 | `to_bytes(from_bytes(b)) == b` for every byte string, so storing is injective |
| StoredStrings.StoredUtf8 | src/bytes.rs:114-146 | storing text is storing its UTF-8 bytes, characters of the escape range included |
| StoredStrings.InsideIsTrail | src/bytes.rs:173-179 | UTF-8 is self-synchronising: a position inside a character holds a trail byte |
| StoredStrings.MergesAppended | src/bytes.rs:173-179 | a character that spans a position still spans it when bytes are put in front |
| StoredStrings.StoredSplit | src/bytes.rs:173-179 | where no character spans the cut, the stored form of the whole is the two stored forms side by side |
| StoredStrings.TrailRun | src/bytes.rs:85-110 | leading trail bytes are each an escape, whatever follows |
| StoredStrings.EscapesAcross | src/bytes.rs:173-179 | the bytes of a character cut at a seam, at most four in all, end the left stored string and begin the right one as escapes |
| StoredStrings.NoSpanAtTail | src/bytes.rs:148-160 | no character reaches back past the last three escapes of the left string |
| StoredStrings.NoSpanAtHead | src/bytes.rs:162-171 | no character reaches on past the first three escapes of the right string |
| StoredStrings.AppendedIsStored | src/bytes.rs:173-202 | the seam theorem: `append` on two stored byte strings gives the stored form of the bytes joined |
| StoredStrings.AppendedAllIsStored | src/bytes.rs:173-202 | any run of appends gives the stored form of all the bytes |
| StoredStrings.CanonicalIsStored | src/bytes.rs:234-242 | `canonical`, with its early return, is the stored form of the bytes |
| StoredStrings.CanonicalForm | src/bytes.rs:234-242 | canonicalising is idempotent, keeps the bytes, fixes exactly the image of `from_bytes`, and two strings have one canonical form exactly when they have the same bytes |
| ByteStrings.PushText | src/bytes.rs:112-129 | the loop appends the text's stored form, characters of the escape range as four escapes, whether or not it takes the early return |
| ByteStrings.FromBytes | src/bytes.rs:84-110 | the loop over `from_utf8`'s error position and length computes the stored form |
| ByteStrings.FromText | src/bytes.rs:131-146 | `from_text(t)` is `from_bytes` of the text's UTF-8 bytes |
| ByteStrings.ToBytes | src/bytes.rs:68-82 | the loop, or its early return, gives the PHP bytes |
| ByteStrings.ByteLen | src/bytes.rs:345-352 | the PHP length is the number of bytes that were stored |
| ByteStrings.PhpString.constructor | src/bytes.rs:84-110 | a string object begins as the stored form of its bytes |
| ByteStrings.PhpString.Append | src/bytes.rs:189-202 | appending in place re-derives only the seam, and leaves the stored form of the joined bytes |
| Decoders.PhpNextDecodes | src/bytes.rs:301-329 | the bit-by-bit decoder of ext/standard accepts exactly the characters of Table 3-7, with the same length and value |
| Decoders.PhpNextInvalid | src/bytes.rs:301-329 | its invalid unit is no shorter than the maximal subpart; it ends at the length that the first byte announces, at the end of the input, or at the first byte that could start a character |
| Decoders.LeadStartsCharacter | src/bytes.rs:311-329 | the bytes at which it stops are exactly those that begin some well-formed character |
| Decoders.PhpInvalidGroup | src/bytes.rs:294-329 | one invalid unit of it is one or more whole invalid units of the other decoder |
| Decoders.UnitsTile | src/bytes.rs:283-343 | the units of either decoder, joined, are the input |
| Decoders.DecodersAgree | src/bytes.rs:283-343 | the two decoders give the same characters in the same places, and each invalid unit of one groups invalid units of the other |
| Decoders.MbUnitsSynchronised | src/bytes.rs:283-292 | it holds a character at an offset exactly when the bytes there start that character, wherever decoding began |
| Decoders.PhpUnitsSynchronised | src/bytes.rs:333-343 | the same of ext/standard's decoder |
| Decoders.StoredByUnits | src/bytes.rs:261-292 | storing unit by unit, by either decoder, is `from_bytes` of the whole |
| Decoders.MbUnitsOf | src/bytes.rs:283-292 | the loop over valid runs and invalid subparts computes those units |
| Decoders.PhpUtf8Units | src/bytes.rs:331-343 | the loop over the remaining bytes computes the decoder's units |
| Glob.GlobMatch | src/intercepts.rs:65-89 | the loop terminates; it never accepts a text outside the pattern's language, and on a text without `*` it accepts exactly that language |
| Glob.RunIsSound | src/intercepts.rs:65-89 | from any reachable state, accepting means that the rest matches or that the last star can take more |
| Glob.LastStarDominates | src/intercepts.rs:75-82 | a match that an earlier star would find is found from the last star too, so one backtrack point is enough |
| Glob.RunIsComplete | src/intercepts.rs:65-89 | on a text without `*` no step of the loop loses a match |
| Glob.StarInTextDefeats | src/intercepts.rs:70-76 | every text with `*` has a pattern that matches it and that the loop rejects |
| Glob.GlobMatchIsExact | src/intercepts.rs:64-89 | the loop decides the language of every pattern exactly on the texts that hold no `*` |
| AstExport.Sink.Export | src/ast_export.rs:68-181 | printing appends to the sink the expression's tokens, in parentheses exactly where it binds looser than asked |
| AstExport.Sink.ExportElems | src/ast_export.rs:108-125 | the loop over an array's elements appends their entries with commas between |
| AstExport.ReadsBack | src/ast_export.rs:68-181 | printed for any priority, and followed by anything a looser operator could follow with, an expression of non-negative literals is read back whole |
| AstExport.ExportReadsBack | src/ast_export.rs:68-273 | a reader that climbs the printer's own table, with `??` and `**` to the right and the rest to the left, takes the tokens back exactly when no literal is negative: by that table the parentheses suffice |
| Parentheses.LeftParentheses | src/ast_export.rs:68-273 | a left operand printed in parentheses is read otherwise without them, unless it is a comparison or equality beside another of its level |
| Parentheses.RightParentheses | src/ast_export.rs:68-273 | so is the last operand of any operator, unless a prefix operator begins it |
| Parentheses.MiddleParentheses | src/ast_export.rs:150-161 | between `?` and `:` parentheses change nothing |
| ReadBack.PrintedIsRegrouped | src/parser.rs:3450-3475 | what the expression parser reads for every printed default: `?`, `?:` and `??` attach to the last operand before them, and a `<=>` to the right of an equality takes the equality |
| ReadBack.ParserReadsBack | src/parser.rs:3450-3570 | the parser reads a printed default back as itself exactly when no literal is negative, no ternary, elvis or `??` is a condition, and no `<=>` stands to the right of an equality |
| ReadBack.TernaryReads | src/parser.rs:3450-3475 | the same of any part, printed at any priority and followed by any chain of `?` and `:` |
| ReadBack.BinaryReads | src/parser.rs:3477-3514 | what is printed above the priority of `??` is one operand of the climbing loop, from any binding power that its operator allows |
| ReadBack.UnaryReads | src/parser.rs:3618-3629 | what is printed for an operand of a prefix operator or of `**` is read by the unary level whole |
| ReadBack.ElemsRead | src/parser.rs:4438-4487 | a printed list of elements, keys and references is read element by element |
| ReadBack.PowersFollowPriorities | src/parser.rs:3547-3567 | the parser's binding powers order the operators as the printer's priorities do, but for `<=>` to the right of an equality |
| Regrouping.RegroupsToItself | src/ast_export.rs:126-165 | the regrouping leaves a tree as it is exactly under that condition, through every array and operand |
| ReadBack.NestedTernary | src/ast_export.rs:155-161 | the smallest default with a ternary for a condition, and what is read |
| ReadBack.CoalesceCondition | src/ast_export.rs:150-161 | the smallest one with a `??` for a condition |
| ReadBack.SpaceshipOperand | src/ast_export.rs:269 | the smallest one with a `<=>` to the right of an equality |
| Compare.StrCmpZero | src/builtins.rs:4497-4510 | two stored strings compare 0 exactly when their bytes are the same, which for canonical strings is when they are |
| Orderings.StringOrder | src/builtins.rs:4371-4378 | strings that are not both numbers: -1 exactly when the bytes of the left one come first, by the first place where they differ or one ends; 1 the other way round, and 0 for the same bytes |
| Orderings.PrecedesIsTotal | src/builtins.rs:4497-4510 | that order is strict and total |
| Orderings.IntegerOrder | src/builtins.rs:4573-4580 | two integers are in the order of the integers, however large |
| Orderings.DoubleOrder | src/builtins.rs:4517-4525 | with a double on either side: -1 exactly when a real number separates them, 0 for equal ones, and 1 for a NaN on either side |
| Orderings.NearestDoubleIsNearest | src/builtins.rs:4573-4582 | the double an integer is compared as: no double is nearer, and of two equally near it is the even one |
| Orderings.NumericStringIsItsNumber | src/builtins.rs:4371-4395 | a string that reads as a number compares, with a number or another such string, as that number does |
| Orderings.OtherStringMeetsText | src/builtins.rs:4370-4395 | any other string compares with the text of the number, and a NaN gives 1 on either side |
| Orderings.NullIsEmptyString | src/builtins.rs:4342-4344 | `null` compares with a string as the empty one |
| Orderings.TruthOrder | src/builtins.rs:4345-4348 | a boolean, or `null` against anything else, compares by truth, with the seven false values named |
| Orderings.ArrayIsGreater | src/builtins.rs:4362-4364 | an array is greater than any number or string |
| Orderings.LongerIsGreater | src/builtins.rs:4420-4422 | of two arrays the one with more entries is greater |
| Orderings.FirstDifferenceDecides | src/builtins.rs:4423-4433 | of two arrays of one size the first entry of the left one that does not compare equal to the right one's entry of that key decides; a missing key makes the left one greater; 0 means that none differs |
| Compare.LooseEqIsCompareZero | src/builtins.rs:4191-4433 | on canonical strings, numbers, booleans, null and nested arrays, `==` holds exactly when `<=>` is 0 |
| Compare.AgreesExactlyOnCanonical | src/builtins.rs:4191-4433 | a value, however deep its arrays, agrees under both operators with every canonical value exactly when all its own strings are canonical |
| Compare.StringsAgree | src/builtins.rs:4207-4215 | two strings that are not both numbers agree under both exactly when comparing the stored strings comes to comparing their canonical forms |
| Compare.CanonicalIsNeeded | src/builtins.rs:4211-4215 | the smallest string on which they part: two escapes against the character they make |
| Compare.PairsAgree | src/builtins.rs:4263-4290 | the ordered walk of `<=>` over an array finds no difference exactly when `==` finds every entry |
| Compare.SameKeys | src/builtins.rs:4279-4290 | two tables of one size, the first's keys all in the second, have the same keys |
| Compare.LooseEqSymmetric | src/builtins.rs:4191-4290 | `==` is symmetric, on strings canonical or not, although the array case looks only for the left operand's keys |
| Compare.StrictEqIsIdentity | src/builtins.rs:4293-4319 | on values that share no heap cell, `===` is equality of contents, order included, but for a NaN inside |
| Compare.StrictEqIsLooseEq | src/builtins.rs:4191-4319 | what is `===` is `==` |
| MinMax.LongFitsDoubleMeaning | src/builtins.rs:5585-5590 | an integer takes part in the double loop exactly when its double is exact |
| MinMax.FoldCmp | src/builtins.rs:5671-5812 | the three loops that hand over to one another terminate, and settle on the argument that the plain fold picks: always for `min`, and without a NaN for `max`; a lone array is folded with the winner on the left; what the fold picks, and `max` with a NaN, are the rows of `Extremes` and `HandOvers` |
| MinMax.FloatStepAgrees | src/builtins.rs:5769-5788 | comparing doubles by `<` agrees with the fold's comparison for `min` always, and for `max` exactly when neither is NaN |
| MinMax.StepTracksWinner | src/builtins.rs:5744-5807 | each turn, a change of loop included, keeps the fold's winner, and the running number stands for that argument |
| MinMax.LoopsSettleOnWinner | src/builtins.rs:5723-5812 | from any such state the loops settle on the fold's winner |
| Extremes.MaxMeetsFold | src/builtins.rs:5723-5812 | on two or more numbers that doubles hold: `max` picks the fold's argument exactly without a NaN, or when the first is none and one after the last NaN is above every number before it; and the fold's number also when it is only below none of them, or a NaN stands at both ends |
| Extremes.LeaderIsFirstGreatest | src/builtins.rs:5745-5798 | what the loops of `max` hold: the first greatest number so far, or a NaN that came first |
| Extremes.WinnerAfterNaN | src/builtins.rs:5800-5808 | what the fold holds: the first greatest since the last NaN |
| Extremes.MaxPartsAtNaN | src/builtins.rs:5769-5778 | `max(1.0, NAN)`, the smallest call on which they part |
| Extremes.WinnerIsFirstBest | src/builtins.rs:5723-5812 | where `<=>` orders the arguments the fold picks the first of the greatest, or of the least |
| Extremes.ArrayWinnerAgrees | src/builtins.rs:5700-5721 | over a lone array, compared the other way round, the same element is picked |
| Extremes.ExactNumbersAreOrdered | src/builtins.rs:4573-4582 | numbers that doubles hold, without a NaN, are so ordered |
| Extremes.IntsAreOrdered | src/builtins.rs:4573-4580 | and all integers are |
| HandOvers.MaxCallMeetsFold | src/builtins.rs:5723-5812 | any call of `max`, mixed with NaNs, strings, arrays or large integers as it may be: the loops pick the fold's argument exactly when, on the numbers before they go generic, no NaN is left beside the greatest leading integer or one after the last NaN is above every number before it; or when some later argument beats what each of the two then holds |
| HandOvers.MixedCallMeetsFold | src/builtins.rs:5744-5812 | any call whose loops go generic, `min` or `max`: they pick the fold's argument exactly when they do for the arguments before that point, or a later argument beats what each then holds |
| HandOvers.NumbersMeetFold | src/builtins.rs:5745-5798 | a call of `max` that stays with the numbers, its leading integers of any size: exactly when the two agree |
| HandOvers.ReducedPicksSame | src/builtins.rs:5750-5767 | the integers a call begins with count only by the one of them that wins |
| Power.CheckedIpow | src/builtins.rs:4018-4030 | gives the power exactly when it fits an i64, for every i64 base and u32 exponent |
| Power.SquareOverflows | src/builtins.rs:4022-4028 | giving up when a square overflows rejects nothing that fits, as 2^63 is no square |
| Power.ProductOverflows | src/builtins.rs:4020-4022 | giving up when a product overflows rejects nothing that fits |
| Range.PhpRange | src/builtins.rs:6593-6816 | each refusal exactly when it is due: the least i64 or zero for a step, a negative step upwards, a step past a nonzero span, and a span of 2^30 elements or more; otherwise the mathematical progression |
| Range.TermIsExact | src/builtins.rs:6791-6811 | no term of it wraps, although each is computed in wrapping u64 arithmetic |
| Range.ProgressionMembers | src/builtins.rs:6788-6816 | its values are exactly the integers between the bounds that are whole steps from the start, each once |
| WordWrap.WrapInPlace | src/builtins.rs:7236-7255 | only turns spaces into the break byte, leaves no line longer than the width that holds a space it could end at, and breaks only where the line would have grown to the width |
| WordWrap.WrapGeneral | src/builtins.rs:7256-7289 | the output is the text's lines with a break after each; a line fits the width as far as spaces, or with cutting every byte, allow, and each was ended for a reason |
| WordWrap.WrapConserves | src/builtins.rs:7256-7289 | the lines, with the byte or break that ended each put back, are the text |
| WordWrap.WrappingIsUnique | src/builtins.rs:7236-7289 | on either path, what the rows on the two paths say determines the output: any two wrappings of a text are the same |
| WordWrap.PhpWordwrap | src/builtins.rs:7210-7290 | the two errors, the empty text, and otherwise a wrapping of the text by one path or the other |
| Json.JsonString | src/builtins.rs:9233-9286 | the loop writes the escaped units between quotes, as the flags say |
| Json.FirstOfEscapedChar | src/builtins.rs:9258-9281 | under any flags the spelling of a character is read by section 7 of RFC 8259 as that character, surrogate pairs included |
| Json.JsonReadsBack | src/builtins.rs:9233-9286 | what is written reads back as the valid characters in order, with a substitute for each invalid unit if that was asked for |
| Json.JsonReadsTextBack | src/builtins.rs:9233-9286 | a string whose bytes are valid UTF-8 reads back as itself, under every flag word |
| Json.JsonIsAscii | src/builtins.rs:9274-9280 | without JSON_UNESCAPED_UNICODE the output is pure ASCII |
| JsonSpelling.CharSpelling | src/builtins.rs:9258-9281 | the spelling of every character under every flag word: upper-case hex for what a HEX flag names, a short escape, lower-case hex for controls, line terminators and non-ASCII as the flags say, and otherwise the character itself |
| JsonSpelling.InvalidSpelling | src/builtins.rs:9247-9257 | an invalid unit is dropped, or written as U+FFFD, by code or as itself |
| JsonSpelling.StandsAsItself | src/builtins.rs:9258-9281 | in the output, a character that no rule and no flag names stands as itself between what is written for its neighbours |
| JsonSpelling.FlagsHide | src/builtins.rs:9259-9263 | the output holds no angle bracket, ampersand or apostrophe under its HEX flag, no quote but the two that enclose it under the fourth, and no line terminator unless that was asked for |
| JsonSpelling.SlashesAreEscaped | src/builtins.rs:9270 | without JSON_UNESCAPED_SLASHES every slash of the output stands behind a backslash |
| Explode.PhpExplode | src/builtins.rs:6304-6350 | an empty separator is the error; a limit of 0 gives the subject alone; a positive one gives the first pieces of the unlimited split as they are, as many as the limit or fewer, the last keeping the remainder; joined they are the subject; a negative limit drops that many pieces off the end |
| Explode.PiecesAreFree | src/builtins.rs:6331-6339 | no piece but a limited last one holds the separator |
| Explode.PiecesOfJoin | src/builtins.rs:6331-6339 | splitting what was joined gives the parts back exactly when the separator after every part but the last is the first one found from that part's start and, unless the cap stops the search before, the last part holds none |
| Explode.OneByteEndsClean | src/builtins.rs:6331-6339 | for a separator of one byte both come to no part holding it |
| Explode.ImplodeOfExplode | src/builtins.rs:6242-6243 | joining stored pieces with the stored separator gives, in canonical form, the stored subject |
| Explode.Replace | src/bytes.rs:215-232 | replacing is splitting on the needle and joining with the replacement, and counts the pieces less one |
| Explode.ReplaceByItself | src/bytes.rs:215-232 | the pieces joined with the needle are the text, and no piece holds the needle |
| ZendSort.Sort | src/stdlib/zsort.rs:160-220 | under any pure comparator the sort ends, inside the array's bounds, with the elements it began with; under a total preorder of them, in non-descending order |
| ZendSort.SortRange | src/stdlib/zsort.rs:167-220 | the same of a stretch, outside which nothing changes |
| ZendSort.MeetCursors | src/stdlib/zsort.rs:183-210 | the two cursors meet where the elements at most the pivot end and those at least it begin |
| ZendSort.PlacePivot | src/stdlib/zsort.rs:173-184 | the median of three or of five leaves an element at most the pivot in front and one at least it at the end |
| ZendSort.InsertSort | src/stdlib/zsort.rs:91-148 | networks up to five elements and insertion beyond leave a stretch in order |
| ZendSort.SearchByTwo | src/stdlib/zsort.rs:119-143 | the search that steps back by two finds where an element belongs, ties included |
| ZendSort.Sort3 | src/stdlib/zsort.rs:23-42 | the network of three orders its places, and changes none after them |
| ZendSort.Sort5 | src/stdlib/zsort.rs:65-89 | the network of five orders its places, wherever in the stretch they lie |
| ZendSort.RotateInto | src/stdlib/zsort.rs:150-158 | swaps of neighbours carry an element down to its place and move the others up by one |
| ZendSort.SortStable | src/stdlib/zsort.rs:222-235 | under any pure comparator a rearrangement of the elements; under a total preorder in order, with equal elements as they stood |
| Unique.ArrayUnique | src/builtins.rs:8444-8465 | for any total preorder: sorted by the unstable sort and walked, keeps exactly the elements with no earlier equal, in input order |
| Unique.WalkSorted | src/builtins.rs:8446-8465 | the walk does so over any sorted order of the elements, stable or not |
| Unique.MarkRepeats | src/builtins.rs:8446-8459 | the walk over `order` leaves marked exactly the elements that equal no earlier one |
| Unique.WalkStep | src/builtins.rs:8447-8459 | one step of the walk keeps: seen elements are dropped exactly if an earlier equal one was seen, and the last kept is the earliest of its run |
| Unique.EveryElementIsRepresented | src/builtins.rs:8444-8465 | every element of the input equals one that is kept, no later than itself |
| NumberFormat.RoundedMagnitude | src/builtins.rs:7863-7873 | rounds to the nearest multiple of the power of ten, halves away from zero, for every number of places, within 128 bits |
| NumberFormat.NumberFormat | src/builtins.rs:7852-7913 | writes the sign of a nonzero result, its digits grouped from the right by the separator, and for places asked for the point and exactly that many zeros |
| NumberFormat.NumberFormatMeaning | src/builtins.rs:7863-7902 | the groups without separators are the decimal digits of the one nearest multiple, which is zero past 10^19 |
| NumberFormat.GroupedFromTheRight | src/builtins.rs:7894-7902 | counting from the left as the loop does gives groups of exactly three after every separator and one to three before the first |
| ArgBinding.BindNamed | src/argsig.rs:224-320 | the loops over slots, tail and names come to the call, the refusal or the send-time error that the arguments amount to |
| ArgBinding.CallKeepsArguments | src/argsig.rs:224-320 | in a call that succeeds positionals keep their place, every named argument lands where it is declared, other slots hold the declared default, the call ends with an argument, and their number is one the signature declares |
| ArgBinding.RefusalIsTrue | src/argsig.rs:242-342 | a refusal names what is wrong: the first slot jumped over when it has no default, ahead of the count; otherwise the count the call reached; at send time a name whose slot a positional filled, or one that no parameter has |
| ArgBinding.CountRefusalIsTrue | src/argsig.rs:162-183 | the bound a count refusal states is broken by the call and met by every accepted count, but for `rand` and `mt_rand` with no argument |
| ArgBinding.CountAccepted | src/argsig.rs:162-183 | a count is accepted exactly when no fewer than the required parameters and, unless variadic, no more than the declared ones are passed, and none or two to `rand` and `mt_rand` |
| ArgBinding.CountRefusalIsTight | src/argsig.rs:166-182 | a refusal says `exactly` where one count alone is accepted, else the least accepted count to a call with fewer and the greatest to one with more |
| ArgBinding.BindInAnyOrder | src/argsig.rs:242-263 | the order of the named arguments changes neither the call nor a refusal inside the callee |
| ArgBinding.HolesPublishedExactly | src/argsig.rs:289-354 | every jumped-over slot of every call has a published default exactly for the signatures with no default before a missing one, the last parameter aside |
| ArgBinding.UnpublishedHole | src/argsig.rs:289-320 | for every other signature, a call that succeeds with a hole that has none |
| CheckArgs.CheckCall | src/argtypes.rs:157-231 | the loop over a row of the type table is a pass over the arguments before the stop, left to right, with the deprecations and the refusal on the way |
| CheckArgs.CheckCallable | src/argsig.rs:477-510 | finds the position of the argument that should be a callback and is not |
| CheckArgs.CheckArgs | src/argsig.rs:442-470 | the count, and then two tables merged by position, come to one pass over the arguments from left to right |
| CheckArgs.LeastRefusal | src/argsig.rs:433-470 | the refusal is the one at the least position that either table refuses, and there is none exactly when neither refuses any |
| CheckArgs.NotesPrecedeRefusal | src/argtypes.rs:161-206 | deprecations come in order of position and only from positions before the refused one |
| CheckArgs.NotesAreComplete | src/argtypes.rs:157-206 | every deprecation of a position the pass got to is raised |
| CheckArgs.LaterArgumentsDoNotMatter | src/argsig.rs:442-470 | at the same count, changing arguments after the refused one changes neither the refusal nor the deprecations |
| CheckArgs.StrictIsStricter | src/argtypes.rs:76-136 | a strict call raises no deprecation, and what it accepts the coercive mode accepts in silence |
| DeclaredTypes.HandleTypes | src/argtypes.rs:99-100 | `array` and `object` divide the heap values between them and take nothing else, and `resource` and `stream` take what the host calls a stream |
| DeclaredTypes.CoerciveScalars | src/argtypes.rs:101-131 | exactly what a coercive call lets through as `string`, `int`, `float` and `bool`: an `int` from a double or a string that reads as one only inside the 64-bit range, a `float` from a string only if it reads whole, a `string` from an object only by `__toString` |
| DeclaredTypes.StrictScalars | src/argtypes.rs:87-97 | in a strict call each scalar type takes its own values alone, and `float` integers as well |
| DeclaredTypes.UnknownName | src/argtypes.rs:134-135 | any other name takes everything |
| DeclaredTypes.OnlyClosedStreams | src/argtypes.rs:197-206 | what a type takes is refused only if it is a closed stream for a `stream` |
| DeclaredTypes.UnionAccepts | src/argtypes.rs:82-84 | a union takes what one of its members takes |
| DeclaredTypes.NullableAccepts | src/argtypes.rs:79-81 | `?T` takes null in silence, and else what `T` takes |
| DeclaredTypes.NullAnswer | src/argtypes.rs:164-192 | null to any other type is a deprecation if the type offers a scalar to a coercive call, and a refusal if not |
| DeclaredTypes.LossIsNoted | src/argtypes.rs:194-196 | the two losses are noted exactly for a double with a fraction, and a string that reads as one, that a coercive call passes as `int` |
| DeclaredTypes.CallbackAnswer | src/argsig.rs:477-510 | without declared types the one refusal of a call with a declared count is that of the first callable parameter, for an argument that is neither callable nor an allowed null |

## Left out

- The opcode handlers of `src/builtins.rs` and the host's heap, references and reentrancy: glue over the virtual machine and the host.
- Objects, closures, enums, resources and dates in comparison: their class tables and handlers are not modelled.
- The shared-cell shortcut of `===`: the model compares two values that share no heap cell.
- Float rounding and printing, the float forms of `range` and `number_format`, and the character form of `range`: they rest on IEEE and library formatting.
- The callers' cast of an exponent to 32 bits before `checked_ipow`.
- Byte offsets into stored text: stored strings are sequences of characters, so `append` cuts at character indices, and a substring search is modelled by its result, the first occurrence.
- `mb_text`, `rfind`, `is_utf8` and `MbUnit::stored`'s caller functions: they add only easy members.
- The spelling of printed words: the printer's tokens stand for their text, an atom for one word (a name, a quoted string, a non-negative float); `new`, `...`, class constants and `<expression>` are left out, as are floats below zero, which part like negative integers.
- How the registry of intercepts is kept: a push and a clear.
- The comparator passed to `array_unique` and to the sort is a pure function. One with a state of its own, and the order in which the comparator is called, are not modelled; which rearrangement a comparator that orders nothing gets is not stated. The string mode of `array_unique` is a hash set and is left out.
- What the parser reads besides: casts, calls, indexes, assignments and the keyword operators, none of which the printer writes.
- Message texts, stack frames and what a frame shows of the arguments (`shown` in `bind_named`, `trace_args`).
- The literal tables of signatures and parameter types: distinct parameter names and ascending positions are assumed where a theorem needs them.
- The level switch of `check_args`: level 0 only.
- Autoloading while a callback is examined: being callable is a function of the value.
- The 32-bit width of an argument position: a call has fewer arguments than its bound.
- Compare.LooseEqIsCompareZero: assumes that a numeric string reads as one number in both ways the host is asked, and that a number's text is canonical.
- Compare.StrictEqIsLooseEq: assumes what the host's scanner of digits sees to, that no string reads as a NaN.
- MinMax.LoopsSettleOnWinner: without a NaN among the arguments of `max`; with one, `HandOvers.MaxCallMeetsFold` says exactly when it holds.
- Extremes.MaxMeetsFold: for doubles and integers exact as doubles; `HandOvers.MaxCallMeetsFold` is about every call.
- Json.JsonString: the caller's decision to fail on an invalid unit is not modelled.
