# OxideJS built-ins: a Dafny model

OxideJS is a JavaScript engine. This project models the nine places in its
built-ins crate where the answer is hard to see from the code, and proves what
each of them guarantees. Where the code falls short of its own documentation or
of ECMA-262, the model follows the code, a lemma gives an input that shows the
difference, and another says exactly when there is none.

* **Iterator helpers** (`iterator_*.dfy`). A helper (map, filter, take, drop,
  flatMap, zip, concat) is a record of slots driven by `next`, `return` and
  `throw`. Underlying iterators and callbacks are a tape of reactions, each of
  which may first call the helper again. Every exchange with an iterator is
  written to a log. `IteratorHelper` gives the step functions, `IteratorObject`
  the object whose methods compute them, `IteratorTheorems` the protocol over
  every run, `IteratorLists` what draining a helper means for lists,
  `IteratorDrain` that draining ends, and `IteratorResults` what the consumer is
  told by each call.
* **JSON** (`json_*.dfy`). The grammar of RFC 8259 is a datatype of concrete
  syntax trees with their texts. The parser is proved sound and complete for it,
  the printer is proved to write such texts, and the two are put together. What a
  printed text looks like is said of the trees alone (`JsonLayout`). Numbers
  are kept as text; `ok` says which number texts are in range.
* **Exact decimals** (`bignum.dfy`, `decimal_digits.dfy`, `significant_digits.dfy`,
  `number_*.dfy`). The multi-limb numbers are objects whose limbs are rewritten in
  place. Doubles are bit patterns (`doubles.dfy`), decimals are digit strings, and
  all comparisons are between fractions of whole numbers.
* **Dates** (`calendar.dfy`, `date_*.dfy`). The closed-form calendar is compared
  with one that goes day by day. The strict ISO form is a grammar of its own
  (`DateIso`). Texts are written and read back.
* **Exact sums and binary16** (`rounding.dfy`, `math_*.dfy`). Doubles are whole
  multiples of 2^-1074. Rounding to nearest, ties to even, is defined once, on
  any grid of values.
* **Map** (`map_*.dfy`). Slots with holes and an index refine an insertion-ordered
  map. A scan is a run in which looking at a slot and changing the Map alternate
  in any way.
* **Messages** (`message_*.dfy`). Heap graphs are detached into trees and
  rehydrated in another realm.
* **Module namespaces** (`module_*.dfy`). Explicit exports, announcements and star
  exports in any order: which names are visible, and which value they have.
* **Disposable stacks** (`dispose_*.dfy`). Callbacks run while a stack is disposed
  of may themselves register, move and dispose, and may throw.

`basics.dfy` and `powers.dfy` hold the definitions and the arithmetic the others
share.

Where code and documentation differ, the model follows the code:

* The zip mask has 32 bits; with more inputs the helper speaks to exhausted
  iterators (`IteratorWideZip.ZipIsSafeUpTo32`), and a longest zip over exhausted
  inputs gives rows for ever (`IteratorDrain.LongestDrainsUpTo32`).
* concat closes an inner iterator whose `next` threw
  (`IteratorLists.ConcatClosesThrower`, `IteratorLists.ConcatReturnsAfterThrow`).
* The comment at json.rs:1157-1159 says that lone surrogates survive a round trip.
  The printer escapes them, but the parser rejects the escape
  (`JsonRoundTrip.LoneSurrogateLost`, `JsonRoundTrip.RoundTrip`). An escaped surrogate pair is cut to 16 bits when
  parsed, which can leave a string that is not UTF-16 and then ends the program
  (`JsonPairs.PairCanBreakString`, `JsonPairs.RfcTexts`).
* The right shift of the multi-limb numbers moves bits between limbs the wrong way,
  so a decimal digit can be misread (`NumberExact.MisprintedText`).
* The comment at date.rs:593-601 says that the engine reads its own `toString`
  texts. It reads the offset `GMT+HHMM` as HHMM minutes and subtracts it from a
  clock that already had it subtracted (`DateString.StringToSecond`,
  `DateString.HalfHourMisread`). The weekday written is that of the time plus the
  offset, the date that of the time less the offset (`DateString.StringWeekday`,
  `DateString.WrongWeekday`).
* sumPrecise closes an iterator whose own `next` threw (`MathSumLoop.ThrowerIsClosed`,
  `MathSumLoop.SumPrecise`).
* sumPrecise leaves the not-a-number state again when another infinity follows
  (`MathSumLoop.InfinityReturns`, `MathSumLoop.UndefinedIff`).
* A Map cleared during a scan can get new entries behind the scan
  (`MapScan.ClearedScanMisses`).
* A message loses the sign of zero (`MessageRehydrate.MinusZeroLost`), an error whose
  name is not one of the seven standard ones, such as SuppressedError, arrives as an
  Error (`MessageRehydrate.ErrorNameLost`), and Map entries whose keys are boxes of
  equal primitives merge (`MessageRehydrate.BoxedKeysMerge`). Nothing else in a message changes
  (`MessageRehydrate.NormalIff`).
* Announcing a module export after a star export has provided the name does nothing
  (`ModuleObject.LateAnnouncement`), and neither does an explicit export of a name
  that a cell was bound to in the meantime (`ModuleObject.ExplicitExportLost`).
* A disposal error that is itself a chain of suppressed errors is not told apart from
  the chain the disposal builds (`DisposeLaws.RethrownChain`).

## Model

| member | source | states |
|---|---|---|
| IteratorMask.ClearedBits | crates/oxide_builtins/src/iterator.rs:1716-1731 | clearing the bit of one of at most 32 inputs closes that input and no other |
| IteratorMask.FreshBit | crates/oxide_builtins/src/iterator.rs:1659-1713 | a new zip mask has every input open |
| IteratorLog.LegalMeansProtocol | crates/oxide_builtins/src/iterator.rs:986-1355 | a log in which each event is allowed by the iterator's status has at most one `return` per iterator, nothing after it, nothing after done, no `next` after a throw, no overlapping calls and, unless lenient, no `return` after a throw |
| IteratorForeign.ReentryIsInert | crates/oxide_builtins/src/iterator.rs:986-1034 | calls a callback makes on a helper that is running change nothing, neither the slots nor the log nor the tape |
| IteratorForeign.StepFacts | crates/oxide_builtins/src/iterator.rs:222-241 | asking an iterator for a value leaves the helper's slots alone and adds to the log what the answer implies for that iterator only |
| IteratorForeign.CloseFacts | crates/oxide_builtins/src/iterator.rs:272-313 | closing an iterator makes it closed for good, leaves all others alone, and an earlier error wins over one thrown by `return` |
| IteratorRuns.StepMapOk | crates/oxide_builtins/src/iterator.rs:1190-1214 | a step of map keeps the run legal, calls the callback once per value with the right counter, and closes the input when the callback throws |
| IteratorRuns.StepFilterOk | crates/oxide_builtins/src/iterator.rs:1218-1247 | a step of filter, however many values it skips, outputs exactly the values whose callback answered truthy |
| IteratorRuns.StepTakeOk | crates/oxide_builtins/src/iterator.rs:1251-1270 | a step of take never asks for more values than its limit and closes the input when the limit is reached |
| IteratorRuns.StepDropOk | crates/oxide_builtins/src/iterator.rs:1274-1298 | a step of drop outputs the values after the first n, whatever is left to drop |
| IteratorRuns.StepFlatMapOk | crates/oxide_builtins/src/iterator.rs:1302-1355 | a step of flatMap outputs the inner values in order, opens each inner iterator once, and closes inner and outer on an error |
| IteratorRuns.StepConcatOk | crates/oxide_builtins/src/iterator.rs:2049-2108 | a step of concat opens the segments in order, each when reached, and outputs their values in order |
| IteratorZip.CloseOpenFacts | crates/oxide_builtins/src/iterator.rs:1735-1768 | closing the open inputs closes exactly those, each once, leaves all others alone, and an earlier error wins |
| IteratorZip.CloseOpenOrder | crates/oxide_builtins/src/iterator.rs:1735-1768 | the calls of `return` are, in this order, those of the open inputs from the last to the first |
| IteratorZip.StrictScanOk | crates/oxide_builtins/src/iterator.rs:1793-1967 | after the first input of a strict zip ended the others are asked once each; a value or an error closes all that are open |
| IteratorZip.ZipRowOk | crates/oxide_builtins/src/iterator.rs:1793-1967 | a row of zip takes one value of each open input, and ends the helper, pads, or fails as the mode says |
| IteratorZip.StepZipOk | crates/oxide_builtins/src/iterator.rs:1793-1967 | a step of zip keeps the run legal and its rows right, in all three modes |
| IteratorTheorems.NextInv | crates/oxide_builtins/src/iterator.rs:986-1034 | `next` keeps the invariant; when it reports done the helper is completed and its input-output relation is final; a failing strict zip has closed its inputs |
| IteratorTheorems.ReturnInv | crates/oxide_builtins/src/iterator.rs:1044-1115 | `return` keeps the invariant and completes the helper |
| IteratorTheorems.ThrowInv | crates/oxide_builtins/src/iterator.rs:1124-1181 | `throw` keeps the invariant and completes the helper |
| IteratorResults.NextAnswers | crates/oxide_builtins/src/iterator.rs:986-1034 | `next` hands over exactly the value that came out, reports done only if no foreign code threw, and throws the first exception foreign code threw, or for a strict zip the first of a `next`, else a TypeError |
| IteratorResults.ReturnAnswers | crates/oxide_builtins/src/iterator.rs:1044-1115 | `return` throws the first exception of the iterators it closes, a non-object answer counting as one, and otherwise reports done |
| IteratorResults.ThrowAnswers | crates/oxide_builtins/src/iterator.rs:1124-1181 | `throw` throws its argument, whatever closing does |
| IteratorResults.OtherAnswers | crates/oxide_builtins/src/iterator.rs:986-1181 | a running helper refuses every operation with a TypeError, a completed one is done, and throws what it is given |
| IteratorResults.RunDelivers | crates/oxide_builtins/src/iterator.rs:986-1181 | in every run of every helper the values the calls hand to the consumer are those that came out, in order |
| IteratorTheorems.CompletedIsFinal | crates/oxide_builtins/src/iterator.rs:986-1181 | a completed helper no longer changes and asks nothing of anybody |
| IteratorTheorems.RunInv | crates/oxide_builtins/src/iterator.rs:986-1181 | every sequence of `next`, `return` and `throw` keeps the invariant |
| IteratorTheorems.EveryRunIsSafe | crates/oxide_builtins/src/iterator.rs:986-1355 | in every run of every helper (zip with at most 32 inputs), with any re-entrant calls, the iterator protocol is respected, nothing is left open when the helper is completed, and the output is the right function of the input |
| IteratorLists.MapDrained | crates/oxide_builtins/src/iterator.rs:1190-1214 | draining map over a finite list gives the callback's values with counters 0, 1, 2 and so on |
| IteratorLists.FilterDrained | crates/oxide_builtins/src/iterator.rs:1218-1247 | draining filter gives the sublist of values whose callback is truthy |
| IteratorLists.TakeDrained | crates/oxide_builtins/src/iterator.rs:1251-1270 | draining take(n) gives the first n values, and `next` was called at most n times |
| IteratorLists.DropDrained | crates/oxide_builtins/src/iterator.rs:1274-1298 | draining drop(n) gives the values from the n-th on |
| IteratorLists.FlatMapDrained | crates/oxide_builtins/src/iterator.rs:1302-1355 | draining flatMap gives the concatenation of the inner lists, with one call per outer value |
| IteratorLists.ConcatDrained | crates/oxide_builtins/src/iterator.rs:2049-2108 | draining concat gives the concatenation of the segments, each opened once, in order |
| IteratorLists.ShortestDrained | crates/oxide_builtins/src/iterator.rs:1793-1967 | draining a shortest zip transposes its inputs, as many rows as the shortest has values |
| IteratorLists.LongestDrained | crates/oxide_builtins/src/iterator.rs:1793-1967 | draining a longest zip gives as many rows as the longest input has values, the others padded |
| IteratorLists.StrictDrained | crates/oxide_builtins/src/iterator.rs:1793-1967 | a strict zip that drains had inputs of one length and transposes them |
| IteratorLists.StrictMismatch | crates/oxide_builtins/src/iterator.rs:1793-1967 | a strict zip that fails without an input throwing had inputs of different lengths, and each input is exhausted or closed |
| IteratorLists.StrictDoneIff | crates/oxide_builtins/src/iterator.rs:1793-1967 | if no input threw, the `next` that completes a strict zip reports done if and only if all inputs have one length, and an error otherwise |
| IteratorLists.ConcatReturnsAfterThrow | crates/oxide_builtins/src/iterator.rs:2101-2105 | a run of concat never closes an iterator whose `next` threw if and only if no `next` threw in it |
| IteratorLists.ConcatClosesThrower | crates/oxide_builtins/src/iterator.rs:2101-2105 | the whole log of a run of one segment that opens and throws: `return` is called on it after its `next` threw |
| IteratorWideZip.WideZipBreaks | crates/oxide_builtins/src/iterator.rs:1716-1731 | for every zip of more than 32 inputs there is a run that speaks to an input after it was done |
| IteratorWideZip.ZipIsSafeUpTo32 | crates/oxide_builtins/src/iterator.rs:1716-1731 | all runs of a zip respect the protocol if and only if it has at most 32 inputs |
| IteratorDrain.StepConsumes | crates/oxide_builtins/src/iterator.rs:1190-1355 | a step of any helper that gives a value has used up at least one reaction of the foreign code |
| IteratorDrain.DrainEnds | crates/oxide_builtins/src/iterator.rs:986-1034 | from every state a run can reach, calling `next` often enough completes the helper, after at most as many calls as the foreign code has reactions, and one more |
| IteratorDrain.DrainReportsDone | crates/oxide_builtins/src/iterator.rs:986-1034 | if no foreign code throws, a drained helper reports done, unless it is a strict zip or the foreign code gave out where flatMap or concat opens an iterator; the lists theorems then apply |
| IteratorDrain.LongestDrainsUpTo32 | crates/oxide_builtins/src/iterator.rs:1716-1731 | draining a longest zip over finite inputs always ends if and only if it has at most 32 inputs |
| IteratorResults.MapResults | crates/oxide_builtins/src/iterator.rs:1190-1214 | the results of all `next` calls that drain a fresh map are the callback values of the list, with positions |
| IteratorResults.FilterResults | crates/oxide_builtins/src/iterator.rs:1218-1247 | for filter, the elements the callback holds for |
| IteratorResults.TakeDropResults | crates/oxide_builtins/src/iterator.rs:1251-1298 | for take and drop, the first n elements and the others |
| IteratorResults.FlatMapResults | crates/oxide_builtins/src/iterator.rs:1302-1355 | for flatMap, the inner lists one after the other |
| IteratorResults.ConcatResults | crates/oxide_builtins/src/iterator.rs:2049-2108 | for concat, the segments one after the other |
| IteratorResults.ZipResults | crates/oxide_builtins/src/iterator.rs:1793-1967 | for zip, the rows of the table of the inputs with the padding given, as many as the mode says |
| IteratorObject.HelperObject.constructor | crates/oxide_builtins/src/iterator.rs:543-570 | a new helper has the slots its kind starts with |
| IteratorObject.HelperObject.Next | crates/oxide_builtins/src/iterator.rs:986-1034 | the object's `next` computes the step function on all slots, log and tape |
| IteratorObject.HelperObject.Return | crates/oxide_builtins/src/iterator.rs:1044-1115 | the object's `return` computes its step function |
| IteratorObject.HelperObject.Throw | crates/oxide_builtins/src/iterator.rs:1124-1181 | the object's `throw` computes its step function |
| IteratorObject.HelperObject.StepMap | crates/oxide_builtins/src/iterator.rs:1190-1214 | the step of map on the object is the step function |
| IteratorObject.HelperObject.StepFilter | crates/oxide_builtins/src/iterator.rs:1218-1247 | the loop of filter computes the step function |
| IteratorObject.HelperObject.StepTake | crates/oxide_builtins/src/iterator.rs:1251-1270 | the step of take on the object is the step function |
| IteratorObject.HelperObject.StepDrop | crates/oxide_builtins/src/iterator.rs:1274-1298 | the loop of drop computes the step function |
| IteratorObject.HelperObject.StepFlatMap | crates/oxide_builtins/src/iterator.rs:1302-1355 | the loop of flatMap computes the step function |
| IteratorObject.HelperObject.StepConcat | crates/oxide_builtins/src/iterator.rs:2049-2108 | the loop of concat computes the step function |
| IteratorObject.HelperObject.CloseOpen | crates/oxide_builtins/src/iterator.rs:1735-1768 | the closing loop computes the closing function |
| IteratorObject.HelperObject.StrictScan | crates/oxide_builtins/src/iterator.rs:1793-1967 | the scan of a strict zip computes the scan function |
| IteratorObject.HelperObject.StepZip | crates/oxide_builtins/src/iterator.rs:1793-1967 | the row loop of zip computes the step function |
| JsonGrammar.PairsAreTheOnlyLoss | crates/oxide_builtins/src/json.rs:406-468 | a string literal means to the parser what it means in RFC 8259 if and only if it has no escaped surrogate pair |
| JsonGrammar.EscapesListed | crates/oxide_builtins/src/json.rs:406-483 | the value of every hexadecimal digit, in either case, and of every short escape |
| JsonGrammar.NoPairWellFormed | crates/oxide_builtins/src/json.rs:406-447 | without an escaped pair a string the grammar allows is well-formed UTF-16 |
| JsonComplete.NumberComplete | crates/oxide_builtins/src/json.rs:359-404 | every number of the grammar is skipped exactly |
| JsonComplete.StringComplete | crates/oxide_builtins/src/json.rs:406-447 | every string literal of the grammar is parsed to its units |
| JsonComplete.ValueComplete | crates/oxide_builtins/src/json.rs:229-283 | every tree within the depth limit is parsed from its text, whatever follows |
| JsonComplete.TextComplete | crates/oxide_builtins/src/json.rs:173-192 | every text of the grammar with depth at most 128 is accepted, with the node of its tree |
| JsonSound.NumberSound | crates/oxide_builtins/src/json.rs:359-404 | what is skipped as a number is a number of the grammar |
| JsonSound.StringSound | crates/oxide_builtins/src/json.rs:406-447 | what is parsed as a string is a literal of the grammar with these units |
| JsonSound.ParseSound | crates/oxide_builtins/src/json.rs:173-283 | an accepted text has a derivation in the grammar whose node is the result |
| JsonSound.AcceptsExactlyTheLanguage | crates/oxide_builtins/src/json.rs:173-483 | the parser accepts a text if and only if it is derivable with depth at most 128, and every derivation gives the same result |
| JsonSound.ParsedSources | crates/oxide_builtins/src/json.rs:212-217 | the source recorded for each primitive in the result parses alone to an equal node |
| JsonPairs.PairFreeAccepted | crates/oxide_builtins/src/json.rs:173-483 | every RFC 8259 text with depth at most 128 and no escaped surrogate pair is accepted, with the value the RFC gives it, strings and keys included |
| JsonPairs.RfcTexts | crates/oxide_builtins/src/json.rs:173-483 | every RFC 8259 text with depth at most 128 is accepted or ends the program, the latter if and only if a string in it is stored as ill-formed UTF-16; it is accepted with the value the RFC gives it if and only if no string in it, key or value, has an escaped surrogate pair |
| JsonPairs.StringLiterals | crates/oxide_builtins/src/json.rs:406-468 | a string literal is read as the RFC means it if and only if it has no escaped pair, and ends the program if and only if its stored units are not UTF-16 |
| JsonPairs.PairCanBreakString | crates/oxide_builtins/src/json.rs:434-468 | the escaped pair of U+1D800 is stored as a lone surrogate, and parsing it ends the program |
| JsonParserObject.JsonParser.SkipWs | crates/oxide_builtins/src/json.rs:194-201 | the loop moves the position past white space, as the function does |
| JsonParserObject.JsonParser.ExpectWord | crates/oxide_builtins/src/json.rs:219-227 | literals are matched as the function matches them |
| JsonParserObject.JsonParser.ParseNumber | crates/oxide_builtins/src/json.rs:359-404 | the position stays in bounds and the result agrees with the function |
| JsonParserObject.JsonParser.ParseString | crates/oxide_builtins/src/json.rs:406-447 | the position stays in bounds and the result agrees with the function |
| JsonParserObject.JsonParser.ParseUnicodeEscape | crates/oxide_builtins/src/json.rs:450-468 | escapes and pairs are read as the function reads them |
| JsonParserObject.JsonParser.ParseHex4 | crates/oxide_builtins/src/json.rs:470-483 | four hexadecimal digits are read as the function reads them |
| JsonParserObject.JsonParser.ParseArray | crates/oxide_builtins/src/json.rs:285-314 | position in bounds, depth restored, result as the function's |
| JsonParserObject.JsonParser.ParseObject | crates/oxide_builtins/src/json.rs:316-357 | position in bounds, depth restored, result as the function's |
| JsonParserObject.JsonParser.ParseValue | crates/oxide_builtins/src/json.rs:229-283 | position in bounds and advanced, depth restored, result as the function's |
| JsonParserObject.ParseJson | crates/oxide_builtins/src/json.rs:173-192 | the whole parse agrees with the function, for every text |
| JsonPrinterObject.Printer.PushQuoted | crates/oxide_builtins/src/json.rs:1160-1187 | the buffer grows by the quoted string |
| JsonPrinterObject.Printer.PrintArray | crates/oxide_builtins/src/json.rs:1289-1355 | the buffer grows by the printed array |
| JsonPrinterObject.Printer.PrintObject | crates/oxide_builtins/src/json.rs:1189-1287 | the buffer grows by the printed object, omitted members skipped |
| JsonPrinterObject.Printer.PrintJs | crates/oxide_builtins/src/json.rs:1037-1144 | the buffer grows by the printed value |
| JsonRoundTrip.PrintIsText | crates/oxide_builtins/src/json.rs:1160-1355 | what is printed is the text of a syntax tree, for every value and every gap; lone surrogates become escapes, which the grammar does not have |
| JsonLayout.SpellingUnique | crates/oxide_builtins/src/json.rs:1160-1187 | there is one spelling of a string in which characters that need no escape stand for themselves, those with a short escape use it, and other C0 and C1 units and lone surrogates have four lower-case digits; it is the one printed |
| JsonLayout.LayoutUnique | crates/oxide_builtins/src/json.rs:1189-1355 | there is one text for a value in which, without a gap, there is no white space, and otherwise every item has its own line with k copies of the gap at depth k, the closing bracket too, and one space follows each colon |
| JsonLayout.PrintedLayout | crates/oxide_builtins/src/json.rs:1037-1355 | for every value and gap what is printed is that text, and there is one |
| JsonRoundTrip.RoundTrip | crates/oxide_builtins/src/json.rs:1160-1355 | printing with any white-space gap and parsing gives the value back if and only if its strings are well-formed UTF-16 and it nests at most 128 deep |
| JsonRoundTrip.LoneSurrogateLost | crates/oxide_builtins/src/json.rs:1157-1187 | the string of one lone surrogate, printed with any gap, is not read back |
| Limbs.ShlValue | crates/oxide_builtins/src/number.rs:416-433 | the shifted limbs stand for the number times the power of two |
| Bignum.Dec.FromU64 | crates/oxide_builtins/src/number.rs:400-402 | two limbs stand for the given number |
| Bignum.Dec.Trim | crates/oxide_builtins/src/number.rs:404-408 | trailing zero limbs are dropped, one limb stays |
| Bignum.Dec.IsZero | crates/oxide_builtins/src/number.rs:410-412 | true exactly for zero |
| Bignum.Dec.Shl | crates/oxide_builtins/src/number.rs:416-433 | the number is multiplied by 2^k |
| Bignum.Dec.Shr | crates/oxide_builtins/src/number.rs:437-454 | of the quotient by 2^q only the lowest 32 - q mod 32 bits are in the lowest limb |
| Bignum.Dec.RemPow2 | crates/oxide_builtins/src/number.rs:458-468 | the number is taken modulo 2^q |
| Bignum.Dec.MulSmall | crates/oxide_builtins/src/number.rs:471-481 | the number is multiplied by a small factor |
| Bignum.Dec.DivMod10 | crates/oxide_builtins/src/number.rs:484-493 | the number is divided by ten, the remainder returned |
| DecimalDigits.ExpandProgress | crates/oxide_builtins/src/number.rs:552-570 | every digit step makes the rest divisible by one more power of two, so that the expansion ends |
| DecimalDigits.ExpandCorrect | crates/oxide_builtins/src/number.rs:552-570 | read without loss, the expansion of a fraction is its truncated decimal expansion, complete when it stops early |
| SignificantDigits.DigitsCorrect | crates/oxide_builtins/src/number.rs:500-572 | read without loss, the digits and exponent are the decimal expansion of m 2^p with a first digit that is not zero |
| SignificantDigits.DigitsIff | crates/oxide_builtins/src/number.rs:500-572 | the engine's digits are the true ones if and only if no fractional digit looked at reaches 2^(32 - q mod 32) |
| SignificantDigits.LosslessUpTo28 | crates/oxide_builtins/src/number.rs:437-454 | nothing is lost for p >= 0 and for -p mod 32 at most 28 |
| SignificantDigits.LosingDouble | crates/oxide_builtins/src/number.rs:555-557 | 3/1024 loses a digit |
| SignificantDigits.WholeDigits | crates/oxide_builtins/src/number.rs:512-534 | the loops over a whole number compute its first digits and its exponent |
| SignificantDigits.FractionDigits | crates/oxide_builtins/src/number.rs:535-571 | the loop over a fraction computes the expansion with the digits as they are read |
| SignificantDigits.Compute | crates/oxide_builtins/src/number.rs:500-572 | the digits of a positive finite double; the true expansion whenever nothing is lost |
| NumberRounding.RoundDigits | crates/oxide_builtins/src/number.rs:581-605 | the digits up to the rounding place, read as a number, are rounded half up; an all-nines carry gives 1 and the next exponent |
| NumberRounding.CutIsFloor | crates/oxide_builtins/src/number.rs:496-500 | the first k digits of an expansion are the whole part of the number at that place |
| NumberRounding.RoundedIsNearest | crates/oxide_builtins/src/number.rs:574-605 | rounding the digits of an expansion gives the nearest whole number at that place, the larger one on a tie |
| NumberText.FixedString | crates/oxide_builtins/src/number.rs:617-637 | the loops write sign, whole part and decimals of a digit string |
| NumberText.FixedDigitsText | crates/oxide_builtins/src/number.rs:617-637 | that text is the decimal text of the number the digits make up to the last place |
| NumberText.ExpString | crates/oxide_builtins/src/number.rs:640-660 | the loops write the number of the first f + 1 digits with its exponent |
| NumberReading.DigitsRead | crates/oxide_builtins/src/number.rs:535-571 | cut at any place, the digits found add up to the value made of the digits as they are read |
| NumberReading.Gap | crates/oxide_builtins/src/number.rs:437-454 | one misread digit leaves the value at least two units short, so misreadings never cancel |
| NumberReading.PrintedIff | crates/oxide_builtins/src/number.rs:757-801 | toFixed prints the nearest decimal, larger on a tie, if and only if no digit shown is misread and the next one stays on its side of the half |
| NumberReading.PrintsRightUpTo28 | crates/oxide_builtins/src/number.rs:757-801 | it always does for p >= 0 and for -p mod 32 at most 28 |
| NumberReading.MisprintedDouble | crates/oxide_builtins/src/number.rs:757-801 | (3/1024).toFixed(4) has 21 units of the last decimal instead of 29 |
| NumberFormat.ToFixed | crates/oxide_builtins/src/number.rs:757-801 | range error, NaN, large numbers and zero as in the code; otherwise the text of exactly the number `Printed` describes |
| NumberLeading.LeadingUnique | crates/oxide_builtins/src/number.rs:496-500 | a positive number has one leading exponent |
| NumberLeading.LastDigitIs5 | crates/oxide_builtins/src/number.rs:552-570 | the last decimal digit of a binary fraction is 5 |
| NumberLeading.SomethingRead | crates/oxide_builtins/src/number.rs:552-570 | however digits are misread, a fraction never comes out without any digit |
| NumberLeading.LostLeader | crates/oxide_builtins/src/number.rs:552-570 | when the leading digit is lost the number shown is too small |
| NumberLeading.ShownIff | crates/oxide_builtins/src/number.rs:855-875 | the number shown is the nearest one of that many digits, larger on a tie, if and only if no digit shown is misread and the next one stays on its side of the half; its exponent is never too large |
| NumberLeading.ShownRightUpTo28 | crates/oxide_builtins/src/number.rs:855-875 | it always is for p >= 0 and for -p mod 32 at most 28 |
| NumberFormat.DigitsCarried | crates/oxide_builtins/src/number.rs:855-875 | after rounding and carrying, the digits and the exponent are those of the number `Shown` describes |
| NumberFormat.ToExponential | crates/oxide_builtins/src/number.rs:884-932 | error and special cases as in the code; otherwise the text, with exponent, of exactly the number `Shown` describes, carried into one more digit if need be |
| NumberFormat.ToPrecision | crates/oxide_builtins/src/number.rs:831-876 | error and special cases as in the code; otherwise the text of exactly the number `Shown` describes, in the form chosen by the exponent after the carry |
| NumberExact.FixedTextInjective | crates/oxide_builtins/src/number.rs:617-637 | two fixed texts are equal only if they show the same number with the same number of decimals |
| NumberExact.ExpTextInjective | crates/oxide_builtins/src/number.rs:640-660 | two texts with an exponent and the same number of digits are equal only if digits and exponent are |
| NumberExact.FixedTextIff | crates/oxide_builtins/src/number.rs:757-801 | the text of toFixed is that of the nearest decimal, larger on a tie, if and only if no digit shown is misread and the next one stays on its side of the half |
| NumberExact.ExponentialTextIff | crates/oxide_builtins/src/number.rs:884-932 | the same for the text of toExponential, carry included |
| NumberExact.PrecisionTextIff | crates/oxide_builtins/src/number.rs:831-876 | the same for the text of toPrecision, whichever form it takes |
| NumberExact.MisprintedText | crates/oxide_builtins/src/number.rs:757-801 | the double 3/1024, given by its bits, prints with four decimals as 0.0021, the nearest being 0.0029 |
| NumberValue.FixedMeans | crates/oxide_builtins/src/number.rs:617-637 | read back, a fixed text of f decimals is n / 10^f |
| NumberValue.ExpMeans | crates/oxide_builtins/src/number.rs:640-660 | read back, a text with exponent is its digits times the power of ten |
| NumberValue.SignedMeans | crates/oxide_builtins/src/number.rs:617-660 | the sign is read as a sign |
| NumberValue.ShownDigits | crates/oxide_builtins/src/number.rs:855-875 | however digits are misread, the number shown has all its digits, the first not zero |
| NumberValue.ExponentialMeans | crates/oxide_builtins/src/number.rs:884-932 | read back, toExponential shows exactly f + 1 digits, the first not zero, that stand for the number shown |
| NumberValue.PrecisionMeans | crates/oxide_builtins/src/number.rs:831-876 | read back, toPrecision shows exactly the digits asked for, that stand for the number shown, and has an exponent if and only if the number is below 10^-6 or at least 10^precision |
| Calendar.CountNext | crates/oxide_builtins/src/date.rs:128-136 | the day count of the next calendar day is one more |
| Calendar.CountOfDate | crates/oxide_builtins/src/date.rs:341-353 | the closed form gives a valid date for every day number, and counting its days gives the number back |
| Calendar.DateOfCount | crates/oxide_builtins/src/date.rs:341-353 | every valid date is found again from its day count |
| Calendar.CountOrdered | crates/oxide_builtins/src/date.rs:128-136 | the day count respects the order of dates |
| Calendar.Successor | crates/oxide_builtins/src/date.rs:341-353 | the date of z + 1 is the calendar successor of the date of z |
| Calendar.WalkDays | crates/oxide_builtins/src/date.rs:341-353 | n days later or earlier in the count is n single steps in the calendar |
| Calendar.CalendarFromEpoch | crates/oxide_builtins/src/date.rs:341-353 | the closed form is the day-by-day calendar counted from 1970-01-01 |
| Calendar.MakeDayWalks | crates/oxide_builtins/src/date.rs:140-155 | MakeDay starts at the first of the month, months carried into years, and walks d - 1 days |
| Calendar.MakeDayOfDate | crates/oxide_builtins/src/date.rs:140-155 | for a valid date MakeDay gives its day |
| DateText.PartsOfTime | crates/oxide_builtins/src/date.rs:1546-1565 | the parts of a time are in range and make up the time |
| DateText.YearOfTime | crates/oxide_builtins/src/date.rs:593-601 | a time within the limit, give or take a day, has a year between -275760 and 275760 |
| DateText.UtcWeekday | crates/oxide_builtins/src/date.rs:1546-1565 | toUTCString starts with the weekday of the day, counted day by day from Thursday, 1 January 1970 |
| DateText.PadUnique | crates/oxide_builtins/src/date.rs:1571-1592 | a padded number is the only text of digits for it of that width, or wider without a leading zero |
| DateParse.IsoRoundTrip | crates/oxide_builtins/src/date.rs:1571-1592 | reading the ISO text of any time within the limit gives exactly that time |
| DateIso.IsoComplete | crates/oxide_builtins/src/date.rs:405-560 | every spelling of the grammar, with its year forms, optional seconds and milliseconds, 24:00 and all zone forms, is read as what it means: midnight UTC for years and days, the clock less the offset, or what `local` makes of the clock |
| DateIso.IsoSound | crates/oxide_builtins/src/date.rs:405-560 | every text that is read is such a spelling |
| DateIso.IsoExactly | crates/oxide_builtins/src/date.rs:405-560 | a text is read as a time if and only if it spells something that means that time |
| DateIso.ZonedRoundTrip | crates/oxide_builtins/src/date.rs:513-560 | the clock of any time within the limit in any zone, written with `Z`, +HH, +HHMM or +HH:MM, is read as that time |
| DateIso.EveryOffset | crates/oxide_builtins/src/date.rs:513-549 | every offset of less than a day is written in both long forms, and one of whole hours in the short form |
| DateIso.IsoTextIsZulu | crates/oxide_builtins/src/date.rs:1571-1592 | toISOString writes the full form with `Z`, the year with four digits or with a sign and six |
| DateParse.ScanYear | crates/oxide_builtins/src/date.rs:405-439 | the year is read as the grammar says, four, six or sign and six digits |
| DateParse.ScanMonthDay | crates/oxide_builtins/src/date.rs:446-465 | month and day are read, and the day checked against the month |
| DateParse.ScanHourMinute | crates/oxide_builtins/src/date.rs:472-490 | hour and minute are read, 24 only as 24:00 |
| DateParse.ScanSecondMilli | crates/oxide_builtins/src/date.rs:491-511 | seconds and milliseconds are read if there |
| DateParse.ScanZone | crates/oxide_builtins/src/date.rs:513-549 | the offset is read in each of its forms |
| DateParse.ParseIsoStrict | crates/oxide_builtins/src/date.rs:405-560 | the scanner computes, for every text, what the grammar function gives |
| DateEngine.ParseSignedYear | crates/oxide_builtins/src/date.rs:639-649 | the loop reads a signed year and gives up exactly when it leaves 64 bits |
| DateEngine.ReadOffset | crates/oxide_builtins/src/date.rs:619-633 | the loop reads the offset as a number of minutes, unless leading digits of it already leave 64 bits, which it tells exactly |
| DateEngine.UtcRoundTrip | crates/oxide_builtins/src/date.rs:602-661 | reading the UTC text of any time within the limit gives the time rounded down to a second |
| DateEngine.OffsetRead | crates/oxide_builtins/src/date.rs:25-30 | the offset part of a text is read as the minutes of the offset if and only if the offset is below one hour |
| DateString.StringRead | crates/oxide_builtins/src/date.rs:214-233 | what reading the `toString` text of any time at any offset gives: the clock shown less HHMM minutes |
| DateString.StringToSecond | crates/oxide_builtins/src/date.rs:684-706 | reading the text back gives the time down to the second if and only if the clock shown is in the same second; for offsets of whole seconds, if and only if there is no offset |
| DateString.StringRoundTrip | crates/oxide_builtins/src/date.rs:593-637 | it gives the time itself if and only if that is a whole second and the offset is none or less than a second to the west |
| DateString.HalfHourMisread | crates/oxide_builtins/src/date.rs:602-633 | at an offset of half an hour the text of time zero is read as an hour earlier |
| DateString.StringWeekday | crates/oxide_builtins/src/date.rs:684-706 | the weekday written is that of the day shown if and only if time plus offset and time less offset are on one day |
| DateString.WrongWeekday | crates/oxide_builtins/src/date.rs:684-706 | at an offset of half an hour time zero is shown on Wednesday, 31 December 1969, and called Thursday |
| Rounding.NothingNearer | crates/oxide_builtins/src/math.rs:535-541 | the position chosen is a nearest one of the grid, and an even one if another is as near |
| Rounding.NearestMonotone | crates/oxide_builtins/src/math.rs:164-222 | rounding to nearest, ties to even, is monotone |
| Rounding.RoundInStep | crates/oxide_builtins/src/math.rs:562-570 | rounding a quotient by what was dropped is rounding to nearest even on the grid |
| MathSum.RoundInverts | crates/oxide_builtins/src/math.rs:513-533 | every finite double other than -0 is what its exact integer rounds to |
| MathSum.RoundedUnique | crates/oxide_builtins/src/math.rs:541-585 | the rounded double is unique |
| MathSum.ExactSumToF64 | crates/oxide_builtins/src/math.rs:541-585 | for every integer S the nearest double to S 2^-1074, ties to even, with subnormals, carry and overflow |
| MathSumLoop.SumPrecise | crates/oxide_builtins/src/math.rs:604-678 | the loop over the steps of an iterator; exactly when it gives a type error, a range error, the exception of the iterator, or the answer of the final state; the iterator is closed if and only if there is no answer |
| MathSumLoop.ThrowerIsClosed | crates/oxide_builtins/src/math.rs:636-640 | an iterator whose first `next` throws is closed, and its exception comes out |
| MathSumLoop.RunFinite | crates/oxide_builtins/src/math.rs:650-677 | on finite elements the state says whether all are -0 and the sum is exact |
| MathSumLoop.OrderDoesNotMatter | crates/oxide_builtins/src/math.rs:604-678 | permutations of finite elements give the same bits |
| MathSumLoop.MinusZeroIff | crates/oxide_builtins/src/math.rs:604-678 | the answer is -0 if and only if every element is |
| MathSumLoop.StateOfTail | crates/oxide_builtins/src/math.rs:656-669 | the loop ends in not-a-number if and only if there is a special element and the alternating tail of infinities is even |
| MathSumLoop.UndefinedIff | crates/oxide_builtins/src/math.rs:656-669 | defined sums get the right class; an undefined one gets NaN if and only if its alternating tail is even |
| MathSumLoop.InfinityReturns | crates/oxide_builtins/src/math.rs:656-669 | infinity, -infinity, infinity sums to infinity, and so does NaN, infinity |
| MathHalf.F64ToF16Bits | crates/oxide_builtins/src/math.rs:164-222 | for every double the nearest binary16 pattern, ties to even, with its sign; infinities and NaN kept |
| MathHalf.HalfMonotone | crates/oxide_builtins/src/math.rs:164-222 | the conversion is monotone, from -infinity to infinity |
| MathHalf.OrderOfValues | crates/oxide_builtins/src/math.rs:164-222 | that order is the order of the values |
| MathHalf.OverflowIff | crates/oxide_builtins/src/math.rs:164-222 | it overflows to infinity if and only if the magnitude is at least 65520 |
| MathHalf.HalfIsDouble | crates/oxide_builtins/src/math.rs:227-248 | every finite binary16 number is a double, subnormals included |
| MathHalf.F16BitsToF64 | crates/oxide_builtins/src/math.rs:227-248 | every pattern becomes the double of its value with its sign, infinities and NaN kept, the product being rounded to nearest |
| MathHalf.HalfInverts | crates/oxide_builtins/src/math.rs:227-248 | converting a finite binary16 number to a double and back gives the same pattern |
| MathHalf.HalfUnique | crates/oxide_builtins/src/math.rs:164-222 | the nearest pattern is unique |
| MapTable.InsertRefines | crates/oxide_builtins/src/map.rs:76-84 | inserting in the table is putting in the ordered map: a key present keeps place and original form, a new one is last |
| MapTable.RemoveRefines | crates/oxide_builtins/src/map.rs:87-93 | removing leaves a hole and is dropping from the ordered map |
| MapTable.GetRefines | crates/oxide_builtins/src/map.rs:64-68 | looking up through the index is looking up in the ordered map |
| MapTable.DeleteThenAdd | crates/oxide_builtins/src/map.rs:76-93 | deleting and adding again moves a key to the end |
| MapTable.SizeIsEntries | crates/oxide_builtins/src/map.rs:45-47 | the index has as many keys as there are live entries |
| MapScan.RunInv | crates/oxide_builtins/src/map.rs:422-445 | every interleaving of looks and changes keeps the account of what was visited |
| MapScan.EveryRun | crates/oxide_builtins/src/map.rs:422-445 | slots are visited in strictly increasing order, no entry twice, and after a completed scan a live entry was visited if and only if it was not added behind the scan |
| MapScan.VisitsAreSeen | crates/oxide_builtins/src/map.rs:422-445 | whatever a scan visits was in that slot, key and value, when the scan looked at it |
| MapScan.LiveEntriesVisitedOnce | crates/oxide_builtins/src/map.rs:422-445 | without clear a completed scan has visited every live entry exactly once |
| MapScan.DeletedNeverVisited | crates/oxide_builtins/src/map.rs:87-93 | an entry deleted before it was reached is never visited |
| MapScan.AddedAgain | crates/oxide_builtins/src/map.rs:76-93 | a key deleted and added again is at a new slot that was not visited |
| MapScan.ClearedScanMisses | crates/oxide_builtins/src/map.rs:99-102 | after clear a new entry can be missed by the scan |
| MapObject.MapInner.Insert | crates/oxide_builtins/src/map.rs:76-84 | the object's table and entries change as the functions say |
| MapObject.MapInner.Remove | crates/oxide_builtins/src/map.rs:87-93 | the same for removal; the answer says whether the key was there |
| MapObject.MapInner.Get | crates/oxide_builtins/src/map.rs:64-68 | the value the ordered map has for the key |
| MapObject.MapInner.Len | crates/oxide_builtins/src/map.rs:45-47 | the number of live entries |
| MapObject.MapInner.Clear | crates/oxide_builtins/src/map.rs:99-102 | slots and index become empty |
| MapObject.MapInner.ForEach | crates/oxide_builtins/src/map.rs:422-445 | the loop is exactly the run of looks and callbacks that its replies determine, the callbacks changing the Map and perhaps throwing |
| MapObject.ForEachVisitsOnce | crates/oxide_builtins/src/map.rs:422-445 | with callbacks that neither clear nor throw the loop goes to the end and has visited every live entry exactly once |
| MapObject.ForEachEntries | crates/oxide_builtins/src/map.rs:422-445 | with callbacks that leave the Map alone the loop passes exactly its entries, in order |
| MapObject.MapInner.GetOrInsertComputed | crates/oxide_builtins/src/map.rs:355-388 | the key is normalised; a key present gives its value and nothing changes; otherwise the computed value is put after what the callback did, and nothing if it threw |
| MapObject.MapInner.StepCore | crates/oxide_builtins/src/iterator.rs:3085-3143 | the loop finds the first live slot from the cursor on |
| MapObject.NextEntryFinds | crates/oxide_builtins/src/iterator.rs:3085-3143 | what an iterator gives next is the first live slot, all before it holes; else its cursor goes to the final place |
| MapObject.DoneStays | crates/oxide_builtins/src/iterator.rs:3137-3143 | an iterator that reported done reports done again if and only if no live slot lies at or after its final place |
| MessageGraph.UnfoldingUnique | crates/oxide_builtins/src/message_value.rs:142-156 | a value has at most one unfolding into a message |
| MessageGraph.PlainUnfolds | crates/oxide_builtins/src/message_value.rs:435-465 | a plain object becomes its enumerable properties and no others, in order, each key with its own value |
| MessageGraph.FailsIffPath | crates/oxide_builtins/src/message_value.rs:142-156 | the search with a stack of ancestors fails if and only if a path leads to a cycle or to something that cannot be cloned |
| MessageGraph.UnfoldsWithoutFailing | crates/oxide_builtins/src/message_value.rs:142-156 | a value that has an unfolding reaches no cycle and nothing that cannot be cloned |
| MessageDetach.Detacher.DetachValue | crates/oxide_builtins/src/message_value.rs:142-156 | the stack is restored; it succeeds if and only if nothing circular or uncloneable is met and no transferred buffer is met twice; it then gives the unfolding, and in any case the transferred buffers met before the step that failed are gone |
| MessageDetach.Detacher.DetachObject | crates/oxide_builtins/src/message_value.rs:205-253 | the same for an object, by kind |
| MessageDetach.Detacher.DetachBuffer | crates/oxide_builtins/src/message_value.rs:291-321 | a buffer gives its bytes unless detached, and is detached if and only if it is to be transferred |
| MessageDetach.Detacher.DetachAll | crates/oxide_builtins/src/message_value.rs:421-433 | the same for a list of children |
| MessageDetach.DetachMessage | crates/oxide_builtins/src/message_value.rs:134-139 | for every closed heap and transfer list it ends, fails if and only if a cycle or something that cannot be cloned is reachable or two ways lead to a transferred buffer, and else gives the unfolding and detaches exactly the transferred buffers that are reachable; after a failure those met before the first failing step of the walk are detached |
| MessageDetach.MetIffReached | crates/oxide_builtins/src/message_value.rs:291-321 | without cycles a buffer is met by the search if and only if a way leads to it, and twice if and only if two do |
| MessageDetach.TakenIsMet | crates/oxide_builtins/src/message_value.rs:291-321 | going through the steps of the walk, what is gone at the end is what was to be transferred and was met before the first step that ends it |
| MessageRehydrate.FilledIff | crates/oxide_builtins/src/message_value.rs:540-573 | inserting entries keeps them all, in order, if no key is the same as an earlier one, and loses some otherwise |
| MessageRehydrate.NormalIff | crates/oxide_builtins/src/message_value.rs:514-664 | a message is what it becomes if and only if it holds no -0, no Map or Set has a key twice, and no error has a name other than the seven standard ones |
| MessageRehydrate.KeysStayDistinct | crates/oxide_builtins/src/message_value.rs:324-341 | Maps and Sets with distinct keys, none boxed, give messages with distinct keys |
| MessageRehydrate.Realm.Rehydrate | crates/oxide_builtins/src/message_value.rs:514-664 | for every message new objects only, old ones untouched, whose unfolding is the message with -0 as 0, equal keys merged and other error names replaced by Error |
| MessageRehydrate.Realm.RehydrateAll | crates/oxide_builtins/src/message_value.rs:523-532 | the loop over children, each with objects of its own |
| MessageRehydrate.Transport | crates/oxide_builtins/src/message_value.rs:134-664 | detach and rehydrate together: failure exactly as for detaching, otherwise new objects that unfold to the message made normal, which is the same unfolding if and only if there is no -0, no key twice and no error with a name of its own in it |
| MessageRehydrate.BoxedKeysMerge | crates/oxide_builtins/src/message_value.rs:324-341 | a Map whose two keys are boxes of the same number arrives with one entry |
| MessageRehydrate.MinusZeroLost | crates/oxide_builtins/src/message_value.rs:595-601 | -0 arrives as 0 |
| MessageRehydrate.ErrorNameLost | crates/oxide_builtins/src/message_value.rs:635-664 | an error with any other name, SuppressedError and AggregateError among them, arrives as an Error |
| ModuleExports.ApplyKeeps | crates/oxide_builtins/src/module.rs:457-544 | every operation keeps entry table and slots in agreement and changes what a name is as the automaton says |
| ModuleExports.StarKeeps | crates/oxide_builtins/src/module.rs:796-885 | a star export of one name: nothing for explicit and ambiguous names, a conflict removes the slot |
| ModuleExports.SetKeeps | crates/oxide_builtins/src/module.rs:457-510 | an explicit export makes the name explicit and leaves other names alone |
| ModuleExports.RunStatus | crates/oxide_builtins/src/module.rs:457-544 | after any log of operations the tables agree, and what a name is is what the log says |
| ModuleExports.VisibleIff | crates/oxide_builtins/src/module.rs:796-885 | after any log a name is visible if and only if it was made explicit or all star exports of it carry one token |
| ModuleValues.SlotHoldsLastWrite | crates/oxide_builtins/src/module.rs:457-544 | after any log the slot of a visible name holds what the last event that writes it gave: an export of a name not in a cell, a binding of a visible name, an announcement of a name without entry, or a star export of a name that is not there |
| ModuleValues.ExportAnswers | crates/oxide_builtins/src/module.rs:250-283 | after any log a reader gets nothing, the value of the cell, the value written last, or that it is uninitialised, each exactly when the log says so |
| ModuleExports.OrderDoesNotMatter | crates/oxide_builtins/src/module.rs:796-885 | two logs, in whatever order, that make the same names explicit and have the same star exports make the same names visible |
| ModuleExports.StarOrderDoesNotMatter | crates/oxide_builtins/src/module.rs:796-885 | neighbouring star exports anywhere in a log may be permuted: every name is then the same, explicit ones included, and the same names are visible |
| ModuleExports.StarTwice | crates/oxide_builtins/src/module.rs:796-885 | repeating a star export changes nothing at all |
| ModuleExports.PassedOn | crates/oxide_builtins/src/module.rs:761-779 | in every namespace a name given by star export is passed on with the token it came with |
| ModuleExports.Diamond | crates/oxide_builtins/src/module.rs:761-885 | a name that comes by star export from two namespaces that had it by star export stays visible if and only if both had it from one binding |
| ModuleObject.LocalsConflict | crates/oxide_builtins/src/module.rs:761-885 | a name that two modules export by themselves conflicts when it comes by star export from both |
| ModuleObject.StarGives | crates/oxide_builtins/src/module.rs:796-885 | a star export gives every name of the source but `default`, each with what it is known as |
| ModuleObject.Namespace.EntryIndex | crates/oxide_builtins/src/module.rs:181-183 | the linear search finds the entry of a name |
| ModuleObject.Namespace.Export | crates/oxide_builtins/src/module.rs:250-283 | an ambiguous or missing name is no export; otherwise a held export shows its slot once it was set, and an export in a cell shows the cell once that is initialised |
| ModuleObject.Namespace.SetExport | crates/oxide_builtins/src/module.rs:457-510 | the object changes as the function says, value included |
| ModuleObject.Namespace.SetReexport | crates/oxide_builtins/src/module.rs:630-668 | the same for a re-export, with a table installed first |
| ModuleObject.Namespace.PreRegister | crates/oxide_builtins/src/module.rs:387-428 | the same for an announcement |
| ModuleObject.Namespace.SetCell | crates/oxide_builtins/src/module.rs:583-623 | the same for binding a cell; false when the name has no entry |
| ModuleObject.Namespace.Star | crates/oxide_builtins/src/module.rs:796-885 | the loop applies every export of the source but `default`, with its token |
| ModuleObject.LateAnnouncement | crates/oxide_builtins/src/module.rs:387-428 | a name announced only after a star export disappears when another one conflicts |
| ModuleObject.ExplicitExportLost | crates/oxide_builtins/src/module.rs:457-510 | a name given by a star export, then bound to a cell, then exported explicitly disappears when another star export conflicts |
| DisposeLaws.Conservation | crates/oxide_builtins/src/disposable_stack.rs:163-460 | over every run, callbacks included, each registered resource is waiting in exactly one stack or was released exactly once |
| DisposeLaws.FrozenDispose | crates/oxide_builtins/src/disposable_stack.rs:409-433 | a stack disposed of stays as it is while others are disposed of |
| DisposeLaws.DisposeLifo | crates/oxide_builtins/src/disposable_stack.rs:409-433 | in any state, within any other disposals, dispose releases the resources of the stack last in, first out, each once, whatever callbacks do or throw |
| DisposeLaws.EveryDisposalIsLifo | crates/oxide_builtins/src/disposable_stack.rs:409-433 | every disposal in every run, nested ones included, does so |
| DisposeRegister.Answers | crates/oxide_builtins/src/disposable_stack.rs:163-225 | every operation but dispose answers ReferenceError if and only if the stack was disposed of, TypeError if and only if there is no such stack or what it is given cannot be registered, and then changes nothing; the count of resources grows exactly by those registered |
| DisposeRegister.DisposedAlready | crates/oxide_builtins/src/disposable_stack.rs:409-415 | disposing of a stack a second time does nothing |
| DisposeRegister.RegisteredIsReleased | crates/oxide_builtins/src/disposable_stack.rs:163-225 | a resource just registered by use, adopt or defer is the next to be released when the stack is disposed of, with the calling style of that operation, once, and those before it follow |
| DisposeRegister.MovedIsReleased | crates/oxide_builtins/src/disposable_stack.rs:443-460 | what a moved stack held is released in the same order by the new stack, and the old one is disposed of and empty |
| DisposeRegister.NewThenDisposed | crates/oxide_builtins/src/disposable_stack.rs:163-433 | a new stack takes resources, one disposed of is empty and refuses them |
| DisposeRegister.EveryRegistration | crates/oxide_builtins/src/disposable_stack.rs:163-460 | over every run, callbacks included, as many resources are registered as registering operations answered that all is fine, and wherever the n-th is, waiting or released, it has the style of the n-th operation |
| DisposeLaws.ReleaseErrors | crates/oxide_builtins/src/disposable_stack.rs:514-519 | the completion is the chain of the errors thrown, in order |
| DisposeLaws.DisposeErrors | crates/oxide_builtins/src/disposable_stack.rs:409-433 | dispose throws if and only if a callback threw; its error, flattened, lists everything thrown, in order; its chain is the list of errors thrown if and only if the first of them is not itself a chain |
| DisposeLaws.RethrownChain | crates/oxide_builtins/src/disposable_stack.rs:514-519 | one callback that throws a suppressed error gives that error, whose chain has more members than errors were thrown |
| DisposeObject.Realm.Use | crates/oxide_builtins/src/disposable_stack.rs:163-193 | state is checked first; nullish values are not registered; the rest as the function says |
| DisposeObject.Realm.Add | crates/oxide_builtins/src/disposable_stack.rs:204-225 | adopt and defer register a callable, with their own way of calling it |
| DisposeObject.Realm.Move | crates/oxide_builtins/src/disposable_stack.rs:443-460 | all entries go to a new pending stack, the old one is disposed |
| DisposeObject.Realm.CallEntry | crates/oxide_builtins/src/disposable_stack.rs:500-511 | the callback runs with all it does, and its error comes back |
| DisposeObject.Realm.Dispose | crates/oxide_builtins/src/disposable_stack.rs:409-433 | the reverse loop, over entries read from the object as it goes, computes the function |

## Left out

- Iterator terminal methods (`forEach`, `reduce`, `toArray` and the like), the construction of zip and concat helpers, `zipKeyed`, and string iterators: no new protocol.
- Iterators are told apart by their position in the helper, not by object identity: two inputs that are the same object are two iterators in the log.
- Tampering with helper slots such as `__state__`: the slots are fields.
- JSON `toJSON`, replacers, revivers, raw JSON and the check for circular structures: user code, or covered by the input being a tree.
- JSON numbers are texts; their conversion to and from doubles is not modelled.
- Number texts without explicit digits and `Number.prototype.toString`: they rest on the host's formatting, and enter as parameters.
- Date: local time, time zones, RFC 2822 and `YYYY/MM/DD` texts, and 64-bit overflow of day counts outside the range that MakeDay admits; `local` is a parameter.
- ParseEngine takes sums and products over unbounded integers: an offset of very many digits, which leaves 64 bits there, is told apart in `ReadOffset` only.
- MakeDay takes components already truncated to integers.
- sumPrecise over an iterator: its steps are a sequence, and what closing it runs is not modelled.
- MathHalf.F16BitsToF64: the division, the sum and the product of the code are one product rounded to nearest; that the division and the sum are exact is not stated.
- Messages: symbols, getters (on plain objects and of an error's `cause`), typed arrays, holes of arrays (which arrive as `undefined`) and other own properties of arrays and errors, the conversion of an error's `name` and `message` to text, lone surrogates in names, keys and patterns, `lastIndex` of a RegExp, and the number of times a shared object is copied. The keys of a plain object are taken to be distinct.
- Modules: the sorting of export names, deferred namespaces and evaluation; which cells are initialised is a parameter.
- Disposable stacks: asynchronous disposal, subclass prototypes, and getters of `Symbol.dispose` that run other code.
- Garbage collection, shapes, interning and raw pointers.
