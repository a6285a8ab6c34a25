# Verified model of the dolphin demo's client framework

The client side of the dolphin demo is a small JavaScript framework: an asynchronous script
loader, a JSON library, jQuery 1.3.2 with its selector engine, formatters and codecs, and a table
component. This project models the parts of it that carry state or arithmetic and proves what they
promise. `dafny verify dfyconfig.toml` checks everything.

| part | modules |
|---|---|
| JSON text, printer, guarded parser | `JsonText`, `JsonPrinter`, `JsonLayout`, `JsonEval`, `JsonRoundTrip`, `JsonGuard`, `JsonSafety`, `JsonStrings`, `JsonSpelling`, `JsonReading`, `JsonCompact` |
| In-order script loader | `JsLoaderSteps`, `JsLoaderRuns`, `JsLoaderPlain`, `JsLoader` |
| Selector engine: memoised walks, `:nth-child` | `SizzlePass`, `SizzleOutside`, `SizzlePlain`, `SizzleChains`, `SizzleWalk`, `SizzleChild` |
| Ajax request counter | `AjaxCounter` |
| Dates, numbers, URL parameters, log of local calls | `DateFormat`, `DateParse`, `DateReading`, `NumberFormat`, `ParameterHelper`, `ParameterRepeats`, `InvokedMethods` |
| Table, selection, paging, row templates | `TableModel`, `TableRows`, `GTable`, `Pagination`, `TemplateRow` |
| Shared | `Wrappers`, `Strings`, `Division` |

Code that works by changing things step by step is modelled by classes, arrays and loops, each
method proved equal to a function on values; the promises are then proved about those functions,
over every input or every run. Code made of expressions is modelled by functions alone.

**JSON.** A text is a sequence of 16-bit code units. The printer class keeps the shared `gap` and
`indent`; its result is proved to be the function `Print`. `Eval` is an independent reader of the
grammar of RFC 4627, section 2, and stands for `eval`; `Guard` is the chain of rewrites of
`JSON.parse`, each regular expression spelled out as a scanner. A finite number is the text that
`String` gives it, any text of the grammar of section 2.4 of that RFC. `JsonSpelling` describes JSON
texts by trees that carry their spelling; parsing is proved to give a value exactly for the texts that
spell it. The guard is also proved sound for what it is meant to keep away from `eval`.

**Loader.** The state is the level table, the file table, the callback array and the two counters.
A run is any sequence of page calls and responses; what a script or a callback does when it runs is
an arbitrary finite tree of `require` and `onReady` calls. The promises are stated by an observer
who sees only requests, script runs and callback calls and knows nothing of levels, and the loader is
proved to behave like one that is a list of requests and a queue of callbacks.

**Selector engine.** Nodes live on the heap and carry `sizcache`, `sizset` and `nodeIndex`; the pass
over a set is also a function on marks and slots, to which the methods are tied. The plain walk is a
recursive function that ignores the marks. In the sibling direction the code marks the elements of the
set too, so a walk that meets one takes over the answer of that element instead of the element. Answers
then differ from plain ones, but not always: an earlier walk may have left marks that lead past.
`SizzlePlain.PlainExactly` says exactly when, for sets in any order; `SizzleChains` restates the
outcome and the condition by ancestors and preceding siblings.

**Ajax.** Calls interleave at the points where handlers run: after opening, before the completion
counts down, and before the `xhr` is released. Polls, timeouts and aborts may come at any moment. Each
method of a call object is proved to be one step of the run of all calls.

**Dates.** The limits that `parse` gives to `getInt` are one too low for the year and the day: the
year 9999 and the 31st are formatted but refused on reading back. A zero shown without padding is read
as no number, since its only digit is taken for a leading zero, and a single digit takes a following one
with it. `ParseUndoesFormatExactly` states the exact condition.

**Parameters.** `build` visits its parameters by `jQuery.each`, which takes an object with a property
`length` for an array. A parameter of that name therefore hides all others that are not named by
numbers. `parse` looks a name up in a plain object, where an inherited member such as `constructor`
passes for an earlier value. Together with the prefix that marks JSON this gives the exact condition of
`ParseUndoesAppend`. Which names are inherited is a parameter.

**Numbers.** A number is a sign, its whole part and the digits of its fraction. The sign is grouped
like a digit, so -123456 is shown with a separator right after the minus sign; `LoneSign` says when.

**Tables.** `TableModel` holds the operations on values and `GTable` the objects: the row array
shared by table and builder, the id array shared by the builder and the click handlers of its rows.
In SINGLE mode the selected index is not moved when an earlier row is deleted, so it can leave the
table; `SingleStepStaysInRange` and `DeletionMovesSelection` say exactly when.

Where comments and code disagree the model follows the code: the range test before a segment is
taken in `DateFormat.parse` never fires, since it reads the length of a number, and the log of
local calls keeps the parameters of a longer earlier call behind those of a shorter later one.

## Model

| member | source | states |
|---|---|---|
| `JsonGuard.ParseUndoesStringify` | workspace/demos/demo-dolphin/js/core/json2.js:433-473 | For every value tree and every whitespace indent, `JSON.parse` of what `JSON.stringify` returned succeeds and gives the value back, without its undefined members and with null for undefined elements and non-finite numbers; `stringify` returns nothing exactly for the undefined value |
| `JsonGuard.GuardAcceptsPrinted` | workspace/demos/demo-dolphin/js/core/json2.js:433-457 | The guard accepts every text the printer emits; for all other JSON texts see `JsonReading.ParsesExactly` |
| `JsonGuard.PrintedHasNoCx` | workspace/demos/demo-dolphin/js/core/json2.js:190-191 | No code unit of `cx` survives in a printed text, whatever the strings and keys hold, so the first pass changes nothing |
| `JsonGuard.AcceptedPrinted` | workspace/demos/demo-dolphin/js/core/json2.js:454-457 | A printed value is reduced to safe characters by the three rewrites wherever a value may stand: at the start, or after a colon, a comma or an opening bracket, before any accepted rest |
| `JsonGuard.AcceptedQuote` | workspace/demos/demo-dolphin/js/core/json2.js:455-457 | A quoted string of arbitrary code units, its escapes blanked first, collapses into one token |
| `JsonGuard.StripLeavesSafe` | workspace/demos/demo-dolphin/js/core/json2.js:457 | Deleting the runs of opening brackets leaves only safe characters whenever each bracket stands after a colon, a comma, another bracket or the start |
| `JsonReading.ParseSpelled` | workspace/demos/demo-dolphin/js/core/json2.js:433-464 | `JSON.parse` reads every spelling that RFC 4627 allows of every value: each unit of a string as itself, by its short escape, `\/` among them, or by hexadecimal digits in either case, whitespace before and after every mark, numbers put together from sign, whole part, fraction and exponent, repeated keys; units of `cx` may stand in strings as they are |
| `JsonReading.ParsesExactly` | workspace/demos/demo-dolphin/js/core/json2.js:433-473 | A text is parsed to a value if and only if, with the units of `cx` escaped, it is a spelling of that value with whitespace around it; everything else is a syntax error |
| `JsonReading.CleanSpells` | workspace/demos/demo-dolphin/js/core/json2.js:433-439 | The first pass turns a spelling into another spelling of the same value |
| `JsonReading.SpelledValue` | workspace/demos/demo-dolphin/js/core/json2.js:464 | Whatever a value is read from spells it |
| `JsonSpelling.ReadSpelled` | workspace/demos/demo-dolphin/js/core/json2.js:464 | The reader takes exactly the spelled text off any continuation and returns its value |
| `JsonSpelling.AcceptedSpelled` | workspace/demos/demo-dolphin/js/core/json2.js:454-457 | The three rewrites reduce every spelled value to safe characters wherever a value may stand |
| `JsonSpelling.LastWinsIsKept` | workspace/demos/demo-dolphin/js/core/json2.js:464 | Of repeated keys an object keeps each once, in the order of first appearance, with the last value |
| `JsonSafety.GuardIsSafe` | workspace/demos/demo-dolphin/js/core/json2.js:441-457 | Conversely, whatever text passes the guard is safe to evaluate: read as JavaScript, its strings are closed on their line, and outside them there is no parenthesis, equals sign, semicolon, slash, apostrophe or backslash, only marks, whitespace and the characters of numbers, `true`, `false` and `null` |
| `JsonSafety.StrippedMarks` | workspace/demos/demo-dolphin/js/core/json2.js:457 | If only safe characters are left after the third pass, that pass deleted nothing but brackets, whitespace and separators |
| `JsonSafety.StringIsLiteral` | workspace/demos/demo-dolphin/js/core/json2.js:455-456 | In a text without units of `cx`, a string token of the second pass, found after escapes were blanked, is a whole string literal of the text before the passes |
| `JsonSafety.TokensAreHarmless` | workspace/demos/demo-dolphin/js/core/json2.js:455-456 | A text without units of `cx` that the first two rewrites reduce to marks is harmless |
| `JsonRoundTrip.ReadPrinted` | workspace/demos/demo-dolphin/js/core/json2.js:224-347 | A reader of the RFC 4627 grammar takes exactly the printed text off the front of any continuation and returns the value |
| `JsonRoundTrip.EvalPrinted` | workspace/demos/demo-dolphin/js/core/json2.js:464 | Evaluating a printed text, compact or indented, gives the value |
| `JsonEval.ReadEscape` | workspace/demos/demo-dolphin/js/core/json2.js:206-221 | Unescaping undoes escaping for every sequence of 16-bit code units |
| `JsonEval.QuoteIsEscape` | workspace/demos/demo-dolphin/js/core/json2.js:213-220 | Skipping the replacement when nothing is escapable gives the same text as replacing |
| `JsonText.HexPadDigits` | workspace/demos/demo-dolphin/js/core/json2.js:218 | The padded `\u` escape holds exactly four hexadecimal digits and they spell the unit |
| `JsonPrinter.Printer.Str` | workspace/demos/demo-dolphin/js/core/json2.js:224-347 | `str` restores the shared gap at every exit, and its result depends only on the value, the gap and the indent |
| `JsonPrinter.Printer.Stringify` | workspace/demos/demo-dolphin/js/core/json2.js:352-396 | `stringify` takes a text as the indent, a number as that many spaces and nothing as no indent, and prints from an empty gap |
| `JsonLayout.PrintIsLayout` | workspace/demos/demo-dolphin/js/core/json2.js:269-344 | The indented text is the value's lines: each starts with one copy of `indent` per bracket open around it, with commas between the parts and an empty object or array on one line |
| `JsonCompact.IndentAddsOnlySpace` | workspace/demos/demo-dolphin/js/core/json2.js:269-344 | Without the whitespace outside its string literals every printed text, whatever its indent, is the compact text, and the compact text has no such whitespace |
| `JsonCompact.QuoteIsSpelling` | workspace/demos/demo-dolphin/js/core/json2.js:206-221 | A quoted string spells each of its units: as itself unless it is a quotation mark, a backslash, a control character, DEL to U+009F or in `cx`, otherwise by its short escape if it has one, otherwise by small hexadecimal digits |
| `JsonCompact.QuoteIsShortest` | workspace/demos/demo-dolphin/js/core/json2.js:206-221 | No spelling under the same restriction is shorter than the quoted string |
| `JsLoaderRuns.RunsInRequestOrder` | workspace/demos/demo-dolphin/js/boot.js:327-366 | In any run, with responses in any order and repeated, and requests made by running scripts, each file is requested once and the scripts that ran are exactly the first `currentLevel - 1` requested ones, in that order |
| `JsLoaderRuns.CallsInRegistrationOrder` | workspace/demos/demo-dolphin/js/boot.js:294-325 | In any run the ready callbacks called so far are a prefix of those registered, in registration order and each once, and the array holds exactly the rest |
| `JsLoaderRuns.LastScriptCallsAll` | workspace/demos/demo-dolphin/js/boot.js:351-366 | A response that makes the last requested script run leaves every callback called, those included that were registered while draining |
| `JsLoaderRuns.NothingStuck` | workspace/demos/demo-dolphin/js/boot.js:351-366 | Between events either every requested script has run, or the first one that has not run is still without a response |
| `JsLoaderPlain.BehavesPlainly` | workspace/demos/demo-dolphin/js/boot.js:294-379 | In every run the loader with its levels has done the same, in the same order, as a loader that is a list of requests and a queue of callbacks and runs the next script as soon as it is there |
| `JsLoaderPlain.ScriptsTakeEffect` | workspace/demos/demo-dolphin/js/boot.js:368-375 | Every script that a response makes run, its own or one that waited, is executed as it was last received: all it asks for has been requested in the end, and the functions it registers have been registered together and in its order |
| `JsLoaderPlain.CallbacksTakeEffect` | workspace/demos/demo-dolphin/js/boot.js:296-311 | The same for every function that was called |
| `JsLoaderRuns.ApprovedRun` | workspace/demos/demo-dolphin/js/boot.js:351-366 | What the observer accepts: scripts in request order, at most once |
| `JsLoaderRuns.RunKeeps` | workspace/demos/demo-dolphin/js/boot.js:327-366 | Every sequence of page calls and responses keeps the invariant, including that callbacks are called only in the drain after the last requested script |
| `JsLoaderRuns.RespondKeeps` | workspace/demos/demo-dolphin/js/boot.js:339-344 | One response, first or repeated, keeps the invariant |
| `JsLoaderRuns.RunLevelsKeeps` | workspace/demos/demo-dolphin/js/boot.js:351-366 | The recursion over the waiting levels stops with no runnable level left |
| `JsLoaderRuns.ExecuteJsKeeps` | workspace/demos/demo-dolphin/js/boot.js:355-358 | After the head script, whatever it requested, draining is due exactly when its level is still the last issued |
| `JsLoaderRuns.DrainKeeps` | workspace/demos/demo-dolphin/js/boot.js:296-311 | The drain calls every function registered, those added while draining too, and leaves none behind |
| `JsLoaderSteps.CallOneShrinks` | workspace/demos/demo-dolphin/js/boot.js:297-309 | Each call of the splicing loop shrinks what is left, although callbacks push new ones |
| `JsLoaderSteps.RoundShrinks` | workspace/demos/demo-dolphin/js/boot.js:360-364 | Each level run leaves fewer waiting responses, so the recursion ends |
| `JsLoader.Loader.constructor` | workspace/demos/demo-dolphin/js/boot.js:295 | The loader starts with level 1 to run and nothing requested |
| `JsLoader.Loader.Require` | workspace/demos/demo-dolphin/js/boot.js:328-349 | A file is requested once and given the next level |
| `JsLoader.Loader.OnReady` | workspace/demos/demo-dolphin/js/boot.js:314-316 | A callback goes to the end of the array |
| `JsLoader.Loader.ExecFcs` | workspace/demos/demo-dolphin/js/boot.js:296-320 | The splicing loop over the growing array is the specified drain |
| `JsLoader.Loader.ExecuteJs` | workspace/demos/demo-dolphin/js/boot.js:368-379 | Running a script performs its requests and registrations once and marks the record as run; `JsLoaderPlain.ScriptsTakeEffect` says what that comes to in a run |
| `JsLoader.Loader.RunHead` | workspace/demos/demo-dolphin/js/boot.js:355-360 | The head script, the drain when it was the last issued, and the step to the next level |
| `JsLoader.Loader.ExecuteScript` | workspace/demos/demo-dolphin/js/boot.js:351-366 | The recursive method runs the levels as specified |
| `JsLoader.Loader.Success` | workspace/demos/demo-dolphin/js/boot.js:339-344 | A response is stored and run as specified, and the invariant of all runs is kept |
| `SizzleWalk.DirNodeCheck` | workspace/demos/demo-dolphin/js/core/jquery-1.3.2.js:2253-2287 | With a fresh `doneName` each slot ends, in the parent direction, with the first node of that name among the ancestors of its node, or false; in the sibling direction with the first among the preceding siblings, always in XML and in HTML if and only if, whenever that is an element first listed earlier, an element stands between it and a node listed still earlier that has the same first match; in a regular set the slots end with the nearest matches outside the set |
| `SizzleWalk.DirCheck` | workspace/demos/demo-dolphin/js/core/jquery-1.3.2.js:2289-2330 | The same for the elements that are the given one, reported as true, or match a selector |
| `SizzleWalk.CheckNodeSlot` | workspace/demos/demo-dolphin/js/core/jquery-1.3.2.js:2255-2285 | One round of the outer loop is the specified one, on the marks of the nodes and the slots |
| `SizzleWalk.CheckElementSlot` | workspace/demos/demo-dolphin/js/core/jquery-1.3.2.js:2291-2328 | The same for `dirCheck` |
| `SizzleWalk.WalkElements` | workspace/demos/demo-dolphin/js/core/jquery-1.3.2.js:2298-2325 | The inner loop marks and reports as the specified walk does |
| `SizzlePlain.PlainExactly` | workspace/demos/demo-dolphin/js/core/jquery-1.3.2.js:2253-2330 | For every set, in any order and with repetitions: all slots get plain answers if and only if, in a sibling pass, whenever the plain answer of a slot is an element first listed earlier, the walk of a slot before that listing found the same element and came by an element on the way |
| `SizzleChains.DeliveredIsTold` | workspace/demos/demo-dolphin/js/core/jquery-1.3.2.js:2253-2330 | What the pass delivers, by the links alone: the first matches among ancestors, and among preceding siblings exactly under the condition on the set, itself stated by the links |
| `SizzleChains.NearestIsFirst` | workspace/demos/demo-dolphin/js/core/jquery-1.3.2.js:2281 | The plain walk from a node finds the first match among its ancestors, or its preceding siblings |
| `SizzleChains.PlainAtIsUnspoilt` | workspace/demos/demo-dolphin/js/core/jquery-1.3.2.js:2267-2275 | The condition of a slot in terms of the preceding siblings |
| `SizzlePlain.StepPlain` | workspace/demos/demo-dolphin/js/core/jquery-1.3.2.js:2255-2285 | One round answers rightly exactly under the condition of its slot, and then every mark still leads to an answer |
| `SizzlePlain.StopIsRight` | workspace/demos/demo-dolphin/js/core/jquery-1.3.2.js:2261-2281 | Where a walk stops, at a mark, at a match or at the end, its report is right exactly under the condition |
| `SizzlePlain.OwnMarkIsWrong` | workspace/demos/demo-dolphin/js/core/jquery-1.3.2.js:2267-2270 | A walk that comes to a matching element of the set, marked by itself, misses it |
| `SizzlePlain.HelpedKept` | workspace/demos/demo-dolphin/js/core/jquery-1.3.2.js:2272-2275 | The marks that a walk leaves help later walks to the same element |
| `SizzleOutside.RegularIsOutside` | workspace/demos/demo-dolphin/js/core/jquery-1.3.2.js:2253-2330 | If no element of the set matches, or no walk comes by a later element of it, every slot ends with the nearest match outside the set |
| `SizzleOutside.UnmarkedIsNoStart` | workspace/demos/demo-dolphin/js/core/jquery-1.3.2.js:2257-2261 | On the way of a walk in such a set an unmarked match is never an element of the set |
| `SizzlePass.WalkIs` | workspace/demos/demo-dolphin/js/core/jquery-1.3.2.js:2264-2283 | The inner loop in closed form: it reports at the first marked or matching node, and marks the elements before it |
| `SizzlePass.PassIsPlain` | workspace/demos/demo-dolphin/js/core/jquery-1.3.2.js:2267-2270 | Nearest matches outside the set are the nearest matches if and only if no nearest match is in the set |
| `SizzlePass.SkipIsHarmless` | workspace/demos/demo-dolphin/js/core/jquery-1.3.2.js:2267-2270 | The same for one walk |
| `SizzlePass.NothingSkipped` | workspace/demos/demo-dolphin/js/core/jquery-1.3.2.js:2257-2261 | If no element of the set matches, passing over it changes nothing |
| `SizzlePass.DocumentOrder` | workspace/demos/demo-dolphin/js/core/jquery-1.3.2.js:2253-2330 | Sets in document order are among those whose walks come by no later element |
| `SizzlePass.AdjacentStarts` | workspace/demos/demo-dolphin/js/core/jquery-1.3.2.js:2267-2270 | Two adjacent matching elements: the second is told that nothing precedes it, although the first does |
| `SizzleChild.FormIsRead` | workspace/demos/demo-dolphin/js/core/jquery-1.3.2.js:1800-1809 | Every formula form (`even`, `odd`, an index, `an+b` with optional sign, factor and offset) is read as the pair of numbers it means |
| `SizzleChild.UnreadableFormulas` | workspace/demos/demo-dolphin/js/core/jquery-1.3.2.js:1800-1809 | A formula cannot be read, and the filter throws, exactly when it has no `n` and is neither `odd` nor a row of digits |
| `SizzleChild.ExecIsLeftmost` | workspace/demos/demo-dolphin/js/core/jquery-1.3.2.js:1801-1803 | Of several possible matches of the pattern the leftmost is taken |
| `SizzleChild.AcceptsProgression` | workspace/demos/demo-dolphin/js/core/jquery-1.3.2.js:1993-1998 | The test by remainder and quotient holds exactly when some n >= 0 gives index = a*n + b, for all signs of a and b |
| `SizzleChild.NumberChildren` | workspace/demos/demo-dolphin/js/core/jquery-1.3.2.js:1983-1991 | Numbering gives each element child one more than the number of elements before it |
| `SizzleChild.PositionCounts` | workspace/demos/demo-dolphin/js/core/jquery-1.3.2.js:1983-1991 | The position by which an element is judged is one more than the number of elements among the siblings before it |
| `SizzleChild.FilterNth` | workspace/demos/demo-dolphin/js/core/jquery-1.3.2.js:1973-1998 | One test, with or without a cached number, accepts exactly the positions in the progression, and keeps the cache valid |
| `SizzleChild.FilterAll` | workspace/demos/demo-dolphin/js/core/jquery-1.3.2.js:1973-1998 | Over a whole run all elements are judged by their true position |
| `SizzleChild.FilterNext` | workspace/demos/demo-dolphin/js/core/jquery-1.3.2.js:1973-1998 | A test keeps the cached numbers of all parents good |
| `SizzleChild.FilterRun` | workspace/demos/demo-dolphin/js/core/jquery-1.3.2.js:1800-1816 | From formula text to answers: an element is accepted exactly when its position is in the progression that the formula means |
| `AjaxCounter.CounterIsExact` | workspace/demos/demo-dolphin/js/core/jquery-1.3.2.js:3465-3664 | In any interleaving of starts, cancels, polls, timeouts and aborts, `active` is the number of calls started and not finished, each call is counted down at most once, and `ajaxStart` and `ajaxStop` alternate, the last being `ajaxStart` exactly while `active` is positive |
| `AjaxCounter.RunKeeps` | workspace/demos/demo-dolphin/js/core/jquery-1.3.2.js:3465-3664 | Every run keeps the invariant that ties the counter, the poll timer and `requestDone` of each call |
| `AjaxCounter.CheckedCallCloses` | workspace/demos/demo-dolphin/js/core/jquery-1.3.2.js:3553-3607 | Once the transfer has ended or was aborted, or the timeout fires, the check closes the call or starts the completion that closes it |
| `AjaxCounter.PolledCallCloses` | workspace/demos/demo-dolphin/js/core/jquery-1.3.2.js:3553-3620 | Whatever happened to a call since it was sent, the end of its transfer, or an abort, followed by a poll and the end of its completion leaves it closed |
| `AjaxCounter.TimedCallCloses` | workspace/demos/demo-dolphin/js/core/jquery-1.3.2.js:3623-3628 | Whatever happened to a call since it was sent with a timeout, its timeout check and the end of its completion leave it closed |
| `AjaxCounter.TimedOutIsAborted` | workspace/demos/demo-dolphin/js/core/jquery-1.3.2.js:3609-3615 | A call completed by its timeout check has its request aborted once it has released it |
| `AjaxCounter.TimeoutIsTold` | workspace/demos/demo-dolphin/js/core/jquery-1.3.2.js:3569-3575 | A completion that a check starts is one by timeout if and only if the timeout check started it |
| `AjaxCounter.PollWaits` | workspace/demos/demo-dolphin/js/core/jquery-1.3.2.js:3569-3571 | A poll changes nothing while the transfer is under way |
| `AjaxCounter.JQuery.Start` | workspace/demos/demo-dolphin/js/core/jquery-1.3.2.js:3465-3466 | Counting up triggers `ajaxStart` exactly from zero |
| `AjaxCounter.JQuery.Finish` | workspace/demos/demo-dolphin/js/core/jquery-1.3.2.js:3661-3663 | Counting down triggers `ajaxStop` exactly at zero |
| `AjaxCounter.AjaxCall.constructor` | workspace/demos/demo-dolphin/js/core/jquery-1.3.2.js:3464-3466 | A new call is the step `Start` of the run of all calls, and the invariant of all runs is kept |
| `AjaxCounter.AjaxCall.CancelCall` | workspace/demos/demo-dolphin/js/core/jquery-1.3.2.js:3539-3547 | A cancel counts down and closes the call, as the step `Cancel` of the run |
| `AjaxCounter.AjaxCall.SendCall` | workspace/demos/demo-dolphin/js/core/jquery-1.3.2.js:3618-3629 | The poll and the timeout are set, as the step `Send` of the run |
| `AjaxCounter.AjaxCall.OnReadyStateChange` | workspace/demos/demo-dolphin/js/core/jquery-1.3.2.js:3553-3616 | The check: an abort is counted once, and a completion is entered once |
| `AjaxCounter.AjaxCall.OnPoll` | workspace/demos/demo-dolphin/js/core/jquery-1.3.2.js:3618-3620 | A poll is a step of the run, and the invariant of all runs is kept |
| `AjaxCounter.AjaxCall.OnTimer` | workspace/demos/demo-dolphin/js/core/jquery-1.3.2.js:3623-3628 | The timeout acts only while the request is happening, as a step of the run |
| `AjaxCounter.AjaxCall.CompleteHandlers` | workspace/demos/demo-dolphin/js/core/jquery-1.3.2.js:3652-3664 | The completion counts down, as a step of the run |
| `AjaxCounter.AjaxCall.ReleaseXhr` | workspace/demos/demo-dolphin/js/core/jquery-1.3.2.js:3609-3615 | The end of a completed check, after which no check acts again, as a step of the run |
| `AjaxCounter.AjaxCall.SetReadyState` | workspace/demos/demo-dolphin/js/core/jquery-1.3.2.js:3555-3565 | Progress of the transfer and aborts are steps of the run |
| `DateParse.ParseUndoesFormat` | workspace/demos/demo-dolphin/js/core/gt_base.js:2055-2211 | For every pattern with yyyy, MM, dd, HH, mm and ss once each amid non-letters and every valid date of a four-digit year, parsing the formatted date gives the date if and only if the year is below 9999 and the day below 31, and is refused otherwise |
| `DateParse.ParseUndoesFormatExactly` | workspace/demos/demo-dolphin/js/core/gt_base.js:2055-2211 | For every pattern with one field of any spelling for each part of a date, amid non-letters, and every date from the year 1000 on, parsing undoes formatting if and only if the four-digit year is below 9999, the two-digit year lies in 2000 to 2098, the day is below 31, no short field shows 0, and none shows a single digit with another digit right after it |
| `DateParse.Misread` | workspace/demos/demo-dolphin/js/core/gt_base.js:2142-2206 | A year of more than four digits, or a single digit with another one after it, ends in a wrong part, whatever is read after it |
| `DateParse.FieldComesBack` | workspace/demos/demo-dolphin/js/core/gt_base.js:2163-2231 | Which fields bring their part of the date back, field by field |
| `DateParse.ParseRendered` | workspace/demos/demo-dolphin/js/core/gt_base.js:2122-2206 | Reading along the pieces follows what rendering wrote, piece by piece, up to the first refusal |
| `DateParse.FieldRoundTrip` | workspace/demos/demo-dolphin/js/core/gt_base.js:2216-2231 | A padded field is read back as its number exactly within the limit given to `getInt` |
| `DateParse.ShortFieldRoundTrip` | workspace/demos/demo-dolphin/js/core/gt_base.js:2216-2231 | An unpadded field is read back as its number within the limit, except that a lone zero becomes not-a-number; the two-digit year 99 is refused |
| `DateParse.Parse` | workspace/demos/demo-dolphin/js/core/gt_base.js:2103-2211 | The one loop that cuts and reads is cutting first and reading then |
| `DateParse.WidthOfShown` | workspace/demos/demo-dolphin/js/core/gt_base.js:2142-2159 | A field takes exactly the characters it was shown with, a short one a second digit if and only if it has one, unless a digit follows a single one |
| `DateParse.MonthIsRead` | workspace/demos/demo-dolphin/js/core/gt_base.js:2255-2267 | A month name is read back as its place, whatever follows it |
| `DateParse.MonthWidthIs` | workspace/demos/demo-dolphin/js/core/gt_base.js:2255-2267 | A month name is recognised, by its own length, exactly where one of the twelve stands, and everything else throws |
| `DateFormat.FormatFollowsCut` | workspace/demos/demo-dolphin/js/core/gt_base.js:2080-2140 | The thirteen replacements render the pieces into which the longest-match tokeniser of `parse` cuts the pattern |
| `DateFormat.FormatIsRender` | workspace/demos/demo-dolphin/js/core/gt_base.js:2080-2093 | For patterns with each field at most once, fields of one letter apart and all else non-letters, replacing field names in the fixed order is rendering piece by piece |
| `DateFormat.ReplaceOneField` | workspace/demos/demo-dolphin/js/core/gt_base.js:2082-2088 | One first-occurrence replacement hits the piece of its own field and nothing else |
| `DateFormat.CutOfUnparse` | workspace/demos/demo-dolphin/js/core/gt_base.js:2122-2140 | The tokeniser cuts every such pattern into its pieces |
| `DateFormat.LongerFirst` | workspace/demos/demo-dolphin/js/core/gt_base.js:2036-2037 | Of two fields of one letter the longer is replaced first |
| `DateReading.ShownIsItsNumber` | workspace/demos/demo-dolphin/js/core/gt_base.js:2064-2078 | Each field shows its number, months counted from 1: two digits under a two-letter name, no leading zero under the other names, a Chinese numeral under `MMM` |
| `DateReading.MonthIsItsNumber` | workspace/demos/demo-dolphin/js/core/gt_base.js:2034 | Each month name is the Chinese numeral of the month and the character for month |
| `DateReading.FieldTakes` | workspace/demos/demo-dolphin/js/core/gt_base.js:2216-2231 | A field takes any digits up to its largest number, leading zeros and all, and refuses everything else; no digits, or a lone zero, are not-a-number |
| `DateReading.SeparatorsDoNotMatter` | workspace/demos/demo-dolphin/js/core/gt_base.js:2142-2159 | Whatever text is read, the separators of the pattern may as well be others: they are passed over without a look |
| `DateReading.MissingParts` | workspace/demos/demo-dolphin/js/core/gt_base.js:2105-2121 | A part for which the pattern has no field comes from the first of February 1970, at midnight |
| `DateFormat.FormatDate` | workspace/demos/demo-dolphin/js/core/gt_base.js:2055-2096 | The loops of `format` compute the specified text, the quotes removed one by one included |
| `DateFormat.RemoveOneQuote` | workspace/demos/demo-dolphin/js/core/gt_base.js:2090-2093 | Each pass of the quote loop shortens the text and ends at the same quoteless text |
| `NumberFormat.GroupedShape` | workspace/demos/demo-dolphin/js/core/gt_base.js:2309-2316 | The grouped integer part is its groups joined by separators, all but the first of exactly `sepIndex` characters and the first of the remaining one to `sepIndex`; removing the separators gives the digits back |
| `NumberFormat.FormattedShape` | workspace/demos/demo-dolphin/js/core/gt_base.js:2291-2335 | Under a pattern with separator and point the text is the groups, a point and exactly as many decimals as the pattern has |
| `NumberFormat.UngroupedShape` | workspace/demos/demo-dolphin/js/core/gt_base.js:2292-2334 | Under a pattern without a separator before the point nothing is grouped, and without decimals after a point none are shown |
| `NumberFormat.PatternForms` | workspace/demos/demo-dolphin/js/core/gt_base.js:2292-2306 | Every pattern has one of the four forms of `FormattedShape` and `UngroupedShape` |
| `NumberFormat.PatternIsRead` | workspace/demos/demo-dolphin/js/core/gt_base.js:2292-2304 | The group length is what stands between separator and point, or after the separator without a point; the number of decimals is what follows the point |
| `NumberFormat.GroupingIsJoining` | workspace/demos/demo-dolphin/js/core/gt_base.js:2309-2316 | The loop from the right is cutting groups and joining them |
| `NumberFormat.UngroupedFrom` | workspace/demos/demo-dolphin/js/core/gt_base.js:2309-2316 | At every point of the loop, removing the separators gives the characters taken so far |
| `NumberFormat.LoneSign` | workspace/demos/demo-dolphin/js/core/gt_base.js:2313 | A minus sign stands alone before a separator if and only if the number of digits is a multiple of the group size |
| `NumberFormat.FormatNumber` | workspace/demos/demo-dolphin/js/core/gt_base.js:2291-2335 | The loops of `format` compute the specified text for every pattern |
| `NumberFormat.ParseIntOfFormat` | workspace/demos/demo-dolphin/js/core/gt_base.js:2357-2374 | `parseInt` of a formatted number, negative too and under any pattern, is the number cut at its point |
| `NumberFormat.ParseFloatOfFormat` | workspace/demos/demo-dolphin/js/core/gt_base.js:2379-2393 | `parseFloat` of a number formatted with k decimals is the number truncated to k decimals |
| `NumberFormat.MantissaIsTruncation` | workspace/demos/demo-dolphin/js/core/gt_base.js:2325-2334 | Copying k digits and padding with zeros is truncation towards zero |
| `NumberFormat.NoiseIsIgnored` | workspace/demos/demo-dolphin/js/core/gt_base.js:2357-2393 | Whatever is no sign, digit or point is ignored by both parsers wherever it stands |
| `NumberFormat.PointEndsInteger` | workspace/demos/demo-dolphin/js/core/gt_base.js:2357-2374 | `parseInt` ignores the point and what follows it |
| `NumberFormat.ParseIntLoop` | workspace/demos/demo-dolphin/js/core/gt_base.js:2357-2374 | The collecting loop of `parseInt` stops at the point and keeps signs and digits |
| `NumberFormat.ParseFloatLoop` | workspace/demos/demo-dolphin/js/core/gt_base.js:2379-2393 | The collecting loop of `parseFloat` keeps signs, digits and points |
| `ParameterHelper.ParseUndoesAppend` | workspace/demos/demo-dolphin/js/core/gt_base.js:1945-2020 | Parsing a link built by `append` gives the present parameters, structures as they survive JSON and plain texts as they are, and the placeholder, if and only if no parameter is named `length` (unless its value is undefined), none has the name of a member that every object inherits, and no plain text carries the JSON prefix, or no parameter is present at all |
| `ParameterHelper.ParseOfAppend` | workspace/demos/demo-dolphin/js/core/gt_base.js:1945-2020 | Whatever the names, parsing gives the placeholder and what `jQuery.each` visited, values under inherited names wrapped in arrays |
| `ParameterHelper.LengthHidesOthers` | workspace/demos/demo-dolphin/js/core/jquery-1.3.2.js:671-695 | With a parameter `length` of 5 and another one named `a`, `append` adds nothing but the placeholder |
| `ParameterHelper.InheritedNameIsWrapped` | workspace/demos/demo-dolphin/js/core/gt_base.js:1967-1989 | A parameter named `constructor` comes back in an array, behind the inherited function |
| `ParameterHelper.KeptExactlyWithoutPrefix` | workspace/demos/demo-dolphin/js/core/gt_base.js:1972-1976 | A plain text is read back as itself if and only if it does not carry the JSON prefix |
| `JsonStrings.ParsedStringIsNotItsText` | workspace/demos/demo-dolphin/js/core/json2.js:433-464 | `JSON.parse` never gives a text back as itself, even behind a prefix of plain characters |
| `JsonStrings.ParsedStringIsLighter` | workspace/demos/demo-dolphin/js/core/json2.js:433-464 | Every quotation mark, backslash and unit of `cx` in a parsed string cost a backslash in the text, and the text has its own quotation marks besides |
| `ParameterHelper.PrefixedTextIsNotKept` | workspace/demos/demo-dolphin/js/core/gt_base.js:1972-1976 | A plain text that spells the prefix and a printed structure comes back as the structure |
| `ParameterHelper.SplitSegments` | workspace/demos/demo-dolphin/js/core/gt_base.js:1968-1971 | The query is cut into exactly the segments that were appended |
| `ParameterHelper.SegmentsComeBack` | workspace/demos/demo-dolphin/js/core/gt_base.js:1967-1990 | Reading the segments enters each value under its name, behind an inherited member if there is one, the earlier ones unchanged, or fails at the first value that is no JSON |
| `ParameterRepeats.RepeatedNameGathers` | workspace/demos/demo-dolphin/js/core/gt_base.js:1967-1989 | A name that is repeated in a link gets all its values in one array, in order: nulls in front are forgotten, a single value stands for itself, and a first value that is an array takes in the others |
| `ParameterRepeats.AppendOne` | workspace/demos/demo-dolphin/js/core/gt_base.js:1994-2020 | A present parameter adds to a link without a query, spelled out, `?_null_=0&`, its encoded name, `=` and its encoded value, a structure behind `__json__:` |
| `ParameterRepeats.AppendToQuery` | workspace/demos/demo-dolphin/js/core/gt_base.js:2014-2020 | Appending to a link that has a query adds the parameters to what the link says, and no placeholder |
| `ParameterRepeats.JunkIsIgnored` | workspace/demos/demo-dolphin/js/core/gt_base.js:1967-1971 | A segment without an equals sign is skipped, and what follows a second equals sign is ignored |
| `ParameterRepeats.SecondQueryIsIgnored` | workspace/demos/demo-dolphin/js/core/gt_base.js:1957-1966 | Of several question marks the first two bound the query |
| `ParameterRepeats.FragmentIsIgnored` | workspace/demos/demo-dolphin/js/core/gt_base.js:1950-1964 | What follows a number sign is ignored, and a link without a query says nothing |
| `ParameterHelper.NoQuery` | workspace/demos/demo-dolphin/js/core/gt_base.js:1960-1966 | The test on the first part holds exactly for links without a query |
| `ParameterHelper.BuildLoop` | workspace/demos/demo-dolphin/js/core/gt_base.js:1994-2009 | The loops of `jQuery.each`, by name or, as soon as the object has a length, by index, append the values that are present in order |
| `ParameterHelper.ParseLoop` | workspace/demos/demo-dolphin/js/core/gt_base.js:1945-1992 | The loop of `parse` reads the segments as specified and stops at a JSON error |
| `InvokedMethods.LogIsLastCalls` | workspace/demos/demo-dolphin/js/core/gt_base.js:301-320 | After any trace the log holds each called method exactly once, ordered by last call: the trace with all but last occurrences removed |
| `InvokedMethods.ParamsAreLastArgs` | workspace/demos/demo-dolphin/js/core/gt_base.js:306-309 | The noted parameters are the arguments of the last call if and only if no earlier call of the method had more |
| `InvokedMethods.Service.InvokeLocally` | workspace/demos/demo-dolphin/js/core/gt_base.js:305-319 | A call takes out the first record of its method, leaves the others in place and appends its own; after any calls the records stand in the order of the last calls and hold the parameters of the log |
| `InvokedMethods.Service.RemoveRepeated` | workspace/demos/demo-dolphin/js/core/gt_base.js:310-317 | The loop with its early exit takes out the first record of the method and no other |
| `InvokedMethods.Service.NoteArguments` | workspace/demos/demo-dolphin/js/core/gt_base.js:306-309 | The loop overwrites as many parameters as there are arguments and keeps those beyond |
| `InvokedMethods.LastCallsDistinct` | workspace/demos/demo-dolphin/js/core/gt_base.js:310-317 | A trace cut to its last calls names each method once |
| `TableModel.ClickHitsItsRow` | workspace/demos/demo-dolphin/js/core/gt_table.js:691-698 | After any run of decorations, reloads, appends, deletions, updates and clicks, the body has one row per data row and a click on the row at position i resolves to index i |
| `TableRows.RowsAreThoseGiven` | workspace/demos/demo-dolphin/js/core/gt_table.js:40-182 | After any run the data at every position are the very row that was handed over under the id at that position: ids number the rows handed over, in order |
| `TableRows.ClickFindsItsData` | workspace/demos/demo-dolphin/js/core/gt_table.js:691-698 | After any run a click resolves to the data that were handed over for the clicked body row |
| `TableRows.DeleteMovesUp` | workspace/demos/demo-dolphin/js/core/gt_table.js:171-175 | Deletion takes row, id and body row out of exactly one place and moves the later ones up; out of range it changes nothing |
| `TableRows.UpdateChangesOne` | workspace/demos/demo-dolphin/js/core/gt_table.js:178-182 | An update puts the given row under a new id in one place and leaves all others |
| `TableRows.AppendAddsOne` | workspace/demos/demo-dolphin/js/core/gt_table.js:145-150 | A row that is not null goes behind all others under a new id |
| `TableRows.ShowsGiven` | workspace/demos/demo-dolphin/js/core/gt_table.js:104-133 | Decorating and reloading show the given rows that are not null, in order, under new ids |
| `TableRows.NonNullInOrder` | workspace/demos/demo-dolphin/js/core/gt_table.js:112-117 | Leaving out null rows keeps the order of the others |
| `TableRows.NonNullOne` | workspace/demos/demo-dolphin/js/core/gt_table.js:112-117 | A single row is kept if and only if it is not null |
| `TableModel.RunAligns` | workspace/demos/demo-dolphin/js/core/gt_table.js:40-182 | Any run keeps rows, row ids and body rows equally long and aligned, with distinct ids |
| `TableModel.StepAligns` | workspace/demos/demo-dolphin/js/core/gt_table.js:612-686 | Each operation keeps the alignment |
| `TableModel.MultiSelectionIsParity` | workspace/demos/demo-dolphin/js/core/gt_table.js:1055-1128 | In MULTI mode nothing is selected twice, and a row is selected exactly when it was toggled an odd number of times since its last deselection |
| `TableModel.MultiRunIsParity` | workspace/demos/demo-dolphin/js/core/gt_table.js:612-686 | The same over runs of table operations, with the toggles and deselections they cause |
| `TableModel.MultiSelectionIsInOrder` | workspace/demos/demo-dolphin/js/core/gt_table.js:1055-1128 | In MULTI mode the selected rows stand in the order in which they were last toggled |
| `TableModel.SingleSelectionIsLatest` | workspace/demos/demo-dolphin/js/core/gt_table.js:1055-1128 | In SINGLE mode exactly the row toggled last is selected, unless it was deselected since |
| `TableModel.NothingIsSelected` | workspace/demos/demo-dolphin/js/core/gt_table.js:1055-1077 | Without a selection mode every attempt to select empties the selection |
| `TableModel.StepSelects` | workspace/demos/demo-dolphin/js/core/gt_table.js:612-686 | Each table operation acts on the selection as the stated toggles and deselections |
| `TableModel.SingleStepStaysInRange` | workspace/demos/demo-dolphin/js/core/gt_table.js:664-671 | In SINGLE mode a step keeps the selection empty or one index in range if and only if it is neither the deletion of an earlier row while the last row is selected nor a decoration with too few rows for the selected index |
| `TableModel.SingleRunStaysInRange` | workspace/demos/demo-dolphin/js/core/gt_table.js:2243-2263 | Any run in SINGLE mode without such steps keeps the selection empty or one index in range |
| `TableModel.DeletionMovesSelection` | workspace/demos/demo-dolphin/js/core/gt_table.js:664-671 | Deleting an unselected row leaves the index on the same row if and only if that row stands before the deleted one |
| `GTable.GTable.constructor` | workspace/demos/demo-dolphin/js/core/gt_table.js:40-71 | After `decorate` the builder holds the very row array of the table |
| `GTable.GTable.Decorate` | workspace/demos/demo-dolphin/js/core/gt_table.js:40-71 | Decorating again binds a new builder to the new array and keeps everything aligned |
| `GTable.GTable.Clear` | workspace/demos/demo-dolphin/js/core/gt_table.js:130-133 | The table gets a new array while the builder still holds the old one; body, ids and selection are emptied |
| `GTable.GTable.PushRows` | workspace/demos/demo-dolphin/js/core/gt_table.js:112-117 | The rows that are not null are appended in order |
| `GTable.GTable.Reload` | workspace/demos/demo-dolphin/js/core/gt_table.js:104-133 | The new row array is shared with the builder again, null rows are dropped, and the alignment holds |
| `GTable.GTable.AppendRow` | workspace/demos/demo-dolphin/js/core/gt_table.js:145-150 | A row appended to the shared array is shown last and selected; a null row changes nothing |
| `GTable.GTable.DeleteRow` | workspace/demos/demo-dolphin/js/core/gt_table.js:171-175 | Deletion is refused exactly out of range, and takes the data row, its id and its body row at that place and no others (`TableRows.DeleteMovesUp`) |
| `GTable.GTable.UpdateRow` | workspace/demos/demo-dolphin/js/core/gt_table.js:178-182 | An update replaces row, id and body row in place and selects or toggles the row |
| `GTable.GTable.Click` | workspace/demos/demo-dolphin/js/core/gt_table.js:691-707 | The handler, which holds only the id array of its row, finds the position of the row |
| `GTable.RowClicked` | workspace/demos/demo-dolphin/js/core/gt_table.js:691-707 | The handler looks its row up in the ids it was bound with |
| `GTable.TableBuilder.BuildBody` | workspace/demos/demo-dolphin/js/core/gt_table.js:494-505 | Each data row gets a fresh id and a body row |
| `GTable.TableBuilder.CreateRow` | workspace/demos/demo-dolphin/js/core/gt_table.js:510-513 | A row gets a fresh id, spliced in at its index, and is bound to the id array and the selection |
| `GTable.TableBuilder.AppendRow` | workspace/demos/demo-dolphin/js/core/gt_table.js:612-624 | The new row is shown at the last index of the data |
| `GTable.TableBuilder.UpdateRow` | workspace/demos/demo-dolphin/js/core/gt_table.js:629-634 | Deleting and inserting at one position |
| `GTable.TableBuilder.InsertRowAt` | workspace/demos/demo-dolphin/js/core/gt_table.js:639-659 | Id and body row go to the same position, which is selected |
| `GTable.TableBuilder.DeleteRow` | workspace/demos/demo-dolphin/js/core/gt_table.js:664-673 | Id and body row of one position go |
| `GTable.TableBuilder.DeleteAll` | workspace/demos/demo-dolphin/js/core/gt_table.js:678-686 | The body is emptied and the id array replaced |
| `GTable.SelectionModel.SetSelectedRow` | workspace/demos/demo-dolphin/js/core/gt_table.js:1055-1077 | The three modes of selecting |
| `GTable.SelectionModel.DeselectRow` | workspace/demos/demo-dolphin/js/core/gt_table.js:1113-1121 | The loop keeps every other index, in order |
| `GTable.SelectionModel.IsRowSelected` | workspace/demos/demo-dolphin/js/core/gt_table.js:1101-1108 | The search finds a row exactly when it is selected |
| `Pagination.SteppingReachesEveryPage` | workspace/demos/demo-dolphin/js/core/gt_table.js:1687-1754 | From the first page, k steps of `nextPage` are `turnToPage(k)`, there is a next page exactly below the last, and the last start is the value of `lastPage` |
| `Pagination.EachRowOnOnePage` | workspace/demos/demo-dolphin/js/core/gt_table.js:1747-1754 | The windows of the pages counted by `getPageCount` partition the rows |
| `Pagination.EmptyTable` | workspace/demos/demo-dolphin/js/core/gt_table.js:1687-1754 | In an empty table neither moving on nor back nor turning to a page does anything, and `lastPage` gives a start before the first row |
| `Pagination.Moves` | workspace/demos/demo-dolphin/js/core/gt_table.js:1687-1717 | From any page: moving on and back, `prevPage` undoing an enabled `nextPage` |
| `Pagination.LastPageIsLast` | workspace/demos/demo-dolphin/js/core/gt_table.js:1727-1730 | `lastPage` is the start of the last page |
| `Pagination.RunStaysOnPages` | workspace/demos/demo-dolphin/js/core/gt_table.js:1687-1741 | Any run of moves keeps the start a multiple of the page size inside the table |
| `Pagination.UnknownTotal` | workspace/demos/demo-dolphin/js/core/gt_table.js:1687-1709 | With an unknown total there is always a next page, one page size on, `prevPage` undoes `nextPage`, and no page can be turned to by number |
| `Pagination.Pagination.TurnToPage` | workspace/demos/demo-dolphin/js/core/gt_table.js:1735-1741 | A page out of range is refused and nothing changes |
| `Pagination.Pagination.PrevPage` | workspace/demos/demo-dolphin/js/core/gt_table.js:1702-1709 | Going back never goes below zero |
| `Pagination.Pagination.NextPage` | workspace/demos/demo-dolphin/js/core/gt_table.js:1687-1692 | Going on only where there is a next page |
| `Pagination.Pagination.FirstPage` | workspace/demos/demo-dolphin/js/core/gt_table.js:1715-1717 | Back to the first row |
| `TemplateRow.GetRowSubstitutes` | workspace/demos/demo-dolphin/js/core/gt_table.js:1881-1898 | One first-occurrence replacement per match is simultaneous substitution, for repeated variables too, as long as the marker of a variable does not occur in what the text before it has become |
| `TemplateRow.GetRowSubstitutesExactly` | workspace/demos/demo-dolphin/js/core/gt_table.js:1881-1898 | For values that are not empty and do not start with `$` that is the exact condition: if and only if every variable is in place, the row is the simultaneous substitution |
| `TemplateRow.StayParted` | workspace/demos/demo-dolphin/js/core/gt_table.js:1895 | Once a solid value stands where the substitution has a `$`, no later replacement makes up for it |
| `TemplateRow.EmptyValueHides` | workspace/demos/demo-dolphin/js/core/gt_table.js:1889-1896 | With an empty value a variable can be out of place and the row still be right |
| `TemplateRow.NoDollarIsInPlace` | workspace/demos/demo-dolphin/js/core/gt_table.js:1881-1898 | So it is whenever neither the literal text nor a value contains `$` |
| `TemplateRow.ValueTakesThePlace` | workspace/demos/demo-dolphin/js/core/gt_table.js:1889-1896 | Where a value spells a later variable, the later value goes into it and the variable itself stays |
| `TemplateRow.UnparsePieces` | workspace/demos/demo-dolphin/js/core/gt_table.js:1873-1884 | The pattern cuts every template without loss |
| `TemplateRow.PiecesOfUnparse` | workspace/demos/demo-dolphin/js/core/gt_table.js:1873-1884 | The pattern finds exactly the variables a template was written with |
| `TemplateRow.PiecesAreRight` | workspace/demos/demo-dolphin/js/core/gt_table.js:1873-1884 | In every text the pattern finds, from left to right, a variable exactly where `${`, a name of letters, digits and `_` that does not begin with a digit, and `}` stand |
| `TemplateRow.GetRowLoop` | workspace/demos/demo-dolphin/js/core/gt_table.js:1881-1898 | The loop performs the specified replacements |

## Left out

- DateParse.ParseUndoesFormatExactly: dates on which a short field shows 0 right before another shown 0, which is read as 00 and shifts what follows; years below 1000 under `yyyy`; and patterns without a field for some part, for which the defaults step in, the default month 1 zero-based.
- DateParse.FieldRoundTrip: `getInt` is modelled on digits; signs, exponents, hexadecimal spellings, blanks and the octal reading of old engines are not.
- NumberFormat.FormatNumber: numbers whose decimal text has an exponent, and minus zero.
- NumberFormat.ParseFloatOfFormat: the result is the exact decimal fraction, without rounding to a double.
- ParameterHelper.ParseUndoesAppend: `encodeURI` and `decodeURI` are parameters taken as an inverse pair that leaves letters, digits and `_` alone and adds no separator; lone surrogates, for which they throw, and a `length` that converts to infinity, for which `jQuery.each` does not end, are not modelled. Under the name `__proto__` the model gives a wrapped value as for other inherited names, where engines change the prototype instead.
- TemplateRow.GetRowLoop: values with sequences such as `$&`, which `replace` expands, are taken as they are; GetRowSubstitutes and GetRowSubstitutesExactly leave them out.
- TemplateRow.GetRowSubstitutesExactly: empty values and values that start with `$`, for which a variable out of place can go unnoticed.
- JsonGuard.ParseUndoesStringify: replacer functions and arrays, `toJSON`, revivers and keys named `__proto__`; the indent is JSON whitespace, as the text is not JSON otherwise.
- JsonRoundTrip.EvalPrinted: the model of `eval` reads JSON only; texts that the guard lets through and that JavaScript reads although they are not JSON, such as a trailing comma or a leading zero, are syntax errors here.
- JsonReading.ParsesExactly: for the same reason an if-and-only-if about JSON, not about all that JavaScript would evaluate.
- JsLoaderRuns.RunsInRequestOrder: `JSLoader.Ajax` is not part of this model beyond its responses, which never come inside the request itself; scripts that throw, callbacks that never stop registering callbacks, callbacks that call `execFcs`, and file names equal to a bookkeeping key of `jsCache` are not modelled.
- AjaxCounter.CounterIsExact: asynchronous global requests through an XHR that is not reopened after an abort; JSONP, synchronous and cross-domain script requests, and handlers that throw are not modelled.
- GTable.GTable.Reload: a bare `load` on rows already shown, `clear` followed by `appendRow`, and `insertAt`, which all break the alignment as written.
- GTable.GTable.Click: listeners and painting of the selected rows; the click is on a body row of this table.
- Default patterns and default page sizes read from the configuration: callers pass the resolved ones.
- The cache object `DateFormat.patterns` that `format` refreshes: its values are functions of the date here.
- `Pagination.getCurrentPageIndex` and `GTable.getSelectedRows`, which do not do what their comments say.
- Cell rendering, dialogs, mouse and drag code, upload, cookies, animation, styles, browser detection and validators.
- The other filters of the selector engine, events, and the rest of jQuery; jQuery 1.2.6 and `df.js`.
- The Java, PHP, LoadRunner and batch files of the repository, which hold data or plumbing.
- The copies of the JSON library and the loader in the other web applications, which are the same code.
