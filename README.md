# o2.js request supervision and utilities, modelled in Dafny

This project models the request-supervision layer of the o2.js browser library and a set of
its small utility modules, and proves properties of the model.

**Request supervision** (`supervision.dfy`, `jsonp_state.dfy`, `ajax_extend.dfy`):

- `o2.AjaxState` is a `Supervisor` class. It holds an observer list of `{object, meta}` entries
  and a `listen` sweep that runs on a timer. The class takes its sweep interval as a parameter:
  `LISTEN_TIMEOUT` is 1000 ms for AjaxState and 1001 ms for JsonpState.
- `o2.AjaxController` is a `Controller` class. In the source the controller module is wired to
  AjaxState through `require('AjaxState')`. The model gives each controller a `state` field
  holding its supervisor instead. The constructor registers the controller with that
  supervisor, and `update` and `unregister` act on it and on the request handle.
- A request handle (`Xhr`) is a class with an `isComplete` flag and an abort counter.
- `o2.JsonpState` is a second, independent `Supervisor`. Its construction by copying
  AjaxState's functions onto a fresh state object is modelled as well.
- `o2.Ajax.getSingle` and `postSingle` share requests through two token-keyed caches, one per
  HTTP method.

**Utilities**:

- `o2.Timer` table (`timer.dfy`).
- String transforms (`string_transform.dfy`).
- `getPrettyDate` (`date_core.dfy`).
- Cookie read/save/remove (`cookie.dfy`).
- Class-name edits (`dom_class.dfy`).
- Object copy helpers (`object_core.dfy`).
- Regular-expression validators (`validator_regexp.dfy`).
- DOM traversal: `filter`, `getParents`, `getChildNodes`, `execFilter` and their node
  predicates (`dom_traverse.dfy`).
- `common.dfy` holds shared helpers: `Option`, JavaScript white space, ASCII case mapping, and
  `split`/`join` on one character.

The model follows the code as written, including where the code departs from its own
comments and documentation:

- The duplicate-registration guard `hasObserver` compares `observer.object` with whole entries,
  so it never matches. A controller registered twice gets two entries.
- `deleteObserver` sets `isDeleted` on the array that `splice` returns, not on the observer.
  Nothing ever sets a controller's `isDeleted`. A second `unregister` (which itself returns
  nothing) therefore calls `deleteObserver` again, which scans the list and returns false. The design intent is that it returns true both times.
- The sweep calls `update(this, {isTimedOut: true})`, but `update` reads `isTimedOut` from its
  first argument. A sweep-driven timeout therefore only unregisters: it never aborts the
  request and never runs `ontimeout`.
- `timeoutAllObservers` walks the live list while `unregister` shrinks it, and it keeps the
  length it read at the start. On two or more entries it skips every other entry and then
  throws.
- The request token is the URL and the parameters in enumeration order, joined with `,`. It
  is not sorted. Different requests share a token once a comma appears in a key or value.
  `join` also turns every value into a string, so `{a: 1}` and `{a: '1'}` share a token, and
  so do `{a: null}`, `{a: undefined}` and `{a: ''}`; the model takes values in their string
  form (see `AjaxExtend.PrepareToken` under "Left out").
- `postSingle` returns nothing.
- `Timer.set` over an existing id stops the timer `'tt' + id` instead of `'t' + id`, so the
  replaced handle stays live.
- `getParent` passes a `null` cap. `isNaN(null)` is false and `null <= 1` holds, so the walk
  stops after the first match. It returns a one-element list (or `[]`), not the node.
- `filter` and `getParents` unshift each visited node into the delegate's argument array.
  Only the first eligible node sees the intended second and third arguments. With
  `hasClassName`, `hasAttribute`, or `isAttributeEquals` given an attribute name, at most one
  node is accepted. This holds over documents of elements, and for `hasAttribute` only if
  DomHelper's `getAttribute` answers `undefined` for a missing attribute; see
  `DomTraverse.Answer` and `DomTraverse.GetAttribute` under "Left out".

Throughout, the clock is a parameter `now`. A browser timer is a handle in a map of pending
handles, or in a set of live handles for `o2.Timer`. The transport calls `o2.Ajax.get` and
`post` become the creation of a fresh `Xhr` and a call counter.

## Model

| member | source | states |
|---|---|---|
| `Supervision.OrNull` | o2.js/o2.ajaxstate.js:71 | `timeout \|\| null`: a zero or missing timeout becomes null; any other value is kept |
| `Supervision.Supervisor.Init` | o2.js/o2.ajaxstate.js:39-45 | `init` runs one sweep: the list changes as `SweepResult` says, and on success one timer is pending |
| `Supervision.Supervisor.HasObserver` | o2.js/o2.ajaxstate.js:207-234 | the duplicate check never reports a match (it compares `observer.object` with whole entries) |
| `Supervision.Supervisor.AddObserver` | o2.js/o2.ajaxstate.js:56-75 | appends exactly `{observer, registrationTime = now, timeout = observer.timeout \|\| null}`, even when the observer is already listed, so `countObservers` rises by one; timers untouched |
| `Supervision.Supervisor.DeleteObserver` | o2.js/o2.ajaxstate.js:86-105 | a deleted observer gives true with no change; otherwise the result is whether the observer was listed, the list loses exactly its first entry, and `countObservers` falls by one exactly when it was found |
| `Supervision.RemoveFirstAt` | o2.js/o2.ajaxstate.js:96-99 | when `i` is the first index holding the observer, removal splices out exactly index `i` and keeps the rest in order |
| `Supervision.CountIsRegistered` | o2.js/o2.ajaxstate.js:116-120 | `countObservers` (`Supervisor.CountObservers`) counts entries: never fewer than the registered controllers, and equal to their number exactly when none is registered twice |
| `Supervision.Supervisor.DeleteObservers` | o2.js/o2.ajaxstate.js:129-133 | the list becomes empty; timers and controllers untouched (nobody is notified) |
| `Supervision.Supervisor.TimeoutObservers` | o2.js/o2.ajaxstate.js:145-158 | each queued object is unregistered once, in queue order; `update` sees the supervisor as its argument, so nothing is aborted |
| `Supervision.Supervisor.TimeoutAllObservers` | o2.js/o2.ajaxstate.js:168-172 | the walk over the live list with the length read once, as `LiveSweep` defines it, including the throw |
| `Supervision.LiveSweepDistinct` | o2.js/o2.ajaxstate.js:149-156 | over distinct controllers, `timeoutAllObservers` removes the even positions; on two or more entries it throws and leaves the odd positions |
| `Supervision.Supervisor.Reschedule` | o2.js/o2.ajaxstate.js:293-297 | the previous timer is cleared and exactly one new one is pending, due `LISTEN_TIMEOUT` after now |
| `Supervision.Supervisor.Listen` | o2.js/o2.ajaxstate.js:244-299 | an empty list is only rescheduled; an entry with a falsy timeout (missing or 0) throws with list and timers unchanged; otherwise the expired entries are unregistered in order, then rescheduled |
| `Supervision.Supervisor.Fire` | o2.js/o2.ajaxstate.js:295-297 | a timer firing runs the sweep; if the sweep throws, no timer is left pending and listening stops |
| `Supervision.ExpiredMembers` | o2.js/o2.ajaxstate.js:271-289 | an entry is in the unregister queue iff it is in the list and `now - registrationTime > timeout` (strict) |
| `Supervision.SweepRemovesExpired` | o2.js/o2.ajaxstate.js:271-297 | with every controller registered once and every timeout truthy, a sweep leaves exactly the unexpired entries, in order |
| `Supervision.DuplicateRemovesWrongEntry` | o2.js/o2.ajaxstate.js:56-105 | a controller registered twice whose later entry expired loses its earlier, unexpired entry and keeps the expired one |
| `Supervision.AddThenRemove` | o2.js/o2.ajaxstate.js:67-99 | registering a new controller and then unregistering it restores the list |
| `Supervision.RemoveEachDistinct` | o2.js/o2.ajaxstate.js:149-156 | unregistering a queue of once-registered controllers drops exactly the queued controllers |
| `Supervision.SecondDeleteFindsNothing` | o2.js/o2.ajaxstate.js:96-103 | after one removal the controller is no longer listed, so a second `deleteObserver` changes nothing (and returns false) |
| `Supervision.Controller.constructor` | o2.js/o2.ajaxcontroller.core.js:85-93 | stores xhr, `timeout \|\| null`, the callback and `isDeleted = false`, and appends one entry to its supervisor |
| `Supervision.Controller.Update` | o2.js/o2.ajaxcontroller.core.js:122-135 | a falsy `isTimedOut` changes nothing; a true one unregisters (leaving the list alone for a deleted controller), aborts the request once and runs `ontimeout` once |
| `Supervision.Controller.Unregister` | o2.js/o2.ajaxcontroller.core.js:157-163 | a deleted controller changes nothing; a live one removes its first entry from its supervisor |
| `AjaxExtend.Flatten` | o2.js/o2.ajax.extend.js:46-51 | the own parameters, in order, as name, value, name, value, ... |
| `AjaxExtend.PrepareToken` | o2.js/o2.ajax.extend.js:40-54 | the token is the URL followed by every parameter name and value, in enumeration order, joined with `,` |
| `AjaxExtend.TokenInjective` | o2.js/o2.ajax.extend.js:40-54 | without commas in the URL, names or values, equal tokens mean equal URL and parameters |
| `AjaxExtend.TokenCollision` | o2.js/o2.ajax.extend.js:44-53 | `'a,b,c'` with no parameters and `'a'` with `{b: 'c'}` share a token |
| `AjaxExtend.RequestCaches.GetSingle` | o2.js/o2.ajax.extend.js:81-95 | an in-flight cached request is returned and `get` is not called; otherwise `get` is called once and its fresh request is stored and returned; the POST cache is untouched |
| `AjaxExtend.RequestCaches.PostSingle` | o2.js/o2.ajax.extend.js:122-134 | the same reuse/refresh rule on the POST cache, returning nothing; the GET cache is untouched |
| `JsonpState.NewAjaxState` | o2.js/o2.ajaxstate.js:174-200 | AjaxState starts with an empty list, no timer and a 1000 ms interval |
| `JsonpState.NewJsonpState` | o2.js/o2.jsonpstate.js:44-68 | JsonpState has its own empty list and timer state and a 1001 ms interval |
| `JsonpState.RegisterWith` | o2.js/o2.jsonpstate.js:46-67 | `addObserver` on one supervisor appends one entry to it and leaves the other supervisor's list unchanged |
| `JsonpState.BoundMethods` | o2.js/o2.jsonpstate.js:73-79 | exactly the function-valued own entries of the base are carried over |
| `JsonpState.CopyBound` | o2.js/o2.jsonpstate.js:70-80 | the target gains every function of the base, bound to the target as `Bind` (`MethodHelper.bind`) does, and keeps everything else |
| `JsonpState.CopyKeepsOwnData` | o2.js/o2.jsonpstate.js:82-86 | after the copy, non-function members such as `config`, `state` and `observers` keep their values |
| `JsonpState.CopyBindsEveryMethod` | o2.js/o2.jsonpstate.js:82-86 | after the copy, every function of the base is on the target, bound to the target |
| `Timer.KeyInjective` | o2.js/o2.timer.core.js:71-92 | `Key` (`concat(kPrefix, id)`): two ids share a table key iff they are equal, so each id has its own entry |
| `Timer.KeyOfKeyDiffers` | o2.js/o2.timer.core.js:182-187 | prefixing an already-prefixed key never gives that key back, so `set` stops the wrong timer |
| `Timer.NormalizeOptions` | o2.js/o2.timer.core.js:190-197 | `start` is true unless given as false, and `repeat` is true only when given as true |
| `Timer.Release` | o2.js/o2.timer.core.js:142-148 | clearing a handle removes exactly that handle; clearing null changes nothing |
| `Timer.Timers.Start` | o2.js/o2.timer.core.js:91-114 | an unknown id changes nothing; otherwise the old handle is cleared and one new handle of the right kind is recorded |
| `Timer.Timers.Stop` | o2.js/o2.timer.core.js:134-149 | an unknown id changes nothing; otherwise the handle is cleared and the entry stays |
| `Timer.Timers.Set` | o2.js/o2.timer.core.js:181-209 | stores `{delegate, timeout, id, !!repeat}` under the key, starts it iff the normalised `start` is true, and leaves the replaced handle live |
| `StringTransform.CamelCaseRemovesDashLower` | o2.js/o2.string.transform.js:121-125 | after `toCamelCase` (`ToCamelCase`) no dash is followed by a lower-case letter, and the string never grows |
| `StringTransform.CamelCaseFixesNoDashLower` | o2.js/o2.string.transform.js:121-125 | a string with no dash followed by a lower-case letter is left unchanged |
| `StringTransform.CamelCaseIdempotent` | o2.js/o2.string.transform.js:121-125 | `toCamelCase` applied twice equals applied once |
| `StringTransform.SeparateCapitals` | o2.js/o2.string.transform.js:143-148 | a string without capitals is unchanged, and no output is shorter than its input |
| `StringTransform.SeparateCapitalsNoUpper` | o2.js/o2.string.transform.js:143-148 | the output has no ASCII capital and is longer than the input by its number of capitals |
| `StringTransform.DashedHasNoUpper` | o2.js/o2.string.transform.js:143-148 | `toDashedFromCamelCase` (`ToDashedFromCamelCase`) leaves no capital and adds one dash per capital |
| `StringTransform.UnderscoredHasNoUpper` | o2.js/o2.string.transform.js:191-196 | `toUnderscoreFromCamelCase` (`ToUnderscoreFromCamelCase`) leaves no capital and adds one underscore per capital |
| `StringTransform.CamelDashedRoundTrip` | o2.js/o2.string.transform.js:121-148 | for dash-free input, `toCamelCase(toDashedFromCamelCase(s)) == s` |
| `StringTransform.Nl2BrNoLineBreak` | o2.js/o2.string.transform.js:99-101 | `nl2br` (`Nl2Br`) leaves no `\n` or `\r` behind |
| `StringTransform.SpaceRun` | o2.js/o2.string.transform.js:44 | the length of the leading run of `\s` characters |
| `StringTransform.BrMatchIff` | o2.js/o2.string.transform.js:44 | a match is found iff some prefix is `<br`, a `\s` run, an optional `/` and `>`; that prefix is unique and the match is its length |
| `StringTransform.Br2NlBr` | o2.js/o2.string.transform.js:80-82 | `br2nl` (`Br2Nl`) turns a leading `<br />` into one newline |
| `StringTransform.Br2NlAfterNl2Br` | o2.js/o2.string.transform.js:80-101 | for text without `<`, `br2nl(nl2br(s))` is `s` with every CRLF, LF and CR made one LF |
| `StringTransform.Br2NlNl2BrIdentity` | o2.js/o2.string.transform.js:80-101 | text without `<` or CR survives `nl2br` then `br2nl` unchanged |
| `StringTransform.Truncate` | o2.js/o2.string.transform.js:216-225 | short strings are kept; longer ones become their first `maxLength - 8` characters plus `&hellip;`, exactly `maxLength` long when `maxLength >= 8`, and just `&hellip;` when `maxLength < 8` (negatives included); 0 or a missing limit means 100 |
| `DateCore.TableAscending` | o2.js/o2.date.core.js:87-103 | the thresholds of the format table strictly increase |
| `DateCore.TableBounded` | o2.js/o2.date.core.js:102 | no threshold exceeds 58060800000 seconds |
| `DateCore.FirstRowAbove` | o2.js/o2.date.core.js:139-160 | the row found is the first whose threshold exceeds the distance; every row skipped lies at or below it |
| `DateCore.GetPrettyDate` | o2.js/o2.date.core.js:127-163 | the table walk returns what `Pretty` specifies, including `time` itself when either time makes an invalid `Date` (the NaN path), with a zero `currTime` replaced by the clock |
| `DateCore.JustNow` | o2.js/o2.date.core.js:143-145 | for times within the `Date` range, under five seconds either way the answer is "just now" |
| `DateCore.CountedRow` | o2.js/o2.date.core.js:147-156 | for times within the `Date` range, a counted row gives "N noun ago" (or "from now" for a negative difference), with N the whole number of units |
| `DateCore.AMinute` | o2.js/o2.date.core.js:148-150 | for times within the `Date` range, 60 to 119 seconds gives "a minute ago" in the past and "a minute from now" in the future |
| `DateCore.Seconds` | o2.js/o2.date.core.js:152-156 | for times within the `Date` range, 5 to 59 seconds ago gives "N seconds ago" |
| `DateCore.BeyondTable` | o2.js/o2.date.core.js:142-162 | at or beyond 58060800000 seconds the input time itself is returned |
| `DateCore.InvalidDate` | o2.js/o2.date.core.js:130-162 | when `time` or the current time lies beyond 8.64e15 ms either way, `seconds` is NaN, every comparison fails and `time` itself is returned |
| `DateCore.InvalidDateExample` | o2.js/o2.date.core.js:130-162 | 9000000000000000 against 9000000000000001000, and 8640000000000001 against 8640000000000000, both give back `time`, not "just now" |
| `Cookie.StripBlanksDropsLeading` | o2.js/o2.cookie.core.js:87-89 | `StripBlanks`, the leading-blank loop: the result is the input minus its leading blanks: everything dropped is a blank and the rest is kept |
| `Cookie.Read` | o2.js/o2.cookie.core.js:79-97 | the loop returns what `ReadFrom` specifies on the `;`-separated segments |
| `Cookie.ReadFromNone` | o2.js/o2.cookie.core.js:84-96 | `read` (`ReadFrom` over the segments) answers null iff no segment, stripped of leading blanks, starts with the name |
| `Cookie.ReadFromFirst` | o2.js/o2.cookie.core.js:84-93 | `read` (`ReadFrom`) answers from the first matching segment, skipping the name and one more character |
| `Cookie.ReadIgnoresEquals` | o2.js/o2.cookie.core.js:91-92 | the name `a` reads the cookie `ab=1` as `=1` |
| `Cookie.ReadAfterSave` | o2.js/o2.cookie.core.js:91-92 | reading back a saved cookie gives the encoded value, since `read` does not decode |
| `Cookie.ReadReturnsEncoded` | o2.js/o2.cookie.core.js:134-136 | the value `a b` is saved, and so read back, as `a%20b` |
| `Cookie.SaveStringSplits` | o2.js/o2.cookie.core.js:119-149 | `save` (`SaveString`): the saved string is `name=value`, then expires iff `days` is truthy, then path (default `/`), then domain and secure only when given |
| `Cookie.Remove` | o2.js/o2.cookie.core.js:174-176 | removal saves an empty value with an `expires` attribute and the default path `/` |
| `DomClass.RestMatch` | o2.js/o2.dom.class.js:70 | a match of `c(\s\|$)` ends within the string, after the class name |
| `DomClass.MatchAt` | o2.js/o2.dom.class.js:70 | a match of `(\s\|^)c(\s\|$)` at a start position ends within the string |
| `DomClass.FirstMatch` | o2.js/o2.dom.class.js:106 | the match found is the leftmost: no earlier start position matches |
| `DomClass.MatchOccurrence` | o2.js/o2.dom.class.js:68-71 | a match covers one bounded occurrence of the class plus its bounding white space |
| `DomClass.TestIff` | o2.js/o2.dom.class.js:68-71 | the expression matches iff the class occurs bounded by white space or the string ends |
| `DomClass.HasClass` | o2.js/o2.dom.class.js:99-107 | for a plain class name: false for a missing element; otherwise true iff the class is listed |
| `DomClass.AddClass` | o2.js/o2.dom.class.js:129-141 | a missing element or a listed class is left alone; otherwise `' ' + c` is appended |
| `DomClass.RemoveClass` | o2.js/o2.dom.class.js:163-175 | a missing element or an unlisted class is left alone; otherwise the leftmost listing with its bounding white space becomes one blank |
| `DomClass.ToggleClass` | o2.js/o2.dom.class.js:204-224 | a given state picks add or remove; without it, a listed class is removed and an unlisted one added |
| `DomClass.AddedListed` | o2.js/o2.dom.class.js:136-140 | after `addClass` the class is listed |
| `DomClass.AddedIdempotent` | o2.js/o2.dom.class.js:129-141 | `addClass` twice equals `addClass` once |
| `DomClass.AddedKeeps` | o2.js/o2.dom.class.js:140 | `addClass` keeps every class already listed |
| `DomClass.RemovedUnlisted` | o2.js/o2.dom.class.js:170-174 | a class listed at most once is unlisted after `removeClass` |
| `DomClass.SecondListingSurvives` | o2.js/o2.dom.class.js:174 | `"a b a"` loses only its first `a`, becoming `" b a"`, where `a` is still listed |
| `DomClass.ToggleFlips` | o2.js/o2.dom.class.js:217-223 | without a state, `toggleClass` flips whether a class listed at most once is listed |
| `ObjectCore.Methods` | o2.js/o2.object.core.js:144-152 | exactly the function-valued entries, with their values |
| `ObjectCore.Copy` | o2.js/o2.object.core.js:108-116 | the child gets every own key of the base with its value; its other keys are unchanged |
| `ObjectCore.CopyMethods` | o2.js/o2.object.core.js:140-153 | the child gets exactly the function-valued own entries of the base; its other keys are unchanged |
| `ObjectCore.CopyMethodsSkipsData` | o2.js/o2.object.core.js:148-150 | a non-function entry of the base neither reaches nor removes the child's entry |
| `ObjectCore.CopyIdempotent` | o2.js/o2.object.core.js:108-116 | copying the same base a second time changes nothing |
| `ObjectCore.PrototypeOf` | o2.js/o2.object.core.js:183-184 | an object has at most one prototype object |
| `ObjectCore.CopyPrototype` | o2.js/o2.object.core.js:182-195 | nothing changes when either prototype is missing; otherwise it is `copy` from the base prototype into the child prototype |
| `ObjectCore.Touch` | o2.js/o2.object.core.js:330-337 | a falsy or non-object value gives null with no delegate call; an object is passed to the delegate once and returned |
| `ValidatorRegExp.IsWhitespaceIff` | o2.js/o2.validator.regexp.js:86-88 | `isWhitespace` (`IsWhitespace`) holds iff every character is white space, the empty string included |
| `ValidatorRegExp.UrlTailIff` | o2.js/o2.validator.regexp.js:31 | `isUrl` (`IsUrl`): the tail after the scheme matches iff it is non-empty, uses allowed characters only, and ends in the end set (not `? ! : , . ;`) |
| `ValidatorRegExp.UrlRejections` | o2.js/o2.validator.regexp.js:71-73 | `http://` alone and a URL ending in `.` are rejected |
| `ValidatorRegExp.UrlAccepts` | o2.js/o2.validator.regexp.js:71-73 | an upper-case scheme is accepted |
| `ValidatorRegExp.IsEmailIff` | o2.js/o2.validator.regexp.js:56-58 | `isEmail` (`IsEmail`) holds iff some `@` has a local-part character right before it and a letter, digit or `.` right after it |
| `ValidatorRegExp.EmailExamples` | o2.js/o2.validator.regexp.js:30 | unanchored false positives such as `..@..` are accepted; `@example.com` is not |
| `DomTraverse.NodeWellFormed` | o2.js/o2.domhelper.traverse.js:348 | in a well-formed document a node's parent lies above it and its children are in the document |
| `DomTraverse.CapLimit` | o2.js/o2.domhelper.traverse.js:180-182 | the cap is tested after a push, so at least one node and at least the cap get through |
| `DomTraverse.Unshifted` | o2.js/o2.domhelper.traverse.js:159 | unshifting adds one entry per node |
| `DomTraverse.UnshiftedAt` | o2.js/o2.domhelper.traverse.js:159-170 | the argument array holds the unshifted nodes, latest first, then the caller's arguments |
| `DomTraverse.EligibleNodes` | o2.js/o2.domhelper.traverse.js:166 | the gated nodes are no more than the input and all in the document |
| `DomTraverse.EligibleMembers` | o2.js/o2.domhelper.traverse.js:166 | a node is kept by the gate iff it is in the list and passes (not a text node, or the right name) |
| `DomTraverse.FirstStop` | o2.js/o2.domhelper.traverse.js:158-163 | the stop position lies between the start and the end |
| `DomTraverse.FirstStopIsFirst` | o2.js/o2.domhelper.traverse.js:158-163 | the walk stops at the first node the break delegate accepts, and only there |
| `DomTraverse.AcceptedPositions` | o2.js/o2.domhelper.traverse.js:178-192 | accepted nodes come from strictly increasing positions, so visit order is kept |
| `DomTraverse.AcceptedPrefix` | o2.js/o2.domhelper.traverse.js:155-199 | the nodes accepted over a shorter walk are a prefix of those over a longer one |
| `DomTraverse.SelectShape` | o2.js/o2.domhelper.traverse.js:173-205 | `Select`, the walk's specification: the answer is a prefix of the accepted nodes within the cap, or the k-th accepted node, or null only when a single node was asked for |
| `DomTraverse.VisitNode` | o2.js/o2.domhelper.traverse.js:155-199 | one pass of the loop body: each exit gives the specified answer, and continuing keeps the loop invariant |
| `DomTraverse.Reversed` | o2.js/o2.domhelper.traverse.js:147-150 | the reversed copy has the same length |
| `DomTraverse.ReversedAt` | o2.js/o2.domhelper.traverse.js:147-150 | the k-th node visited in reverse is the k-th from the end |
| `DomTraverse.VisitCopy` | o2.js/o2.domhelper.traverse.js:145-153 | the list walked is the input, reversed when `isReverse` is set |
| `DomTraverse.Filter` | o2.js/o2.domhelper.traverse.js:131-206 | missing nodes give `[]`; otherwise the answer is `Select` over the visit order, with null when a single item is not reached |
| `DomTraverse.Chain` | o2.js/o2.domhelper.traverse.js:348-430 | every node of the parent chain is in the document |
| `DomTraverse.ChainNext` | o2.js/o2.domhelper.traverse.js:348-430 | each chain node's parent is the next chain node, or missing after the last |
| `DomTraverse.GetParents` | o2.js/o2.domhelper.traverse.js:335-434 | a missing element gives `[]`; otherwise the answer is `Select` over the ancestors, nearest first, and never null |
| `DomTraverse.GetChildNodes` | o2.js/o2.domhelper.traverse.js:439-463 | the children, or with a name only those whose node name equals it ignoring case, in order |
| `DomTraverse.ChildNodesMembers` | o2.js/o2.domhelper.traverse.js:450-457 | with a name, a node is kept iff it is a child whose name equals the name ignoring case |
| `DomTraverse.ExecFilter` | o2.js/o2.domhelper.traverse.js:468-484 | a missing element gives `[]`; otherwise `filter` over the element's (named) children |
| `DomTraverse.NoDelegates` | o2.js/o2.domhelper.traverse.js:184-197 | with no delegates the walk never stops early and accepts every node past the gate |
| `DomTraverse.GetChildren` | o2.js/o2.domhelper.traverse.js:498-500 | the children that are not text nodes, with the name filter, in order |
| `DomTraverse.GetParentsOf` | o2.js/o2.domhelper.traverse.js:2729-2731 | every ancestor passing the name filter, nearest first |
| `DomTraverse.GetParent` | o2.js/o2.domhelper.traverse.js:2625-2627 | a one-element list holding the nearest matching ancestor, or `[]`; never the node itself or null |
| `DomTraverse.IsParent` | o2.js/o2.domhelper.traverse.js:3315-3321 | true iff `ref` is given and `elm` is among its ancestors |
| `DomTraverse.IsParentOrSelf` | o2.js/o2.domhelper.traverse.js:3339-3349 | true iff `ref` is given and `elm` is `ref` itself or one of its ancestors |
| `DomTraverse.SelectedEligible` | o2.js/o2.domhelper.traverse.js:166-178 | every node returned passed the gate (so `filter` never returns a text node) and lies before the break node |
| `DomTraverse.OnlyFirstCandidateTested` | o2.js/o2.domhelper.traverse.js:168-170 | with `hasClassName`, `hasAttribute` or `isAttributeEquals` as filter (`Answer`, on the unshifted argument array), a node is accepted only if no eligible node came before it |
| `DomTraverse.AtMostOneAccepted` | o2.js/o2.domhelper.traverse.js:168-170 | so such a filter accepts at most one node |
| `DomTraverse.UntilComparesPrevious` | o2.js/o2.domhelper.traverse.js:158-163 | `isNodeEquals` as break delegate compares the first node with `until` and every later node with the node before it |
| `DomTraverse.AncestorsExcludeSelf` | o2.js/o2.domhelper.traverse.js:348 | a node is never among its own ancestors |
| `DomTraverse.ChainLinks` | o2.js/o2.domhelper.traverse.js:348-430 | the ancestors come nearest first: the first is the parent, and each next is the parent of the one before |

## Left out

- Browser clock and timers (`new Date()`, `setTimeout`, `setInterval`, `clearTimeout`,
  `clearInterval`): the time is a parameter `now`. Timers are handle numbers in a map or set.
  Delegates and timer callbacks are never run.
- The transport (`o2.Ajax.get`, `o2.Ajax.post`, the XHR lifecycle and `xhr.abort`): a request
  is an `Xhr` object with an `isComplete` flag that nothing in the model sets, and an abort
  counter.
- `MethodHelper.bind` (o2.js/o2.jsonpstate.js:24): a bound function is modelled as its code
  identity paired with its receiver. JsonpState is a second `Supervisor` instance.
- `decodeURIComponent` in `Cookie.read`: the name is passed in already decoded.
- `toGMTString`: the expiry date text is a parameter.
- `document.cookie`: read as a string parameter. The write is the returned string.
- JSON helpers (`toJson`, `toJsonString`, `stringify`), `Object.extend` and `Object.toArray`:
  not part of this model. They wrap host JSON, prototype wiring and a collection module that
  is not shown.
- `getNextSiblings` and its callers, the `querySelectorAll` branch of `getChildrenByClass`,
  and `$` lookups by id: not part of this model. Elements are node references, and
  `CollectionHelper.contains` is sequence membership.
- Event handling, feature detection, form helpers and the DOM constant table: not part of this
  model (browser wiring with no logic to state).
- `ValidatorRegExp.IsUrl`, `ValidatorRegExp.IsEmail`: the `i` flag is ASCII
  case-insensitivity only, and strings are sequences of characters with no Unicode case
  folding.
- `DomClass.HasClass`, `DomClass.AddClass`, `DomClass.RemoveClass`, `DomClass.ToggleClass`: require a non-empty
  class name with no white space and no regular-expression metacharacters, because the source
  splices the name into a pattern unescaped.
- `DomTraverse.Answer`: a node argument converted to a string (`indexOf` on a node) is not
  modelled and matches nothing. `isNodeEquals` compares node references only, not ids.
- `DomTraverse.Answer`, `DomTraverse.Filter`, `DomTraverse.GetParents`,
  `DomTraverse.AtMostOneAccepted`: every node is taken to be an element with a string
  `className`. `hasClassName` calls `className.indexOf`, which throws a TypeError on the
  `document` node and on comment nodes. The model does not capture that throw. A
  `getParents(elm, hasClassName, ...)` walk that reaches `document` throws in the source, but
  the model returns its accepted nodes.
- `DomTraverse.GetParents`, `DomTraverse.GetChildNodes`, `DomTraverse.GetChildren`,
  `DomTraverse.GetParentsOf`, `DomTraverse.GetParent`: node names are compared after ASCII
  lower-casing. The source's `toLowerCase` also folds non-ASCII letters.
- `StringTransform.Truncate`: lengths count characters (Unicode scalar values). The source's
  `length` and `substr` count UTF-16 code units, so text outside the Basic Multilingual Plane
  is cut at a different place. For example, 101 emoji with the default limit keep 92 emoji
  here but 46 in the source.
- `Cookie.ValueAfter`: skips `eq.length + 1` characters, where the source skips that many
  UTF-16 code units. The results differ when the name holds characters outside the Basic
  Multilingual Plane.
- `Supervision.Controller`, `JsonpState.RegisterWith`: the supervisor is a field set at
  construction, not the module-level AjaxState the source requires
  (o2.js/o2.ajaxcontroller.core.js:39). So the model also admits a controller registered with
  another supervisor, which the source's AjaxController never is. `RegisterWith` shows that
  two supervisors keep separate lists. It is not tied to the `CopyBound` model of how
  JsonpState's functions are built.
- `Supervision.Supervisor.TimeoutObservers`: the `data` argument is dropped, because `update`
  never reads it on this path.
- `Timer.Release`: `clearTimeout` and `clearInterval` are one operation on the set of live
  handles.
- `DateCore.GetPrettyDate`: the result for distances beyond the table is the input `time`
  as a number; the source returns that same value untyped.
- `AjaxExtend.RequestCaches.GetSingle`, `AjaxExtend.RequestCaches.PostSingle`,
  `Timer.Timers.Start`, `Timer.Timers.Stop`, `Timer.Timers.Set`: the caches and the timer
  table are maps. In the source they are plain `{}` objects, so a lookup can also find a key
  inherited from `Object.prototype`, and that is not modelled. For example,
  `getSingle('constructor', {})` finds `Object` under the token `'constructor'` and returns
  it without calling `get`, and `Timer.start('oString')` finds `Object.prototype.toString`
  under `'toString'` and starts a timer. The model calls `get` in the first case and changes
  nothing in the second.
- `AjaxExtend.PrepareToken`, `AjaxExtend.Flatten`, `AjaxExtend.TokenInjective`: parameter
  values are taken in their string form. The source's `join` stringifies them, so numbers and
  their digit strings collide, and `null`, `undefined` and `''` all become the empty string.
  `TokenInjective` is about these string forms.
- `ObjectCore.CopyPrototype`: requires both `prototype` properties to be absent, falsy, or a
  plain object of properties. The source only tests truthiness (o2.js/o2.object.core.js:187-188).
  A string `base.prototype` such as `'ab'` has its indices `'0'` and `'1'` copied. A
  function-valued `prototype` has that function's own properties copied or written. A truthy
  primitive `child.prototype` makes the assignment throw under strict mode when `base` has own
  keys (line 192). None of these is modelled.
- `DomTraverse.GetAttribute`, `DomTraverse.OnlyFirstCandidateTested`,
  `DomTraverse.AtMostOneAccepted`: DomHelper's `getAttribute` (o2.js/o2.domhelper.traverse.js:53)
  is not part of this model. The model assumes it answers `undefined` for a missing attribute
  and for a name that is not a string. If it answers `null` instead, as the native
  `Element.getAttribute` does, `hasAttribute` accepts every node, and the `hasAttribute` cases
  of the two lemmas do not hold.
