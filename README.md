# Man-hour session engine of the execution page

This project models the man-hour engine of the work-order execution page (`script.js`).
Each finding of a work order has three pieces of state:

- `mh.activeSessions`: the open sessions, each with a start time, an employee and a task;
- `mh.logs`: the closed sessions, each with its duration;
- a `status`.

Technicians start and stop timed work on a finding. The engine works as follows:

- A start request is checked first. Then it either runs at once or waits for a "join the team" confirmation when someone else is already active.
- A stop request picks its target. The target is automatic when one session is open; otherwise the user picks an employee.
- Only the last stop asks for a final status (ON HOLD or CLOSED). A closure then asks for a photo.

The model also covers the status label on a finding card and the `formatMs`/`pad` H:MM:SS text.

Files and modules:

- `option.dfy` (`Maybe`): an optional value.
- `js_string.dfy` (`JsString`): the JavaScript string operations the engine relies on. These are `trim` (with ECMAScript's whitespace set), `toLowerCase` on ASCII letters, and the decimal text of an integer. The module also has a reader for that decimal text.
- `clock_format.dfy` (`ClockFormat`): `formatMs` and `pad` over integer milliseconds; `formatMs(now - start)` is also the text of a running timer. `ParseClock` reads the text back as the partner of `formatMs`.
- `sessions.dfy` (`Sessions`): the ledger of one finding as a value, with the pure rules:
  - `ClassifyStart` decides the outcome of a start request;
  - `Start` is `executeStart`;
  - `SelectStopTarget` picks the stop target, and `PrepareStep` decides whether a final-status prompt is needed;
  - `Stop` is `finalizeStop`;
  - `DisplayStatus` gives the card label.

  `Replay` applies a whole history of requests as the page lets them through. The lemmas prove the engine's invariants over single steps and whole histories.
- `engine.dfy` (`ManHour`): the imperative engine.
  - `Finding` is a class whose fields the engine updates in place.
  - `Page` holds the page-level variables `pendingStart`, `pendingStop` and `tempImg`. It also keeps a count of `saveData` calls, the commit point.
  - The seven methods of `Page` that change a ledger (`ExecuteStart`, `InitiateStart`, `ConfirmJoinTeam`, `InitiateStop`, `PrepareStop`, `ConfirmFinalStatus` and `FinalizeStop`) are proved against the `Sessions` functions. The others are specified by the fields they set.
  - Five client methods run a two-technician hand-over on the page's methods: a join, a refused duplicate, an interim stop, a closing stop and the photo prompt.

Timestamps are integer milliseconds passed in as parameters. `new Date()` is not part of the model.

The code departs from the intended design in places. The model follows the code:

- The code does not reject a start on a CLOSED finding. The page only renders the inputs and the Start button disabled. In the model this is a precondition of `InitiateStart`, and `Replay` ignores such requests.
- The code has no "no active session" error. The Stop button is only enabled while a session is open, so the model makes this a precondition of `InitiateStop`.
- Closing does not require evidence:
  - `status` is already CLOSED in memory before the photo prompt;
  - `skipPhoto` saves without a picture;
  - `savePhoto` attaches the picture only when both a stop and a picture are pending.
- A non-last stop keeps whatever status the finding had. It does not set IN_PROGRESS.
- `confirmJoinTeam` does not clear `pendingStart` and does not repeat the duplicate check.
- `savePhoto` and `skipPhoto` clear neither `pendingStop` nor `tempImg`.

## Model

| member | source | states |
|---|---|---|
| `JsString.TrimStart` | script.js:238-239 | the result is the suffix of the input after its leading whitespace: everything dropped is whitespace and the result does not start with whitespace |
| `JsString.TrimEnd` | script.js:238-239 | the result is the prefix of the input before its trailing whitespace: everything dropped is whitespace and the result does not end with whitespace |
| `JsString.TrimCharacterised` | script.js:238-241 | `Trim` (`trim()`, the composition of `TrimStart` and `TrimEnd`): a trimmed employee or task is empty exactly when the input is all whitespace, and a non-empty one neither starts nor ends with whitespace |
| `JsString.ToLower` | script.js:244 | `toLowerCase()` keeps the length, maps every ASCII capital to its small letter (code + 32) and leaves every other character as it is, so no capital remains |
| `JsString.IntToString` | script.js:350-356 | the decimal text of an integer starts with '-' exactly for a negative value; the digits after it read back as the magnitude |
| `JsString.NatToString` | script.js:350-356 | the decimal text of a number is non-empty and all digits, starts with '0' only for zero, and is one character exactly below 10 |
| `JsString.ParseNatToString` | script.js:350-356 | reading the decimal text of a number gives back that number |
| `JsString.ParseLeadingZero` | script.js:356 | the "0" that `pad` puts in front does not change the number the digits denote |
| `ClockFormat.FormatMsFields` | script.js:350-354 | the fields of `formatMs`, `Hours` and `Seconds`/`Minutes` (both `FloorRem60`): for ms >= 0 the seconds and minutes fields are in 0..59, the hours are non-negative, and h*3600 + m*60 + s equals the whole seconds of ms |
| `ClockFormat.PadZeroPrefix` | script.js:356 | `Pad` (`pad`) prefixes "0" exactly for values below 10 (negative ones included); for a non-negative value it gives at least two digits that read back as the value, and exactly two below 100 |
| `ClockFormat.FormatMsReadsBack` | script.js:350-366 | `FormatMs` (`formatMs`): the H:MM:SS text of any non-negative duration reads back as its number of whole seconds, so the minutes and seconds fields are exactly two digits; the live timer, `formatMs(now - start)` in `updateLiveTimers`, therefore shows the whole seconds elapsed while the clock is not behind the start |
| `Sessions.FindIndex` | script.js:305 | `findIndex` with strict equality: -1 exactly when no session has the employee, otherwise the first index whose employee is equal |
| `Sessions.ClassifyStart` | script.js:238-256 | a start is MissingCredentials exactly when the employee or task is blank; it is AlreadyActive exactly when both are present and the trimmed employee matches an open session ignoring case; a join prompt lists all active employees and arises only with sessions open; an immediate start only with none open |
| `Sessions.AdmittedStartKeepsWellFormed` | script.js:243-268 | a start that passes the checks, run at once or after a join confirmation, keeps at most one open session per employee (ignoring case) and the status IN_PROGRESS |
| `Sessions.Start` | script.js:264-268 | `executeStart` keeps the existing sessions in order, appends exactly the new session last, leaves the logs unchanged and sets IN_PROGRESS |
| `Sessions.SelectStopTarget` | script.js:274-282 | the target is automatic exactly when one session is open, and then it is that session's employee; otherwise the choice offered has one entry per open session, the k-th being the employee of the k-th session |
| `Sessions.PrepareStep` | script.js:290-294 | the final-status prompt is needed exactly when removing the stopped session leaves no session open |
| `Sessions.FindIndexUnique` | script.js:305 | with one open session per employee, the exact-match lookup of a stop finds that employee's session |
| `Sessions.RemoveAtKeepsDistinct` | script.js:311 | removing a session keeps the remaining employees distinct and leaves no open session for the removed employee |
| `Sessions.StopClosesExactlyOne` | script.js:305-312 | `Stop` (`finalizeStop`): stopping an employee with an open session removes exactly that session, keeps the others in order, and appends one log entry copying start, employee and task with duration = stop time - start |
| `Sessions.StopWithoutMatch` | script.js:305-312 | a stop for an employee with no exactly matching session changes neither the sessions nor the logs |
| `Sessions.StopLogsOnlyGrow` | script.js:307-311 | after a stop the old logs are a prefix of the new ones, and at most one entry was added |
| `Sessions.OnlyLastStopChangesStatus` | script.js:285-314 | a stop changes the status only if no session stays open; with two or more open it keeps the status; stopping the single open session sets the chosen status |
| `Sessions.StopKeepsWellFormed` | script.js:302-314 | a stop keeps at most one open session per employee, and IN_PROGRESS while any stays open |
| `Sessions.StopKeepsDurationsNonNegative` | script.js:309 | when the stop time is no earlier than every open session's start, every logged duration stays non-negative |
| `Sessions.DisplayStatus` | script.js:97-110 | the label is ACTIVE(n) exactly when n > 0 sessions are open; otherwise ON HOLD when logs exist and the status is not CLOSED, CLOSED when the status is CLOSED, and OPEN otherwise |
| `Sessions.DisplayAfterStop` | script.js:97-110 | after the last stop the card shows CLOSED or ON HOLD as chosen; after an interim stop it shows one active session fewer |
| `Sessions.DisplayAfterStart` | script.js:97-110 | after a start the card shows one more active session |
| `Sessions.ApplyKeepsWellFormed` | script.js:236-314 | `Apply`, one request as the page lets it through: any single request the page lets through keeps the ledger invariant and keeps every old log entry |
| `Sessions.ReplayKeepsWellFormed` | script.js:236-314 | `Replay`, a history of such requests: over any history of requests no employee ever has two open sessions on a finding, and the logs only grow |
| `Sessions.ReplayDurationsNonNegative` | script.js:264-312 | on a clock that never goes back, every duration recorded in any history is non-negative |
| `Sessions.ApplyClosesOnlyByChoice` | script.js:285-314 | a single request that closes a finding not yet CLOSED is a stop answered CLOSED, made while exactly one session was open |
| `Sessions.ClosedOnlyByChoice` | script.js:285-314 | if a history ends with a finding CLOSED that was not CLOSED before, some request i of it is a stop answered CLOSED, the state after the first i requests is not CLOSED and has exactly one open session, and request i closes it |
| `Sessions.ClosedIsTerminal` | script.js:189-202 | once a well-formed finding is CLOSED, no request the page lets through changes it |
| `ManHour.Finding.constructor` | script.js:39-52 | a finding as loaded from storage holds the given sessions, logs, status and photo |
| `ManHour.Page.constructor` | script.js:233-234 | no start or stop is pending and no picture is chosen |
| `ManHour.Page.ExecuteStart` | script.js:264-269 | the finding's new state is `Start` of the old one: one session appended last, status IN_PROGRESS, logs unchanged; the work order is saved |
| `ManHour.Page.InitiateStart` | script.js:236-257 | the decision is `ClassifyStart` of the request; only Started changes the finding and saves; a join prompt only parks the trimmed request in `pendingStart`; every other case changes nothing; the ledger invariant is kept |
| `ManHour.Page.ConfirmJoinTeam` | script.js:259-262 | runs the parked start as `Start` on its finding and saves, or does nothing if none is parked; `pendingStart` is kept |
| `ManHour.Page.CancelJoin` | script.js:25-27 | the parked start is dropped |
| `ManHour.Page.InitiateStop` | script.js:271-283 | the target is `SelectStopTarget` of the open sessions; the finding is unchanged; an automatic target records the pending stop, and the final-status prompt follows |
| `ManHour.Page.PrepareStop` | script.js:285-295 | records the pending stop; with one open session it waits for the final status and changes nothing; otherwise the finding becomes `Stop` of the old one with ON HOLD as the status, and it is saved |
| `ManHour.Page.ConfirmFinalStatus` | script.js:297-300 | the pending stop is finalised with the chosen status; closing defers the save to the photo prompt |
| `ManHour.Page.FinalizeStop` | script.js:302-322 | the pending stop's finding becomes `Stop` of the old one; saved unless a closure's photo prompt follows; the ledger invariant is kept |
| `ManHour.Page.PreviewPhoto` | script.js:326-333 | the chosen picture becomes the pending one |
| `ManHour.Page.SavePhoto` | script.js:334-341 | attaches the pending picture to the pending stop's finding and saves only when both are set; otherwise nothing is saved, and with a stop but no picture the photo is untouched |
| `ManHour.Page.SkipPhoto` | script.js:342 | the work order is saved without a picture |
| `ManHour.JoinKeepsWellFormed` | script.js:259-268 | a confirmed join keeps the ledger invariant as long as the joining employee is still not active |

## Left out

- Rendering is not modelled. This covers `renderPage` and the HTML of `createFindingComponent` apart from which status label is chosen (`Sessions.DisplayStatus`; its text and colour are not modelled), and also `toggleAccordion` and showing or hiding modals. All of it is presentation.
- `loadData` and `saveData` are storage I/O with JSON. Each `saveData` call counts once in `Page.saves`. The case where the work order is missing from storage is not modelled.
- The model does not look up findings by id with `currentWO.findings.find`. Methods and pending requests take the `Finding` object instead. The page builds every button from an existing finding.
- `previewPhoto` is modelled only as the assignment of `tempImg`. The model does not cover `FileReader`, which is asynchronous browser I/O, or the image content, which is an opaque string.
- The `setInterval` tick is not modelled. `updateLiveTimers` is modelled only as the text it writes for one session, `FormatMs(now - start)`.
- `new Date()`, ISO date strings and `formatDate` are left out because they depend on the clock and the time zone. Timestamps are integer milliseconds, so a duration that is NaN because of an unreadable start string is not modelled.
- `alert` and the navigation in the `DOMContentLoaded` handler are left out.
- ClockFormat.FormatMs uses exact integer arithmetic. The source divides floating-point numbers; the two agree for integer millisecond values below about 2^53 / 1000.
- JsString.NatToString: the exponent notation JavaScript uses from 1e21 upward is not modelled.
- JsString.LowerChar maps only ASCII capitals. Other Unicode case mappings of `toLowerCase` are not modelled.
- The employee name is inserted into `onclick` markup, so a quote inside a name breaks the button. This is not modelled.
- The HTML of the final-status radio buttons is not part of this model. Its two values are taken to be ON_HOLD and CLOSED, as `Sessions.FinalChoice`.
- Sessions.StopKeepsDurationsNonNegative assumes the clock has not gone back, because the source takes both times from `new Date()` and does not check them.
- ManHour.Page.ConfirmJoinTeam keeps the one-session-per-employee invariant only when the parked employee is still not active. The source does not repeat the check.
