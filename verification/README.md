# Orochi mining timer — synchronisation core in Dafny

The client of the Orochi mining timer shows a shared list of countdown timers
and keeps it in step with a server over a WebSocket. Everything that is logic
rather than rendering lives in the `App` component of `client/src/App.js`:

- the **timer store**, an ordered list of timers changed only by the inbound
  message handler (`init-timers`, `timer-updated`, `timer-added`,
  `timer-deleted`) and by the optimistic local delete;
- the **fresh-id search** of "add row": the least positive integer that is
  not yet an id;
- the **bounded reconnect policy**: a retry counter that an open resets and
  each close increments, scheduling a reconnect, while it is below 3;
- the **connection-guarded commands** (`startTimer`, `resetTimer`,
  `deleteTimer`, `addNewRow`), each of which writes exactly one tagged message
  when the socket is open (for `startTimer`, once its end time is computed)
  and otherwise writes nothing and sets the status "연결 오류 - 새로고침 필요"
  (connection error, refresh required);
- two **display helpers**: `formatTime` ("MM:SS") and `getRowClassName`
  (red / yellow / no highlight).

The model has six modules:

- `Options` (`options.dfy`): the optional value used for absent JSON fields.
- `Timers` (`timers.dfy`): the timer entity; replace-by-id, remove-by-id and the
  id search as functions and a method, with the store invariant "one entry per id".
- `Protocol` (`protocol.dfy`): inbound and outbound messages as closed variant
  types; `Decode` (the `switch (data.type)`), the reducer `Apply`, and `ApplyAll`
  for a stream of messages.
- `Connection` (`connection.dfy`): status values, the retry step `Step`, and
  lemmas over any sequence of open / error / close callbacks.
- `Display` (`display.dfy`): `FormatTime` with JavaScript's integer division
  and remainder, the reader `ParseClock` that inverts it, and `RowClassName`.
- `Sync` (`sync.dfy`): the class `SyncEngine` whose fields `timers`, `retryCount`,
  `status` and `outbox` are the component's state and the socket's outbound
  stream. Its methods are the socket callbacks and the four commands, each
  specified against the functions above. `Session` is a verified client of the
  class that replays one session: connect, a snapshot with ids 1 and 3, an
  unknown and a malformed message, add a row (id 2), delete id 3, lose the
  socket, and a start refused while it is down.

Behaviour of the code worth noting:

- There is no terminal "failed" status. After the third reconnect the status
  simply stays "연결 끊김" (disconnected) and no further reconnect is scheduled
  (`client/src/App.js:39-48`).
- The counter is tested before it is incremented (`retryCount < maxRetries`, then
  `retryCount++`). A close with the counter at 3 therefore neither schedules a
  reconnect nor changes the counter.
- `timer-updated` only replaces entries through `map`. An id that is not present
  is not inserted (`client/src/App.js:60-63`).
- Unmounting closes only the first socket and does not cancel a pending
  reconnect (`client/src/App.js:87-89`). No cancellation guarantee is modelled.

## Model

| member | source | states |
|---|---|---|
| `Timers.UpdateById` | client/src/App.js:60-63 | length kept; entry i becomes the incoming timer exactly when its id matches, and stays as it was otherwise |
| `Timers.UpdateAbsentIsNoOp` | client/src/App.js:60-63 | an update for an id not in the store leaves the store unchanged |
| `Timers.UpdateKeepsIds` | client/src/App.js:60-63 | an update keeps the set of ids and keeps ids unique |
| `Timers.RemoveById` | client/src/App.js:68-69 | no entry with the id remains; ids are the old ids minus it; the result is a subsequence of the input; every other entry keeps its multiplicity |
| `Timers.RemoveAbsentIsNoOp` | client/src/App.js:125 | filtering out an id that is absent changes nothing |
| `Timers.RemoveIsIdempotent` | client/src/App.js:125 | the optimistic delete and the later server delete of the same id equal one delete |
| `Timers.RemoveKeepsUnique` | client/src/App.js:69 | removal keeps ids unique |
| `Timers.AppendUniqueIff` | client/src/App.js:66 | appending keeps ids unique if and only if the appended id is new |
| `Timers.FreshId` | client/src/App.js:134-138 | the loop returns an id that is at least 1 and unused, with every integer from 1 up to it already in use |
| `Timers.Provisional` | client/src/App.js:142-148 | the provisional timer carries the new id, is not running, has no time left, and has neither minutes nor an end time |
| `Timers.LeastFreeIdIsUnique` | client/src/App.js:134-138 | the least-free-id property determines the id |
| `Timers.LeastFreeIdOfOneThree` | client/src/App.js:134-138 | with ids {1, 3} the new id is 2 |
| `Timers.FreshIdKeepsUnique` | client/src/App.js:140-149 | the provisional timer, once echoed back and appended, adds exactly its id and keeps ids unique |
| `Protocol.Decode` | client/src/App.js:52-77 | a parse failure is Malformed; an absent or unrecognised type is Unknown, and only then; `init-timers` yields a snapshot exactly when it is the type; each of the other known types with its payload present yields its event carrying that payload, and with the payload absent is Malformed (Malformed in both directions) |
| `Protocol.Tag` | client/src/App.js:95-96 | every outbound message carries one of the five enumerated types |
| `Protocol.TagIdentifiesKind` | client/src/App.js:95-96 | equal type tags mean the same kind of command |
| `Protocol.Apply` | client/src/App.js:55-77 | unknown or malformed messages leave the store as it was; a snapshot becomes the store, and an absent snapshot empties it |
| `Protocol.ApplyTimerUpdated` | client/src/App.js:59-63 | `timer-updated` keeps the length, the order and the set of ids, and replaces exactly the entries with the incoming id; an absent id changes nothing |
| `Protocol.ApplyTimerAdded` | client/src/App.js:64-66 | `timer-added` appends one entry: the old entries stay first and unchanged, the new timer comes last, and its id joins the ids |
| `Protocol.ApplyTimerDeleted` | client/src/App.js:67-69 | `timer-deleted` leaves no entry with the id, removes no other id, and keeps the remaining entries in order |
| `Protocol.InitTimersIsIdempotent` | client/src/App.js:56-58 | a snapshot does not depend on the previous store, so applying it twice equals applying it once |
| `Protocol.DeleteEchoIsNoOp` | client/src/App.js:125 | the server's `timer-deleted` after the optimistic delete of the same id changes nothing |
| `Protocol.ApplyKeepsUniqueIds` | client/src/App.js:55-70 | a store with unique ids stays unique after a message if and only if the message is admissible (duplicate-free snapshot, or an added id that is new) |
| `Protocol.ApplyAll` | client/src/App.js:50-78 | messages are applied one by one in arrival order; when the last one is a snapshot the store is that snapshot (or empty), whatever came before |
| `Protocol.ApplyAllConcat` | client/src/App.js:50-78 | messages are applied one by one in arrival order; two batches in turn equal their concatenation |
| `Protocol.ApplyAllIgnored` | client/src/App.js:71-77 | any stream of unknown or malformed messages leaves the store unchanged |
| `Protocol.ApplyAllKeepsUniqueIds` | client/src/App.js:55-70 | ids stay unique along a stream of admissible messages |
| `Connection.StatusText` | client/src/App.js:7 | the text shown for each status, literally as the source sets it at lines 7, 28, 36, 41 and 103 (a lookup table with no contract of its own) |
| `Connection.Step` | client/src/App.js:26-48 | open resets the counter and sets connected; error sets the error status only; close sets disconnected and adds one exactly when it schedules; the bound 3 is kept |
| `Connection.Run` | client/src/App.js:26-48 | after any non-empty sequence of callbacks the status is the one the last callback set, and a final open leaves the counter at 0 |
| `Connection.RunKeepsBound` | client/src/App.js:19-20 | over any callback sequence the counter stays at most 3 |
| `Connection.ScheduledWithoutOpen` | client/src/App.js:39-48 | with no open, reconnects scheduled = min(3 − counter, number of closes), and the counter grows by that number |
| `Connection.AtMostMaxRetriesWithoutOpen` | client/src/App.js:43-47 | with no open in between, at most 3 reconnects are scheduled |
| `Connection.NeverOpensRetriesExactlyMax` | client/src/App.js:43-46 | a connection that never opens is retried exactly 3 times once it has closed 3 times |
| `Display.NatToDecimal` | client/src/App.js:166 | `toString` of a non-negative integer: at least one character, all digits, a single digit exactly below 10 |
| `Display.IntToDecimal` | client/src/App.js:166 | `toString` of any integer: at least one character; all digits exactly when the number is non-negative; a leading '-' when it is negative |
| `Display.DecimalRoundTrip` | client/src/App.js:166 | the digits of a number read back as the number |
| `Display.PadStart` | client/src/App.js:166 | `padStart`: the result is max(width, old length) characters long |
| `Display.PadStartContent` | client/src/App.js:166 | `padStart` keeps the old text as the suffix and puts only fill characters before it |
| `Display.JsRem60` | client/src/App.js:165 | JavaScript `%`: the remainder has the sign of the dividend, magnitude below 60, and differs from it by a multiple of 60 |
| `Display.Pad2` | client/src/App.js:166 | `padStart(2, '0')` of the decimal text: at least 2 characters, exactly 2 for 0 to 99 |
| `Display.Pad2OfNat` | client/src/App.js:166 | a padded non-negative number is a digit string whose value is the number |
| `Display.FormatTime` | client/src/App.js:163-167 | the clock text of any count has at least 5 characters, and for a non-negative count the ':' sits three characters from the end |
| `Display.FormatTimeShape` | client/src/App.js:163-167 | for a non-negative count: digits with one ':' three characters from the end; exactly 5 characters below 100 minutes |
| `Display.FormatTimeRoundTrip` | client/src/App.js:163-167 | reading the "MM:SS" text back gives the original count: minutes times 60 plus seconds, seconds below 60 |
| `Display.RowClassName` | client/src/App.js:156-161 | red if and only if running with at most 60 s left; yellow if and only if running with 61–180 s left; no class if and only if not running or above 180 s |
| `Display.UrgencyIsMonotone` | client/src/App.js:156-161 | of two running timers the one with less time left is highlighted at least as urgently |
| `Sync.SyncEngine.constructor` | client/src/App.js:5-7 | mounting starts with an empty store, status "connecting", counter 0, nothing sent |
| `Sync.SyncEngine.OnOpen` | client/src/App.js:26-31 | status connected, counter 0, exactly one `get-timers` appended, store unchanged |
| `Sync.SyncEngine.OnError` | client/src/App.js:33-37 | only the status changes, to the error status |
| `Sync.SyncEngine.OnClose` | client/src/App.js:39-48 | status disconnected; a reconnect is scheduled and the counter incremented exactly when it was below 3; nothing else changes |
| `Sync.SyncEngine.OnMessage` | client/src/App.js:50-78 | the store becomes `Apply` of the decoded message; a parse failure leaves it; status, counter and outbox unchanged |
| `Sync.SyncEngine.RefuseCommand` | client/src/App.js:101-104 | the refusal shared by all four commands (also lines 113-116, 126-129, 150-153): status refresh-required; store, counter and outbox unchanged |
| `Sync.SyncEngine.StartTimer` | client/src/App.js:92-105 | open: exactly one `start-timer` with id, minutes and end time appended, store untouched; closed: nothing sent, status refresh-required |
| `Sync.SyncEngine.ResetTimer` | client/src/App.js:107-117 | open: exactly one `reset-timer` appended; closed: nothing sent, status refresh-required; store untouched |
| `Sync.SyncEngine.DeleteTimer` | client/src/App.js:119-130 | open: exactly one `delete-timer` appended and the id removed from the store at once; closed: nothing sent, store unchanged, status refresh-required |
| `Sync.SyncEngine.AddNewRow` | client/src/App.js:132-154 | open: exactly one `add-timer` appended carrying a provisional timer with the least free id, store untouched; closed: nothing sent, status refresh-required |

## Left out

- Rendering: JSX, dark mode, the logo and the wall clock (`setInterval`, `currentTime`) are UI, not synchronisation logic.
- WebSocket transport: creating the socket, `send`, `close` and `readyState`. Each command takes the result of the ready-state test as its `open` argument, and `outbox` stands for what was sent.
- The 3000 ms delay of a reconnect: a scheduled reconnect is a returned flag and a count, not a time. Replacing the socket on reconnect (`setWs`) and the unmount cleanup are not modelled.
- The end time of `start-timer`: it is computed with `Date` from the clock and the minutes, so it is an opaque text argument. `formatEndTime` and `toLocaleString` depend on locale and time zone and are not modelled.
- JSON parsing and serialisation. A parsed message is an `Envelope` holding the fields the handler reads, and a parse failure is `None`.
- A message of a known type whose payload field is absent decodes to Malformed and is ignored. In the source, `timer-deleted` without `id` also removes nothing. `timer-added` without `timer` appends `undefined`. `timer-updated` without `timer` fails inside the state updater, outside the handler's `try`, when the store is non-empty; on an empty store `map` never calls its callback and nothing fails. These last two behaviours are not modelled.
- Numbers are unbounded integers. Fractional ids, minutes or seconds (JavaScript numbers are floating point) are not modelled, nor are the loss of integer precision above 2^53 and `toString`'s exponent form from 1e21 on ("1e+21"); `FormatTimeRoundTrip` holds of unbounded integers, not of counts that large.
- The commands read the rendered `timers` snapshot (a React closure). The model reads the current store, which is the same once the component has re-rendered.
- Console logging is a side effect only.
- Display.FormatTimeShape: the lemma speaks only of non-negative counts. For a negative count the function computes JavaScript's result (`formatTime(-5)` is "-1:-5"), and `FormatTime` states only its length for it, because the server keeps `timeLeft` non-negative.
- Sync.SyncEngine.StartTimer: the end time is taken as a valid text argument. In the source, `toISOString` throws a RangeError when `minutes` is not numeric or pushes the date out of range; then nothing is sent and the error escapes the handler. The model does not capture that path.
