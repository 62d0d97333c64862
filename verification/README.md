# MeshCenter: a verified model

MeshCenter is a web server in front of a mesh radio. This project models the parts of it where many threads, failing
writes, hostile text or sliding time windows meet, and proves what those parts promise.

- **Sessions and the shared password** (`AuthProtocol`, `AuthPromises`, `AuthServer`): a login reads the hash in one critical section and
  grants its session in a later one; a request passes the gate in one step and runs its handler in a later one; setup, password
  change, enabling, disabling, logout and sign-out-everywhere run in between, and every write may fail. **Login throttle**
  (`LoginThrottle`, `ThrottlePromises`): exponential lockouts with swept entries.
- **The listen-line parser** (`PyText`, `HexDigits`, `PyLiteral`, `ListenLine`) and its inverse, a printer of Python packet
  dicts (`ListenPrint`), with the round trip and the independence from message text (`ListenText`, `ListenBare`, `ListenFields`),
  what reading means on any line (`ListenRaw`) and on fields in the protobuf text format (`ListenProto`).
  Escapes follow section 2.4.1 of the Python 3.11 Language Reference.
- **The life of an outgoing message** (`NodeIds`, `SendLifecycle`, `SendDelivery`, `SendDeadlines`, `SendFailures`,
  `SendOutcomes`, `SendService`): queue, batch worker, retry, acknowledgements, timeout sweep, deletion, restart. **Deleting chats and messages
  with rollback** (`ChatRecords`, `ChatPromises`, `ChatStorage`). **The channel list** (`SortedKeys`, `ChannelCache`, `ChannelService`): single
  flight, time to live and back-off.
- **Recovery supervisors** (`SlidingWindow`, `ListenerRecovery`, `ListenerPromises`, `TransportRecovery`), over every sliding window of every run.
- **Bounded structures** against simple references: the packet-id tracker (`SeenPackets`), the duplicate-text filter
  (`DuplicateText`), the deque limiter (`RateLimiter`), telemetry down-sampling (`Downsample`, `DownsampleLaws`), chunked
  upload staging and the life of a spool file (`Utf8Stream`, `Staging`, `SpoolLifecycle`).

Each protocol is a pure transition system with whole-run theorems; beside it a class holds the mutable fields of the source,
and every method of that class is proved to take exactly one step of the system. The clock never runs backwards. A storage
write replaces the file or leaves it alone. Arithmetic on times and telemetry is exact.

## Where the code does less than it seems to promise

Each point is proved, with the exact condition and, where it is not plain from that, an input.

- A request that is past the gate when the password changes keeps its session: the security route stamps the session it was
  called with, with the version now in force, also when the request proved, chose and switched on nothing. Its holder may only
  ever have proved the old password. Every other step keeps accepted sessions going back to the current password
  (`StepKeepsLineageExactlyWhen`, `LineageRunExactlyWhen`, `RacedRequestKeepsItsSession`).
- A cookie of an older release without a session id gets one at the gate so that a later logout can revoke it, yet after that
  logout the cookie itself is still accepted: a cookie that comes through the gate and logs out is refused from then on exactly
  when it carried an id (`LogoutEndsThePresentedCookieExactlyWhen`, `IdlessCookieSurvivesItsLogout`,
  `SessionSurvivesLogoutExactlyWhen`).
- A message sent to the own node id is filed under the primary channel while its job looks for it under the node id, so it stays
  pending until a restart fails it, or it is deleted or drops out of the history (`SelfSendStaysPending`,
  `RestartSettlesEverything`). All other messages keep exactly their one job (`PairingKeptExactlyWhen`); the pairing without that
  exception holds exactly when no such message is in memory (`PlainPairingExactlyWhen`).
- The send worker's catch-all also fails messages whose result was applied. That breaks the pairing of messages and jobs exactly
  when such a message was retried meanwhile, and no other step does (`StepKeepsThePairingExactlyWhen`,
  `CatchAllCanBreakThePairing`).
- A message can wait for its acknowledgement without a deadline: exactly after an accepted send to a message that once asked for
  one, has no deadline left, and asks for no new one (`StepKeepsDeadlinesExactlyWhen`, `DeadlinesKeptExactlyWhen`). The catch-all
  leads there (`DeadlineCanBeLost`); without it no run from a first start does (`SettledRunsLoseNoDeadline`).
- In a packet printed without a payload field, a fake payload field inside the text moves the reader past the real text: it is
  read exactly when no payload key with a literal behind it is found, and blanked exactly when no payload key is found
  (`RealTextIsReadExactlyWhen`, `TextIsBlankedExactlyWhen`, `FakeFieldsCanFool`).
- The octal repair of a string field alters a value that needed none exactly when the value looks octal-escaped, is not ASCII
  and its characters, taken as bytes, happen to be UTF-8 (`StringFieldReadsTheRealField`, `RepairCanMisfire`).
- Listener recovery does not look at ticks of another transport, so "every tick since the recorded down-time was judged down"
  holds exactly when each such tick came after 180 s of PAUSED without a break; where a tick of another transport is never
  PAUSED, which it is only during a planned restart, exactly when all of them were serial
  (`EveryTickSinceWasDownExactlyWhen`, `EveryTickSinceWasDownExactlyOnSerial`, `OtherTransportTicksAreInvisible`). Transport
  recovery is not shown TCP ticks, so its two unhealthy ticks are consecutive exactly when the tick before the reconnect was not
  a TCP tick (`ConsecutiveExactlyWhen`, `TcpTicksAreInvisible`).
- Deleting a message scans for a new preview and thereby adds missing attachment markers in place, after the message file was
  written and without undoing it in a rollback; memory and file agree, and a call that failed after the scan restores memory,
  exactly when no scanned message lacks its marker (`ChatStorage.Store.DeleteAt`, `PuttingBackRestoresExactlyWhen`,
  `PuttingBackCanDiffer`).
- An error-free but empty channel list does replace the cached one, by the primary channel alone; a read that raises never does
  (`CacheIsTheLastList`).
- A spool file outlives a request that was not fresh when the unlink fails, and when the JSON check raises something that is
  not a ValueError, such as a RecursionError (`SpoolLifecycle.Spool.Create`).
- Different messages can share a duplicate-text key: exactly when their stripped parts, cut at every bar, are the same pieces;
  without bars in senders and node ids only a message without node id can collide with one that has it (`SameKeyExactlyWhen`,
  `BarFreeKeysAreInjective`, `MixedKeysCollideExactlyWhen`, `KeysCanCollide`).
- An id that `int(text, 16)` accepts is not always printed back: exactly the ids of eight hex digits are (`PrintParse`).

## Model

| member | source | states |
|---|---|---|
| `AuthProtocol.InvRun` | api/api_auth.py:339-716 | Every run keeps: a version names one usable hash for every root and every login in flight, no session is rooted later than its cookie says, memory is what the file loads to, every admitted request holds a granted cookie |
| `AuthProtocol.InitialInv` | api/api_auth.py:165-243 | Whatever auth.json and config.py say at first start, the invariant holds |
| `AuthProtocol.RunIsForward` | api/api_auth.py:511-716 | Over every run the version never falls, setup is never needed again, protection comes on with a new version, a usable hash stays usable, and with the same version the hash is the same and protection was not switched on |
| `AuthPromises.StepKeepsLineageExactlyWhen` | api/api_auth.py:598-716 | Every step keeps "under protection every session of the current version goes back to the current password" if and only if it is no raced stamp: a saved security request that vouches for nothing and came through the gate under another version or without a session |
| `AuthPromises.LineageRunExactlyWhen` | api/api_auth.py:598-716 | Over whole runs that holds at every moment if and only if no step is a raced stamp |
| `AuthPromises.AcceptedCookieWasGrantedUnderCurrentHash` | api/api_auth.py:339-376 | In every run without a raced stamp, an accepted cookie under protection belongs to a session whose holder proved, chose or switched on the hash now in force, under the version now in force |
| `AuthPromises.RacedRequestKeepsItsSession` | api/api_auth.py:711-716 | From a first start: a request past the gate, raced by a password change, is accepted under the new password although its session goes back to the old one |
| `AuthPromises.CommittedChangeEndsEarlierSessions` | api/api_auth.py:598-716 | A step that replaces the hash, re-enables protection or moves the version makes every cookie handed out before it refused in all later protected states |
| `AuthPromises.CommittedChangeEndsEarlierLineages` | api/api_auth.py:598-716 | Without a raced stamp no cookie accepted later, re-stamped ones included, continues a session from before the change |
| `AuthPromises.CommittedRequestsMoveTheVersion` | api/api_auth.py:572-580 | Sign-out-everywhere and a password change move the version exactly when their write succeeds, and a wrong current password changes neither the password nor switches protection off |
| `AuthPromises.RacedLoginNeverYieldsAnAcceptedSession` | api/api_auth.py:426-474 | A login that read before a committed change and finished after it gets a session that is refused in every later protected state |
| `AuthPromises.UndisturbedLoginIsAccepted` | api/api_auth.py:459-474 | A login that met no change is accepted, and stays so exactly until the version moves or its id is revoked |
| `AuthPromises.LogoutEndsExactlyItsId` | api/api_auth.py:558-566 | Logout ends every cookie with the id it revokes for good and leaves the verdict on every cookie with another id, or none, unchanged |
| `AuthPromises.LogoutEndsThePresentedCookieExactlyWhen` | api/api_auth.py:368-376 | A cookie that comes through the gate and logs out is refused in every later protected state if and only if it carried an id or the version moved |
| `AuthPromises.IdlessCookieSurvivesItsLogout` | api/api_auth.py:369-373 | From a first start: a cookie without an id logs out and is still accepted |
| `AuthPromises.SessionSurvivesLogoutExactlyWhen` | api/api_auth.py:558-566 | After a logout some cookie of a given root is accepted if and only if one was that carries another id or none |
| `AuthPromises.SetupIsUnreachableOnceAHashExists` | api/api_auth.py:251-262 | Once setup is not needed, so once a usable hash exists, no run reaches the setup state |
| `AuthPromises.StreamStopsExactlyWhenTheGateWouldRefuse` | api/api_auth.py:275-294 | A stream opened by a request the gate let in, with protection on or off and whatever happens before its handler captures the guard, is stopped in a later state exactly when the gate would refuse its cookie there |
| `AuthPromises.SecurityRequestTakesEffect` | api/api_auth.py:598-716 | A saved security request takes effect if and only if it is admissible: the enabled flag is the one asked for or stays, the hash is the chosen one or stays, and file and memory agree; any other request changes neither |
| `AuthPromises.SwitchingProtection` | api/api_auth.py:664-689 | After a saved request to switch protection off the gate lets every cookie in, after one to switch it on the state is protected |
| `AuthPromises.TheChangerStaysIn` | api/api_auth.py:707-716 | The session that made a saved change, authenticated or switching protection on, and not logged out meanwhile, holds a cookie the gate accepts |
| `AuthPromises.SetupTakesEffect` | api/api_auth.py:511-531 | Setup that is needed and saved leaves the site protected under the new password and grants a cookie that the gate accepts; otherwise nothing changes |
| `AuthPromises.GateBeforeAndWithoutProtection` | api/api_auth.py:334-376 | While setup is needed the gate refuses every cookie, and without protection it accepts every cookie |
| `AuthPromises.FailedLoginGrantsNothing` | api/api_auth.py:459-481 | A login with a wrong password hands out nothing and changes nothing but its own bookkeeping |
| `AuthPromises.SavedStateComesBack` | api/api_auth.py:165-243 | In every reachable state a new process loads the state that memory held |
| `AuthPromises.FirstStart` | api/api_auth.py:165-243 | Without a file the configured flag and password are taken over, and setup is needed exactly when protection is on without a password |
| `AuthServer.Server.Save` | api/api_auth.py:298-312 | Persist then commit: success sets file and memory, failure leaves both |
| `AuthServer.Server.EnforceAuth` | api/api_auth.py:334-376 | The gate takes exactly the `EnterGate` step |
| `AuthServer.Server.LoginRead` | api/api_auth.py:425-429 | First critical section of login is the `BeginLogin` step |
| `AuthServer.Server.LoginVerifyAndGrant` | api/api_auth.py:459-481 | Verification and grant are the `FinishLogin` step |
| `AuthServer.Server.SetupPassword` | api/api_auth.py:492-531 | Setup is the `Setup` step, with the write possibly failing |
| `AuthServer.Server.LogoutSession` | api/api_auth.py:558-566 | Logout is the `Logout` step |
| `AuthServer.Server.LogoutEverywhere` | api/api_auth.py:569-581 | Sign-out-everywhere is the `LogoutAll` step |
| `AuthServer.Server.ChangeSecurity` | api/api_auth.py:595-716 | The security route's branches are the `UpdateSecurity` step, and it succeeds exactly when the change is admissible and saved |
| `AuthServer.Server.RestartProcess` | api/api_auth.py:165-243 | A new process loads the file and drops what was in flight |
| `LoginThrottle.CappedExponentIsInvisible` | api/api_auth.py:137-162 | The delay with the capped exponent equals min(2*2^k, 300) for every fail count |
| `LoginThrottle.Throttle.TryPassword` | api/api_auth.py:441-481 | One password attempt updates the table and answers exactly as the step function, sweep included |
| `LoginThrottle.PruningKeepsLiveLockouts` | api/api_auth.py:325-331 | In every reachable table the sweep changes no answer to "is this client locked now" |
| `LoginThrottle.RetryAfterIsTight` | api/api_auth.py:441-457 | The advertised wait is enough, and less than a second too long |
| `LoginThrottle.GuessingRateIsBounded` | api/api_auth.py:441-481 | In every run without a success, even with sweeps and other clients in between, the n-th failed check comes at least 510 + 300*(n-13) s after the first |
| `ThrottlePromises.DelayIsTheWait` | api/api_auth.py:137-162 | The wait after the n-th failure in a row is 0 up to four, then 2, 4, 8, ... 256 and 300 s |
| `ThrottlePromises.AnswerIsTheVerdict` | api/api_auth.py:425-481 | In every run every attempt is answered from the client's own failures in a row alone: refused with the rest of the wait, accepted, or failed; sweeping and other clients change no answer |
| `ThrottlePromises.SuccessClearsTheCount` | api/api_auth.py:459-474 | A right password that is looked at ends the failures in a row, and the next attempt is not refused |
| `PyLiteral.PythonStringLiteralAt` | server.py:3978-3994 | The scanner loop returns the end of the literal as defined by the recursive scan |
| `PyLiteral.LiteralAtRepr` | server.py:3978-3994 | Wherever the repr of any string stands in a line, the scanner finds exactly its end |
| `PyLiteral.DecodeRepr` | server.py:3997-4002 | Decoding the repr of any string gives the string back |
| `ListenLine.ExtractTextMessage` | server.py:4088-4139 | The extraction loops compute the leftmost-match specification, fallback included |
| `ListenLine.LineWithoutTextLiterals` | server.py:4066-4085 | The blanking loops compute the leftmost-match specification |
| `ListenLine.MaskStringValues` | server.py:4005-4027 | The masking loop computes the recursive mask |
| `ListenLine.LookUpStringField` | server.py:4053-4063 | The key loop and the match loop compute the first match, ignoring case as Python does, that a whole literal follows |
| `ListenText.ExtractingUndoesPrinting` | server.py:4088-4139 | For every packet the extracted text is exactly the printed text, whatever it contains, and None for whitespace only |
| `ListenText.BlankingEmptiesPayloadAndText` | server.py:4066-4085 | Blanking a printed packet gives the print of the packet with empty payload and text |
| `ListenText.MetadataIsIndependentOfTheText` | server.py:5372-5399 | Packets that differ only in text and payload give the same blanked line |
| `ListenBare.RealTextIsReadExactlyWhen` | server.py:4104-4112 | Without a payload field: the literal read is the real text if and only if no payload key with a literal behind it is found |
| `ListenBare.UnfooledReadingIsExact` | server.py:4104-4128 | And then the text comes back exactly |
| `ListenBare.TextIsBlankedExactlyWhen` | server.py:4073-4085 | Without a payload field: the blanked line is the one with an empty text if and only if no payload key is found |
| `ListenBare.BareMetadataIsIndependentOfTheText` | server.py:5372-5399 | Then two packets that differ only in text give the same blanked line |
| `ListenBare.FakeFieldsCanFool` | server.py:4104-4112 | A text with fake payload and text fields whose fake text is returned |
| `ListenFields.MaskOfPrintedLine` | server.py:4005-4027 | The mask of a printed record keeps keys, punctuation and non-string values in place and replaces the content of every string value, length preserved |
| `ListenFields.RealFieldIsFound` | server.py:4053-4063 | The lookup finds the real field's literal, whatever the values before it contain |
| `ListenFields.AbsentFieldIsNotFound` | server.py:4053-4063 | A key that is no string field is not found, however often it occurs inside values or with a number or bytes |
| `ListenFields.FieldTextOfRepr` | server.py:4030-4050 | Decoding a field token gives the value, or its octal repair when it looks octal-escaped |
| `ListenFields.StringFieldReadsTheRealField` | server.py:4053-4063 | The first key that is a string field yields the value of the first such field, exactly unless the octal repair misfires on it; items of that key without a string are passed over |
| `ListenFields.RepairCanMisfire` | server.py:4030-4050 | An input on which the repair changes a correct value |
| `PyText.StripIsExact` | server.py:4136-4138 | Stripping takes whitespace off both ends and nothing else |
| `PyText.StripIsEmptyExactlyWhen` | server.py:4125-4125 | A text strips to nothing if and only if it is all whitespace |
| `ListenRaw.LiteralAtExactly` | server.py:3978-3994 | On any line the scanner returns an end if and only if there is an opening quote and, at that end, its first unprotected partner |
| `ListenRaw.KeyEndExactly` | server.py:4111-4112 | A key match is exactly a quoted name, spaces, a colon and all the spaces behind it |
| `ListenRaw.FindKeyIsLeftmost` | server.py:4111-4112 | The search finds the leftmost key, None only where there is none |
| `ListenRaw.TextLiteralIsFirst` | server.py:4111-4127 | The loop finds the first text key with a string literal behind it, None only where there is none |
| `ListenRaw.RawCaptureIsLeftmost` | server.py:4129-4138 | A raw capture is the stripped value of the leftmost match, None only where nothing matches |
| `ListenRaw.UnrelatedLineHasNoText` | server.py:4099-4100 | A line that names neither the text port nor a text key has no text |
| `ListenRaw.NoTextKeyNoText` | server.py:4111-4139 | A line without a text key has no text, whatever else it says |
| `ListenRaw.FirstLiteralDecides` | server.py:4113-4127 | On any line that looks like text, the first text literal behind the payload gives the answer if it decodes |
| `ListenRaw.UndecodableTextIsCaptured` | server.py:4126-4139 | Otherwise the first raw capture that is not empty does, in the order of the four quote pairs |
| `ListenRaw.MalformedFieldStaysRaw` | server.py:4035-4044 | A field with a broken hex escape is read as it stands between its quotes |
| `ListenProto.UnknownEscapesStay` | server.py:3997-4002 | An escape without a meaning stands for itself, backslash included |
| `ListenProto.ProtoLiteralIsRead` | server.py:4030-4050 | Any text printed as protobuf does, its bytes outside printable ASCII in octal, decodes to the text |
| `ListenProto.ProtoFieldIsRead` | server.py:4053-4063 | A field with a bare key and such a value comes back exactly, for every key and text |
| `NodeIds.ParsePrint` | server.py:1904-1909 | Parsing a printed node number gives it back modulo 2^32 |
| `NodeIds.PrintParse` | server.py:3757-3764 | Printing a parsed destination gives the id back in lower case if and only if it is eight hex digits, among all forms that `int(text, 16)` accepts |
| `NodeIds.OtherSpellings` | server.py:3757-3764 | Signs, a 0x prefix and single underscores are read, and no digits at all are refused |
| `SendLifecycle.PairingKeptExactlyWhen` | api/api_chat.py:69-240 | Over whole runs, whatever interleaves and whichever saves fail: at every moment each pending message has exactly one outstanding job, or was sent to the own node and has none, and no other message has any, if and only if the catch-all never fails a message that was queued again |
| `SendLifecycle.RunFromStart` | api/api_chat.py:69-240 | So in every such run from a first start, messages to the own node included |
| `SendLifecycle.PlainPairingExactlyWhen` | server.py:4449-4451 | The pairing without that exception holds if and only if no message to the own node is in memory |
| `SendLifecycle.LateResultOverwritesNothing` | server.py:4563-4611 | In every run from a first start without such a catch-all, messages to the own node included, a send result changes no message that is not pending |
| `SendLifecycle.ResultSettlesItsMessage` | api/api_chat.py:82-110 | After a job's result its message is not pending |
| `SendLifecycle.StepKeepsThePairingExactlyWhen` | api/api_chat.py:743-767 | Every step from a good state keeps the pairing, messages to the own node set apart, if and only if it is no catch-all on an answered message that is pending again |
| `SendLifecycle.SelfSendLeavesAnOrphan` | server.py:4449-4451 | A message to the own node is stored as pending with no outstanding job |
| `SendFailures.SelfSendStaysPending` | server.py:4449-4451 | In every run from a first start it stays exactly that, with nobody holding a job for it, until a restart, a deletion or its eviction |
| `SendFailures.RestartSettlesEverything` | server.py:4623-4650 | After a restart no message is pending |
| `SendLifecycle.StaleFailureInv` | api/api_chat.py:227-237 | Failing an already answered job keeps the pairing if and only if its message is not pending again |
| `SendFailures.CatchAllCanBreakThePairing` | api/api_chat.py:227-237 | A run from a first start to a catch-all that breaks the pairing |
| `SendDeadlines.StepKeepsDeadlinesExactlyWhen` | server.py:4592-4608 | From every state, every step keeps a deadline on every waiting message, in memory and on disk, if and only if it is no accepted send to a message that once asked for an acknowledgement, has no deadline and asks for no new one |
| `SendDeadlines.DeadlinesKeptExactlyWhen` | server.py:4592-4608 | Over whole runs every waiting message has a deadline at every moment if and only if no step is such a send |
| `SendDeadlines.SettledRunsLoseNoDeadline` | api/api_chat.py:227-237 | A run from a first start, messages to the own node included, whose catch-all fails no message that was queued again or had asked for its acknowledgement, loses no deadline |
| `SendFailures.DeadlineCanBeLost` | api/api_chat.py:227-237 | A run from a first start, through delivery, catch-all, retry and a send that cannot see acknowledgements, to a message waiting without a deadline |
| `SendDelivery.DeliveredOnlyOnProof` | server.py:3767-3800 | In every run every delivered message, in memory or on disk, was delivered at start or had its delivery proved: its own send saw the ACK, or an error-free reply for its packet came from the node its chat names |
| `SendDelivery.RelayAckChangesNothing` | server.py:3786-3789 | An error-free reply from anyone but the destination changes nothing |
| `SendOutcomes.PacketSearchIsExact` | server.py:3855-3876 | The packet search finds the newest message with the id, and None only if there is none |
| `SendOutcomes.ReplyDecides` | server.py:3767-3807 | For the newest message with the packet id, waiting: an error from anyone makes exactly it unconfirmed, an error-free reply of the node its chat names makes exactly it delivered |
| `SendOutcomes.OtherRepliesAreIgnored` | server.py:3767-3807 | Any other reply changes nothing at all |
| `SendOutcomes.ResultDecides` | server.py:4563-4611 | The next job's result settles the newest message of the job exactly as the outcome says, deadline 60 s ahead included, and no other |
| `SendOutcomes.ResultWithoutMessage` | server.py:4563-4611 | A result whose message is gone changes no message |
| `SendOutcomes.CatchAllDecides` | api/api_chat.py:227-237 | One step of the catch-all fails exactly the newest message of the next job |
| `SendOutcomes.SendDecides` | api/api_chat.py:743-767 | Sending files one pending message under the chat, or under the primary channel for the own node, at the end of the capped history, and hands over its one job |
| `SendOutcomes.ReceiveDecides` | server.py:4538-4548 | A received message is filed at the end of the capped history and hands over no job |
| `SendOutcomes.RetryDecides` | api/api_chat.py:804-847 | Retrying a failed own message with text makes exactly it pending and hands over its job |
| `SendOutcomes.RetryOfNothing` | api/api_chat.py:804-847 | Retrying anything else changes nothing |
| `SendOutcomes.JobsAreServedInOrder` | api/api_chat.py:145-240 | Queued jobs are served first in, first out: a step takes at most the front job, and only by applying its result or failing it |
| `SendOutcomes.DeleteDecides` | api/api_chat.py:549-628 | Deleting takes exactly the oldest match from memory if both writes work, and leaves memory alone otherwise |
| `SendOutcomes.DeleteChatsDecides` | server.py:9056-9086 | Deleting chats takes every message of them and no other |
| `SendOutcomes.RestartDecides` | server.py:2021-2029 | A new process has the newest messages of the file in order, pending ones failed, and nothing queued |
| `SendDeadlines.SweepIsExact` | server.py:3826-3852 | After a sweep at t no waiting message has a deadline at or before t, overdue ones are unconfirmed, the others untouched |
| `SendService.Service.UpdateMessageStatus` | server.py:4563-4611 | The reverse search updates exactly the newest matching message and saves only then |
| `SendService.Service.Send` | api/api_chat.py:743-767 | Storing and handing over a message is the `Send` step |
| `SendService.Service.Retry` | api/api_chat.py:804-847 | Retry queues only a failed own message with text, as the `Retry` step, and otherwise changes nothing |
| `SendService.Service.Gather` | api/api_chat.py:199-222 | One queue read of the accumulation window is the `Gather` step |
| `SendService.Service.HandleSendResult` | api/api_chat.py:82-110 | Applying one result is the `HandleResult` step |
| `SendService.Service.MarkNextFailed` | api/api_chat.py:227-237 | One message of the catch-all is the `FailNext` step |
| `SendService.Service.ResolvePendingAck` | server.py:3767-3807 | A routing reply is the `RoutingReply` step; None means nothing changed |
| `SendService.Service.SweepOverdue` | server.py:3837-3850 | The sweep loop is the `Sweep` step, saving only on a change |
| `SendService.Service.ReconcileInterruptedSends` | server.py:4623-4650 | The loop fails exactly the pending messages |
| `SendService.Service.RestartProcess` | server.py:2021-2029 | Loading the file and reconciling is the `Restart` step |
| `ChatRecords.KeepIsExact` | server.py:9042-9042 | Filtering keeps every occurrence of the wanted messages and no other |
| `ChatRecords.VisibleIsNewest` | meshsrv/mca_chat.py:65-71 | The preview comes from the newest message of the chat that is no control frame, None if there is none |
| `ChatRecords.ScanMarksExactlyTheScanned` | meshsrv/mca_chat.py:56-71 | The scan adds markers to the scanned messages and changes nothing else |
| `ChatRecords.ScanChangesNothingExactlyWhen` | meshsrv/mca_chat.py:56-71 | The scan leaves the history alone if and only if no scanned message lacks its marker |
| `ChatRecords.PuttingBackRestoresExactlyWhen` | api/api_chat.py:577-590 | Re-inserting the message after the scan restores the history if and only if the scan added no marker |
| `ChatRecords.PuttingBackCanDiffer` | api/api_chat.py:577-590 | A history on which it does not |
| `ChatPromises.KeepIsInOrder` | server.py:9042-9042 | What a filter keeps stands in its old order |
| `ChatPromises.ClearingErasesTheChatOnly` | server.py:9042-9054 | Clearing leaves no message of the chat and every other message as often and in the same order; the entry keeps its name alone, other entries everything |
| `ChatPromises.DeletingErasesTheChatOnly` | server.py:9074-9086 | Deleting a chat does the same to its messages and removes its entry and no other |
| `ChatPromises.DeletingDmsKeepsTheChannels` | server.py:9504-9526 | Deleting the direct chats keeps exactly the messages of the primary channel and of chats named `channel:...`, and exactly the entries that are the primary channel or do not begin with an exclamation mark |
| `ChatPromises.MarkerNamesTheDeleted` | server.py:9504-9507 | The marker names exactly the entries that were removed |
| `ChatPromises.RefreshShowsTheNewest` | api/api_chat.py:596-622 | A refreshed entry shows text or paperclip, time and timestamp of the newest message that is no control frame, or nothing; unread is 0, other entries stay |
| `ChatPromises.VisibleOrNothing` | meshsrv/mca_chat.py:65-71 | Either some message is the newest visible one or all of the chat are control frames |
| `ChatPromises.DeletingTakesOneMessage` | api/api_chat.py:574-622 | Deleting message k takes that one; the others keep their places, at most a marker is added, and other entries stay |
| `ChatStorage.Store.ClearChat` | server.py:9014-9054 | Succeeds if and only if the writes it needs work. Success: chat emptied, memory and files agree. Failure: memory as before, and the files too once both writes of the rollback work. At every crash point each file holds old or new content |
| `ChatStorage.Store.DeleteChat` | server.py:9056-9086 | Same for deleting a chat |
| `ChatStorage.Store.DeleteAllDm` | server.py:9495-9572 | Same for all direct chats; the marker naming this request's chats is on disk only together with both deletions, at every crash point, and its failed write undoes nothing |
| `ChatStorage.Store.LastVisible` | meshsrv/mca_chat.py:65-71 | The reverse loop computes the scan and leaves the marked history |
| `ChatStorage.Store.DeleteAt` | api/api_chat.py:574-622 | Success: the file holds the history without the message, memory equals it if and only if the deletion is clean. Failure: chats as before, messages as before if and only if it failed before the scan or the deletion is clean. Crash points as above |
| `ChatStorage.Store.DeleteMessage` | api/api_chat.py:549-628 | Finds the oldest match, reports a missing one unchanged, and for clean deletions keeps memory and disk in step or restores memory |
| `ChannelCache.OrderedIsExact` | api/api_chat.py:405-407 | The list holds exactly the last report of every slot |
| `ChannelCache.InvRun` | api/api_chat.py:306-458 | Every run keeps: only the lock's owner is past it and a held lock has one, a reader's copy is still the cached list, cache, back-off and every answer are what the log says, every read was due |
| `ChannelCache.AtMostOneRead` | api/api_chat.py:306-317 | In every reachable state at most one thread reads the radio |
| `ChannelCache.EveryReadWasDue` | api/api_chat.py:326-404 | In every run no read starts inside the back-off of the one before it, nor, on the same connection and not insisted on, before the list that one brought is six hours old, ten minutes for a soft refresh |
| `ChannelCache.EveryAnswerIsUsable` | api/api_chat.py:306-458 | Every list ever returned is non-empty with strictly increasing slots |
| `ChannelCache.EveryAnswerIsTheLastList` | api/api_chat.py:306-458 | In every run every list handed to a caller is what the radio had last listed by then, the answering read included, or the primary channel if nothing was listed |
| `ChannelCache.LastListedIs` | api/api_chat.py:370-458 | What was last listed is the ordered list of the last read that did not raise, or the primary channel if that was empty |
| `ChannelCache.ReadStartsExactlyWhen` | api/api_chat.py:326-368 | In every run a request past the lock reads the radio if and only if it is there, the back-off of the log is over, and the list of the log is missing, of another connection, too old, or not wanted |
| `ChannelCache.LockIsFreeExactlyWhen` | api/api_chat.py:306-317 | In every reachable state the lock is free if and only if no thread is past it |
| `ChannelCache.RequestsEndWithAnAnswer` | api/api_chat.py:306-458 | A step of a request leaves it waiting for the radio or ends it with one more answer and without the lock; other requests stay |
| `ChannelCache.CacheIsTheLastList` | api/api_chat.py:370-458 | In every run the cached list is what the radio last listed: reads that raise never change a non-empty list |
| `ChannelService.Service.Decide` | api/api_chat.py:319-361 | The decision is the `Decide` step; a result is the cached list, or the primary channel, and is recorded as the answer |
| `ChannelService.Service.Arrange` | api/api_chat.py:405-407 | The dict loop and the sort compute the ordered list |
| `ChannelService.Service.FinishRead` | api/api_chat.py:370-458 | The end of a read is the `Finish` step, and its result is recorded as the answer |
| `SlidingWindow.AtMostLimitInAnyWindow` | server.py:5801-5808 | A sorted log whose every limit+1 entries span a window has at most `limit` entries in any window of that length |
| `SlidingWindow.RoomExactlyWhen` | server.py:5801-5808 | Counting the recent entries of a sorted log leaves room if and only if there are fewer than `limit` or the `limit`-th last has left the window |
| `ListenerRecovery.Supervisor.ResolvePaused` | server.py:5640-5692 | The PAUSED tracker's update |
| `ListenerRecovery.Supervisor.HealthTick` | server.py:5695-5961 | One tick updates the recovery state exactly as the step function |
| `ListenerRecovery.AtMostThreeRestartsInAnyWindow` | server.py:5866-5961 | In every run, any half-open 1800 s window holds at most 3 automatic restarts since the last disable |
| `ListenerRecovery.RestartsAreThirtySecondsApart` | server.py:5733-5961 | Over every run, toggling and delay changes included, consecutive restarts are at least 30 s apart |
| `ListenerRecovery.RestartsExactlyWhen` | server.py:5776-5961 | A tick restarts if and only if it is judged down, for as long as the setting says (60 s unless it is 30, 60, 90, 120, 180 or 300), unclaimed, nothing pending, and fewer than three restarts were made since the last disable or the third last is 1800 s ago |
| `ListenerRecovery.RestartOnlyAfterPersistentFailure` | server.py:5849-5884 | A restart follows a recorded down-time at least the configured seconds ago, 60 for a setting that is not offered; that of a tick since which every serial tick was judged LISTENER_DOWN |
| `ListenerRecovery.EveryTickSinceWasDownExactlyWhen` | server.py:5849-5884 | All ticks after the recorded down-time were judged down if and only if each that was not serial came after 180 s of PAUSED without a break |
| `ListenerRecovery.EveryTickSinceWasDownExactlyOnSerial` | server.py:6782-6826 | Where no tick of another transport after it is PAUSED, if and only if all of them were serial |
| `ListenerRecovery.JudgedDownExactlyWhen` | server.py:5640-5692 | A tick is judged down if and only if that is its status or a pause has lasted 180 s without a break |
| `ListenerRecovery.OtherTransportTicksAreInvisible` | server.py:5695-5722 | A run where a healthy tick of another transport lies in between and the restart still happens |
| `ListenerRecovery.PausedRestartOnlyAfterThreeMinutes` | server.py:5640-5692 | A restart on a raw PAUSED status follows at least 180 s of PAUSED without a break |
| `ListenerRecovery.DelayIsTheSetting` | server.py:5737-5745 | The delay is the setting where it is one of the six offered, else 60 |
| `ListenerPromises.StreakHoldsTheTimer` | server.py:5849-5870 | Over an unbroken streak of down ticks the timer stays at its first one |
| `ListenerPromises.PersistentFailureRestartsExactlyWhen` | server.py:5849-5961 | After such a streak a down tick restarts the listener if and only if the configured time has passed since the first one and budget is left |
| `ListenerPromises.PendingIsTheLastRestart` | server.py:5776-5848 | A pending restart is the last one requested |
| `ListenerPromises.PendingExactlyWhen` | server.py:5776-5848 | When a restart is pending after a tick: requested by it, or before it and not ended by recovery, by 60 s, by disabling or by the supervisor |
| `ListenerPromises.DisablingForgets` | server.py:5760-5775 | Switching recovery off clears timer, pending restart and budget |
| `TransportRecovery.Reconnector.HealthTick` | server.py:5963-6182 | One tick of the health loop updates the reconnect state exactly as the step function, TCP ticks not at all |
| `TransportRecovery.AtMostOneReconnectInFlight` | server.py:6052-6111 | In every run at most one reconnect thread is alive and the flag says whether one is |
| `TransportRecovery.AtMostThreeReconnectsInAnyWindow` | server.py:6052-6111 | In every run any half-open 1800 s window holds at most 3 reconnects |
| `TransportRecovery.ReconnectOnlyAfterTwoUnhealthyTicks` | server.py:6052-6111 | Each reconnect ends at least two unhealthy ticks in a row, among those the health loop passes in, with identity not refused, and none was in flight |
| `TransportRecovery.ConsecutiveExactlyWhen` | server.py:7125-7130 | The health loop's own last two ticks were both unhealthy if and only if the one before the reconnect was not a TCP tick |
| `TransportRecovery.TcpTicksAreInvisible` | server.py:7125-7130 | A run where a healthy TCP tick lies between and the reconnect still happens |
| `TransportRecovery.TriggersExactlyWhen` | server.py:6052-6111 | A tick reconnects if and only if the radio is found broken at it and at the tick before, none of TCP's counted, no reconnect was requested without an end since, and fewer than three were made or the third last is 1800 s ago |
| `TransportRecovery.BusyExactlyWhen` | server.py:6052-6111 | The flag is up if and only if a reconnect was requested and no worker has ended since |
| `RateLimiter.Limiter.Allow` | api/api_camera_sources.py:47-55 | Admits exactly when fewer than `limit` calls were admitted so far or the `limit`-th last is more than `window` seconds ago, and keeps the pruned deque |
| `RateLimiter.EveryWindowIsBounded` | api/api_camera_sources.py:41-55 | In every run no closed interval of length `window` holds more than `limit` admitted calls |
| `RateLimiter.Serve` | api/api_camera_sources.py:41-55 | The deque answers every run as the limiter that never forgets |
| `SeenPackets.Tracker.Add` | server.py:1332-1341 | Removing and re-adding keeps the dict ordered by last sighting |
| `SeenPackets.Tracker.Trim` | server.py:1355-1376 | The early-stopping loops leave the newest `maxCount` of all entries within the age limit |
| `SeenPackets.SightingsAreLast` | server.py:1332-1341 | The tracker never trimmed holds exactly the last sighting of every id |
| `SeenPackets.TrimmedTrackerIsExact` | server.py:5132-5143 | After every trim of every run the tracker is the newest `maxCount` of the ids whose last sighting is within the age limit, whatever was trimmed before |
| `SeenPackets.TrimKeepsTheNewest` | server.py:1355-1376 | After every trim of every run: at most `maxCount`, only last sightings within the age limit, and a missing one only if full, none kept being older |
| `SeenPackets.RecentIdIsRemembered` | server.py:1355-1376 | Between trims a young id is forgotten only if at least `maxCount` ids are tracked |
| `DuplicateText.Filter.IsDuplicate` | server.py:4652-4681 | One check answers and updates the table as the step function |
| `DuplicateText.Filter.CleanUp` | server.py:5145-5151 | The clean-up drops what is older than 60 s |
| `DuplicateText.PruningIsInvisible` | server.py:4666-4679 | Every check of every run is answered as by the table never pruned |
| `DuplicateText.RefusedExactlyWhen` | server.py:4652-4681 | A text is refused if and only if it is blank or a copy with its key was accepted less than 15 s before |
| `DuplicateText.TableStaysYoung` | server.py:4666-4679 | A check leaves no entry older than 15 s, forgets no younger one and adds at most its own key; a blank text changes nothing |
| `DuplicateText.AcceptedCopiesAreApart` | server.py:4652-4681 | Accepted copies of one key are at least 15 s apart |
| `DuplicateText.SameKeyExactlyWhen` | server.py:4657-4663 | Two messages share a key if and only if their stripped parts, cut at every bar, are the same pieces |
| `DuplicateText.BarFreeKeysAreInjective` | server.py:4657-4663 | Without bars in senders and node ids, and with both node ids present or both missing, only equal messages share a key |
| `DuplicateText.CopiesExactlyWhen` | server.py:4652-4663 | Such messages are copies if and only if sender, node id and text agree up to whitespace at the ends |
| `DuplicateText.MixedKeysCollideExactlyWhen` | server.py:4657-4663 | With a node id on one side only they share it if and only if the other text begins with that node id and a bar |
| `DuplicateText.KeysCanCollide` | server.py:4657-4663 | Collisions through a bar in a sender and through a bar in a text |
| `Downsample.CollectBuckets` | server.py:9126-9143 | The loop groups exactly the records of each index into its bucket |
| `Downsample.DownsampleHistory` | server.py:9102-9156 | The loops compute the per-bucket averages in index order |
| `DownsampleLaws.NoRecordIsLost` | server.py:9126-9143 | Bucket sizes sum to the number of usable records |
| `DownsampleLaws.AtMostMaxPoints` | server.py:9131-9132 | At most `maxPoints` entries appear |
| `DownsampleLaws.HistoryIsInOrder` | server.py:9145-9154 | Output timestamps strictly increase, for records before `since` too |
| `DownsampleLaws.AverageIsWithinItsBucket` | server.py:9152-9153 | Each average lies between any bounds of its bucket's values; a field is absent exactly when no record had it |
| `DownsampleLaws.AveragesConserveSums` | server.py:9145-9154 | Count-weighted averages of every field sum to the input sum |
| `DownsampleLaws.TimestampsConserveSum` | server.py:9147-9149 | So do the timestamps |
| `DownsampleLaws.GridCoversTheSpan` | server.py:9122-9123 | The buckets reach to now and clamp no record inside the span except one exactly at its end |
| `DownsampleLaws.WidthIsLeast` | server.py:9122-9123 | A bucket is at least a second wide and no wider than it must be to reach to now |
| `DownsampleLaws.BucketCoversItsRecords` | server.py:9131-9132 | A record lies in the bucket that covers its time, or in the first or last one if it is before or behind the grid |
| `Utf8Stream.FeedTracks` | meshsrv/attachments/mime_allowlist.py:299-308 | Feeding a chunk, sequences split at its edges included, is the same as having seen the bytes in one piece |
| `Utf8Stream.CleanMeansEncodedText` | meshsrv/attachments/mime_allowlist.py:310-320 | The bytes pass if and only if they are the UTF-8 encoding of some scalar values |
| `Staging.StagePlain` | api/api_attachments.py:474-520 | Verdict, digest, size, head and text status are those of the received bytes; the file holds them; at most one chunk beyond the cap is read and none written |
| `Staging.StageInMemory` | api/api_attachments.py:523-553 | The encrypting variant reaches the same verdict |
| `Staging.ChunkBoundariesDoNotMatter` | api/api_attachments.py:503-516 | Cutting any chunk in two changes nothing that is received |
| `Staging.AcceptedExactlyWithinTheCap` | api/api_attachments.py:507-511 | Accepted if and only if the total is within 5 MiB; digest and size are those of the bytes, the head their first 512; text is clean if and only if it is NUL-free UTF-8; a broken upload within the cap is broken |
| `SpoolLifecycle.Spool.StageUpload` | api/api_attachments.py:1996-2015 | Staging leaves the temporary file exactly on success, or when it cannot be removed |
| `SpoolLifecycle.Spool.Create` | api/api_attachments.py:1996-2175 | Over all outcomes: which answer is given, if and only if; no other file is touched; a file of the request remains if and only if the submit was fresh, a made file could not be removed, or the JSON check escaped; the published file holds the upload; under the vault no plaintext remains |

## Left out

- Password hashing, SHA-256 and encryption are oracles: a check succeeds or fails, a digest is a function of the bytes, a
  ciphertext stands for its plaintext. Revoked session ids are a set that only grows.
- Cookies of releases without versions are assumed to have been made under the password the file still holds.
- Overlapping requests of one client in the login throttle: the bound is for sequential requests, since the lock check and the
  failure record are separate critical sections.
- PyLiteral: `\N{...}` and surrogate escapes count as undecodable; the printed packets modelled contain neither.
- Log lines, error texts, status texts and UI flags, including the one-time log flags of the supervisors.
- Dict order: deleting a chat and rolling back re-inserts its entry at the end; chats are an unordered map here.
- SendService: node bookkeeping after a send, reply references, input validation of the routes, and the background hold of the
  transport; a batch's results are one per job, as the transport contracts promise.
- Floating-point rounding: `Downsample` and all deadlines are over exact reals.
- Channel ids and labels are functions of slot index and name and are not spelled out; seeding chats from new channels.
- The rollback of the node import, restoring deleted direct chats, identity recovery, the TCP link supervisor, serial port
  supervisor, transport router, adapter IPC, idempotency store, MIME detection, Flask routing, templates, camera, display,
  Wi-Fi, weather and update checks.
