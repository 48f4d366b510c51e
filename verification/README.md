# A verified model of Verlihub's core

Verlihub is a single-threaded hub for the NMDC protocol. This project models the parts of it that
keep promises over whole runs, and proves those promises:

- **Connections** (`conn_poll`, `framing`, `output`, `service`, `async_conn`, `async_server`). The chooser over
  poll(), a connection with its framing and its two output buffers, and the server loop that accepts,
  treats, times out and reaps (`service` says, on values, what one connection goes through).
  Handlers are arbitrary sequences of sends, closes and drops aimed at any connections; what they
  do, and what recv(), send(), accept() and poll() answer, are parameters, and every contract says
  exactly what follows from them.
- **Counters** (`hub_accounts`). Online users, users per zone and the total share, against sums over
  the live connections, through login, MyINFO, zone moves, operator commands and disconnects.
- **Rates** (`proto_flood`, `mean_frequency`). The fixed windows of protocol flood control and the
  circular measure behind the frequency limiter.
- **Messages** (`texts`, `messages`, `messages_roundtrip`, `messages_forms`). The keyword table, the
  splitting by index pairs, the printers, and the form of every text that is accepted.
- **Encodings** (`escape`, `escape_buffer`, `lock_key`, `ipv4`, `host_ban`, `sql_quote`).
- **Lists** (`key_cache`, `reg_list`, `penalty_list`). Registrations and temporary rights, with the
  cache of keys in front of their tables.

Methods follow the functions of the sources; pure functions beside them say what is computed, and
lemmas say what that means. Where a law fails, the exact condition under which it holds is proved:

- The timer closes a nicely closing connection while its deadline is still ahead (`NiceCloseIsEarly`);
  a nicely closing connection is cut off by its next input (`InputEnds`); a full drain never brings
  blocked input back (`DrainKeepsInputBlocked`, `DrainedAndDeaf`); nothing is reaped while poll() reports nothing
  (`TimeStep`); a message above the line limit passes or not depending on how it is cut
  (`OverlongDependsOnTheCut`).
- `cUser::Register` takes the hide flag without correcting the total share. This matters only if a
  plugin discarded a MyINFO before the password came; the total then drifts for good
  (`AcceptPassword`, `DriftOutlivesUser`, `TotalShareIsExact`, `TotalGoesWrong`).
- Flood control lets up to 2 * limit - 1 messages through within one period, and that is reached (`BoundIsReached`).
- After a silence of more than the filled sub-periods, the frequency measure counts what it is given next
  into sub-periods that are about to be dropped (`RecentIsMissed`); it is right about all sub-periods
  inside the window otherwise (`CountAll`).
- Reading a chunk of length -1, as after user information without a size, returns the text read from
  the same chunk of an earlier message (`ChunkString`, `MissingSize`, `StaleSize`).
- Text escaping is undone only without the bytes 5, 96 and 126 and without ready-made entities; buffer
  escaping only without `%DCN` behind a slash or a special byte (the two `RoundTrip` lemmas).
- The key of a lock loses bits when a lock byte has the eighth bit (`KeysAgree`).
- A typed mask range ignores the typed address (`CoversTypedAddress`). The geographical lookup calls it
  with the address itself as the bound, and is right; the ban and search commands do not.
- Switching a lookup cache on does not fill it (`SwitchOn`, `NobodyIsFound`), and a nick that the cache misses can be
  "registered" again without effect (`AddRegUser`). Cleaning one right deletes a nick's other rights
  too (`CleanType`).

Times are integers: microseconds on connections and in the frequency measure, seconds elsewhere. Bytes
are characters. Poll events are three booleans, for the three groups in which the sources set and read
them. The library's string searches are functions. The two overloads of each split, for a character and
for a string, are one method, because a character is a string of length one.

## Model

| member | source | states |
|---|---|---|
| ConnPoll.OptInAdds | src/cconnpoll.cpp:43-68 | Opting in adds exactly the wanted events to the watched ones, except that it lifts a close mark |
| ConnPoll.OptOutRemoves | src/cconnpoll.cpp:70-88 | Opting out removes exactly the named events; an entry left without events is free again, not close-marked |
| ConnPoll.CloseNowMarks | src/casyncconn.cpp:330-339 | The two calls of CloseNow leave a close mark in every entry, and a marked entry is swept whatever poll() reports |
| ConnPoll.SweepFinds | src/cconnpoll.cpp:141-173 | The sweep finds every close-marked entry, of a watched one exactly what poll() has reported, and no free one |
| ConnPoll.ResizeCovers | src/cconnchoose.cpp:94-95 | Growing a table by a quarter makes room for a descriptor exactly from 4 upwards |
| ConnPoll.ConnPoll.OptIn | src/cconnpoll.cpp:43-68 | One entry becomes the opted-in entry, every other entry stays; unknown descriptors are ignored |
| ConnPoll.ConnPoll.OptOut | src/cconnpoll.cpp:70-88 | One entry becomes the opted-out entry, every other entry stays |
| ConnPoll.ConnPoll.AddConn | src/cconnchoose.cpp:87-105 | A slot is taken exactly if it was free; every other slot and every poll entry stays; the new one has an entry exactly if growing by a quarter makes room for it |
| ConnPoll.ConnPoll.DelConn | src/cconnchoose.cpp:107-124 | Slot and poll entry are cleared together, exactly if the slot was taken |
| ConnPoll.ConnPoll.Next | src/cconnchoose.h:223-228 | The next descriptor with something to treat; none in between is passed over |
| ConnPoll.ConnPoll.Begin | src/cconnchoose.h:257-263 | The first descriptor with something to treat |
| ConnPoll.ConnPoll.Choose | src/cconnpoll.cpp:175-204 | The reported events are stored; the count is zero exactly if nothing was reported |
| Framing.FrameOfConcat | src/casyncconn.cpp:256-281 | Framing two pieces one after the other is framing them joined |
| Framing.FrameToSeparator | src/casyncconn.cpp:256-281 | Taking the buffer up to its first separator completes exactly the next message |
| Framing.FrameIsSplit | src/casyncsocketserver.cpp:332-355 | The messages and the tail hold no separator and join to the stream |
| Framing.SplitIsUnique | src/casyncsocketserver.cpp:332-355 | There is no other such split |
| Framing.PipeEnds | src/casyncsocketserver.cpp:339-340 | Messages end at pipes |
| Framing.RunOfReads | src/casyncsocketserver.cpp:332-355 | A run of reads survives exactly if no read ends inside an overlong line; it delivers the split of the whole stream, or a prefix of it in order when cut off |
| Framing.ShortSegmentsShortTails | src/casyncconn.cpp:256-281 | If all segments and the tail are within the limit, no cut of the stream ends a read inside an overlong line |
| Framing.AnyCutDelivers | src/casyncsocketserver.cpp:332-355 | With all segments and the tail within the limit, every way of cutting the stream delivers exactly its split and keeps its tail |
| Framing.OverlongDependsOnTheCut | src/casyncconn.cpp:262-271 | A message above the limit passes if its separator comes in the same read, and closes the connection if it comes in the next |
| Output.WriteConserves | src/casyncconn.cpp:956-1112 | A surviving write loses, invents and reorders no byte; the socket takes bytes in order in any case |
| Output.WriteKeepsValid | src/casyncconn.cpp:956-1112 | The buffers stay within the cap; the poll entry tells live from closed |
| Output.UnflushedIsHalf | src/casyncconn.cpp:970-978 | A write that keeps everything back leaves at most half of the cap |
| Output.ThrottleAfterPartialSend | src/casyncconn.cpp:1047-1088 | After a partial send output is watched, and input is on below the unblock size, off from the fill size, unchanged between |
| Output.OnlyPartialSendUnblocks | src/casyncconn.cpp:1047-1110 | Blocked input comes back exactly through a partial send below the unblock size |
| Output.StepFifo | src/casyncconn.cpp:212-254 | Every event keeps: cap, poll entry, and taken bytes followed by the buffers are the accepted bytes |
| Output.StepNeverRevives | src/casyncconn.cpp:312-339 | No event revives a connection or makes it writable again |
| Output.RunIsFifo | src/casyncconn.cpp:956-1112 | The same over every run of sends, flushes, timers, errors and closes |
| Output.FreshRunIsFifo | src/casyncsocketserver.cpp:257-281 | And so for every run of a new connection |
| Output.ClosedForGood | src/casyncconn.cpp:330-339 | A closed connection stays closed and close-marked, and takes and accepts nothing more |
| Output.NiceCloseIsEarly | src/casyncconn.cpp:934-944 | The timer drops a nicely closing connection with all it holds exactly while its deadline lies ahead, never because it has passed |
| Output.NiceCloseEnds | src/casyncconn.cpp:1041-1112 | A nice close ends when the pending bytes are next offered: all sent, it closes with nothing left; on an error or with nothing sent it closes too; only after a partial send it stays open, with the rest |
| Output.WriteDecides | src/casyncconn.cpp:956-1112 | What a send, a timed flush or a flush on readiness comes to, case by case: closed without taking anything on, only kept, or offered; whether the connection survives, which bytes were taken and which are left, and which events are watched then |
| Output.ClosingDecides | src/casyncconn.cpp:312-339 | A close now leaves everything unsent; a nice one is the same with nothing to send or no deadline, and otherwise only refuses further sends |
| Output.FreshWatches | src/casyncsocketserver.cpp:257-281 | A new connection watches input and errors, and has nothing pending |
| Output.StepKeepsReport | src/cconnpoll.cpp:43-88 | What poll() reported for an entry stays to be treated, whatever is sent or closed before its turn |
| Output.DrainKeepsInputBlocked | src/casyncconn.cpp:1089-1110 | Full sends, however many, never bring blocked input back |
| Output.DrainedAndDeaf | src/casyncconn.cpp:1047-1110 | A new connection that gets there: one partial send that leaves the fill size, then the rest sent in full, and it is alive with empty buffers and its input off |
| Service.ReadOutlasts | src/casyncconn.cpp:341-438 | A read outlasts as many temporary failures as it has tries, and one more; the first other answer decides between bytes, a hang-up, and a TLS hello, which is more than two bytes that start with 0x16 0x03 |
| Service.SentIsSum | src/casyncconn.cpp:440-541 | What the socket takes in one write is the sum of its answers up to the first that is no number of bytes on offer |
| Service.AnswersAmountTo | src/casyncconn.cpp:440-541 | A write ends with everything taken, or with that sum and a temporary or lasting error |
| Service.ReadBrings | src/casyncconn.cpp:369-373 | A read always ends, whatever recv() answers |
| Service.PerformedContinues | src/casyncconn.cpp:312-339 | No operation of a handler revives a connection, and one that ends its service leaves its cause |
| Service.PerformedSound | src/casyncconn.cpp:312-339 | Every operation of a handler keeps the output model's invariant, and what poll() reported |
| Service.ClosedByHandler | src/casyncconn.cpp:312-339 | What a close now, a nice close and a drop by a handler leave of a connection, and the cause they give to the end of its service |
| Service.SentByHandler | src/casyncconn.cpp:956-1112 | What a handler sends is dropped once the connection is not writable, closes it above the cap, is kept back, or is offered: then the socket has taken what its answers add up to, in order |
| Service.FlushedDrains | src/casyncconn.cpp:247-254 | Readiness offers all that is pending: what was taken, what is left, whether output stays watched, and whether the connection survives |
| Service.TickedDrains | src/casyncconn.cpp:934-944 | So does the timer, unless the deadline of a nice close lies ahead: then it closes |
| Service.ReachedCounts | src/casyncsocketserver.cpp:336-352 | Every message that is handed over found the connection served, and the next one did not |
| Service.HandledElsewhere | src/casyncsocketserver.cpp:343-346 | Handlers leave a connection that none of their operations is aimed at as it was |
| Service.HandledOn | src/casyncsocketserver.cpp:336-352 | Handlers one after the other are one longer handler |
| Service.ReachedAll | src/casyncsocketserver.cpp:336-352 | Only a handler that ends the service keeps later messages of a read from being handed over |
| Service.InputServes | src/casyncsocketserver.cpp:332-355 | A served connection is still served after its input exactly if the read brought bytes, no handler of their messages ends the service, and the rest is no overlong line; then all these messages are handed over and the rest is kept |
| Service.InputHandsOver | src/casyncsocketserver.cpp:332-355 | The bytes of a read are handed over message by message, and only a handler that ended the service keeps the next one back |
| Service.InputEnds | src/casyncsocketserver.cpp:468-471 | Input ends a connection that is closing nicely, whose read brings no bytes, or whose rest is an overlong line; only in the last case anything is read or handed over |
| Service.HeardIsReported | src/cconnpoll.cpp:175-204 | A report changes nothing else, and is what the sweep then finds of a live connection |
| Service.TakenInStep | src/casyncsocketserver.cpp:332-355 | One more read through any handlers keeps a connection in step with the framing model over all its reads |
| Service.TurnInStep | src/casyncsocketserver.cpp:434-480 | Every turn of a client does, with hang-ups, errors, closes and output in it |
| Service.ServedUntilEnded | src/casyncsocketserver.cpp:332-355 | The service law: unless a handler, its output or its peer has ended the service, a connection in step is served exactly if no read ended inside an overlong line, and then has been handed exactly the messages of its stream and keeps its tail |
| AsyncConns.AsyncConn.CloseNow | src/casyncconn.cpp:330-339 | Dead, not writable, close-marked, and no other poll entry touched |
| AsyncConns.AsyncConn.CloseNice | src/casyncconn.cpp:312-328 | Closes at once without anything to send, else sets the deadline and stops writing |
| AsyncConns.AsyncConn.ReadAll | src/casyncconn.cpp:341-438 | What recv() answers decides: bytes end up in the drained shared buffer, and a hang-up, an error that stays, or a TLS hello close the connection |
| AsyncConns.AsyncConn.SetLineToRead | src/casyncconn.cpp:283-296 | An empty line is ready to be filled up to the limit |
| AsyncConns.AsyncConn.ClearLine | src/casyncconn.cpp:298-305 | No line is being read |
| AsyncConns.AsyncConn.ReadLineLocal | src/casyncconn.cpp:256-281 | One step of framing: a completed message and the rest, or the whole rest added to the line, or closed exactly if that would exceed the limit |
| AsyncConns.AsyncConn.SendAll | src/casyncconn.cpp:440-541 | The socket has taken exactly what its answers amount to, in order |
| AsyncConns.AsyncConn.SendBuffered | src/casyncconn.cpp:1041-1112 | Buffers, deadline and poll entry after the send are those of the output model for the outcome of these answers; `WriteDecides` and `NiceCloseEnds` say what that is |
| AsyncConns.AsyncConn.Write | src/casyncconn.cpp:956-1112 | The whole effect is the write step of the output model; the result is the bytes taken, or -1 on a hard error |
| AsyncConns.AsyncConn.Flush | src/casyncconn.cpp:247-254 | Nothing when both buffers are empty, else a write of nothing that flushes |
| AsyncConns.AsyncConn.WriteOut | src/casyncsocketserver.cpp:357-361 | Output readiness is the flush step of the output model; if it ends the service, it is for the output |
| AsyncConns.AsyncConn.OnTimerBase | src/casyncconn.cpp:934-944 | The timer step of the output model |
| AsyncConns.AsyncConn.Perform | src/casyncconn.cpp:312-339 | A send, a close now, a nice close or a drop by a handler is exactly the step of the model, with the cause it gives to an end of the service |
| AsyncServer.AsyncSocketServer.OneMoved | src/casyncsocketserver.cpp:257-330 | An operation on one connection and its own poll entry keeps the invariant of all connections, and leaves all others where they were |
| AsyncServer.AsyncSocketServer.Perform | src/casyncconn.cpp:312-339 | A handler's operation keeps the server's invariant, does exactly what the model says to its connection, and nothing to any other |
| AsyncServer.AsyncSocketServer.RunHandler | src/casyncsocketserver.cpp:363-411 | Any sequence of operations on any connections keeps the invariant, and leads every connection exactly where the model says |
| AsyncServer.AsyncSocketServer.InputStep | src/casyncsocketserver.cpp:336-351 | One turn of the input loop hands over the next message of the split to its handler, or takes in the unfinished rest, or closes exactly if that is overlong; the buffer gets shorter |
| AsyncServer.AsyncSocketServer.InputLoop | src/casyncsocketserver.cpp:338-352 | Terminates; hands over exactly the messages up to the first whose handler ends the service, and keeps or cuts off the rest; every other connection is where these handlers have led it |
| AsyncServer.AsyncSocketServer.Input | src/casyncsocketserver.cpp:332-355 | What one read makes of the connection is exactly what the model makes of the bytes and the handlers, and nothing is handed over without bytes |
| AsyncServer.AsyncSocketServer.TreatInput | src/casyncsocketserver.cpp:468-471 | The input part of a turn is that of the model; a read without bytes ends the connection |
| AsyncServer.AsyncSocketServer.FlushOf | src/casyncsocketserver.cpp:473-474 | Output readiness is a flush step of the output model, and touches nobody else |
| AsyncServer.AsyncSocketServer.TreatClient | src/casyncsocketserver.cpp:468-474 | Input and output of a turn are exactly those of the model; `SweepDelivers`, `SweepDrains` and `SweepServesAndDrains` say what that is |
| AsyncServer.AsyncSocketServer.OnTimerBase | src/casyncsocketserver.cpp:390-405 | The timer walk, with any handlers, keeps the invariant; a connection that none of them aims at has exactly its own tick |
| AsyncServer.AsyncSocketServer.TimerDrains | src/casyncconn.cpp:934-944 | A tick drains as readiness does, unless the deadline of a nice close lies ahead: then it closes with everything unsent |
| AsyncServer.AsyncSocketServer.DelConnection | src/casyncsocketserver.cpp:283-330 | Frees the connection once and takes it out of list and chooser together; the one under treatment is only marked dead; all others are as they were |
| AsyncServer.AsyncSocketServer.StillSeated | src/casyncsocketserver.cpp:283-330 | Every other connection keeps its slot and its place in the list, and is as it was |
| AsyncServer.AsyncSocketServer.Seat | src/casyncsocketserver.cpp:257-281 | A new connection is in the list and in its chooser slot, watching input and errors |
| AsyncServer.AsyncSocketServer.NewIsIdle | src/casyncsocketserver.cpp:257-281 | A new connection is served, watches input and errors, and has neither read nor sent anything |
| AsyncServer.AsyncSocketServer.ListenWithConn | src/casyncsocketserver.cpp:677-705 | The socket is in the listening list and in its chooser slot, watching input and errors; no connection moves |
| AsyncServer.AsyncSocketServer.Listen | src/casyncsocketserver.cpp:483-498 | A listening socket joins exactly if the system has a free descriptor for it |
| AsyncServer.AsyncSocketServer.CloseZero | src/casyncconn.cpp:155-157 | The close of the listener's unopened descriptor marks slot 0, and moves no connection |
| AsyncServer.AsyncSocketServer.Greet | src/casyncsocketserver.cpp:279-280 | The greeting leads every connection where the model says; the new one is freed exactly if it is turned away |
| AsyncServer.AsyncSocketServer.AddConnection | src/casyncsocketserver.cpp:257-281 | A connection is freed exactly if it was refused, or greeted and turned away, and listed else, where its greeting has led it |
| AsyncServer.AsyncSocketServer.AcceptAll | src/casyncsocketserver.cpp:448-466 | Accepts as long as the system hands over connections, up to one more than the limit; each is listed or freed as its arrival says, and all old ones are where the greetings have led them |
| AsyncServer.AsyncSocketServer.EndTurn | src/casyncsocketserver.cpp:476-479 | Freed exactly if dead, reported in error or close-marked; everybody else is as before |
| AsyncServer.AsyncSocketServer.TurnOfClient | src/casyncsocketserver.cpp:434-480 | A client comes out of its turn exactly as the model says: listed or freed, what it has read, been handed and still holds, and why its service ended; everybody else where its handlers have led them |
| AsyncServer.AsyncSocketServer.TurnOfListener | src/casyncsocketserver.cpp:448-466 | A listening socket reported ready accepts, and is an ordinary member again |
| AsyncServer.AsyncSocketServer.DeadIsFound | src/cconnpoll.cpp:141-173 | Every dead connection of the list passes the sweep's test and reports close |
| AsyncServer.AsyncSocketServer.SweepStep | src/casyncsocketserver.cpp:428-480 | The client or listener on this descriptor has its turn, the next stop is the next descriptor reported, and nobody else leaves |
| AsyncServer.AsyncSocketServer.Sweep | src/casyncsocketserver.cpp:428-481 | Sockets are visited in ascending order, each at most once; everybody reported is visited; nobody else reads, is handed a message or is freed; all the dead are freed; listed exactly if not freed; and a connection that no other turn aims at comes out exactly as its own turn leaves it |
| AsyncServer.AsyncSocketServer.TimeStep | src/casyncsocketserver.cpp:412-481 | Keeps the server's invariant: listed exactly if in its slot, freed at most once, output in a state of the output model, and in step with its stream. If poll() reports nothing nothing happens, not even to dead connections, else there is a sweep of what it reported |
| AsyncServer.AsyncSocketServer.Reported | src/cconnpoll.cpp:175-204 | A report of poll() keeps the invariant |
| AsyncServer.AsyncSocketServer.ServedExactly | src/casyncsocketserver.cpp:332-481 | After any run of the server: unless a handler, its output or its peer has ended its service, a connection is served exactly if no read ended inside an overlong line, and then has been handed exactly the messages of its stream |
| AsyncServer.AsyncSocketServer.SweepDelivers | src/casyncsocketserver.cpp:428-481 | A sweep delivers: served, undisturbed, with bytes that end in no overlong line and handlers that leave it served, a connection stays listed and served and is handed all messages its bytes complete |
| AsyncServer.AsyncSocketServer.SweepDrains | src/casyncsocketserver.cpp:473-474 | A sweep drains: with only output reported, the socket is handed what it takes of the pending bytes, in order. The connection stays if all was sent and it was not closing nicely, or if the socket was busy and took something or it was not closing nicely; it keeps the rest, and output is watched exactly while there is one |
| AsyncServer.AsyncSocketServer.SweepServesAndDrains | src/casyncsocketserver.cpp:468-474 | With input in the same turn, its messages are handed over first, and what their handlers have left pending is drained |
| AsyncServer.AsyncSocketServer.SweepReaps | src/casyncsocketserver.cpp:468-479 | A sweep frees a connection that is reported in error or close-marked, is dead, or has input while it is closing nicely or that brings no bytes |
| AsyncServer.AsyncSocketServer.AcceptsOn | src/casyncsocketserver.cpp:448-466 | Accepting stops early only at a descriptor in use or out of range; each connection that came is listed exactly if it was neither refused nor turned away |
| HubAccounts.UnderIsAtMostUsers | src/cdcproto.cpp:608 | Users admitted under a limit are at most all users |
| HubAccounts.ShareOfPrinted | src/cdcproto.cpp:1071-1083 | A size of at most 18 digits counts as its number, whatever zeros stand in front, and with a minus sign as 2^64 less that number |
| HubAccounts.ShareOfNumber | src/cdcproto.cpp:1071-1083 | The decimal text of every number below 10^18 counts as that number |
| HubAccounts.ShareOfOther | src/stringutils.cpp:351-365 | Every other text counts nothing: the empty one, more than 18 characters, or a character that is no digit |
| HubAccounts.ShareOfNegative | src/cdcproto.cpp:1071-1083 | A size of -5 passes the number test and counts as 2^64 - 5 bytes |
| HubAccounts.MatchAdmit | src/cdcproto.cpp:663-667 | Counting a user that was not counted, under its limit, keeps all counters equal to the sums |
| HubAccounts.MatchMove | src/cconndc.cpp:656-675 | Moving a counted user between zones keeps them equal, and the zone left is not empty |
| HubAccounts.MatchShare | src/cdcproto.cpp:1080-1088 | Subtracting the old and adding the new visible share keeps the total right modulo 2^64 |
| HubAccounts.MatchLeak | src/cuser.cpp:129-159 | Hiding a share behind the counter's back shifts the total by exactly that share |
| HubAccounts.DriftOutlivesUser | src/cconndc.cpp:604-610 | Such a share stays in the total when its user leaves |
| HubAccounts.MatchRemove | src/cconndc.cpp:594-624 | Taking one connection out of all counters keeps them equal and never underflows a user count |
| HubAccounts.WhoIsAsked | src/cconndc.cpp:163-314 | Who counts as which class, and who is asked for a password: enabled users, a master in any case, never a pinger; while a new password is due, only those who have one and if that is set |
| HubAccounts.ExtraPlaces | src/cdcproto.cpp:589-602 | Each class has its own extra places |
| HubAccounts.Hub.OneMoved | src/cdcproto.cpp:558-753 | An operation on one connection leaves all other accounts as they are |
| HubAccounts.Hub.Admit | src/cdcproto.cpp:663-667 | Counts a connection that has not been counted |
| HubAccounts.Hub.ResetGeo | src/cconndc.cpp:656-675 | The zone move keeps every counter the sum over live connections |
| HubAccounts.Hub.ValidateNick | src/cdcproto.cpp:558-753 | However it ends the counters are the sums. Counted exactly if a first attempt with a fine nick finds hub and zone not full for its class; served afterwards exactly if all later checks pass too, and then with its user, the password flag unless a password is needed, and the flag that refuses a second attempt |
| HubAccounts.Hub.AdmitOrClose | src/cdcproto.cpp:587-667 | Refused exactly below operator class with the hub or its zone at its limit, extra places included |
| HubAccounts.Hub.AcceptPassword | src/cdcproto.cpp:755-879 | The hide flag of the registration is taken without correcting the total: the total drifts by exactly that share, and only after a discarded MyINFO |
| HubAccounts.Hub.MyPass | src/cdcproto.cpp:755-879 | The counters match through every outcome; closed, and the password flag set, exactly when the source says; the total drifts exactly by a share that the right password hides |
| HubAccounts.Hub.CountShare | src/cdcproto.cpp:1071-1088 | The share is what the size text counts; old share out of the total, new share in, neither while hidden: the total stays the sum |
| HubAccounts.Hub.MyInfo | src/cdcproto.cpp:994-1495 | The total is the sum however the message ends, also when it is rejected after the update; a message dropped by flood control changes nothing |
| HubAccounts.Hub.SetHideShare | src/cdcconsole.cpp:3624-3638 | Hiding takes an online user's share out of the total, showing puts it in, and the total stays the sum |
| HubAccounts.Hub.Unregister | src/cdcconsole.cpp:3487-3495 | Unregistering shows the share and adds it to the total |
| HubAccounts.Hub.Connect | src/casyncsocketserver.cpp:257-281 | A new connection adds nothing to any counter |
| HubAccounts.Hub.DeleteConn | src/cconndc.cpp:594-624 | Takes back exactly what the connection had contributed |
| HubAccounts.Hub.TotalShareIsExact | src/cdcproto.cpp:1080-1088 | The total is the sum of visible shares exactly if nothing has drifted |
| HubAccounts.Hub.ShareNeverUnderflows | src/cconndc.cpp:604-610 | While the sum fits 64 bits, the total is never less than what a leaving or changing user takes out of it |
| HubAccounts.TotalGoesWrong | src/cdcproto.cpp:829-832 | The run that makes it wrong: a discarded MyINFO before the right password of a user with a hidden share leaves 5 bytes in a total that should be 0 |
| HubAccounts.Hub.AdmittedWithinLimit | src/cdcproto.cpp:587-667 | Users admitted under a limit, or a smaller one, never exceed it |
| ProtoFlood.PassedInWindow | src/cconndc.cpp:429-448 | Within a window exactly what the counter still allows gets through |
| ProtoFlood.WindowLetsLimitThrough | src/cconndc.cpp:429-448 | A window lets exactly its first `limit` messages through |
| ProtoFlood.PassedInInterval | src/cconndc.cpp:429-448 | Whatever came before, at most twice the limit gets through in an interval of one period |
| ProtoFlood.RunPassesUnderTwiceLimit | src/cconndc.cpp:429-448 | In every run, any stretch of one period lets at most 2 * limit - 1 messages through |
| ProtoFlood.BoundIsReached | src/cconndc.cpp:429-448 | That bound is reached for every limit and period |
| ProtoFlood.RunReportsAreSpaced | src/cconndc.cpp:530-565 | Any two flood reports of a run are at least the report time apart |
| ProtoFlood.OverLimitIsDropped | src/cconndc.cpp:428-565 | Behind the first `limit` messages of a window every one is dropped, unless the action is 0 |
| ProtoFlood.DropsAreReported | src/cconndc.cpp:447-565 | No flood goes unreported: a dropped message is reported itself, or another one was less than the report time before it |
| ProtoFlood.AllPass | src/cconndc.cpp:428-565 | Without limit or period, and with action 0, nothing is dropped |
| ProtoFlood.FloodControl.CheckProtoFlood | src/cconndc.cpp:320-566 | One message moves the slot of its type as the model does, and no other; exempt classes are not counted; a dropped message closes from action 2 on, and bans from action 3 on |
| MeanFrequency.OldestStep | src/cmeanfrequency.h:127-139 | One sub-period more adds exactly the data held in its slot |
| MeanFrequency.OldestAtMostInserted | src/cmeanfrequency.h:127-139 | If all that is counted is recent, the count is at most what was inserted recently |
| MeanFrequency.Frequency.Reset | src/cmeanfrequency.h:174-184 | All slots are empty and the window starts now |
| MeanFrequency.Frequency.Shift | src/cmeanfrequency.h:164-172 | Exactly the oldest sub-period is dropped, and one filled one less is left, if there was any; every other event keeps the sub-period it went to |
| MeanFrequency.Frequency.Adjust | src/cmeanfrequency.h:141-162 | Terminates with the window reaching to the time, by the fewest steps, dropping exactly the events of the skipped sub-periods; how many filled ones are left, and where the one being filled ends |
| MeanFrequency.Frequency.ShiftUpTo | src/cmeanfrequency.h:151 | The loop of shifts stops as soon as the window reaches the time; each step takes a filled sub-period away, as long as there is one |
| MeanFrequency.Frequency.FillUpTo | src/cmeanfrequency.h:153-160 | The fewest sub-periods are filled that reach the time, or all of them; the end of the one being filled moves along |
| MeanFrequency.Frequency.Insert | src/cmeanfrequency.h:102-108 | The event is added once, to the sub-period being filled, after the window was adjusted |
| MeanFrequency.Frequency.CountAll | src/cmeanfrequency.h:127-139 | Told by times: everything inserted into a sub-period that ended after the window's start and before the one being filled is counted, and nothing else while the window has not overtaken the sub-periods; in any case at most what was inserted in the last two periods |
| MeanFrequency.Frequency.SumFilled | src/cmeanfrequency.h:130-138 | The loop over the circle sums exactly the oldest filled slots |
| MeanFrequency.Frequency.CountIsOnTimes | src/cmeanfrequency.h:127-139 | The same for the sum of the filled slots, in every reachable state |
| MeanFrequency.Frequency.HeldOnTimes | src/cmeanfrequency.h:141-172 | An insertion is counted if its sub-period ends inside the window and before the one being filled, and only if it ends behind the filled ones and before it |
| MeanFrequency.RecentIsMissed | src/cmeanfrequency.h:141-172 | After a silence an insertion goes into the oldest sub-period: a run in which a count misses what was inserted one microsecond before |
| MeanFrequency.FreqLimiter.Check | src/cfreqlimiter.h:73-80 | Too soon exactly by the minimum delay; too many whenever more than the maximum went into sub-periods that are over and inside the window, and only then while the window has not overtaken them; never during the first sub-period |
| Texts.FindCuts | src/cprotocol.cpp:127-150 | Searching on from a position finds where the rest of the text is cut at its first delimiter |
| Texts.FindLastCuts | src/cprotocol.cpp:152-175 | Searching back from the end finds where the rest is cut at its last delimiter |
| Texts.CutJoined | src/cprotocol.cpp:127-150 | A joined text is cut where it was joined exactly if no delimiter begins earlier or straddles the joint |
| Messages.TwoCommands | src/cmessagedc.cpp:32-73 | No command of the table is a prefix of another, except the active searches of the passive ones, which come first |
| Messages.FirstIsLongest | src/cmessagedc.cpp:106-117 | The first keyword that fits is the longest one that fits |
| Messages.TypeIsUnique | src/cmessagedc.cpp:90-119 | No text has two types |
| Messages.KeywordGivesType | src/cmessagedc.cpp:90-119 | A text has the type of a keyword it starts with exactly if it does not start as the passive form of the same search |
| Messages.SplitTail | src/cprotocol.cpp:127-175 | A chunk that runs to the end of the message is split where its text is cut, from either side, also when it is empty |
| Messages.SplitStart | src/cprotocol.cpp:152-182 | A chunk that ends earlier is split exactly if the cut lies within it or the chunk is empty |
| Messages.ReceiverIsLast | src/cmessagedc.cpp:146-189 | The receiver of a search result is what follows its last delimiter |
| Messages.MessageParser.ReInit | src/cprotocol.cpp:65-79 | Everything is forgotten but the texts that were read from chunks |
| Messages.MessageParser.Parse | src/cmessagedc.cpp:90-119 | The type is that of the longest keyword the text starts with, or none fits |
| Messages.MessageParser.SplitOnTwo | src/cprotocol.cpp:127-175 | Both chunks are set from the place of the split, or neither |
| Messages.MessageParser.SplitChunk | src/cprotocol.cpp:177-188 | The same for a chunk, its length read as an unsigned word |
| Messages.MessageParser.CutEnd | src/cprotocol.cpp:177-188 | A chunk that runs to the end becomes the two halves of its text, or nothing changes |
| Messages.MessageParser.CutWithin | src/cprotocol.cpp:177-188 | A shorter chunk becomes the two halves of the rest of the message, if the cut lies within it |
| Messages.MessageParser.ChunkRedLeft | src/cprotocol.cpp:191-202 | The start moves unless it would reach the end of the message |
| Messages.MessageParser.SplitTwice | src/cmessagedc.cpp:130-138 | Connect requests, short searches and MCTo (section "MCTo" of the NMDC specification): the error flag is set exactly if a delimiter is missing, and the chunks show the pieces |
| Messages.MessageParser.SplitPrivate | src/cmessagedc.cpp:331-346 | Private messages: receiver, sender, signed text, signature and text, or the error flag |
| Messages.MessageParser.SplitMyInfo | src/cmessagedc.cpp:258-285 | User information: all seven pieces, or six and a size chunk of length -1, or the error flag |
| Messages.MessageParser.SplitActive | src/cmessagedc.cpp:209-231 | Active search: address, host, port, query, limits and pattern, or the error flag |
| Messages.MessageParser.SplitPassive | src/cmessagedc.cpp:191-207 | Passive search: nick, query, limits and pattern, or the error flag |
| Messages.MessageParser.SplitResult | src/cmessagedc.cpp:146-189 | Search result: the eight pieces with or without a size, or the error flag; the receiver's chunk ends the message |
| Messages.MessageParser.SplitForceMove | src/cmessagedc.cpp:360-378 | Forced move: nick, destination and reason behind their skipped tags, or the error flag |
| Messages.MessageParser.SplitTempBan | src/cmessagedc.cpp:401-408 | Temporary ban: nick, reason and time, or the error flag |
| Messages.MessageParser.SplitChunks | src/cmessagedc.cpp:125-427 | For every type of message the chunks show exactly its pieces, and the error flag is set exactly if it has none |
| Messages.MessageParser.ChunkString | src/cprotocol.cpp:100-124 | Total: the stretch of the text, cut short at its end; a chunk outside the text yields what was last read from that chunk, of whichever message |
| Messages.MessageParser.ForwardResult | src/cdcproto.cpp:3036-3038 | The forwarded result, the delimiter and the receiver make up the message |
| MessageRoundTrips.TwoCutsRejoin | src/cmessagedc.cpp:130-138 | The pieces of connect requests, short searches and MCTo make up the text |
| MessageRoundTrips.PrivateRejoins | src/cmessagedc.cpp:331-346 | The pieces of a private message make up the text |
| MessageRoundTrips.MyInfoRejoins | src/cmessagedc.cpp:258-285 | The pieces of user information with a size make up the text, with two characters before the speed and one behind the size |
| MessageRoundTrips.ActiveRejoins | src/cmessagedc.cpp:209-231 | The pieces of an active search make up the text |
| MessageRoundTrips.CreateMyInfo | src/cdcproto.cpp:4310-4326 | Prints the fields with their delimiters |
| MessageRoundTrips.CreatePrivate | src/cdcproto.cpp:4363-4376 | Prints a private message |
| MessageRoundTrips.CreateConnectToMe | src/cdcproto.cpp:4526-4538 | Prints a connect request |
| MessageRoundTrips.CreateSearch | src/cdcproto.cpp:4540-4550 | Prints a search |
| MessageRoundTrips.CreateHashSearch | src/cdcproto.cpp:4552-4565 | Prints a hash search, active or passive |
| MessageRoundTrips.CreateShortActive | src/cdcproto.cpp:4567-4576 | Prints a short active search |
| MessageRoundTrips.CreateShortPassive | src/cdcproto.cpp:4578-4587 | Prints a short passive search |
| MessageRoundTrips.MyInfoRoundTrip | src/cmessagedc.cpp:258-285 | Printed and parsed, type and fields come back exactly if the nick is free of spaces and description, speed and mail of dollars, whatever the size |
| MessageRoundTrips.PrivateRoundTrip | src/cmessagedc.cpp:331-346 | They come back exactly if no delimiter begins in, or straddles the end of, receiver, sender and signature |
| MessageRoundTrips.ConnectRoundTrip | src/cmessagedc.cpp:130-138 | They come back exactly if the nick is free of spaces and the address of colons |
| MessageRoundTrips.SearchRoundTrip | src/cmessagedc.cpp:209-231 | They come back exactly if the host is not `Hub`, host and port are free of spaces, the host of colons, the pattern of question marks |
| MessageRoundTrips.HashSearchRoundTrip | src/cdcproto.cpp:4552-4565 | The short passive search is always passive, and comes back exactly without space in the nick and question mark in the hash |
| MessageRoundTrips.ShortActiveRoundTrip | src/cmessagedc.cpp:233-245 | It comes back exactly without space in the hash and colon in the host |
| MessageRoundTrips.ShortPassiveRoundTrip | src/cmessagedc.cpp:247-256 | It comes back exactly without space in the hash |
| MessageRoundTrips.MissingSize | src/cprotocol.cpp:205-209 | User information that ends with the mail's delimiter is accepted without a size |
| MessageRoundTrips.StaleSize | src/cprotocol.cpp:113-121 | The size of such a message is read as the text last read from that chunk, of an earlier message of the connection |
| MessageRoundTrips.MyInfoThroughParser | src/cmessagedc.cpp:258-285 | Printing, parsing, splitting and reading the chunks returns type and fields of a user's information |
| MessageRoundTrips.PrivateThroughParser | src/cmessagedc.cpp:331-346 | The same for a private message |
| MessageRoundTrips.ConnectThroughParser | src/cmessagedc.cpp:130-138 | The same for a connect request |
| MessageRoundTrips.SearchThroughParser | src/cmessagedc.cpp:209-231 | The same for an active search |
| MessageRoundTrips.HashSearchThroughParser | src/cmessagedc.cpp:191-207 | The same for a passive hash search |
| MessageRoundTrips.ShortActiveThroughParser | src/cmessagedc.cpp:233-245 | The same for a short active search |
| MessageRoundTrips.ShortPassiveThroughParser | src/cmessagedc.cpp:247-256 | The same for a short passive search |
| MessageForms.ClientCommands | src/cmessagedc.cpp:32-73 | The keywords of commands that are split at delimiters |
| MessageForms.MoreClientCommands | src/cmessagedc.cpp:32-73 | More of them |
| MessageForms.OtherCommands | src/cmessagedc.cpp:32-73 | The rest of them |
| MessageForms.LoginCommands | src/cmessagedc.cpp:32-73 | The keywords of commands with one parameter |
| MessageForms.OperatorCommands | src/cmessagedc.cpp:32-73 | The rest of them |
| MessageForms.CommandsWithNone | src/cmessagedc.cpp:32-73 | The keywords of commands without a parameter |
| MessageForms.SearchesAndChat | src/cmessagedc.cpp:32-73 | Those of active searches, unless they go on as passive ones, and of chat |
| MessageForms.OneParameter | src/cmessagedc.cpp:299-320 | The parameter is everything behind the keyword |
| MessageForms.MultiAreSplitAlike | src/cmessagedc.cpp:128-231 | The commands to several hubs are split as their single counterparts |
| MessageForms.TwoPiecesBack | src/cmessagedc.cpp:140-144 | Two pieces come back exactly if the delimiter neither begins in the first nor straddles its end: a space, a dollar, or "> " in chat |
| MessageForms.TwoPiecesOrNone | src/cprotocol.cpp:127-150 | Such a text is refused exactly if the delimiter is not in it |
| MessageForms.CreateChat | src/cdcproto.cpp:4341-4350 | Prints a chat message |
| MessageForms.ChatRoundTrip | src/cmessagedc.cpp:348-352 | Printed and parsed, nick and text come back exactly if no "> " begins in the nick or straddles its end |
| MessageForms.ChatThroughParser | src/cmessagedc.cpp:348-352 | Printing, parsing, splitting and reading the chunks returns them |
| MessageForms.ThreePartsOrNone | src/cmessagedc.cpp:130-138 | Connect requests, short searches, MCTo and temporary bans are refused exactly if their two delimiters do not occur one behind the other |
| MessageForms.AddressBack | src/cmessagedc.cpp:130-138 | Nick and address come back exactly without space in the nick and colon in the host |
| MessageForms.McToBack | src/cmessagedc.cpp:380-393 | Receiver, sender and text come back exactly if no " $" begins in or straddles the receiver and the sender is free of spaces |
| MessageForms.TempBanBack | src/cmessagedc.cpp:401-408 | Nick, time and reason come back, the reason first, exactly without dollar in nick and time |
| MessageForms.ForceMoveBack | src/cmessagedc.cpp:360-378 | Nick, destination and reason come back behind six and four skipped characters, exactly without dollar in nick and destination; without a reason the text is refused |
| MessageForms.ForceMoveRefused | src/cmessagedc.cpp:360-378 | It is refused too without one of the two delimiters, or with no more than six characters behind the first |
| MessageForms.PrivateOrNone | src/cmessagedc.cpp:331-346 | A private message is refused exactly if its three delimiters do not occur one behind the other |
| MessageForms.MyInfoOrNone | src/cmessagedc.cpp:258-285 | User information is accepted exactly with two spaces, a dollar with more than two characters behind it, and two more dollars behind those two |
| MessageForms.ActiveOrNone | src/cmessagedc.cpp:209-231 | An active search with an address is accepted exactly if the colon is in the address and a question mark behind it |
| MessageForms.EmptyAddress | src/cmessagedc.cpp:209-231 | With an empty address, host and port are those around the first colon anywhere |
| MessageForms.PassiveOrNone | src/cmessagedc.cpp:191-207 | A passive search is accepted exactly with a question mark behind its first space |
| MessageForms.FileResultBack | src/cmessagedc.cpp:146-189 | All eight pieces of a file's result come back exactly without space in sender and size, slash in the free slots, and delimiter in front of the hub or in the receiver |
| MessageForms.DirectoryResultBack | src/cmessagedc.cpp:146-189 | Those of a directory's result come back exactly without space in the sender, and delimiter in path, hub and receiver |
| MessageForms.ResultOrNone | src/cmessagedc.cpp:146-189 | Which results are refused |
| MessageForms.EmptyHub | src/cmessagedc.cpp:146-189 | With an empty hub the receiver is searched for size and slots |
| Escaping.EntityIsCode | src/cdcproto.cpp:4957-4974 | Entities name the characters by their codes in decimal |
| Escaping.EscapeChars | src/cdcproto.cpp:4957-4974 | Terminates; every special is replaced by its entity, nothing else changes, and none is left |
| Escaping.UnEscapeChars | src/cdcproto.cpp:4895-4911 | Terminates; every entity of the dollar, then of the pipe, is replaced, from the left |
| Escaping.ReplacedBehindEscaped | src/cdcproto.cpp:4895-4974 | Undoing one character's entities behind the escaping is undoing the ready-made ones first and not escaping that character |
| Escaping.EscapeThenUnescape | src/cdcproto.cpp:4895-4974 | What escaping and unescaping make of any text |
| Escaping.RoundTrip | src/cdcproto.cpp:4895-4974 | The text comes back exactly if it holds none of the bytes 5, 96 and 126 and no ready-made entity of dollar or pipe |
| BufferEscaping.CodeIsNumber | src/cdcproto.cpp:4976-5018 | A code names its byte by its number in decimal, filled up to three digits |
| BufferEscaping.EscapeBuffer | src/cdcproto.cpp:4976-5018 | Every special byte becomes its code of three digits, every other byte stays |
| BufferEscaping.UnEscapeBuffer | src/cdcproto.cpp:4913-4955 | Terminates within the buffer; the loop over starts and ends computes the decoder |
| BufferEscaping.AtoiReads | src/cdcproto.cpp:4939 | A number is read behind white space and a sign, up to the first other character, and as 0 without a digit |
| BufferEscaping.ByteIsCut | src/cdcproto.cpp:4939-4940 | It is cut down to its lowest eight bits |
| BufferEscaping.StartDecoded | src/cdcproto.cpp:4931-4946 | In any text: a start with its end at most three characters behind it becomes the byte of the number between them, one with its end further away is dropped up to the end |
| BufferEscaping.StartWithoutEnd | src/cdcproto.cpp:4931-4952 | A start without an end drops the rest of the text |
| BufferEscaping.PlainDecoded | src/cdcproto.cpp:4931-4946 | In front of the first slash nothing changes |
| BufferEscaping.RoundTrip | src/cdcproto.cpp:4913-5018 | Decoding undoes encoding exactly for the buffers without `%DCN` directly behind a slash or a special byte |
| BufferEscaping.ClashShortens | src/cdcproto.cpp:4913-5018 | Decoding never yields more bytes than were encoded, and fewer for every other buffer |
| BufferEscaping.UnmarkedIsClean | src/cdcproto.cpp:4913-5018 | In particular every buffer without `%DCN`, zero bytes included, comes back |
| BufferEscaping.ThroughTheWire | src/cdcproto.cpp:4913-5018 | Encoded and decoded in place, such a buffer is the same |
| LockKey.Lock2Key | src/cdcproto.cpp:5033-5043 | The two loops compute the key of the unescaped lock |
| LockKey.KeyByte | src/cdcproto.cpp:5033-5043 | Each byte of the key, in halves, from neighbouring bytes of the lock, the first one from itself, the last two and 5 |
| LockKey.KeyUnlocks | src/cdcproto.cpp:5033-5043 | A seven-bit lock is computed back from its key |
| LockKey.KeyIsInjective | src/cdcproto.cpp:5033-5043 | Two seven-bit locks with the same key are the same |
| LockKey.KeysAgree | src/cdcproto.cpp:5033-5043 | Two locks of a length have the same key exactly if their mixed bytes agree up to the lower half of those with the eighth bit |
| LockKey.EighthBitCollides | src/cdcproto.cpp:5043 | Two different locks with the eighth bit and the same key |
| LockKey.KeyFor | src/cdcproto.cpp:5020-5050 | Unescape, mix, swap, escape; no key for a lock of fewer than two characters |
| IPv4.AddressIsSpelling | src/cbanlist.cpp:540-569 | An address is read from a text exactly if the text is the one dotted decimal spelling of it |
| IPv4.SpelledWithDots | src/cbanlist.cpp:600-618 | An address is spelled with dots between its bytes in decimal |
| IPv4.Ip2Num | src/cbanlist.cpp:540-569 | Accepted exactly if such a text, and not zero unless zero is allowed; the number is the address's; any other text leaves it unchanged |
| IPv4.NextAddress | src/cbanlist.cpp:540-569 | Numbers count addresses one by one, with the carries from each byte to the one in front of it |
| IPv4.NumberThenBytes | src/cbanlist.cpp:600-618 | A number below 2^32 is the value of its four bytes |
| IPv4.BytesThenNumber | src/cbanlist.cpp:600-618 | Four bytes are those of their value |
| IPv4.NumberThroughText | src/cbanlist.cpp:540-618 | Printed and read, every number below 2^32 is back |
| IPv4.TextThroughNumber | src/cbanlist.cpp:540-618 | Read and printed, every accepted text is back |
| IPv4.GetIPRange | src/cdcconsole.cpp:3890-3947 | An address, two addresses, or a mask: the mask is applied to what the bound held on entry, never to the typed address |
| IPv4.BlockHolds | src/cdcconsole.cpp:3929-3933 | A block is aligned, of its size, within 32 bits, and holds the number it was made from |
| IPv4.NestedOrDisjoint | src/cdcconsole.cpp:3929-3933 | Two blocks are nested or disjoint |
| IPv4.CoversTypedAddress | src/cdcconsole.cpp:3923-3934 | The range covers the typed address exactly if the bound on entry lies in the same block |
| IPv4.TypedAddressIsMissed | src/cdcconsole.cpp:3923-3934 | With zero bounds 1.2.3.4/8 yields a range that does not hold 1.2.3.4 |
| HostBans.GetHostSubstring | src/cbanlist.cpp:414-439 | A level k > 0 succeeds exactly if the name has k labels, and yields the last k of them; level -k succeeds exactly if k - 1 dots follow the first character, and yields what precedes the next dot or the end |
| HostBans.SuffixIsLabels | src/cbanlist.cpp:414-439 | A part of "." and the name from one of its dots on is the join of as many last labels as it has dots |
| HostBans.JoinIsInjective | src/cbanlist.cpp:414-439 | Dot-free labels are determined by their join |
| HostBans.BanMatches | src/cbanlist.cpp:163-185 | A host ban of level k on one name applies to another exactly if both have k labels and the last k agree |
| HostBans.HostBanApplies | src/cbanlist.cpp:470-500 | The same through both operations, the adding and the looking up |
| SqlQuoting.WriteStringConstant | src/cconfmysql.cpp:496-517 | The loop puts one backslash in front of each character to be escaped |
| SqlQuoting.OneCharacterQuoted | src/cconfmysql.cpp:496-517 | Backslash and the three quotes get a backslash always, the underscore only in patterns, nothing else ever |
| SqlQuoting.RoundTrip | src/cconfmysql.cpp:496-517 | Removing one backslash in front of each gives every text back |
| SqlQuoting.QuotedIsOneLiteral | src/cconfmysql.cpp:496-517 | Between quotes of any kind it is read back as that text, and none of its own quotes closes the constant |
| KeyCache.CacheIsTransparent | src/tcache.h:103-107 | The cache changes no answer exactly if it knows every key of the table |
| KeyCache.Cache.LoadAll | src/tcache.h:143-157 | Every key of the table is known afterwards |
| KeyCache.Cache.Update | src/tcache.h:175-193 | Every new key is known afterwards, none is forgotten |
| RegistrationList.RegList.FindRegInfo | src/creglist.cpp:91-99 | The answer is the table's while the cache is off or knows every key |
| RegistrationList.RegList.AddRegUser | src/creglist.cpp:128-162 | Adds exactly an unregistered, unreserved nick with its class, its password if any, and leave to set one if none; keeps the cache complete; a nick the cache misses is answered with success and left unchanged |
| RegistrationList.RegList.DelReg | src/creglist.cpp:220-231 | Removes exactly that nick, and the reloaded cache is complete |
| RegistrationList.RegList.UpdateRow | src/creglist.cpp:164-178 | Changes one row; the cache stays complete |
| RegistrationList.RegList.UpdateCache | src/cserverdc.cpp:1878-1879 | The timer keeps the cache complete |
| RegistrationList.RegList.SwitchOn | src/creglist.cpp:91-99 | After switching the cache on, every answer is the table's exactly if the cache knows every key |
| RegistrationList.ClassesKept | src/creglist.cpp:142-155 | The classes 1 to 5, 10 and -1 are kept, every other becomes 1 |
| RegistrationList.NobodyIsFound | src/creglist.cpp:91-99 | Opened with the cache off and then switched on, the list finds none of its users |
| PenaltyList.AddOfRight | src/cpenaltylist.cpp:86-137 | A given deadline only ever lengthens a right, by exactly what is given |
| PenaltyList.RemoveOfRight | src/cpenaltylist.cpp:139-197 | A removal takes a right exactly if the deadline given for it has passed, in the table and in the log |
| PenaltyList.CleanupOfRow | src/cpenaltylist.cpp:57-64 | The cleanup deletes exactly the rows whose deadlines have all passed |
| PenaltyList.CleanTypeOfRow | src/cpenaltylist.cpp:66-74 | Cleaning one right deletes exactly the rows with a deadline above 1 for it |
| PenaltyList.AddAgrees | src/cpenaltylist.cpp:86-137 | Merging deadlines by maximum, and not keeping rows without one to come, agrees with the log from then on |
| PenaltyList.RemoveAgrees | src/cpenaltylist.cpp:139-197 | Taking rights back agrees with the log |
| PenaltyList.CleanupAgrees | src/cpenaltylist.cpp:57-64 | Deleting rows that are past in every right changes nothing from then on |
| PenaltyList.GivenInAnyOrder | src/cpenaltylist.cpp:86-137 | Any reordering of a run of given deadlines leaves every right as it is, whatever happens later |
| PenaltyList.Penalties.LoadTo | src/cpenaltylist.cpp:76-84 | The same answer with and without the cache; a right is in force exactly if it was given with a later deadline since it was last taken back |
| PenaltyList.Penalties.AddPenalty | src/cpenaltylist.cpp:86-137 | Later deadlines win; table, log and cache stay in agreement |
| PenaltyList.Penalties.RemPenalty | src/cpenaltylist.cpp:139-197 | Rights with a past deadline are taken back, and the row goes if these are all; agreement is kept |
| PenaltyList.Penalties.Cleanup | src/cpenaltylist.cpp:57-64 | Only rows past in every right go; agreement is kept |
| PenaltyList.Penalties.CleanType | src/cpenaltylist.cpp:66-74 | The rows that had a right go with all their other rights; agreement is kept |
| PenaltyList.Penalties.UpdateCache | src/cserverdc.cpp:1881-1882 | The cache knows every nick of the table afterwards |

## Left out

- AsyncConns.AsyncConn.Write: does not model the zlib branch, in which the flush buffer is compressed first and stays as it is when its last pipe is missing.
- AsyncServer.AsyncSocketServer.AddConnection: the connection that comes through a TLS proxy is seated without its greeting, and the proxy's own exchange is not modelled.
- AsyncServer.AsyncSocketServer.TimeStep: poll() is taken to report no error for a listening socket, because the sources would then look for it in the list of connections through an iterator that was never set.
- AsyncServer.AsyncSocketServer.RunHandler: a handler drops (delConnection) only the connection that is being treated, which is all that handlers do outside shutdown.
- ConnPoll.ConnPoll.AddConn: a descriptor below 4 that the table does not hold yet is excluded, because the sources then write behind the end of their table; the server's own descriptors are higher.
- RegistrationList.RegList.AddRegUser: what the encryption makes of a password is a parameter.
- HubAccounts.Hub.ValidateNick: plugins, nick rules and penalties are arbitrary outcomes; a zone of -1, which a connection has before its address is known, is excluded.
- HubAccounts.Hub.AdmittedWithinLimit: the limit is the one in force at admission; zone limits apply at admission only, and a later zone move may exceed them.
- ProtoFlood.RunPassesUnderTwiceLimit: assumes that the 32-bit counter does not wrap within the run.
- ProtoFlood.FloodControl.CheckProtoFlood: the texts of reports and bans are not modelled.
- MeanFrequency.Frequency.Insert: the period is fixed when the measure is made; changing it on a running measure, and the mean per second, are not modelled.
- Messages.MessageParser.SplitOnTwo: texts are shorter than 2^31 bytes, so that positions fit their type.
- Messages.MessageParser.SplitChunks: splits a freshly parsed message; a second split after a plugin rewrote a chunk, which works with the old length, is not modelled.
- LockKey.KeyFor: a lock that unescapes to fewer than two bytes is excluded, because the sources then read in front of their buffer.
- BufferEscaping.EscapeBuffer: only the DCN form is modelled, the one that locks and keys use; nothing calls the other one.
- IPv4.GetIPRange: the regular expression that takes the typed text apart is replaced by its parts, and bit counts outside 1 to 31, whose shifts are undefined, are excluded; the mask is written as arithmetic.
- HostBans.HostBanApplies: the database compares the stored names.
- KeyCache.Cache.Update: which rows are new since the last time is the table's answer, and is a parameter.
- Database errors, string collation and column widths: a table is a map from keys to rows.
- close() at shutdown, outgoing connections, the select() chooser, DNS, and the clearing of timed structures.
- Plugins, scripts, triggers, console listings, translations, tag parsing and the hub list.
