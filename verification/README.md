# EasyIPC: a verified model

EasyIPC lets processes on one machine send each other messages and call each other's
functions through a daemon. This project models the parts of it in which the difficult
behaviour lies, and proves what they promise:

* **the remote-call broker**: the client library's calls and acks, and the daemon's
  member list, call queue, pending list and threads (`src/easyipc_daemon.c`,
  `src/easyipc_support.c`);
* **cJSON** (`src/cjson.c`): parser, printer, chain edits and duplication over nodes on
  the heap, with the transcoding of `\u` escapes;
* **the parameter packing of eipcmsg** (`src/easyipc_console.c`).

`dafny verify dfyconfig.toml` checks the whole project.

## How it is built

Each part has three layers. *Functions on values* say what an operation computes
(`Json`, `Members`, `Registry`, `Calls`, `Messages`, `Queue`, `Packing`). *Methods on
objects and arrays* run the way the C code does, with its loops, pointers, buffers and
in-place updates, and are proved to compute those functions (`StringCode`, `ParseCode`,
`PrintCode`, `Chains`, `Duplication`, `DaemonCode`, `ClientCode`, `Queue.Channel`,
`Packing`). *Laws* are proved of the functions, and so hold of the methods (`Acceptance`,
`Soundness`, `Failures`, `RoundTrip`, `TwoPasses`, `Reparse`, `Sizes`, `JoinScan`, `Entries`,
`Registrations`, `Suspension`, `ProbeLaws`, `Ledger`, `BrokerSteps`, `BrokerLaws`, `Provenance`,
`Misdirection`, `CallTimeouts`, `Deliveries`, `Routing`, and parts of the modules above).

The laws are stated in terms of their own wherever there are such terms. The texts of JSON are
those of `Grammar`, written from RFC 8259 without a word about parser or printer: a document
as it is spelled, its text, and what it stands for. Every text of the standard is accepted
(`Acceptance.AcceptsStandard`), what is printed is such a text (`RoundTrip.PrintedConforms`),
and what else the parser takes is `Grammar`'s wider form, exactly (`Soundness.ParsesExactly`).
Who is sent a message or a call is told from the events of a run, by the last word each process
had on a name since it joined (`Registrations.RegisteredExactly`, `Deliveries.MessageReaches`,
`Routing.CallReaches`).

| files | contents |
|---|---|
| `CText`, `Bits`, `Utf`, `Strings`, `TwoPasses`, `StringCode` | C strings, masks and shifts, UTF-8 and UTF-16 (section 3 of RFC 3629, section 2.2 of RFC 2781), the two passes over string literals |
| `Json`, `Sizes` | printer and parser as functions; what the printer allocates |
| `Grammar`, `Scalars`, `Acceptance`, `Progress`, `Soundness` | the texts of JSON, from RFC 8259; the parser accepts those of the wider form and no others |
| `Completions`, `Failures` | the error position: not too late and not too early |
| `RoundTrip`, `Reparse` | what is printed; round trips in both directions |
| `Heap`, `Links`, `Chains`, `Duplication`, `ParseCode`, `PrintCode` | nodes on the heap, chains of siblings, the recursive code itself |
| `Members`, `Registry` | the member list, joining, and whole runs of it |
| `Registrations` | what a process is registered for, from the events of a run |
| `JoinScan`, `Entries`, `Suspension` | what remains true of the member list when joins skip: joining among namesakes, what second entries of a process hold, suspension |
| `Calls`, `ProbeLaws` | remote calls in the daemon; what the probe finds when a name is shared |
| `Broker`, `Ledger`, `BrokerSteps`, `BrokerLaws`, `Provenance`, `Misdirection`, `CallTimeouts` | remote calls: the daemon's handling, the whole system and its invariants |
| `Messages` | fan-out of messages over whole runs |
| `Deliveries`, `Routing` | from registration to delivery, for messages and for calls; the order in which calls are served |
| `DaemonCode`, `ClientCode` | the daemon's and the handle's code over mutable objects |
| `Queue`, `Locks` | queue and semaphore under any interleaving; lock order of the daemon's threads |
| `Packing` | the eipcmsg passes |

The broker is a system that takes one step at a time: a critical section of the daemon
under its member-list mutex, one operation on a list of the client library, or one
datagram. The network is a bag of datagrams that may lose and reorder but does not
duplicate. A run is any sequence of steps, so every interleaving of callers, providers,
timeouts, joins and exits is covered. Where a law of runs needs a condition, it is one on
single steps: `BrokerLaws.Rules` names four of them, each law says which its runs must keep,
and most need none.

## What is false of the code, and exactly when

* **Joining.** `ipcd_join` advances its index also after removing an element, so the
  member that moves up is never compared. If a suspended member in conflict with the
  newcomer stands directly in front of another member in conflict with it, the second one
  stays, and two members share a process id or a name. `Members.JoinResult` proves that
  distinctness survives a join exactly outside that case, `Registry.DistinctExactly` says
  the same of whole runs, `Members.JoinLeavesDuplicate` is a concrete case,
  `Registry.RunLeavesDuplicate` a run from nothing that reaches it, and
  `Registry.OneNameEachSuffices` shows that it cannot happen when every process id has one
  name of its own. A refused join may also have removed a suspended member already;
  `JoinScan.JoinLeaves` says who is left, after any join among members whose process ids are apart.
* **Finish miss.** When a provider reports a result after it unregistered the API,
  the ack is addressed to the provider instead of the caller, and the call stays pending.
  `BrokerLaws.FinishAnswersItsCaller`, of any run and any finish record, whether its call is
  still pending or not, and `BrokerLaws.FinishSettlesItsCall` say exactly when the ack goes
  to the right call and when the call is settled;
  `BrokerLaws.MissWakesAnother` shows that otherwise the provider's own call waiting under
  the same ack id is woken with the wrong result, `Misdirection.RunWakesAnother` is a run
  from nothing in which that happens, and `BrokerLaws.FinishMissExample` a single step.
  `BrokerLaws.Agreement` therefore asks of its runs that finish records are acked to the
  right address, and `BrokerLaws.OneAck` that their API is still registered or their provider
  gone, which is exact (`BrokerLaws.FinishAcknowledges`); the other laws of runs hold in spite
  of such records.
* **Shared names.** Once a join has left one name twice, the probe can go wrong in two ways.
  With both members awake it finds two providers, so a call is relayed twice and recorded
  twice (`ProbeLaws.RunFindsTwo` is a run that gets there); a dispatch keeps magic numbers
  conserved if and only if the call finds at most one (`BrokerLaws.ProbingConserves`), which
  it always does where joins skip nobody (`BrokerLaws.SkipFreeRoutes`). And behind a
  suspended namesake an active member is stepped over, so that calls to it are refused
  (`ProbeLaws.RunRefuses`). `ProbeLaws.ProbeExactly` says exactly when the probe finds
  everybody it should, `ProbeLaws.ProbeIsLookupExactly` when it does what looking up the
  first member of the name does.
* **Suspension.** A join can also skip the former entry of the joining process itself. That
  entry then stays suspended although its process has just given a sign of life
  (`Suspension.RunLeavesFreshSuspended`). `JoinScan.JoinKeepsPids` says which joins keep
  process ids apart, for names shared or not, `Suspension.ApartExactly` which runs, and in
  those `Suspension.SuspendedExactly` holds.
* **Timeouts.** A timeout that is at least the reserved maximum 0xffffff and leaves the
  same remainder modulo 100 is counted down onto the reserved value and then never
  expires; apart from no timeout at all there is no other such value (`Calls.NeverExactly`,
  `Calls.LongTimeoutExample`, `CallTimeouts.TimeoutOnTime`).
* **Printing.** The buffer of a formatted empty object at depth 0 is one byte short, and
  only that one (`Sizes.ReservedCovers`).
* **Leniency.** The parser takes more than the standard's texts: any byte from 1 to 32 for a
  blank and inside a string, a backslash in front of any character, the four digits of any
  code unit, half a pair included, numerals such as `-`, `-.5`, `012` and `1e`, and a string
  at the very end of the text without its closing quote. On texts whose escapes are complete
  that is all: these are the documents of `Grammar` with `strict` false, and
  `Soundness.ParsesExactly` is an if and only if.
* **Strings.** The copying pass of `parse_string` skips four characters behind `\u` whatever
  they are, and `sscanf` reads a number from as many of them as it can; where it can read
  none, the variable keeps what an earlier escape left in it. The counting pass takes the
  four for ordinary characters. The two end at the same quote, and the copy fits into what
  was counted, if and only if looking for the quote in steps of six for each `\u` finds the
  one the counting pass found, and something can be read behind the first `\u` and behind
  the first that is the second half of a pair (`TwoPasses.TwoPassesAgree`); one scan of the
  text decides that. It is so on every literal of RFC 8259 (`TwoPasses.EscapedAgree`), and,
  those two being legible, when the four characters end where a unit of the counting pass
  ends (`TwoPasses.OnUnitsAgree`), though that is not necessary (`TwoPasses.BetweenUnits`).
  `TwoPasses.BareEscape` is a literal that the copying pass leaves, `TwoPasses.BareHalf` one
  on which it uses a variable without a value, `TwoPasses.ShortEscape` and
  `TwoPasses.KeptValue` are odd ones on which the passes agree.
* **"*" handlers.** A handler for "*" registered with `ipc_register_msg_ext` has a null
  function pointer, which is called if no handler has the message's name
  (`ClientCode.NullCallExactly`, `ClientCode.NullCallExample`).
* **Unregistering a message.** `ipc_unregister_msg` advances like `ipcd_join`, so a handler
  right behind one of the same name stays, while the daemon is told to stop sending: all
  handlers of the name go if and only if no two of them are neighbours
  (`ClientCode.UnregisterExactly`, `ClientCode.UnregisterExample`).
* **Negative widths.** eipcmsg rejects a string of width 0 but accepts negative widths, and
  then fields leave their slots (`Packing.TilesExactly`, `Packing.NegativeWidth`).

## Model

| member | source | states |
|---|---|---|
| `BrokerLaws.Agreement` | src/easyipc_support.c:416-481 | in every run whose finish records are acked to the right address, joins skipping whom they like, what a call is woken with is a daemon error or the code and bytes a provider's function returned for exactly that caller, ack id and request |
| `BrokerLaws.CallReturns` | src/easyipc_support.c:450-480 | in every such run ipc_call_api returns a daemon error without bytes, or hands over what was produced for this very call: the full bytes exactly with both pointers and code OK or FAIL, the code produced, or a complaint exactly when there are bytes and no pointers |
| `BrokerLaws.WakesOnlyItsCall` | src/easyipc_support.c:978-1007 | in any run, an ack takes off the wait list the call with its id at its handle and no other |
| `BrokerLaws.Conservation` | src/easyipc_daemon.c:722-763 | in every run in which no call finds two providers, each magic number handed out is in exactly one place: queued, held by the probe thread, pending, or closed; finish records may go astray |
| `BrokerLaws.ProbingConserves` | src/easyipc_daemon.c:558-631 | and that condition is exact: a dispatch keeps the numbers conserved if and only if the call finds at most one provider |
| `BrokerLaws.SkipFreeRoutes` | src/easyipc_daemon.c:458-631 | in runs whose joins skip nobody no call finds two providers |
| `BrokerLaws.OneAck` | src/easyipc_daemon.c:1350-1385 | in every run in which calls find at most one provider and finish records their API or no provider, a call was sent one ack if it is closed and its caller was a member then, none otherwise |
| `BrokerLaws.FinishAcknowledges` | src/easyipc_daemon.c:1329-1424 | and the condition on finish records is exact: one keeps the acks right if and only if it finds its API registered or its provider gone |
| `BrokerLaws.InvStep` | src/easyipc_daemon.c:1278-1424 | every step of any participant keeps each part of the invariant under that part's own rule: members, replies, numbers, acks |
| `BrokerSteps.BaseStep` | src/easyipc_daemon.c:1278-1424 | every step, without any rule, keeps keys distinct, calls genuine, finish records true and wait lists in order |
| `BrokerLaws.FinishAnswersItsCaller` | src/easyipc_daemon.c:1329-1424 | in any run, for any finish record under way, its call pending or not: all its acks go to the call it belongs to if and only if the provider is gone, still registered, or the caller itself |
| `BrokerLaws.FinishSettlesItsCall` | src/easyipc_daemon.c:1329-1424 | in any run in which no call finds two providers, a finish record takes its pending call off the list if and only if the API is still registered |
| `BrokerLaws.MissWakesAnother` | src/easyipc_daemon.c:1407-1424 | otherwise the result wakes a call of the provider that waits under the same ack id |
| `BrokerLaws.FinishMissExample` | src/easyipc_daemon.c:1407-1424 | a concrete member list and finish record for which the ack goes to the provider and the call stays pending |
| `Misdirection.RunWakesAnother` | src/easyipc_daemon.c:1329-1424 | a run from nothing in which a call nobody has taken is woken with the result of another, which stays pending |
| `Provenance.RanByProvider` | src/easyipc_daemon.c:543-631 | in every run whatsoever, the process that produced a result was, at the step that dispatched the call, an active member of the name called with the API registered |
| `Provenance.AnsweredByProvider` | src/easyipc_support.c:416-481 | so in runs whose finish records are acked to the right address a call is woken with a daemon error or with what such a process returned for it |
| `BrokerSteps.WakeKeeps` | src/easyipc_support.c:982-1004 | ids handed out are exactly those waiting, each once, and those woken; an ack nobody waits for changes nothing |
| `Ledger.CloseMany` | src/easyipc_daemon.c:203-242 | closing all calls a sweep times out keeps every number in one place |
| `Ledger.AcknowledgeMany` | src/easyipc_daemon.c:203-242 | and gives one ack to each of their callers that is a member |
| `CallTimeouts.TimeoutOnTime` | src/easyipc_daemon.c:212-238 | in every run whatsoever the next sweep times a pending call out exactly when it is the sweep due for its timeout, counted from its dispatch, and then acks a caller that is a member |
| `CallTimeouts.RunTraces` | src/easyipc_daemon.c:203-242 | every run has the history of recording, answering and sweeping that this speaks of |
| `Calls.TimesOutExactly` | src/easyipc_daemon.c:212-238 | the same for any history of recording, once per provider, answering and sweeping, in which no number is dispatched twice |
| `Calls.DueExactly` | src/easyipc_daemon.c:216-219 | the arithmetic: an entry that survived k sweeps falls to zero or below at the next if and only if that is the due sweep |
| `Calls.DueIsCeiling` | src/easyipc_support.c:434-436 | the due sweep is a hundredth of the timeout rounded up, the first for a negative timeout; there is none exactly without a timeout and for one that meets 0xffffff on its way down |
| `Calls.NeverExactly` | src/easyipc_daemon.c:216-219 | the time left stays positive for ever if and only if there is no timeout or it meets the reserved maximum on its way down |
| `Calls.LongTimeoutExample` | src/easyipc_daemon.c:216-219 | one such timeout |
| `Calls.ProbeIsLookup` | src/easyipc_daemon.c:558-589 | among distinct members the probe loop, with its extra step over suspended matches, is look-up by name |
| `ProbeLaws.ProbeIsLookupExactly` | src/easyipc_daemon.c:558-589 | among any members, it does what the first member of the name calls for if and only if no later active one it compares is in the way |
| `ProbeLaws.ProbeExactly` | src/easyipc_daemon.c:558-589 | among any members, it finds all active providers and the program if and only if it steps over none of them, nor over all active members of the name |
| `ProbeLaws.RunFindsTwo` | src/easyipc_daemon.c:458-589 | a run from nothing after which a call is relayed to two processes |
| `ProbeLaws.RunRefuses` | src/easyipc_daemon.c:458-589 | a run from nothing after which a call to an active provider is refused because a suspended namesake stands in front of it |
| `Calls.DispatchInRuns` | src/easyipc_daemon.c:543-631 | after every run without skipping joins a call goes once to the provider its names resolve to and becomes pending, or its caller is told which of program and API is missing |
| `Calls.ResolveMeans` | src/easyipc_daemon.c:563-589 | the provider is the active member of that name, if it registered the API |
| `Routing.CallReaches` | src/easyipc_daemon.c:273-631 | in runs without skipping joins the call in hand goes to the process that has the name, is active, and whose last word on the API since it joined was to register it; without such a process its caller, if a member, gets the one ack that tells whether program or API is missing |
| `Routing.RanByOfferer` | src/easyipc_daemon.c:273-631 | in every run whatsoever who produced a result was such a process when the call was dispatched |
| `Routing.MembersFollow` | src/easyipc_daemon.c:1278-1299 | the member list of every run is that of its events, a call being a sign of life |
| `Routing.CallsInLine` | src/easyipc_daemon.c:722-763 | first come, first served: the calls not yet dispatched stand in the order the daemon took them in, without gaps, each with the request its number was given to |
| `Routing.ServedInOrder` | src/easyipc_support.c:847-956 | a provider starts its calls in the order in which they came, the oldest first, and has running exactly as many as it started and did not end, all of them among those started |
| `Members.JoinResult` | src/easyipc_daemon.c:458-534 | a join keeps members distinct if and only if it skips nobody; then it is accepted exactly if everybody in the way is suspended, and replaces them |
| `Members.JoinLeavesDuplicate` | src/easyipc_daemon.c:463-499 | two silent members and a join that leaves two members of one name |
| `Registry.RunLeavesDuplicate` | src/easyipc_daemon.c:164-499 | a run from nothing, skipping nobody and distinct until its last join, that ends so |
| `Registry.RegistryInvariant` | src/easyipc_daemon.c:273-534 | after every run without skipping joins, process ids, names, and the names each member registered are distinct |
| `Registry.DistinctExactly` | src/easyipc_daemon.c:458-534 | members are distinct at every point of a run if and only if no join of it skips a conflicting member |
| `Registry.OneNameEachSuffices` | src/easyipc_daemon.c:458-534 | if every process id joins under one name, no join skips and the invariant holds |
| `Registry.UnregisterUndoes` | src/easyipc_daemon.c:353-386 | unregistering an API gives back the member list from before it was registered |
| `Registry.LeavingUndoes` | src/easyipc_daemon.c:424-452 | exit after a join without conflicts gives back the member list |
| `Registrations.RegisteredExactly` | src/easyipc_daemon.c:273-534 | in every run whatsoever the first entry of a process has a name, as API or as subscription, if and only if, since that entry joined, the last event of that process and name was its registration |
| `Suspension.SuspendedExactly` | src/easyipc_daemon.c:164-198 | in every run that keeps process ids apart a member is suspended if and only if at least 16 sweeps have passed since its accepted join or its last LIVE, API_CALL or MSG_SEND |
| `Suspension.ApartExactly` | src/easyipc_daemon.c:458-534 | process ids are apart at every point of a run if and only if none of its joins accepts a process whose former entry it skips |
| `JoinScan.JoinKeepsPids` | src/easyipc_daemon.c:458-534 | with names shared or not: a join accepts exactly if everybody it compares and who is in the way is suspended, and keeps process ids apart unless it then has skipped the newcomer's own former entry |
| `JoinScan.JoinLeaves` | src/easyipc_daemon.c:458-534 | with names shared or not, accepted or refused: everybody stays but the suspended members in the way that are compared before one in the way refuses, in order, and the newcomer comes last if nobody does |
| `Suspension.RunLeavesFreshSuspended` | src/easyipc_daemon.c:164-534 | a run from nothing after which a process that has just joined has an entry suspended after no sweep at all |
| `Entries.RunHolds` | src/easyipc_daemon.c:273-534 | in every run whatsoever, of the entries of one process only the first has APIs or subscriptions |
| `Messages.ExactFanOut` | src/easyipc_daemon.c:634-719 | in every run whatsoever a dispatched message was relayed once to each process then subscribed to its name or "*" and not suspended, and to no other |
| `Messages.FanOutInOrder` | src/easyipc_daemon.c:766-795 | in every run whatsoever messages are sent to each subscriber in the order of acceptance, none twice, with their own content |
| `Messages.SubscribersExact` | src/easyipc_daemon.c:655-702 | one pass of the loop over any member list a run can reach names every subscriber once and nobody else |
| `Deliveries.MessageReaches` | src/easyipc_daemon.c:313-719 | in every run whatsoever the message of a dispatch was relayed, once and with the content it was sent with, to each process then active whose last word on its name or on "*" since it joined was to subscribe, and to no other; it is that many-th message sent by a member |
| `Deliveries.PostFollows` | src/easyipc_daemon.c:1298-1326 | members and audiences are those of the events of the run, a message being a sign of life; the messages accepted are those sent by members, in order |
| `ClientCode.ExactExactly` | src/easyipc_support.c:743-763 | every handler registered under the message's name is called once, others not |
| `ClientCode.ExactInOrder` | src/easyipc_support.c:743-763 | and they are called in the order they were registered in |
| `ClientCode.HandledDelivers` | src/easyipc_support.c:743-781 | for a message exactly the handlers of its name are called, each once, in order; without one the first "*" handler; through null if that has no plain function |
| `ClientCode.NullCallExactly` | src/easyipc_support.c:765-781 | a message calls through null if and only if no handler has its name and the first "*" handler was registered with ipc_register_msg_ext |
| `ClientCode.NullCallExample` | src/easyipc_support.c:765-781 | one such handler and message |
| `ClientCode.Client.HandleMessage` | src/easyipc_support.c:743-781 | if any handler has the name each of them is called once, and nobody else, in the order of the list; otherwise the first "*" handler, through null if it has no plain function; nobody if there is none |
| `ClientCode.Client.RegisterMsg` | src/easyipc_support.c:521-556 | a handler is appended and the daemon told, unless there is no name or no function or it is there already |
| `ClientCode.Client.RegisterMsgExt` | src/easyipc_support.c:484-518 | the same for handlers with user data, told apart by name and function only |
| `ClientCode.Client.UnregisterMsg` | src/easyipc_support.c:558-594 | the loop with its stale size leaves the handlers Left names, and tells the daemon once if there was one |
| `ClientCode.UnregisterExactly` | src/easyipc_support.c:570-592 | all handlers of the name are gone if and only if no two of them were neighbours |
| `ClientCode.UnregisterKeepsOthers` | src/easyipc_support.c:570-592 | handlers of every other name stay, in their order |
| `ClientCode.UnregisterExample` | src/easyipc_support.c:570-592 | two neighbours of which one stays |
| `ClientCode.Client.BeginCall` | src/easyipc_support.c:416-448 | takes the next ack id, parks the call under it, sends the request |
| `ClientCode.Client.OnAck` | src/easyipc_support.c:978-1007 | wakes exactly the first call waiting under the id |
| `ClientCode.Client.EndCall` | src/easyipc_support.c:450-480 | both result pointers and code OK or FAIL hand the bytes over in full, otherwise none; the code is the one woken with, unless there are bytes and no pointers |
| `DaemonCode.Daemon.Join` | src/easyipc_daemon.c:458-534 | the loop with its stale size does what Members.Join says, on member objects |
| `DaemonCode.Daemon.RemoveViaPid` | src/easyipc_daemon.c:424-452 | removes the first member with the process id and keeps the others in order |
| `DaemonCode.Daemon.RegisterApi` | src/easyipc_daemon.c:273-310 | adds the name to the member unless it is there |
| `DaemonCode.Daemon.RegisterMsg` | src/easyipc_daemon.c:313-350 | adds the subscription to the member unless it is there |
| `DaemonCode.Daemon.UnregisterApi` | src/easyipc_daemon.c:353-386 | removes the first registration of the name, or changes nothing |
| `DaemonCode.Daemon.UnregisterMsg` | src/easyipc_daemon.c:389-421 | removes the first subscription to the name, or changes nothing |
| `DaemonCode.Daemon.LiveSweep` | src/easyipc_daemon.c:164-198 | counts every member up once and suspends those past the limit |
| `DaemonCode.Daemon.OnLive` | src/easyipc_daemon.c:1235-1247 | resets the counter and the suspension of that member only |
| `DaemonCode.Daemon.OnApiCall` | src/easyipc_daemon.c:1278-1299 | a member's call is stamped, queued last and wakes the member; others are dropped |
| `DaemonCode.Daemon.ApiProbe` | src/easyipc_daemon.c:543-631 | relays, records or refuses the call as Calls.Dispatch says |
| `DaemonCode.Daemon.TimeoutSweep` | src/easyipc_daemon.c:203-242 | deleting in place, decrements each finite entry once, keeps survivors in order and acks the expired ones |
| `DaemonCode.Daemon.OnFinish` | src/easyipc_daemon.c:1329-1424 | settles, ignores or misdirects a finish record as Calls.Finish says |
| `DaemonCode.Daemon.OnMsgSend` | src/easyipc_daemon.c:1320-1326 | a member's message is queued last and wakes the member |
| `DaemonCode.Daemon.MsgProbe` | src/easyipc_daemon.c:634-719 | relays to exactly the subscribers, in the order of the member list |
| `Queue.PullNeverEmpty` | src/easyipc_support.c:854-863 | under any interleaving a consumer past its semaphore finds the oldest item not yet taken, so the branch that leaves the mutex locked is unreachable |
| `Queue.RunBalanced` | src/easyipc_daemon.c:735-795 | list length is semaphore plus attached and not posted plus waited and not removed; items leave in the order they came |
| `Queue.Channel.Remove` | src/easyipc_daemon.c:748-763 | the locked part of a pull returns the head and never finds none |
| `Locks.NoDeadlock` | src/easyipc_daemon.c:209-240 | no reachable state of the daemon's threads has a circle of threads waiting for each other's mutexes |
| `Locks.HoldersProgress` | src/easyipc_daemon.c:974-976 | whenever a thread is blocked on a mutex, some thread holding one can move |
| `Locks.DaemonIsDisciplined` | src/easyipc_debug.c:100-155 | every daemon thread takes mutexes in rising rank and waits on semaphores holding none |
| `Acceptance.AcceptsStandard` | src/cjson.c:252-427 | every JSON text of RFC 8259, with any run of space, TAB, CR and LF around every value, bracket, brace, comma and colon and around the whole, parses to the value it stands for and ends behind it, insisting on the end or not |
| `Acceptance.AcceptsText` | src/cjson.c:252-427 | the same for every text of the wider form |
| `Acceptance.AcceptsFront` | src/cjson.c:252-266 | not insisting on the end, whatever stands behind the document is left alone, a number not going on |
| `Acceptance.DocParses` | src/cjson.c:275-427 | wherever the text of a document stands the parser reads it as what it stands for and stops right behind it |
| `Acceptance.BlankExample` | src/cjson.c:394-427 | blanks on both sides of a colon |
| `Soundness.ParsesExactly` | src/cjson.c:252-427 | a text whose escapes are complete parses to a value, insisting on the end, if and only if it spells a document of the wider form that stands for this value |
| `Scalars.NumeralParses` | src/cjson.c:96-116 | the spelling of a number, sign, integer, fraction and exponent, is read as its value |
| `Scalars.StringParses` | src/cjson.c:143-200 | the spelling of a string is read as what its units mean: bytes, two-character escapes, code units and pairs in UTF-8 |
| `Scalars.TruncateIs` | src/cjson.c:114 | the conversion to int is the whole number next to it on the side of zero |
| `Failures.ErrorPosition` | src/cjson.c:146-427 | a text whose escapes are complete is refused at a position only if what stands in front of it begins an accepted text, and no accepted text agrees with it in the five bytes from there on, the NUL counted |
| `Completions.FailsInTime` | src/cjson.c:252-427 | the first half: the text in front of the error position can be finished to an accepted one |
| `RoundTrip.PrintedConforms` | src/cjson.c:290-495 | what is printed, at any depth, formatted or not, is a JSON text of RFC 8259 that stands for the canonical value |
| `RoundTrip.LayoutExample` | src/cjson.c:336-495 | the layout of one nested value in literal characters, formatted and not |
| `RoundTrip.RoundTrip` | src/cjson.c:275-305 | printing a value and parsing the text gives the value back and ends at the end of the text, formatted or not |
| `RoundTrip.PrintedReads` | src/cjson.c:290-495 | at every depth and wherever the text stands, unless a number goes on behind it, parsing printed text yields the canonical value and stops right behind it |
| `RoundTrip.PrintThenParse` | src/cjson.c:252-272 | the same for whole texts, with or without insisting on the end |
| `RoundTrip.CanonicalIsClean` | src/cjson.c:275-287 | what the parser returns for printed text survives any further round trip |
| `Reparse.ParsedIsClean` | src/cjson.c:275-427 | whatever the text, a value the parser returns, its numbers being ints, meets the conditions of the round trip |
| `Reparse.ParseThenPrint` | src/cjson.c:252-305 | so any text that parses yields a value that printing and parsing again gives back, formatted or not |
| `RoundTrip.ReadNumber` | src/cjson.c:96-126 | every int printed in decimal is read back |
| `Progress.ParseValueDefined` | src/cjson.c:275-427 | on text with complete escapes no parse leaves the text, and each ends where the next may start |
| `TwoPasses.TwoPassesAgree` | src/cjson.c:143-200 | both passes end at one quote inside the text and the copy fits what was counted, if and only if skimming in steps of six for each escape finds the counted quote, and the first escape and the first second half are legible |
| `TwoPasses.CopySkims` | src/cjson.c:154-196 | whatever the variables hold at its start, the copying pass stays in the text and uses no variable without a value if and only if skimming stays in it and what a variable without a value needs is legible; it ends where skimming ends |
| `TwoPasses.CopyFits` | src/cjson.c:150-196 | whatever the literal and the variables, a copying pass that ends no later than the counting pass writes no more than was counted |
| `TwoPasses.OnUnitsAgree` | src/cjson.c:150-196 | escapes whose four characters are whole units of the literal suffice, the first and the first second half being legible |
| `TwoPasses.EscapedAgree` | src/cjson.c:150-196 | the passes agree on every literal of RFC 8259 |
| `TwoPasses.BareEscape` | src/cjson.c:164-176 | a literal the counting pass accepts and the copying pass leaves |
| `TwoPasses.ShortEscape` | src/cjson.c:164-176 | a literal with two digits behind the escape on which the passes agree, and what is stored |
| `TwoPasses.BetweenUnits` | src/cjson.c:164-176 | a literal on which the copying pass goes on inside a unit, and the passes still agree |
| `TwoPasses.KeptValue` | src/cjson.c:145-189 | a literal whose second escape is illegible and stores the value of the first again, and what is stored |
| `TwoPasses.BareHalf` | src/cjson.c:145-177 | a literal whose first second half is illegible |
| `Strings.EscapeTable` | src/cjson.c:217-233 | which character is written with which escape |
| `Strings.ScanExamples` | src/cjson.c:169-176 | fewer digits than four, blanks in front, and no digit |
| `Strings.ScanSigned` | src/cjson.c:169-176 | signs in front of the digits |
| `Strings.ScanPrefixed` | src/cjson.c:169-176 | a 0x in front of the digits, or of none |
| `Utf.OctetsExample` | src/cjson.c:178-189 | the octets of one, two, three and four, a surrogate pair, and what is left of the values |
| `Strings.Transcoding` | src/cjson.c:167-189 | scalar values written as escapes become exactly their UTF-8 encoding, which decodes to them |
| `Strings.CopyEscaped` | src/cjson.c:203-236 | reading a printed string gives the string and ends at its closing quote |
| `Bits.SurrogateBits` | src/cjson.c:178 | the masks and the shift of the surrogate pair are the arithmetic of RFC 2781 |
| `Bits.TrailingOctet` | src/cjson.c:184-186 | the two masks of a trailing octet keep its low six bits behind the mark |
| `Bits.LeadingOctet` | src/cjson.c:187 | the or with the first byte mark adds the mark |
| `StringCode.ParseString` | src/cjson.c:143-200 | the two loops over one buffer, with the two variables that outlive an escape, store the specified string and write nowhere else |
| `StringCode.PrintString` | src/cjson.c:203-236 | the buffer is exactly as long as the text and its NUL |
| `StringCode.PutUtf8` | src/cjson.c:181-189 | the fall-through switch, with its masks, marks and shifts, writes the UTF-8 encoding and leaves the shifted value |
| `Sizes.ReservedCovers` | src/cjson.c:336-495 | the bytes reserved for a value cover its text and NUL if and only if it is not a formatted empty object at depth 0 |
| `PrintCode.PrintValueText` | src/cjson.c:290-305 | the recursive printer over heap nodes yields the specified text in a new buffer of the reserved size, or null |
| `PrintCode.PrintArrayText` | src/cjson.c:336-391 | the same for arrays, stopping at the first element that fails |
| `PrintCode.PrintObjectText` | src/cjson.c:430-495 | the same for objects, going on after a failure |
| `ParseCode.ParseWithOpts` | src/cjson.c:252-266 | the heap after parsing is a tree of new nodes with consistent next and prev that stands for the specified value; null exactly on failure |
| `ParseCode.ParseArrayNode` | src/cjson.c:308-333 | elements are linked behind each other while they are parsed |
| `ParseCode.ParseObjectNode` | src/cjson.c:394-427 | the same for members, whose names are parsed into the value field first |
| `ParseCode.ParseNumberNode` | src/cjson.c:96-116 | the digit loops compute the specified number |
| `Chains.AddItemToArray` | src/cjson.c:508 | appends to the child sequence, links consistent; a null item changes nothing |
| `Chains.AddItemToObject` | src/cjson.c:509 | the same under a new name |
| `Chains.DetachItemFromArray` | src/cjson.c:513-514 | removes the child at the index and nothing else |
| `Chains.DetachItemFromObject` | src/cjson.c:516 | removes exactly the item look-up by name returns |
| `Chains.ReplaceItemInArray` | src/cjson.c:520-522 | puts the new item in the place of the child at the index |
| `Chains.ReplaceItemInObject` | src/cjson.c:523 | replaces exactly the item look-up by name returns, under that name |
| `Chains.GetObjectItem` | src/cjson.c:500 | the first child whose name is equal up to case, or null |
| `Chains.GetArrayItem` | src/cjson.c:499 | the child at the index, or null |
| `Chains.GetArraySize` | src/cjson.c:498 | the number of children |
| `Chains.StrCaseCmp` | src/cjson.c:39-44 | zero if and only if both names are null, or both are there, of one length, and byte by byte equal or capital and small form of a letter |
| `Chains.NamesExample` | src/cjson.c:39-44 | two names that differ in case only, and two pairs that differ |
| `Chains.RowLinks` | src/cjson.c:498-523 | what a consistent chain is, pointer by pointer |
| `Heap.TreeLinks` | src/cjson.c:308-427 | what a well-formed tree is, pointer by pointer at every level |
| `Chains.CreateReference` | src/cjson.c:505 | a nameless node that shares the children and carries the reference bit |
| `Duplication.Duplicate` | src/cjson.c:542-567 | a well-formed tree of new nodes equal to the original but for bit 8 of each type, which is clear, whatever the original shares, without children unless asked for; null for null |
| `Duplication.StrippedCopies` | src/cjson.c:542-567 | the value without its reference bits differs from the original in bit 8 of each type at most |
| `Duplication.StrippedPrints` | src/cjson.c:290-305 | and so it prints to the same text |
| `Packing.SizePass` | src/easyipc_console.c:505-556 | the first loop finds the total of the widths, or the bad word |
| `Packing.FillPass` | src/easyipc_console.c:558-611 | the second loop fills exactly that many bytes with the fields one after the other |
| `Packing.PackedBytes` | src/easyipc_console.c:558-611 | every byte of the buffer is the byte due there: of a number the j-th from the low end, of a string the j-th or zero behind the last that leaves room for a NUL |
| `Packing.KindTable` | src/easyipc_console.c:509-556 | the type words letter by letter, S with a number that is not zero, and no others |
| `Packing.AtoiIs` | src/easyipc_console.c:535-596 | a number word by what is written: white space, sign, digits, and whatever follows them |
| `Packing.UnpackPacked` | src/easyipc_console.c:558-611 | reading by the same types gives numbers modulo their width and strings cut to their width less one |
| `Packing.NumbersInRangeKept` | src/easyipc_console.c:561-596 | a number in the range of its type comes back unchanged |
| `Packing.TilesExactly` | src/easyipc_console.c:535-549 | all fields stay in their slots if and only if no width is negative |
| `Packing.NegativeWidth` | src/easyipc_console.c:535-549 | parameters both passes accept whose fields overlap |

## Left out

- Sockets, ports, thread creation, sleeps and rate limits; a packet is a value that is sent and received. Log texts, statistics counters (send, receive, process times), listings, plugins and configuration files only produce output or do file input.
- Liveness of calls: packets of non-members and oversize packets are dropped silently and datagrams may be lost, so only safety is claimed.
- Lists of `src/dlist.c` are sequences: positions and order are kept, the list's own nodes are not modelled. Pending and queued calls are values in those sequences; a member is an object.
- Broker: the two client lists touched without a lock (`src/easyipc_support.c:446`, `src/easyipc_support.c:982-992`) are changed in atomic steps, a process id is never reused by another handle, and counters do not wrap.
- DaemonCode.Daemon.Join: after removing a member the C code still reads its name (`src/easyipc_daemon.c:484`); the model takes the value it had. The result says which of the two join acks is sent; the ack itself is not modelled.
- Names are already cut to the length their fields have; comparisons are of what is stored.
- BrokerLaws.Agreement: assumes that finish records are acked to the right address; `BrokerLaws.FinishAnswersItsCaller` says when, and `BrokerLaws.MissWakesAnother` what happens otherwise. Nothing is assumed of joins.
- BrokerLaws.Conservation: assumes that no call finds two providers, which is necessary (`BrokerLaws.ProbingConserves`).
- BrokerLaws.OneAck: assumes that, and that a finish record finds its API registered or its provider gone; otherwise the provider is sent an ack for a call that stays pending.
- Suspension.SuspendedExactly: assumes process ids apart throughout the run; without that it is false (`Suspension.RunLeavesFreshSuspended`).
- Messages.FanOutInOrder: the order is that of sending; datagrams may be lost or reordered on their way.
- Soundness.ParsesExactly: texts whose escapes are complete; on others the two passes over a string literal decide, see `TwoPasses.TwoPassesAgree`.
- Failures.ErrorPosition: the same texts.
- Acceptance.AcceptsStandard: a byte above 127 stands for itself, whether the text is UTF-8 or not; U+0000 and halves of pairs without the other, which the standard permits to be written and leaves open what they mean, are in the wider form only.
- Deliveries.MessageReaches: the audience is that of the dispatch, not that of the sending.
- Routing.CallReaches: assumes joins that skip nobody; without that see `ProbeLaws.ProbeExactly`.
- RoundTrip.RoundTrip: numbers are ints; `%f`, `%e` and rounding of doubles are not modelled, parsing uses real arithmetic.
- ParseCode.ParseNumberNode: real arithmetic stands for that of doubles; the cast to int cuts toward zero without a bound.
- ParseCode.ParseWithOpts: allocation succeeds; on failure the partial tree is not freed, since cJSON_Delete is not part of this model. `sscanf` is that of the C standard, where "0x" without a digit behind it is no number. The parse is undefined where the copying pass leaves the text or what was counted, and where it uses `uc` or `uc2` before anything was stored in it.
- PrintCode.PrintValueText: numbers are ints; excludes the formatted empty object at depth 0, whose buffer is too short; allocation succeeds; freeing of entries is not modelled.
- PrintCode.PrintArrayText: numbers are ints.
- PrintCode.PrintObjectText: numbers are ints; the same exclusion.
- Chains.AddItemToArray: items come with no siblings of their own.
- Chains.ReplaceItemInArray: the replaced child is unlinked; its deletion is not modelled, since cJSON_Delete is not part of this model.
- Chains.ReplaceItemInObject: the same.
- Packing.FillPass: requires positive widths, since otherwise the writes leave the buffer; numbers are stored low byte first; `atoi` beyond int is not modelled.
- Packing.UnpackPacked: positive widths for the same reason.
- Locks: mutexes of the daemon only; the client library's receive mutexes are never nested.
- The client library's own list of API handlers (`src/easyipc_support.c:600-652`), which only grows.
