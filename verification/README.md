# letmein: a Dafny model of the knock daemon and its firewall

letmein opens a port of a server for one client address after the client has proved, in a
challenge-response exchange, that it knows a shared key. `letmeind` runs the exchange, and the
privileged daemon `letmeinfwd` keeps time-limited leases in memory and mirrors them into an nftables
chain. This project models that path from configuration text to packets and proves what it promises.
`dafny verify dfyconfig.toml` checks all of it.

## How the model is built

| files | what they model |
|---|---|
| `Wire`, `Text`, `Strings` | fixed-width integers, printing and parsing of numbers, the string functions of Rust's standard library that letmein calls |
| `Addr` | IP addresses and the text Rust prints for them, IPv6 zero compression included |
| `Nftables`, `Kernel`, `Listing` | rules, rule comments, command batches; the kernel as an object whose calls may fail; choosing handles to delete |
| `Firewall`, `FirewallRuns`, `LeaseLife`, `Clashes` | the lease manager as a state machine, its invariant, theorems about whole runs, exactly how long a lease lives, and what happens without port typing |
| `NftFirewall`, `FirewallService` | the lease manager as a mutable object that makes only those steps |
| `UdpDispatch`, `UdpDispatcher` | UDP connection tracking: state machine and mutable object |
| `Messages`, `FirewallMessages`, `Frames`, `Links` | both wire formats, authentication input, and the loops that move frames over streams in pieces |
| `Sessions`, `Server`, `SessionFacts`, `Protocol` | the server's protocol as an event machine, any number of interleaved sessions, what their histories mean on their own, and `run` as straight-line code that follows the machine |
| `FirewallServer`, `Client`, `EndToEnd` | the Unix-socket side of `letmeinfwd`, the client, and all parts together |
| `Safety` | the main safety theorem, across sessions, firewall runs and packets |
| `Ini`, `Tables`, `KeyLines`, `ResourceLines` | configuration files, key and resource tables, the line printed by `gen-key`, and resource lines as documented |

Assumptions, all visible in the code:

- The kernel applies a batch completely or not at all, takes handles from a counter, refuses to delete a
  rule that is not there, and lists exactly its rules in any order. Any call may also fail for no reason
  (`Kernel.faulty`). Nobody else writes to the letmein chain.
- Each call of the lease manager and of the UDP dispatcher is one atomic step, because a mutex is held
  for the whole call. Times are integers that are passed in; the clock need not be monotone.
- HMAC-SHA3-256 is any function from key and bytes to a token. It is never assumed to be injective, which
  would be impossible for 52 bytes of input and 32 of output. Results that rest on it end in "or here are
  two different inputs with the same token". Challenges do not repeat.
- Random salts and nonces, results of reads and writes, and time-outs are parameters.

Where code and documentation differ the model follows the code: operation 5 (Close) exists although
doc/PROTOCOL.md lists operations up to 4 only; a GoAway that answers a first message other than Knock and
Close carries the identifier 0xFFFFFFFF rather than the client's; and with `debug` on, kernel failures while removing
rules are not reported, although doc/CONFIGURATION.md describes the option as output only.

## Results

*Main theorem.* `Safety.AcceptedMeansAuthenticated`: take any interleaving of sessions under arbitrary
inbound messages, and any firewall run that makes only calls that sessions asked for, one for each request,
with debug off and no failed close or maintain. Right after maintenance, every packet that the chain accepts
and that does not go to the control port belongs to an open call less than a time-out ago and not closed
since; and before that call its session, from the packet's source, had been fully authenticated for a Knock
on a resource with this port and protocol that its user may use. Nothing is said about the time between
request and call. There are never more open calls than such sessions (`OpensBounded`).

*Firewall.* `Inv` holds in every run, under every pattern of kernel failures and in both debug modes: no
rule of a live lease and no control rule is ever missing, and every other rule in the chain belongs to a
lease whose removal failed since the last complete rebuild (a "dirty" lease). From it follow exactness of
the chain and of the reported rule count (`RunStaysSynced`, `Serve`), recovery (`RebuildRecovers`), bounded
openness (`OpenOnlyWhileJustified`), the meaning for packets (`PacketMeaning`), and that nothing else in the
kernel is touched. With a working kernel the chain is exact in every run, also with debug on. A lease is in
memory iff its last open was not followed by a close or by a maintenance at or after the end of its
time-out (`LeaseIff`), so an open in force always lets its packets through (`InForceAccepts`), and without
failed removals nothing else does, the control port aside (`AcceptedIffInForce`). Hosts and packets are
compared octet by octet (`SameHost`), which decides the IPv4-mapped addresses of a dual-stack server.

*What turned out false.* (1) Leases of one address that share port and protocol, such as 80/TCP and
80/TCP+UDP, share a rule comment. A clean removal leaves the rules of another lease in place if and only if
each rule that it shares with a removed lease was in the chain more than once (`RemovalSparesIff`). `CutRun`
is a run for any two such leases that ends with a lease in memory whose rule is gone; in `SparedRun` both
were opened and the close does no harm. The configuration's unique ports rule such leases out
(`RequestsAreTyped`, `ServerCallsAdmissible`). (2) The UDP dispatcher does not lower its datagram count when
it throws a full queue away. `Ledger` states the count exactly. The run-time assertion on its bound holds
iff the condition in `CountBoundIff` does, always without such a removal and never again after
`max_nr_conn` of them; the assertion at the last disconnect holds iff there was none (`CountZeroIff`). For
all sizes above zero there are runs in which each fails (`BoundCanBeExceeded`, `LastCountCanBePositive`);
for other sizes there is none (`NoRoomNoCount`). (3) A `gen-key` line reads back iff the key is not all 00 or
all FF (`GeneratedKeyLoads`).

*Configuration.* The parsers are stated on the text itself: what a line is (`BlankIff`, `SectionIff`,
`EntryIff`), what lines a text has (`LinesOf`), what trimming and splitting give (`TrimIff`, `SplitOfJoin`),
and that resource lines in the documented form read back as the resource they were written for
(`ResourceLineReads`).

*Protocol.* For all inputs, policies and interleavings: the firewall is asked at most once per session,
only for the peer's own address and a permitted, configured, non-control port, after a valid initial
message and a response over this session's challenge (`RequestMeans`); messages keep their order and carry
the right identifiers; a rejection is followed by a GoAway iff the error policy asks for no more than the
history has shown (`RejectionTold`); one response authenticates one session. Connected to an entitled client, a server always asks the
firewall for the client's resource, and the client gets its ComeIn iff the answer is Ack (`Completeness`);
with a working kernel that is always so, and the lease is then in effect, or gone (`HonestExchange`).

## Model

| member | source | states |
|---|---|---|
| Addr.AddrTextInjective | letmeinfwd/src/firewall/nftables.rs:125-134 | the text of an address, as written into rule comments, determines the address, with compressed and IPv4-mapped IPv6 forms |
| Addr.GapIsBest | letmeinfwd/src/firewall/nftables.rs:125-128 | the "::" of an address text stands for the longest run of zero groups, and for the first one of several |
| Addr.CutIff | letmeinfwd/src/firewall/nftables.rs:125-128 | an address text has "::" iff two zero groups stand next to each other |
| Addr.NormalIff | letmeinfwd/src/firewall/nftables.rs:61-90 | the address that a rule is written for is the source of the host's packets: the same octets, or the last four of an IPv4-mapped address |
| Nftables.CommentInjective | letmeinfwd/src/firewall/nftables.rs:123-134 | a rule comment determines address, protocol and port, so it can serve as the identifier of a rule |
| Nftables.FamilyIff | letmeinfwd/src/firewall/nftables.rs:29-90 | rules can be written for every address under "inet", for IPv4 and IPv4-mapped addresses under "ip", and for the other IPv6 addresses under "ip6" |
| Nftables.ControlComment | letmeinfwd/src/firewall/nftables.rs:123-134 | the comment of the default control port's rule, letter by letter |
| Nftables.AddsEffect | letmeinfwd/src/firewall/nftables.rs:470-479 | a batch of add commands always executes and adds one entry per rule under new handles |
| Nftables.DeletesEffect | letmeinfwd/src/firewall/nftables.rs:499-508 | a batch of delete commands executes iff it names existing rules of the chain, none twice, and removes exactly those |
| Firewall.CommentOwner | letmeinfwd/src/firewall/nftables.rs:232-278 | in an accounted chain a lease's comment is only on that lease's own rules |
| Firewall.OpenKeeps | letmeinfwd/src/firewall/nftables.rs:554-571 | opening, refreshing and failing to open keep the invariant |
| Firewall.RemovalKeeps | letmeinfwd/src/firewall/nftables.rs:482-519 | a clean removal keeps the invariant and leaves no rule of a clean lease behind |
| Firewall.FailureKeeps | letmeinfwd/src/firewall/nftables.rs:485-516 | after a failed removal the invariant holds with the dropped leases marked dirty |
| Firewall.SyncedIffClean | letmeinfwd/src/firewall/nftables.rs:356-405 | the invariant with nothing dirty is the same as: the chain is exactly the control rules plus the lease rules |
| Firewall.StepKeeps | letmeinfwd/src/firewall/nftables.rs:522-617 | every open, close and maintain call keeps the invariant, whatever the kernel does |
| FirewallRuns.RunKeepsInv | letmeinfwd/src/firewall/nftables.rs:356-617 | the invariant holds at the end of every run |
| FirewallRuns.RunStaysSynced | letmeinfwd/src/firewall/nftables.rs:535-616 | with debug off and no close or maintain error the chain equals control rules plus lease rules as a multiset |
| FirewallRuns.RebuildRecovers | letmeinfwd/src/firewall/nftables.rs:539-543 | from any state with stale rules, a maintain whose removal failed and whose rebuild succeeded restores exactness |
| FirewallRuns.RemovesOnlyItsOwn | letmeinfwd/src/firewall/nftables.rs:482-519 | in every run no delete batch takes out a control rule or a rule of a lease that stays |
| FirewallRuns.RunKeepsForeign | letmeinfwd/src/firewall/nftables.rs:421-467 | rules in other tables, families or chains are never changed, added or removed |
| FirewallRuns.LeaseOrigin | letmeinfwd/src/firewall.rs:62-101 | every lease in memory goes back to a successful open that was not followed by a close, and expires one time-out after it |
| FirewallRuns.OpenOnlyWhileJustified | letmeinfwd/src/firewall.rs:115-134 | right after a successful maintain every lease rule in the chain is covered by an open less than a time-out ago and not closed since, or belongs to a dirty lease |
| FirewallRuns.PacketMeaning | letmeinfwd/src/firewall/nftables.rs:61-182 | the chain accepts a packet iff its family passes the table and it goes to an enabled control port, or a lease covers protocol, port and host, where hosts are compared octet by octet with IPv4-mapped addresses standing for IPv4 |
| LeaseLife.LeaseIff | letmeinfwd/src/firewall.rs:62-134 | in every run a lease is in memory iff its last successful open was not followed by a close or by a maintenance at or after the end of its time-out, and it ends one time-out after that open |
| LeaseLife.InForceAccepts | letmeinfwd/src/firewall/nftables.rs:533-571 | in every run, whatever failed, such a lease lets the packets of its host to its port through |
| LeaseLife.AcceptedIffInForce | letmeinfwd/src/firewall/nftables.rs:522-617 | with debug off and no failed removal a packet is accepted iff it goes to the control port or such a lease covers it |
| Clashes.AnyRunAccounted | letmeinfwd/src/firewall/nftables.rs:420-479 | in every run, with any mix of port types, each rule in the chain is a control rule or a rule of a lease that was opened with success |
| Clashes.RemovalSparesIff | letmeinfwd/src/firewall/nftables.rs:481-519 | in every run, a clean close or maintain leaves another lease's rules in place iff each rule shared with a removed lease was in the chain more than once |
| Clashes.CutRun | letmeinfwd/src/firewall/nftables.rs:595-612 | for any two leases that share a rule: opening one and closing the other, which was not open, leaves the first in memory without that rule |
| Clashes.SparedRun | letmeinfwd/src/firewall/nftables.rs:247-277 | if both were opened, closing one takes one of two equal entries and the other lease keeps all its rules |
| Kernels.Kernel.List | letmeinfwd/src/firewall/nftables.rs:189-230 | a listing shows all rules and no others, or fails |
| Kernels.Kernel.Apply | letmeinfwd/src/firewall/nftables.rs:407-418 | a batch takes effect as a whole or not at all |
| Listing.FindHandle | letmeinfwd/src/firewall/nftables.rs:232-278 | gives the handle of the first rule of the chain with the comment, or none |
| Listing.FirstMatchSound | letmeinfwd/src/firewall/nftables.rs:247-277 | a handle is found iff a matching rule is listed, and is the handle of one |
| Listing.GenDeleteLease | letmeinfwd/src/firewall/nftables.rs:280-353 | the handles found for a lease's one or two rules, skipping rules that are not there |
| Listing.HandlesArePicked | letmeinfwd/src/firewall/nftables.rs:499-505 | the handles collected are one entry for each kernel rule of these leases, and nothing else |
| Listing.OneLeaseDistinct | letmeinfwd/src/firewall/nftables.rs:321-347 | for one lease no handle is named twice |
| Listing.HandlesDistinctIff | letmeinfwd/src/firewall/nftables.rs:499-508 | for any different leases a handle is named twice iff two of them share an entry of the chain |
| NftFirewalls.NftFirewall.New | letmeinfwd/src/firewall/nftables.rs:363-391 | on success the chain holds exactly the control rules; on failure the kernel is unchanged |
| NftFirewalls.NftFirewall.FullRebuild | letmeinfwd/src/firewall/nftables.rs:420-467 | generating rules cannot fail; on success the chain is rebuilt, or empty during shutdown; on failure nothing changes |
| NftFirewalls.NftFirewall.AddLease | letmeinfwd/src/firewall/nftables.rs:469-479 | adds exactly the lease's rules, or fails without effect when the family does not fit or the kernel fails |
| NftFirewalls.NftFirewall.RemoveLeases | letmeinfwd/src/firewall/nftables.rs:481-519 | removes one entry per rule or nothing; a working kernel refuses the batch iff two of the leases share an entry of the chain; with debug on failure is reported as success |
| NftFirewalls.NftFirewall.PruneTimeouts | letmeinfwd/src/firewall.rs:115-134 | drops and returns exactly the timed-out leases, each once |
| NftFirewalls.NftFirewall.OpenPort | letmeinfwd/src/firewall/nftables.rs:551-571 | makes the open step of the state machine; opens only, and with a working kernel always, what the configured table can serve |
| NftFirewalls.NftFirewall.ClosePort | letmeinfwd/src/firewall/nftables.rs:573-616 | makes the close step; the lease leaves memory even when the kernel fails |
| NftFirewalls.NftFirewall.Maintain | letmeinfwd/src/firewall/nftables.rs:533-547 | makes the maintain step: prune, remove, and rebuild where removal failed; with a working kernel removal is clean iff no two pruned leases share an entry, so always without clashes; the number of control rules stays right |
| NftFirewalls.NftFirewall.Shutdown | letmeinfwd/src/firewall/nftables.rs:523-531 | forgets all leases; on success the chain is empty and other rules are untouched |
| NftFirewalls.NftFirewall.TotalRuleCount | letmeinfwd/src/firewall/nftables.rs:393-405 | in every state of the invariant the reported total is at most the number of rules in the chain, and with nothing dirty it is that number |
| NftFirewalls.GenAddLease | letmeinfwd/src/firewall/nftables.rs:161-182 | rules are generated iff the table family can match the address, and they are the lease's rules |
| NftFirewalls.GeneratedStep | letmeinfwd/src/firewall/nftables.rs:457-462 | adding one more lease keeps the rebuild list complete and, without clashes, free of duplicates |
| FirewallService.Serve | letmeinfwd/src/server.rs:127-131 | executing any sequence of calls on the object is a run with these calls as events; the invariant holds at its end; chain and every reported total are exact with a working kernel, and with debug off while no removal has failed |
| UdpDispatch.LedgerKept | letmein-proto/src/socket.rs:79-139 | every step keeps the limits and the exact count: queued datagrams plus one full queue per overflow removal |
| UdpDispatch.FifoKept | letmein-proto/src/socket.rs:175-193 | every step keeps: handed out followed by queued equals taken in, and each entry is accepted at most once |
| UdpDispatch.StepFrame | letmein-proto/src/socket.rs:96-120 | a step never changes the entry of another peer |
| UdpDispatch.RunIsGood | letmein-proto/src/socket.rs:68-205 | ledger and per-peer order hold in every reachable state |
| UdpDispatch.CountExact | letmein-proto/src/socket.rs:122-123 | without overflow removals the count is exact, within its bound, and positive iff something is queued |
| UdpDispatch.CountZeroIff | letmein-proto/src/socket.rs:195-204 | with no connection left the count is zero iff no full queue was thrown away |
| UdpDispatch.CountBoundIff | letmein-proto/src/socket.rs:102-123 | exactly when the assertion on the count holds after a datagram was queued |
| UdpDispatch.BoundCanBeExceeded | letmein-proto/src/socket.rs:102-123 | for all limits above zero, a run in which a queued datagram takes the count past its bound |
| UdpDispatch.LastCountCanBePositive | letmein-proto/src/socket.rs:195-204 | for all limits above zero, a run that ends with a disconnect, no connection and a positive count |
| UdpDispatch.NoRoomNoCount | letmein-proto/src/socket.rs:96-123 | with a limit of zero the state stays empty in every run |
| UdpDispatcher.UdpDispatcherRx.TryRecv | letmein-proto/src/socket.rs:79-139 | a read has no effect, or queues the datagram, or is refused for want of room, or closes an entry whose queue is full, each with its outcome; watchers are notified iff the datagram was queued for a connection not yet accepted |
| UdpDispatcher.UdpDispatcherRx.TakeIn | letmein-proto/src/socket.rs:93-134 | the insert, check, push and evict sequence on the map has the effect of one step |
| UdpDispatcher.UdpDispatcherRx.RecvNotify | letmein-proto/src/socket.rs:141-150 | receivers are woken iff the count is positive, which without overflow removals is iff something is queued |
| UdpDispatcher.UdpDispatcherRx.TryAccept | letmein-proto/src/socket.rs:152-173 | accepts one connection not accepted before, in any map order; none only if all are accepted, and then receivers are woken iff the count is positive |
| UdpDispatcher.UdpDispatcherRx.TryRecvFrom | letmein-proto/src/socket.rs:175-193 | hands out the oldest datagram of the peer; the count never underflows; receivers are woken iff it stays positive |
| UdpDispatcher.UdpDispatcherRx.Disconnect | letmein-proto/src/socket.rs:195-204 | removes the entry; the final assertion fails iff a full queue was thrown away before |
| Messages.ParseBytes | letmein-proto/src/lib.rs:344-398 | every message survives encoding and decoding |
| Messages.BytesParse | letmein-proto/src/lib.rs:365-398 | every accepted byte string is the encoding of what it decodes to |
| Messages.RejectedIff | letmein-proto/src/lib.rs:366-397 | bytes are rejected iff the size, the magic or the operation number is wrong |
| Messages.RawLayout | letmein-proto/src/lib.rs:628-646 | the encoding of a ComeIn message byte by byte |
| Messages.Layout | letmein-proto/src/lib.rs:344-363 | where magic, operation number, user, resource, salt and token are in every message, and with which numbers |
| Messages.AuthLayout | letmein-proto/src/lib.rs:268-289 | the authenticated bytes in their order; without a challenge the last 32 are zero |
| Messages.AuthInputInjective | letmein-proto/src/lib.rs:268-289 | the authenticated bytes determine operation, user, resource, salt and challenge |
| Messages.SameTokenAgrees | letmein-proto/src/lib.rs:297-318 | two valid messages with one token under one key agree on all authenticated fields, or the token function collides |
| Messages.Serialize | letmein-proto/src/lib.rs:344-363 | filling the buffer field by field gives the 56-byte encoding |
| FirewallMessages.FwParseBytes | letmein-fwproto/src/lib.rs:253-300 | every firewall message survives encoding and decoding |
| FirewallMessages.FwBytesParse | letmein-fwproto/src/lib.rs:273-300 | every accepted byte string is the encoding of what it decodes to |
| FirewallMessages.FwRejectedIff | letmein-fwproto/src/lib.rs:274-299 | bytes are rejected iff the size or one of the three enumerations is wrong |
| FirewallMessages.RequestLayout | letmein-fwproto/src/lib.rs:138-157 | the encoding of an open request for an IPv4 address byte by byte |
| FirewallMessages.Layout | letmein-fwproto/src/lib.rs:253-271 | where operation, port type, port, address type and address are in every message, and with which numbers |
| FirewallMessages.ReplyLayout | letmein-fwproto/src/lib.rs:216-230 | a reply is its operation number and zeros |
| FirewallMessages.OctetsRoundTrip | letmein-fwproto/src/lib.rs:169-189 | packing and unpacking an address gives the address |
| FirewallMessages.PackedIffPadded | letmein-fwproto/src/lib.rs:169-189 | unpacking and packing restores the octets iff the padding of an IPv4 address is zero |
| FirewallMessages.RequestFields | letmein-fwproto/src/lib.rs:192-251 | a request carries exactly the address, type and port it was made from |
| FirewallMessages.Serialize | letmein-fwproto/src/lib.rs:253-271 | filling the buffer field by field gives the 24-byte encoding |
| Frames.Writer.Send | letmein-proto/src/socket.rs:394-417 | for any schedule of partial writes the wire has exactly the bytes that the socket takes before it breaks, at most the frame; sending completes iff that is all of it |
| Frames.Reader.Recv | letmein-proto/src/socket.rs:433-460 | for any schedule of arrivals and partial reads exactly the bytes that are readable before the stream breaks are taken, at most the frame, and a completed frame is exactly these next bytes of the wire |
| Frames.RecvAll | letmein-fwproto/src/lib.rs:324-347 | frames received one after another are a prefix of the frames sent, each taking exactly its bytes; with everything arrived and enough reads none is missing |
| Links.SendMessage | letmein-proto/src/lib.rs:400-407 | sending a message completes iff its whole encoding is on the wire, and does if the socket accepts data often enough |
| Links.RecvMessages | letmein-proto/src/lib.rs:409-421 | messages received are a prefix of the messages sent, in order and unchanged, each taking exactly one frame; with everything arrived and enough reads none is missing |
| Links.TransferFwMessage | letmein-fwproto/src/lib.rs:302-347 | a firewall message is received, unchanged, iff its whole frame was sent and read, and is if both sockets are ready often enough |
| Sessions.DeliverKeeps | letmeind/src/protocol.rs:119-269 | every input keeps authorisation, message order, error policy and the recorded authentication level |
| Sessions.DeliverGrows | letmeind/src/protocol.rs:19-31 | the authentication state never goes down |
| Sessions.RejectEnds | letmeind/src/protocol.rs:92-117 | ending with or without GoAway, as the policy says, keeps the history lawful |
| Sessions.FeedKeeps | letmeind/src/protocol.rs:119-269 | all of this holds for every input sequence and policy |
| Server.SystemInv | letmeind/src/main.rs:157-190 | it holds for every session in every interleaving of sessions |
| Server.OneResponseOneSession | letmein-proto/src/lib.rs:297-307 | one response authenticates at most one session, or the token function collides on two given inputs |
| Server.ResponseAgreement | letmeind/src/protocol.rs:205-213 | a token made by a client was meant for this user, resource, salt and challenge, or there is a collision |
| Server.LeaseCoversResource | letmeind/src/protocol.rs:223-229 | the port type chosen covers exactly the resource's protocols |
| Server.RequestsAreTyped | letmeind/src/protocol.rs:215-260 | every request is for the peer, a configured non-control port, and the one type that belongs to the port |
| SessionFacts.RequestMeans | letmeind/src/protocol.rs:119-262 | a request to the firewall is the only one of its session and follows a valid Knock or Close, the session's challenge and a valid Response; the user is in the resource's list or there is none; address, port and protocols are those of peer and resource |
| SessionFacts.ChallengedIff | letmeind/src/protocol.rs:124-198 | exactly which first messages are answered with a challenge |
| SessionFacts.ConfirmedIff | letmeind/src/protocol.rs:200-213 | exactly which messages are accepted as the response |
| SessionFacts.SystemWorded | letmeind/src/protocol.rs:109-116 | every message sent carries the identifiers of the first message (0xFFFFFFFF if that was no Knock or Close), and the challenge is the session's own |
| SessionFacts.RejectionTold | letmeind/src/protocol.rs:92-117 | a rejection is followed by a GoAway iff the policy is to report always, or basic or full authentication, as the policy asks, shows in the history |
| ProtocolRun.Protocol.SendGoAway | letmeind/src/protocol.rs:92-117 | sends GoAway exactly where the policy allows it at the current level |
| ProtocolRun.Protocol.RecvMsg | letmeind/src/protocol.rs:55-84 | passes a message on iff operation, user and resource match, and ends the session otherwise |
| ProtocolRun.Protocol.Run | letmeind/src/protocol.rs:119-269 | the history and final state are those of the session machine on the same inputs, and lawful; no assertion fails |
| FirewallServer.AddrCheck | letmeinfwd/src/server.rs:44-56 | comparing the address as a number with zero and the maximum is the same as: its bytes are not all zeros and not all ones |
| FirewallServer.ResourceIdByPort | letmein-conf/src/lib.rs:605-623 | finds a resource with the port whose list has the user or is empty, iff there is one; with unique ports the only one, in any order |
| FirewallServer.HandleMessage | letmeinfwd/src/server.rs:75-198 | for any bytes the firewall is reached iff the request is acceptable, with exactly that request; Ack iff it succeeded, Nack if it failed or was refused, and no reply iff there was no request |
| FirewallServer.AcceptableBytes | letmeinfwd/src/server.rs:44-198 | exactly which 24 bytes reach the firewall |
| FirewallServer.RequestArrives | letmeind/src/firewall_client.rs:30-86 | a request built by letmeind is decoded as the same operation, address, type and port |
| Client.InitialMsg | letmein/src/command/knock.rs:94-96 | the first message carries a valid token without challenge |
| Client.ResponseMsg | letmein/src/command/knock.rs:107-109 | the response carries a valid token for the challenge it answers |
| Client.RecvSpecific | letmein/src/client.rs:81-101 | a message is passed on, unchanged, iff it has the wanted operation, and never if it is a GoAway |
| Client.Sequence | letmein/src/command/close.rs:53-100 | succeeds iff both messages went out and Challenge, then ComeIn came back; responds only to a Challenge |
| EndToEnd.Handshake | letmein/src/command/knock.rs:74-121 | connected to an entitled client, the server always asks the firewall for the resource and the peer, after exactly the initial message and the response to its challenge |
| EndToEnd.AskFirewall | letmeind/src/firewall_client.rs:20-87 | with a working kernel a permitted request frame is decoded, acknowledged, and makes a successful open step or a clean close step |
| EndToEnd.Completeness | letmein/src/command/knock.rs:74-121 | whenever a client whose user is in the resource's list, or finds none, and a server are connected through the wire formats, the history is exactly the full one, and the session and the client succeed iff the firewall answers with Ack |
| EndToEnd.NoLeaseNoRule | letmeinfwd/src/firewall/nftables.rs:573-616 | without a lease, and without a failed removal of it, no rule of it is in the chain |
| EndToEnd.HonestExchange | letmeind/src/protocol.rs:119-269 | client, server and firewall on each other's messages: the client ends with ComeIn; then the lease is there and its packets are accepted, also after a refresh (Knock), or the lease and its rules are gone (Close) |
| EndToEnd.ServerCallsAdmissible | letmeinfwd/src/firewall.rs:62-80 | whatever clients send, all calls that sessions cause have one type per port and never name the control port |
| Safety.OpenWasKnocked | letmeind/src/protocol.rs:205-260 | a request to open comes only from a session fully authenticated for a Knock on exactly that lease |
| Safety.AcceptedMeansAuthenticated | letmeinfwd/src/firewall/nftables.rs:522-617 | every accepted non-control packet goes back to an unexpired, unclosed open call whose session, from the same host, had been fully authenticated for a Knock on this resource by a user that its list allows |
| Safety.OpensBounded | letmeind/src/protocol.rs:237-260 | there are never more open calls than sessions fully authenticated for a Knock |
| Inis.AddLine | letmein-conf/src/ini.rs:97-147 | one line is accepted iff the file so far stays well formed, and the tables then represent it |
| Inis.Ini.ParseStr | letmein-conf/src/ini.rs:90-150 | a file is accepted iff well formed; then the tables represent it; on error the old contents stay |
| Inis.LookupMeaning | letmein-conf/src/ini.rs:152-160 | a lookup gives a value iff the last line for the option in its section gives it |
| Inis.Classify | letmein-conf/src/ini.rs:97-143 | section and option names are never empty |
| Inis.BlankIff | letmein-conf/src/ini.rs:97-105 | a line is skipped iff it is white space, or white space and a comment |
| Inis.SectionIff | letmein-conf/src/ini.rs:106-126 | a line opens a section iff it is a name in brackets with white space around |
| Inis.EntryIff | letmein-conf/src/ini.rs:127-141 | a line is an option iff it is a name, an equal sign and a value, where white space around the name does not count |
| Strings.ParseHex | letmein-conf/src/parse.rs:50-74 | accepts exactly texts with two hexadecimal digits per byte and gives these bytes |
| Strings.SplitOfJoin | letmein-conf/src/parse_items.rs:28-50 | splitting gives back exactly the parts that a text was joined from |
| Strings.TrimIff | letmein-conf/src/parse.rs:24-31 | trimming gives a text iff it is what is left without white space at both ends |
| Strings.LinesOf | letmein-conf/src/ini.rs:97-98 | the lines of a text: what stands before each LF, without a CR, and a rest that is not empty |
| Strings.PortReads | letmein-conf/src/parse.rs:24-31 | a decimal number up to 65535 with white space around reads as that number, a larger one is an error |
| Strings.HexPortReads | letmein-conf/src/parse.rs:24-31 | after "0x" the number is hexadecimal |
| Strings.IdReads | letmein-proto/src/lib.rs:90-95 | identifiers are hexadecimal and fit into 32 bits |
| Strings.RadixRejects | letmein-conf/src/parse.rs:24-31 | texts without digits or with anything else are no numbers |
| Strings.LowerWords | letmein-conf/src/lib.rs:328-341 | protocol words count in any letter case |
| Tables.ParseItems | letmein-conf/src/parse_items.rs:22-57 | whatever slash-free parts the text is joined from: the items of these parts in order, or none iff some part is no item |
| Tables.WordsItem | letmein-conf/src/parse_items.rs:46-49 | a part without a colon is the list of its trimmed words |
| Tables.PairItem | letmein-conf/src/parse_items.rs:29-45 | a part with a colon is a key with one value, or with several if there are commas, all trimmed; an empty key is an error |
| Tables.ReadResource | letmein-conf/src/lib.rs:295-361 | succeeds iff the items describe a resource, and gives the only one they describe |
| Tables.GetResources | letmein-conf/src/lib.rs:288-387 | visiting the options in any order: a table, or none exists because a line is unreadable or repeats an identifier or port |
| Tables.ResourceTableUnique | letmein-conf/src/lib.rs:288-387 | there is at most one resource table, so iteration order does not matter |
| Tables.TableIsOk | letmein-conf/src/lib.rs:346-375 | ports are unique and every resource has a protocol |
| ResourceLines.ResourceLineReads | letmein-conf/src/lib.rs:288-387 | the documented form of a resource line, for every identifier, port, protocols and users, reads as exactly this identifier and resource |
| Tables.GetKeys | letmein-conf/src/lib.rs:267-286 | visiting the options in any order: a table, or none exists |
| Tables.KeyTableUnique | letmein-conf/src/lib.rs:267-286 | there is at most one key table |
| KeyLines.UserReads | letmein-proto/src/lib.rs:83-95 | a printed user identifier is read back as the same identifier |
| KeyLines.LineShape | letmein/src/command/genkey.rs:18-21 | the printed line is eight upper-case hexadecimal digits, an equal sign with spaces, and 64 digits |
| KeyLines.LoadKeys | letmein-conf/src/lib.rs:267-286 | reading a text gives keys iff it is well formed and its section KEYS has a key table, and they are the only keys it gives |
| KeyLines.GeneratedKeyLoads | letmein/src/command/genkey.rs:14-22 | for every user and key, a file with the printed line under [KEYS] loads as exactly that user and key, iff the key is not all 00 or all FF |

## Left out

- Sockets, tokio wake-ups, mutexes as such, Unix credentials, PID files, systemd hand-over and signal handling: plumbing around the modelled steps.
- The closed flags of network sockets and the retry loops around the UDP dispatcher: only its locked steps are modelled.
- Accept loops and connection semaphores: no bound on concurrent sessions is claimed.
- HMAC-SHA3, the random source and constant-time comparison: parameters, as described above.
- The nftables crate, its JSON and the `nft` program: replaced by the kernel contract; the availability probe with `--help` counts as one more way in which `new` may fail.
- `get_port`, `get_debug`, the error-policy, seccomp and NFTABLES options, durations and `load_ini`: easy members that read one option each.
- Decoding of UTF-8 configuration files: the parser starts from characters; lower-casing is modelled for ASCII letters, which decides comparisons with ASCII words.
- Resolver, command line, address-mode selection, output to the console, seccomp filters and the verification stub.
- Overflow of the dispatcher's product `max_nr_conn * Q_SIZE` in machine integers.
- Text of error messages: an error is modelled as an outcome without its wording.
