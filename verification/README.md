# A Dafny model of qeli's packet path and audit tools

qeli is a VPN. This project models the parts of it whose behaviour is decided by byte
layouts, sequence numbers and orderings, and proves what they promise for every input and
every run. It covers two pieces of the daemon, the anti-replay window and the recordizer that
packs packets into records, and the decoders, encoders and equivalence checks of the audit
tools that release decisions rest on.

`dafny verify dfyconfig.toml` checks everything; no file needs another outside this directory.

## Main results

* **Replay protection.** The 2048-bit window, kept in 32 words and shifted in place, gives the
  verdicts of a plain set of accepted numbers for every sequence of arrivals. No number gets
  through twice, and traffic reordered by less than a window loses nothing.
* **Recordizer.** Whatever bytes arrive, a receiver's memory accounting is exact and its limits
  hold. Over a whole session of honest records, in any order, with rejected records and expiry, only
  packets that were sent are handed out, and none twice unless its slices repeat or overlap. When
  the slices of any packets are mixed in any way over any records and each arrives once, all
  packets are handed out if and only if every record finds the open packets within the timeout,
  each packet respects the packet limit and, if it is cut, the fragment cap, and the packets open
  together fit the inflight and byte limits after every slice. Over an ordered carrier everything
  pushed into a sender comes out once, in order and unchanged, for every receiver whose limits
  cover the sender's (packet size and, if it fragments, slices, one packet in flight and one packet
  of buffer), provided as many records in a row as a packet may have slices arrive within the
  reassembly timeout.
* **Capture audit.** TCP segments of one stream, overlapping, repeated, reordered and numbered
  across the wrap, are joined to the longest gap-free piece of that stream. Cutting a capture
  leaves a flow a prefix of its TLS records if and only if the chunks kept in the end cover those
  records; a retransmission shorter than the original can break that, and a family of two-packet
  captures shows it. The lenient and the strict record splitter agree, and the ServerHello reader
  accepts exactly the printed hellos.
* **Dependency audit.** For every advisory service: the audit has a result exactly when every batch
  of 100 is answered usably and each package's pages, from the one its batch was answered with, form
  a chain with at most 100 distinct tokens. For a service that answers each query on its own,
  batching and paging are invisible: the result is that of asking for each package alone. The lock
  files merge into a strictly sorted inventory that loses no use. The whole command returns 0 exactly
  when no lock line is malformed, something is locked, every pin is kept, and every page of every
  package, from the one its batch was answered with, was read and is clean.
* **Firewall audit.** The stable sort is a canonical form, and the restart check answers yes
  exactly when both firewalls protect and the rules differ by rescheduling only. The textual
  DROP-before-ACCEPT test is equivalent to a statement about packets.
* **DNS.** Two independently written question parsers accept the same messages, characterised by
  a grammar; the one difference, a crash on labels that are not ASCII, has its exact condition and
  an example of seventeen bytes, which is the least length. Replies read back as a resolver reads
  them and are fixed points. The DNS-over-TLS loop is a function of the byte stream alone, for
  every chunking and every timeout.
* **Checksums, DHCP options, statistics.** The folding loop computes the residue; patched headers
  verify; a changed word goes unnoticed exactly in one case. Option parsing inverts encoding and
  accepts nothing else. AUC and the Wilson interval have their algebraic laws over the reals.

## How the model is made

Code that changes things in place is a class or a method with loops: the replay window over an
array of words, the recordizer's sender and receiver, the transport and the parser loops. Each
is tied to a function or predicate that says what it should compute, and the lemmas are about
those. Code that only computes is functions and lemmas. One module follows one component.

* A machine word is the set of its bit positions, a byte an integer below 256, a sequence number
  an integer with its modulus written out.
* Time is an integer parameter. Random record sizes are arbitrary choices within the configured
  range. The advisory service is an arbitrary function from query lists to JSON values, fixed
  while an audit lasts. A transport is an arbitrary schedule of chunks, timeouts and endings.
* Exceptions and failed assertions are `None` or an error value, never a precondition.
* The square root in the Wilson interval is a parameter that squares to the term under the root.

## Model

| member | source | states |
|---|---|---|
| `ReplayWindow.NeverAcceptedTwice` | qeli/src/protocol/packet.rs:217-248 | over any sequence of arrivals, two accepted arrivals never carry the same number |
| `ReplayWindow.BoundedReorderingIsLossless` | qeli/src/protocol/packet.rs:217-248 | when no number comes more than a window behind an earlier one, an arrival is accepted exactly when it is new, and everything that arrived is remembered |
| `ReplayWindow.ShiftedBit` | qeli/src/protocol/packet.rs:193-215 | shifting word by word with the carry from the word below moves every bit of the 2048 up by the same distance, and nothing appears below |
| `ReplayWindow.ShiftedWordsShiftBits` | qeli/src/protocol/packet.rs:193-215 | the whole shifted array is the array moved up by n bits, for every n |
| `ReplayWindow.Window.constructor` | qeli/src/protocol/packet.rs:170-176 | a new window has accepted nothing |
| `ReplayWindow.Window.Clear` | qeli/src/protocol/packet.rs:228-229 | zeroing the words is a shift by the window's length or more |
| `ReplayWindow.Window.SetBit` | qeli/src/protocol/packet.rs:184-188 | exactly one more distance is marked, in place |
| `ReplayWindow.Window.Shift` | qeli/src/protocol/packet.rs:193-215 | the in-place loop from the top word down moves every bit up by n, although it reads words it has yet to overwrite |
| `ReplayWindow.Window.Begin` | qeli/src/protocol/packet.rs:218-224 | the first number is accepted and becomes the highest |
| `ReplayWindow.Window.Advance` | qeli/src/protocol/packet.rs:226-236 | a higher number is accepted and the window still mirrors the set of accepted numbers |
| `ReplayWindow.Window.Record` | qeli/src/protocol/packet.rs:239-247 | a new number inside the window is accepted and the window still mirrors the set |
| `ReplayWindow.Window.CheckAndRecord` | qeli/src/protocol/packet.rs:217-248 | the bit-array window accepts exactly the numbers the plain set of accepted numbers calls fresh |
| `ReplayWindow.ReplaySequence` | qeli/src/protocol/packet.rs:154-157 | for every sequence the verdicts of the bit array are those of the set model |
| `RecordizerWire.ParsePut` | qeli/src/protocol/recordizer.rs:437-466 | a frame written anywhere in a record is read back as itself and reading goes on right behind it |
| `Reassembler.FullCoverage` | qeli/src/protocol/recordizer.rs:529-544 | disjoint slices inside a packet never add up to more than its length, and when they reach it every byte is covered: counting received bytes is a sound completeness test |
| `Reassembler.StepKeeps` | qeli/src/protocol/recordizer.rs:455-544 | no frame, honest or not, breaks the invariant: slices disjoint and counted, buffered bytes exact, inflight, budget and fragment limits kept |
| `Reassembler.WalkKeeps` | qeli/src/protocol/recordizer.rs:436-548 | the same over any frames of any record, from any position |
| `Reassembler.ExpireKeeps` | qeli/src/protocol/recordizer.rs:555-567 | dropping expired packets keeps the invariant |
| `Reassembler.DecodeKeeps` | qeli/src/protocol/recordizer.rs:404-553 | whatever bytes are decoded, and whether or not decoding succeeds, the invariant holds afterwards |
| `Reassembler.Receiver.constructor` | qeli/src/protocol/recordizer.rs:379-385 | a new receiver holds nothing |
| `Reassembler.Receiver.Drop` | qeli/src/protocol/recordizer.rs:569-574 | the packet is gone and its bytes are given back |
| `Reassembler.Receiver.DropExpired` | qeli/src/protocol/recordizer.rs:555-567 | exactly the packets past the timeout are gone |
| `Reassembler.Receiver.StoreSlice` | qeli/src/protocol/recordizer.rs:521-544 | a slice is copied in and a completed packet leaves the table |
| `Reassembler.Receiver.Accept` | qeli/src/protocol/recordizer.rs:455-544 | one frame has the effect and the outcome of the model step, error cases included |
| `Reassembler.Receiver.AcceptAll` | qeli/src/protocol/recordizer.rs:436-552 | the frame loop stops at the first error, keeps earlier effects and hands out packets only at the end |
| `Reassembler.Receiver.Decode` | qeli/src/protocol/recordizer.rs:387-553 | a decoded record has the model's outcome, and the receiver stays within its limits |
| `RecordizerDelivery.CompleteIsThePacket` | qeli/src/protocol/recordizer.rs:529-544 | a packet whose slices were honest and whose count is full is the packet that was sent |
| `RecordizerDelivery.StepFaithful` | qeli/src/protocol/recordizer.rs:468-544 | in any reachable state, an honest slice leaves every pending packet a piece of what was sent, and what it completes is the packet sent |
| `RecordizerDelivery.RunFaithful` | qeli/src/protocol/recordizer.rs:436-552 | inside one record, honest slices in any order, interleaved and repeated, deliver only packets that were sent |
| `RecordizerDelivery.SessionFaithful` | qeli/src/server/handler.rs:2619-2648 | over a whole session, with honest records in any order and number, at any times, packets expiring and rejected records skipped, every packet handed out was sent and the limits hold throughout; how often is in RecordizerAccounting.AtMostOnce |
| `RecordizerDelivery.ReadSession` | qeli/src/server/handler.rs:2619-2648 | the reader's loop hands out what the model session hands out |
| `RecordizerAccounting.StepAccounts` | qeli/src/protocol/recordizer.rs:468-544 | bytes held of a packet, plus its length when it is handed out, are never more than the bytes held before and those of the frame, and a rejected frame adds none |
| `RecordizerAccounting.RejectionLoses` | qeli/src/protocol/recordizer.rs:436-552 | a rejected record loses bytes of some packet in it |
| `RecordizerAccounting.SessionValues` | qeli/src/server/handler.rs:2619-2648 | over a whole session of honest records, what is handed out are, one by one, the packets sent under the numbers handed out |
| `RecordizerAccounting.SessionAccounts` | qeli/src/server/handler.rs:2619-2648 | over a whole session, with expiry and rejected records, the copies of a packet handed out times its length are at most the bytes held at first and those that arrived; what was held counts for nothing once it is late |
| `RecordizerAccounting.AtMostOnce` | qeli/src/server/handler.rs:2619-2648 | if the slices of a packet that arrive do not repeat or overlap, in whatever order and however many are lost, no session hands the packet out twice |
| `RecordizerAccounting.RepeatedFrame` | qeli/src/protocol/recordizer.rs:468-475 | the condition is needed: a packet sent in one frame is handed out as often as the frame arrives |
| `RecordizerDelivery.WalkIsRun` | qeli/src/protocol/recordizer.rs:436-466 | decoding the bytes of a record is running the frames it was made of |
| `RecordizerDelivery.SliceStep` | qeli/src/protocol/recordizer.rs:468-544 | the next slice of a cut packet moves it on by one or, if it is the last, delivers it and restores the state from before the packet |
| `RecordizerDelivery.RunStream` | qeli/src/protocol/recordizer.rs:412-553 | any number of further frames of an ordered stream delivers exactly the packets they complete, and the state is a function of the position in the stream |
| `RecordizerDelivery.TooManySlices` | qeli/src/protocol/recordizer.rs:521-528 | one slice more than the fragment cap is refused, however the earlier ones were ordered |
| `RecordizerDelivery.DeliveredExactlyWhen` | qeli/src/protocol/recordizer.rs:455-544 | an idle receiver delivers a packet cut in whatever way if and only if it respects the packet limit and, unless whole, the fragment cap and the reassembly budget |
| `RecordizerDelivery.StreamDelivered` | qeli/src/protocol/recordizer.rs:387-553 | records cut from the frame stream at arbitrary frame boundaries deliver the packets in order, each once; a packet never spans more records than it has slices, so bounding the time of that many records suffices |
| `RecordizerInterleaving.InterleavedStep` | qeli/src/protocol/recordizer.rs:468-544 | among any packets in any progress that fits the limits, the next slice of one of them moves just that packet on; it is refused exactly when its packet is too long, its fragment cap is reached, or it would open one packet or one byte too many, and then the other packets are as they were |
| `RecordizerInterleaving.InterleavedRun` | qeli/src/protocol/recordizer.rs:436-552 | inside one record, slices of any packets mixed in any way are all taken if and only if each packet respects the packet limit and, if it is cut, the fragment cap, and the packets open together fit the inflight and byte limits at every moment; then each packet comes out with its last slice |
| `RecordizerInterleaving.FinishedOnce` | qeli/src/protocol/recordizer.rs:537-544 | in any schedule a packet is finished once if its last slice arrives and otherwise not at all |
| `RecordizerInterleaving.InterleavedRecords` | qeli/src/protocol/recordizer.rs:387-553 | over any number of records that are not empty: if every record finds the open packets in time and stays within the limits, the state is a function of the slices taken and the finished packets come out; RecordizerCompleteness.AllOrFewer has the other direction |
| `RecordizerInterleaving.InterleavedDelivery` | qeli/src/protocol/recordizer.rs:387-553 | every interleaving of all slices of any packets that is in time and within the limits is decoded without an error, leaves an empty receiver, and hands out every packet exactly once and nothing else |
| `RecordizerCompleteness.Outstanding` | qeli/src/protocol/recordizer.rs:505-544 | at every point of a complete schedule, the bytes held of an unfinished packet and those still to come are its length |
| `RecordizerCompleteness.LateIsLost` | qeli/src/protocol/recordizer.rs:555-567 | a packet that is open for longer than the timeout when a record arrives is never handed out, though the rest of its slices arrives |
| `RecordizerCompleteness.RejectedIsLost` | qeli/src/server/handler.rs:2619-2648 | a rejected record costs a packet: some packet it carries is never handed out |
| `RecordizerCompleteness.AllOrFewer` | qeli/src/server/handler.rs:2619-2648 | from any point of any complete schedule, the reader hands out as many packets as are unfinished if and only if every further record is in time and within the limits, and otherwise fewer |
| `RecordizerCompleteness.AllHandedOutExactlyWhen` | qeli/src/server/handler.rs:2619-2648 | the reader fed any interleaving of all slices of any packets, over any records that are not empty, hands out packets that were sent, each at most once, whatever is late or rejected; all of them if and only if every record finds the open packets in time and stays within the limits |
| `Recordizer.InOrderIsCut` | qeli/src/protocol/recordizer.rs:267-284 | slices laid out one after the other partition the packet |
| `Recordizer.Sender.constructor` | qeli/src/protocol/recordizer.rs:140-155 | a new sender has sent nothing |
| `Recordizer.Sender.RaiseRuntime` | qeli/src/protocol/recordizer.rs:157-167 | the configuration is replaced exactly when the payload ceiling does not shrink, pending data stay as they are, and the caps over all configurations so far cover the new one |
| `Recordizer.Sender.Flush` | qeli/src/protocol/recordizer.rs:306-316 | the pending record goes out once, and the stream of frames is unchanged by it |
| `Recordizer.Sender.FlushIf` | qeli/src/protocol/recordizer.rs:285-297 | flushing conditionally keeps the stream of frames |
| `Recordizer.Sender.EnsureRecord` | qeli/src/protocol/recordizer.rs:318-344 | a pending record is kept, otherwise one with a target size of at least the minimum is started |
| `Recordizer.Sender.AppendFrame` | qeli/src/protocol/recordizer.rs:275-282 | the frame is the last of the pending record, whose bytes are the envelope of its frames |
| `Recordizer.Sender.AppendAndFlush` | qeli/src/protocol/recordizer.rs:275-291 | the frame joins the stream, whether or not the record goes out |
| `Recordizer.Sender.MakeRoom` | qeli/src/protocol/recordizer.rs:216-229 | a whole packet fits the record afterwards, and no frame is lost |
| `Recordizer.Sender.PushWhole` | qeli/src/protocol/recordizer.rs:211-237 | an unfragmented packet adds exactly one slice to the stream |
| `Recordizer.Sender.Prepare` | qeli/src/protocol/recordizer.rs:247-258 | the record at hand can take a slice, of full size once no slack is left |
| `Recordizer.Sender.PlaceSlice` | qeli/src/protocol/recordizer.rs:238-291 | either the next slice of the packet is added and the rest still fits the fragments left, or a full record was sent first |
| `Recordizer.Sender.PushSlices` | qeli/src/protocol/recordizer.rs:210-292 | the slices added partition the packet in order and are no more than the negotiated cap, whatever sizes were drawn |
| `Recordizer.Sender.Take` | qeli/src/protocol/recordizer.rs:187-299 | an admissible packet is logged with the slices it became, and records go out in order |
| `Recordizer.Sender.Push` | qeli/src/protocol/recordizer.rs:187-299 | a packet is taken exactly when it is admissible; a refused one sends nothing and leaves the pending record as it is |
| `Recordizer.Sender.FinishReadyBatch` | qeli/src/protocol/recordizer.rs:179-185 | only an opportunistic sender flushes here, and only when something is pending |
| `Recordizer.EndToEnd` | qeli/src/protocol/recordizer.rs:187-553 | everything pushed into a sender, across record boundaries, random record sizes and replaced configurations, comes out of a receiver exactly once, in order and unchanged, if the receiver's limits cover the sender's and as many records in a row as a packet can have slices arrive within the timeout |
| `TlsRecords.SplitSound` | scripts/audit_realtls_wire.py:46-51 | the records and an incomplete tail put together are the input |
| `TlsRecords.SplitConcat` | scripts/audit_realtls_wire.py:46-51 | whole records in front are split off whatever follows them |
| `TlsRecords.SplitUnique` | scripts/audit_realtls_wire.py:46-51 | no other division into records and an incomplete tail exists |
| `TlsRecords.SplitMonotone` | scripts/audit_realtls_wire.py:46-51 | more bytes only add records at the end |
| `TlsRecords.SplitLenient` | scripts/audit_realtls_wire.py:46-51 | the loop returns that division's records |
| `TlsRecords.SplitStrict` | scripts/audit_acl_peer.rs:84-94 | the strict splitter succeeds exactly when the tail is empty, with the lenient splitter's records, and otherwise tells a short header from a short body |
| `TcpReassembly.JoinUnique` | scripts/audit_realtls_wire.py:41-45 | chunks determine the joined bytes |
| `TcpReassembly.SortKeys` | scripts/audit_realtls_wire.py:42-42 | the positions in ascending order, each once |
| `TcpReassembly.Join` | scripts/audit_realtls_wire.py:41-45 | the joined bytes are the gap-free prefix: each byte from the earliest chunk that covers it, and the next byte covered by none |
| `TcpReassembly.DeliverAgrees` | scripts/audit_realtls_wire.py:36-38 | across sequence wrap-around a segment of the stream is kept exactly when it lies at or up to 2^24 behind the first one seen, and then at its true distance |
| `TcpReassembly.OldSegmentKeptExactlyWhen` | scripts/audit_realtls_wire.py:36-37 | an earlier segment is taken for a later one exactly from 2^32 - 2^24 bytes back on, so the bound on the stream is sharp |
| `TcpReassembly.JoinIsStream` | scripts/audit_realtls_wire.py:39-45 | the joined bytes are the stream from the first position seen up to the first byte no kept chunk holds |
| `TcpReassembly.JoinGrowsExactlyWhen` | scripts/audit_realtls_wire.py:38-45 | later segments extend the joined bytes if and only if they leave every joined byte covered |
| `Capture.ReadStreams` | scripts/audit_realtls_wire.py:17-52 | every file is read, or rejected for an unknown magic, a bad header or a segment cut inside its TCP header, each exactly when it is so |
| `Capture.ReadFrames` | scripts/audit_realtls_wire.py:22-27 | the walk returns the whole packet records up to the first incomplete one |
| `Capture.CollectFlows` | scripts/audit_realtls_wire.py:28-38 | one pass collects each flow's chunks, or fails where the source indexes past a segment |
| `Capture.Record` | scripts/audit_realtls_wire.py:35-38 | no other flow changes, the first sequence number of the flow stays, and of its chunks exactly the one at the distance of the segment is set, and only within the reach |
| `Capture.SplitFlows` | scripts/audit_realtls_wire.py:39-52 | each flow's record list is the split of the gap-free prefix of its chunks |
| `Capture.CrashStays` | scripts/audit_realtls_wire.py:28-38 | a capture that fails at some frame fails whatever follows |
| `CaptureFrames.BuiltFrameIsRead` | scripts/audit_realtls_wire.py:28-38 | a frame built by a TCP sender, with any options and padding, is taken for exactly its flow, sequence number and payload, and skipped without a payload or away from the audited port |
| `CaptureFrames.WrittenFramesAreRead` | scripts/audit_realtls_wire.py:22-27 | the packets written to a capture, in either byte order, are the packets read, whatever incomplete record follows |
| `CaptureTruncation.FramesOfPrefix` | scripts/audit_realtls_wire.py:23-27 | a file cut at any byte holds the first packets of the whole file |
| `CaptureTruncation.FlowAgrees` | scripts/audit_realtls_wire.py:33-38 | at every moment a flow's chunks are pieces of the one stream, counted from one fixed position |
| `CaptureTruncation.FlowGrows` | scripts/audit_realtls_wire.py:33-38 | while no segment replaces a longer one, chunks only grow |
| `CaptureTruncation.RecordsAreTheStreams` | scripts/audit_realtls_wire.py:17-52 | from file bytes to records: a flow's records are the split of the stream between the first position seen and the first byte missing |
| `CaptureTruncation.GrownFlowKeepsRecords` | scripts/audit_realtls_wire.py:39-51 | grown chunks keep the records already found |
| `CaptureTruncation.RecordsKeptExactlyWhen` | scripts/audit_realtls_wire.py:38-51 | later segments keep the records already found if and only if every byte of those records stays covered |
| `CaptureTruncation.CutRecordsExactlyWhen` | scripts/audit_realtls_wire.py:17-52 | a capture cut at any byte after its header yields, for each flow still present, a prefix of that flow's records in the whole capture if and only if the chunks kept in the end cover every byte of those records |
| `CaptureTruncation.TruncatedCapture` | scripts/audit_realtls_wire.py:17-52 | in particular whenever no segment after the cut replaces a longer one at the same offset |
| `CaptureLoss.ShorterCopyLosesRecord` | scripts/audit_realtls_wire.py:17-52 | for every record and every part of it sent again under the same number, both captures are readable, the one cut between the two packets reports exactly the record and the whole one reports none |
| `CaptureTruncation.TruncationStillReads` | scripts/audit_realtls_wire.py:17-52 | a capture that can be read can be read when cut, with no more flows and packets |
| `ServerHello.ReadPut` | scripts/audit_realtls_wire.py:64-68 | distinct extensions written out are read back in order |
| `ServerHello.PutRead` | scripts/audit_realtls_wire.py:64-68 | extension bytes that are read are the written form of what was read, with nothing left over |
| `ServerHello.PrintRead` | scripts/audit_realtls_wire.py:55-72 | every hello that has a wire form is read back from it |
| `ServerHello.ReadPrint` | scripts/audit_realtls_wire.py:55-72 | every message that is read is the wire form of the hello read |
| `ServerHello.PrintedIsAccepted` | scripts/audit_realtls_wire.py:55-72 | every TLS 1.3 hello with distinct extensions and a well-sized key share is reported with its cipher, group and extension order |
| `ServerHello.AcceptedIsPrinted` | scripts/audit_realtls_wire.py:55-72 | every accepted record is such a hello, byte for byte |
| `ServerHello.ReadMessage` | scripts/audit_realtls_wire.py:57-68 | the walk over the message reads exactly the messages that have that form |
| `ServerHello.ServerHelloInfo` | scripts/audit_realtls_wire.py:55-72 | the report, or failure in every case where the source asserts, indexes or looks up in vain |
| `ServerHello.ReadAll` | scripts/audit_realtls_wire.py:64-68 | the extension loop reads to the end of the message or fails |
| `Json.NormalizeCleans` | scripts/audit_firewalld_profiles.py:22-27 | no volatile field is left at any depth |
| `Json.NormalizeFixes` | scripts/audit_firewalld_profiles.py:22-27 | a value is unchanged exactly when it holds no volatile field |
| `Json.NormalizeIdempotent` | scripts/audit_firewalld_profiles.py:22-27 | normalising twice is normalising once |
| `Json.NormalizeEqual` | scripts/audit_client_mixed_firewall.py:19-24 | two values normalise alike exactly when they agree outside handles and counters |
| `Grouping.KeyTotal` | scripts/audit_firewalld_profiles.py:127-131 | the tuple order of group keys is total and antisymmetric |
| `Grouping.KeyTransitive` | scripts/audit_firewalld_profiles.py:127-131 | the tuple order is transitive |
| `Grouping.SortIsSorted` | scripts/audit_firewalld_profiles.py:131-131 | the sort puts groups in key order |
| `Grouping.SortKeepsGroups` | scripts/audit_firewalld_profiles.py:130-131 | the sort is stable: inside each group the order is kept |
| `Grouping.SortedDetermined` | scripts/audit_firewalld_profiles.py:130-131 | a sorted list is determined by its groups |
| `Grouping.CanonicalForm` | scripts/audit_firewalld_profiles.py:127-131 | two lists sort to the same exactly when all their groups agree in order |
| `Grouping.SameGroupsExactlyWhenRescheduled` | scripts/audit_firewalld_profiles.py:168-170 | groups agree exactly when one list becomes the other by swapping neighbours of different groups |
| `Firewall.NormalizeKeepsGroup` | scripts/audit_firewalld_profiles.py:124-131 | normalising never moves a rule to another group |
| `Firewall.NormalizeCommutesWithSort` | scripts/audit_firewalld_profiles.py:124-131 | normalising before sorting and after it give the same |
| `Firewall.SnapshotCanonical` | scripts/audit_client_mixed_firewall.py:96-106 | snapshots are equal exactly when every group holds the same normalised rules in the same order, that is when the dumps differ only in counters, handles and the scheduling of groups |
| `RestartEquivalence.DropsFirstExactlyWhenProtected` | scripts/audit_firewalld_profiles.py:181-183 | the position test holds exactly when, under first-match evaluation, no packet that matches an owned DROP is accepted |
| `RestartEquivalence.SpecsAppend` | scripts/audit_firewalld_profiles.py:172-180 | one more line goes to the end of its own group and touches no other |
| `RestartEquivalence.SpecsEqual` | scripts/audit_firewalld_profiles.py:187-187 | the tables are equal exactly when every profile, table and chain has the same lines in order |
| `RestartEquivalence.AddDump` | scripts/audit_firewalld_profiles.py:174-183 | the line loop builds that table, or fails where the source raises |
| `RestartEquivalence.Specs` | scripts/audit_firewalld_profiles.py:172-184 | a table exists exactly when every append rule names a chain and every dump passes the DROP test |
| `RestartEquivalence.RestartEquivalent` | scripts/audit_firewalld_profiles.py:167-187 | an answer is given exactly when both snapshots pass, and it is true exactly when they are equivalent |
| `RestartEquivalence.StateOkMeans` | scripts/audit_firewalld_profiles.py:181-184 | passing means protecting, spelled out in packets |
| `RestartEquivalence.EquivalentMeans` | scripts/audit_firewalld_profiles.py:167-187 | equivalent means: both protect, the rules differ by rescheduling of profiles, tables and chains only, and the foreign native objects are the same |
| `DependencyAudit.AskIsAnswer` | scripts/audit_android_dependencies.py:71-83 | a query asked alone gets its own answer, or fails when that is not usable |
| `DependencyAudit.PagesThenFollow` | scripts/audit_android_dependencies.py:88-99 | reading a batch and following each row's pages is auditing each row alone |
| `DependencyAudit.BatchIsEach` | scripts/audit_android_dependencies.py:88-100 | a batch of any size is the packages one by one |
| `DependencyAudit.AuditIsEach` | scripts/audit_android_dependencies.py:86-103 | against every service that answers queries independently, the audit in batches of 100 equals the audit of each package on its own, row by row |
| `DependencyAudit.FollowGivesPages` | scripts/audit_android_dependencies.py:94-99 | a followed package has a chain of linked pages with distinct tokens, at most 100, whose advisories are collected |
| `DependencyAudit.PagesLetFollow` | scripts/audit_android_dependencies.py:94-99 | and every such chain is followed to its end |
| `DependencyAudit.AuditOneExactlyWhen` | scripts/audit_android_dependencies.py:86-103 | a package asked for alone has a result exactly when its first page starts such a chain, and the result is the union of their advisories; this holds of every service |
| `DependencyAudit.FollowAllExactlyWhen` | scripts/audit_android_dependencies.py:91-100 | the rows of a batch have results exactly when each has such a chain from its own page of the batch |
| `DependencyAudit.AuditExactlyWhen` | scripts/audit_android_dependencies.py:86-103 | for every service, whether or not its answers depend on the batch: the audit finds a list of advisory sets exactly when every batch is answered usably and each row has a chain of at most 100 distinct tokens from the page its batch gave it to its last page, and the list holds the union of each chain in order |
| `DependencyAudit.FollowPages` | scripts/audit_android_dependencies.py:93-99 | the token loop ends after at most 100 follow-ups with that result or fails |
| `DependencyAudit.RunBatch` | scripts/audit_android_dependencies.py:88-100 | one batch in order, failing as soon as anything is wrong |
| `DependencyAudit.RunAudit` | scripts/audit_android_dependencies.py:86-103 | the report holds every row's advisories in order and counts rows and affected rows, and there is none when anything failed |
| `DependencyAudit.Gate` | scripts/audit_android_dependencies.py:113-115 | the audit step of the command: status 2 exactly when the audit failed and 0 exactly when it succeeded without an advisory |
| `DependencyAudit.GateOpensExactlyWhen` | scripts/audit_android_dependencies.py:71-103 | for every service: the audit succeeds without an advisory exactly when every package was read within the bounds, from the page its batch was answered with to its last page, and no page lists an advisory |
| `DependencyAudit.GateOpensOneByOne` | scripts/audit_android_dependencies.py:71-103 | for a service that answers queries independently, that is the case exactly when every package asked for on its own is read to its last page and clean |
| `Lockfile.SplitExactlyWhen` | scripts/audit_android_dependencies.py:23-24 | splitting at a separator undoes joining, and only that |
| `Lockfile.ReadLineExactlyWhen` | scripts/audit_android_dependencies.py:21-29 | a line is taken as an entry exactly when it is written as group, artifact, release version and configurations |
| `Inventory.MergedMeans` | scripts/audit_android_dependencies.py:16-35 | reading fails exactly on a malformed line or when nothing is locked; otherwise keys are strictly increasing and every package used is listed with all its uses in order |
| `Inventory.MergedExactlyWhen` | scripts/audit_android_dependencies.py:16-35 | there is an inventory exactly when no line of any lock file is malformed and some line locks a package |
| `Inventory.UsesConserved` | scripts/audit_android_dependencies.py:18-35 | every line that is not skipped is recorded as exactly one use |
| `Inventory.AddLock` | scripts/audit_android_dependencies.py:18-32 | the line loop merges one lock file into the dictionary or fails |
| `Inventory.ReadLocks` | scripts/audit_android_dependencies.py:16-35 | the nested loops compute that inventory |
| `Inventory.CheckPins` | scripts/audit_android_dependencies.py:50-58 | pins once read are satisfied exactly when there are some, each is listed, and each is at the pinned version wherever it is listed |
| `Inventory.SlashedOnce` | scripts/audit_android_dependencies.py:46-53 | a key with one slash can come from one package name only |
| `Inventory.PinnedIsOne` | scripts/audit_android_dependencies.py:38-58 | in a merged inventory a satisfied pin stands for exactly one package |
| `Text.StripTrims` | scripts/audit_android_dependencies.py:41-41 | stripping removes blanks at both ends, all of them and nothing else |
| `SecurityPins.ReadPinExactlyWhen` | scripts/audit_android_dependencies.py:41-47 | a line pins a package exactly when, blanks aside, it is a key with one slash, an equals sign and a version |
| `SecurityPins.ReadPinsExactlyWhen` | scripts/audit_android_dependencies.py:39-47 | the file is read exactly when no line is malformed and no key is repeated, and the pins are those of its lines |
| `SecurityPins.LoadPins` | scripts/audit_android_dependencies.py:39-47 | the line loop computes that table or fails |
| `SecurityPins.CheckPolicy` | scripts/audit_android_dependencies.py:38-58 | the pin check passes exactly when the file is good, pins something, and the inventory keeps to every pin |
| `ReleaseGate.RunGate` | scripts/audit_android_dependencies.py:106-118 | status 2 exactly when the inventory, the pins or the audit fail, and 0 exactly when the release is in order, as ReleaseGate.ReleasedExactlyWhen spells out |
| `ReleaseGate.ReleasedExactlyWhen` | scripts/audit_android_dependencies.py:16-118 | for every service, a release passes exactly when no lock line is malformed, something is locked, every pin is listed and nowhere at another version, and every listed package was read, from the page its batch was answered with to its last page, without an advisory |
| `DnsQuestion.ScanExactlyWhen` | scripts/audit_android_dns_fixture.py:10-16 | the label loop finds a name exactly where one is encoded, and finds that one |
| `DnsQuestion.ParseExactlyWhen` | scripts/audit_android_dns_fixture.py:8-18 | a message is accepted with a question exactly when it is a header announcing one question, that question with ASCII labels of 1 to 63 bytes, and anything behind it |
| `DnsQuestion.CrashExactlyWhen` | scripts/audit_android_nat64.py:49-60 | the second parser dies, instead of ignoring the message, exactly when it reaches a label of proper size that is not ASCII |
| `DnsQuestion.SmallestCrash` | scripts/audit_android_nat64.py:49-60 | seventeen bytes that stop the server, and no shorter datagram does |
| `DnsQuestion.ReadByAssertions` | scripts/audit_android_dns_fixture.py:9-18 | the assertion-driven parser returns the question of exactly the accepted messages |
| `DnsQuestion.ReadByBreaking` | scripts/audit_android_nat64.py:49-63 | the break-and-check parser accepts the same messages with the same question, and its other outcomes are as classified |
| `DnsReply.MessageReadsBack` | scripts/audit_android_dns_fixture.py:24-26 | a reply read as a resolver reads it holds the question and exactly the announced answers, each owned, through the compression pointer, by the question's name, with no byte behind them |
| `DnsReply.FixtureReplyMeans` | scripts/audit_android_dns_fixture.py:8-27 | the reply has the query's id and question, the right status and exactly the zone's answers, and answering the reply gives the same reply |
| `DnsReply.Dns64ReplyMeans` | scripts/audit_android_nat64.py:62-75 | the same of the DNS64 server, with its zone and time to live |
| `DnsReply.Dns64Translates` | scripts/audit_android_nat64.py:67-70 | each AAAA answer is the prefix followed by the A record it was made from |
| `DnsReply.Dns64StopsExactlyWhen` | scripts/audit_android_nat64.py:42-81 | over any run of datagrams the server stops exactly when one carries a label that is not ASCII |
| `DnsReply.Respond` | scripts/audit_android_dns_fixture.py:8-27 | the builder returns that reply and receipt, or raises on every other message |
| `DnsReply.NumberedExactlyWhen` | scripts/audit_android_dns_fixture.py:20-20 | the numbered names are exactly q29-, one or more digits, .test |
| `DnsReply.Translate` | scripts/audit_android_nat64.py:66-70 | the address loop gives one value per upstream record, in order |
| `DnsReply.Dns64Build` | scripts/audit_android_nat64.py:62-75 | one accepted datagram gets its reply |
| `DnsReply.Dns64Serve` | scripts/audit_android_nat64.py:42-81 | the datagram loop sends the replies to the accepted datagrams before the first that stops it |
| `Nat64.OrIsSum` | scripts/audit_android_nat64.py:70-70 | numbers whose bits do not meet have their sum as bitwise or |
| `Nat64.SynthesizeEmbeds` | scripts/audit_android_nat64.py:67-70 | or-ing an address into the prefix equals adding it, stays inside the prefix, and the last four bytes give the address back |
| `DnsOverTls.Connection.constructor` | scripts/audit_android_private_dns.py:36-40 | a connection starts with nothing sent and the fixture's replies |
| `DnsOverTls.Connection.Recv` | scripts/audit_android_private_dns.py:44-46 | at most the bytes asked for are taken, a timeout takes none |
| `DnsOverTls.Connection.Exact` | scripts/audit_android_private_dns.py:41-48 | exactly n bytes are returned, and consumed, if that many arrive before the end, whatever the chunks and timeouts |
| `DnsOverTls.Connection.Step` | scripts/audit_android_private_dns.py:49-56 | one query is answered if it arrives whole, and the connection fails on a bad length or an unanswerable query |
| `DnsOverTls.Connection.Round` | scripts/audit_android_private_dns.py:49-56 | a turn of the loop adds one answer, or finishes with the result of the whole stream |
| `DnsOverTls.Connection.Run` | scripts/audit_android_private_dns.py:36-60 | replies, receipts, failure and unread bytes are a function of the bytes received alone |
| `DnsOverTls.QueriesAnswered` | scripts/audit_android_private_dns.py:49-56 | queries in sequence are all answered in order whatever follows |
| `DnsOverTls.StreamSplits` | scripts/audit_android_private_dns.py:49-56 | every stream is answerable queries followed by a tail at whose front no answerable query stands, and the replies are exactly theirs |
| `DnsOverTls.StuckExactlyWhen` | scripts/audit_android_private_dns.py:50-55 | the loop stops exactly where no answerable query stands at the front |
| `InternetChecksum.FoldStep` | scripts/audit_acl_routes.py:9-9 | a fold makes the value smaller and keeps its residue modulo 65535 |
| `InternetChecksum.ComputeChecksum` | scripts/audit_acl_routes.py:6-10 | the folding loop ends with the complement of the residue of the word sum, zero only for a zero sum |
| `InternetChecksum.VerifiesExactlyWhen` | scripts/audit_dhcp_tap.py:22-26 | data verify exactly when the word sum is a positive multiple of 65535 |
| `InternetChecksum.PatchVerifies` | scripts/audit_dhcp_tap.py:123-124 | writing the checksum into its zeroed aligned field makes any data verify |
| `InternetChecksum.PatchNonzeroVerifies` | scripts/audit_acl_routes.py:18-18 | with 65535 sent for zero the datagram verifies as well and the field is never zero |
| `InternetChecksum.ChangeUnnoticedExactlyWhen` | scripts/audit_dhcp_tap.py:22-26 | a changed word goes unnoticed exactly when it is the same, or 0 and 65535 were exchanged and the data are not all zero |
| `InternetChecksum.OrderIgnored` | scripts/audit_acl_routes.py:8-10 | the order of the words does not matter |
| `Packets.WriteChecksum` | scripts/audit_acl_routes.py:17-17 | the buffer is patched in place and verifies afterwards |
| `Packets.BuildIp4Header` | scripts/audit_dhcp_tap.py:123-124 | a header for any lengths and addresses verifies and is otherwise as laid out |
| `Packets.BuildPacket4` | scripts/audit_acl_routes.py:12-17 | an IPv4 packet whose header verifies and whose lengths and addresses are right |
| `Packets.BuildPacket6` | scripts/audit_acl_routes.py:12-19 | an IPv6 packet that a receiver accepts who rebuilds the pseudo-header from the packet itself |
| `DhcpOptions.LatestIsLast` | scripts/audit_dhcp_tap.py:39-39 | a code is found exactly when it occurs, with the value of its last occurrence |
| `DhcpOptions.OptionsExactlyWhen` | scripts/audit_dhcp_tap.py:29-40 | parsing succeeds exactly on cookie, pads and options, an end mark and anything behind it, with each code's last value |
| `DhcpOptions.ReadOptions` | scripts/audit_dhcp_tap.py:29-40 | the loop computes that result or fails |
| `Statistics.WinsConserved` | scripts/analyze_recordizer_masking_pilot.py:40-40 | over all pairs, wins one way and the other add up to the number of pairs |
| `Statistics.AucComplement` | scripts/analyze_recordizer_masking_pilot.py:39-40 | AUC lies in [0, 1] and exchanging the classes gives the complement, ties included |
| `Statistics.AucPermuted` | scripts/analyze_recordizer_masking_pilot.py:39-40 | AUC does not depend on the order of either list |
| `Statistics.AucMapped` | scripts/analyze_recordizer_masking_pilot.py:39-40 | AUC is unchanged by any strictly increasing map of the scores |
| `Statistics.Unclamped` | scripts/analyze_recordizer_masking_pilot.py:41-44 | before clamping the interval lies in [0, 1] and contains the proportion |
| `Statistics.WilsonContains` | scripts/analyze_recordizer_masking_pilot.py:41-44 | so the clamps never act, for all hits out of n |
| `Statistics.WilsonMirrors` | scripts/analyze_recordizer_masking_pilot.py:41-44 | exchanging hits and misses mirrors the interval |

## Left out

- Cryptography, handshakes, sockets, threads, files and subprocesses: only the bytes they carry are modelled.
- Recordizer.Sender.RaiseRuntime: the settings outside the model's configuration, delays and size ratios, are replaced in the source as well.
- Recordizer.Sender.EnsureRecord: does not model the deadline set with a new record, nor the flush when it is due.
- RecordizerDelivery.RunFaithful: is about the frames of one record; RecordizerDelivery.SessionFaithful is about sessions.
- RecordizerDelivery.SessionFaithful: takes packet numbers to name one packet each, as they do until 2^32 packets were sent; how often a packet is handed out is in RecordizerAccounting.AtMostOnce.
- RecordizerInterleaving.InterleavedRecords: states one direction; both are in RecordizerCompleteness.AllOrFewer.
- RecordizerCompleteness.AllHandedOutExactlyWhen: is about records that hold at least one slice, as all records of a sender do.
- Recordizer.Sender.FinishReadyBatch: does not model the deadline of a sender that is not opportunistic.
- The remaining settings checks of the daemon's configuration: only those the recordizer relies on appear, as the configuration predicate of the sender.
- UDP handshake fragmentation (qeli/src/protocol/udp_frag.rs): its reassembly is a smaller form of the recordizer's, with a fixed fragment count.
- The other transports, obfuscation layers, routing and the control protocol of the daemon: outside the packet path modelled here.
- Firewall.SnapshotCanonical: takes dump elements to be objects with one key and an object as body; a group field that is not a string, on which Python's sort may raise, is read as missing.
- CaptureTruncation.TruncatedCapture: gives a sufficient condition; the exact one is in CaptureTruncation.CutRecordsExactlyWhen.
- DependencyAudit.Gate: is the audit step alone; ReleaseGate.RunGate is the whole command.
- RestartEquivalence.Specs: takes the saved rule lines with comment lines gone and counters already replaced; the regular expression that replaces counters is left out.
- Capture.ReadStreams: keeps addresses as four bytes instead of dotted text.
- DependencyAudit.RunAudit: keeps each row's advisories as a set, not as the sorted list, and leaves out the time stamp.
- DnsReply.Respond: a message on which the builder raises has no reply; which exception it is, is left out.
- DnsReply.Dns64Serve: leaves out the receipt rows, the peer address and the evidence file.
- DnsOverTls.Connection.Run: leaves out TLS errors, failing sends and the receipts of other kinds than DNS.
- The echo server of the Android data-plane lab (scripts/audit_android_data_plane_lab.py): its length framing is the DNS-over-TLS loop with four bytes and no bounds.
- Statistics.WilsonContains: is over the reals, as is AUC; floating-point rounding is not modelled.
- Model fitting in the masking pilot: floating-point iteration without an exact claim.
