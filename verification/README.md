# A verified model of gonet

gonet is a userspace IPv4 and TCP stack in Go. This project models its protocol logic in
Dafny and proves what that logic is for. `dafny verify dfyconfig.toml` checks everything.

Go code that updates fields, maps or buffers in place is modelled by classes and methods on
arrays; each method is proved against a function or relation on values, and the theorems are
about those. Integer widths are explicit: `Wrap16`, `Wrap32` and `Wrap64` stand for
truncation.

## What is proved

**Fragmentation and reassembly** (RFC 791, sections 2.3 and 3.2). `Fragmentation` is the
splitting loop, `Tiling` the shape of what it makes, `Refragmentation` what chains of routers
make of it, `Reassembly` the buffer with its map of groups. `KeyTraffic` shows that for the
pieces of one packet the buffer, with its byte counter and its map visited in arbitrary order,
refines a set of piece numbers, over every run and whatever arrives under other keys;
`RoundTrip` puts both ends together: fragments that arrive in any order, with repeats, along
any chain of hops, give the packet back at the Add that supplies the last missing one, and it
is the packet that was split exactly when that packet was intact. `Accounting` covers
arbitrary traffic, `TilingTraffic` the fragments of many packets at once, and `Progress` shows
that the runs exist. `LinkPadding` says what padding on a fragment does, `Coverage` exactly when
the byte counter is right about an arbitrary group, with a run in which it is not.

**The TCP handshake** (RFC 9293, section 3.5). `Connection` has the handlers on the connection
object and on values. `Handshake` puts two connections on links that lose, duplicate, reorder
and hold old segments as raw bytes, so that every segment goes through `Marshal`, the checksum
and `ParseHeader`. Outputs may fail at any step. It proves agreement on sequence numbers, MSS
and windows over every run, and that a handshake can complete.

**Ephemeral ports.** `EphemeralSearch` and `ConnTable` prove the search for one caller, with
its termination across the wrap; `EphemeralCallers` interleaves the atomic steps of any number
of callers: ports in range, free when checked, and never two alike between successful swaps.
`EphemeralRuns` has the runs that show what these guarantees need.

**Checksums and codecs** (RFC 1071, RFC 791, RFC 9293 section 3.1). `Checksum`, `IPHeader`,
`TCPHeader`, `TCPSegment`, `HandshakeSegments`, `Builder`, `Icmp`, each with the layout of its
bytes; `Dispatcher` and `Echo` compose them into an echo exchange from end to end, and
`FragmentedEcho` into one larger than the MTU both ways.

## Findings

- The search for ephemeral ports resumes at 49153 after a wrap, never at 49152
  (internal/tcp/conn_table.go:139), although the comment on line 138 says 49152. With only
  49152 free it never ends after a wrap (`EphemeralSearch.OnlyFirstPortFree`);
  `EphemeralSearch.SearchEndsIff` has the exact condition.
- Two callers whose swaps keep failing because of each other can take the counter past
  2^32 - 1, after which a caller is given port 0 (`EphemeralRuns.WrapReturnsPortZero`). All
  ports returned after a step are in range exactly when the step was no such wrap
  (`EphemeralRuns.InRangeIffNoWrap`), and 2^32 - 49152 additions are the most that can be made
  without risk (`EphemeralCallers.FewAdditionsInRange`).
- Two callers can be given the same port, both having found it free
  (`EphemeralRuns.SamePortTwice`). Short of a wrap of the counter this takes a swap that
  succeeds while a port above 49152 is being checked or has been returned, and after such a
  swap it can always happen (`EphemeralRuns.OnceIffNothingOut`). 16385 additions are the most
  that can be made without risk (`EphemeralCallers.FewAdditionsNoRepeat`).
- A server whose SYN-ACK could not be sent stays in LISTEN but keeps the MSS lowered by that
  SYN, so an old SYN lowers the MSS of a later connection (`Handshake.OldSYNLowersMSS`);
  `Handshake.MSSAgreement` has the exact condition, and `Handshake.MSSIsLesser` shows that it
  cannot happen while every SYN-ACK can be sent.
- Overlapping fragments can satisfy the byte counter and have a packet with a hole delivered
  (`Coverage.OverlapDeliversHole`); `Coverage.CounterIsGenuineIff` has the exact condition.
- `Add` takes all bytes after a fragment's header for payload, where the dispatcher trims to
  the total length. Link padding on a last fragment is delivered as payload
  (`LinkPadding.PaddedSample`); the packet comes out as it was exactly when there is no padding
  (`LinkPadding.PaddedThenReassembled`). Padding on another fragment makes the counter too high
  (`LinkPadding.PaddedInside`).
- `Marshal` of a TCP header refuses no options. A header whose options take more than 40 bytes
  never reads back (`TCPHeader.FortyOneNoOperations`), nor does one with options that the
  parser does not make; all others do (`TCPHeader.RoundTripIff`).
- `handleSYNACK` and its siblings write the connection's fields before the output and the
  transition, so that a failed output leaves them written
  (`Handshake.FailedACKLeavesFieldsWritten`). `Handshake.ErrorKeepsIff` says exactly when an
  error leaves the connection as it was, and `Handshake.FirstFailureShows` that on a first
  attempt the guards alone decide it.
- `Fragment` copies every IP option into every fragment; section 3.1 of RFC 791 puts only
  those with the copied flag into fragments after the first
  (`FragmentOptions.RecordRouteIsCopied`). The fragments comply exactly when every option of
  the packet has the flag (`FragmentOptions.FragmentCompliesIff`).

## Model

| member | source | states |
|---|---|---|
| Bytes.NetworkOrder | internal/tcp/header.go:71-79 | 16- and 32-bit fields are read and written high byte first |
| IPAddress.MappedForm | internal/ip/dispatcher.go:100-101 | net.IPv4 makes ten zeros, two bytes 255 and the address |
| IPAddress.OtherForms | internal/ip/header.go:108-113 | an address has four bytes exactly in one of two forms, else a header carries zeros |
| Checksum.Fold | internal/ip/checksum.go:18-21 | the folding loop takes at most two passes on any 32-bit sum, and gives its residue modulo 65535 with zero kept apart from 65535 |
| Checksum.Accumulate | internal/ip/checksum.go:9-16 | the summing loop gives the big-endian word sum, an odd last byte being the high one, in a uint32 variable |
| Checksum.Checksum | internal/ip/checksum.go:8-22 | the two loops compute the specified checksum for data of any length |
| Checksum.ChecksumMeaning | internal/ip/checksum.go:8-22 | up to 131074 bytes the checksum is the complement of the end-around-carry sum of the words, which is defined on its own |
| Checksum.WorkedExample | internal/ip/checksum.go:8-22 | the example of RFC 1071, section 3, gives 0xddf2 and its complement |
| Checksum.OddIsPadded | internal/ip/checksum.go:14-16 | data of odd length is summed as if a zero byte followed |
| Checksum.NoOverflow | internal/ip/checksum.go:9-16 | up to 131074 bytes the accumulator cannot overflow |
| Checksum.OverflowLosesCarry | internal/ip/checksum.go:9-16 | that bound is tight: 131076 bytes exist whose checksum is wrong |
| Checksum.ExactIffSumFits | internal/ip/checksum.go:8-22 | for word sums below 65535 * 2^32, the checksum is right exactly when the word sum fits 32 bits |
| Checksum.CombineIsHomomorphism | internal/ip/checksum.go:24-31 | combining the checksums of an even-length part and of what follows it gives the checksum of the whole |
| Checksum.CombineIsAbelian | internal/ip/checksum.go:24-31 | combining is commutative and associative on all 16-bit values |
| Checksum.ChecksumCombine | internal/ip/checksum.go:25-31 | the loop computes that combination |
| Checksum.ByteOrderIndependence | internal/ip/checksum.go:8-22 | swapping the bytes of every word swaps the bytes of the checksum |
| Checksum.StoredChecksumVerifies | internal/ip/checksum.go:33-36 | zeroing an aligned field, computing the checksum and storing it there always verifies |
| Checksum.ChangedWordDetected | internal/ip/checksum.go:33-36 | after that, changing any aligned word fails unless it is 0x0000 against 0xFFFF |
| Checksum.VerifyChecksum | internal/ip/checksum.go:34-36 | accepts exactly the data that verifies |
| Checksum.TCPChecksum | internal/ip/checksum.go:39-73 | sums the pseudo-header, left out unless both addresses are IPv4, the protocol, the length and the segment |
| Checksum.PseudoHeaderBytes | internal/ip/checksum.go:39-73 | the TCP checksum is that of the segment behind its pseudo-header as bytes: both addresses if both are IPv4, 0, 6, the length |
| Checksum.PseudoAddressForms | internal/ip/checksum.go:40-53 | both forms of address give the same sum, and unless both are IPv4 neither is summed |
| Checksum.PseudoHeaderOfRFC | internal/ip/checksum.go:39-73 | between IPv4 addresses, up to 65535 bytes, that pseudo-header is the one of RFC 9293, section 3.1 |
| IPHeader.AcceptedIff | internal/ip/header.go:44-64 | which bytes are accepted, and which are too short |
| IPHeader.ReadLayout | internal/ip/header.go:66-87 | the bytes and bits that each field is read from |
| IPHeader.WrittenLayout | internal/ip/header.go:92-119 | the bytes that each field is written to, cut to its width |
| IPHeader.OptionAreaBytes | internal/ip/header.go:115-117 | options that are too short are followed by zeros, longer ones cut off |
| IPHeader.Marshal | internal/ip/header.go:92-119 | the stores into the buffer give the specified header bytes |
| IPHeader.MarshalThenParse | internal/ip/header.go:43-132 | a header as it can come off the wire, and the payload after it, come back |
| IPHeader.ParseThenMarshal | internal/ip/header.go:43-119 | writing a header that was read reproduces its bytes |
| IPHeader.MarshalSealed | internal/ip/fragment.go:70-79 | marshal, checksum, marshal again gives the header with its computed checksum |
| IPHeader.SealedVerifies | internal/ip/builder.go:119-132 | such a header verifies |
| IPHeader.VerifiesIff | internal/ip/header.go:43-119 | a header verifies exactly when it carries the computed checksum, or 0xFFFF for 0x0000 |
| Fragmentation.Fragment | internal/ip/fragment.go:18-91 | returns the specified pieces or refusal, whatever the packet and MTU |
| Fragmentation.DraftFieldsCut | internal/ip/fragment.go:57-68 | the fields of any fragment, with what 16-bit offsets and lengths lose |
| Fragmentation.UnsplitIff | internal/ip/fragment.go:13-21 | a packet is returned as it is exactly when it fits the MTU |
| Fragmentation.RefusedIff | internal/ip/fragment.go:23-36 | otherwise, on the header's bytes: exactly when the header is bad, when DF is set, when the MTU is too small, when Marshal panics, and when the packet is split |
| Fragmentation.SplitPayload | internal/ip/fragment.go:44-88 | the loop ends and produces the specified split |
| Fragmentation.EmitPiece | internal/ip/fragment.go:57-85 | one turn appends the sealed header and the bytes of its piece |
| Tiling.SplitPiece | internal/ip/fragment.go:47-88 | each fragment is the piece between two consecutive cut points, and only the last keeps the original MF |
| Tiling.FragmentIsTiling | internal/ip/fragment.go:18-91 | whatever is split becomes at least two pieces that tile the payload, within the MTU and all but the last within eight bytes of it |
| Tiling.Tiling.HeadFields | internal/ip/fragment.go:57-68 | a piece's offset is the original's plus the bytes before it, MF is set on all but the end of the datagram, other fields are the original's |
| Tiling.Tiling.PieceParses | internal/ip/fragment.go:70-85 | every piece reads back as its header and its part of the payload |
| Tiling.Tiling.PieceSealed | internal/ip/fragment.go:70-79 | every piece's header verifies |
| Refragmentation.FragmentOutput | internal/ip/fragment.go:18-91 | at least two non-empty fragments within the MTU, all but the last within eight bytes of it, each verifying, with the right offset, length, flags and unchanged other fields, multiples of 8 before the last, payloads joining to the original's |
| Refragmentation.PieceOfPiece | internal/ip/fragment.go:57-68 | cutting a fragment gives the very bytes that cutting the original there would give |
| Refragmentation.RefinedIsCut | internal/ip/fragment.go:57-68 | replacing a piece's cut points by those of its own fragmentation gives cut points of the original payload |
| Refragmentation.FragmentRefines | internal/ip/fragment.go:18-91 | fragmenting one piece of a tiling gives a tiling of the same payload |
| Refragmentation.ChainTiles | internal/ip/fragment.go:18-91 | so does any chain of hops, each splitting one packet in flight |
| FragmentOptions.PieceCompliesIff | internal/ip/fragment.go:57-68 | in any tiling, a piece after the first carries the options that RFC 791 allows exactly when every option of the original has the copied flag |
| FragmentOptions.FragmentCompliesIff | internal/ip/fragment.go:57-79 | the same for every fragment after the first that Fragment returns |
| FragmentOptions.RecordRouteIsCopied | internal/ip/fragment.go:57-79 | a packet with a record route option, whose second fragment has it too |
| FragmentOptions.OptionExamples | internal/ip/fragment.go:57-68 | an option area with a copied, an uncopied and a no-operation option |
| ReassemblyModel.SameKeyIff | internal/ip/reassembly.go:73-78 | two fragments share a group exactly when source, destination, ID and protocol are all equal |
| ReassemblyModel.SameKeyBytes | internal/ip/reassembly.go:73-78 | the same on the packets' bytes |
| ReassemblyModel.FirstBytesLastLength | internal/ip/reassembly.go:93-106 | of two fragments at one offset the first gives bytes and count, and the later one without MF the length |
| ReassemblyModel.WholeFields | internal/ip/reassembly.go:141-151 | the new header is the first fragment's without MF and offset, with its length cut to 16 bits, and verifies |
| ReassemblyModel.OverrunsIff | internal/ip/reassembly.go:158-163 | the rebuild panics for an offset past the end, not for one right at the end |
| Reassembly.FragmentGroup.Keep | internal/ip/reassembly.go:93-106 | stores the fragment unless its offset is taken, counts its bytes once, and a last fragment fixes the length either way |
| Reassembly.ReassemblyBuffer.constructor | internal/ip/reassembly.go:48-57 | an empty buffer with zero statistics |
| Reassembly.ReassemblyBuffer.GroupFor | internal/ip/reassembly.go:82-91 | makes and counts a group if the key has none |
| Reassembly.ReassemblyBuffer.KeepIn | internal/ip/reassembly.go:93-106 | the group for the key takes the fragment, FragmentsAdded counts it, no other group changes |
| Reassembly.ReassemblyBuffer.StoreFragment | internal/ip/reassembly.go:80-106 | both of the above |
| Reassembly.ReassemblyBuffer.Add | internal/ip/reassembly.go:60-128 | one step of the specified relation: errors, packets that are no fragments, storing, completion, delivery |
| Reassembly.ReassemblyBuffer.Close | internal/ip/reassembly.go:114-126 | drops a complete group, delivers and counts the packet if there is one |
| Reassembly.ReassemblyBuffer.Reassemble | internal/ip/reassembly.go:130-166 | an outcome that some order of visiting the map can have |
| Reassembly.ReassemblyBuffer.StartPacket | internal/ip/reassembly.go:141-156 | the new sealed header in front of zeros |
| Reassembly.ReassemblyBuffer.CopyFragments | internal/ip/reassembly.go:158-163 | copies every fragment's payload to its place, or panics at one past the end |
| Reassembly.ReassemblyBuffer.Cleanup | internal/ip/reassembly.go:184-196 | deleting while iterating removes exactly the stale groups |
| Reassembly.ReassemblyBuffer.Evict | internal/ip/reassembly.go:190-192 | removes and counts one group |
| KeyTraffic.BytesInAll | internal/ip/reassembly.go:97-100 | the bytes counted reach the total exactly when no piece is missing |
| KeyTraffic.StoreHolds | internal/ip/reassembly.go:93-106 | storing a piece adds its number to the set of pieces held, a repeat changes nothing |
| KeyTraffic.CompleteIff | internal/ip/reassembly.go:108-109 | for pieces of a tiling the counter test succeeds exactly when every piece is there and the original was whole |
| KeyTraffic.OrderIsImmaterial | internal/ip/reassembly.go:158-163 | whatever order the map is visited in, the rebuilt bytes are those of the original datagram |
| KeyTraffic.RebuildIsDatagram | internal/ip/reassembly.go:130-166 | rebuilding all pieces neither fails nor writes out of range |
| KeyTraffic.PieceAgrees | internal/ip/reassembly.go:60-128 | an arriving piece moves the buffer as it moves the set of piece numbers |
| KeyTraffic.ForeignAgrees | internal/ip/reassembly.go:60-128 | nothing that arrives under another key, overlapping or not, changes a key's group or deliveries |
| KeyTraffic.StepAgrees | internal/ip/reassembly.go:60-196 | every Add and cleanup keeps that agreement |
| KeyTraffic.RunRefinesCollector | internal/ip/reassembly.go:60-196 | over every run the buffer refines the collector of piece numbers |
| KeyTraffic.ForeignIsInvisible | internal/ip/reassembly.go:60-128 | the collector ignores what other keys receive |
| KeyTraffic.KeyIndependence | internal/ip/reassembly.go:60-196 | if a key's own fragments are pieces of one tiling, two runs that agree on them and on the sweeps deliver the same under that key, whatever the other keys receive |
| KeyTraffic.ForeignIffOther | internal/ip/reassembly.go:73-78 | a fragment is foreign to a datagram exactly when it differs in source, destination, ID or protocol |
| KeyTraffic.DatagramIndependence | internal/ip/reassembly.go:60-196 | the same independence with the other traffic told by those header fields |
| KeyTraffic.GroupsApart | internal/ip/reassembly.go:73-119 | Add of such a fragment leaves the datagram's group and deliveries alone, whatever they hold |
| KeyTraffic.Gathering | internal/ip/reassembly.go:93-106 | nothing comes out before every piece has been seen |
| KeyTraffic.LastPiece | internal/ip/reassembly.go:108-126 | the piece that completes the set brings out the datagram, and the group is gone |
| RoundTrip.NormalIffIntact | internal/ip/reassembly.go:141-156 | the rebuilt header equals the original's exactly for an intact packet |
| RoundTrip.TilingRun | internal/ip/reassembly.go:60-196 | for every tiling and run: nothing before the last missing piece, then the datagram if the original was whole |
| RoundTrip.FragmentThenReassemble | internal/ip/fragment.go:18-91 | fragments in any order with any repeats: no delivery before the last missing one, then the packet itself exactly when it was intact |
| RoundTrip.UnsplitIsDelivered | internal/ip/reassembly.go:66-71 | an intact packet that needed no splitting is handed on at once, and the groups stay as they are |
| RoundTrip.SinglePieceTiles | internal/ip/fragment.go:57-68 | an intact packet is the one piece of its own tiling, to the byte |
| RoundTrip.HopsThenReassemble | internal/ip/reassembly.go:60-196 | the round trip after any chain of re-fragmenting hops |
| Progress.AddExists | internal/ip/reassembly.go:60-128 | Add has an outcome in every state for every input |
| Progress.PiecesRun | internal/ip/reassembly.go:60-196 | pieces of one tiling in any order, with repeats and sweeps, never make the buffer panic |
| Progress.RoundTripHappens | internal/ip/reassembly.go:60-166 | from any buffer without the key, a run exists in which an intact packet that was split comes out again |
| Accounting.AddAccounts | internal/ip/reassembly.go:80-119 | for any fragment: received is the sum of the stored payload lengths, GroupsActive the number of groups, every group made is active, reassembled, evicted or given up |
| Accounting.CleanAccounts | internal/ip/reassembly.go:184-196 | a sweep keeps the accounts and removes exactly the groups older than 30 s |
| Accounting.RunAccounts | internal/ip/reassembly.go:60-196 | the accounts hold throughout every run on arbitrary traffic |
| Accounting.GivenUpIff | internal/ip/reassembly.go:130-134 | a complete group is given up exactly when the fragment at offset 0 is missing |
| Accounting.FragmentsCounted | internal/ip/reassembly.go:97-101 | FragmentsAdded grows by what the group's map grows by |
| Accounting.GroupAfterAdd | internal/ip/reassembly.go:108-127 | a group stays until it is complete and then goes without an error; a packet is delivered and counted exactly if the fragment at offset 0 is there |
| Accounting.RejectedIff | internal/ip/reassembly.go:61-64 | exactly packets that do not parse are rejected, with that error, and change nothing |
| TilingTraffic.ArriveKeeps | internal/ip/reassembly.go:60-128 | if each live group holds pieces of one tiling and the arriving fragment is a piece of such a tiling, it neither makes the buffer panic nor gives up a group |
| TilingTraffic.GroupsAccountedFor | internal/ip/reassembly.go:80-196 | throughout every run of such traffic from a new buffer, with keys used again for later packets: groups made = GroupsActive + Reassembled + Evicted, GroupsActive is the number of groups, received the sum of the stored payload lengths |
| TilingTraffic.AlwaysNextStep | internal/ip/reassembly.go:60-196 | every such run can go on with any such event, without a panic |
| TilingTraffic.FixedTilingsFit | internal/ip/reassembly.go:60-196 | traffic in which each key has one tiling for good is such traffic |
| LinkPadding.SameAdd | internal/ip/reassembly.go:60-128 | Add treats fragments that differ only in total length and checksum alike, at every step |
| LinkPadding.SameRun | internal/ip/reassembly.go:60-196 | and so over every run |
| LinkPadding.PaddedThenReassembled | internal/ip/reassembly.go:93-106 | with the last fragment padded, nothing is delivered before the last missing fragment, then a datagram with the padding in its payload; it is the original exactly without padding |
| LinkPadding.PaddingHappens | internal/ip/reassembly.go:60-166 | such a run exists for every tiling, padding and buffer without the key |
| LinkPadding.PaddedSample | internal/ip/reassembly.go:93-106 | a packet of 40 bytes comes out as 42 bytes |
| LinkPadding.PaddedInside | internal/ip/reassembly.go:93-109 | with another fragment padded, the group counts as complete exactly when the last fragment is there and as many bytes are missing as there is padding |
| Coverage.CoveredSize | internal/ip/reassembly.go:97-100 | stored lengths add up to the bytes covered exactly when no two fragments overlap |
| Coverage.CounterIsGenuineIff | internal/ip/reassembly.go:97-109 | for any group: of a full counter, full coverage and disjoint pieces within the length, any two imply the third |
| Coverage.OverlapDeliversHole | internal/ip/reassembly.go:97-126 | from any empty table a run exists in which three overlapping fragments of ones make the buffer deliver a packet with a zero in it |
| TCPHeader.FlagsAreBits | internal/tcp/header.go:192-194 | SYN and ACK are the second and the fifth bit |
| TCPHeader.ParseOptions | internal/tcp/header.go:109-148 | the loop computes the specified parse, with its errors |
| TCPHeader.ParseHeader | internal/tcp/header.go:66-106 | reads the specified header or error |
| TCPHeader.EncodeOptions | internal/tcp/header.go:152-169 | both loops give the specified option bytes |
| TCPHeader.Marshal | internal/tcp/header.go:151-189 | fills the buffer with the specified bytes and sets DataOffset |
| TCPHeader.EncodeThenParse | internal/tcp/header.go:109-169 | options print and parse back, whatever follows the end of the list |
| TCPHeader.AcceptedIff | internal/tcp/header.go:109-148 | option data parse exactly when they are an encoding of options followed by nothing or an end of list |
| TCPHeader.OneOption | internal/tcp/header.go:153-163 | the bytes of one option, whatever its fields |
| TCPHeader.EncodeStops | internal/tcp/header.go:154-157 | nothing is written after an end-of-list option |
| TCPHeader.ParseThenEncode | internal/tcp/header.go:109-169 | options parse and print back up to the first end-of-list byte |
| TCPHeader.RefusedIff | internal/tcp/header.go:67-103 | each refusal on the segment's bytes |
| TCPHeader.WrittenLayout | internal/tcp/header.go:171-186 | the bytes that each field is written to |
| TCPHeader.FixedFieldsKept | internal/tcp/header.go:66-189 | reading and writing keeps all fixed bytes, but for the data offset |
| TCPHeader.MarshalThenParse | internal/tcp/header.go:66-189 | with at most 40 option bytes the header comes back with DataOffset filled in and the payload after it |
| TCPHeader.RoundTripIff | internal/tcp/header.go:66-189 | any header comes back exactly when its options are as the parser makes them and take at most 40 bytes |
| TCPHeader.FortyOneNoOperations | internal/tcp/header.go:166-180 | a header with 41 no-operations is refused by its reader for its data offset |
| TCPHeader.ReadThenMarshal | internal/tcp/header.go:66-189 | for any header that parses: no longer than it was, same fields, same option bytes before end-of-list, and idempotent from then on |
| TCPSegment.ChecksumCalculator.SetAndCompute | internal/tcp/checksum.go:38-51 | overwrites exactly the checksum field with the computed checksum, and leaves short segments alone |
| TCPSegment.ChecksumCalculator.Compute | internal/tcp/checksum.go:25-27 | the checksum with the pseudo-header |
| TCPSegment.ChecksumCalculator.Verify | internal/tcp/checksum.go:30-34 | accepts exactly the segments whose checksum comes to zero |
| TCPSegment.SealedVerifies | internal/tcp/checksum.go:25-51 | a sealed segment of up to 131062 bytes verifies at both ends, with the addresses swapped |
| TCPSegment.ChangedWordDetected | internal/tcp/checksum.go:30-34 | changing an aligned word is detected unless it is 0x0000 against 0xFFFF |
| TCPSegment.SegmentReadsBack | internal/tcp/conn.go:83-93 | what send emits verifies at the peer and reads back as the header sent, DataOffset and Checksum filled in, and the payload |
| StateMachine.Machine.constructor | internal/tcp/state.go:118-123 | starts at the given state |
| StateMachine.Machine.Transition | internal/tcp/state.go:134-176 | moves exactly when the table allows it, so the states visited are a path in the table |
| StateMachine.TableByCause | internal/tcp/state.go:58-107 | the table is the handshake's steps, the close's steps and an abort from every state but CLOSED |
| Connection.FirstMSSCounts | internal/tcp/conn.go:121-128 | the first MSS option with two bytes counts, behind any others |
| Connection.NegotiatedIsLesser | internal/tcp/conn.go:131-135 | an offer of 0 or none leaves ours, any other gives the lesser |
| Connection.FieldsWritten | internal/tcp/handshake.go:20-122 | the fields that each handler writes once its guards pass, whether or not its output succeeds, and that it leaves the others alone |
| Connection.ErrorsIff | internal/tcp/handshake.go:20-122 | the error of each handler in every state: guards, then output, then table |
| Connection.ParseMSS | internal/tcp/conn.go:121-128 | the first well-sized MSS option |
| Connection.TCPConn.constructor | internal/tcp/conn.go:45-58 | a closed connection with the default window and MSS |
| Connection.TCPConn.Send | internal/tcp/conn.go:83-93 | the output is offered exactly the sealed segment |
| Connection.TCPConn.NegotiateMSS | internal/tcp/conn.go:131-135 | lowers the MSS to a smaller positive offer |
| Connection.TCPConn.SendSYN | internal/tcp/handshake.go:20-35 | the whole new state, the segment and the error, as the handler on values has them |
| Connection.TCPConn.SendSYNACK | internal/tcp/handshake.go:39-55 | fresh numbers, and a SYN-ACK that acknowledges rcvNXT and offers the MSS |
| Connection.TCPConn.HandleSYN | internal/tcp/handshake.go:59-81 | as the handler on values, MSS lowered before it is offered |
| Connection.TCPConn.SendACK | internal/tcp/conn.go:106-111 | a bare ACK of everything received |
| Connection.TCPConn.HandleSYNACK | internal/tcp/handshake.go:85-105 | as the handler on values |
| Connection.TCPConn.HandleACKInSynReceived | internal/tcp/handshake.go:109-122 | as the handler on values |
| HandshakeSegments.OpenSendsSYN | internal/tcp/handshake.go:20-30 | every byte of the SYN: ports, number, flags 0x02, window, MSS; it verifies at the peer |
| HandshakeSegments.SYNIsAnswered | internal/tcp/handshake.go:39-78 | every byte of the SYN-ACK, which acknowledges the SYN's number plus one and offers the negotiated MSS |
| HandshakeSegments.SYNACKIsAcknowledged | internal/tcp/conn.go:106-111 | every byte of the last ACK, with sndNXT for its number |
| HandshakeSegments.LastACKNumber | internal/tcp/handshake.go:85-105 | which is the client's initial number plus one |
| HandshakeSegments.FirstSegment | internal/tcp/conn.go:45-58 | a new connection's SYN offers window 65535 and MSS 1460 |
| Handshake.SegmentArrives | internal/tcp/conn.go:83-93 | every segment of the handshake verifies at the peer and keeps its ports, flags, numbers, window and options |
| Handshake.StepKeeps | internal/tcp/handshake.go:20-122 | every step, with failing outputs, keeps the protocol's invariant |
| Handshake.RunKeeps | internal/tcp/handshake.go:20-122 | so the invariant holds throughout every run |
| Handshake.Agreement | internal/tcp/handshake.go:20-122 | server ESTABLISHED implies client ESTABLISHED, which implies server SYN_RECEIVED or ESTABLISHED with each rcvNXT the peer's ISN + 1; sndNXT and sndUNA are as the state requires |
| Handshake.SegmentsAgree | internal/tcp/handshake.go:39-106 | throughout every run, what acknowledges the client's SYN is the server's SYN-ACK, and what acknowledges the server's is the client's ACK with the sequence number expected next |
| Handshake.StepsFollowTable | internal/tcp/state.go:58-176 | every step moves each end along the table |
| Handshake.HandlersInTheirStates | internal/tcp/handshake.go:20-122 | in its documented state no handler's transition is refused; a refused segment leaves the connection unchanged and sends nothing |
| Handshake.ErrorKeepsIff | internal/tcp/handshake.go:20-122 | in its documented state a handler that returns an error leaves the connection as it was exactly when its guards refused the segment or the fields already held what it writes |
| Handshake.FirstFailureShows | internal/tcp/handshake.go:20-105 | before a first number is chosen, or the SYN acknowledged, a failed output always changes the connection |
| Handshake.FailedACKLeavesFieldsWritten | internal/tcp/handshake.go:94-102 | a SYN-ACK whose ACK cannot be sent changes four fields and leaves the state SYN_SENT |
| Handshake.RunKeepsMSS | internal/tcp/handshake.go:59-105 | throughout every run the server's MSS is the least of its own and the offers it handled |
| Handshake.MSSAgreement | internal/tcp/handshake.go:59-105 | established ends hold the same MSS and each other's window; the MSS is the lesser initial one exactly when no handled SYN offered less |
| Handshake.MSSIsLesser | internal/tcp/handshake.go:72-80 | if no SYN-ACK fails to be sent, established ends hold the lesser of the two initial MSS values |
| Handshake.Completes | internal/tcp/handshake.go:20-122 | from any fresh start four steps establish both ends with the lesser MSS |
| Handshake.OldSYNLowersMSS | internal/tcp/handshake.go:72-78 | a run in which an old SYN and a failed SYN-ACK leave both ends at 500 instead of 1460 |
| EphemeralSearch.SearchFinds | internal/tcp/conn_table.go:133-162 | with a free port in its way, the search returns the nearest one |
| EphemeralSearch.SearchEndsIff | internal/tcp/conn_table.go:133-162 | it ends exactly when there is one; after a wrap 49152 does not count |
| EphemeralSearch.OnlyFirstPortFree | internal/tcp/conn_table.go:137-141 | after a wrap, with 49152 the only free port, no number of turns finds it |
| ConnTable.ConnectionTable.EphemeralPort | internal/tcp/conn_table.go:133-162 | the loop terminates across the wrap and returns the nearest free port, with the counter kept in 49152..65536 |
| ConnTable.ConnectionTable.TakeTurn | internal/tcp/conn_table.go:134-161 | one turn of the loop is one turn of the search, for any counter and table |
| ConnTable.ConnectionTable.InUse | internal/tcp/conn_table.go:145-156 | whether a listener or any connection's local port has the port |
| ConnTable.ConnectionTable.Register | internal/tcp/conn_table.go:52-61 | adds the connection unless its key is taken |
| ConnTable.ConnectionTable.RegisterListener | internal/tcp/conn_table.go:114-123 | adds the listener unless its port is taken |
| EphemeralCallers.DoKeeps | internal/tcp/conn_table.go:135-158 | every atomic step of any caller keeps the invariant, except exactly an addition that wraps the counter |
| EphemeralCallers.ReturnedPorts | internal/tcp/conn_table.go:133-162 | under every interleaving without such a wrap, ports returned are in range and were free at their check, and past 65536 a swap that will succeed is pending |
| EphemeralCallers.TurnIsTwoSteps | internal/tcp/conn_table.go:134-161 | one caller alone takes the turns of the sequential search |
| EphemeralCallers.FewAdditionsInRange | internal/tcp/conn_table.go:135-161 | with at most 2^32 - 49152 additions every port returned is in range, and with fewer nothing wraps |
| EphemeralCallers.FewAdditionsNoSwap | internal/tcp/conn_table.go:135-141 | with at most 16384 additions no swap succeeds |
| EphemeralCallers.FewAdditionsNoRepeat | internal/tcp/conn_table.go:133-161 | with at most 16385 additions no port is returned twice |
| EphemeralCallers.SamePortNeedsSwap | internal/tcp/conn_table.go:135-139 | without a wrap, two additions take the same port only if a swap succeeded between them |
| EphemeralCallers.NoSwapNoRepeat | internal/tcp/conn_table.go:133-161 | ports taken and returned in a run without a wrap or a successful swap are pairwise distinct |
| EphemeralRuns.InRangeIffNoWrap | internal/tcp/conn_table.go:135-159 | after a step, every run without a further wrap returns only ports in range exactly when the step was no wrap |
| EphemeralRuns.LowPortReturned | internal/tcp/conn_table.go:135-159 | with the counter below 49152 a new caller can be given its value |
| EphemeralRuns.Climb | internal/tcp/conn_table.go:135-140 | of two callers past the last port, one can always spoil the other's swap |
| EphemeralRuns.WrapReturnsPortZero | internal/tcp/conn_table.go:133-161 | from the initial table such a run exists that returns port 0, with one addition more than the bound |
| EphemeralRuns.SamePortTwice | internal/tcp/conn_table.go:133-161 | a run without a wrap and with one addition more than the bound, in which two callers are given port 49153, free at both checks |
| EphemeralRuns.OutIsReturnedAgain | internal/tcp/conn_table.go:133-161 | a port that is being checked or was returned, and is not below the counter, can be returned again |
| EphemeralRuns.OnceIffNothingOut | internal/tcp/conn_table.go:135-161 | after a step, no run without a wrap or a successful swap returns a port twice, exactly when the step was no successful swap made while a port above 49152 was being checked or had been returned |
| Builder.IDGenerator.Next | internal/ip/builder.go:15-17 | the next value, truncated to 16 bits |
| Builder.IDsRepeat | internal/ip/builder.go:9-17 | two identifications are equal exactly when a multiple of 65536 calls apart |
| Builder.LastOptionWins | internal/ip/builder.go:39-100 | the last TTL, TOS and ID given win, others keep their defaults, DF is set by any WithDF |
| Builder.PacketBuilder.BuildWithOptions | internal/ip/builder.go:87-139 | refuses exactly payloads that do not fit, else builds the specified packet; every call takes an identification |
| Builder.BuiltReadsBack | internal/ip/builder.go:87-139 | for both forms of address, a built packet reads back, verifies, and has the exact length and payload |
| Builder.BuiltBytes | internal/ip/builder.go:87-139 | the bytes of a packet that the default builder makes with any options: TOS, length, ID, DF, TTL 64 unless given, protocol, addresses, payload |
| Icmp.Marshal | internal/icmp/icmp.go:58-75 | fills the buffer with the message and its checksum |
| Icmp.MarshalThenParse | internal/icmp/icmp.go:32-75 | an echo message reads back with its checksum filled in, and verifies |
| Icmp.ParseThenMarshal | internal/icmp/icmp.go:32-75 | a message that was read is reproduced exactly when it carried the computed checksum |
| Icmp.ReadLayout | internal/icmp/icmp.go:32-55 | which bytes are an echo message, and where its fields are |
| Icmp.ReplyLayout | internal/icmp/icmp.go:58-85 | exactly type 8 is answered, by the same bytes with type and code 0 and their own checksum |
| Icmp.ICMPHandler.HandleIPPayload | internal/icmp/handler.go:30-74 | a request is answered with one packet or an error; other messages are ignored, short ones refused, and neither writes anything or takes an identification |
| Dispatcher.RoutedIffParses | internal/ip/dispatcher.go:64-101 | accepts exactly what the header codec accepts with IHL at least 5 and no missing bytes, and reads the same fields |
| Dispatcher.RefusedIff | internal/ip/dispatcher.go:64-93 | each refusal on the packet's bytes, in the order of the checks |
| Dispatcher.PaddingIgnored | internal/ip/dispatcher.go:92-101 | bytes after the total length change nothing |
| Dispatcher.AnswerFits | internal/icmp/handler.go:50-60 | a reply to a dispatched request is as long as the request, so never too large |
| Dispatcher.Dispatcher.Dispatch | internal/ip/dispatcher.go:61-119 | every packet is counted as received and as exactly one of invalid, dropped, dispatched, whatever other calls are under way; a request has its reply written; other handlers write nothing |
| Dispatcher.Dispatcher.Register | internal/ip/dispatcher.go:49-53 | the handler for its protocol is replaced |
| Echo.BuiltIsRouted | internal/ip/dispatcher.go:61-119 | a built packet with any padding is dispatched as exactly its payload and addresses |
| Echo.RequestAnswered | internal/icmp/handler.go:30-74 | the reply to any dispatched request is dispatched at the requester as type 0, code 0, same ID, Seq and Data; both checksums verify; it is not answered in turn |
| Echo.Ping | internal/icmp/handler.go:30-74 | a built request comes back to its sender as the reply to that very message |
| FragmentedEcho.BuiltIsIntactIff | internal/ip/builder.go:87-139 | a built packet survives fragmentation and reassembly exactly when MF was not set in its context |
| FragmentedEcho.OptionsKeepIntact | internal/ip/builder.go:39-139 | whatever options it was built with |
| FragmentedEcho.BuiltIsSplit | internal/ip/fragment.go:18-42 | without DF, a built packet above an MTU of at least 28 is split |
| FragmentedEcho.DFIsRefusedIff | internal/ip/fragment.go:28-30 | a built packet above the MTU is refused for DF exactly when it was built with WithDF |
| FragmentedEcho.BuiltArrives | internal/ip/dispatcher.go:61-119 | the fragments of a built packet, in any order with any repeats, bring out that packet, dispatched as its payload and addresses |
| FragmentedEcho.LargePing | internal/icmp/handler.go:30-74 | a request and its reply, both split on the way, come out whole and the reply answers the request |
| Echo.CountersBalance | internal/ip/dispatcher.go:62-117 | with any interleaving of callers, received exceeds the other counters' sum by the calls under way, so they balance when none is |

## Left out

- Tiling.FragmentIsTiling: packets longer than 65535 bytes and fragments whose payload would end past byte 65535 of the datagram, which no IPv4 header can describe; there the code truncates offsets and lengths.
- Refragmentation.FragmentOutput: the same.
- RoundTrip.TilingRun: the pieces of one key must come from one tiling, as the counter needs; Coverage says exactly what happens without that.
- IPHeader.Marshal: an IHL below 5, which ParseHeader accepts, makes it panic; Fragment and Reassemble report that as a panic, and no state after a panic is modelled.
- Reassembly.ReassemblyBuffer.Add: the Go code keeps the caller's slice, the model a value; callers that change a slice after Add are not modelled.
- Handshake.Agreement: handlers are called in the state their comment names, and no old segment acknowledges the number being chosen; the code itself has no receive loop that drives them.
- Handshake.MSSAgreement: also assumes that no old SYN carries the client's chosen number.
- GenerateISN: its randomness and clock are replaced by an arbitrary number with that freshness.
- ConnTable.ConnectionTable.EphemeralPort: requires a free port in the way of the search, since without one the loop does not end (EphemeralSearch.SearchEndsIff); TakeTurn, the loop's body, covers every table.
- EphemeralCallers.ReturnedPorts: assumes that the 32-bit counter does not wrap.
- Dispatcher.Dispatcher: its handlers are ICMP handlers, the one kind that the repository has; the handler interface itself is not modelled.
- Mutexes: each locked region is one atomic step. Deadlock, and locks held across a panic, are not modelled.
- Time is a parameter of Add and Cleanup, the ticker of Start is not part of this model.
- Packet output is an argument that says whether the output accepted the packet, and a log of those it accepted.
- Lookup, LookupOrListener, Remove and RemoveListener: plain map operations.
- Data transfer, retransmission, congestion control, FIN handling and simultaneous open, for which the repository has table entries but no handlers.
- Devices, configuration, logging, command line, formatting, and internal/ip/parser.go, which delegates to a library.
