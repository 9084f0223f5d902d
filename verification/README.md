# A verified model of a bare-metal network stack

The repository is a cut of the U-Boot network stack: Ethernet, ARP, IPv4 reassembly, ICMP echo and the
loop that drives them, with the checksum, formatting, parsing, list and memory routines they stand on.
This project models that code in Dafny and proves what it is for. Code that works in place is modelled in
place: on arrays, with classes for the globals and loops where the source has loops. Each such method is
proved against a specification on values, and the properties are proved about those specifications.

`dafny verify dfyconfig.toml` checks everything.

## What is modelled

**Reassembly** (`HoleList`, `FragmentOrder`, `HoleMemory`, `Defragmenter`, `Reassembly`). `__net_defragment` keeps the
list of missing ranges inside the missing bytes of the buffer it fills. `HoleList.Step` says what a fragment does to
the list as a sequence; `FragmentOrder` says which fragments a list stands for, over every order of arrivals with
repeats; `HoleMemory` says that a list is spelled by the descriptors in a byte array, and which stores turn the
spelling of one list into that of another; class `Defragmenter` is the code; and `Reassembly` is the theorem about
whole runs of packets, whose octets are those of section 3.1 of RFC 791. The design takes index 0 for "no
predecessor", so a hole at block 0 cannot be named by the hole behind it. The result is an exact condition: the
datagram comes back, at the arrival of its last missing fragment, if and only if no fragment fills the beginning of
the second hole while the first one begins at block 0. Orders that start with the first fragment, and strictly
descending ones, satisfy it; middle, last, first does not, and there the list looks complete while the first fragment
is missing.

**ARP, ping and the loop** (`Frames`, `HostModel`, `Wire`, `NetHost`, `Exchange`, `ArpSafety`, `PingRun`, `LoopModel`,
`NetLoop`, `PingExample`). `HostModel` is a host as a value with one function per event; class `NetHost` is the code
on packet buffers, each handler equal to its function. `Wire` says the same octet by octet, as the standards lay
frames out: what each frame that is sent consists of, whom a host asks for an address, and for every frame exactly
what a host does with it. `Exchange` runs a ping between two such hosts through the four frames and all of the checks
on them, with any padding, and over a gateway up to the frame that goes to it. `ArpSafety` lets frames be lost,
repeated and reordered, keeps every frame that any host hands to `eth_send`, and proves over every run that the echo
requests among them are the queued pings and nothing else: each reaches the owner of the address its sender has to ask
for, unchanged but for its destination, and no host sends more of them than it was told to. `PingRun` shows that there
are such runs. `NetLoop` is the loop itself, pass by pass what `LoopModel` says: it ends for every behaviour of the
network, an echo reply that comes in time ends it with success, and it says exactly when its result can be taken for
an answer. `PingExample` is a run of the loop, with literal frames, that ends well.

**Arithmetic** (`Checksum`, `EtherCrc`, `Decimal`). The Internet checksum of RFC 1071, exact for every buffer the code
can be given; the CRC of clause 3.2.9 of IEEE 802.3, whose reflected register is the bit reversal of the defining one,
with the residue that the standard names; and the decimal converter that never divides.

**Text** (`NumberText`, `Printf`, `Format`, `Conversions`, `FormatSpecs`, `Parsers`, `RoundTrips`, `Addresses`,
`Utf`). `vsnprintf` with its truncation; what each conversion with any flags, width, precision and qualifier is read
as and prints, in terms of the number passed; `simple_strtoul`, and the theorems that parsers give back what printers
print: exactly when for numbers, always for IP and MAC addresses; and which texts are addresses at all.
`utf16_to_utf8` is checked against the encoders and decoders of RFC 2781 and RFC 3629.

**Structures and memory** (`LinkList`, `DeviceRing`, `Memory`). The circular doubly linked lists as operations on
rings, where `modifies` says that other rings stay as they are; the ring of devices and the search for one that works;
and word-wise `memcpy` and `memset` against their byte loops, overlapping areas included.

`Bytes` and `Options` hold words, byte windows and an option type.

## Where the code and its promises differ

- `__net_defragment` loses a hole at block 0 in some arrival orders (see above; `Reassembly.MiddleLastFirstIsUnsafe`).
- `__net_defragment` sets the length field of the returned header to the payload's length, without the header
  (`Reassembly.Reassemble` states this header).
- `ip_checksum_ok` ignores the lowest bit, so that every header has a second checksum that is accepted
  (`Checksum.AcceptedFields`; `Exchange.MissealedExample` is a header a host accepts).
- `utf16_to_utf8` reads the unit behind an unpaired high surrogate twice, which uses up two of its `size` rounds; the
  end of the input is then left out (`Utf.EmittedIsPrefix`; `Utf.LastUnitIsLost` is an input).
- `list_cut_position` leaves its target as it was when the list is empty (`LinkList.CutPosition`).
- `net_start_again` leaves `net_state` at `NETLOOP_FAIL` when all devices have been tried, so the loop ends although a
  restart has been prepared, and returns what `eth_init` returned. With `netretry` set to "once", a single device and
  nobody there, `net_loop(PING)` therefore returns 0, and `main.c` reports the host as alive (`NetLoops.SilentPing`;
  `NetLoops.NetLoop.Run` has the exact condition, and without retries it cannot happen).
- A printed number that begins with a sign or blanks reads back as 0 (`RoundTrips.NumberReadsBack`).

## Model

| member | source | states |
|---|---|---|
| HoleList.Find | net/net.c:901-908 | the search stops at the first hole that reaches the fragment's start, and passes every one before it |
| HoleList.StepWf | net/net.c:894-974 | holes stay sorted, disjoint, never adjacent, each with room for its descriptor |
| HoleList.StepAvoids | net/net.c:910-974 | after a fragment is stored no hole shares a byte with it |
| HoleList.StepRoom | net/net.c:950-971 | a moved or split hole begins inside the old one, on the fragment's end, with room for its descriptor |
| HoleList.LosingIsForgetting | net/net.c:926-961 | filling the beginning of the second hole drops a first hole at block 0, and does nothing else |
| HoleList.NotLosingReplaces | net/net.c:926-971 | in every other case the hole met is replaced by what is left of it and all others stay |
| FragmentOrder.FreshDescribesNothing | net/net.c:883-892 | the initial list stands for no fragment received |
| FragmentOrder.FindsItsHole | net/net.c:901-914 | the hole found for a missing fragment contains it |
| FragmentOrder.RepeatChangesNothing | net/net.c:901-971 | an exact repeat leaves the hole list as it is and never completes the packet |
| FragmentOrder.NewFragmentFills | net/net.c:928-971 | without a loss, a missing fragment makes the list stand for one more fragment |
| FragmentOrder.EmptyIffComplete | net/net.c:930-932 | no hole is left exactly when every fragment counts as received |
| FragmentOrder.LosesOnlyWhenUnsafe | net/net.c:926-961 | a hole is lost only by a fragment right behind a run that follows the missing beginning |
| FragmentOrder.UnsafeLoses | net/net.c:926-961 | and by every such fragment |
| FragmentOrder.ArrivalKeepsDescription | net/net.c:863-981 | after any arrival the list stands for exactly the fragments that arrived, and those lost with a hole |
| FragmentOrder.ReceivedOutside | net/net.c:894-899 | no hole, so no descriptor, lies on bytes of a received fragment |
| HoleMemory.StoreKeepsList | net/net.c:973-974 | copying a fragment's bytes keeps every descriptor |
| HoleMemory.RemovalKeepsList | net/net.c:928-944 | unlinking a hole leaves the other descriptors linked both ways as the list without it |
| HoleMemory.ShorteningKeepsList | net/net.c:946-948 | the same for a shortened hole |
| HoleMemory.MovingKeepsList | net/net.c:950-960 | the same for a moved hole |
| HoleMemory.SplittingKeepsList | net/net.c:962-971 | the same for a hole split in two |
| Defragmentation.HeaderOctets | net/net.c:863-919 | in any header, which octets are read as total length, identification, offset and the bit for more fragments |
| Defragmentation.Defragmenter.constructor | net/net.c:865-868 | a buffer in which any packet starts a datagram |
| Defragmentation.Defragmenter.RemoveHole | net/net.c:928-944 | the list loses the hole (and the ones before it when the predecessor is block 0); only holes are written |
| Defragmentation.Defragmenter.MoveHole | net/net.c:950-960 | the list has the hole's rest in its place; nothing outside the holes is written |
| Defragmentation.Defragmenter.SplitHole | net/net.c:962-971 | the list has both parts in its place; nothing outside the holes is written |
| Defragmentation.Defragmenter.FixHoles | net/net.c:922-971 | the descriptors spell the list that `HoleList.Step` gives |
| Defragmentation.Defragmenter.Reset | net/net.c:883-892 | a new datagram: one hole without end and the first fragment's header |
| Defragmentation.Defragmenter.FindHole | net/net.c:901-908 | the walk through memory ends, at the hole `HoleList.Find` gives |
| Defragmentation.Defragmenter.Merge | net/net.c:916-974 | the fragment's bytes are in place, other received bytes and the header as before |
| Defragmentation.Defragmenter.Take | net/net.c:894-980 | one fragment of the current datagram: list, bytes, length and header afterwards |
| Defragmentation.Defragmenter.Defragment | net/net.c:863-981 | the whole function: beyond 16364 octets of payload nothing, else new datagram, dropped, stored or complete |
| Reassembly.PacketIsFragment | net/net.c:863-919 | a packet whose octets say so, whatever its other flags and fields, is taken for the fragment it is |
| Reassembly.StepKeepsData | net/net.c:863-981 | received data survives every further fragment, and a stored fragment's data is in place |
| Reassembly.SoundStep | net/net.c:863-981 | a safe arrival keeps the invariant that everything received is in place |
| Reassembly.LosingStep | net/net.c:926-961 | an unsafe arrival leaves a descriptor where the first bytes belong |
| Reassembly.LostStep | net/net.c:863-981 | and no later arrival repairs them |
| Reassembly.Reassemble | net/net.c:863-981 | every order of packets with the octets of the datagram's fragments: the datagram comes back byte for byte with its length at the last missing fragment, and nothing before, if the order is safe; and only then, for payloads whose first word is none of the places where the datagram is cut |
| Reassembly.FirstFragmentFirstIsSafe | net/net.c:855-861 | orders that begin with the offset-0 fragment are safe, with any repeats |
| Reassembly.DescendingIsSafe | net/net.c:855-861 | strictly descending orders are safe |
| Reassembly.MiddleLastFirstIsUnsafe | net/net.c:926-936 | three fragments, middle, last, first: the list is empty while the first is missing |
| Reassembly.ReassembleStream | net/net.c:883-892 | datagrams as such packets, one after the other through the same buffer, some never completed, each come back |
| Frames.BuiltIsReceived | net/net.c:1389-1412 | for every VLAN setting a built frame is told apart by the receiver as the protocol and at the offset it was built with, and accepted |
| Frames.AnswerKeepsFraming | net/net.c:1414-1435 | the size an answer is written with is the offset the question was parsed with, in spite of the two tests around 1514 |
| Frames.ArpRoundTrip | net/arp.c:53-82 | an ARP packet as it is built parses to its fields, whatever follows it |
| Frames.ArpParsed | net/arp.c:126-160 | and only such packets parse |
| HostModel.AnswerHeaderFields | net/net.c:1414-1435 | an answer is addressed to the asker and heard by whoever hears the question |
| HostModel.HopIsByBits | net/arp.c:84-96 | the gateway is asked exactly if there is one and some bit set in the netmask differs between target and own address |
| Wire.RequestFrameOctets | net/arp.c:53-82 | every octet of an ARP request, for every VLAN setting |
| Wire.PingAsks | net/ping.c:42-66 | a ping asks for its target, or for the gateway if the way leads over it |
| Wire.ForeignTarget | net/arp.c:84-99 | for example 10.0.0.1 asks 10.0.0.254 for the way to 8.8.8.8 |
| Wire.TimeoutAsks | net/arp.c:101-124 | every repetition asks the same, after more than 5000 ms and four times in all; then the host gives up |
| Wire.PingOctets | net/ping.c:20-40 | every octet of an echo request; either checksum makes the words of its part add up to 0xffff |
| Wire.PingWaits | net/ping.c:42-66 | that request waits, to nobody yet; identifier and sequence number count on and wrap around |
| Wire.FramingOctets | net/net.c:1037-1147 | which octets tell the framing, the VLAN and the protocol of a frame |
| Wire.EchoRequestOctets | net/ping.c:20-40 | which frames count as echo requests, and where their destination stands |
| Wire.EchoOctets | net/ping.c:83-116 | every octet of an echo reply |
| Wire.ReceivedExactly | net/net.c:1037-1221 | for every frame, by its octets, exactly what a host sends and what becomes of its state: four kinds of frames have an effect and no others |
| NetHosts.NetHost.SetEther | net/net.c:1389-1412 | writes exactly the link header, tagged or not, and returns its size |
| NetHosts.NetHost.UpdateEtherHeader | net/net.c:1414-1435 | rewrites addresses and protocol in the framing the frame came in |
| NetHosts.NetHost.ArpRawRequest | net/arp.c:53-82 | sends the broadcast request frame and nothing else |
| NetHosts.NetHost.ArpRequest | net/arp.c:84-99 | sends the request octet by octet, for the target, or for the gateway if some bit set in the netmask says so |
| NetHosts.NetHost.ArpTimeoutCheck | net/arp.c:101-124 | nothing, one more request, or failure at the fifth try |
| NetHosts.NetHost.ArpReceive | net/arp.c:126-236 | in place: answers requests for its own address, releases the waiting packet on the awaited reply, else nothing |
| NetHosts.NetHost.SetIcmpHeader | net/ping.c:20-40 | writes the echo request behind the link header, both checksums sealed |
| NetHosts.NetHost.PingSend | net/ping.c:42-66 | queues the echo request and sends the first ARP request, for target or gateway |
| NetHosts.NetHost.AnswerEcho | net/ping.c:83-116 | turns a request into its reply in place, cut to its own IP length |
| NetHosts.NetHost.AcceptsIp | net/net.c:1148-1194 | exactly the length, version, header, checksum, address and fragment checks |
| NetHosts.NetHost.IpReceive | net/net.c:1148-1221 | echo replies from the pinged address end the ping, echo requests are answered, all else is dropped |
| NetHosts.NetHost.ProcessReceivedPacket | net/net.c:1037-1221 | the demultiplexer, in every framing and VLAN setting |
| Exchange.PingBodyFields | net/ping.c:20-40 | every field of an echo request, and that both of its checksums pass |
| Exchange.EchoBodyFields | net/ping.c:83-116 | any request's reply: addresses turned round, no fragment, data and identifiers kept, both checksums valid |
| Exchange.RequestIsAnswered | net/arp.c:163-190 | a request for a host's address gets its reply, which the asker can read |
| Exchange.ReplyReleasesPacket | net/arp.c:192-229 | the reply releases the waiting packet to the MAC address it carries |
| Exchange.RequestIsEchoed | net/ping.c:83-116 | an echo request passes all checks of its target and is echoed to the asker |
| Exchange.EchoEndsPing | net/ping.c:83-116 | the echo passes all checks of the pinger and ends the ping |
| Exchange.PingSucceeds | net/ping.c:42-116 | the four frames follow from each other and the ping ends in success, for any padding |
| Exchange.GatewayIsAsked | net/arp.c:84-229 | over a gateway: it is asked and answers, and the echo request goes out with its MAC address and the target's IP address |
| ArpSafety.ReceiveIsHonest | net/arp.c:126-229 | whatever a host receives, its own answers tell its own addresses, and unless it releases its packet it sends no echo request |
| ArpSafety.ReleaseFollowsReply | net/arp.c:192-229 | a packet is only released by a reply from the address asked for, and then is all that is sent |
| ArpSafety.ReleaseIsSound | net/arp.c:192-229 | each release is of the ping queued last, to the one owner of the address its destination needs |
| ArpSafety.StepKeeps | net/arp.c:84-229 | every event keeps the invariant of the network: what was sent, what waits and what was released agree |
| ArpSafety.ReleasesAreSound | net/arp.c:84-229 | over every run with loss, repetition and reordering: the echo requests sent are, in order, the releases; each is a queued ping with the MAC address of whoever owns the address to be asked for (target or gateway, by the bits of the netmask), otherwise unchanged; no ping twice |
| ArpSafety.PingsReachOwners | net/arp.c:84-229 | the same of everything ever sent, without the log of releases; and no host sends more echo requests than it was told to |
| PingRun.PingIsReleased | net/ping.c:42-116 | for any two hosts of a network, a run of five events in which a ping is released once and succeeds |
| PingRun.SomePingIsReleased | net/ping.c:42-116 | there are such hosts |
| PingRun.ReleasesHappen | net/arp.c:192-229 | a network that keeps the invariant and in which a delivery releases a packet |
| ArpSafety.FramesStaySane | net/net.c:1156-1161 | no frame of such a network has an IP length below its header |
| LoopModel.ReceiveEffects | net/net.c:1037-1221 | a received frame ends in success exactly if it is an echo reply for the host, restarts no timer and asks for no address |
| LoopModel.ReceiveAllEffects | net/net.c:555-562 | so do all frames of a pass together, in any number and order |
| LoopModel.PollStep | net/net.c:548-562 | the first half of a pass: success exactly on an echo reply, failure exactly at the fifth vain wait, else closer to the end |
| NetLoops.NetLoop.EthRx | net/net.c:555-562 | every frame that has arrived is handed on once and in order, and answered as `HostModel.Receive` says |
| NetLoops.NetLoop.Decide | net/net.c:564-651 | ctrl-c, the timeout and the state decide what becomes of the attempt and of the result |
| NetLoops.NetLoop.StartAgain | net/net.c:672-724 | fails beyond the retry count, else counts and restarts, or ends if all devices were tried |
| NetLoops.NetLoop.CheckArp | net/net.c:553-554 | exactly the timeout check of the model, and a new start of the ten seconds while an address is awaited |
| NetLoops.NetLoop.OnePass | net/net.c:548-651 | what the pass makes of the host and what it sends; unless ctrl-c is pressed it ends with success and 0 exactly if an echo reply is among its frames and ten seconds are not over; else the attempt ends or a measure of waiting, tries and time decreases |
| NetLoops.NetLoop.NextPass | net/net.c:548-651 | the same of the attempt so far: no pass before a reply in time ends it, and the pass that brings the reply does |
| NetLoops.NetLoop.Attempt | net/net.c:548-651 | an attempt ends, with at most four ARP requests; a reply within ten seconds ends it with success; what is sent is what its passes send |
| NetLoops.NetLoop.Attempts | net/net.c:420-663 | attempts follow each other at most `retrycnt` times, and only where a device was left to try; a reply in time to the first or the last one is the last thing that happens |
| NetLoops.NetLoop.Run | net/net.c:399-663 | the loop ends for every behaviour of network and clock, with at most `retrycnt` restarts and four ARP requests each; an echo reply within ten seconds of the start, or of the last attempt's start, gives success and 0; without an echo reply the result is not negative if and only if the last pass failed after the last device, the device came up and retries were left; without retries, never |
| PingExample.AnsweredPing | net/net.c:399-663 | a concrete host and the peer's two replies, octet by octet: the result is 0, and one request and one ping were sent |
| NetLoops.SilencePassesForAnAnswer | net/net.c:672-724 | with retries, one device and no frames at all, the result is 0 |
| NetLoops.SilentPing | net/net.c:672-724 | and such a host and clock exist |
| Checksum.OnesSumIsCanon | net/checksum.c:17-31 | the one's complement sum is the sum reduced to 1..0xffff, or 0 for zeros |
| Checksum.TwoFoldsSuffice | net/checksum.c:29-30 | two folds reduce any non-negative `int` |
| Checksum.WordSumFits | net/checksum.c:15-28 | the `int` sum never overflows on up to 65536 bytes |
| Checksum.ComputeIpChecksum | net/checksum.c:13-34 | is the complement of the one's complement sum |
| Checksum.StoredInNetworkOrder | net/checksum.c:13-34 | what a little-endian machine stores of it is the complement of the sum of words in network order |
| Checksum.Rfc1071Example | net/checksum.c:13-34 | that sum on the example of section 3 of RFC 1071 |
| Checksum.OnesSumConcat | net/checksum.c:42-51 | the sum of a concatenation from the sums of its parts, swapped behind an odd part |
| Checksum.AddIsConcat | net/checksum.c:36-54 | combining two checksums gives the checksum of the concatenation, exactly, odd lengths included |
| Checksum.ChecksumOfParts | net/checksum.c:36-54 | so does combining the checksums of any number of parts one after the other |
| Checksum.AcceptedExactly | net/checksum.c:56-59 | accepted are the folded sums 0xffff and 0xfffe and no others |
| Checksum.AcceptedFields | net/checksum.c:56-59 | in any buffer exactly the right checksum and the one below it are accepted, apart from other spellings of zero |
| Checksum.AcceptsOneTooMany | net/checksum.c:56-59 | every buffer with a checksum above 0 can carry a wrong one that is accepted |
| Exchange.MissealedIsAccepted | net/net.c:1171-1175 | a host accepts every echo request header whose checksum is one too low |
| Exchange.MissealedExample | net/net.c:1171-1175 | for example one from 10.0.0.1 to 10.0.0.2 |
| Checksum.SealedIsOk | net/net.c:1471-1474 | a buffer sealed with its own checksum always passes |
| EtherCrc.ReverseShift | net/eth_legacy.c:396-399 | one step of the reflected register is the bit reversal of one step of the defining one |
| EtherCrc.RegisterReversed | net/eth_legacy.c:390-400 | so is the register after any bytes |
| EtherCrc.ReverseBit | net/eth_legacy.c:401-406 | what bit reversal means, bit by bit |
| EtherCrc.EtherCrc | net/eth_legacy.c:390-407 | the result is the MSB-first register with polynomial 0x04C11DB7 and all-ones start, each byte fed low bit first |
| EtherCrc.Residue | net/eth_legacy.c:389-407 | behind any frame its own check sequence leaves 0xC704DD7B |
| EtherCrc.CheckValue | net/eth_legacy.c:389-407 | the known check value of one letter |
| Decimal.Tenth | misc/vsnprintf.c:59-93 | the multiplication by 0xcd and shift by 11 is division by ten on all of its operands |
| Decimal.SmallTenth | misc/vsnprintf.c:59-93 | and that by 0xd and 7 on all of its own |
| Decimal.Reweighted | misc/vsnprintf.c:59-93 | the re-weighted hexadecimal digits with their carries are the decimal digits |
| Decimal.PutDecTrunc | misc/vsnprintf.c:59-93 | the digits of a number below 100000, least significant first, no leading zeros |
| Decimal.PutDecFull | misc/vsnprintf.c:95-135 | its five digits |
| Decimal.DigitsSplit | misc/vsnprintf.c:148-157 | the digits of a number are five of its remainder and then those of its quotient |
| Decimal.PutDec | misc/vsnprintf.c:148-157 | the digits of every 64-bit number, at most 20 |
| Decimal.SimpleItoa | misc/vsnprintf.c:803-815 | the same digits the other way round |
| Conversions.NumeralIs | misc/vsnprintf.c:218-245 | the digits printed in base 8, 10 and 16 are the numeral in the digits of that base |
| Conversions.DigitChars | common.c:53-60 | which characters are digits, and of what value |
| Printf.PowerDigitsFit | misc/vsnprintf.c:223-239 | `tmp` is long enough in base 8 and 16 |
| Printf.Output.AddCh | misc/vsnprintf.c:171-175 | the cursor counts on, and the buffer holds what fits |
| Printf.Output.String | misc/vsnprintf.c:277-295 | cut to the precision and padded to the width on the right side |
| Printf.Output.Number | misc/vsnprintf.c:178-275 | blanks, sign, prefix, zeros and digits in order, for every width, precision and flags |
| Conversions.NumberIs | misc/vsnprintf.c:178-275 | every number from -2^63 or to 2^64, passed modulo 2^64: its sign, prefix, zeros and numeral, laid out to the width |
| Format.TakeSpec | misc/vsnprintf.c:562-627 | flags, width, precision and qualifier as their grammar says, from digits or from arguments |
| Format.FormatInto | misc/vsnprintf.c:535-729 | the format loop ends, also on a format cut off inside a conversion, and emits each conversion's text |
| Format.Vsnprintf | misc/vsnprintf.c:535-735 | the count is the same for every size; the buffer holds the longest prefix that leaves room for a NUL, the NUL, and beyond it what it held before |
| FormatSpecs.PartsAreRead | misc/vsnprintf.c:562-627 | every specification that can be written, with any flags, width, precision and qualifier, is read as what it says |
| FormatSpecs.IntegerConversion | misc/vsnprintf.c:535-729 | every integer conversion anywhere in a format prints the number of its type that was passed |
| FormatSpecs.PlainSigned | misc/vsnprintf.c:681-729 | `%d` prints an `int`: a minus sign exactly if it is negative, and its absolute value |
| FormatSpecs.PlainUnsigned | misc/vsnprintf.c:681-729 | `%u`, `%o`, `%x` and `%X` print an `unsigned int` in their base |
| FormatSpecs.TextConversion | misc/vsnprintf.c:631-700 | `%s` and `%c` fill their field; `%%`, `%n` and unknown conversions |
| FormatSpecs.PlainText | misc/vsnprintf.c:560-564 | text without a percent sign is printed as it is |
| Parsers.SimpleStrtoul | common.c:48-66 | the loop takes digits in modulo 2^64 |
| Parsers.StrtoulIsValue | common.c:31-66 | the result is the value of the longest run of digits behind the prefix, modulo 2^64 |
| Parsers.DigitsOfStandFor | misc/vsnprintf.c:218-245 | the digits printed in base 8, 10 and 16 stand for their number |
| RoundTrips.NumberReadsBack | misc/vsnprintf.c:178-275 | for every width, precision and flags: a printed number reads back if and only if it is 0 or nothing but zeros and its prefix stands before it |
| RoundTrips.SignedReadsBack | misc/vsnprintf.c:199-259 | every signed 64-bit number that no blanks precede: a minus sign exactly if it is negative, and its absolute value read back behind the sign |
| RoundTrips.NumberFillsWidth | misc/vsnprintf.c:246-274 | a printed number takes exactly its width unless it is longer without one |
| RoundTrips.OtherwiseNothingIsRead | common.c:48-66 | behind a blank or a sign nothing is read |
| RoundTrips.NumberTellsItsBase | common.c:31-45 | with base 0 the prefix, or a decimal number without leading zeros, tells the base |
| RoundTrips.PrefixAlone | common.c:31-45 | 0x without digits is the digit 0 with base 0, and skipped with base 16 |
| Addresses.IpToString | net/net.c:1508-1517 | the dotted decimal octets, most significant first, fit in 16 characters |
| Addresses.StringToIp | common.c:235-264 | four fields of at most 255 with dots between them, else 0 |
| Addresses.DottedIsRead | common.c:235-264 | four runs of digits with dots between them: the address if all are at most 255 modulo 2^64, else 0 |
| Addresses.OnlyDottedIsRead | common.c:235-264 | and any other text gives 0 |
| Addresses.IpReadsBack | common.c:235-264 | every address reads back, whatever follows it that is not a digit |
| Addresses.OctetsInOrder | net/net.c:1508-1517 | the octets of an address in memory order are its text from left to right, and so read |
| Addresses.MacAddressString | misc/vsnprintf.c:384-401 | six pairs of hexadecimal digits, with colons unless the flag leaves them out |
| Addresses.MacTextIs | misc/vsnprintf.c:384-401 | which characters stand for which octet |
| Addresses.EthParseEnetaddr | net/eth_common.c:17-27 | fills all six octets, also from a short text or none |
| Addresses.OctetsAreGiven | net/eth_common.c:17-27 | what any hexadecimal fields with any separator give, too long, too few or too many |
| Addresses.MacReadsBack | net/eth_common.c:17-27 | every MAC address with colons reads back |
| Utf.Encoded16Decodes | misc/vsnprintf.c:299-320 | the encoding of section 2.1 of RFC 2781 decodes to the scalars encoded |
| Utf.EncodedDecodes | misc/vsnprintf.c:297-347 | what is written decodes, by a strict decoder, to the code points it was written for |
| Utf.MeaningIsKept | misc/vsnprintf.c:297-347 | well-formed UTF-16 decodes to the code points the output decodes to |
| Utf.EncodingIsKept | misc/vsnprintf.c:297-347 | any scalars, encoded in UTF-16, come out as themselves |
| Utf.LoneSurrogate | misc/vsnprintf.c:299-320 | a surrogate on its own between encoded scalars is replaced by a question mark |
| Utf.Examples | misc/vsnprintf.c:297-347 | the examples of RFC 3629 and RFC 2781, and U+1F600, octet by octet |
| Utf.EmittedIsPrefix | misc/vsnprintf.c:299-320 | any input: a prefix of its repaired code points, all of them if and only if every high surrogate is paired |
| Utf.LastUnitIsLost | misc/vsnprintf.c:305-320 | two units, an unpaired high surrogate and a letter, come out as a question mark alone |
| Utf.EmittedFits | misc/vsnprintf.c:299-345 | three octets per unit at most |
| Utf.Utf16ToUtf8 | misc/vsnprintf.c:297-347 | writes exactly the UTF-8 encoding of what the loop gets to, which for the UTF-16 encoding of any scalars is theirs; reads no unit at or past `size` |
| LinkList.AddBetween | include/linklist.h:53-61 | a ring cut open closes again with the new entry in the cut |
| LinkList.Add | include/linklist.h:71-74 | the new entry comes first |
| LinkList.AddTail | include/linklist.h:84-87 | the new entry comes last |
| LinkList.DelInit | include/linklist.h:142-146 | the ring without the entry, and the entry alone |
| LinkList.ReplaceInit | include/linklist.h:131-136 | the new entry in the old one's place, also in a ring of one |
| LinkList.Move | include/linklist.h:153-157 | from one ring to the front of another, or of the same |
| LinkList.MoveTail | include/linklist.h:164-169 | the same to the end |
| LinkList.EmptyIffAlone | include/linklist.h:186-217 | the tests for empty and singular lists decide what they say |
| LinkList.LastIsBeforeHead | include/linklist.h:176-180 | the test for the last entry holds for no other |
| LinkList.Collect | include/linklist.h:366-368 | a walk meets every entry once, in order, and ends |
| LinkList.CutPosition | include/linklist.h:245-257 | the entries up to the given one in the other list, the rest where they were |
| LinkList.Splice | include/linklist.h:278-283 | the other list's entries first |
| LinkList.SpliceTail | include/linklist.h:290-295 | the other list's entries last |
| LinkList.SpliceInit | include/linklist.h:304-311 | the first, with the other list left empty |
| LinkList.SpliceTailInit | include/linklist.h:321-328 | the second, with the other list left empty |
| LinkList.ChainConcat | include/linklist.h:96-100 | two chains make one exactly when they are disjoint and linked both ways |
| DeviceRing.Joins | net/eth_legacy.c:254-262 | a device linked in behind the last one makes a cycle one longer |
| DeviceRing.Leaves | net/eth_legacy.c:268-287 | linking past a device makes a cycle without it |
| DeviceRing.Devices.Register | net/eth_legacy.c:244-266 | one cycle in registration order, the first device becomes current |
| DeviceRing.Devices.Unregister | net/eth_legacy.c:268-295 | takes out exactly the given device, fails exactly if it is not there, and never leaves it current |
| DeviceRing.Devices.TryAnother | net/eth_common.c:118-143 | one step round the ring, remembering the first failed device and marking when it is met; nothing without rotation |
| DeviceRing.WrapsAfterOneRound | net/eth_common.c:118-143 | over calls of which only the first is a first restart, the wrap mark is first set at the call that completes the ring |
| DeviceRing.Devices.InitDevices | net/eth_legacy.c:412-436 | tries each device at most once, in ring order, stops at the first success, which alone becomes active, else -110 with the current device back; when the wrap mark is set |
| DeviceRing.FromMeetsAll | net/eth_legacy.c:412-436 | that order meets every device once |
| Memory.LoadThenStore | common.c:102-108 | storing a loaded word stores its octets |
| Memory.CopyForwardIsCopy | common.c:111-114 | what the byte loop leaves at every address, overlap or not |
| Memory.CopyMoves | common.c:95-117 | a correct move unless the destination begins inside the source, behind its start |
| Memory.OverlapSpoils | common.c:95-117 | and for each other pair of areas a memory in which it is none |
| Memory.WordCopies | common.c:104-109 | on aligned, different addresses a word copy is eight steps of the byte loop |
| Memory.Memcpy | common.c:95-117 | the byte loop on every memory, address pair and count |
| Memory.FillWord | common.c:156-159 | shifts build the word of eight equal octets and lose no bit |
| Memory.Memset | common.c:147-170 | the area is full of the low octet of `c`, all else as before |

## Left out

- Reassembly.Reassemble: "only if" is for payloads whose first two octets, read as a little-endian word, are not a place where the datagram is cut; otherwise the stray descriptor, which holds such a place, can by chance be the missing data.
- Defragmentation.Defragmenter.Defragment: payloads above 16360 octets, where a hole descriptor may not fit in the buffer, and fragments that are empty or overlap other than by exact repetition.
- HostModel.IpReceive: the receive path is that of the build without `CONFIG_IP_DEFRAG`, which drops fragments; the reassembler is not wired into it.
- NetHosts.NetHost.IpReceive: echo requests with an IP length below 20 are excluded by a precondition, because the source then sums a buffer of negative length; `ArpSafety.FramesStaySane` shows that no host sends one.
- NetHosts.NetHost.ProcessReceivedPacket: the same exclusion.
- A short 802.2 frame is dropped at once, where the source reads its protocol from behind the frame and drops it at the next length check.
- NetLoops.NetLoop.Run: `netretry` set to "yes", which never ends, and a host without a MAC address.
- NetLoops.NetLoop.StartAgain: the results of `eth_try_another` and `eth_init` are inputs here; `DeviceRing` models them.
- Exchange.PingSucceeds: for a target that is asked for directly; over a gateway `Exchange.GatewayIsAsked` goes as far as the frame to the gateway, whose forwarding is not part of this model.
- Format.FormatInto: the text of `%p` and its variants is a function parameter.
- FormatSpecs.TextConversion: what `%n` stores; `%p` is left to that parameter.
- Format.Vsnprintf: the text of `%p` and its variants is a function parameter, `%n` stores nothing, and a missing argument reads as 0 or no string.
- Format.TakeNumber: a width or precision beyond an `int`, where the source's arithmetic overflows.
- Addresses.IpToString: `sprintf` is `vsnprintf` with the room the caller must have, instead of a size of 2147483647.
- Utf.Utf16ToUtf8: the input is a value, so an output that overlaps it is not covered; `|` and `&` on disjoint bits are sums and remainders.
- Memory.Memcpy: a machine whose `unsigned long` has eight octets, least significant first.
- `list_del`, which poisons the entry's links; `list_del_init` is the same otherwise.
- DeviceRing.Devices.Register: the environment updates of `eth_current_changed` and the check of the device's name.
- The clock is unbounded, so its wrap-around is not modelled, and it advances from each pass of the loop to the next.
- UDP, TFTP, BOOTP, DNS, NFS, CDP and RARP, the EFI and UUID formats, and IPv6 addresses.
- The Ethernet driver, PHY and MII access, caches and memory-mapped registers: `eth_send` is a list of frames, `eth_rx` an input.
- Environment variables other than as parameters, console output, and the bump allocators.
