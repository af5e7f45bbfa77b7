# BitBeak: models and proofs of its protocol cores

BitBeak captures, filters, dissects, reassembles and replays network traffic. This project models
the state machines, parsers, compilers and codecs under its terminal interface, keeps the form the
Rust code has (a class where methods update fields, a loop where the code loops, a function where it
computes), and proves what each of them is for. `dafny verify dfyconfig.toml` checks everything.

| files | what they model |
|---|---|
| `TpacketRing`, `TpacketLayout`, `TpacketRuns`, `TpacketFifo`, `TpacketDrift`, `TpacketTurns` | the reader of the kernel's receive ring, blocks as the kernel lays them out, the kernel as an environment that publishes them, and runs of both |
| `Text`, `FilterGrammar`, `JoinedWords`, `FilterLists`, `CaptureFilter`, `CaptureText`, `DisplayFilter`, `DisplayMeaning` | the two filter languages: the grammar they share, expressions with any number of operands, the texts of their atoms, the printer of one and what the other accepts |
| `Conversations`, `DrillDown` | the conversation table and the filter text a row turns into, with the packets it selects |
| `Bpf`, `BpfAcceptance`, `BpfWire` | capture filters compiled to classic BPF, the machine that runs them, and the packets they let through, byte by byte |
| `Defrag`, `DefragWire`, `FollowTcp`, `FollowPackets`, `HttpAssembler`, `HttpHeads`, `Framing`, `FramingWire` | reassembly of IPv4 fragments, TCP segments, HTTP messages and length-prefixed frames, and how each looks on the wire |
| `DiskRing`, `ProtoTree` | the rotating capture files and the foldable protocol tree |
| `HttpDate`, `HttpDateForms`, `Checksum`, `Sni`, `Utf8`, `Utf8Codec`, `Composer`, `ComposerForms` | civil dates, the Internet checksum, the TLS server name, UTF-8, text forms of payloads |
| `Prelude` | bytes, options, results, concatenation |

Some of what the code is meant to do holds only under a condition. The code is modelled as it is, and the
condition is stated as an equivalence or together with a counterexample:

* First-in-first-out delivery from the receive ring, with the reader's calls taken as atomic, needs every
  published chain to hold a packet and to end with next offset 0; a block of any other kind can reverse the
  order of later blocks (`TpacketDrift.OrderSafeIffTerminated`). The code does not exclude the kernel from
  acting inside a call, and then terminated chains are not enough: the order also needs the kernel not to fill
  the slot the cursor stands at while older blocks wait (`TpacketTurns.LateFillIff`), which can happen on every
  ring of two or more blocks (`TpacketTurns.NewestFirst`). Exactly-once delivery needs none of this.
* A load outside the packet makes a BPF program drop it. A compiled `not` is a negation on exactly the packets on
  which its filter neither faults nor returns early, which only an `or` inside it can cause; a compiled `or` is
  a disjunction unless its left side faults where the right one accepts, or ends in a `not`; a compiled `and`
  lets packets its left side rejects into the middle of its right side, so that "tcp and udp" accepts what "udp"
  accepts (`BpfAcceptance.NotAcceptsIff`, `OrAcceptsIff`, `AndAcceptsIff`, `LeftProtocolIgnored`). On packets
  that reach past the ports nothing faults. The comments in src/capture/bpf.rs say otherwise; the models follow
  the code.
* A compiled "src port" or "dst port" reads no port of a TCP packet: over Ethernet and IPv4 it accepts one exactly
  when the port asked for is 6 (`BpfWire.TcpPortsUnread`).
* A TCP or UDP row without ports in its addresses has a filter that misses the row's own packets
  (`DrillDown.RowFilterAccepts`). What a row's filter selects from a whole capture is said by `DrillDown.RowSelects`:
  hosts are looked for anywhere in an end point's text.
* HTTP messages come out the same under every cutting into chunks exactly when no bare LF LF completes
  a message before the CRLF CRLF of the same head has arrived (`HttpAssembler.ChunksDoNotMatterIff`).
* A fragment captured twice before its IPv4 datagram is complete keeps it from ever being reassembled
  (`Defrag.RepeatBlocks`).
* The length-prefix encoder does not look at the frame limit, the decoder does
  (`Framing.EncodedDecodesIff`).
* An Ethernet frame whose IPv4 datagram was cut short by the capture stops reassembly: the slice leaves the captured
  bytes (`DefragWire.CutFrameIff`).
* TCP following takes a link-layer trailer for payload (`FollowTcp.Ipv4PayloadIff`), and shows a stream whose sequence
  numbers wrap around from the wrap on first (`FollowPackets.PacketsFollow`, `WrapReorders`).
* A header checksum of all ones is flagged as bad although a receiver may accept it
  (`Checksum.FlaggedIff`).
* A payload the composer shows as it is comes back unchanged exactly when each of its backslashes is
  harmless; otherwise it changes, is refused, or decoding stops inside a character
  (`Composer.RoundTripIff`).
* A tree node added under the index it is about to get becomes its own parent, and one added under a higher index
  has none; neither is ever shown, and the walk over the tree ends all the same (`ProtoTree.ChildUpwardIff`,
  `ProtoTree.LooseStaysHidden`).
* A leap second has the same seconds value as the midnight after it (`HttpDate.LeapSecondTies`).

## Model

| member | source | states |
|---|---|---|
| TpacketRing.RingReader.NextFromRing | src/capture/linux.rs:291-364 | one call looks at each block at most once from the cursor on and returns the first packet found, with the ring left exactly as the specification of the scan says |
| TpacketRing.RingReader.VisitCurrent | src/capture/linux.rs:304-361 | one turn of the loop: skip a block the kernel owns, hand back an exhausted or malformed one, or take the packet under the cursor |
| TpacketRing.RingReader.constructor | src/capture/linux.rs:395-444 | a fresh reader stands at block 0, offset 0, over a valid ring |
| TpacketRing.VisitAtCursor | src/capture/linux.rs:304-361 | a turn takes at most one packet, the first one left under the cursor, and gives a block up only with nothing left in it |
| TpacketRing.VisitElsewhere | src/capture/linux.rs:304-361 | a turn leaves every other block and what it holds untouched |
| TpacketRuns.PublishedBalances | src/capture/linux.rs:304-361 | publishing a block keeps the balance: delivered plus still left equals published, block by block |
| TpacketRuns.TurnedBalances | src/capture/linux.rs:304-361 | a turn of the reader keeps the same balance |
| TpacketRuns.EveryBlockExactlyOnce | src/capture/linux.rs:291-364 | in every run, with the kernel free to act between any two turns, each published block's packets are delivered once, in chain order, all of them by the time the block is the kernel's again, and nothing else is delivered |
| TpacketLayout.LayoutHolds | src/capture/linux.rs:48-80 | a block laid out from a descriptor and any packets, with any gaps and padding, may be published, is terminated, and holds for the reader exactly the list of those packets |
| TpacketLayout.HandsBack | src/capture/linux.rs:316-319 | handing a block back writes zeros to its status word and to nothing else |
| TpacketFifo.VisitRefinesLook | src/capture/linux.rs:304-361 | over terminated chains the byte-level turn is the front step of a ring of packet lists |
| TpacketFifo.SearchTakesFront | src/capture/linux.rs:291-364 | a call takes the front of everything in flight, and finds nothing exactly when nothing is in flight |
| TpacketFifo.FirstInFirstOut | src/capture/linux.rs:291-364 | with atomic calls, over every run of terminated blocks the delivered packets are a prefix of the published ones, and a call finds nothing exactly when all are delivered |
| TpacketDrift.UnterminatedBreaksOrder | src/capture/linux.rs:315-343 | for every block whose chain is not terminated there is a run that delivers a newer packet before an older one |
| TpacketDrift.OrderSafeIffTerminated | src/capture/linux.rs:291-364 | with atomic calls a publishable block never disturbs the order, whatever terminated blocks surround it, if and only if its chain is terminated |
| TpacketDrift.SomeRunDelivers | src/capture/linux.rs:291-364 | on a ring of any size there is a run over terminated blocks that delivers a packet, so the run theorems speak of something |
| TpacketTurns.CallIsTurns | src/capture/linux.rs:304-364 | a call is at most as many turns of the loop as there are blocks, with the same ring and the same packet |
| TpacketTurns.MovesAreRuns | src/capture/linux.rs:291-364 | every run with atomic calls is a run turn by turn, and over terminated blocks one in which every block is published in time |
| TpacketTurns.TurnsFirstInFirstOut | src/capture/linux.rs:304-364 | with the kernel acting between any two turns, over every run of terminated blocks published in time the delivered packets are a prefix of the published ones |
| TpacketTurns.LateFillIff | src/capture/linux.rs:304-364 | after such a run one more block keeps the order exactly when it does not go under the cursor while older blocks wait, or its first packet happens to equal the oldest waiting one |
| TpacketTurns.NewestFirst | src/capture/linux.rs:304-313 | on every ring of two or more blocks a turn past an empty slot, two published blocks and another turn deliver from the newer block |
| FilterGrammar.SplitTopScan | src/capture/cap_filter.rs:197-221 | the depth-counting scan cuts a text at exactly the separators outside all parentheses and trims the pieces |
| FilterGrammar.ParseOrLoop | src/capture/cap_filter.rs:94-105 | the loop over the `or` pieces computes the specification that `FilterLists` shows to be the left fold over any number of operands |
| FilterGrammar.ParseAndLoop | src/capture/cap_filter.rs:107-118 | the loop over the `and` pieces builds the left-associated conjunction of their parses |
| FilterGrammar.ParseNotStep | src/capture/cap_filter.rs:120-129 | negation, an outer pair of parentheses, or an atom |
| FilterGrammar.CutGroup | src/capture/cap_filter.rs:197-221 | no cut falls inside a parenthesised group, whatever well-matched text it holds |
| FilterGrammar.ParseOfAnd | src/capture/cap_filter.rs:94-129 | two parenthesised texts around `and` parse to the conjunction of their parses |
| FilterGrammar.ParseOfOr | src/capture/cap_filter.rs:94-129 | two parenthesised texts around `or` parse to the disjunction of their parses |
| FilterGrammar.ParseInvertsPrint | src/capture/cap_filter.rs:94-129 | parsing inverts printing for expressions of any nesting, over any atoms that are read back from their text |
| JoinedWords.SplitAtWord | src/capture/disp_filter.rs:369-392 | two runs of words around a connective are cut there and nowhere else |
| JoinedWords.ParseAtomsAnd | src/capture/disp_filter.rs:133-162 | two unparenthesised atoms around `and` parse to their conjunction |
| JoinedWords.ParseAtomsOr | src/capture/disp_filter.rs:133-162 | two unparenthesised atoms around `or` parse to their disjunction |
| FilterLists.ParseOfLists | src/capture/disp_filter.rs:133-162 | any number of operands, with or without parentheses: rows of them joined by `and`, and the rows by `or`, parse to the left fold by Or over the left folds by And of the operands' own parses |
| FilterLists.FirstBadDecides | src/capture/disp_filter.rs:133-162 | when an operand does not parse, and all before it do, the whole text fails with that operand's error |
| FilterLists.ParseOfGroups | src/capture/cap_filter.rs:94-129 | any number of matched texts in parentheses around one connective parse to the left fold of what the texts parse to |
| FilterLists.AndBindsTighter | src/capture/cap_filter.rs:94-129 | "a or b and c" is a or (b and c), and "a and b or c" is (a and b) or c, without any parentheses |
| FilterLists.ChainsGroupLeft | src/capture/cap_filter.rs:94-118 | three operands around the same connective group to the left |
| FilterLists.ParseOfNotSolid | src/capture/cap_filter.rs:120-129 | "not " in front of an operand of any form, a further "not" included, parses to the negation of the operand's parse |
| FilterLists.PlainAtom | src/capture/cap_filter.rs:120-129 | words that are no connectives and that the atom parser takes are an operand that parses to that atom |
| CaptureText.ProtocolTexts | src/capture/cap_filter.rs:133-141 | the six protocol words and the atoms they stand for |
| CaptureText.PortTexts | src/capture/cap_filter.rs:153-163 | "port", "src port" and "dst port" with any 16-bit number in decimal |
| CaptureText.HostTexts | src/capture/cap_filter.rs:143-152 | "host", "src host" and "dst host" with any address |
| CaptureText.V4TextIff | src/capture/cap_filter.rs:143-152 | a text is read as an IPv4 address exactly when it is that address in dotted decimal without leading zeros |
| CaptureText.NetTexts | src/capture/cap_filter.rs:169-193 | "net" with an address and a prefix length of any size, or without one |
| CaptureText.NetBits | src/capture/cap_filter.rs:177-185 | bit by bit: the mask has the first bits set as the length says, all 32 at most, and the network address keeps its own bits there and has zeros behind |
| CaptureFilter.ParseCaptureFilterText | src/capture/cap_filter.rs:86-92 | the parser on arbitrary text, with the empty text standing for every packet and its error cases |
| CaptureFilter.V4Inverse | src/capture/cap_filter.rs:131-167 | every IPv4 address is read back from its dotted text |
| CaptureFilter.AtomInverse | src/capture/cap_filter.rs:131-167 | every atom but `True` and `Net` is read back from its printed text |
| CaptureFilter.ParseInvertsToPcap | src/capture/backend.rs:152-175 | a filter has text exactly when it holds no `True` and no `Net`, and parsing that text gives the very filter back |
| CaptureFilter.ToPcapInjective | src/capture/backend.rs:152-175 | two filters with the same text are the same filter |
| DisplayFilter.ParseDisplayFilterText | src/capture/disp_filter.rs:125-131 | the display filter parser on arbitrary text |
| DisplayFilter.IpEquation | src/capture/disp_filter.rs:309-323 | an address equation parses to the test for the address without its quotes, or is refused if nothing is left |
| DisplayFilter.TcpEquation | src/capture/disp_filter.rs:325-338 | a TCP port equation parses to that port's test exactly when the value is a 16-bit number |
| DisplayFilter.UdpEquation | src/capture/disp_filter.rs:325-338 | the same for UDP |
| DisplayFilter.BareFieldRefused | src/capture/disp_filter.rs:309-338 | a field name without a value is refused |
| DisplayFilter.EmptyValueRefused | src/capture/disp_filter.rs:309-338 | so is one with nothing behind its equals signs |
| DisplayMeaning.AddressTextMeans | src/capture/disp_filter.rs:89-89 | "ip.addr == v", and "ipv6.addr == v" likewise, accepts exactly the packets with v at some position of an end point's text |
| DisplayMeaning.PortTextMeans | src/capture/disp_filter.rs:90-99 | "tcp.port == p" accepts exactly the packets with the TCP flag and an end point that is some host, a colon and p in decimal; the same for UDP |
| DisplayMeaning.ProtocolTextMeans | src/capture/disp_filter.rs:63-88 | a protocol name in any case accepts exactly the packets with that protocol's flag |
| DisplayMeaning.NotTextMeans | src/capture/disp_filter.rs:60-60 | "not " in front of an operand parses exactly when the operand does, and accepts exactly what it does not |
| DisplayMeaning.ListsMean | src/capture/disp_filter.rs:57-62 | rows of operands accept a packet exactly when some row accepts it with all its operands |
| DisplayMeaning.OuterSpaceIgnored | src/capture/disp_filter.rs:125-131 | white space around a filter, or alone, changes nothing |
| Conversations.KindsAre | src/dissect/analysis.rs:127-147 | the kinds of a packet from its flags: Ethernet, TCP, UDP unless TCP, IPv6 by their flags, IPv4 by its flag or when none is set |
| Conversations.RowExistsIff | src/dissect/analysis.rs:84-155 | after any history there is a row for a kind and a pair exactly when the pair is in dictionary order, not empty, and some packet between these ends, in either direction, has the kind's flags |
| Conversations.TextLeIff | src/dissect/analysis.rs:149-155 | the order of a pair: a beginning of the other text, or smaller at the first difference |
| Conversations.ConversationTable.Ingest | src/dissect/analysis.rs:85-118 | the loop over the packet's kinds computes the table of the specification that `IngestedEffect` and `RowExistsIff` describe by flags |
| Conversations.IngestedEffect | src/dissect/analysis.rs:85-118 | each row after a packet: extended if it is one of the packet's rows, unchanged otherwise, and no row counts the packet twice |
| Conversations.TableIsGroupBy | src/dissect/analysis.rs:84-155 | after any history each row holds the counts, bytes, first and latest time of exactly its own packets, and a row exists only if there are some |
| Conversations.ReversedTrafficMirrorsRows | src/dissect/analysis.rs:149-155 | reversing every packet only swaps the two sides of each row |
| Conversations.RowsAddUp | src/dissect/analysis.rs:84-118 | per kind, packets and bytes summed over all rows are those of the packets ingested |
| DrillDown.FilterExprParses | src/dissect/analysis.rs:37-58 | the text of every row with proper addresses parses, to the filter the row stands for |
| DrillDown.RowSelects | src/dissect/analysis.rs:37-77 | for arbitrary packets: a TCP or UDP row's parsed text accepts exactly those with the flag, both hosts somewhere in their end points, and one of the row's ports behind one of them; any other row's those with either host |
| DrillDown.OtherConversationsRejected | src/dissect/analysis.rs:37-77 | the text of a TCP row between two host:port ends rejects a packet without the flag, without one of the hosts, or with neither port |
| DrillDown.RowFilterAccepts | src/dissect/analysis.rs:60-77 | on packets between the row's end points the filter accepts always for kinds without ports, and for TCP and UDP exactly when an end point ends in a printed port |
| DrillDown.EveryPacketIsFoundByItsRows | src/dissect/analysis.rs:37-118 | over any history each well-addressed packet is counted in a row of each of its kinds, and that row's filter text parses and accepts the packet |
| DrillDown.RowFilterCanMiss | src/dissect/analysis.rs:70-77 | a TCP row without ports has a filter that rejects its own packet |
| Bpf.CompileVector | src/capture/bpf.rs:110-244 | the compiler as it pushes, truncates, appends and swaps instruction vectors |
| Bpf.CompiledShape | src/capture/bpf.rs:110-244 | compilation succeeds exactly on kernel-simple filters over a link with a layout; jumps are forward and inside, two returns end the program in the order the filter's polarity says, and only an `or` returns earlier |
| Bpf.CompiledReachesVerdict | src/capture/bpf.rs:110-244 | every compiled program reaches a verdict on every packet |
| Bpf.MergeOrStops | src/capture/bpf.rs:226-235 | the program of an `or` stops where its left program does, except that instead of the left one's last return the right program runs as it does alone |
| Bpf.MergeNotStops | src/capture/bpf.rs:237-244 | the program of a `not` stops at the same instruction as its filter's program |
| Bpf.MergeAndStops | src/capture/bpf.rs:217-224 | the program of an `and` runs the right program where the left one reaches its second-last return, and the right program from its second instruction where it reaches its last one |
| Bpf.MergeAndRuns | src/capture/bpf.rs:217-224 | the verdict of the program of an `and`, for left programs of every shape |
| Bpf.OrComposes | src/capture/bpf.rs:226-235 | with a left side that ends upright, in particular without `not`, the verdict of the compiled `or` is the left one unless that is a rejection, and then the right one; a fault on the left stays a fault |
| Bpf.OrComposesIff | src/capture/bpf.rs:226-235 | with a left side that ends swapped the same verdict law holds on exactly the packets where the left program faults, exits early, or the right one accepts |
| Bpf.NotNegates | src/capture/bpf.rs:237-244 | without `or` inside, the compiled `not` turns acceptance and rejection around on every packet, and faults where its filter faults |
| Bpf.NotNegatesIff | src/capture/bpf.rs:237-244 | the verdict is turned around, faults kept, on exactly the packets on which the filter's program does not exit early |
| Bpf.NotCanFail | src/capture/bpf.rs:237-244 | a filter and its compiled negation that both accept a packet |
| Bpf.AndComposesIff | src/capture/bpf.rs:217-224 | for every left and right side, exactly when the compiled `and` gives the verdict of the conjunction |
| Bpf.AndCanFail | src/capture/bpf.rs:192-224 | the compiled "tcp and port 80" accepts a UDP packet to port 80 |
| BpfAcceptance.NotAcceptsIff | src/capture/bpf.rs:237-244 | the compiled `not` accepts what its filter does not on exactly the packets on which the filter neither faults nor exits early |
| BpfAcceptance.FaultDropsBoth | src/capture/bpf.rs:237-244 | the empty packet is dropped by "tcp" and by its compiled negation |
| BpfAcceptance.OrAcceptsIff | src/capture/bpf.rs:226-235 | for every left and right side, exactly when the compiled `or` accepts what one of its sides accepts |
| BpfAcceptance.OrExitsIff | src/capture/bpf.rs:226-235 | an `or` exits early exactly where its left side accepts, or does not fault and its right side exits early |
| BpfAcceptance.AndAcceptsIff | src/capture/bpf.rs:217-224 | for every left and right side, exactly when the compiled `and` accepts what both sides accept |
| BpfAcceptance.LongPacketLaws | src/capture/bpf.rs:110-244 | on packets that reach past the ports no program faults, so `or` after an upright left side is a disjunction and `not` of an `or`-free filter a negation |
| BpfAcceptance.AtomAcceptsIff | src/capture/bpf.rs:110-215 | what each atom's program accepts, in terms of the packet's bytes; the port tests look at the source port only behind protocol 17 |
| BpfAcceptance.AtomDoor | src/capture/bpf.rs:192-224 | what an atom's program accepts when entered at its second instruction, in terms of the packet and the value loaded before |
| BpfAcceptance.AndWithAtomIff | src/capture/bpf.rs:217-224 | with an `or`-free upright left side and an atom on the right the `and` is a conjunction on exactly the packets the left side accepts or faults on, or whose last loaded value does not pass the atom's test |
| BpfAcceptance.LeftProtocolIgnored | src/capture/bpf.rs:217-224 | a compiled `and` of two protocol tests accepts exactly what the right one accepts |
| BpfWire.CompilesIff | src/capture/bpf.rs:83-114 | a filter compiles exactly over Ethernet, both cooked captures and loopback, and when no atom is a network, an IPv6 address, arp or ip6 |
| BpfWire.LinkAccepts | src/capture/bpf.rs:122-144 | "ip" and the empty filter accept exactly the packets with IPv4's link word at the place of the link layer |
| BpfWire.ProtocolAccepts | src/capture/bpf.rs:133-144 | "tcp", "udp" and "icmp" accept exactly the packets whose byte 9 of the IPv4 header is 6, 17 and 1, and those whose link word is that number |
| BpfWire.HostAccepts | src/capture/bpf.rs:146-161 | address tests compare the four bytes at 12 and 16 of the IPv4 header, or the link word of a packet that is not IPv4 |
| BpfWire.PortAccepts | src/capture/bpf.rs:192-215 | port tests read the two bytes at 20 and 22 behind protocol 17 alone, and compare the protocol itself behind any other; "port" reads the ones at 22 behind every protocol |
| BpfWire.EthernetUdp | src/capture/bpf.rs:122-140 | over Ethernet "udp" accepts exactly when bytes 12 and 13 are 08 00 and byte 23 is 17, or bytes 12 and 13 are 00 11 |
| BpfWire.TcpPortsUnread | src/capture/bpf.rs:192-215 | a TCP packet passes a one-sided port test exactly when the port asked for is 6, and the two-sided one then or by its destination |
| Defrag.Ipv4Defrag.Ingest | src/dissect/reassembly.rs:26-60 | the table and the result after a captured packet, for every packet with consistent lengths |
| Defrag.JoinPieces | src/dissect/reassembly.rs:45-54 | the loop joins sorted pieces as long as each starts where the 16-bit cursor stands |
| Defrag.JoinedIsConsecutive | src/dissect/reassembly.rs:45-54 | the saturating 16-bit cursor accepts exactly the pieces that follow on from each other without its wrapping ever mattering |
| Defrag.AssemblesIffTiled | src/dissect/reassembly.rs:39-59 | for arbitrary stored fragments a payload comes out exactly when, sorted, they tile it from 0 and the last says so |
| Defrag.AssembledHoldsPieces | src/dissect/reassembly.rs:43-59 | whatever the fragments, each stored piece's bytes stand at its own offset in the payload |
| Defrag.RepeatBlocks | src/dissect/reassembly.rs:37-54 | once two stored fragments with bytes start at the same offset, nothing that arrives later completes the datagram |
| Defrag.IngestKeepsProper | src/dissect/reassembly.rs:72-124 | the table only ever holds pieces a header can announce |
| Defrag.CompleteAssembles | src/dissect/reassembly.rs:39-59 | the complete fragments of a datagram, in any order, give its payload |
| Defrag.PartialFails | src/dissect/reassembly.rs:39-59 | any proper part of them gives nothing |
| Defrag.AnyOrderReassembles | src/dissect/reassembly.rs:25-61 | however the fragments of any number of datagrams are permuted and interleaved, an arrival gives nothing until it completes its datagram, then exactly that payload, and the table ends empty |
| Defrag.FrameParses | src/dissect/reassembly.rs:72-124 | a fragment framed as Ethernet and IPv4 bytes is parsed back to its key, offset, flag and data |
| DefragWire.WireParses | src/dissect/reassembly.rs:72-124 | a fragment with any header options, flags and padding is read back behind Ethernet, cooked, raw and loopback captures, its payload ending where the header says |
| DefragWire.OthersPassedBy | src/dissect/reassembly.rs:72-96 | other link layers, other EtherTypes and frames too short for a header are passed by |
| DefragWire.CutFrameIff | src/dissect/reassembly.rs:111-112 | of a frame cut short anywhere, exactly when slicing stays inside the captured bytes |
| FollowTcp.TcpPayloadFromWire | src/dissect/follow.rs:267-323 | the payload of arbitrary bytes over every link type, IPv6 extension headers walked by a loop |
| FollowTcp.FollowTcp | src/dissect/follow.rs:30-70 | the followed bytes are the client direction's ordered payloads, then the server's |
| FollowTcp.MapHoldsLast | src/dissect/follow.rs:53-63 | the ordered map holds, for each sequence number, the last payload seen under it |
| FollowTcp.AnyOrderFills | src/dissect/follow.rs:53-63 | segments in any order, each any number of times, fill the map with the same sorted list |
| FollowTcp.UnrelatedVanish | src/dissect/follow.rs:35-50 | a packet of another conversation changes nothing, wherever it stands |
| FollowTcp.AnyOrderFollows | src/dissect/follow.rs:30-70 | with every segment of both streams present, in any order, with any duplicates and any other traffic, the result is the client's stream followed by the server's |
| FollowTcp.Ipv4PayloadIff | src/dissect/follow.rs:303-322 | for any IPv4 and TCP options the extracted payload is what follows the TCP header, trailer included, so it is the sent one exactly when there is no trailer |
| FollowTcp.Ipv6PayloadFound | src/dissect/follow.rs:269-302 | behind any chain of extension headers the segment is found with its sequence number and payload |
| FollowPackets.PacketsFollow | src/dissect/follow.rs:30-70 | on captured packets: when every segment of both streams is in some packet with the TCP flag between the selected ends, in any order and number, and such packets hold nothing else, the result is the client's bytes and then the server's, amid any other packets, each stream from the wrap of its 32-bit numbers on first |
| FollowPackets.WrapReorders | src/dissect/follow.rs:53-70 | a stream "ab" whose numbers wrap after the a is shown as "ba" |
| FollowPackets.OtherProtocolIgnored | src/dissect/follow.rs:269-302 | an IPv6 packet whose next header is neither TCP nor an extension holds no segment |
| FollowPackets.NoIpIff | src/dissect/follow.rs:373-443 | behind which link layers, types, versions and families no IP header is found, for arbitrary bytes |
| FollowPackets.IpFoundAt | src/dissect/follow.rs:373-443 | where the header starts and which version it has, when there is one |
| HttpAssembler.Http1Assembler.Push | src/session/proxy.rs:456-463 | a chunk pops all complete messages at the front and leaves the rest in the buffer |
| HttpAssembler.Http1Assembler.TryPop | src/session/proxy.rs:465-511 | the first complete message, its tag, and its first 4096 bytes, or nothing and the buffer as it was |
| HttpAssembler.FeedConserves | src/session/proxy.rs:456-511 | for arbitrary bytes in arbitrary chunks the popped frames followed by the buffer are everything pushed |
| HttpAssembler.ChunksDoNotMatterIff | src/session/proxy.rs:465-511 | a byte stream gives the same messages and leftover under every cutting exactly when it is safe: no bare LF LF completes a message before the CRLF CRLF of its head |
| HttpAssembler.MessagesAnyChunks | src/session/proxy.rs:456-511 | a stream of CRLF-headed messages, cut in any way, pops as exactly those messages and leaves nothing |
| HttpAssembler.MessageShown | src/session/proxy.rs:494-510 | message i is shown as its own tag and the first 4096 bytes of its head and body |
| HttpHeads.AnnouncedLengthRead | src/session/proxy.rs:481-488 | of a head of field lines the length read is the number its last Content-Length field gives, whatever the case of the name and the other fields, or 0 |
| HttpHeads.WrittenIsMessage | src/session/proxy.rs:465-493 | a head written line by line ends at the blank line behind it and nowhere before |
| HttpHeads.WrittenAnyChunks | src/session/proxy.rs:456-511 | messages written one after another, cut in any way, come out as written and leave nothing |
| HttpHeads.RequestShownAs | src/session/proxy.rs:494-497 | a request is shown as HTTP, its method and its path, whatever fields follow |
| HttpHeads.BareRequestShownAs | src/session/proxy.rs:494-497 | the same without a version |
| HttpHeads.ResponseShownAs | src/session/proxy.rs:498-500 | a response is shown as HTTP and its status line |
| HttpHeads.ShortRequestShownAs | src/session/proxy.rs:494-497 | a request line without a path is shown with "/", an empty one as "REQ /" |
| Framing.LengthPrefixedCodec.Decode | src/framing.rs:171-193 | one call over length and body states, in place on the buffer |
| Framing.LengthPrefixedCodec.Encode | src/framing.rs:199-203 | the prefix and payload are appended, or the error leaves the buffer alone |
| Framing.LengthPrefixedCodec.DecodeAll | src/framing.rs:171-193 | one codec kept across reads takes every complete payload up to an error |
| Framing.PutGet | src/framing.rs:114-164 | a number written in either byte order is read back |
| Framing.GetPut | src/framing.rs:114-164 | any prefix bytes are the written form of the number read from them |
| Framing.ChunksDoNotMatter | src/framing.rs:171-193 | for arbitrary bytes and any cutting the payloads, the error, the state and the leftover are those of the whole stream |
| Framing.EncodedDecodesIff | src/framing.rs:114-164 | an encoded payload decodes to itself exactly when it is within the frame limit, and is refused as too large otherwise |
| Framing.PayloadsAnyChunks | src/framing.rs:167-204 | any list of payloads the configuration carries, cut in any way, arrives as sent with no leftover state |
| Framing.DrainConserves | src/framing.rs:171-193 | for arbitrary bytes the decoded payloads re-encoded, the pending length and the buffer are the stream |
| FramingWire.PrefixByte | src/framing.rs:140-164 | byte by byte: a little-endian prefix starts with the lowest byte of the length, a big-endian one ends with it |
| FramingWire.Prefixes | src/framing.rs:140-164 | the prefixes of one, two and four bytes written out |
| FramingWire.EncodesIff | src/framing.rs:140-164 | encoding succeeds exactly for prefix sizes 1, 2, 4 and 8 and lengths that fit, with the error that belongs to each failure |
| FramingWire.PrefixRefusedIff | src/framing.rs:114-138 | the decoder refuses a prefix exactly when its size is another one or it announces more than the limit, and then consumes nothing |
| DiskRing.DiskRing.constructor | src/capture/ring.rs:28-43 | limits of at least one mebibyte and one file, and the first file open and empty over whatever the directory held |
| DiskRing.DiskRing.Rotate | src/capture/ring.rs:53-72 | the next slot is emptied down to its section header and becomes the file being written |
| DiskRing.DiskRing.WritePacket | src/capture/ring.rs:74-105 | fields and directory stay those of the history of packets written, now one packet longer |
| DiskRing.FileShape | src/capture/ring.rs:60-101 | a file is a section header, one interface block with the first packet's link layer, and the packets in order |
| DiskRing.GenerationsKeepAll | src/capture/ring.rs:74-105 | every packet written is in exactly one file generation, in order |
| DiskRing.FileSizes | src/capture/ring.rs:74-77 | a closed file holds at least the limit and less than the limit and its last block |
| DiskRing.DirectoryHoldsLast | src/capture/ring.rs:45-72 | the directory is exactly the latest generations, one complete file each, and in slots of no generation what an earlier session left |
| DiskRing.DirectoryReadsBack | src/capture/ring.rs:45-105 | reading the files in order of generation gives the packets kept |
| DiskRing.KeptIsSuffix | src/capture/ring.rs:53-105 | the packets kept are a contiguous suffix of those written, all of them while files are to spare |
| DiskRing.KeptAtLeast | src/capture/ring.rs:53-105 | once every file is in use at least all but one file's worth of full files is kept |
| DiskRing.KeptAtMost | src/capture/ring.rs:53-105 | the ring never exceeds its files, each over the limit by at most a block |
| ProtoTree.ProtoTree.AddRoot | src/dissect/tree.rs:38-50 | a fresh expanded root at the end of both vectors, the shape kept |
| ProtoTree.ProtoTree.AddChild | src/dissect/tree.rs:52-73 | a fresh node listed last by its parent, for any parent index, the shape kept |
| ProtoTree.ProtoTree.AddSection | src/dissect/tree.rs:75-83 | a child without a value |
| ProtoTree.ProtoTree.Toggle | src/dissect/tree.rs:118-124 | only a node with children is folded or unfolded, the shape kept |
| ProtoTree.ProtoTree.Visible | src/dissect/tree.rs:98-104 | the recursive walk appends exactly the specified rows, and ends for every sequence of operations |
| ProtoTree.ChildKeepsForest | src/dissect/tree.rs:52-73 | adding under any parent keeps indices ordered and every node in one place |
| ProtoTree.ChildUpwardIff | src/dissect/tree.rs:52-73 | children keep higher indices than their parents unless the parent named is the index about to be used |
| ProtoTree.OneParent | src/dissect/tree.rs:52-73 | a node added under an existing parent has exactly one parent, with a lower index |
| ProtoTree.VisibleIsPreorder | src/dissect/tree.rs:98-116 | the view lists in preorder, each with its depth, exactly the nodes a path through expanded nodes leads to |
| ProtoTree.NoNodeTwice | src/dissect/tree.rs:98-116 | no node is shown twice |
| ProtoTree.FoldHides | src/dissect/tree.rs:118-124 | folding a node hides exactly what is below it |
| ProtoTree.ToggleTwice | src/dissect/tree.rs:118-124 | toggling twice changes nothing |
| ProtoTree.ShownIff | src/dissect/tree.rs:98-116 | a node is in the view exactly when every node above it, up to a root, is expanded |
| ProtoTree.AllShown | src/dissect/tree.rs:98-116 | with everything expanded every anchored node is shown |
| ProtoTree.ChildLooseIff | src/dissect/tree.rs:52-73 | a new node hangs nowhere exactly when the parent named is not below it |
| ProtoTree.LooseStaysHidden | src/dissect/tree.rs:98-124 | a node that hangs nowhere, or only on itself, is never shown, and no operation changes that |
| HttpDate.DaysCount | src/http/cookies.rs:244-250 | for every Gregorian date of every year the arithmetic is the recursive count of days since 1970-01-01 |
| HttpDate.NextIsOneMore | src/http/cookies.rs:244-250 | from each date to the next, across month, leap, century and 400-year ends, the count grows by one, from 0 at the epoch |
| HttpDate.SecondsGrow | src/http/cookies.rs:244-251 | of two valid date-times the earlier one is exactly the one with fewer seconds |
| HttpDate.LeapSecondTies | src/http/cookies.rs:251-251 | second 60 has the value of the next midnight |
| HttpDate.FixdateParses | src/http/cookies.rs:216-258 | a date in the preferred form of RFC 7231 is read as its seconds by the calendar, and as no date exactly before 1970 |
| HttpDateForms.DateOnlyParses | src/http/cookies.rs:219-258 | a date without a clock is read as its midnight |
| HttpDateForms.WithoutSecondsParses | src/http/cookies.rs:238-242 | a clock without seconds is read as the full minute |
| HttpDateForms.NoDates | src/http/cookies.rs:220-237 | fewer than four words, a third that names no month, or a second that is no number, is no date |
| HttpDateForms.NegativeYears | src/http/cookies.rs:237-237 | a year may carry a sign, down to -2^31 |
| Checksum.IpChecksum | src/pcap.rs:90-101 | both loops: the complement of the folded sum of words |
| Checksum.Ipv4Checksum | src/dissect/expert.rs:120-136 | the same with the checksum field read as zero and an odd byte padded |
| Checksum.FoldIs | src/pcap.rs:97-99 | folding is the residue modulo 65535, with 65535 for the non-zero multiples |
| Checksum.ChecksumsAgree | src/pcap.rs:69-71 | whatever header the checksum is stored in, the judging program computes the same one and the header's sum is all ones |
| Checksum.CollectChecksum | src/dissect/expert.rs:54-73 | a packet is reported exactly when its header is there in full and flagged, with both checksums |
| Checksum.FlaggedIff | src/dissect/expert.rs:62-62 | a header is flagged exactly when a non-zero checksum fails the receiver's rule or is all ones |
| Checksum.AllOnesFlagged | src/dissect/expert.rs:62-62 | a header the receiver's rule accepts and the program flags |
| Checksum.BuildTcpPacket | src/pcap.rs:49-88 | the exported packet is the link header, an IP header that passes the receiver's rule and is never flagged, the TCP header and the payload, and following it gives its sequence number and payload back |
| Checksum.PacketReadsBack | src/pcap.rs:49-88 | whatever header of twenty bytes a packet of this shape holds, it is judged by that header and followed to its own sequence number and payload |
| Checksum.ExportedFields | src/pcap.rs:49-88 | the exported packet byte by byte: addresses, ports, sequence number, length, flags and payload in their places |
| Checksum.JudgedBehindLink | src/dissect/expert.rs:54-118 | a header of any length is judged behind Ethernet with and without a VLAN tag, cooked, loopback and raw captures, and not behind the newer cooked header |
| Checksum.NotJudgedIff | src/dissect/expert.rs:88-118 | behind which link layers and EtherTypes no header is judged, for arbitrary bytes |
| Sni.ParseSni | src/tls_mitm.rs:111-163 | on arbitrary bytes every index is in range and the result is that of the nested lists |
| Sni.FindServerName | src/tls_mitm.rs:149-162 | the loop over extensions ends and stops at the first server name extension |
| Sni.ParseServerName | src/tls_mitm.rs:165-184 | the loop over names ends and stops at the first host name |
| Sni.RecordRead | src/tls_mitm.rs:111-184 | for every ClientHello in one record, whatever surrounds the extension, the result is the first host name of the first server name extension, or none |
| Sni.BareRead | src/tls_mitm.rs:111-184 | the same for a bare handshake message |
| Sni.SniIsSlice | src/tls_mitm.rs:111-184 | for arbitrary bytes a result is well-formed UTF-8 that stands in the input |
| Sni.PartialRecordUnread | src/tls_mitm.rs:111-121 | no proper beginning of a record names a server |
| Sni.OtherMessagesUnread | src/tls_mitm.rs:111-127 | empty input and every message but a ClientHello name no server |
| Composer.DecodeUtf8Escapes | src/composer.rs:52-108 | the scan over a text's bytes, with its errors and the slice that stops the program |
| Composer.EncodeForEdit | src/composer.rs:21-50 | verbatim for clean text, escaped otherwise, pairs of digits in hex mode |
| Composer.ParseHexBytes | src/frame.rs:133-160 | the loop over digit pairs, with its errors |
| Composer.HexRoundTrip | src/composer.rs:44-48 | every payload is read back from its hex text, also with other ignorable separators |
| Composer.EscapeDecodes | src/composer.rs:31-43 | every payload is read back from its escaped text |
| Composer.VerbatimIff | src/composer.rs:52-108 | well-formed text decodes to itself exactly when each backslash stands before an ASCII character that makes no escape |
| Composer.RoundTripIff | src/composer.rs:13-50 | the composer gives a payload back exactly in hex mode, when it escapes, or when all backslashes are harmless |
| Composer.EncodesToText | src/composer.rs:21-50 | in either mode the result is well-formed UTF-8 |
| Composer.VerbatimFails | src/composer.rs:25-30 | a payload that comes back changed, and one that stops decoding |
| Utf8Codec.CharOfEncoded | src/composer.rs:91-99 | a scalar value's encoding is read back as that character, wherever it stands |
| Utf8Codec.CharIsEncoded | src/composer.rs:91-99 | whatever is read as a character is the encoding of a scalar value |
| Utf8Codec.BrokenOff | src/session/proxy.rs:477-477 | a character broken off becomes one replacement character in the text of a head |
| Utf8Codec.ValidIff | src/composer.rs:23-30 | bytes are well-formed UTF-8 exactly when they encode a sequence of scalar values |
| ComposerForms.CleanIff | src/composer.rs:23-30 | a payload is shown as it is exactly when it encodes a text without control characters other than line feed, return and tab |
| ComposerForms.ParseHexIff | src/frame.rs:133-160 | an ASCII text is read as a payload exactly when, without white space, colons and dashes, it spells the payload two digits to a byte, in either case |
| ComposerForms.ParseHexRefuses | src/frame.rs:133-160 | an odd number of characters is refused as such, an even one by the first that is no digit |

## Left out

- Sockets, memory mapping, tasks, the terminal interface, file and clock access: ring memory, files and streams are values, the kernel is a step of the environment, arrival times are inputs.
- Interface name, link type and wall clock that `next_from_ring` attaches to a packet; packet headers that straddle the end of a block.
- AES, HKDF, TLS key handling, HPACK, regular expressions, DNS and the line codec, which are library code.
- CaptureFilter.ParseCaptureFilterText: an IPv6 address is a token of hex digits, colons and dots and is not parsed further, so ill-formed ones are not refused.
- DisplayFilter.ParseDisplayFilterText: field comparisons, `frame.len` and `expert.severity` stay text in an `Other` atom whose evaluation is a parameter, and their parse errors are not modelled.
- Text of error messages; errors are told apart by kind.
- Numeric BPF opcodes, and agreement of compiled programs with the filter's evaluation on raw bytes.
- DrillDown.EveryPacketIsFoundByItsRows: an address that is the word `and` or `or`, or nothing but quotes, is not covered, because the filter language cannot carry it.
- Defrag.Ipv4Defrag.Ingest: packets whose header or total length points past the captured bytes are not covered, since slicing them stops the program; `DefragWire.CutFrameIff` says which these are.
- Defrag.SortByOffset: the library's stable sort is an insertion sort.
- The list `defrag_ipv4` returns, which only relabels the packets `ingest` completes.
- FollowTcp.FollowTcp: the text view and the label are not modelled; streams of more than 2^32 bytes and segments that overlap in part are outside the stream theorem.
- FollowTcp.IpPayloadOffset: the loopback address family is read on a little-endian host.
- FollowTcp.Ipv6PayloadFound: authentication headers are taken to announce their length in units of eight bytes, as the code reads them, not of four as in section 2.2 of RFC 4302.
- HttpAssembler.Http1Assembler.TryPop: a Content-Length near the word size, whose sum with the head would overflow, is a plain number here.
- Framing.WriteLen: payload lengths are 64-bit words, as on 64-bit hosts.
- DiskRing.DiskRing.WritePacket: timestamps and failing file operations are not modelled; block lengths are those of the pcapng format.
- ProtoTree.ProtoTree.AddChild: `node_mut`, which hands out a node for arbitrary change, is not modelled.
- HttpDate.ParseHttpDate: numbers so large that a 32-bit sum would overflow are added as integers.
- Checksum.IpChecksum: sums are integers, since a header of at most 60 bytes cannot overflow 32 bits.
- Checksum.BuildTcpPacket: the TCP checksum stays zero, as in the code.
- Counter overflow in the conversation table.
- The other tables of src/dissect/analysis.rs, HTTP object extraction, UDP following, newline framing, cookie storage and the fresh codec per read of the transports, which would add only easier members.
