# A model of the DNS tunnel, with proofs

dnstt carries packets between a client and a server inside DNS messages. Upstream, a packet goes into the
name of a TXT query; downstream, as many packets as fit go into the TXT record that answers it. This project
models the parts of it that turn packets into datagrams and back, and that keep packets per client until they
can be sent. It proves, for every input and every run:

* **Messages survive the wire.** The writer compresses names by pointing at earlier copies of their suffixes,
  and the reader follows at most ten pointers per name. A message comes back equal exactly if none of its
  names needs more than ten (`RoundTrip.MessageRoundTrip`). Eleven names, or ten labels to a name, are few
  enough; the nested names a, a.a, a.a.a, ... need one pointer more each, and from twelve of them on the
  reader refuses what the writer wrote (`HopLimit.NestedMessageFails`).
* **Both directions of the tunnel deliver.** Every packet the client may send arrives at the server with its
  ClientID, also when a resolver changes the case of the name, if and only if the server asks for no more
  than the 4096 octets that the client announces; beyond that, which run also accepts, the server refuses
  every query of this client (`Tunnel.UpstreamEndToEnd`). Every list of packets that fits in an answer
  arrives at the client (`Tunnel`).
* **The send loop neither duplicates, reorders nor misdirects packets, loses none of a client whose record
  stays in the map, and truncates no answer** (`Delivery`, `Responses`), with the exact payload limit that it
  works with (`Capacity`). In every run, whatever expires, what a client extracts is an in-order part of what
  was accepted for it. If its record does not expire and responses fit the 4096 octets that the client reads,
  it is all of that except what the server still holds. run does not check the latter: exactly which
  configurations it accepts deliver in every run, and a run that loses a packet for each of the others, is
  `LongResponses.DeliversExactly`.
* **The send loop fills its responses.** Whatever its select statements choose, a bundle holds as many packets
  as fit, the first that does not fit is stashed and the rest stays queued; a packet is in a stash only
  because some response to its client had no room for it; and every query in a datagram gets exactly one
  record as long as there is room for it, with exactly the response that its own fields call for
  (`Bundling`, `SendLoop.DatagramExactly`, `Server.ResponseExactly`).
* **What is on the wire, octet by octet**: the datagrams of the client, the layout of questions, records and
  headers, and where the reader finds them (`Layout`, `HopLimit.WriteNameExactly`, `Parser.ReadNameExactly`).
* **The map of remote peers is a heap and an index at once**, and behaves like a plain map from addresses to
  times (`RemoteMaps`, `QueuePacketConns`).
* **The weighted-list parser accepts exactly its grammar and the sampling is exact**, together with the exact
  set of inputs on which the tokenizer panics (`WeightedGrammar`, `WeightedList`).

## How the model is built

Code that works by changing state is a method with the same loops, or a class with the source's fields:
`Builder.MessageBuilder` (messageBuilder), `Reader.ByteReader` (bytes.Reader and the read functions),
`RemoteMaps.RemoteMapInner` with container/heap written out, `QueuePacketConns`, the TXT codecs, framing,
`Client.Send`, `Server.RespondTo`, the binary search in `Capacity`, and the state machine of the
weighted-list parser. Each is proved equal to a function of its inputs (`Writer`, `Parser`, `Server`, ...),
and the properties are proved of these functions. The send loop shares its channels with other goroutines;
it is a state machine (`SendLoop`) whose steps are its select statements, with the packets and queries that
arrive and the records that expire in between as further events, so that a run is any interleaving.

| file | what it models |
|---|---|
| `Bytes`, `Names`, `Messages` | octets and integers; names, their printed form, suffixes; messages |
| `Writer`, `MessageBuilder`, `WireSizes` | writing messages, as a function and as messageBuilder; exact sizes of names |
| `Parser`, `Reader` | reading messages, as a function and as the seeking reader |
| `RoundTrip`, `HopLimit` | the cache invariant, the round trip, pointer bounds, lengths |
| `Txt`, `Base32`, `Framing` | the encodings between packets and messages |
| `Client`, `Server`, `Capacity` | sending queries, answering them, size limits |
| `SendLoop`, `Delivery`, `Responses`, `Tunnel` | runs of the server, and delivery end to end |
| `Bundling` | which packets the send loop puts in a response |
| `Layout` | the octets of messages and datagrams |
| `LongResponses` | what happens beyond the client's buffer |
| `HeapOrder`, `RemoteMap`, `QueuePacketConn` | per-client queues and their expiry |
| `Refinement` | that these queues are those of the send loop's state machine |
| `SubLists` | what is left of a list when elements are dropped |
| `WeightedList`, `WeightedGrammar` | the list syntax for TLS fingerprints, its grammar, and sampling |

`dafny verify dfyconfig.toml` checks everything.

## Model

| member | source | states |
|---|---|---|
| `Names.PrintInjective` | dns/dns.go:112-134 | Distinct non-empty names never print the same, whatever octets their labels hold, so the printed form can serve as the compression key |
| `Names.NameString` | dns/dns.go:112-134 | The nested loops of String produce that printed form |
| `Names.EscapeExactly` | dns/dns.go:112-134 | Digits, hyphens and letters of both cases are printed as they are, and any other octet as a backslash, x and two lower-case hexadecimal digits |
| `Names.CheckNameIffValid` | dns/dns.go:73-94 | NewName accepts exactly labels of 1 to 63 octets whose wire form takes at most 255 octets |
| `Reader.NewName` | dns/dns.go:73-94 | NewName, which measures the name by writing it to a fresh builder, reports the first bad label, or else whether the uncompressed length is over 255 |
| `Names.TrimSuffix` | dns/dns.go:139-151 | The loop returns the labels before the suffix exactly if the name ends in it, label by label, up to the case of ASCII letters |
| `Names.SuffixExactly` | dns/dns.go:139-151 | A suffix is found exactly if the last labels have the same lengths and the same octets up to the case of the letters A to Z; what is left over are the labels before it |
| `Names.SuffixOfFolded` | dns/dns.go:139-151 | A name that differs only in case from a prefix and a suffix still ends in that suffix, and the same labels are left over |
| `Builder.MessageBuilder.WriteName` | dns/dns.go:426-446 | The loop with its early return at a usable pointer brings bytes and cache into the state that the writing function describes |
| `Builder.MessageBuilder.WriteQuestion` | dns/dns.go:450-455 | A question is its name, then its type and class |
| `Builder.MessageBuilder.WriteRR` | dns/dns.go:459-472 | A record is written, or refused exactly if its data is 65536 octets or longer |
| `Builder.MessageBuilder.WriteMessage` | dns/dns.go:478-514 | A message is written, or refused exactly if a section or a record's data does not fit in 16 bits |
| `Builder.ToWireFormat` | dns/dns.go:519-526 | WireFormat returns those bytes, or ErrIntegerOverflow exactly in those cases |
| `Layout.QuestionOctets` | dns/dns.go:450-455 | On the wire a question is its name, two octets of TYPE and two of CLASS, in this order and each with the more significant octet first |
| `Layout.RROctets` | dns/dns.go:459-472 | A record is its name, TYPE, CLASS, four octets of TTL, two of length, and the data |
| `Layout.HeaderOctets` | dns/dns.go:478-498 | A message begins with its ID, its flags and the sizes of the question, answer, authority and additional sections, two octets each |
| `Layout.SectionsInOrder` | dns/dns.go:499-514 | After the header come the questions and then the answers, the authority and the additional records |
| `Layout.FirstNameOctets` | dns/dns.go:426-446 | A name written to an empty cache is its labels, each behind its length, and a zero octet |
| `HopLimit.WriteNameExactly` | dns/dns.go:426-446 | As few labels as possible are spelled out: up to the first suffix cached at 0x3fff or less, for which the two octets of a pointer follow, or else all of them and a zero; exactly the suffixes spelled out are cached anew, where they begin |
| `RoundTrip.WriteNameDecodes` | dns/dns.go:426-446 | Cache invariant: if following every cached offset decodes to the suffix it is cached for, this still holds after writing any name, and the name itself decodes with exactly the predicted number of pointers |
| `RoundTrip.AppendSound` | dns/dns.go:426-446 | The cache invariant survives whatever is appended later |
| `RoundTrip.PutNameWellPut` | dns/dns.go:426-446 | The invariant holds through the loop although the suffixes being written are cached before they are finished: a name never points into its own bytes |
| `HopLimit.PointersLeadBackwards` | dns/dns.go:426-446 | A written name is some of its labels, then a terminator or a pointer to an offset before the name, which decodes to the remaining labels |
| `HopLimit.PointersBounded` | dns/dns.go:426-446 | No name needs more pointers than the longest name has labels, nor as many as there are names |
| `HopLimit.CompressionNeverLonger` | dns/dns.go:426-526 | The output is never longer than the uncompressed form |
| `Parser.ReadNameWellPositioned` | dns/dns.go:202-276 | Whatever the bytes and the pointers in them, a name read successfully is valid and leaves the reader past its start and inside the buffer, just after the terminator or the first pointer |
| `Parser.ReadNameExactly` | dns/dns.go:202-276 | A name is read if and only if it is valid and the octets spell it, as labels behind their lengths and a zero, with at most ten pointers to wherever they lead |
| `Parser.TooManyHops` | dns/dns.go:251-254 | Octets that spell labels with more than ten pointers give ErrTooManyPointers |
| `Parser.WalkBudget` | dns/dns.go:202-276 | Reading depends on the pointer limit only through whether it suffices |
| `Parser.WalkStable` | dns/dns.go:202-276 | Reading a name gives the same result after more bytes are appended |
| `Reader.ByteReader.ReadLabels` | dns/dns.go:202-276 | The loop over labels, seekTo and numPointers ends for every buffer, cyclic pointers included, with the specified labels, position or error |
| `Reader.ByteReader.ReadName` | dns/dns.go:202-276 | readName validates those labels and ends just after the name as it occurs in place |
| `Reader.ByteReader.ReadQuestion` | dns/dns.go:282-297 | readQuestion |
| `Reader.ByteReader.ReadRR` | dns/dns.go:303-332 | readRR, with its errors in the source's order |
| `Reader.ByteReader.ReadMessage` | dns/dns.go:336-382 | readMessage: six header fields, then as many entries per section as they say |
| `Reader.MessageFromWireFormat` | dns/dns.go:387-402 | The result equals that of the parsing function, with EOF turned into ErrUnexpectedEOF and trailing bytes refused |
| `Layout.ReadQuestionOctets` | dns/dns.go:282-297 | After the name, the first two octets are read as the TYPE and the next two as the CLASS |
| `Layout.ReadRROctets` | dns/dns.go:303-332 | After the name come TYPE, CLASS, TTL and length, and the data are as many octets as the length says |
| `Parser.TrailingRefused` | dns/dns.go:387-402 | A message that parses is refused with anything behind it |
| `Parser.ShortRefused` | dns/dns.go:387-402 | Fewer than twelve octets are an unexpected end, and no input is reported as a plain EOF |
| `Messages.FlagsLayout` | dns/dns.go:165-178 | Opcode and Rcode find the four bits below the highest and the four lowest of the flags |
| `Parser.ParsedMessageValid` | dns/dns.go:336-402 | An accepted message was read to its last octet, and its names, counts and data lengths are all ones the writer accepts |
| `Parser.CutNeverParses` | dns/dns.go:387-402 | No proper prefix of a message that parses parses itself |
| `RoundTrip.NameReadsBack` | dns/dns.go:202-276 | A written name reads back equal and the reader ends where the writer did, or fails with too many pointers; which of the two depends only on the predicted number |
| `RoundTrip.SectionsReadBack` | dns/dns.go:336-382 | The same for four sections written one after the other, with pointers across them |
| `RoundTrip.MessageRoundTrip` | dns/dns.go:387-526 | For every message with valid names that fits: parsing its wire form returns the message if its names need at most ten pointers, and ErrTooManyPointers otherwise |
| `RoundTrip.ParsedMessageRewrites` | dns/fuzz.go:12-22 | Whatever parses can be written again without an error, and reparses equal under the same exact condition |
| `HopLimit.SmallMessageRoundTrip` | dns/dns.go:387-526 | At most eleven names, or at most ten labels to a name, guarantee the round trip |
| `HopLimit.NestedMessageFails` | dns/dns.go:251-254 | The questions a, a.a, ... up to k labels need exactly k - 1 pointers: the bounds are met, and the round trip fails from k = 12 on |
| `WireSizes.FirstName` | dns/dns.go:426-446 | A name written to an empty cache takes its full length, and from then on a pointer to it can be used |
| `WireSizes.RepeatedName` | dns/dns.go:426-446 | A name in the cache takes two octets, the root one |
| `Txt.EncodeRDataTXT` | dns/dns.go:558-575 | The loop cuts the payload into character-strings of 255 octets and a last one of at most 255 |
| `Txt.DecodeRDataTXT` | dns/dns.go:533-552 | The loop joins the strings, or reports an unexpected end for missing or cut ones |
| `Txt.DecodesExactly` | dns/dns.go:533-552 | Data decode if and only if they are one or more whole character-strings, to the concatenation of these; anything else is an unexpected end |
| `Txt.TXTRoundTrip` | dns/dns.go:533-575 | Decoding undoes encoding for payloads of any length |
| `Txt.EncodedTXTLen` | dns/dns.go:558-575 | n octets take n + max(1, ceil(n/255)) |
| `Base32.EncodeDecode` | dnstt-client/lib/dns.go:348-351 | Decoding undoes encoding for every length, also through lower case and back to upper case |
| `Base32.AlphabetExactly` | dnstt-client/lib/dns.go:348-351 | The digits are the letters A to Z and 2 to 7 of section 6 of RFC 4648 |
| `Base32.EncodedNumber` | dnstt-client/lib/dns.go:348-351 | Up to five octets and their digits are the same number, followed by the zero bits that make the last digit whole |
| `Base32.DecodedNumber` | dnstt-server/main.go:479-488 | Up to eight digits and the octets decoded from them are the same number, without the bits that make no whole octet |
| `Base32.DecodesExactly` | dnstt-server/main.go:479-488 | A text decodes if and only if it has no other characters than digits, CR and LF |
| `Framing.NextSizedPacket` | dnstt-client/lib/dns.go:194-210 | The client's nextPacket, with its two kinds of end of input |
| `Framing.ExtractSized` | dnstt-client/lib/dns.go:261-273 | The loop collects the packets up to the first missing or incomplete one |
| `Framing.SizedExactly` | dnstt-client/lib/dns.go:194-210 | From any payload, well-formed or not, the client extracts exactly the whole packets it begins with, each behind two octets of length |
| `Framing.FrameRoundTrip` | dnstt-client/lib/dns.go:194-210 | From the framed form of any list of packets shorter than 65536 octets, the client extracts exactly that list |
| `Framing.CutPayload` | dnstt-client/lib/dns.go:194-210 | From a prefix of a payload, it extracts a prefix of the packets |
| `Framing.NextPaddedPacket` | dnstt-server/main.go:344-371 | The server's nextPacket, which skips padding |
| `Framing.ExtractPadded` | dnstt-server/main.go:540-556 | The loop collects the packets of a query |
| `Framing.PaddedExactly` | dnstt-server/main.go:344-371 | From any payload the server extracts exactly the whole packets it begins with, each behind an octet below 224, where an octet n from 224 on and n - 224 octets after it are skipped |
| `Framing.PaddedRoundTrip` | dnstt-server/main.go:344-371 | Behind any padding the server finds exactly the packet sent, and nothing in a poll |
| `Client.ChunksOf` | dnstt-client/lib/dns.go:290-301 | The loop cuts the text into the specified pieces |
| `Client.ChunksJoin` | dnstt-client/lib/dns.go:290-301 | Joining the pieces gives the text back |
| `Client.DNSNameCapacity` | dnstt-client/lib/client.go:119-135 | The loop computes the closed form of the capacity for every domain, with division towards zero where nothing is left |
| `Client.CapacityTight` | dnstt-client/lib/client.go:119-135 | For every valid domain, encoded data makes a valid name under it if and only if the data is no longer than the capacity |
| `Client.PacketFits` | dnstt-client/lib/client.go:669-672 | If the MTU is at least 80, every packet within it and every poll fits, and is below the 224 of the length prefix |
| `Client.Send` | dnstt-client/lib/dns.go:325-389 | send produces the specified query, or the specified error |
| `Layout.SentOctets` | dnstt-client/lib/dns.go:325-389 | Packets of 224 octets and more are refused. Otherwise, if the name is valid, the datagram is, octet by octet: the query ID, RD as the only flag, one question and one additional record; a name that carries ClientID, padding and packet in lower-case base32 in labels of 63; TXT and IN; and an OPT record of 4096 octets |
| `Client.PacketsExactly` | dnstt-client/lib/dns.go:158-188 | A message yields packets only if it is a response without an error code, with exactly one answer, of type TXT and under the domain, whose data are whole character-strings; and then those of its payload |
| `Client.HandleDatagram` | dnstt-client/lib/dns.go:241-273 | recvLoop extracts the specified packets from a datagram, of which it reads at most 4096 octets |
| `Server.RespondTo` | dnstt-server/main.go:378-503 | responseFor, with its loop over the additional section, returns the specified response and payload |
| `Server.ResponseExactly` | dnstt-server/main.go:378-503 | From the query alone: a query gets a response with its ID and question, QR set, AA exactly if the OPT records are acceptable and the only question is under the domain, no other flag, the error code of the first objection, and an OPT record of 4096 octets if it has one itself |
| `Server.ScanOptsMeaning` | dnstt-server/main.go:397-432 | What that loop comes to, by the list of OPT records: none, one of version 0, one of another version, or too many |
| `Server.HandleQuery` | dnstt-server/main.go:540-563 | recvLoop's treatment of the payload: ClientID, packets, and the response passed on |
| `Server.AcceptedQuery` | dnstt-server/main.go:378-563 | A complete query yields the empty response without an error, the first eight octets as ClientID, and the packets after them |
| `Server.RejectedQuery` | dnstt-server/main.go:378-563 | Any other yields no packets, and a response with the error code of the first objection to it, unless it is a response itself, which gets none |
| `Server.OnlyAcceptableQueriesCarryData` | dnstt-server/main.go:378-563 | A record without an error leaves recvLoop if and only if its query has one question, of type TXT, under the domain, with a whole ClientID, acceptable OPT records and a large enough advertised size; only such queries deliver packets |
| `Server.BadVersionGarbled` | dnstt-server/main.go:418-429 | A query with a bad EDNS version makes responseFor produce BADVERS, but leaves recvLoop with NXDOMAIN in the header and the extended code 19 in all |
| `Server.BadVersionExactly` | dnstt-server/main.go:557-562 | The record that announces a bad version, and an extended code other than the one in the header, are in the response exactly to these queries; no response has the code 16 of BADVERS |
| `Server.BadVersionExample` | dnstt-server/main.go:418-429 | One such query and its response |
| `Capacity.ComputeMaxEncodedPayload` | dnstt-server/main.go:719-797 | The binary search returns the greatest payload size below 32768 whose worst-case response is within the limit, or 0 |
| `Capacity.DataResponseLen` | dnstt-server/main.go:605-682 | The exact length of a completed response: its question in full, the answer's name as a pointer, the TXT data, the OPT record |
| `Capacity.WorstResponseLen` | dnstt-server/main.go:749-776 | That length for the 255-octet name that the search uses |
| `Capacity.NoLongerThanWorst` | dnstt-server/main.go:710-797 | No response with the same payload is longer |
| `SendLoop.RecordResponse` | dnstt-server/main.go:520-571 | A record that can carry data answers a complete query, and can be completed and written |
| `SendLoop.DatagramExactly` | dnstt-server/main.go:520-571 | A datagram whose first 4096 octets parse to a query adds exactly one record to the channel, with its sender, the query, and the response it calls for, with or without an error, if the channel holds fewer than 4096; every other datagram changes nothing |
| `Bundling.BundleExactly` | dnstt-server/main.go:617-680 | Whatever the select statements choose, the loop either is still making the bundle without having passed over a packet, or has sent the first packet and as many of the next ones as fit with their prefixes, stashed exactly the one after them, and left the rest in the queue |
| `Bundling.AllBundled` | dnstt-server/main.go:617-680 | If all of a client's packets fit, no choice leads to any other outcome than one response with all of them, and some choices lead to it |
| `Bundling.BundleCompletes` | dnstt-server/main.go:617-680 | From the record on, the loop can bring the bundle to its end by itself |
| `Bundling.WaitEnds` | dnstt-server/main.go:636-652 | Waiting, with stash and queue empty, ends with the timer or with the next record, which is then dealt with next, and all packets are in the bundle |
| `Bundling.StashedOnlyWhenFull` | dnstt-server/main.go:660-672 | In every run, whatever expires, a stashed packet is behind a response to its client whose packets, with this one and its prefix, exceed the payload limit |
| `Layout.OutgoingExactly` | dnstt-server/main.go:605-682 | A record without an error goes out as one question and one TXT answer of TTL 60 in the question's class, with AA set and the bundle in length-prefixed form as its data |
| `Layout.TransmittedExactly` | dnstt-server/main.go:684-695 | A message within the limit is sent as it is; a longer one is cut to the limit and differs only in the TC bit |
| `Delivery.RecordsInOrder` | dnstt-server/main.go:578-709 | In every interleaving, up to a panic on a packet of 65536 octets or more, the records passed on are those dealt with, then the one in hand, then those in the channel, each once and in order |
| `Delivery.PacketsNeverReordered` | dnstt-server/main.go:617-680 | In every interleaving, whatever expires, up to such a panic: what is in a client's responses, in the bundle being made for it, in its stash, in the channels that the loop has of an expired record, and in its queue is, in this order, a sub-list of the non-empty packets accepted for it |
| `Delivery.PacketsConserved` | dnstt-server/main.go:617-680 | In every interleaving, up to such a panic, for every client whose record does not expire, whatever happens to those of others: the non-empty packets accepted are, in order, those in its responses, in the current bundle, in the stash and in the queue |
| `Delivery.StashNeverFull` | dnstt-server/main.go:660-672 | In every interleaving, also if a record expires in the middle of a bundle or between the loop's two lookups, a packet that overflows a bundle finds its client's stash free and ends up alone in it |
| `Responses.RunSizes` | dnstt-server/main.go:617-680 | In every run, bundles stay within the payload limit, the unchecked first packet included, and the panic on long packets is not reached |
| `Responses.DataResponseSent` | dnstt-server/main.go:682-695 | A response with a bundle is sent uncut, within maxUDPPayload and what the requester advertised; the client extracts exactly its packets if the datagram is at most 4096 octets long, and none otherwise |
| `Responses.ErrorYieldsNothing` | dnstt-client/lib/dns.go:158-188 | A datagram with an error code yields no packets, also when it is cut or marked as truncated |
| `Responses.OtherResponseSent` | dnstt-server/main.go:684-695 | A record without data gets a datagram within maxUDPPayload, from which the client extracts nothing |
| `Responses.ResponsesNeverTruncated` | dnstt-server/main.go:578-709 | In every run of an accepted configuration, every record dealt with gets a datagram within maxUDPPayload; data-carrying ones are whole; and a datagram yields exactly its packets if and only if it is at most 4096 octets long or has none |
| `Responses.DeliveredNeverReordered` | dnstt-server/main.go:578-709 | In every run of every accepted configuration, whatever expires and whatever the client cannot read, what a client extracts is an in-order sub-list of the non-empty packets accepted for it |
| `Responses.TunnelDelivers` | dnstt-server/main.go:578-709 | In every run, for every client whose record does not expire, the non-empty packets accepted are, in order, those the client extracts from the datagrams sent so far, error responses included, and those the server still holds; if maxUDPPayload is at most 4096, or more than any requester can announce, or the domain leaves no room for a ClientID |
| `LongResponses.LongResponseLost` | dnstt-client/lib/dns.go:243-253 | For every other accepted configuration and valid domain, a run in which the server accepts a packet, sends it in a response and holds nothing any more, and the client extracts nothing |
| `LongResponses.DeliversExactly` | dnstt-client/lib/dns.go:243-253 | The condition of TunnelDelivers is exact |
| `LongResponses.LargeConfigLoses` | dnstt-server/main.go:811-821 | For responses of up to 8192 octets run computes the payload limit 7867 and goes ahead, and packets are lost |
| `Tunnel.MangledQueryDelivers` | dnstt-server/main.go:452-488 | Any query whose name equals the sent one up to case delivers exactly the ClientID and the packet, whatever its other fields, as long as it is still a plain query |
| `Tunnel.UpstreamEndToEnd` | dnstt-client/lib/dns.go:325-389 | For every ClientID, padding, domain and packet within the MTU: send succeeds, the datagram fits the server's buffer and parses; if maxUDPPayload is at most 4096 the server extracts the ClientID and that packet, or none for a poll, and otherwise it takes nothing and answers with a format error |
| `Tunnel.UpstreamExactly` | dnstt-server/main.go:491-500 | A packet sent within the MTU arrives, from its client, if and only if maxUDPPayload is at most 4096 |
| `Tunnel.DownstreamEndToEnd` | dnstt-client/lib/dns.go:158-210 | For every list of packets whose TXT data fits in 16 bits and every accepted query, the answer survives the wire and the client extracts exactly that list |
| `Tunnel.CutAnswerYieldsPrefix` | dnstt-client/lib/dns.go:261-273 | From a payload cut short, the client extracts a prefix of the list |
| `HeapOrder.RootLeast` | turbotunnel/remotemap.go:118-133 | Heap order makes the first key the least |
| `RemoteMaps.SameSize` | turbotunnel/remotemap.go:158-163 | A consistent index has as many addresses as records, so the "inconsistent remoteMap" panic is unreachable |
| `RemoteMaps.RemoteMapInner.Swap` | turbotunnel/remotemap.go:169-173 | Two places are exchanged, and array and index stay inverse to each other |
| `RemoteMaps.RemoteMapInner.Push` | turbotunnel/remotemap.go:175-184 | A record with a new address is added to both |
| `RemoteMaps.RemoteMapInner.Pop` | turbotunnel/remotemap.go:186-195 | The last record is removed from both |
| `RemoteMaps.RemoteMapInner.Fix` | turbotunnel/remotemap.go:135-142 | After one key changed in either direction, the array is a heap again |
| `RemoteMaps.RemoteMapInner.HeapPop` | turbotunnel/remotemap.go:125-130 | The root is removed and the rest is a heap |
| `RemoteMaps.RemoteMapInner.Lookup` | turbotunnel/remotemap.go:135-154 | Sets the address's time to now in the map that is represented, returns the same record as before or a fresh one, and keeps heap and index |
| `RemoteMaps.RemoteMapInner.RemoveExpired` | turbotunnel/remotemap.go:125-130 | Removes exactly the addresses last looked up at least timeout ago, and closes their queues |
| `RemoteMaps.Continue` | turbotunnel/remotemap.go:118-154 | Any run of lookups and expiries on a map leaves it with exactly the addresses and times of the plain map; a record is the same object as before if its address stayed in the map throughout, and a fresh one otherwise |
| `RemoteMaps.Replay` | turbotunnel/remotemap.go:118-154 | Any run from the empty map leaves it with the addresses and times that AliveSinceLastLookup is about |
| `RemoteMaps.RootYoungerAllYounger` | turbotunnel/remotemap.go:125-130 | If the root has not expired nothing has, which justifies stopping there |
| `RemoteMaps.AliveSinceLastLookup` | turbotunnel/remotemap.go:118-154 | After any run of lookups and expiries, an address is present exactly if no expiry since its last lookup came a timeout or more later, and then holds the time of that lookup |
| `QueuePacketConns.RemoteMap.SendQueue` | turbotunnel/remotemap.go:68-82 | The queue that a lookup would return; for a known peer nothing changes, not even its time |
| `QueuePacketConns.RemoteMap.Stash` | turbotunnel/remotemap.go:86-95 | Fills the peer's one slot if it is free and says whether it was; no other peer's packets change |
| `QueuePacketConns.RemoteMap.Unstash` | turbotunnel/remotemap.go:98-111 | The stash that a lookup would return; for a known peer nothing changes |
| `QueuePacketConns.RemoteMap.RemoveExpired` | turbotunnel/remotemap.go:52-63 | Removes exactly the peers not looked up for at least timeout, with their packets, and closes their queues; the others keep their records and packets |
| `QueuePacketConns.ReplayUses` | turbotunnel/remotemap.go:68-111 | Any run of SendQueue, Unstash, Stash and expiry from the empty map leaves it with the peers and times of the plain map |
| `QueuePacketConns.AliveSinceCreatedOrStashed` | turbotunnel/remotemap.go:68-111 | After any such run, a peer is present exactly if no expiry came a timeout or more after it was created or last had a packet stashed, however often it was used in between |
| `QueuePacketConns.QueuePacketConn.QueueIncoming` | turbotunnel/queuepacketconn.go:67-88 | Appends to the bounded receive queue, or drops the packet if that is full or the connection closed |
| `QueuePacketConns.QueuePacketConn.ReadFrom` | turbotunnel/queuepacketconn.go:110-122 | Takes the first packet, and as much of it as the caller's buffer holds, or fails on a closed connection |
| `QueuePacketConns.QueuePacketConn.WriteTo` | turbotunnel/queuepacketconn.go:126-146 | Appends to that peer's queue unless it is full or the connection closed; every other queue and every stash stays as it was |
| `QueuePacketConns.InterruptedWriteTo` | turbotunnel/queuepacketconn.go:137-146 | If an expiry comes between the lookup and the send of WriteTo, the send meets a closed queue and panics if and only if the peer was created or last had a packet stashed at least timeout before; otherwise the packet is queued as usual |
| `Refinement.WriteToRefines` | turbotunnel/queuepacketconn.go:126-146 | On the channels of the map, WriteTo is the step of the same name of the state machine, or nothing once the connection is closed |
| `Refinement.StashRefines` | turbotunnel/remotemap.go:86-95 | Stash is what the state machine does with a packet that does not fit |
| `Refinement.UnstashRefines` | dnstt-server/main.go:625 | Getting the stash is the start of a bundle in the state machine |
| `Refinement.OutgoingQueueRefines` | dnstt-server/main.go:626 | Getting the queue is its next step, also if the client's record expired in between |
| `Refinement.ExpiryRefines` | turbotunnel/remotemap.go:125-130 | removeExpired is the expiry of the clients it removes, and the channels that the loop has still hold what the state machine says |
| `QueuePacketConns.QueuePacketConn.Close` | turbotunnel/queuepacketconn.go:150-172 | Only the first call takes effect |
| `WeightedList.ScanToken` | dnstt-client/lib/weightedlist.go:41-64 | The closure nextToken, with the position it leaves and the index past the end on a dangling backslash |
| `WeightedList.ParseWeightedList` | dnstt-client/lib/weightedlist.go:25-160 | The state machine ends for every input with the outcome that the grammar gives |
| `WeightedGrammar.ParsesExactly` | dnstt-client/lib/weightedlist.go:25-160 | The parser accepts a string, with these weights and labels, if and only if it is entries joined by single commas, each a non-empty label or a decimal weight below 2^32, an asterisk and a non-empty label, with no separator inside that is not escaped |
| `WeightedGrammar.DecimalExactly` | dnstt-client/lib/weightedlist.go:122-125 | A decimal number is one or more digits, the first the most significant |
| `WeightedGrammar.AsteriskAfterEntry` | dnstt-client/lib/weightedlist.go:128-136 | 2*b*c is refused |
| `WeightedList.AcceptedShape` | dnstt-client/lib/weightedlist.go:25-160 | Accepted lists are non-empty slices of equal length, without an empty label |
| `WeightedList.PrintedParses` | dnstt-client/lib/weightedlist.go:18-25 | Any non-empty list of 32-bit weights and non-empty labels, printed with escapes and with weights of 1 left out or not, parses back to itself |
| `WeightedList.PanicsExactly` | dnstt-client/lib/weightedlist.go:54-58 | The panic occurs if and only if the input ends in a dangling backslash and no error precedes it |
| `WeightedList.DanglingIsOdd` | dnstt-client/lib/weightedlist.go:54-58 | A dangling backslash is an odd number of backslashes at the end |
| `WeightedList.EvenBackslashesNeverPanic` | dnstt-client/lib/weightedlist.go:54-58 | Without an odd number of backslashes at its end, no input panics |
| `WeightedList.BackslashPanics` | dnstt-client/lib/weightedlist.go:54-58 | A single backslash is such an input |
| `WeightedList.SampleWeighted` | dnstt-client/lib/weightedlist.go:182-201 | With 64-bit wrap-around: panics exactly for totals of zero or of 2^63 and more, and otherwise returns the index of the draw; the panic at the end is unreachable |
| `WeightedList.PickRange` | dnstt-client/lib/weightedlist.go:182-201 | The draws for an index are those between the sums of the weights before it and up to it |
| `WeightedList.SamplingExact` | dnstt-client/lib/weightedlist.go:182-201 | Exactly as many draws select an index as its weight says |

Where code and comments disagree the model follows the code. responseFor sets the extended response code
BADVERS (16) for a bad EDNS version (dnstt-server/main.go:418-429), but its low four bits are zero and the
payload is empty, so recvLoop takes the response for one without an error and adds NXDOMAIN to the header
(dnstt-server/main.go:557-562). The high bits stay in the OPT record: what is sent has the extended code 19,
by section 6.1.3 of RFC 6891, which is neither. The client's recvLoop reads 4096 octets of a datagram
(dnstt-client/lib/dns.go:243), while run accepts any larger maxUDPPayload. The tokenizer means to return an
error token for a dangling backslash, but indexes past the end of its input while formatting it
(dnstt-client/lib/weightedlist.go:57). WriteTo lets go of the map's lock between looking up a queue and sending
to it, and the lookup of a known peer does not refresh its time, so that the queue can be closed in between.

## Left out

- Sockets, goroutine start-up, logging, flags, key files and pluggable-transport plumbing: input and output only. The network delivers or drops whole byte strings.
- KCP, smux, Noise, zstd and uTLS: libraries. That KCP emits packets of at most the MTU is a hypothesis (`Responses.AllWithinMTU`).
- Real time: timers and select races are nondeterministic choices, and the current time is an argument. Client-side query pacing and polling are not modelled.
- Delivery.PacketsConserved: does not say which packets of an expired record are lost; that no others are added is Delivery.PacketsNeverReordered.
- QueuePacketConns.QueuePacketConn.WriteTo: is one step. An expiry between its lookup and its send is modelled in QueuePacketConns.InterruptedWriteTo, but does not occur in the runs of the send loop.
- The end of the send loop when its channel is closed, and errors of the network connection.
- Locks and pooled buffers: each locked section is one atomic step, and packets are values.
- Responses.TunnelDelivers: like conservation, stated over non-empty packets, because the loop takes an empty packet for the expiry of its timer and drops it.
- Responses.ResponsesNeverTruncated: error responses may be cut to maxUDPPayload; only data-carrying ones are proved whole.
- Names.TrimSuffix: folds the case of ASCII letters only; bytes.ToLower also folds other letters.
- Server.RespondTo: upper-cases ASCII letters only. bytes.ToUpper also turns U+017F into S and U+0131 into I, so that responseFor accepts some names with these letters that the model takes for undecodable.
- Server.RejectedQuery: for the same reason, names with these letters are counted as rejected here.
- Server.OnlyAcceptableQueriesCarryData: for the same reason, its equivalence is about names without these letters.
- Base32.EncodeDecode: encoding/base32 and container/heap are libraries that are not part of the repository, modelled from their documented behaviour; where in the text a decoding error is, is not modelled.
- Capacity.ComputeMaxEncodedPayload: takes the limit for the maxUDPPayload that responseFor reads, as run does.
- Texts of error messages, and errors of Seek, which bytes.Reader does not return for these offsets.
- ParseName, the DoH and DoT transports, resolver testing and fallback, the tunnel pool, the mobile and Android parts: text handling, network orchestration and user interface.
