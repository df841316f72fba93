# desyncd: a verified model of its protocol core

desyncd is a local proxy and packet filter that rewrites the first message of a connection. What it
does must leave the connection itself intact: the server has to see the same ClientHello, the client has
to see one server's bytes, the checksums have to be right. This project models the parts of the
repository that carry this burden and proves, for all inputs and all runs, what they keep.

Code that works step by step is a `method` or a `class` here (parsers with a cursor, the fragmenters, the
packet rebuilding in an array, the reassembly loop, the connection table, the DNS cache), proved equal to
a specification function or relation; the theorems are about those. Bytes are integers below 256, strings
are their UTF-8 bytes, reads, clocks, random draws, resolver answers and connection attempts are
arbitrary inputs.

## The theorems, by part

**TLS record and handshake parsing** (`TlsParser`, `TlsStability`, `TlsRecords`, `MessageEnd`, `ClientHello`,
`TlsNeeds`, `SniExact`). The parser's verdict depends on the handshake and not on how it is cut into records;
every verdict on partial input is classified by what more input can do to it; and parsing inverts printing for
every ClientHello that fits its length fields. `NeedMore` is a sound lower bound, given exactly for every prefix
of a hello, "not TLS" is final, a hello with SNI is stable. "No SNI" is final exactly when the extension block
is really there or no further record can follow. The fields are walked up to the end of the collected handshake
bytes and not of the message, and the verdict is that on the message alone exactly when the walk cannot use the
bytes behind it.

**Fragmentation** (`SplitPositions`, `SplitPoints`, `RecordFrag`, `ServerView`, `SplitPlaces`). Both techniques
send exactly the first record's data. The result parses as before if and only if the message, by its own length
fields, ends inside that record; for a payload that is one record this is always so. What the first message
holds behind that record is dropped. The SNI offset that is reported is `5 +` handshake position, and this is
the wire position exactly in the first record. Cutting at the SNI leaves the whole SNI in the last record and
none of it in an earlier one, and every other position cuts at the payload byte it names.

**Rewriting** (`SniManip`, `SniPanic`, `Padding`, `PaddingProps`, `PaddingBytes`, `PaddingCut`, `Probe`,
`ProbeLong`). Overwriting the SNI in the first record changes only the SNI; padding keeps the parse of every
payload with a name whose extension block ends in the first record, with all three nested lengths consistent,
loses the name when the block ends behind that record (unless what follows reads as a record header), and gives
a nameless hello a name exactly when the bytes its extension walk leaves over can be completed to one; the
probe's hello parses to its domain for every random choice, as long as its lengths fit. In each case the exact
limit is part of the statement (records above 18432 bytes are no longer taken for TLS).

**The relay** (`Reassembly`, `Relay`, `RelaySession`, `EndToEnd`). A stream that is exactly one hello is the
first message however its bytes are chunked, as long as reads deliver, and any other run gives a prefix of the
stream; over every outcome of the early-failure window, every fallback chain and every schedule, the client
receives a prefix of one upstream's stream from its first byte, and that upstream receives the wire form of one
action followed by the rest of the client's stream.

**Packet rewriting** (`Checksum`, `RawPacket`, `PacketFormat`, `PacketSums`, `ConnTracking`, `Quic`,
`Detection`, `Nfq`, `QuicDrop`, `NfqRuns`, `NfqStream`, `Capacity`). The carry-folding loop is the canonical
residue modulo 65535, so rebuilt packets verify at the receiver and parse to the same connection with the new
payload and every other header byte as it was. In every run a connection is rewritten at most once while its
entry lives, and the table is bounded. The stream the receiver reassembles is the sender's with the first
payload replaced exactly when the replacement is as long or nothing follows it.

**DNS** (`DnsMessage`, `DnsCut`, `DnsQuery`, `DnsCaching`). Responses are parsed back to exactly their A
records, a response cut anywhere gives the addresses in front of the cut or an error, and the cache, whose lock
is free while a resolution is under way, returns an address exactly while the last answer for the same domain
and port is fresh and not evicted, under every interleaving. `Capacity` shows from which capacity on the two
tables keep within it.

**HTTP and rules** (`HttpParser`, `HttpLines`, `HttpWords`, `HttpHost`, `HttpHostProps`, `HttpMeaning`,
`HttpCase`, `HttpLower`, `HttpPanic`, `Utf8`, `Utf8Chars`, `Selection`). Rewriting the Host line keeps method
and host, with the exact exceptions; mixing the case of the name changes only the name exactly when the text in
front of it takes as many bytes in lower case; rule selection refines "highest priority, then earliest". Lower
case is a relation between texts, character by character: ASCII as ASCII, U+212A and U+0130 as Unicode has them,
and any other character as some text without ASCII in it.

## Where the code and its description differ

The model follows the code.

- README.md:179 says no record holds the whole SNI and docs/TECHNIQUES.md:127-130 that the name itself is
  split; the code cuts at the start of the SNI, so the last record holds all of it
  (`ServerView.SniOnlyInLastRecord`).
- crates/desyncd-desync/src/sni_manip.rs calls a mode `Remove`; it overwrites the name with dots and the
  extension stays (`SniManip.RemoveOnlyMasks`).
- crates/desyncd-nfq/src/connstate.rs:106 speaks of expiry after five minutes without activity; an entry is
  dated when its first payload is handled and no later packet refreshes it
  (`NfqRuns.LifetimeFromOpening`).
- crates/desyncd-nfq/src/connstate.rs:29 says retransmits get the same treatment; the code accepts the
  original packet.
- crates/desyncd-dns/src/lib.rs:276-282 builds a query for any domain; one with an empty label, such as a
  trailing dot, has its name end too early (`DnsQuery.QueryAsksForDomain`).
- Line wrapping of the Host header hides the host from the repository's own parser, always
  (`HttpMeaning.RewrittenRequest`).
- A rule that names an unknown strategy does not fall back to the default strategy
  (`Selection.SelectionRefinesPriority`).
- A capacity of zero lets both tables hold one entry; from one on they keep within it
  (`Capacity.TableWithinCapacity`, `Capacity.CacheWithinCap`).
- crates/desyncd-desync/src/sni_manip.rs:121 copies the mixed-case SNI over the SNI bytes; when decoding has
  changed the length, as for the single byte 0xFF, the copy panics (`SniManip.PanicsExactly`,
  `SniPanic.ReceivedHelloPanics`).
- crates/desyncd-desync/src/http_host.rs:149-154 uses an offset found in the lower-case text on the text itself.
  Where the text in front of the name has another length in lower case the wrong bytes are replaced, or slicing
  panics (`HttpLower.RenamesOnlyTheName`, `HttpPanic.ReceivedRequestPanics`).
- crates/desyncd-packet/src/tls.rs:132-135 counts one record header in the amount it asks for; between the records of
  a hello in several records this can be no more than what has come (`TlsNeeds.NeedAlreadyThere`).
- crates/desyncd-packet/src/tls.rs:189-203 takes handshake bytes behind a message without extensions for its
  extension block (`MessageEnd.BytesBehindAreRead`).
- crates/desyncd-desync/src/padding.rs:83-136 completes a server_name extension that the block cuts off: a
  hello the parser finds no name in has one after padding (`PaddingBytes.PaddingMakesName`).
- crates/desyncd-packet/src/quic.rs:48-54 looks at the packet type and ignores it, so every long-header packet
  of a known version counts as an Initial one, and crates/desyncd-nfq/src/lib.rs:127-138 drops it
  (`Quic.HeaderRecognised`).
- crates/desyncd-nfq/src/lib.rs:173-187 replaces a payload by one of another length and renumbers nothing; what
  follows is lost or cut at the receiver (`NfqStream.StreamKept`). Record fragmentation of a hello that fills
  its packet is always longer (`NfqStream.FragmentsGrow`).
- crates/desyncd-desync/src/padding.rs:89-105 takes the end of the extension block in the payload, record headers
  and all, so padding a hello whose block runs past the first record cuts it there (`PaddingCut.PaddingBeyondRecord`).
- crates/desyncd-desync/src/multi_stream_frag.rs:180 and crates/desyncd-desync/src/tls_record_frag.rs:116 stop at the
  end of the first record; bytes of the first message behind it are not sent (`EndToEnd.FragmentedHelloArrives`).
- crates/desyncd-adapt/src/probe.rs:331-341 casts lengths to sixteen bits; from a domain of 65325 bytes on the
  parser judges only as many bytes of the probe as the cut length says, unless the bytes behind them read as a
  record header (`ProbeLong.LongProbeMisread`). Random bytes can read so and the whole domain be found
  (`ProbeLong.RandomReadsAsRecord`), up to 65535 bytes.

## Model

| member | source | states |
|---|---|---|
| TlsParser.TryParseClientHello | crates/desyncd-packet/src/tls.rs:43-109 | the scanning loop over continuation records computes the specified verdict on every byte string |
| TlsParser.RunHandshake | crates/desyncd-packet/src/tls.rs:115-138 | the handshake header checks and the walk give the specified verdict |
| TlsParser.SkipHello | crates/desyncd-packet/src/tls.rs:140-187 | the cursor over version, random, session id, cipher suites and compression ends where the field walk ends, or asks for the bytes the walk lacks |
| TlsParser.RunExtensions | crates/desyncd-packet/src/tls.rs:189-234 | the extension loop finds the first server_name extension of the block |
| TlsParser.RunSniExtension | crates/desyncd-packet/src/tls.rs:240-284 | the name loop finds the first host_name entry |
| TlsNeeds.RecordToCome | crates/desyncd-packet/src/tls.rs:52-77 | with a record header and less than it announces the parser asks for exactly that record, by its bytes |
| TlsNeeds.PrefixNeeds | crates/desyncd-packet/src/tls.rs:43-135 | the exact amount for every proper prefix of a hello in records: five bytes, the end of the record that is cut, or between records the message with one header |
| TlsNeeds.OneRecordNeeds | crates/desyncd-packet/src/tls.rs:43-77 | for a one-record hello the amount is the length of the hello from the fifth byte on |
| TlsNeeds.NeedAlreadyThere | crates/desyncd-packet/src/tls.rs:128-135 | between the records of a hello the amount is above what has come if and only if more is missing than the later headers take |
| TlsNeeds.NeedBeyond | crates/desyncd-packet/src/tls.rs:43-203 | on any buffer the amount is above what has come while a record is incomplete, and above the handshake bytes otherwise |
| TlsNeeds.CutMessageNeeds | crates/desyncd-packet/src/tls.rs:115-203 | a message that ends inside its own fields: the amount is the end of the field or length prefix that is cut |
| TlsNeeds.NotTlsByBytes | crates/desyncd-packet/src/tls.rs:43-122 | a buffer is no TLS if and only if its type, version, length or, its records being whole, first handshake byte says so |
| TlsNeeds.HeaderByBytes | crates/desyncd-packet/src/tls.rs:88-96 | which bytes continue a handshake |
| SniExact.SniBodyExactly | crates/desyncd-packet/src/tls.rs:240-284 | on any bytes: the first host name that stands whole behind whole entries of other kinds, with its place, and none otherwise |
| SniExact.BlockExactly | crates/desyncd-packet/src/tls.rs:189-234 | on any bytes: the first server_name extension that stands whole behind whole extensions of other types, and none otherwise |
| TlsStability.HandshakePrefix | crates/desyncd-packet/src/tls.rs:115-234 | every verdict on a handshake except a missing SNI survives more handshake bytes |
| TlsStability.TruncationExact | crates/desyncd-packet/src/tls.rs:140-234 | a truncated hello with SNI parses the same if and only if it covers the hello's extent |
| TlsStability.MissingSniIsFinal | crates/desyncd-packet/src/tls.rs:189-234 | "no SNI" holds for every longer handshake if and only if the extension block is there |
| MessageEnd.NoSniIsFinal | crates/desyncd-packet/src/tls.rs:43-234 | "no SNI" on a received buffer holds for every longer buffer, up to waiting for records, if and only if the extension block is there or what is left over cannot begin a record |
| MessageEnd.MessageDecides | crates/desyncd-packet/src/tls.rs:115-203 | a handshake has the verdict of its first message, by the length field, if and only if the field walk cannot use the bytes behind the message |
| MessageEnd.VerdictIsFinal | crates/desyncd-packet/src/tls.rs:115-203 | the verdict on a message is that on every handshake starting with it if and only if it is complete with the extension block inside |
| MessageEnd.BytesBehindAreRead | crates/desyncd-packet/src/tls.rs:189-203 | an extension-less message without SNI that has one when eleven bytes follow it |
| TlsStability.NeedMoreIsLowerBound | crates/desyncd-packet/src/tls.rs:43-138 | after `NeedMore(n)` no extension shorter than n bytes is complete |
| TlsStability.NotTlsIsFinal | crates/desyncd-packet/src/tls.rs:43-121 | a non-empty buffer that is not TLS has no complete extension |
| TlsStability.CompleteWithSniIsStable | crates/desyncd-packet/src/tls.rs:79-109 | a hello with SNI extends only to the identical hello or to a wait for a whole next record |
| TlsRecords.FragmentationInvariance | crates/desyncd-packet/src/tls.rs:79-108 | for every cut of a handshake into records and every following bytes that are no record header, the verdict is that on the handshake |
| TlsRecords.ProperPrefixNeedsMore | crates/desyncd-packet/src/tls.rs:43-138 | every proper non-empty prefix of a stream that is exactly one hello asks for more, within the stream's length |
| ClientHello.ParserInvertsPrinter | crates/desyncd-packet/src/tls.rs:115-284 | printing any hello that fits its length fields and parsing it gives the first host name of the first SNI extension, with its offset and length |
| ClientHello.ParserInvertsWire | crates/desyncd-packet/src/tls.rs:43-284 | the same through any records |
| ClientHello.HostNameMeaning | crates/desyncd-packet/src/tls.rs:207-284 | a hello whose first server_name extension lists names means the first host_name entry of that list |
| ClientHello.ExtensionStart | crates/desyncd-desync/src/lib.rs:79-86 | nine bytes in front of the SNI is the start of its extension if and only if the host name is first in its list |
| ServerView.MarkersPointIntoName | crates/desyncd-desync/src/lib.rs:87-107 | with a valid name in the first record the end marker is the dot behind the second-level label and the middle marker lies inside the label |
| SplitPositions.SldRange | crates/desyncd-desync/src/lib.rs:144-159 | a returned range is the non-empty label before the last dot |
| SplitPositions.SldRangeComplete | crates/desyncd-desync/src/lib.rs:144-159 | whenever there is such a label it is the one returned |
| SplitPoints.ComputeSplitPoints | crates/desyncd-desync/src/multi_stream_frag.rs:216-253 | the loop with sort, dedup and retain gives the closed form: n - 1 even cuts, or every byte when there is no room |
| SplitPoints.RawPoints | crates/desyncd-desync/src/multi_stream_frag.rs:230-252 | sort is idle, dedup leaves exactly the closed form, retain removes nothing |
| SplitPoints.PointsIncrease | crates/desyncd-desync/src/multi_stream_frag.rs:216-253 | the points are strictly increasing in [1, s] and end at s |
| SplitPoints.SlicesEven | crates/desyncd-desync/src/multi_stream_frag.rs:238-245 | with room enough all slices up to s differ by at most one byte |
| SplitPlaces.CutsWhereSaid | crates/desyncd-desync/src/lib.rs:54-119 | on every detected hello, for every position and draw: both techniques cut at the payload offset the position names, kept away from the record's ends; where it names none one does not apply and the other cuts in the middle |
| SplitPlaces.EveryChoiceDrawn | crates/desyncd-desync/src/lib.rs:73-78 | every offset of a random range is chosen for some draw |
| SplitPlaces.SniOffsetCut | crates/desyncd-desync/src/lib.rs:64-72 | with the name in the first record the first output record ends exactly that many bytes behind the first byte of the name; not applicable if and only if this is outside the payload |
| RecordFrag.ApplyMultiStreamFrag | crates/desyncd-desync/src/multi_stream_frag.rs:95-189 | the technique is not applicable, or emits exactly the pieces of the first record's data at the split points |
| RecordFrag.EmitPieces | crates/desyncd-desync/src/multi_stream_frag.rs:160-178 | the emitting loop writes one record per slice, in order |
| RecordFrag.WriteTlsRecord | crates/desyncd-desync/src/multi_stream_frag.rs:257-263 | appends one encoded record |
| RecordFrag.PiecesCarryData | crates/desyncd-desync/src/multi_stream_frag.rs:150-189 | the pieces are non-empty, carry exactly the data, and are 5 bytes per record longer |
| RecordFrag.ApplyTlsRecordFrag | crates/desyncd-desync/src/tls_record_frag.rs:58-143 | the two-record technique emits the pieces at its one cut |
| RecordFrag.FragmentsTaken | crates/desyncd-desync/src/multi_stream_frag.rs:55-82 | a configured number between 2 and 8 is taken, the new setting before the old; 3 without either |
| RecordFrag.FragmentCount | crates/desyncd-desync/src/multi_stream_frag.rs:54-92 | the configured count always ends up between 2 and 8 |
| ServerView.HandshakeSni | crates/desyncd-packet/src/tls.rs:222-276 | the reported offset and length delimit exactly the bytes whose text is the reported SNI |
| ServerView.OffsetTrueIffFirstRecord | crates/desyncd-packet/src/tls.rs:222-226 | the reported offset is the wire position if and only if the byte lies in the first record |
| ServerView.ServerSeesFirstRecord | crates/desyncd-desync/src/multi_stream_frag.rs:150-189 | whatever the cuts, the output parses as the first record's data does, and is 5 bytes per record longer |
| ServerView.FragmentsParseTheSame | crates/desyncd-desync/src/multi_stream_frag.rs:150-189 | the output parses as the input did if and only if the message lies in the first record |
| ServerView.MultiStreamFragIsFaithful | crates/desyncd-desync/src/multi_stream_frag.rs:95-189 | applies to a detected hello if and only if the record has n bytes, and is then such an output |
| ServerView.TlsRecordFragIsFaithful | crates/desyncd-desync/src/tls_record_frag.rs:58-143 | the same for two records; it also needs the position to resolve |
| ServerView.TwoFragments | crates/desyncd-desync/src/tls_record_frag.rs:82-143 | the two techniques agree for n = 2 if and only if the position resolves or neither applies |
| ServerView.SniOnlyInLastRecord | crates/desyncd-desync/src/multi_stream_frag.rs:134-206 | cutting at the SNI, the last record starts with the first SNI byte, all earlier ones carry only what is in front of it; the number of records is exact |
| SniManip.HandshakeIgnores | crates/desyncd-packet/src/tls.rs:140-284 | overwriting exactly the SNI bytes changes nothing in the verdict but the SNI |
| SniManip.OverwriteParses | crates/desyncd-desync/src/sni_manip.rs:91-159 | any replacement of the same length parses to the replacement at the same offset |
| SniManip.CoinsDecide | crates/desyncd-desync/src/sni_manip.rs:104-119 | each letter is in the case its own coin says, every other byte stays |
| SniManip.ApplyMixedCase | crates/desyncd-desync/src/sni_manip.rs:91-130 | the coin loop and the copy give the specified outcome: not applicable, a panic, or the SNI overwritten with its mixed-case form |
| SniManip.PanicsExactly | crates/desyncd-desync/src/sni_manip.rs:91-130 | on every received hello with SNI the mode panics if and only if lossy decoding changes the length of the name that was sent |
| SniPanic.ReceivedHelloPanics | crates/desyncd-desync/src/sni_manip.rs:121 | there is such a hello: its SNI is the byte 0xFF |
| SniManip.MixedCaseKeepsName | crates/desyncd-desync/src/sni_manip.rs:91-130 | for every sequence of coins with which the mode does not panic, an SNI in the first record parses to the reported name up to ASCII case at the same place |
| SniManip.ApplyRemove | crates/desyncd-desync/src/sni_manip.rs:134-159 | overwrites the SNI bytes with dots |
| SniManip.RemoveOnlyMasks | crates/desyncd-desync/src/sni_manip.rs:134-159 | what remains is a hello whose SNI is that many dots |
| Padding.AddTlsPadding | crates/desyncd-desync/src/padding.rs:17-136 | the cursor, the insertion and the three in-place length updates give the planned buffer, or nothing when a length does not fit |
| Padding.PadIsZeros | crates/desyncd-desync/src/padding.rs:93-96 | the extension is type 21, its length and zeros |
| Padding.FindBlock | crates/desyncd-desync/src/padding.rs:28-79 | padding's own cursor finds the extension block where the parser's walk does |
| PaddingBytes.PaddingKeepsName | crates/desyncd-desync/src/padding.rs:17-136 | padding keeps the parse of every payload with a name whose extension block ends in the first record, whatever else the block and the payload hold, if and only if the record stays within the parser's limit; a longer one is not taken for TLS |
| PaddingCut.PaddingBeyondRecord | crates/desyncd-desync/src/padding.rs:17-136 | when the block ends behind the first record no name is left, unless the bytes behind the grown record read as a header: "no SNI" if and only if the message ends in the first record and exactly the block's length field is cut, else a wait for more, or no TLS above the limit |
| PaddingBytes.PaddingKeepsOneRecord | crates/desyncd-desync/src/padding.rs:17-136 | in particular for every payload that is one record, well-formed list or not |
| PaddingBytes.PaddingAndNoName | crates/desyncd-desync/src/padding.rs:83-136 | a hello without a name stays without if and only if what its extension walk leaves over and the padding hold none |
| PaddingBytes.CleanListIsHarmless | crates/desyncd-desync/src/padding.rs:83-136 | a list that ends with its last extension leaves nothing over that padding could complete |
| PaddingBytes.PaddingMakesName | crates/desyncd-desync/src/padding.rs:83-136 | a one-record hello without a name that has one after padding |
| PaddingProps.PaddedHello | crates/desyncd-desync/src/padding.rs:17-136 | on a printed hello, padding is printing the hello with one zero 0x0015 extension appended, and fails if and only if the record length overflows |
| PaddingProps.PaddedMeaning | crates/desyncd-desync/src/padding.rs:83-136 | that hello has the same SNI, offset and length |
| PaddingProps.PaddedHelloParses | crates/desyncd-desync/src/padding.rs:17-136 | a printed hello without SNI included, the padded wire form parses to that meaning if and only if the record stays within the parser's limit |
| Probe.BuildProbeClientHello | crates/desyncd-adapt/src/probe.rs:197-369 | the pushes build the specified buffer for every domain, each length behind its sixteen-bit cast |
| Probe.FixedByBytes | crates/desyncd-adapt/src/probe.rs:303-369 | the bytes in front of the extension block |
| Probe.OthersByBytes | crates/desyncd-adapt/src/probe.rs:215-300 | the bytes of the six extensions behind the name |
| Probe.ProbeIsOneRecord | crates/desyncd-adapt/src/probe.rs:197-369 | while the lengths fit that buffer is the printed form of the probe's hello in one record |
| Probe.ProbeFits | crates/desyncd-adapt/src/probe.rs:197-369 | every length field of the probe's hello fits, and the message is the domain plus 211 bytes |
| Probe.ProbeParses | crates/desyncd-adapt/src/probe.rs:197-369 | for every domain whose lengths fit and all random bytes it parses to the domain at offset 105 if and only if the record is within the parser's limit |
| ProbeLong.LongProbeMisread | crates/desyncd-adapt/src/probe.rs:322-369 | for every longer domain the parser judges only as many bytes as the cut length says, unless those behind them read as a record header; a name of the domain's length is reported only in that case and never from 65536 bytes on |
| ProbeLong.RandomReadsAsRecord | crates/desyncd-adapt/src/probe.rs:197-369 | a family of random bytes, session ids and domains above 65324 bytes with which the parser finds the whole domain |
| Utf8Chars.ValidExactly | crates/desyncd-desync/src/http_host.rs:84-91 | the byte strings taken for text are exactly the encodings of scalar values |
| Utf8Chars.BrokenIsLongestStart | crates/desyncd-packet/src/tls.rs:262-270 | one replacement character stands for the longest start of a character that is there, or for one byte |
| Utf8.LossyKeepsValid | crates/desyncd-packet/src/tls.rs:262-270 | lossy decoding leaves valid text alone |
| Reassembly.Client.Read | crates/desyncd-proxy/src/relay.rs:425-431 | a read moves a prefix of what is coming behind what is there |
| Reassembly.Client.ReassembleFirstMessage | crates/desyncd-proxy/src/relay.rs:422-456 | computes the specified first message, and what it returns and what is left unread make up the stream |
| Reassembly.Client.Loop | crates/desyncd-proxy/src/relay.rs:458-517 | the reassembly loop ends by the space left in the buffer and loses nothing |
| Reassembly.FirstChunkDecides | crates/desyncd-proxy/src/relay.rs:425-451 | a first chunk that is no TLS record or a whole hello is the message; it fails if and only if the first read does |
| Reassembly.EndsOnlyThen | crates/desyncd-proxy/src/relay.rs:463-517 | in every run the loop goes on exactly until a read delivers nothing, the buffer is full, or the parser no longer asks for more that fits |
| Reassembly.FirstMessageLossless | crates/desyncd-proxy/src/relay.rs:422-517 | in every run the first message is a prefix of the stream of at most 65536 bytes |
| Reassembly.ChunkingIndependence | crates/desyncd-proxy/src/relay.rs:422-517 | however the reads are chunked the whole hello is returned, and exactly the hello when nothing follows |
| Relay.Stream.ExecuteAction | crates/desyncd-proxy/src/action.rs:19-65 | the stream receives the action's wire form, or on a write error a prefix of it |
| Relay.WireOrder | crates/desyncd-proxy/src/action.rs:19-65 | every chunk and every fake goes out behind those in front of it in the list, the payload behind the last fake |
| Relay.Stream.WriteChunks | crates/desyncd-proxy/src/action.rs:38-49 | chunk by chunk the stream receives their concatenation |
| RelaySession.TryFallbackChain | crates/desyncd-proxy/src/relay.rs:328-404 | the first surviving attempt wins; at most one reconnect per fallback; it ends early only at a failed connect |
| RelaySession.Establish | crates/desyncd-proxy/src/relay.rs:90-182 | one link is kept; which one, its early bytes and whether the domain is learned are determined in both directions |
| RelaySession.GivenUpExactly | crates/desyncd-proxy/src/relay.rs:114-404 | the first connection is given up if and only if there are fallbacks, its read is a reset, an abort or an end of stream or expired after a pass-through, and a fallback gets through before one fails to connect; the first such fallback is kept |
| RelaySession.OnlyTheLinkWasRead | crates/desyncd-proxy/src/relay.rs:114-192 | of all connections tried only the kept one has yielded bytes, and those are the seed |
| RelaySession.PumpMoves | crates/desyncd-proxy/src/relay.rs:184-242 | the early bytes can be flushed, and then whatever is read on one side can be written to the other |
| RelaySession.StepLossless | crates/desyncd-proxy/src/relay.rs:184-242 | every scheduling step keeps both directions free of loss, repetition and reordering |
| RelaySession.RelayIntegrity | crates/desyncd-proxy/src/relay.rs:92-242 | over every environment and schedule: the client has a prefix of the one link's stream from its early bytes on, the link has the whole wire form of one action and then a prefix of the client's stream; what is read and not yet written is all that is missing |
| EndToEnd.TransparentRelay | crates/desyncd-proxy/src/relay.rs:58-255 | when the action sends the payload itself the upstream receives a prefix of the client's stream, for every chunking, reconnect and schedule |
| EndToEnd.OneRecordFaithful | crates/desyncd-desync/src/multi_stream_frag.rs:95-189 | on a payload that is one whole record the technique always applies and keeps the parse |
| EndToEnd.OneRecordRead | crates/desyncd-proxy/src/relay.rs:422-517 | a hello in one record is the first message, whole, in whatever chunks it comes |
| EndToEnd.OneRecordFaithfulInTwo | crates/desyncd-desync/src/tls_record_frag.rs:58-143 | the same for the two-record technique wherever its position resolves |
| EndToEnd.FragmentedHelloArrives | crates/desyncd-proxy/src/relay.rs:58-255 | a first message with SNI that either technique fragments, on the first connection or a fallback's, arrives as records with the data of its first record, followed by a prefix of what follows the first message; this is the client's stream if and only if the first message is one record, and then the records parse to the hello the client sent |
| Checksum.FoldCarries | crates/desyncd-nfq/src/raw_packet.rs:219-222 | the folding loop ends and gives the folded sum |
| Checksum.FoldIsResidue | crates/desyncd-nfq/src/raw_packet.rs:219-222 | folding is the residue modulo 65535, with 65535 for a non-zero multiple |
| Checksum.ComplementCloses | crates/desyncd-nfq/src/raw_packet.rs:219-222 | adding the complement of a sum folds to the all-ones word |
| Checksum.SumFitsU32 | crates/desyncd-nfq/src/raw_packet.rs:210-218 | up to 65535 bytes the 32-bit accumulator does not overflow |
| PacketSums.SumIsValue | crates/desyncd-nfq/src/raw_packet.rs:208-222 | the folded sum of any bytes is the residue modulo 65535 of the number they are, zero-padded |
| PacketSums.VerifiesByBytes | crates/desyncd-nfq/src/raw_packet.rs:208-267 | what the receiver checks is the sum over the header and over the pseudo-header's bytes with the segment |
| PacketFormat.TakenForTcp | crates/desyncd-nfq/src/raw_packet.rs:46-114 | which packets are taken for TCP over IPv4, by their bytes |
| PacketFormat.ParserInvertsPrinter | crates/desyncd-nfq/src/raw_packet.rs:46-114 | printing any IPv4 and TCP header with any options and parsing it gives exactly its endpoints, numbers, header lengths and payload |
| RawPacket.RebuildPacket | crates/desyncd-nfq/src/raw_packet.rs:171-206 | the writes into the packet in place give the specified packet |
| RawPacket.ComputeTcpChecksum | crates/desyncd-nfq/src/raw_packet.rs:232-267 | pseudo-header and segment loop give the complement of their sum, 0 for a truncated packet |
| RawPacket.RebuiltVerifies | crates/desyncd-nfq/src/raw_packet.rs:46-206 | both checksums verify at the receiver, re-parsing gives the same endpoints, numbers and header lengths with exactly the new payload, every header byte but total length and checksums is the original's, options included, the total length is right exactly up to 65535 bytes; when rebuilding fails |
| ConnTracking.ConnTracker.GetOrCreate | crates/desyncd-nfq/src/connstate.rs:67-82 | the new table: unchanged, one fresh entry, or one oldest entry gone and one fresh; a fresh entry has the two clock readings of its insertion |
| ConnTracking.ConnTracker.EvictOldest | crates/desyncd-nfq/src/connstate.rs:113-122 | exactly one entry with the least date goes |
| ConnTracking.ConnTracker.MarkApplied | crates/desyncd-nfq/src/connstate.rs:97-104 | records sequence number, action and date of an existing entry, nothing else |
| ConnTracking.ConnTracker.CleanupExpired | crates/desyncd-nfq/src/connstate.rs:107-110 | keeps exactly the entries younger than the lifetime |
| ConnTracking.LookupKeepsCapacity | crates/desyncd-nfq/src/connstate.rs:67-122 | a lookup keeps the table within its capacity |
| ConnTracking.LookupFrame | crates/desyncd-nfq/src/connstate.rs:67-122 | no other connection is disturbed, except one oldest entry of a full table |
| Quic.HeaderRecognised | crates/desyncd-packet/src/quic.rs:24-79 | a long header is recognised, with its ids, if and only if the two top bits are set, the version is known and the ids have at most 20 bytes; the packet type does not matter |
| Detection.DetectedExactly | crates/desyncd-packet/src/lib.rs:17-34 | a payload is detected as what accepts it, with that parser's result, and is unknown otherwise |
| Detection.FormatsExclude | crates/desyncd-packet/src/lib.rs:17-34 | no payload is recognised as two protocols, so the order of the attempts does not matter |
| QuicDrop.DroppedExactly | crates/desyncd-nfq/src/lib.rs:127-138 | a packet is dropped if and only if that is configured and its bytes are UDP to port 443 with a long header of version 1 or 2 and ids inside |
| QuicDrop.UdpPrinted | crates/desyncd-nfq/src/raw_packet.rs:123-165 | printing a UDP packet with any IP options and parsing it gives its endpoints and payload |
| Nfq.SelectedByRule | crates/desyncd-nfq/src/lib.rs:168-169 | the action for a packet is the answer of the first eligible technique in the strategy of the winning rule for its domain |
| Nfq.ProcessPacket | crates/desyncd-nfq/src/lib.rs:116-201 | QUIC test, detection and selection included, verdict and new table are a step of the transition relation |
| Nfq.VerdictMeaning | crates/desyncd-nfq/src/lib.rs:116-201 | in every reachable state a packet is rewritten if and only if it opens a connection and a replacement is selected; the rewritten packet verifies, has the original's header bytes and carries exactly that payload; all other packets leave the table alone |
| Nfq.StepKeeps | crates/desyncd-nfq/src/lib.rs:116-201 | every step keeps the capacity, and that an entry is marked applied and has its first sequence number |
| NfqRuns.RunNfq | crates/desyncd-nfq/src/lib.rs:67-113 | the packet loop produces a run with one verdict per packet, in order, each for the action the selector chose, and a clean-up behind every thousandth packet and no other |
| NfqRuns.TablesBounded | crates/desyncd-nfq/src/connstate.rs:52-82 | in every run every table is settled and within its capacity, a capacity of zero being taken for one |
| NfqRuns.EntryFrozen | crates/desyncd-nfq/src/lib.rs:116-201 | an entry stays as written until it expires or is an oldest one of a full table |
| NfqRuns.AtMostOnce | crates/desyncd-nfq/src/lib.rs:67-201 | between two rewrites of one connection its entry has left the table, for one of those two reasons |
| NfqRuns.LifetimeFromOpening | crates/desyncd-nfq/src/connstate.rs:97-110 | whatever traffic there was, a clean-up drops an entry if and only if the lifetime has passed since it was opened |
| NfqStream.StreamKept | crates/desyncd-nfq/src/lib.rs:67-201 | over a run with a sender in sequence the receiver reassembles the sender's stream with the first payload replaced if and only if the replacement is as long or nothing follows it |
| NfqStream.Transparent | crates/desyncd-nfq/src/lib.rs:176-187 | the receiver gets every byte of a stream whose segments are in sequence, across the wrap of the numbers |
| NfqStream.FragmentsGrow | crates/desyncd-nfq/src/lib.rs:173-187 | fragmenting a hello that fills its packet is longer by five bytes per cut |
| Capacity.TableWithinCapacity | crates/desyncd-nfq/src/connstate.rs:67-122 | the table keeps within its capacity in every run if and only if the capacity is at least one |
| Capacity.CacheWithinCap | crates/desyncd-dns/src/lib.rs:474-491 | the same for the cache and its cap |
| DnsMessage.SkipDnsName | crates/desyncd-dns/src/lib.rs:348-378 | the loop ends and gives the position after the name, or the error |
| DnsMessage.ParseDnsResponse | crates/desyncd-dns/src/lib.rs:291-345 | the question and answer loops give the specified addresses or error |
| DnsMessage.TruncationGivesPrefix | crates/desyncd-dns/src/lib.rs:291-345 | when a truncated response parses it gives the first addresses of the whole one |
| DnsCut.CutInAnswer | crates/desyncd-dns/src/lib.rs:313-345 | a response cut in its answers gives exactly the addresses of the whole records in front of the cut, or an error when a name is cut |
| DnsCut.CutInQuestion | crates/desyncd-dns/src/lib.rs:306-345 | a response cut in its questions is an error, unless only the type or class of the last one is cut |
| DnsMessage.ResponseRoundTrip | crates/desyncd-dns/src/lib.rs:291-378 | parsing a printed response gives exactly its four-byte A records in order, or the error when the response code is not zero |
| DnsQuery.BuildDnsQuery | crates/desyncd-dns/src/lib.rs:264-288 | the label loop builds the specified query |
| DnsQuery.SplitJoin | crates/desyncd-dns/src/lib.rs:277 | splitting at dots loses nothing |
| DnsQuery.QueryAsksForDomain | crates/desyncd-dns/src/lib.rs:264-288 | one question of type 1 and class 1 with recursion asked for; the name ends at the query type if and only if no label is empty; a server reads back the domain's labels if and only if each has 1 to 63 bytes |
| DnsCaching.PreferredMeaning | crates/desyncd-dns/src/lib.rs:465-470 | the first IPv4 address, or else the first of all |
| DnsCaching.DnsCache.Begin | crates/desyncd-dns/src/lib.rs:448-460 | a hit is an unexpired entry of the key |
| DnsCaching.DnsCache.Finish | crates/desyncd-dns/src/lib.rs:464-495 | the choice from the answer, and the new cache with at most one soonest-expiring entry gone |
| DnsCaching.DnsCache.EvictSoonest | crates/desyncd-dns/src/lib.rs:475-484 | exactly one entry soonest to expire goes |
| DnsCaching.Serve | crates/desyncd-dns/src/lib.rs:448-495 | any interleaving of questions and answers, carried out on the cache, is one of the runs the theorems are about |
| DnsCaching.SizeBounded | crates/desyncd-dns/src/lib.rs:474-491 | in every interleaving the size stays within the cap, a cap of zero being taken for one |
| DnsCaching.Provenance | crates/desyncd-dns/src/lib.rs:485-491 | every entry was stored by the last store for its key and expires the TTL after it |
| DnsCaching.HitsAreFresh | crates/desyncd-dns/src/lib.rs:448-495 | in every interleaving a hit is the preferred choice from the last answer to a question about that domain and port, with the requested port, within the TTL |
| DnsCaching.FreshEntriesHit | crates/desyncd-dns/src/lib.rs:448-460 | the other half: until it is evicted or stored anew, an entry answers every question for its key within the TTL, and none after it |
| DnsCaching.LeavesOnlyFull | crates/desyncd-dns/src/lib.rs:474-491 | an entry changes only by a store for its key and leaves only as one soonest to expire of a full cache, alone |
| DnsCaching.MissesAnswerTheirOwn | crates/desyncd-dns/src/lib.rs:462-495 | a miss returns the preferred choice of its own answer, and fails if and only if there is none |
| HttpParser.ParseHttpRequest | crates/desyncd-packet/src/http.rs:16-34 | method and Host field are the specified ones, the host without white space of any kind around it |
| HttpParser.FindHostHeader | crates/desyncd-packet/src/http.rs:40-93 | the nested scanning loops find the first Host header before the end of the headers |
| HttpWords.RequestByWord | crates/desyncd-packet/src/http.rs:8-34 | a payload is a request if and only if it starts with one of eight words and a space, and that word is the method |
| HttpWords.RequestWithHost | crates/desyncd-packet/src/http.rs:40-93 | the host is the value of the first Host line before an empty line |
| HttpWords.HostWhereFound | crates/desyncd-packet/src/http.rs:54-81 | the offset is where the value starts: behind the name, the colon and spaces of a header line that ends behind the value |
| HttpWords.WhiteInFront | crates/desyncd-packet/src/http.rs:78 | trimming takes exactly the characters with the property White_Space in front |
| HttpWords.WhiteAtEnd | crates/desyncd-packet/src/http.rs:78 | and at the end |
| HttpWords.NewHostLines | crates/desyncd-desync/src/http_host.rs:118-144 | the text each mode writes for the Host line |
| HttpWords.VariantsAreWords | crates/desyncd-desync/src/http_host.rs:109-116 | the six spellings of the name, and what is searched for |
| HttpLines.LinesJoin | crates/desyncd-desync/src/http_host.rs:167 | splitting at line ends loses nothing |
| HttpLines.HostOfRequest | crates/desyncd-packet/src/http.rs:40-93 | what the byte scanner finds in valid text is the host of the list of lines |
| HttpHost.Apply | crates/desyncd-desync/src/http_host.rs:76-160 | not applicable without host or valid text; otherwise the payload with its Host line written anew, or with the name replaced at the offset found in the payload's lower case, a panic when that is no character boundary |
| HttpHost.ReplaceHostLine | crates/desyncd-desync/src/http_host.rs:163-187 | the loop with its flag replaces the first Host line |
| HttpHostProps.OnlyHostLineChanges | crates/desyncd-desync/src/http_host.rs:163-187 | every other line stays |
| HttpHostProps.HostSurvivesTrim | crates/desyncd-desync/src/http_host.rs:176 | trimming the line and reading it back gives the host if and only if the host is not empty or the line has nothing else |
| HttpMeaning.RewrittenRequest | crates/desyncd-desync/src/http_host.rs:118-187 | every rewritten request, the text being valid UTF-8, has the same method; the host is the same if and only if the above holds; line wrapping always hides it |
| HttpMeaning.CleanRequestKeepsHost | crates/desyncd-desync/src/http_host.rs:118-144 | with carriage returns only in line ends the extra-space, tab and duplicate modes keep method and host |
| HttpCase.MixedCaseParsesTheSame | crates/desyncd-desync/src/http_host.rs:109-160 | where the two offsets agree, only the case of four letters changes, and the request parses to the same method, host and position |
| HttpLower.SomeLower | crates/desyncd-desync/src/http_host.rs:149 | every valid text has a lower case in the relation |
| HttpLower.NameInLower | crates/desyncd-desync/src/http_host.rs:149-151 | the lower-case text has the name if and only if the text has it in some case, at the end of the lower case of what is in front of it |
| HttpLower.RenamesOnlyTheName | crates/desyncd-desync/src/http_host.rs:147-160 | the name and nothing else is replaced by whatever is drawn if and only if the text in front of the name takes as many bytes in lower case; without a name the text stays |
| HttpLower.AsciiAligned | crates/desyncd-desync/src/http_host.rs:149-151 | with only ASCII in front of the name the two offsets agree |
| HttpLower.ReplacesWhatIsThere | crates/desyncd-desync/src/http_host.rs:149-160 | at whatever offset: only case changes if and only if the text has the name there, and slicing fails if and only if the offset is no character boundary |
| HttpPanic.ReceivedRequestPanics | crates/desyncd-desync/src/http_host.rs:149-154 | a request with a host, in UTF-8 with two Kelvin signs, whose lower case makes the mode panic |
| Selection.ApplyStrategy | crates/desyncd-strategy/src/lib.rs:73-104 | the loop gives the chain's specified outcome |
| Selection.FirstAnswerDecides | crates/desyncd-strategy/src/lib.rs:73-104 | the first eligible technique with an answer decides, without one the payload passes |
| Selection.WildcardMeaning | crates/desyncd-strategy/src/lib.rs:253-269 | a wildcard matches exactly what ends in a dot and the suffix up to case, never the suffix itself |
| Selection.ExactMeaning | crates/desyncd-strategy/src/lib.rs:253-269 | a pattern without a wildcard matches what differs from it at most in the case of letters; a star matches everything |
| Selection.DomainMeaning | crates/desyncd-strategy/src/lib.rs:236-246 | the domain is the SNI, or the host in front of its port |
| Selection.EligibleMeaning | crates/desyncd-strategy/src/lib.rs:73-90 | which techniques run, by kind of payload |
| Selection.LastOfName | crates/desyncd-strategy/src/lib.rs:141-144 | of the strategies with one name the last one counts |
| Selection.SortIsStable | crates/desyncd-strategy/src/lib.rs:139-140 | the sorted rules descend in priority and keep their order within one priority |
| Selection.FirstMatchWins | crates/desyncd-strategy/src/lib.rs:173-186 | in any stable sort the first match is the configured rule of highest priority, earliest on ties |
| Selection.SelectionRefinesPriority | crates/desyncd-strategy/src/lib.rs:134-186 | the winning rule's strategy is selected; the default only when no rule matches |
| Selection.SomeRuleWins | crates/desyncd-strategy/src/lib.rs:173-186 | when a rule matches exactly one wins |
| Selection.Selector.Apply | crates/desyncd-strategy/src/lib.rs:195-233 | the action of the selected strategy, with the learned hot start |
| Selection.Selector.Learn | crates/desyncd-strategy/src/lib.rs:33-38 | the set gains exactly the lower-cased domain |
| Selection.HotStart | crates/desyncd-strategy/src/lib.rs:195-233 | once a domain is learned, in any case, whatever would pass through gets the first fallback's result |

## Left out

- Sockets, TLS connections, timers, iptables, SQLite, the graphical interface and the installers: plumbing; their outcomes are inputs of the model.
- `disorder`: it writes the halves of the payload in swapped order on one stream, so there is no preserved stream to speak of.
- `combo::apply_chain`: a later fragmenter drops the records after the first, and a replacement in front of an injection is discarded.
- `fake_packet`: random filler without meaning. Morphing, probe search and scores: a finite table and network orchestration.
- The store's confidence decay and dates, SOCKS and HTTP proxy handshakes, configuration merging: branch by branch, easy members.
- Retransmits of a replaced payload: the code accepts the original, so nothing is claimed for them.
- Jitter on split positions and on the pauses between segments; the techniques that only split or inject (`SplitSendsPayload` covers what a split sends).
- Telemetry counters, log output and the pauses between writes.
- ProbeLong.LongProbeMisread: when the bytes behind the cut length read as a further record header it says only which lengths a name can have; `ProbeLong.RandomReadsAsRecord` is a family of such probes, not all of them.
- PaddingCut.PaddingBeyondRecord: says nothing when the bytes behind the grown first record read as a record header, as they may inside a second record.
- PaddingProps.PaddedHello: is about printed hellos; `PaddingBytes.PaddingKeepsName` covers payloads of any content.
- SniManip.MixedCaseKeepsName: needs the SNI inside the first record; otherwise the reported offset is not where the name is (`ServerView.OffsetTrueIffFirstRecord`).
- Checksum.AddWords: the accumulator is unbounded; `Checksum.SumFitsU32` shows when the 32-bit one agrees.
- Nfq.ProcessPacket: what one technique makes of a payload is a function argument, as in `Selection.ApplyStrategy`.
- NfqStream.StreamKept: asks for a sender that emits each byte once and in order, with less than half of the sequence space outstanding behind a gap.
- DnsCaching.DnsCache.Finish: each resolution is modelled as the two stretches between which its lock is free; fairness and cancellation are not modelled.
- HttpHost.Apply: the Unicode table of `to_lowercase` is not part of the model beyond what `Utf8.LowerOf` says of it; the lower-case text is an input in that relation to the payload.
- Selection.ApplyStrategy: what one technique makes of a payload is a function argument; a poisoned lock is not modelled.
- Reassembly.ChunkingIndependence: assumes reads that deliver, as a deadline or a closed connection may cut any stream short; `Reassembly.FirstMessageLossless` covers every run.
