# Verified model of dpkt_ng's parsers, printers and checksums

dpkt_ng turns packet bytes into objects and objects back into bytes. This Dafny project models the parts of it in
which the two directions are hard to keep in step, and proves that they agree. `dafny verify dfyconfig.toml` verifies
all of it.

| file | subject |
|---|---|
| `Bytes.dfy` | bytes, errors, big- and little-endian integers, Python slices |
| `DnsName.dfy`, `DnsMessage.dfy` | DNS name compression (section 4.1.4 of RFC 1035) and whole messages |
| `DnsReprint.dfy`, `DnsIdentity.dfy` | DNS messages that are unpacked and packed again |
| `Crc32c.dfy`, `Sctp.dfy` | table-driven CRC-32C against the bitwise definition (section 2 of RFC 3309); SCTP packets |
| `InetChecksum.dfy`, `Ip.dfy` | the Internet checksum (sections 1 and 2 of RFC 1071); IPv4 packets |
| `Lines.dfy`, `Ftp.dfy`, `Imap.dfy`, `Pop3.dfy` | incremental parsers of line-based protocols |
| `Http2.dfy` | HTTP/2 framing (section 4.1 of RFC 7540) |
| `Varint.dfy`, `Quic.dfy`, `Http3.dfy` | QUIC integers (section 16 of RFC 9000), QUIC frame lists, HTTP/3 frames (section 7.1 of RFC 9114) |
| `Pcapng.dfy` | pcapng blocks, options, writer and reader |
| `Sections.dfy`, `Bgp.dfy`, `BgpExact.dfy` | nested length-delimited sections; BGP UPDATE (section 4.3 of RFC 4271) |
| `BitFields.dfy` | the generated bit-field accessors |

Code that changes state step by step is modelled as classes and loops, each proved against a specification function;
the laws are lemmas about those functions.

## Where the code does not do what one would expect

The model follows the code. For each of these a lemma says exactly when the expected law holds; others give inputs on
which it fails.

- A DNS label dictionary remembers offsets below 0xc000, but a back pointer keeps only fourteen bits. A suffix reused
  from offset 0x4000 or later decodes to something else (`DnsName.PointerLimitIsExact`, `DnsMessage.FarMessage`).
- `pack_name` writes labels of 64 to 255 bytes, empty inner labels and names above 255 bytes without an error, but they
  do not read back (`DnsName.RecoversExact`).
- An unpacked DNS record emits its rdata bytes unchanged, while owner names are compressed anew: a back pointer in the
  rdata can go stale (`DnsReprint.ReprintExact`, `DnsReprint.StalePointer`). A message comes back byte for byte exactly
  when its names stand as `pack_name` writes them (`DnsIdentity.IdentityExact`). An empty NULL record unpacks but
  cannot be packed (`DnsReprint.ReceivedPacks`).
- Unpacking leaves the preference of an MX record as a tuple of one number, which differs from the number that was
  packed and cannot be packed again (`DnsMessage.MailNotRepacked`).
- The Internet checksum folds twice, which is enough for sums below 2^32 but not for all (`InetChecksum.CksumExact`,
  `InetChecksum.ThirdFold`).
- The POP3 parser flushes a pending status line at the end of a feed, so a cut between a status line and its data lines
  changes the outcome (`Pop3.SplitExact`, `Pop3.CutBehindStatus`). A response text that begins with a space behind
  `+OK` loses it (`Pop3.ResponseRoundTrip`).
- An IMAP line that announces a literal of zero bytes is never dispatched (`Imap.LiteralExact`,
  `Imap.EmptyLiteralLost`, `Imap.EmptyLiteralExample`).
- A complete HTTP/2 PRIORITY frame that is too short counts as missing data, so the frame loop waits for ever
  (`Http2.MissingDataExact`, `Http2.ShortPriorityStalls`). A pad length of zero loses the payload (`Http2.UnpadExact`).
  The promised stream of a padded PUSH_PROMISE is read one byte early (`Http2.PromisedExact`, `Http2.PromisedExample`).
- The size of a QUIC frame is recomputed from shortest encodings, so a longer encoding puts the frame list out of step
  (`Quic.FrameSizeExact`, `Quic.ListGoesOn`, `Quic.OutOfStep`). A STREAM frame of declared length zero takes the rest
  of the buffer (`Quic.EmptyStreamExact`).
- `encode_varint` or-s the tag bits into values of 2^62 and more (`Varint.RoundTripExact`).
- pcapng option lists are cut at the first `opt_endofopt`, while only the last option is looked at when they are written
  (`Pcapng.OptionsRoundTrip`).
- Announced BGP routes are taken for Add-Path routes whenever nine divides the bytes left. Plain routes of such a
  length are misread (`Bgp.GuessExact`, `Bgp.WrongGuess`). Which bodies come back with their bytes and their length all
  the same is `BgpExact.UpdateRoundTrip`.
- A BGP route that is cut short counts with its declared length and is filled up with zeros, so an attribute holding
  one is reproduced only where zeros follow (`BgpExact.AttributeSharp`, `BgpExact.ZeroFills`, `Bgp.CutAttribute`). Cut
  generic routes and attachment points count what is there and are reproduced (`BgpExact.UnreachReproduced`,
  `BgpExact.ReachReproduced`).
- Bit-field setters accept negative values and leave a negative placeholder (`BitFields.SetInRange`).

## How the model reads the source

- Python exceptions are `Result` values. `struct.error`, `IndexError` and the errors of the library are told apart only
  where a caller does: missing data ends the HTTP/2 loop, any other error is raised.
- Bytes are the integers 0 to 255, except in the CRC modules, where bytes are `bv8` and states `bv32`. The bit
  operators of the bit-field accessors are defined on unbounded integers as Python defines them.
- A DNS pointer word is `0xc000 | ptr`; for every remembered target this is 0xc000 plus the low fourteen bits.
- A DNS record holds either the fields of a name-bearing type, with empty `rdata`, or bytes that are emitted as they
  are. The MX preference is a number or, after unpacking, a tuple of one number.
- FTP, IMAP and POP3 commands and responses are kept as the raw bytes their objects are built from. POP3 responses are
  parsed and printed separately.
- IPv4 transport segments are byte strings around a checksum field at an even offset.
- pcapng files are byte sequences, and timestamps are integer ticks. The section header's magic is the constant of its
  byte order.

## Model

| member | source | states |
|---|---|---|
| DnsName.SplitJoin | dpkt/dns.py:67-73 | splitting a name at its dots and joining the labels gives the name back, and no label holds a dot |
| DnsName.KeyIsJoin | dpkt/dns.py:74-76 | the dictionary key of a suffix, joined with the root label and upper-cased, is every label upper-cased and followed by a dot |
| DnsName.KeyInjective | dpkt/dns.py:76-77 | two dot-free suffixes share a dictionary key only if they are the same labels up to ASCII case |
| DnsName.PackFrame | dpkt/dns.py:75-87 | packing a name forgets no dictionary entry, changes none, and adds no key longer than the name, so a name cannot match its own suffixes |
| DnsName.PackEntry | dpkt/dns.py:75-87 | after packing a name every entry for a suffix of it points at a written position that decodes to that suffix, also while earlier labels of the same name are still the only bytes written |
| DnsName.PackNameInv | dpkt/dns.py:67-88 | the invariant of the shared dictionary (each entry decodes to its key at its offset) survives packing any valid name |
| DnsName.PackDecodes | dpkt/dns.py:75-88 | the labels just packed, a back pointer included, decode at their offset to the same key and end where the bytes end; every pointer leads strictly before the name |
| DnsName.PackNameRecovers | dpkt/dns.py:67-122 | in every reachable dictionary and with anything written later, unpack_name at the packed offset returns the same labels up to ASCII case and the offset just behind the packed bytes |
| DnsName.RecoversExact | dpkt/dns.py:67-122 | the first name of a message is packed and reads back if and only if its labels have 1 to 63 bytes and it fits 255: longer labels and names and empty inner labels are packed without an error but lost |
| DnsName.FarPointer | dpkt/dns.py:81-85 | for every target from 0x4000 up to the store limit: a packing state in which the second copy of a name reads back as the root, because only fourteen bits of the target survive |
| DnsName.PointerLimitIsExact | dpkt/dns.py:81-104 | names that reuse target t are recovered in all messages if and only if t is below 0x4000 |
| DnsName.TargetWritten | dpkt/dns.py:77-86 | the target of a packed back pointer lies inside the message that preceded the name |
| DnsName.WireBound | dpkt/dns.py:74-87 | a packed name is at most two bytes longer than its labels with their length bytes |
| DnsName.UnpackNameBounds | dpkt/dns.py:91-122 | on every buffer and offset a decoded name has at most 254 bytes and its end offset lies behind the start and inside the buffer |
| DnsName.UnpackExtend | dpkt/dns.py:91-122 | bytes written later never change how an earlier name decodes |
| DnsName.UnpackRelax | dpkt/dns.py:96-116 | a successful decoding does not depend on the start it may not point beyond, nor on a length budget that still suffices |
| DnsName.Packer.Pack | dpkt/dns.py:67-88 | the loop over labels, growing the buffer and the shared dictionary, yields the bytes and the dictionary of the specification, or the error of a label above 255 bytes |
| DnsName.Unpack | dpkt/dns.py:91-122 | the loop with its four offsets equals the recursive decoding and terminates on every buffer with measure (start of the current run, bytes left) |
| DnsMessage.RDataTrips | dpkt/dns.py:272-340 | name-bearing record data packed at the end of a message is read back from the finished message, for NS, CNAME, PTR, MX, SRV, SOA and verbatim data, and keeps the dictionary invariant; an MX preference comes back as the same number, wrapped |
| DnsMessage.MailNotRepacked | dpkt/dns.py:290-323 | the preference of every unpacked MX record is a tuple, and packing its fields fails |
| DnsMessage.QTrips | dpkt/dns.py:342-352 | a question is read back from the finished message and the next offset is where the next item starts |
| DnsMessage.RRTrips | dpkt/dns.py:354-370 | a record is read back from the finished message and the next offset is where the next item starts, which fixes the constants 10, 2 and 6 |
| DnsMessage.RRsTrip | dpkt/dns.py:354-386 | the same for every section of records sharing one dictionary |
| DnsMessage.MessageRoundTrip | dpkt/dns.py:372-403 | every valid message whose back pointers all have targets below 0x4000 survives bytes() then unpack up to the case of names, and the final dictionary describes the finished buffer |
| DnsMessage.PackMessageOk | dpkt/dns.py:392-403 | bytes() fails for no valid message whose counts and data fit their sixteen-bit fields and that holds no empty NULL record |
| DnsMessage.ShortMessageRoundTrip | dpkt/dns.py:372-403 | every valid message of at most 16384 packed bytes survives bytes() then unpack |
| DnsMessage.FarMessage | dpkt/dns.py:81-403 | a message that bytes() accepts, of a long NULL record and two records named "a", unpacks with the last record nameless, for every length at which the name stands behind 0x4000 and its cut pointer leads into the zeros of the NULL record |
| DnsReprint.ReadIsUnpack | dpkt/dns.py:360-386 | keeping the bytes of every rdata beside its fields, unpack still gives the same fields, errors included |
| DnsReprint.RecordExact | dpkt/dns.py:272-370 | an unpacked record packed again always comes back with its owner, class, time to live and extent, and with its rdata if and only if it has no rdata bytes, so that its fields are packed, or these bytes read the same at their new place |
| DnsReprint.ReceivedPacks | dpkt/dns.py:272-403 | a received message with valid names can be packed again if and only if it holds no NULL record without data |
| DnsReprint.ReceivedNear | dpkt/dns.py:81-104 | every back pointer of a received message packed again into at most 16384 bytes is near |
| DnsReprint.ReprintExact | dpkt/dns.py:272-403 | every received message with valid names and no empty NULL record is packed again, and if its new pointers are near it then unpacks to the same message if and only if the kept rdata of each record still reads the same where it now stands |
| DnsReprint.PlainMoves | dpkt/dns.py:91-122 | a name without back pointers reads the same wherever its bytes stand |
| DnsReprint.DataMoves | dpkt/dns.py:306-340 | record data whose names are spelled out reads the same wherever it stands |
| DnsReprint.SpelledSurvives | dpkt/dns.py:272-403 | such a message whose rdata names are all spelled out survives bytes() with near pointers and unpack, however its owner names were compressed |
| DnsReprint.StalePointer | dpkt/dns.py:272-403 | a received message of three NS records that does not: an owner name grows, and the kept pointer then leads one byte too low |
| DnsIdentity.WireEnds | dpkt/dns.py:67-122 | bytes that begin with the packed form of the name they decode to end with it, whatever dictionary packed it |
| DnsIdentity.RecordStep | dpkt/dns.py:354-370 | a record is packed again to the bytes it came from if and only if its owner stands as pack_name writes it, its rdata is complete, and that rdata is what pack_rdata emits |
| DnsIdentity.IdentityExact | dpkt/dns.py:372-403 | for every message that unpacks, bytes() gives back the very bytes that arrived if and only if each name that is compressed anew stands as pack_name writes it there, no rdata is cut short, and nothing follows the last record |
| DnsMessage.PackData | dpkt/dns.py:272-304 | pack_rdata with the shared dictionary, against its specification |
| DnsMessage.PackRecord | dpkt/dns.py:354-358 | pack_rr against its specification: buffer and dictionary |
| DnsMessage.PackQuestions | dpkt/dns.py:397-398 | the question loop against its specification |
| DnsMessage.PackSection | dpkt/dns.py:399-401 | the record loop against its specification |
| DnsMessage.ToBytes | dpkt/dns.py:392-403 | bytes() threads one buffer and one dictionary through all sections exactly as specified |
| DnsMessage.UnpackSection | dpkt/dns.py:380-386 | the record loop of unpack against its specification |
| DnsMessage.UnpackQuestions | dpkt/dns.py:377-379 | the question loop of unpack against its specification |
| DnsMessage.FromBytes | dpkt/dns.py:372-386 | unpack threads one offset through questions and three record sections as specified, errors included |
| Crc32c.TableIsBitwise | dpkt/crc32c.py:10-63 | each of the 256 table constants is eight steps of the bit-at-a-time CRC with polynomial 0x82F63B78 on its index |
| Crc32c.TableStep | dpkt/crc32c.py:66-69 | one table step is eight bit steps, for every 32-bit state |
| Crc32c.FeedByteIsByte | dpkt/crc32c.py:68-69 | mixing a whole byte into the state and then stepping equals feeding its bits one at a time, lowest first |
| Crc32c.Add | dpkt/crc32c.py:66-70 | the table-driven loop computes the bit-at-a-time remainder for every start state and buffer |
| Crc32c.RemainderConcat | dpkt/crc32c.py:66-70 | adding pieces one after the other equals adding their concatenation |
| Crc32c.RemainderInjective | dpkt/crc32c.py:66-70 | different states stay different over every buffer |
| Crc32c.DoneInjective | dpkt/crc32c.py:73-80 | complement and byte swap lose nothing |
| Crc32c.Cksum | dpkt/crc32c.py:83-85 | cksum is the finished remainder from the all-ones state |
| Crc32c.FourBytesInjective | dpkt/crc32c.py:66-70 | from one state, four message bytes reach a state that no other four bytes reach |
| Crc32c.BurstDetected | dpkt/crc32c.py:66-85 | two buffers of equal length that differ only inside some window of four consecutive bytes have different checksums |
| Crc32c.UndoBits | dpkt/crc32c.py:66-70 | if n bit steps leave the n highest bits of the state clear, the n lowest were clear before |
| Crc32c.BitBurstDetected | dpkt/crc32c.py:66-85 | two buffers of equal length that differ only inside 32 consecutive bits, wherever these start in a byte, have different checksums |
| Sctp.Packet.ToBytes | dpkt/sctp.py:63-70 | a zero checksum field is filled with the CRC of the whole packet with that field zero, computed over pieces; any other value is left; the result then verifies |
| Sctp.FreshVerifies | dpkt/sctp.py:63-70 | a packet that carries the CRC of itself with a zero field is accepted by a receiver that recomputes it |
| Sctp.CorruptionDetected | dpkt/sctp.py:63-70 | a packet that verifies no longer does after any change within 32 consecutive bits outside the checksum field, or any change of that field alone |
| Sctp.ChunksRoundTrip | dpkt/sctp.py:48-98 | every list of well-formed chunks, padded DATA chunks included, is recovered from its bytes |
| Sctp.UnpackChunks | dpkt/sctp.py:48-58 | the chunk loop against its specification, stopping at a chunk of declared length zero |
| InetChecksum.ByteOrder | dpkt/dpkt.py:373-380 | summing little-endian words instead of big-endian ones multiplies the sum by 256 modulo 65535, odd lengths included |
| InetChecksum.TwoFoldsExact | dpkt/dpkt.py:383-386 | the two folds reach the end-around-carry result if and only if a stated condition on the carried sum holds |
| InetChecksum.SmallSumsSuffice | dpkt/dpkt.py:383-386 | every accumulated sum below 2^32 meets that condition |
| InetChecksum.CksumExact | dpkt/dpkt.py:373-391 | in_cksum equals the checksum of section 1 of RFC 1071 if and only if two folds suffice for its little-endian sum |
| InetChecksum.CksumIsReference | dpkt/dpkt.py:389-391 | it equals it for every buffer of at most 131072 bytes |
| InetChecksum.ThirdFold | dpkt/dpkt.py:383-391 | a sum, and a buffer of 65538 words of ones and a one with that sum, for which two folds are not enough and in_cksum differs from RFC 1071 |
| InetChecksum.SumConcat | dpkt/dpkt.py:373-380 | the sum of a concatenation is the sum of the parts, the second one byte-swapped after an odd first part |
| InetChecksum.ChainedSum | dpkt/dpkt.py:373-380 | in_cksum_add chained over pieces equals one sum over all whenever every piece but the last has even length |
| InetChecksum.ChainedPairExact | dpkt/dpkt.py:373-380 | two chained pieces equal one sum if and only if the first has even length or the second reads the same in both byte orders |
| InetChecksum.FieldVerifies | dpkt/dpkt.py:373-391 | writing the checksum, or 0xffff for zero, into a zeroed even-offset field makes the checksum of the result zero |
| Ip.Packet.ToBytes | dpkt/ip.py:89-111 | with a zero checksum: length, header checksum and, for an unfragmented UDP or TCP segment without one, the pseudo-header checksum are set so that both verify, UDP never sending zero; otherwise nothing changes |
| Ip.HeaderVerifies | dpkt/ip.py:90-92 | the header with options and its computed checksum sums to zero |
| Ip.PseudoIsOneSum | dpkt/ip.py:96-100 | adding the pseudo-header and then the segment is one sum over both |
| Ip.SegmentVerifies | dpkt/ip.py:96-109 | the pseudo-header with the segment and its checksum sums to zero, also after 0 is replaced by 0xffff |
| Lines.FindCrlf | dpkt/ftp.py:97-98 | the index of the first CRLF, or none anywhere |
| Lines.FindCrlfExtend | dpkt/ftp.py:97-100 | a line that can be cut stays the same line whatever arrives later |
| Lines.LinesCover | dpkt/ftp.py:96-101 | complete lines and the unfinished rest are the whole stream |
| Ftp.FeedTwice | dpkt/ftp.py:91-101 | from every parser state, two feeds are one feed of the concatenation |
| Ftp.ChunkingIndependent | dpkt/ftp.py:83-119 | commands, replies, pending lines and buffer depend on the bytes received and not on how they were cut |
| Ftp.ProcessConserves | dpkt/ftp.py:96-119 | from every state, processing adds exactly the command lines and reply lines of the buffer, in order, and keeps the unfinished line |
| Ftp.Conservation | dpkt/ftp.py:91-119 | over every run the bytes fed are the complete lines plus the buffer, and each non-blank line is, in order, one command or one line of one complete or pending reply |
| Ftp.ControlParser.DispatchLine | dpkt/ftp.py:103-119 | one line's effect on the whole parser state |
| Ftp.ControlParser.Feed | dpkt/ftp.py:91-101 | feed on the mutable fields is the specified run over complete lines, each turn shrinking the buffer |
| Imap.FeedTwice | dpkt/imap.py:174-212 | from every parser state, two feeds are one feed, also inside CRLF and inside a literal |
| Imap.ChunkingIndependent | dpkt/imap.py:168-222 | commands, responses, buffer and pending literal depend on the bytes received and not on how they were cut |
| Imap.LiteralDelivered | dpkt/imap.py:180-209 | a line announcing n > 0 bytes and the next n bytes, whatever they hold, are dispatched as one unit and parsing resumes right behind them |
| Imap.IdlePendingLineIsLost | dpkt/imap.py:180-209 | with no literal pending, a remembered line has no influence on anything that follows |
| Imap.EmptyLiteralLost | dpkt/imap.py:180-209 | a line that announces zero bytes leaves no trace in commands, responses, buffer or pending literal |
| Imap.LiteralExact | dpkt/imap.py:178-212 | a line and the bytes it announces are dispatched as one unit, parsing resuming behind them, if and only if it announces any |
| Imap.EmptyLiteralExample | dpkt/imap.py:174-212 | the line `a {0}` fed to a new parser becomes neither a command nor a response |
| Imap.RunIs | dpkt/imap.py:178-222 | processing a buffer dispatches its pieces in order, literals with their lines, and keeps the rest of it |
| Imap.Conservation | dpkt/imap.py:174-222 | over every run, commands and responses are the units of the stream that are not responses and that are, each in order; units, dropped lines and waiting bytes are the stream itself |
| Imap.StreamParser.DispatchLine | dpkt/imap.py:214-222 | one line's effect on the whole parser state |
| Imap.StreamParser.TakeLiteral | dpkt/imap.py:180-189 | a complete literal's effect on the whole parser state |
| Imap.StreamParser.TakeLine | dpkt/imap.py:195-212 | one cut line's effect on the whole parser state |
| Imap.StreamParser.Feed | dpkt/imap.py:174-212 | feed on the mutable fields is the specified run, alternating between literals and lines |
| Pop3.StuffRoundTrip | dpkt/pop3.py:65-68 | lines stuffed and terminated by a lone dot come back, lines of dots only included |
| Pop3.ResponseRoundTrip | dpkt/pop3.py:40-87 | printing and parsing restores a response of LF-free text and lines if and only if its text does not begin with a space behind +OK |
| Pop3.SplitExact | dpkt/pop3.py:98-165 | cutting the stream into two feeds changes the outcome if and only if the first feed flushes a pending status line and the second does not start with a complete status line |
| Pop3.CutBehindStatus | dpkt/pop3.py:98-165 | `+OK x` and two data lines: a cut behind the status line changes the outcome |
| Pop3.SplitInsideLine | dpkt/pop3.py:98-165 | a cut inside a line never matters |
| Pop3.ParseResponse | dpkt/pop3.py:40-68 | the parse loop over data lines, ending at a lone dot, equals the parse that the round trip is about |
| Pop3.PrintLines | dpkt/pop3.py:79-87 | the print loop stuffs exactly the lines that the round trip is about |
| Pop3.FeedKeeps | dpkt/pop3.py:98-165 | every feed keeps: a pending status is one line, nothing is pending inside a multi-line response, and no complete line is left |
| Pop3.Parser.TakeLine | dpkt/pop3.py:104-157 | one line's effect on the whole parser state |
| Pop3.Parser.Feed | dpkt/pop3.py:98-165 | feed on the mutable fields is the specified run and flush |
| Http2.ManySerializes | dpkt/http2.py:341-348 | the frames returned re-serialize to exactly the bytes consumed, whose number is the sum of 9 plus each length |
| Http2.MultiSerializes | dpkt/http2.py:316-348 | the same behind the connection preface |
| Http2.FrameExtend | dpkt/http2.py:305-313 | any verdict on the front of a buffer other than missing data, an error included, is unchanged when bytes arrive |
| Http2.ManyComposes | dpkt/http2.py:341-348 | parsing with more bytes gives the frames already found, then those of the leftover with the new bytes |
| Http2.MultiComposes | dpkt/http2.py:316-348 | the same when the first parse consumed the connection preface |
| Http2.ManyFails | dpkt/http2.py:341-348 | an error is raised no matter how much more arrives |
| Http2.ReceiveWhole | dpkt/http2.py:316-348 | behind the preface, a receiver that keeps the unconsumed bytes ends, for every cut into arrivals, with the frames of the whole stream and its leftover, or with its error |
| Http2.ConnectWhole | dpkt/http2.py:316-348 | the same from the start of a connection, for every cut inside or behind the preface |
| Http2.MissingDataExact | dpkt/http2.py:104-313 | a frame counts as missing data if and only if its header or payload is incomplete or it is a complete PRIORITY frame of fewer than five bytes |
| Http2.ShortPriorityStalls | dpkt/http2.py:193-348 | at such a PRIORITY frame the loop consumes nothing, no matter how much more arrives |
| Http2.UnpadExact | dpkt/http2.py:154-164 | pad length, unpadded data and padding make up the payload if and only if the pad length is positive or nothing follows it |
| Http2.PromisedExact | dpkt/http2.py:231-241 | for a padded PUSH_PROMISE the promised stream is read one byte early: it is the right one if and only if the pad length equals all four bytes of the stream number |
| Http2.PromisedExample | dpkt/http2.py:231-241 | one byte of padding behind stream 7 gives promised stream 0x01000000 |
| Http2.FrameMultiFactory | dpkt/http2.py:316-348 | the loop with its index equals the recursive parse |
| Http2.UnpackSettings | dpkt/http2.py:224-228 | the settings loop cuts a payload of sixes into identifier and value pairs as specified |
| Http2.SettingsSerialize | dpkt/http2.py:137-228 | the identifier and value pairs of a settings payload, put back on the wire, are the payload |
| Varint.DecodeEncode | dpkt/quic.py:8-35 | encoding and decoding inside any buffer gives the low 62 bits of the value and the exact length |
| Varint.RoundTripExact | dpkt/quic.py:8-35 | of the 64-bit values exactly those below 2^62 survive |
| Varint.EncodeShortest | dpkt/quic.py:30-35 | no bytes that decode to a value are fewer than the encoder produces for it |
| Varint.ReadEncoded | dpkt/quic.py:8-35 | a list of shortest encodings is read back from the middle of a buffer, ending exactly behind it |
| Varint.SizeExact | dpkt/quic.py:8-35 | re-encoding the values read gives the number of bytes read if and only if each was encoded in its shortest form, and never more |
| Quic.SizeIsShortest | dpkt/quic.py:160-183 | the recomputed size of a STREAM, CRYPTO or ACK frame is the length of the shortest encodings of its integers plus its payload |
| Quic.FrameSizeExact | dpkt/quic.py:160-183 | the recomputed size of an unpacked STREAM, CRYPTO or ACK frame equals the extent it declares in the buffer if and only if every integer was in shortest form; otherwise it is smaller |
| Quic.ListGoesOn | dpkt/quic.py:160-201 | behind a STREAM, CRYPTO or ACK frame the list goes on at the recomputed size, which is the end of the frame if and only if its integers were in shortest form |
| Quic.OutOfStep | dpkt/quic.py:160-201 | a CRYPTO frame with a two-byte zero offset and a PING parse to three frames: the data byte is read again as a frame |
| Quic.FrameRead | dpkt/quic.py:62-122 | each PING, CRYPTO, ACK and non-empty length-bearing STREAM frame is recovered from its wire form whatever follows, and its recomputed size is its wire length |
| Quic.ParseEmitted | dpkt/quic.py:187-201 | any mixture of such frames and PADDING bytes parses to exactly its frames |
| Quic.EmptyStreamExact | dpkt/quic.py:64-73 | a STREAM frame with declared length zero takes all following bytes as data, so it is recovered if and only if nothing follows |
| Quic.ParseFrameList | dpkt/quic.py:187-201 | the loop with its offset equals the recursive parse, ending at the first frame that lacks data |
| Quic.FrameByteSize | dpkt/quic.py:160-184 | the size accumulated over ACK blocks equals the size that the exactness results are about |
| Quic.ReadBlocks | dpkt/quic.py:118-122 | the ACK block loop reads twice the declared count of integers and pairs them |
| Http3.SettingsBack | dpkt/http3.py:48-56 | the settings of a frame are read back from the middle of a buffer |
| Http3.ParseEmitted | dpkt/http3.py:98-107 | every list of DATA, HEADERS and SETTINGS frames is recovered from its bytes |
| Http3.ParseFrameList | dpkt/http3.py:98-107 | the loop with its offset equals the recursive parse, errors included |
| Http3.UnpackSettings | dpkt/http3.py:48-56 | the settings loop with its offset equals the recursive reading, errors included |
| Pcapng.OptionsRoundTrip | dpkt/pcapng.py:130-156 | a packable option list comes back, padding removed, if and only if opt_endofopt occurs only at its end |
| Pcapng.UnpackOptions | dpkt/pcapng.py:136-144 | the option loop, leaving at opt_endofopt, equals the recursive reading |
| Pcapng.LengthsAgree | dpkt/pcapng.py:158-166 | leading length, trailing length and actual size of a written block agree, and the body lies between them |
| Pcapng.ShbBack | dpkt/pcapng.py:124-149 | a written section header is unpacked to itself |
| Pcapng.IdbBack | dpkt/pcapng.py:124-149 | a written interface description is unpacked to itself |
| Pcapng.EpbBack | dpkt/pcapng.py:315-352 | a written packet block is unpacked to itself, with padding skipped and the 64-bit tick count rejoined |
| Pcapng.PacketsBack | dpkt/pcapng.py:687-705 | the iterator over written packet blocks yields their tick counts and packets in order |
| Pcapng.IdbsSkipped | dpkt/pcapng.py:687-705 | further interface blocks are skipped |
| Pcapng.FileRoundTrip | dpkt/pcapng.py:562-635 | in either byte order the reader of a written file detects the order, finds the first interface and yields exactly the packets and 64-bit ticks |
| Pcapng.HeaderSplit | dpkt/pcapng.py:328-352 | a packet header packed in one call and cut before its trailing length gives the same block as the block class without options |
| Pcapng.Writer.WritePktTime | dpkt/pcapng.py:492-512 | appends the block of one packet, or nothing when it cannot be packed |
| Pcapng.Writer.WritePkts | dpkt/pcapng.py:514-553 | the batch path appends the same bytes, up to the same first failure, as writing packet by packet |
| Pcapng.Writer.WriteEach | dpkt/pcapng.py:492-512 | writing packet by packet appends the blocks up to the first that cannot be packed |
| Pcapng.PacketsRoundTrip | dpkt/pcapng.py:514-705 | packets written by either path come back from the reader in order with their tick counts |
| Pcapng.Reader.ReadPkts | dpkt/pcapng.py:687-705 | the iterator run to the end of the file equals the recursive reading and leaves less than a block header |
| Pcapng.SeekIdb | dpkt/pcapng.py:592-606 | the search loop finds the first interface block and what follows it, or none |
| Pcapng.OpenFile | dpkt/pcapng.py:562-625 | opening a file decides byte order, version, interface and timestamp options as specified, errors included |
| Sections.AllExact | dpkt/bgp.py:257-265 | data that is cut without remainder into elements that print back to themselves prints back to itself and reports its length |
| Sections.TotalCovers | dpkt/bgp.py:257-265 | the lengths the elements report never add up to less than the data |
| Sections.FitsExact | dpkt/bgp.py:257-265 | they add up to exactly the data if and only if it is cut into whole elements |
| Sections.CountedExact | dpkt/bgp.py:234-243 | the same for a section with a declared byte count in front of other data |
| Sections.TimesExact | dpkt/bgp.py:566-573 | the same for a section with a declared element count |
| Sections.UnpackAll | dpkt/bgp.py:257-265 | the loop until no data is left against its specification |
| Sections.UnpackCounted | dpkt/bgp.py:236-243 | the loop that decrements a declared byte count against its specification |
| Sections.UnpackTimes | dpkt/bgp.py:569-573 | the loop over a declared number of elements against its specification |
| Sections.CountedSharp | dpkt/bgp.py:234-253 | a section with a declared byte count prints back to and counts its bytes if and only if it is cut without remainder into elements that print the bytes the loop advances over |
| Bgp.RouteExact | dpkt/bgp.py:675-733 | every whole IPv4, Add-Path, IPv6, EVPN or generic route prints back to its bytes and reports their number, whatever follows |
| Bgp.GuessExact | dpkt/bgp.py:256-265 | whole plain routes are parsed as such if and only if no remainder at which one starts has a length that nine divides |
| Bgp.SegmentExact | dpkt/bgp.py:397-444 | every whole two- or four-octet AS path segment prints back to its bytes, a four-octet one also when it declares more AS numbers than there is room for |
| Bgp.SixBytesFit | dpkt/bgp.py:381-390 | an AS path of six bytes always cuts into four-octet segments without remainder, so the guess loses nothing |
| Bgp.CommunityExact | dpkt/bgp.py:482-510 | a community, reserved or not, prints back to its four bytes |
| Bgp.HopsExact | dpkt/bgp.py:549-563 | a next-hop field whose length is a multiple of the hop size is cut into hops that rejoin to it |
| Bgp.ReachExact | dpkt/bgp.py:546-604 | an MP_REACH_NLRI attribute without truncation prints back to its bytes |
| Bgp.UnreachExact | dpkt/bgp.py:621-645 | an MP_UNREACH_NLRI attribute without truncation prints back to its bytes |
| Bgp.PayloadExact | dpkt/bgp.py:327-359 | every attribute payload without truncation prints back to itself, and the length its class sums up is its length, for every type the dispatch knows and any it does not |
| Bgp.AttributeExact | dpkt/bgp.py:317-366 | every whole attribute prints back to its bytes and reports their number by the sums of its parts, with one or two length bytes |
| Bgp.CutAttribute | dpkt/bgp.py:354-359 | an attribute of nine bytes with a route cut short reports twelve bytes and prints eleven |
| Bgp.BodyRoundTrip | dpkt/bgp.py:231-277 | an UPDATE body of whole withdrawn routes and attributes that end on their declared lengths prints back to the same bytes and reports their number if and only if its announced routes are whole as the Add-Path guess cuts them; the four-octet AS guess never matters |
| Bgp.PlainRoundTrip | dpkt/bgp.py:231-277 | plain announced routes at which the guess never sees a multiple of nine are reproduced and stay plain |
| Bgp.WrongGuess | dpkt/bgp.py:256-277 | the routes 1.2/16, 17.4/16 and 5.6/16 are read as an Add-Path route and a cut one, and the body of 13 bytes comes out as 14 |
| BgpExact.RoutesStand | dpkt/bgp.py:584-604 | a list of routes, the last one perhaps cut, prints the bytes it counts if and only if zeros follow where an address prefix is filled up, and no more is missing |
| BgpExact.UnreachReproduced | dpkt/bgp.py:621-645 | an MP_UNREACH_NLRI payload parses, prints back and reports its length if and only if its routes are whole or of a generic kind |
| BgpExact.ReachReproduced | dpkt/bgp.py:546-604 | an MP_REACH_NLRI payload does so if and only if its next hops end on their declared length, its attachment points are there, the last one perhaps cut, and its routes are whole or of a generic kind |
| BgpExact.PayloadReproduced | dpkt/bgp.py:327-366 | any payload does so if and only if nothing that its class fills up or counts in full is missing; an ATOMIC_AGGREGATE only when empty |
| BgpExact.AttributeReproduced | dpkt/bgp.py:317-366 | an attribute with nothing behind its declared payload does so if and only if its payload does, itself cut short or not |
| BgpExact.AttributeSharp | dpkt/bgp.py:317-366 | inside a message an attribute prints the bytes the loop advances over if and only if it is an ATOMIC_AGGREGATE, or its payload is complete, or zeros follow that complete its last route |
| BgpExact.ZeroFills | dpkt/bgp.py:317-366 | an attribute with a route cut by one byte does so in front of a zero and of nothing else |
| BgpExact.UpdateRoundTrip | dpkt/bgp.py:231-277 | every byte string is unpacked, printed back to itself and counted with its length if and only if its withdrawn routes are whole and end on their length, its attributes stand and end on theirs, and its announced routes are whole as the Add-Path guess cuts them |
| BgpExact.WholeSections | dpkt/bgp.py:231-277 | sections of whole elements meet that condition wherever they stand, the announced routes deciding |
| Bgp.UnpackUpdate | dpkt/bgp.py:231-265 | the three section loops against the specification |
| Bgp.UnpackHops | dpkt/bgp.py:554-563 | the next-hop loop against its specification, overruns included |
| BitFields.GetBits | dpkt/dpkt.py:85-89 | a getter's value fits its field and its bits are the field's bits of the placeholder, for every placeholder |
| BitFields.SetBits | dpkt/dpkt.py:91-100 | after a set, the field's bits are the value's and every other bit within the width is the old one |
| BitFields.SetInRange | dpkt/dpkt.py:91-100 | the setter refuses only large values: the placeholder stays within its width if and only if the value is not negative |
| BitFields.SetThenGet | dpkt/dpkt.py:71-101 | setting a field in range changes that field to the value and no other field |
| BitFields.FieldsInjective | dpkt/dpkt.py:62-83 | a placeholder within its width is determined by its fields |
| BitFields.SetAllFields | dpkt/dpkt.py:71-101 | setting every field in order reads back as exactly the given values, whatever the placeholder was |
| BitFields.CopyFields | dpkt/dpkt.py:71-101 | copying all fields of one placeholder onto another reproduces the first |
| BitFields.Shifts | dpkt/dpkt.py:62-83 | the generator's running count of used bits gives each field the total size of the fields behind it as its shift |
| BitFields.Header.GetField | dpkt/dpkt.py:85-89 | the property read |
| BitFields.Header.SetField | dpkt/dpkt.py:91-101 | the property write: one field updated, or an error and no change, or a negative placeholder after a negative value |
| BitFields.Header.DeleteField | dpkt/dpkt.py:103-106 | deleting a field restores its default and leaves the other fields |

## Left out

- All other protocol modules: they are header tables, or heuristic field extraction without a law of its own.
- `smtp.py`: the same line machine as FTP.
- UTF-8 and ASCII codecs in DNS names, TXT strings and pcapng comments: the model works on bytes, so the errors of
  decoding are not in it.
- Header bit properties of DNS messages, `len()` of a DNS message (defined as the length of its bytes), the splitting of
  TXT and HINFO data into strings.
- Parsing of IPv4 packets and the protocol table: only `bytes()` is modelled.
- The fields of FTP, IMAP and POP3 command objects and of FTP and IMAP response objects.
- TLS records inside QUIC CRYPTO frames, QUIC packet headers and keys, HTTP/3 frames other than DATA, HEADERS and
  SETTINGS beyond their unpacking. The program prints only DATA frames; the wire form of the other two is that of RFC 9114.
- Sizes of QUIC CONNECTION_CLOSE, MAX_DATA and MAX_STREAM_DATA frames: `_frame_byte_size` counts one byte for each, and
  the model does so too, but no law holds for them. ACK frames of type 3 carry ECN counts that are not unpacked.
- Floating-point timestamps, time resolution and time offset of pcapng; packet filters and callbacks of its reader.
- BGP messages other than UPDATE. A next-hop field overrun beyond 255 bytes, which the code refuses to print, is printed
  with a wrapped length in the model; neither reproduces the message.
- Class generation by the metaclass apart from bit fields; packing a header whose placeholder is negative.
- Sctp.CorruptionDetected: does not cover a change that touches the checksum field and its neighbours at once, because
  the CRC makes no promise about it.
- Quic.FrameRead: covers PING, CRYPTO, ACK and length-bearing STREAM frames with data, with integers in shortest form;
  Quic.FrameSizeExact and Quic.EmptyStreamExact say what happens otherwise.
- BgpExact.UpdateRoundTrip: error kinds are not distinguished in its parser, and an element of length zero, over which the
  code would loop for ever, is an error in the model; no class of the model has one.
- DnsMessage.PackMessageOk: the empty NULL record is excluded because the code refuses to emit it.
- DnsMessage.FarMessage: leaves out the lengths at which the cut pointer leads into the header or the first owner name,
  where another name or an error comes back; DnsName.PointerLimitIsExact covers every target.
- DnsReprint.ReprintExact: requires valid names, because names with dots inside a label are split differently when they
  are packed again, and near pointers; DnsIdentity.IdentityExact needs neither.
