# SendIP in Dafny

SendIP builds a packet from a list of protocol modules. Every module edits the bytes of its own
header option by option. The main program then joins the headers and the data in one buffer and
lets the modules finish their headers in place, from the innermost outwards. This project models
that machinery and its arithmetic, and proves what the finished bytes are and what a receiver can
do with them.

## How it is organised

* `Wrappers.dfy`, `Bytes.dfy`: optional values and growing blocks; octets, byte order, overwriting
  and moving parts of a buffer, exclusive or.
* `Csum.dfy`, `Crc32.dfy`: the Internet checksum and CRC32c, as loops and as arithmetic.
* `Headers.dfy`, `SendipModule.dfy`: the table of header types, and `sendip_data`.
* `Ipv4.dfy`, `Ipv6.dfy`, `Transport.dfy`, `Tcp.dfy`, `Udp.dfy`, `Icmp.dfy`, `Chain.dfy` (AH,
  fragment and routing headers), `Hop.dfy`, `Gre.dfy`, `Wesp.dfy`, `Sctp.dfy`, `Esp.dfy` with
  `XorAuth.dfy` and `XorCrypto.dfy`: the finalizers. Each is a method on the shared buffer that is
  proved equal to a function from the old header to the finished one.
* `Encapsulation.dfy`: the packet as a pure recursion, each finished header around its finished
  inside. `Sendip.dfy`: the assembly and the finalize loop in place, proved to leave that packet.
* `EspReceiver.dfy`, `Receiver.dfy`, `ChecksumRules.dfy`, `Peeling.dfy`, `FinishedPacket.dfy`,
  `Walk.dfy`: receivers of the finished packet. `Fields.dfy`, `ReceivedFields.dfy`: the fields they
  read, first from a header and then from the packet, as numbers.
* `GreOptions.dfy`, `HopOptions.dfy`, `EspOptions.dfy`, `Ah.dfy`, `Route.dfy`, `Bgp.dfy`: the header
  builders. `GreRuns.dfy`, `GreChecksum.dfy`, `EspRuns.dfy`, `BgpOpen.dfy`: whole runs of their
  options, and what a receiver makes of them.
  `Built.dfy`: what they build is what the assembly and the receivers ask for, or when it is not.
* `Getopt.dfy`, `GetoptScanner.dfy`: the command line parse, and the resumable scanner.
  `GetoptPrefix.dfy`: option strings that start with a dash or a plus sign. `GetoptOrder.dfy`,
  `GetoptReports.dfy`: where a scan leaves the operands, and what it reports of right and wrong
  elements.
* `ParseArgs.dfy`, `HexStream.dfy`, `Dump.dfy`: the text loops.

`dafny verify dfyconfig.toml` checks the whole project.

## Conventions

* The host is a 64-bit little-endian one, and an `int` has 32 bits. A pointer into a buffer is an
  array with an offset; bytes gained from `realloc` are arbitrary.
* The header list has no terminator in the source (`sendip.c:628`), although `headers.c:61` and
  the finalizers look for one: reading it outside its bounds gives the NUL character here.
* The outermost module is an IPv4 or IPv6 header. The main program refuses to send anything else
  (`sendip.c:665-686`), so the errors of `tcp.c:358-363` and its siblings for a transport header
  outside IP are not reachable, and are not in the model.
* `rand()` is a number that every layer brings along, and text that `strtoul`, `inet_pton` or a
  name lookup would parse is given as its parsed value.
* `esp.c` counts the place of the ICV in 32-bit units (`esp.c:89`, `esp.c:104`, `esp.c:203`). The
  model does the same, and asks that IV and ICV so counted lie inside the allocation.
* `bgp.c` writes its lengths with PUTSHORT (`bgp.h:13-29`), on this host low byte first, and reads
  them so again; the receiver of `Bgp.dfy` does the same. RFC 4271 has them high byte first.
* The crypto modules are globals of `esp.c`: one choice holds for all ESP headers of a packet.
* Option characters are ASCII. `char` is signed on this host, so `gnugetopt.c:463` returns bytes from
  0x80 on as negative numbers, 0xFF as the -1 that ends a scan; the model returns them as they are.

## What turned out not to hold, and when it does

* The length byte of a hop-by-hop or destination header is wrong exactly when the options fill the
  allocation (`hop.c:243`): `HopOptions.FinalizedParsesIff`, `HopOptions.ExactFillClaimsTooMuch`.
* A GRE option leaves its word in the wrong slot exactly when a key or a sequence number is given
  while there is routing and no checksum, and the word it hits is another one:
  `GreOptions.StepKeepsIff`, `GreOptions.KeyAfterRoutingIsMisplaced`. Later options may put it right
  again; for whole runs the exact condition is `GreRuns.RunIsProperIff`, and `GreRuns.KeyIsRepaired`
  is a run that is repaired.
* An automatic GRE checksum covers its own field (`gre.c:262-270`), and does not verify if a key was
  given between routing and `-gC` and stands there: `GreChecksum.AutoSumVerifiesIff`,
  `GreChecksum.AutoSumOverKey`.
* An automatic IPv4 header checksum is computed before a missing protocol is filled in
  (`ipv4.c:439-445`); it verifies exactly when that changes nothing:
  `Receiver.Ipv4ChecksumVerifiesIff`, `Receiver.LateProtocolBreaksChecksum`.
* The length byte of AH is right exactly for whole words of authentication data up to 1016 bytes:
  `Ah.LengthIsRightIff`, `Ah.OneByteIsNotCounted`.
* The length byte of a routing header counts an address as four units of eight bytes (`route.c:69`),
  and is right exactly without addresses: `Route.LengthIsRightIff`, `Route.OneAddressClaimsTwo`.
* A BGP UPDATE with withdrawn routes only has no attribute length and cannot be parsed:
  `Bgp.DecodesIff`, `Bgp.WithdrawnOnlyIsMalformed`. Its length is
  right in network order exactly if it is a multiple of 257: `Bgp.NetworkOrderIff`,
  `Bgp.KeepaliveIsMisread`; for all lengths of an UPDATE: `Bgp.NetworkUpdateIff`,
  `Bgp.BuiltForNetworkIff`, `Bgp.AnnouncedIsMisread`.
* The length `bgp.c` counts for an option of OPEN includes type and length (`bgp.c:225-227`), so a receiver
  of RFC 4271 gets the options meant exactly when all lengths were given, rightly, and never with a
  counted one: `BgpOpen.OpenDecodesIff`, `BgpOpen.CountedLengthMisleads`,
  `BgpOpen.OneOptionIsMalformed`.
* A vector checksum is that of the concatenation exactly when the network-order sum of the blocks at
  odd offsets is a multiple of 257: `Csum.VectorIsConcatenationIff`, `Csum.OddBlockShifts`. The only
  caller, `gre.c:262-270`, never has such blocks: GRE headers are whole words.
* UDP stores a computed checksum of zero as zero, where RFC 768 and section 8.1 of RFC 8200 ask for
  all ones (`udp.c:75`); this happens exactly when the sum is a positive multiple of 65535:
  `ChecksumRules.UdpFieldIff`, `ChecksumRules.Udp6FieldIff`, `ChecksumRules.ComputedZeroIsStored`.
* TCP over IPv6 sums the protocol number in place of length and next header (`tcp.c:68`); of the
  segments below 65536 bytes exactly those of 1530 bytes verify: `ChecksumRules.Tcp6VerifiesIff`,
  `ChecksumRules.Tcp6LengthIs`, `ChecksumRules.EmptySegmentFails`.
* The SCTP checksum does not cover what is inside the header (`sctp.c:399`). With something inside it
  is right exactly when that leaves the CRC register unchanged: `Sctp.InsideVerifiesIff`,
  `Sctp.InsideIsUnique`, `Sctp.OneByteInsideFails`.
* The GRE header built is a word longer than its flags say (`gre.c:29-31` allocates one optional
  word already), so no receiver finds the payload: `Built.GrePayloadIsDisplaced`. A header tells its
  length exactly when `Peeling.TellsLength` holds: `Peeling.PeelsWrapIff`.
* An ICV runs out of the allocation exactly when the IV is longer than a third of the room for
  padding (`esp.c:89`, `esp.c:104`): `EspOptions.IcvHasRoomIff`, `EspOptions.IcvRunsOut`.
* The padding of ESP is zero bytes (`esp.c:226`), not the 1, 2, 3 of section 2.4 of RFC 4303:
  `EspReceiver.PaddingIsDefaultIff`, `EspReceiver.EmptyPayloadIsPaddedWithZeros`.
* An authentication module for ESP without an ICV divides by zero (`xorauth.c:100`); a header is
  ready for one exactly when an ICV was given: `Built.EspIsOkIff`, `Built.FreshEspHasNoIcv`.
* The room of a dump is unsigned and wraps around for a small buffer (`dump.c:44`); the dump stays
  inside exactly under the condition of `Dump.StaysInsideIff`, and one byte in 100 characters does
  not: `Dump.OneByteRunsOut`.
* A dump without data but with blanks in front is no row, because the blanks are only written
  while there is data (`dump.c:73`) but counted at the end (`dump.c:102`): `Dump.BDump`,
  `Dump.NothingIsNoDump`.
* The option string loses a leading `-` or `+` on the first call of a scan only
  (`gnugetopt.c:150-159`). Later calls see it as an option letter, which takes an argument if colons
  follow, and report a missing argument with a question mark although a colon follows. Exactly when
  that matters is `GetoptPrefix.AlikeIff` for one option and `GetoptPrefix.ScanAlikeIff` for a whole
  scan; `GetoptPrefix.MissingIsReportedTwoWays` and `GetoptPrefix.DashBecomesAnOption`, the latter
  with the option string of `sendip.c:337`, are scans in which it does.
* The decimal heading of a dump says 19 above column 10 (`dump.c:41`); it names every other column:
  `Dump.HeadingNames`.
* The branch for bytes of one hex digit is taken below 15 only (`dump.c:79`); the other one prints
  the same for 15.

## Model

| member | source | states |
|---|---|---|
| `Bytes.Move` | esp.c:216-219 | memmove: the old bytes arrive even if the two stretches overlap, and nothing else changes |
| `Bytes.XorIsBitwise` | xorcrypto.c:55-59 | a bit of the exclusive or of two bytes is set exactly when it is set in one of them and not in the other |
| `Bytes.Reads32` | icmp.c:58 | four bytes hold a number modulo 2 to the 32nd, from the high byte down or from the low byte up |
| `Csum.FoldIsResidue` | csum.c:26-29 | folding keeps the sum modulo 65535 and maps no other sum than zero to zero |
| `Csum.FoldUnique` | csum.c:26-29 | sums that agree modulo 65535, and on being zero, fold to the same word |
| `Csum.ByteOrderIndependent` | csum.c:16-32 | the checksum computed in host order and stored in memory is byte for byte the one of RFC 1071 on network order, for every length, odd ones with a zero pad |
| `Csum.ExampleOfRfc1071` | csum.c:16-32 | the eight bytes of section 3 of RFC 1071 have the checksum stored as 22 0d |
| `Csum.OverwrittenVerifiesIff` | csum.c:16-32 | a checksum taken with something in its field and stored over it verifies exactly when that was zero or all ones |
| `Csum.VerifiesIff` | csum.c:16-32 | a message has checksum zero exactly when its sum is a non-zero multiple of 65535 |
| `Csum.InsertedChecksumVerifies` | csum.c:16-32 | a checksum stored at an even, zeroed place makes the whole message verify |
| `Csum.ChangedByteFails` | csum.c:16-32 | after changing one byte to another value a message that verified does not verify any more, and only then |
| `Csum.LeSumAppends` | csum.c:20-24 | the sum of two parts, the first of even length, is the sum of their sums |
| `Csum.FoldLoop` | csum.c:26-29 | the fold loop terminates with the folded value, for every 64-bit sum |
| `Csum.AddBlock` | csum.c:18-25 | the summing loop adds exactly the sum of the block, without overflow of 64 bits for any int length |
| `Csum.ChecksumBlock` | csum.c:16-32 | csum returns the checksum of the bytes it is given |
| `Csum.VectorIsConcatenation` | csum.c:35-54 | a vector whose blocks before the last are non-empty and even has the checksum of the concatenation |
| `Csum.VectorIsConcatenationIff` | csum.c:35-54 | any vector has the checksum of the concatenation exactly when the network-order sum of the blocks at odd offsets is a multiple of 257 |
| `Csum.TwoBlocksIff` | csum.c:35-54 | for two blocks, the first of odd length: exactly when that holds for the second one |
| `Csum.OddBlockShifts` | csum.c:35-54 | two concrete vectors with an odd first block, one whose checksum is that of the concatenation and one whose is not |
| `Csum.ChecksumVector` | csum.c:35-54 | csumv on its two argument arrays returns the checksum of the vector up to the first empty block |
| `Crc32.TableIsEightShifts` | crc32.h:43-108 | every one of the 256 entries is eight steps of the reflected shift register |
| `Crc32.TableIsLinear` | crc32.h:43-108 | the entry of an exclusive or is the exclusive or of the entries |
| `Crc32.RoundIsStep` | crc32.h:110-119 | one round on the 64-bit accumulator is eight register steps, and stays within 32 bits |
| `Crc32.CrcIsRemainder` | crc32.h:110-140 | the loop computes the polynomial remainder of Appendix B of RFC 4960, bit by bit, on every byte string |
| `Crc32.CheckValue` | crc32.h:110-140 | the digits 1 to 9 have the CRC e3069283 |
| `Crc32.ShiftsUnshift` | crc32.h:110-119 | the register step has an inverse |
| `Crc32.RunIsInjective` | crc32.h:110-119 | different states stay different over any common continuation |
| `Crc32.BurstIsDetected` | crc32.h:110-140 | messages that differ only inside a window of at most four bytes have equal CRCs exactly when the windows are equal |
| `Crc32.AppendedCrcLeavesResidue` | sctp.c:391-399 | a message followed by its CRC, low byte first, always leaves the same register state |
| `Crc32.Compute` | crc32.h:110-140 | the table-driven loop returns that CRC |
| `Headers.HeaderType` | headers.c:33-42 | the scan of the table returns the protocol of the first entry for the character, and 59 if there is none |
| `Headers.OuterHeader` | headers.c:44-54 | the index of the nearest header outside that is among the choices, or -1 |
| `Headers.InnerHeader` | headers.c:56-66 | the index of the nearest header inside that is among the choices, or -1 |
| `Headers.Outer` | headers.c:44-54 | no header between the one found and the index is among the choices |
| `Headers.Inner` | headers.c:56-66 | no header between the index and the one found is among the choices |
| `XorCrypto.CryptedTwice` | xorcrypto.c:52-60 | encrypting twice with the same key gives the data back |
| `XorCrypto.CryptedWithoutKey` | xorcrypto.c:62-79 | without a key the data is left alone |
| `XorCrypto.CryptedKeepsIff` | xorcrypto.c:52-60 | a byte goes out unchanged exactly when the byte of the repeated key is zero |
| `XorCrypto.CryptedZeros` | xorcrypto.c:52-60 | zeros go out as the key, repeated |
| `XorCrypto.OpensWithIff` | xorcrypto.c:52-60 | who decrypts with another key gets the data exactly when both keys, repeated, agree as far as the data goes |
| `XorCrypto.Encrypt` | xorcrypto.c:52-79 | the loop encrypts exactly its span of the shared buffer and nothing else |
| `XorAuth.AbsorbColumn` | xorauth.c:84-109 | every byte of the ICV is the exclusive or of exactly those data and key bytes whose running index meets it |
| `XorAuth.IcvIsParity` | xorauth.c:84-109 | bit by bit: a bit of the ICV is set exactly when it is set in an odd number of the data and key bytes whose running index meets it |
| `XorAuth.IcvDetects` | xorauth.c:84-109 | after one byte of either authenticated stretch is replaced the ICV is the same exactly when the byte is |
| `XorAuth.ComputeIcv` | xorauth.c:260-287 | the three running indices leave the ICV of the two spans in place, and nothing else changes |
| `Transport.Claim` | tcp.c:348-353 | an enclosing IPv4 header whose protocol is free gets it, together with the flag; any other header stays |
| `Transport.Gather` | udp.c:20-44 | the temporary buffer is pseudo header, header and data in this order |
| `Transport.StoreChecksum` | tcp.c:21-46 | the field gets the checksum over pseudo header, header with the field zeroed, and data |
| `Ipv4.Ipcsum` | ipv4.c:20-26 | the header checksum over the header with its field zeroed |
| `Ipv4.Finalize` | ipv4.c:415-447 | the buffer holds the finished header in place of the old one and is otherwise unchanged |
| `Ipv6.Finalize` | ipv6.c:114-136 | the same for IPv6 |
| `Tcp.Finalize` | tcp.c:327-367 | the same for TCP, the claim on the enclosing header included |
| `Udp.Finalize` | udp.c:115-149 | the same for UDP |
| `Icmp.Finalize` | icmp.c:98-142 | the same for ICMP and ICMPv6 |
| `Chain.Finalize` | ah.c:99-108 | AH, and likewise fragment and routing headers, get their next header and change nothing else |
| `Hop.ZeroFrom` | hop.c:250-253 | the loop zeroes from the used length to the end |
| `Hop.Finalize` | hop.c:230-258 | the finished hop-by-hop or destination header in place |
| `Gre.Finalize` | gre.c:242-274 | the finished GRE header in place, its checksum over header and window |
| `Gre.CoveredIsChecksum` | gre.c:262-270 | the three-part vector of finalize sums header and data as one message |
| `Gre.AutoChecksumVerifiesIff` | gre.c:260-271 | an automatic GRE checksum verifies over header and data exactly when its field held zero, or all ones, before: csumv covers the field |
| `Gre.AutoChecksumVerifies` | gre.c:260-271 | an automatic GRE checksum verifies over header and data |
| `Wesp.Finalize` | wesp.c:124-166 | the finished WESP header in place, its lengths read from the ESP header it wraps |
| `Sctp.Finalize` | sctp.c:384-401 | the checksum field gets the CRC of the header, low byte first |
| `Sctp.ChecksumVerifies` | sctp.c:391-399 | a header on its own verifies: zeroing the field and computing the CRC again gives what was in it |
| `Sctp.InsideVerifiesIff` | sctp.c:391-399 | with something inside, which a receiver of RFC 4960 covers too, the packet verifies exactly when that leaves the CRC register where the header has left it |
| `Sctp.InsideIsUnique` | sctp.c:391-399 | of all packets of one length of up to four bytes at most one does |
| `Sctp.OneByteInsideFails` | sctp.c:391-399 | a concrete header with one byte inside does not verify |
| `Esp.AutoPad` | esp.c:153-170 | at most three bytes that complete IV, payload and trailer to 32-bit words |
| `Esp.LayOut` | esp.c:192-234 | the overlapping moves leave SPI, sequence number, IV, payload, zero padding, pad length, next header and ICV in this order, and touch nothing outside the old header and payload |
| `Esp.Protect` | esp.c:236-251 | first the ICV is put in place, then everything behind the ESP header is encrypted |
| `Esp.Encapsulated` | esp.c:141-252 | the packet is longer than its ESP header and never longer than the old header and payload |
| `Esp.Finalize` | esp.c:141-252 | the window then starts behind the ESP header and ends where the packet ends, and the buffer holds the encapsulation |
| `EspReceiver.OpensEncapsulated` | esp.c:141-252 | decrypting, checking the ICV and stripping gives back SPI, sequence number, IV, payload and next header, for every key, padding and length |
| `EspReceiver.TamperedIsRejected` | xorauth.c:260-287 | a packet that was accepted is rejected after any single byte of it has changed: SPI, sequence number, encrypted body or ICV |
| `EspReceiver.SentInClearIff` | esp.c:236-251 | the part behind the ESP header goes out as it is exactly when there is no encryption module, or the key is zero as far as that part goes |
| `EspReceiver.OtherKeyOpensIff` | esp.c:236-251 | a receiver with another encryption key decrypts to what was sealed exactly when both keys, repeated, agree so far |
| `EspReceiver.GivenIcvIsSent` | esp.c:192-234 | without an authentication module the ICV given arrives as it is |
| `EspReceiver.PadsAsGiven` | esp.c:153-170 | the length of the packet tells the padding: the given one, or at most three bytes that complete the words |
| `EspReceiver.NamesWhatFollows` | esp.c:152-153 | the receiver finds the next header that was given, or else the number of what follows |
| `EspReceiver.AutomaticPaddingAligns` | esp.c:153-170 | with automatic padding the covered part is a multiple of four bytes, section 2.4 of RFC 4303 |
| `EspReceiver.PlainLayout` | esp.c:192-234 | without encryption the payload stands behind the IV, and pad length and next header before the ICV |
| `EspReceiver.PaddingIsDefaultIff` | esp.c:224-229 | the padding sent is the default one of section 2.4 of RFC 4303 exactly when there is none |
| `EspReceiver.EmptyPayloadIsPaddedWithZeros` | esp.c:153-170 | an empty payload without IV gets two zero bytes where the default is 1, 2 |
| `EspOptions.HeldIsReady` | esp.c:25-43 | whatever options were given, the header has the room finalize needs and holds IV and ICV where it looks for them |
| `EspOptions.GivenIvArrives` | esp.c:78-108 | the receiver gets the IV that was given, whether the ICV came before or after it |
| `EspOptions.IcvHasRoomIff` | esp.c:67-106 | of all runs of options that give IV and ICV once each, in whatever order and among whatever other options, exactly those write inside the allocation whose ICV is empty or three times whose IV is at most the room for padding by then |
| `EspOptions.IcvRunsOut` | esp.c:95-106 | four bytes of each without padding do not: the ICV goes to offset 28 of 24 bytes |
| `EspOptions.Header.GiveIv` | esp.c:78-94 | the IV goes to the front, an ICV moves behind it, and the allocation grows by the IV |
| `EspOptions.Header.GiveIcv` | esp.c:95-106 | the ICV goes behind the IV, and the allocation grows by the ICV |
| `EspOptions.Header.DoOpt` | esp.c:45-139 | what every option does to header, allocation, flags, IV, ICV and key; padding over 255 is rejected and changes nothing; header, flags and key stay what the accepted options add up to |
| `EspRuns.FixedAllIs` | esp.c:45-139 | over whole runs: SPI, sequence number, pad length and next header given last stand in their places, and zeros where none was |
| `EspRuns.FlagsAllIs` | esp.c:45-139 | the flags finalize looks at are set exactly when padding, or a next header, was given |
| `EspRuns.OptionsArrive` | esp.c:45-252 | whatever was given, in whatever order and how often: the receiver finds the SPI and sequence number given last, the IV, the payload, the next header given last or else that of what follows, and the padding asked for last or else what completes the words |
| `Encapsulation.SeenUnclaimed` | tcp.c:348-357 | only IPv4 headers are ever claimed |
| `Encapsulation.NestFits` | sendip.c:594-605 | at every nesting the finished packet fits into the room of its unfinished parts: finishing only shrinks |
| `Sendip.Assemble` | sendip.c:606-638 | the joined buffer holds every header at its offset and the data behind, and the window is the data |
| `Sendip.FinalizePlain` | sendip.c:640-655 | one round of the loop with a header that only fills itself in |
| `Sendip.FinalizeTransport` | sendip.c:640-655 | one round with a transport header, which also writes into an outer header |
| `Sendip.FinalizeEsp` | sendip.c:640-655 | one round with ESP, which shrinks the packet inside |
| `Sendip.FinalizeAll` | sendip.c:640-655 | after the loop the window is the whole encapsulation |
| `Sendip.BuildPacket` | sendip.c:606-659 | for every list of modules and every payload the packet sent is exactly the recursive encapsulation |
| `Peeling.PeelsWrapIff` | sendip.c:640-655 | a receiver who reads the length of a header from its bytes finds exactly what is inside it if and only if the header tells its length, a condition on the header before it is finished; an ESP packet is always opened |
| `Peeling.PeelsNest` | sendip.c:606-659 | so, taking headers that tell their lengths off one by one, through any number of ESP layers, he gets exactly the nested packets and at last the data |
| `Receiver.SeenFixed` | tcp.c:348-357 | once the protocol of an IPv4 header is fixed no later finalizer changes it |
| `Receiver.SeenProtocol` | tcp.c:348-357 | an IPv4 header whose protocol is not given gets that of the innermost transport header it is the nearest IP header around, and else none |
| `Receiver.ChecksummedIsFinal` | sendip.c:640-655 | the addresses and the protocol a transport module checksums are those of the final IP header |
| `Receiver.TcpVerifies` | tcp.c:21-46 | an automatic TCP checksum over IPv4 verifies against the pseudo header rebuilt from the final IP header |
| `Receiver.UdpVerifies` | udp.c:20-44 | the same for UDP |
| `Receiver.IcmpVerifies` | icmp.c:20-34 | an automatic ICMP checksum verifies |
| `Receiver.Icmp6Verifies` | icmp.c:36-65 | an automatic ICMPv6 checksum verifies against the pseudo header of RFC 8200 |
| `Receiver.HalvesSumAlike` | udp.c:46-77 | a 16-bit length counts the same in either half of its 32-bit field |
| `Receiver.Udp6Verifies` | udp.c:46-77 | so an automatic UDP checksum over IPv6 verifies against the pseudo header of RFC 8200 with the length UDP carries, for every length, given or not |
| `ChecksumRules.StoredIsFieldIff` | udp.c:36-43 | what is stored is the field RFC 768 asks for, where a computed zero is all ones, exactly when the sum is no positive multiple of 65535 |
| `ChecksumRules.UdpFieldIff` | udp.c:20-44 | the UDP field in the finished packet over IPv4 is the one of RFC 768 exactly then, and otherwise says that there is no checksum |
| `ChecksumRules.Udp6FieldIff` | udp.c:46-77 | the same over IPv6 for section 8.1 of RFC 8200 |
| `ChecksumRules.ComputedZeroIsStored` | udp.c:75 | a concrete header for which zero is stored, over IPv4 and over IPv6 |
| `ChecksumRules.Tcp6VerifiesIff` | tcp.c:48-79 | an automatic TCP checksum over IPv6 verifies against RFC 8200 exactly when length and next header sum like the protocol number the source has in their place |
| `ChecksumRules.Tcp6LengthIs` | tcp.c:48-79 | that is, below 65536 bytes, when the segment has 1530 bytes |
| `ChecksumRules.EmptySegmentFails` | tcp.c:48-79 | a concrete packet, 20 bytes of TCP in an empty IPv6 header, that does not verify |
| `FinishedPacket.FinishedPacketVerifies` | sendip.c:640-655 | on the packet as sent: whoever peels down to the IP header and then to a transport segment accepts its checksum and, of UDP, its length, over IPv4 exactly when that length fits its field or is the one given, and over IPv6 exactly under the conditions below as well, through any layers between |
| `FinishedPacket.UdpLengthIsRightIff` | udp.c:122-125 | for every list: a UDP segment carries its own length, data included, exactly when that is below 65536, or is the length given |
| `FinishedPacket.FinishedHeaderVerifiesIff` | ipv4.c:435-445 | on the packet as sent: the automatic checksum of an IPv4 header verifies over the length it tells exactly when its protocol was given, or a transport header claimed it, or the byte filled in was there already |
| `ReceivedFields.Ipv4InPacket` | ipv4.c:415-447 | for every list, what is read from a finished IPv4 header: version 4, its length in words, the length of the packet from it on, the random identification, time to live 255, each unless given, and everything else as given |
| `ReceivedFields.Ipv4NamesProtocol` | ipv4.c:440-445 | its protocol: the given one, else 6, 17 or 1 for the innermost TCP, UDP or ICMP header it is nearest to, else the assigned number of the header behind it |
| `ReceivedFields.Ipv6InPacket` | ipv6.c:114-136 | the same for IPv6: version 6, the length of what follows, the assigned number of the next header, hop limit 32 |
| `ReceivedFields.TcpInPacket` | tcp.c:334-346 | the same for TCP: sequence number, data offset in words, the SYN flag, window 65535 |
| `ReceivedFields.UdpInPacket` | udp.c:122-125 | the same for UDP: ports as given, the length of header and data |
| `ReceivedFields.IcmpInPacket` | icmp.c:118-124 | the same for ICMP: by default an echo request, 8 over IPv4 and 128 over IPv6 |
| `ReceivedFields.ChainInPacket` | ah.c:99-108 | AH, fragment and routing headers carry the assigned number of what follows and are otherwise as given |
| `ReceivedFields.HopInPacket` | hop.c:230-236 | options headers carry it too |
| `ReceivedFields.GreInPacket` | gre.c:249-259 | the protocol type of GRE is 0800 or 86dd for the first IP header inside, however far in, and as given if there is none |
| `ReceivedFields.WespInPacket` | wesp.c:141-146 | WESP names what the ESP header inside wraps, or nothing if it is encrypted or there is none |
| `ReceivedFields.EspInPacket` | esp.c:152-153 | the receiver who opens ESP finds the assigned number of what it wraps |
| `ReceivedFields.SctpInPacket` | sctp.c:384-401 | an SCTP header is finished by its own checksum, wherever it stands |
| `ReceivedFields.OthersAsGiven` | sendip.c:640-655 | a header without finalizer is sent as it is |
| `Receiver.FinalProtocol` | ipv4.c:440-445 | the protocol of an IPv4 header: the given one, else that of the innermost transport header it is nearest to, else that of the next header |
| `Receiver.Ipv4ChecksumVerifiesIff` | ipv4.c:435-445 | an automatic header checksum verifies exactly when the protocol was known, or the one filled in is the byte already there |
| `Receiver.LateProtocolBreaksChecksum` | ipv4.c:439-445 | a concrete header for which it does not |
| `Receiver.WespPointsAtPayload` | wesp.c:147-164 | the header length points at the payload behind the IV and the trailer length is that of the ICV, section 2 of RFC 5840 |
| `Ah.LengthIsRightIff` | ah.c:61-73 | the length byte is right exactly for whole words of data, up to 1016 bytes |
| `Ah.DataStands` | ah.c:61-73 | the data stands behind the fixed part, of which only the length byte changes |
| `Ah.OneByteIsNotCounted` | ah.c:61-73 | one byte of data makes 13 bytes that claim to be 12 |
| `Route.LengthIsRightIff` | route.c:47-69 | the length byte of a routing header is right exactly without addresses |
| `Route.AddressStands` | route.c:58-69 | address k stands in the sixteen bytes from 8 + 16k on, and of the fixed part only the length byte changes |
| `Route.OneAddressClaimsTwo` | route.c:47-69 | one address makes 24 bytes that claim to be 40 |
| `Route.ReadAddresses` | route.c:41-72 | option -oa leaves the fixed part, the length byte and the addresses in a buffer of the new size; at a text that is no address it stops, and the length byte stays |
| `Ah.AuthData` | ah.c:61-73 | option -ad leaves the fixed part, the length byte and the data, in a buffer of the new size |
| `Walk.WalksChain` | ipv6.c:124-130 | following next headers and lengths from any header visits exactly the modules of the list, each at its finished packet |
| `Walk.WalkVisitsModules` | ipv6.c:124-130 | the payload length reaches exactly the end of the packet, and the walk visits exactly the modules of the list in their order |
| `HopOptions.ParsesAll` | hop.c:76-111 | parsing the appended options, section 4.2 of RFC 8200, gives back the options |
| `HopOptions.OnTheWire` | hop.c:125-227 | type, length and value of every option as RFC 8200, RFC 2711, RFC 2675 and RFC 6275 assign them |
| `HopOptions.LengthIsRightIff` | hop.c:238-256 | the final length byte is right exactly when the options do not fill the allocation; otherwise it claims eight bytes too many |
| `HopOptions.FinalizedParsesIff` | hop.c:230-258 | parsing the finished header gives back exactly the options and then one-byte paddings, or is impossible when they fill the allocation |
| `HopOptions.ExactFillClaimsTooMuch` | hop.c:243-256 | a concrete header for which it is |
| `HopOptions.FlagsAndLengthApart` | hop.c:107-109 | updating the length leaves every option flag alone, and setting a flag leaves the length alone |
| `HopOptions.Header.AddOption` | hop.c:76-111 | one more option behind the others, the allocation a multiple of eight within eight bytes of it, and the used length kept modulo 2048 |
| `HopOptions.Header.DoOpt` | hop.c:113-228 | the option of the letter is appended; padding outside 2 to 257 is rejected and changes nothing but its flag |
| `GreOptions.ResizedFits` | gre.c:88-139 | after resizing there are exactly the slots the flags need, and the new field has one |
| `GreOptions.StepKeepsIff` | gre.c:141-197 | an option leads from the proper layout to the proper layout exactly under the stated condition on the fields present |
| `GreOptions.RunIsProper` | gre.c:141-197 | over every run in which key and sequence number do not fall between routing and checksum, every field has its last value in the slot that counts the present fields before it |
| `GreOptions.Confluent` | gre.c:56-139 | two such runs that give the same leave the same header, whatever their order |
| `GreRuns.RunIsProperIff` | gre.c:56-197 | a run that gives routing before a checksum ends with every field in its slot exactly under a condition on the last keys and sequence numbers before the routing, between routing and checksum, and after the checksum |
| `GreRuns.EveryRun` | gre.c:56-197 | every run is either one of those above or one of these |
| `GreRuns.PlacedStepIs` | gre.c:88-139 | what the shifting amounts to, slot by slot: without the checksum a key goes into the first slot, a sequence number into that of the key, and what was there moves on if the field is new |
| `GreRuns.KeyIsRepaired` | gre.c:56-197 | a concrete run that misplaces the key and puts everything right again |
| `GreOptions.KeyAfterRoutingIsMisplaced` | gre.c:56-86 | a concrete run outside the condition that misplaces the key |
| `GreOptions.Header.Shift` | gre.c:120-139 | the loop shoves the later slots down by one and loses none |
| `GreOptions.Header.Resize` | gre.c:88-139 | room for a field, and first for the checksum word if there is routing |
| `GreOptions.Header.DoOpt` | gre.c:141-197 | one option in place is one step, with its flag; a second checksum is rejected and changes nothing |
| `GreChecksum.AutoChecksumVerifies` | gre.c:159-170 | over any run in order whose accepted checksum option is -gC, and with the flags that run leaves, the finished header verifies over header and payload |
| `GreChecksum.RunMarks` | gre.c:141-197 | over every run from a fresh header the flag of the checksum is set exactly when the accepted checksum option, the first one, gave a value, those of routing, key and sequence number exactly when they were given, and no other |
| `GreChecksum.FieldsStand` | gre.c:56-197 | after any run in order that gives all four fields, checksum, key, sequence number and routing stand in this order of RFC 1701, each as given last |
| `GreChecksum.ExplicitSumStands` | gre.c:149-158 | a checksum given with -gc stands unchanged in the finished header after every run in which it was the accepted one |
| `GreChecksum.AutoSumVerifiesIff` | gre.c:159-170 | over every run whose accepted checksum option is -gC, in order or not, the finished header verifies exactly when the run has left zero, or all ones, in the checksum field |
| `GreChecksum.AutoSumOverKey` | gre.c:159-170 | a concrete run, routing, key and -gC, after which it does not |
| `Built.OptionsTellIff` | hop.c:230-258 | a hop-by-hop or destination header built from options can be peeled off and walked over exactly when the options do not fill the allocation |
| `Built.AuthDataTellsIff` | ah.c:61-73 | an authentication header exactly when its data is whole words, up to 1016 bytes |
| `Built.AddressesTellIff` | route.c:47-69 | a routing header exactly when it has no addresses |
| `Built.EspIsOkIff` | esp.c:25-139 | an ESP header built from options is one the assembly takes, and the receiver opens, exactly when there is no authentication module or an ICV for it |
| `Built.FreshEspHasNoIcv` | esp.c:25-43 | a header without options is not, if there is an authentication module |
| `Built.GrePayloadIsDisplaced` | gre.c:25-35 | a GRE header built from options never tells its length: a receiver finds the payload four bytes early, with the last word of the header in front |
| `Bgp.DecodesIff` | bgp.c:239-395 | a receiver of a built UPDATE who reads lengths low byte first, as bgp.c stores them, gets exactly the prefixes added by -buw and then by -bun, if there were any of the latter, and otherwise a malformed message |
| `Bgp.WithdrawnOnlyIsMalformed` | bgp.c:253-276 | a concrete message that is |
| `Bgp.NetworkOrderIff` | bgp.h:13-29 | a receiver who reads the length high byte first, as RFC 4271 has it, finds it right exactly when it is a multiple of 257 |
| `Bgp.KeepaliveIsMisread` | bgp.c:44-58 | the message of initialize has 19 bytes and says 4864 to that receiver |
| `Bgp.NetworkUpdateIff` | bgp.h:13-29 | whatever the message: he gets the same UPDATE exactly when the lengths of the message, of its withdrawn routes and of its attributes are multiples of 257 |
| `Bgp.BuiltForNetworkIff` | bgp.c:239-395 | so of the messages built he gets those right whose length and whose withdrawn routes' length are; one that stops after the withdrawn routes is malformed for him as well |
| `Bgp.AnnouncedIsMisread` | bgp.c:364-394 | a concrete message that is an UPDATE for one receiver and malformed for the other |
| `Bgp.AddsProperPrefix` | bgp.c:99-122 | with enough address bytes and no explicit count the prefix added is the one meant: the first bytes, as few as hold the bits of its length |
| `Bgp.Message.ParseNlri` | bgp.c:99-122 | length and address bytes go behind the message, and the count returned is what to keep |
| `Bgp.Message.AddWithdrawn` | bgp.c:253-276 | one more withdrawn route, with the length in front of all of them patched |
| `Bgp.Message.AddAnnounced` | bgp.c:364-394 | one more reachable route, behind both lengths |
| `Bgp.Message.DoOpt` | bgp.c:125-428 | the message length is always the number of bytes and the withdrawn length that of the withdrawn routes; an option that is not accepted changes nothing in the message |
| `BgpOpen.OptionKeeps` | bgp.c:206-232 | every -boo keeps the options behind the ten fixed bytes and, unless it was given, counts them in the length of all |
| `BgpOpen.OpenDecodesIff` | bgp.c:153-236 | a receiver of section 4.2 of RFC 4271 gets the options meant exactly when the length of all of them is right and the length stated for each is that of its value |
| `BgpOpen.CountedLengthMisleads` | bgp.c:225-230 | so he never does if one of the lengths was left to bgp.c, which counts type and length along |
| `BgpOpen.OneOptionIsMalformed` | bgp.c:225-230 | a concrete option that makes the message malformed |
| `BgpOpen.OpenFields` | bgp.c:160-201 | version, AS number, hold time and identifier stand in their places; both words are right high byte first exactly when they are multiples of 257 |
| `Getopt.DecodeShrinks` | gnugetopt.c:326-646 | every option uses up characters |
| `Getopt.ParseEndsScan` | gnugetopt.c:249-305 | the operands start at the first element that ends the scan: behind a "--", or at one that is no option unless those are returned in order |
| `Getopt.ExactBeatsAbbreviation` | gnugetopt.c:337-366 | an exact long name is found whatever else it abbreviates |
| `Getopt.AbbreviationCounts` | gnugetopt.c:337-377 | with long_only a key that is no name is ambiguous exactly when it abbreviates two options and unknown exactly when it abbreviates none |
| `Getopt.TableOrderIrrelevant` | gnugetopt.c:337-377 | for distinct names every order of the table gives the same verdict and options that do the same |
| `Getopt.ParsesWrittenAll` | gnugetopt.c:222-647 | options written out, short ones clustered, with arguments joined or as the next element, long ones in either form, then "--" and operands, are parsed back as those options and those operands |
| `Getopt.JoinedIsShortIff` | gnugetopt.c:311-324 | with long_only a short option joined with its argument is taken for one exactly when its letters, up to an equals sign, neither are nor abbreviate a long name |
| `GetoptOrder.OperandsAreLeftIff` | gnugetopt.c:293-302 | without a dash in front of the option string, options written out and then operands are parsed to those options, and those operands are left, exactly when there are none or the first is no option |
| `GetoptOrder.ScanLeavesOperands` | gnugetopt.c:144-163 | the same of a scan from its first call, which has lost a plus sign in front |
| `GetoptOrder.ReportsInOrder` | gnugetopt.c:293-302 | with a dash in front, every run of options and words is reported piece by piece, a word as the argument of the event 1, and only what follows a "--" is left |
| `GetoptOrder.LettersOfSendip` | sendip.c:498 | of the letters of the main program p, D, d, f, L, S and T take an argument and v, h and V take none |
| `GetoptOrder.FirstScanReportsHost` | sendip.c:336-337 | the first scan of the main program passes over the host name as an event and leaves nothing |
| `GetoptOrder.SecondScanLeavesHost` | sendip.c:497-498 | the second one, with whatever table, stops at it and leaves it as the operand |
| `GetoptOrder.ModuleAndHost` | sendip.c:556-568 | both on a module and a host name, whatever they are |
| `GetoptReports.UnknownName` | gnugetopt.c:439-457 | a name that starts no option's name is reported with a question mark and gnuoptopt 0, and the scan goes on behind it |
| `GetoptReports.AmbiguousName` | gnugetopt.c:368-377 | so is one that abbreviates two options that differ, or are always told apart |
| `GetoptReports.NameWithValue` | gnugetopt.c:383-408 | a name or its only abbreviation with a value: the option with that argument, or a complaint with its val if it takes none |
| `GetoptReports.NameAlone` | gnugetopt.c:409-432 | without a value: the next element if one is wanted, else none; a missing one is reported with a colon or a question mark, as the option string says; a flag gets the val and the call returns 0 |
| `GetoptReports.UnknownLetter` | gnugetopt.c:470-478 | a letter that is no option, or a colon, is reported with a question mark and itself |
| `GetoptReports.LetterAsName` | gnugetopt.c:439-457 | with long_only such a letter is tried as a name, and reported with gnuoptopt 0 |
| `GetoptReports.KnownLetter` | gnugetopt.c:601-645 | the colons behind the first place of a letter say whether it takes no argument, the next element, or none when it stands alone |
| `GetoptPrefix.DecodesAlikeIff` | gnugetopt.c:460-646 | two option strings decode a short option alike exactly when its letter has the same effect in both |
| `GetoptPrefix.StrangePrefixIff` | gnugetopt.c:150-159 | of an option string that does not contain its prefix's letter again: a short option does not notice the prefix exactly when it is not the prefix's letter and no missing argument is reported with a colon, or is that letter followed by nothing where the prefix asks for an argument |
| `GetoptPrefix.AlikeIff` | gnugetopt.c:150-159 | the same for every option, short or long, and every rest of the option string; where it fails the events differ |
| `GetoptPrefix.ScanAlikeIff` | gnugetopt.c:150-159 | a whole scan says what it would say if the prefix were lost for good exactly when no option after the first one notices it |
| `GetoptPrefix.OrdinaryUnaffected` | gnugetopt.c:150-159 | so do scans of elements behind whose dash the prefix's letter does not come, if no colon follows the prefix |
| `GetoptPrefix.WrittenParsesBack` | gnugetopt.c:222-647 | options written out are parsed back by a scan with such an option string, too, unless the first is the prefix's letter |
| `GetoptPrefix.MissingIsReportedTwoWays` | gnugetopt.c:150-159 | a concrete scan that reports the same missing argument with a colon on the first call and with a question mark later |
| `GetoptPrefix.DashBecomesAnOption` | sendip.c:336-337 | with the option string of the first scan a dash behind a dash is no option on the first call and one later |
| `GetoptScanner.MyIndex` | gnugetopt.c:114-124 | the first place of a character, or none |
| `GetoptScanner.FindLong` | gnugetopt.c:340-366 | the search loop with pfound, exact and ambig finds what the lookup says |
| `GetoptScanner.Scanner.NextElement` | gnugetopt.c:249-309 | the scan goes on at the next option element, or passes an argument that is no option, or ends |
| `GetoptScanner.Scanner.TryLong` | gnugetopt.c:326-458 | the long branch gives the event of the parse, or leaves everything to the short one |
| `GetoptScanner.Scanner.ShortOption` | gnugetopt.c:460-646 | a short option, alone, with the rest of its element or with the next element |
| `GetoptScanner.Scanner.GetoptInternal` | gnugetopt.c:222-647 | one call gives the first event of the one-pass parse and leaves the rest of it, with fewer characters to scan; -1 comes exactly at its end |
| `GetoptScanner.Scanner.Scan` | gnugetopt.c:222-647 | calls until -1 give exactly the events of the parse in order, with gnuoptind at the first operand |
| `ParseArgs.RunsOfWeave` | parseargs.c:482-515 | however a text is made of words and gaps of separators, its runs are the words |
| `ParseArgs.RunsAreMaximal` | parseargs.c:482-515 | every text is made of its runs and of gaps |
| `ParseArgs.ArgumentsAreRuns` | parseargs.c:502-517 | below the limit the arguments are the runs; at the limit the last is all the text from its run on |
| `ParseArgs.ParseNArgs` | parseargs.c:502-517 | the C strings in the changed buffer are the arguments, and only separators are overwritten |
| `ParseArgs.ParseAllArgs` | parseargs.c:482-497 | the same without limit: all runs |
| `HexStream.DecodedAt` | parseargs.c:50-72 | byte k comes from digits 2k and 2k+1, a missing one counting as zero |
| `HexStream.DigitsAre` | parseargs.c:50-72 | the sixteen digits, in either case, and their values |
| `HexStream.Str2Val` | parseargs.c:40-76 | writes min(outlen, ceil(digits / 2)) bytes of the stream; or returns 0 at an invalid digit, with exactly the whole bytes before it written |
| `HexStream.ReadsPrinted` | parseargs.c:40-76 | printing bytes in either case and reading them back gives the bytes |
| `Dump.OffsetLength` | dump.c:36-41 | below 16 MiB every offset takes ten characters |
| `Dump.ColumnsDecode` | dump.c:73-99 | reading the hex columns of a dump gives back the bytes |
| `Dump.OffsetReads` | dump.c:36-41 | an offset is blanks and digits that read, in base 16 or 10 as asked for, as the number, then a colon and a space |
| `Dump.RowsAreNumbered` | dump.c:68-71 | row r of every dump starts with the number 16 r in that base |
| `Dump.CharactersShow` | dump.c:78-88 | the character column shows the byte itself exactly when it is between 32 and 126, and else a dot |
| `Dump.HeadingNames` | dump.c:36-41 | the heading names column i exactly when it is not column 10 in decimal |
| `Dump.ShowsAllIff` | dump.c:44-59 | with room for a row all bytes are shown exactly when their rows fit and they are not beyond 16 MiB |
| `Dump.PrintCells` | dump.c:73-93 | the inner loop with its two cursors writes every cell and every character once, at its final value |
| `Dump.FinishRow` | dump.c:101-110 | the blanks at the end of the last row |
| `Dump.BDump` | dump.c:26-116 | for every length of the buffer: the heading as far as it fits, behind it the dump of the bytes the unsigned room allows, or no dump if there are blanks and no bytes, the NUL at the stated end, and nothing changed behind it |
| `Dump.NothingIsNoDump` | dump.c:73-107 | no data, decimal, 200 characters: the result is 123, and no row |
| `Dump.StaysInsideIff` | dump.c:44 | all that is inside the buffer exactly when it holds heading and a row, or the heading if there are no blanks in front, or there is no data and the blanks, if any, fit |
| `Dump.OneByteRunsOut` | dump.c:44 | one byte, decimal, 100 characters: the dump ends at 137 |

## Left out

- Sockets, name lookups, loading of modules, reading of files, the main loop over option strings and the usage text: input and output.
- `strtoul`, `inet_pton` and the other text parsers of option arguments, except `str2val` in hex: the builders take parsed values.
- The option setters that store one field (`ipv4.c`, `ipv6.c`, `tcp.c`, `udp.c`, `icmp.c`, `frag.c`, `wesp.c`), ntp.c, rip.c and ripng.c: they would only add easy members.
- The octal and random branches of str2val and opt2val.
- Receiver.TcpVerifies: over IPv4; what holds over IPv6 is `ChecksumRules.Tcp6VerifiesIff`.
- Chain.Finalize: the call of a crypto module for AH (`ah.c:109-112`), because no AH header of the model has one; see the crypto modules below.
- Peeling.PeelsWrapIff: the routing field of GRE counts as the one word the source gives it, the entry that ends the list. SCTP is not peeled.
- Csum.ChecksumBlock: lengths up to INT_MAX, the range of its `int` parameter.
- Sctp.ChecksumVerifies: the header on its own, as in the source; what holds with something inside is `Sctp.InsideVerifiesIff`. Where chunk data goes (`sctp.c:76`, `sctp.c:121`) is not modelled.
- Esp.Finalize: asks that IV and ICV, counted as the source counts them, lie inside the header; `EspOptions.IcvHasRoomIff` says when two given ones do. What a write outside the allocation does is not modelled. Asks for an ICV if there is an authentication module, which otherwise divides by zero (`xorauth.c:100`).
- EspOptions.Header.GiveIcv: asks for an ICV that goes inside the allocation, `EspOptions.InBounds`, which the source does not check.
- EspOptions.Header.DoOpt: asks for the same. Options that load crypto modules are not modelled.
- EspOptions.Header.GiveIv: a second IV after an ICV was already moved does not find that ICV again; the contract says what is found instead. Asks that the ICV moves inside the allocation, `EspOptions.InBounds`, which the source does not check.
- Wesp.Finalize: a WESP header that takes its lengths from the header inside asks for an ESP header there, as the source reads its private part. The options and the padding of wesp.c are not modelled.
- The crypto modules for AH (`xorauth.c:122-258`): no AH header of the model has one.
- Freeing of memory; error messages; `gnuopterr`.
- GreChecksum.AutoSumVerifiesIff: of the options not modelled, -go may put an offset into the checksum word; other flags are any that are none of the first four.
- GreOptions.Header.DoOpt: not -go, -ge and -gv, which place, shift or order bytes differently from their description (`gre.c:198-237`), nor the plain fields.
- HopOptions.Header.AddOption: options after the header has reached 2048 bytes, whose length does not fit the byte.
- HopOptions.Header.DoOpt: the same; option -ha takes its type, length and data parsed, the length being that of the data.
- Bgp.Message.DoOpt: not -bl, -bul, -bus and -bua; the last reads through a pointer that is never set there (`bgp.c:298-363`). Asks for room in the 1400-byte buffer, which the source does not check. Numbers that overflow `strtoul` are not modelled, an invalid first number of the identifier is.
- Bgp.Message.AddWithdrawn: asks for room in the 1400-byte buffer, which the source does not check; what a write behind it does is not modelled.
- Bgp.Message.AddAnnounced: the same.
- GetoptScanner.Scanner.ShortOption: option strings with `W;`, as below.
- GetoptScanner.Scanner.GetoptInternal: option strings with `W;` (`gnugetopt.c:479-600`) are excluded; sendip uses none. The caller changes none of the variables during a scan.
- GetoptScanner.Scanner.Scan: asks that no long option has the value -1, by which the caller could not tell it from the end.
- ParseArgs.ParseNArgs: the array of arguments is long enough, as the source asks of its caller.
- Dump.BDump: the memory behind a buffer that is too small is taken to go on as far as bdump writes, and to hold a terminated text if the buffer has no characters. `sprintf` is a function from the offset to its ten characters.
- Walk.WalkVisitsModules: a routing header counts if its length byte is right; when it is, says `Built.AddressesTellIff`.
