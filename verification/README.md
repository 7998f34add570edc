# Verified models of LibreSSL transport and encoding code

This project models the parts of the vendored LibreSSL (`libressl/ssl`, `libressl/crypto`) whose correctness
is hard to see from the code, and proves what they promise. Code that changes state is modelled by classes,
arrays and loops and proved against a specification on values; the promises are lemmas about those
specifications or contracts of whole runs. `dafny verify dfyconfig.toml` checks everything.

- **CBC records.** `Hashing` defines iterated hashes and HMAC with an abstract compression function.
  `MessageDigest` is the streaming collector of `md32_common.h`. `ConstantTime`, `CbcRecord` and `RecordMac` are
  the branch-free record checks of `s3_cbc.c`, and `ProtectedRecord` seals and opens records with them as
  `tls12_record_layer.c` does. Sections 6.2.3.1 and 6.2.3.2 of RFC 5246, section 2 of RFC 2104,
  section 5.1.1 of FIPS 180-4, sections 3.1 and 3.2 of RFC 1321.
- **DTLS handshake transport.** `HandshakeMessages`, `Fragmentation`, `ReassemblyMask`, `Reassembly` (specification of a call),
  `HandshakeRuns` (whole runs on values), `MessageQueue`, `HandshakeReceiver`, `Retransmission` and the end-to-end theorem in `DtlsTransport`.
  Sections 4.2.2, 4.2.3 and 4.2.4 of RFC 6347.
- **DTLS anti-replay.** `ReplayWindow`. Section 4.1.2.6 of RFC 6347.
- **CBB, CBS and BER.** `Asn1`, `ByteReader`, `ByteBuilder`, `Documents` (what builder calls describe), `IntegerWriter`,
  `BerTrees` (what BER input denotes) and `BerConverter`; `SessionFormat` and `SessionCodec` are their client
  `ssl_asn1.c`. Sections 8.1.3, 8.3, 10.1 and 10.2 of X.690.
- **Cipher preferences.** `CipherOrder`, on a doubly linked list.
- **TLS record writing and the client handshake.** `RecordWriter` and `ClientHandshake`. Section 7.3 of RFC 5246.
- **Calendar.** `CalendarTime`.

Integer widths are written out where they matter (32-bit hash counters and masks, the 16-bit queue priority,
64-bit INTEGERs, 24-bit handshake lengths); C division is truncating division. An algorithm word of a cipher is the set of its bits. What comes from outside is a
parameter: compression, encryption and sealing functions, whether memory is available, the certificate codec, what a
BIO write returns, bytes pending in a BIO, the decisions of message handlers, the current time.

Some promises hold only in part, and the contracts say exactly where. The masks of `constant_time_lt` and
`constant_time_ge` mean what their comments say only while the difference fits a signed int, `constant_time_eq_8` only
unless words differ both in the top bit and elsewhere, and `satsub64be` is the clamped difference only below a distance
of 2^64-127.
Reassembly loses messages whose bytes all arrived in two ways that need a message to come both whole and in part: a
message handed over whole while a part of it is queued leaves an entry behind, and from then on only whole messages in
their turn come through; and a whole message ahead of its turn is thrown away if a part of it is queued. Besides, what
comes more than ten messages ahead, or a Finished ahead of the first message, is thrown away. `HandshakeRuns.Reach`
counts, from the arrivals alone, exactly how many messages a run hands over. A flight can be sent again only if the
write keys changed at most once after its first message. The record layer
ignores the verdict on CBC padding, so that a record without padding is accepted when content and MAC do not happen
to end in good padding. Adding an offset to a broken-down time overflows an int beyond the stated bounds.

## Model

| member | source | states |
|---|---|---|
| `MessageDigest.HashContext.Update` | libressl/crypto/md32_common.h:215-267 | after any update the buffered tail, the block state and the 64-bit bit counter stand for the old message followed by the new bytes |
| `MessageDigest.HashContext.Final` | libressl/crypto/md32_common.h:276-313 | the digest that comes out is the block function folded over the padded message (0x80, zeros, length field) of everything fed in, whether the length needs an extra block or not |
| `MessageDigest.CounterStep` | libressl/crypto/md32_common.h:226-232 | the split 32-bit addition with carry keeps Nh:Nl equal to the bit count modulo 2^64 for every size_t length |
| `MessageDigest.CounterIsLengthField` | libressl/crypto/md32_common.h:293-299 | a counter pair holding the bit count modulo 2^64, written in either byte order, is the length field of the standard |
| `MessageDigest.PadHasPaddedForm` | libressl/crypto/md32_common.h:282-300 | the last one or two blocks built by the finaliser are exactly the end of the padded message |
| `MessageDigest.DigestChunks` | libressl/crypto/md32_common.h:215-313 | however a message is cut into update calls, the digest is that of the whole message |
| `Hashing.PaddedBlocks` | libressl/crypto/md32_common.h:282-301 | message, 0x80, the fewest zeros and the length field fill a whole number of blocks |
| `Hashing.FoldAppend` | libressl/crypto/md32_common.h:249-256 | folding the block function over a concatenation continues the fold of its first part |
| `Hashing.KnownDigests` | libressl/ssl/s3_cbc.c:415-477 | which sizes, block widths and byte orders are known: MD5 alone is little-endian, SHA-384 and SHA-512 alone have wide blocks |
| `ConstantTime.ConstantTimeLt` | libressl/ssl/s3_cbc.c:79-85 | the mask is all ones or zero, and means less-than if and only if the difference fits a signed 32-bit int |
| `ConstantTime.ConstantTimeGe` | libressl/ssl/s3_cbc.c:87-93 | the mask is all ones or zero, and means greater-or-equal if and only if the difference fits a signed 32-bit int |
| `ConstantTime.ConstantTimeEq8` | libressl/ssl/s3_cbc.c:95-102 | the byte mask is 0x00 or 0xff, and means equality if and only if the words agree in the top bit or in all others, so always below 2^31 |
| `ConstantTime.MasksFarApart` | libressl/ssl/s3_cbc.c:79-102 | two words more than 2^31 apart for which all three masks are wrong |
| `CbcRecord.CheckPadding` | libressl/ssl/s3_cbc.c:134-166 | the branch-free scan yields all ones if and only if the last p+1 bytes all equal p and leave room for the MAC |
| `CbcRecord.Record.RemovePadding` | libressl/ssl/s3_cbc.c:115-173 | returns 1 iff the padding is good; the length then drops by exactly p+1, otherwise only the explicit IV goes; the MAC always still fits; a record too short is refused unchanged |
| `CbcRecord.CollectMac` | libressl/ssl/s3_cbc.c:236-243 | MAC byte t ends up in slot (rotation + t) mod md_size although every byte of the public range is touched |
| `CbcRecord.CycleIsMod` | libressl/ssl/s3_cbc.c:237-243 | the wrapping slot counter of the scan is the remainder by md_size |
| `CbcRecord.SpoilerIsMultiple` | libressl/ssl/s3_cbc.c:225-234 | the constant added before the division changes neither the remainder nor, hence, the rotation |
| `CbcRecord.CopyMac` | libressl/ssl/s3_cbc.c:194-265 | the output is exactly the md_size bytes that end at rec->length, for every even size up to 64 and every length within 256 of orig_len |
| `RecordMac.VarianceBlocksSuffice` | libressl/ssl/s3_cbc.c:485-522 | the block with 0x80 and the block with the length both lie among the seven blocks built in constant time, for every length and padding |
| `RecordMac.LengthBytesAreField` | libressl/ssl/s3_cbc.c:535-547 | the length bytes assembled by shifts are the length field of the hash in its byte order |
| `RecordMac.InnerTail` | libressl/ssl/s3_cbc.c:506-547 | the padded inner HMAC message is the key block followed by message, 0x80, zeros and a length field that counts the key block |
| `RecordMac.BlockByte` | libressl/ssl/s3_cbc.c:568-598 | the masked byte equals the byte of the padded message at that place, up to the block that holds the length |
| `RecordMac.BuildBlock` | libressl/ssl/s3_cbc.c:564-599 | a block built by masks is the corresponding block of the padded message |
| `RecordMac.HashStart` | libressl/ssl/s3_cbc.c:549-556 | the blocks hashed right away give the fold over the first blocks of header and data |
| `RecordMac.HashEnd` | libressl/ssl/s3_cbc.c:564-606 | what the mask lets through is the digest after exactly the block with the length |
| `RecordMac.InnerHash` | libressl/ssl/s3_cbc.c:524-606 | the inner result is the digest of key block, header and data without its MAC |
| `RecordMac.DigestRecord` | libressl/ssl/s3_cbc.c:378-627 | for all six digests the result is HMAC over header and data without its MAC, under the key itself when it is no longer than a block and under its first block otherwise |
| `ProtectedRecord.HeaderByPosition` | libressl/ssl/tls12_record_layer.c:629-661 | the first eight bytes MACed are the sequence number, the ninth is the content type, and the next two pairs, most significant byte first, are the version and the length |
| `ProtectedRecord.HeaderDetermines` | libressl/ssl/tls12_record_layer.c:629-661 | equal headers belong to the same sequence number, content type, version and length |
| `ProtectedRecord.MacInputDetermines` | libressl/ssl/tls12_record_layer.c:663-711 | two records with the same MAC input agree in sequence number, content type, version and content |
| `ProtectedRecord.Strip` | libressl/ssl/tls12_record_layer.c:1000-1024 | whatever the padding check says, the MAC taken is the last md_size bytes before the padding that was removed: p+1 bytes if the padding is good, none otherwise |
| `ProtectedRecord.AuthenticIffStripped` | libressl/ssl/tls12_record_layer.c:1010-1041 | what is left without padding is content and MAC if and only if the plaintext is content, MAC and 1 to 256 bytes of padding, or content and MAC alone with a last byte that is no good padding |
| `ProtectedRecord.AcceptedForms` | libressl/ssl/tls12_record_layer.c:1010-1053 | a decrypted record is accepted with a given content if and only if it has one of those two forms and the content is no longer than 2^14 |
| `ProtectedRecord.Open` | libressl/ssl/tls12_record_layer.c:940-1067 | a fragment is accepted with content c exactly when it passes the public length checks, decrypts, and the plaintext behind the explicit IV is authentic for c; otherwise it is refused with the alert of the check that failed |
| `ProtectedRecord.UnpaddedIsAccepted` | libressl/ssl/tls12_record_layer.c:1010-1041 | a record without any padding, content and MAC only, is accepted when its last byte is not below the length of the content: the verdict on the padding has no say |
| `ProtectedRecord.PlaintextAuthentic` | libressl/ssl/tls12_record_layer.c:1186-1246 | explicit IV, content, MAC and padding as sealed fill whole blocks and are authentic for the content |
| `ProtectedRecord.SealAndOpen` | libressl/ssl/tls12_record_layer.c:940-1260 | a sealed record opens to its content, for every cipher whose decryption inverts its encryption |
| `ReplayWindow.Satsub64be` | libressl/ssl/d1_pkt.c:134-183 | the bytewise saturating subtraction is the difference clamped to [-128, 128] if and only if the operands are less than 2^64-127 apart, so always for 48-bit numbers |
| `ReplayWindow.FarthestApart` | libressl/ssl/d1_pkt.c:134-183 | zero less the largest number comes out as -255, not as -128 |
| `ReplayWindow.Subtracted` | libressl/ssl/d1_pkt.c:161-176 | after any number of bytes the borrow and the flag describe the difference of the low parts |
| `ReplayWindow.Window.ReplayCheck` | libressl/ssl/d1_pkt.c:1120-1137 | a number passes iff it was never accepted and lies above the maximum minus the window width |
| `ReplayWindow.Window.BitmapUpdate` | libressl/ssl/d1_pkt.c:1139-1159 | the bitmap after marking is again the set of accepted numbers seen from the new maximum |
| `ReplayWindow.Window.GetRecord` | libressl/ssl/d1_pkt.c:455-499 | a record is delivered iff it passes, is not empty and opens; otherwise the window does not move |
| `ReplayWindow.Receive` | libressl/ssl/d1_pkt.c:359-512 | every run from a zeroed window delivers what a receiver that remembers every number would deliver |
| `ReplayWindow.DeliveredOrderly` | libressl/ssl/d1_pkt.c:1120-1159 | every number delivered in a run was new and within the window of the numbers before it |
| `ReplayWindow.DeliveredOnce` | libressl/ssl/d1_pkt.c:1120-1159 | no number is delivered twice |
| `ReplayWindow.DroppedForAReason` | libressl/ssl/d1_pkt.c:1120-1159 | a genuine record is dropped only if its number was delivered before or lies below the window |
| `CalendarTime.NextDayIsNextNumber` | libressl/crypto/o_time.c:137-144 | the formula counts days: the day after a valid date has the next number |
| `CalendarTime.JulianMonotone` | libressl/crypto/o_time.c:137-144 | earlier dates have smaller numbers |
| `CalendarTime.JulianInjective` | libressl/crypto/o_time.c:137-144 | a number determines the date |
| `CalendarTime.Anchor` | libressl/crypto/o_time.c:137-144 | 1 January 2000 is day 2451545 |
| `CalendarTime.JulianToDate` | libressl/crypto/o_time.c:146-161 | for every non-negative number the nested truncating divisions find a valid date with that number |
| `CalendarTime.RoundTrip` | libressl/crypto/o_time.c:137-161 | converting a valid date to its number and back gives the same date |
| `CalendarTime.SplitOffset` | libressl/crypto/o_time.c:82-96 | days and day seconds add up to the offset plus the time of day, with the seconds normalised and every intermediate result an int, wherever it can be |
| `CalendarTime.YearsInRange` | libressl/crypto/o_time.c:117-118 | the year test is a test on the day number |
| `CalendarTime.SecondsFit` | libressl/crypto/o_time.c:83-85 | taking the days out of the seconds does not overflow an int if and only if the offset is below 24856 days either way |
| `CalendarTime.SplitFits` | libressl/crypto/o_time.c:82-96 | no intermediate result of the splitting overflows an int iff the seconds are in range and the days fit both before and after the carry |
| `CalendarTime.JulianFits` | libressl/crypto/o_time.c:137-144 | no intermediate result of the day-number formula overflows an int if and only if the shifted year is at most 1469872 either way |
| `CalendarTime.Tm.GmtimeAdj` | libressl/crypto/o_time.c:76-132 | for arguments on which no int overflows: succeeds iff the new time lies in the years 1900 to 9999; then absolute seconds moved by exactly off_day days and offset_sec, with normalised fields; otherwise nothing changed |
| `CipherOrder.CipherList.Collect` | libressl/ssl/ssl_ciph.c:663-724 | the list starts as the table without the disabled ciphers, in table order, all inactive, well linked |
| `CipherOrder.CollectedJoins` | libressl/ssl/ssl_ciph.c:681-699 | what is collected from a table is collected candidate by candidate, in order |
| `CipherOrder.OneWordDisables` | libressl/ssl/ssl_ciph.c:684-689 | a single disabled word drops exactly the ciphers that share a bit with it in that word, and invalid ones are dropped anyway |
| `CipherOrder.DisabledIntersect` | libressl/ssl/ssl_ciph.c:684-689 | several disabled words leave exactly what each leaves alone |
| `CipherOrder.CipherList.AppendTail` | libressl/ssl/ssl_ciph.c:602-618 | a well-formed doubly linked list with the node moved to the end |
| `CipherOrder.CipherList.AppendHead` | libressl/ssl/ssl_ciph.c:620-636 | a well-formed doubly linked list with the node moved to the front |
| `CipherOrder.CipherList.Remove` | libressl/ssl/ssl_ciph.c:873-888 | the node is gone for good and the rest stays linked |
| `CipherOrder.ForwardOrderStep` | libressl/ssl/ssl_ciph.c:816-889 | one step of the forward traversal, although it appends behind its own end, moves exactly the visited node |
| `CipherOrder.BackwardOrderStep` | libressl/ssl/ssl_ciph.c:816-889 | the same for the backward traversal of DEL |
| `CipherOrder.RuleOnEntries` | libressl/ssl/ssl_ciph.c:850-888 | what happens to nodes is the rule on the sequence of entries |
| `CipherOrder.CipherList.ApplyRule` | libressl/ssl/ssl_ciph.c:792-893 | ADD and ORD are stable moves to the tail, DEL a stable move to the head, KILL a removal, for the selected entries only, and the list stays well formed; the laws below say which entries are selected |
| `CipherOrder.AnySelects` | libressl/ssl/ssl_ciph.c:826-888 | a rule that names nothing kills every entry, adds every inactive one, and moves or deletes every active one |
| `CipherOrder.OneWordSelects` | libressl/ssl/ssl_ciph.c:833-844 | a rule with a single algorithm word touches, among those, exactly the entries whose cipher shares a bit with it in that same word |
| `CipherOrder.StrengthOrIdSelects` | libressl/ssl/ssl_ciph.c:823-847 | of a strength word only bits 2 to 8 count, and an identifier selects exactly its cipher |
| `CipherOrder.WordsIntersect` | libressl/ssl/ssl_ciph.c:823-847 | a rule with several words selects exactly what each of them selects alone |
| `CipherOrder.BitsReplaceWords` | libressl/ssl/ssl_ciph.c:830-832 | with strength bits given, only they and the identifier decide |
| `CipherOrder.KillByAuth` | libressl/ssl/ssl_ciph.c:836-888 | killing by an authentication word leaves, in order, exactly the entries that share no bit with it |
| `CipherOrder.CipherList.CountStrengths` | libressl/ssl/ssl_ciph.c:921-929 | a counter is positive iff an active entry has that strength |
| `CipherOrder.SortStep` | libressl/ssl/ssl_ciph.c:934-936 | one ORD by strength turns the order sorted above a strength into the order sorted from it |
| `CipherOrder.SortSkip` | libressl/ssl/ssl_ciph.c:934-936 | a strength no active entry has may be skipped |
| `CipherOrder.CipherList.StrengthSort` | libressl/ssl/ssl_ciph.c:895-940 | inactive entries first in their old order, then the active ones by descending strength, stably |
| `CipherOrder.DescendingOrder` | libressl/ssl/ssl_ciph.c:901-905 | the active part is in descending order of strength |
| `CipherOrder.SortKeepsEntries` | libressl/ssl/ssl_ciph.c:901-905 | sorting neither loses nor duplicates an entry |
| `ByteReader.WriterThenReader` | libressl/ssl/bs_cbs.c:249-333 | the element reader takes exactly one written element off the front, whatever follows |
| `ByteReader.ReaderThenWriter` | libressl/ssl/bs_cbs.c:249-333 | what the strict reader accepts is what the writer emits for that tag and contents |
| `ByteReader.TakeAsn1Iff` | libressl/ssl/bs_cbs.c:335-359 | reading succeeds with tag, contents and rest iff the input is the written element followed by the rest |
| `ByteReader.RelaxedReader` | libressl/ssl/bs_cbs.c:249-333 | the relaxed reader accepts, besides, only the indefinite form of a constructed element |
| `ByteReader.MinimalIsIntegerOctets` | libressl/ssl/bs_cbs.c:398-408 | a non-negative INTEGER that passes the minimality tests is the shortest encoding of its value |
| `ByteReader.TakeUint64Iff` | libressl/ssl/bs_cbs.c:383-420 | the integer reader inverts the minimal encoding of every 64-bit number and accepts nothing else |
| `ByteReader.TakePrefixedIff` | libressl/ssl/bs_cbs.c:203-212 | a length-prefixed read succeeds iff the input is prefix, contents and rest |
| `ByteReader.Cbs.GetU` | libressl/ssl/bs_cbs.c:134-153 | the loop yields the big-endian value and advances by its width, or leaves the cursor alone |
| `ByteReader.Cbs.GetLengthPrefixed` | libressl/ssl/bs_cbs.c:203-212 | the cursor method takes exactly the prefixed field |
| `ByteReader.Cbs.GetAnyElement` | libressl/ssl/bs_cbs.c:249-333 | the cursor method succeeds and advances exactly as the element reader says, and does not move on failure |
| `ByteReader.Cbs.GetAsn1` | libressl/ssl/bs_cbs.c:335-359 | an element of the wanted tag, or failure |
| `ByteReader.Cbs.GetAsn1Uint64` | libressl/ssl/bs_cbs.c:383-420 | the overflow test in the loop refuses exactly numbers of 2^64 and more |
| `ByteReader.Cbs.GetOptional` | libressl/ssl/bs_cbs.c:422-433 | an absent element leaves the cursor where it is |
| `ByteReader.Cbs.GetOptionalOctets` | libressl/ssl/bs_cbs.c:435-456 | the nested octet string must fill its element |
| `ByteReader.Cbs.GetOptionalUint64` | libressl/ssl/bs_cbs.c:458-477 | the nested number must fill its element; absent means the default |
| `ByteBuilder.Buffer.Add` | libressl/ssl/bs_cbb.c:91-127 | room is made without touching what is there; it fails only when a fixed buffer is too small, a size_t cannot hold the length, or memory runs out |
| `ByteBuilder.Buffer.PatchFixed` | libressl/ssl/bs_cbb.c:257-262 | a fixed-width length is patched in iff it fits |
| `ByteBuilder.Buffer.PatchDer` | libressl/ssl/bs_cbb.c:202-260 | short form in place, or long form with the contents shifted by exactly the missing octets |
| `ByteBuilder.CloseLast` | libressl/ssl/bs_cbb.c:194-268 | closing a child puts its length before its bytes and detaches it for good |
| `ByteBuilder.FlushLevel` | libressl/ssl/bs_cbb.c:183-271 | flushing closes all pending children, innermost first; it fails only if one of their lengths does not fit or the closed bytes have no room |
| `ByteBuilder.AddBytes` | libressl/ssl/bs_cbb.c:359-369 | the bytes come behind everything this level held, with all children closed; a flushed child refuses; an open one refuses only for a length that does not fit or for want of room |
| `ByteBuilder.AddU` | libressl/ssl/bs_cbb.c:129-149 | the low bytes of a number, most significant first, at this level; more than four are refused and none change nothing |
| `ByteBuilder.AddLengthPrefixed` | libressl/ssl/bs_cbb.c:288-308 | a child with a pending fixed-width length is open behind what this level held |
| `ByteBuilder.AddAsn1` | libressl/ssl/bs_cbb.c:328-357 | a child with a pending ASN.1 length is open behind the tag; long tags are refused |
| `ByteBuilder.Finish` | libressl/ssl/bs_cbb.c:151-181 | the finished bytes have every pending length filled in |
| `Documents.ClosedRepresents` | libressl/ssl/bs_cbb.c:183-271 | closing the buffer and closing the described document agree at every level |
| `Documents.ClosedSized` | libressl/ssl/bs_cbb.c:219-262 | after successful calls every length in the document fits its prefix |
| `Documents.ExtentBelow` | libressl/ssl/bs_cbb.c:202-262 | while lengths are pending the buffer is never longer than once all of them are filled in |
| `Documents.ApplyAdds` | libressl/ssl/bs_cbb.c:151-369 | a call at any level only adds to the document: whatever did not fit before does not fit after |
| `Documents.DoomedStays` | libressl/ssl/bs_cbb.c:151-369 | what makes a run of calls fail makes every longer run fail |
| `Documents.Build` | libressl/ssl/bs_cbb.c:151-369 | any run of calls, at any levels and with any mix of prefixes, then finish, yields the serialisation of the nested structure described; in a fixed buffer it succeeds iff every call is on an open level, every tag is short, every length fits its prefix and the serialisation fits the buffer; in a growing one, given memory, iff it fits a size_t |
| `IntegerWriter.AddAsn1Uint64` | libressl/ssl/bs_cbb.c:417-468 | the loop over eight bytes writes the shortest INTEGER encoding, with a zero before a set high bit |
| `BerTrees.StrictReadsDer` | libressl/ssl/bs_cbs.c:232-247 | the definite encoding of a list of trees is read back by the strict reader, recursively, as those trees |
| `BerTrees.DefiniteUnchanged` | libressl/ssl/bs_ber.c:213-236 | a list without indefinite elements is already its own definite encoding |
| `BerTrees.IndefiniteMeans` | libressl/ssl/bs_ber.c:84-96 | an indefinite SEQUENCE (0x30), SET (0x31), application or private element keeps its children; any other universal one is the string of its pieces under the tag less 0x20; a context one is a string iff its first child is a definite non-empty universal element other than SEQUENCE and SET |
| `BerTrees.KeepsChildrenIff` | libressl/ssl/bs_ber.c:155-186 | by tag numbers, when children are kept and when they are concatenated |
| `BerTrees.MeaningsStand` | libressl/ssl/bs_ber.c:143-211 | at every depth the output has one child for each child of the input, under the same tag, except where a string is put together |
| `BerConverter.ReadPiece` | libressl/ssl/bs_ber.c:133-147 | every element read is end-of-contents, an indefinite header or a whole definite element, and input shrinks |
| `BerConverter.DecideSquash` | libressl/ssl/bs_ber.c:155-186 | children are concatenated iff the tag is primitive, or context-specific before a non-empty primitive child; KeepsChildrenIff says the same by tag numbers |
| `BerConverter.ConvertOne` | libressl/ssl/bs_ber.c:127-237 | one element consumed is one element (or fragment) written |
| `BerConverter.ConvertIndefinite` | libressl/ssl/bs_ber.c:143-211 | an indefinite element becomes a definite one, or its fragments |
| `BerConverter.ConvertDefinite` | libressl/ssl/bs_ber.c:213-236 | a definite element is rewritten from its converted contents |
| `BerConverter.Convert` | libressl/ssl/bs_ber.c:120-240 | consumes the encoding of a list of elements (and the end-of-contents it looks for) and writes that list in definite form; terminates because the input shrinks; fails on such a list only if it nests too deep, an output length does not fit, or there is no room |
| `BerConverter.ConvertAll` | libressl/ssl/bs_ber.c:120-240 | on success the input denotes a list of elements, the output is the definite encoding of their trees, the strict reader reads it back as those trees, one for each element and of its shape (an indefinite SEQUENCE or SET as a node with one child for each child), and input without indefinite elements is unchanged; given memory, it succeeds iff the input denotes a list that nests no deeper than 2048 and whose output lengths fit |
| `BerConverter.EncodeUnique` | libressl/ssl/bs_ber.c:120-240 | the input denotes only one list of elements |
| `ReassemblyMask.Mark` | libressl/ssl/d1_both.c:132-141 | exactly the bits of the range are added, bit by bit or by first, whole and last bytes |
| `ReassemblyMask.IsComplete` | libressl/ssl/d1_both.c:143-149 | complete iff every byte of the message is covered |
| `HandshakeMessages.HeaderWrittenIsRead` | libressl/ssl/d1_both.c:1124-1151 | a written header is read back field by field; FragmentLaid says where each field stands |
| `HandshakeMessages.HeaderReadIsWritten` | libressl/ssl/d1_both.c:1175-1205 | a header that was read came from no other bytes |
| `HandshakeMessages.DecodedLaid` | libressl/ssl/d1_both.c:1175-1205 | a decoded header has its type at byte 0 and the big-endian values of bytes 1-3, 4-5, 6-8 and 9-11 as message length, sequence number, fragment offset and fragment length |
| `HandshakeMessages.FragmentLaid` | libressl/ssl/d1_both.c:1124-1151 | an encoded fragment has its fields at those positions and the bytes of the body behind them |
| `HandshakeMessages.RecordedLaid` | libressl/ssl/d1_both.c:315-341 | the transcript entry of a message is the header with offset 0 and the whole length, field by field, and the body |
| `HandshakeMessages.ReadHeader` | libressl/ssl/d1_both.c:1175-1205 | the five cursor reads succeed iff twelve bytes are there and give the fields at their positions: bytes 6-8 are the offset, bytes 9-11 the fragment length |
| `HandshakeMessages.TilesJoin` | libressl/ssl/d1_both.c:247-361 | the bytes of a tiling joined together are the covered part of the message |
| `Fragmentation.Sender.SettleMtu` | libressl/ssl/d1_both.c:218-237 | an implausible MTU is replaced by the one queried or by the guess |
| `Fragmentation.Sender.SendFragment` | libressl/ssl/d1_both.c:248-358 | one turn sends a correct fragment at the current offset although its header overwrites bytes already sent, and leaves the rest of the message intact |
| `Fragmentation.Sender.NoteFragment` | libressl/ssl/d1_both.c:315-341 | the transcript gains the bytes as if the message were sent whole |
| `Fragmentation.Sender.WriteMessage` | libressl/ssl/d1_both.c:210-361 | the fragments tile the message exactly, each record has its header fields at their positions and the bytes of the body at that offset, fits the MTU, and but for the last fills it, and the transcript gains the single-fragment form |
| `Fragmentation.Sender.WriteChangeCipherSpec` | libressl/ssl/d1_both.c:247-361 | a ChangeCipherSpec goes out as one record of one byte |
| `MessageQueue.Memcmp` | libressl/ssl/pqueue.c:115-131 | comparing eight big-endian bytes compares the numbers |
| `MessageQueue.Queue.Insert` | libressl/ssl/pqueue.c:104-137 | the list stays strictly sorted; insertion is refused iff the priority is taken, and then nothing changes |
| `MessageQueue.Queue.Pop` | libressl/ssl/pqueue.c:145-154 | the smallest priority leaves |
| `MessageQueue.Queue.Find` | libressl/ssl/pqueue.c:156-167 | finds the item with the priority iff there is one |
| `HandshakeReceiver.Buffered.Add` | libressl/ssl/d1_both.c:614-629 | the bytes of a fragment and its range join the entry; the bitmask is dropped iff the message is complete |
| `HandshakeReceiver.Receiver.Enqueue` | libressl/ssl/d1_both.c:631-643 | the insertion whose result is ignored always succeeds |
| `HandshakeReceiver.Receiver.ReassembleFragment` | libressl/ssl/d1_both.c:555-652 | queue and bitmasks do what the map of entries with covered positions does, errors included |
| `HandshakeReceiver.Receiver.ProcessOutOfSequence` | libressl/ssl/d1_both.c:655-739 | stale, far, duplicate and premature messages are discarded, others buffered or reassembled |
| `HandshakeReceiver.Receiver.RetrieveBuffered` | libressl/ssl/d1_both.c:486-537 | the head is handed over iff it is complete, carries the expected number and nothing stale precedes it |
| `HandshakeReceiver.Receiver.HandOver` | libressl/ssl/d1_both.c:407-428 | the delivered message and transcript are those of a single fragment, and the expected number moves on by one |
| `HandshakeReceiver.Receiver.ReadFragment` | libressl/ssl/d1_both.c:766-858 | every branch for a fragment just read agrees with the specification on values |
| `HandshakeReceiver.Receiver.ReceiveMessage` | libressl/ssl/d1_both.c:371-434 | reading until a message is complete agrees with the specification on values |
| `Reassembly.GetMessageInSequence` | libressl/ssl/d1_both.c:371-434 | whatever arrives, a call hands over exactly the expected number or nothing, and no entry lies more than ten ahead |
| `Reassembly.ArriveFaithful` | libressl/ssl/d1_both.c:742-861 | fragments of honest messages keep every entry equal to its message wherever it is covered |
| `Reassembly.GetMessageFaithful` | libressl/ssl/d1_both.c:371-434 | under any order, duplication, loss and overlap the message handed over is the one sent |
| `Reassembly.ArriveProgress` | libressl/ssl/d1_both.c:742-861 | a fragment of the expected message adds exactly its range; fragments of others leave that entry alone |
| `Reassembly.CoverageDecides` | libressl/ssl/d1_both.c:486-652 | from every state that honest fragments can leave, one call: with nothing stale queued the expected message is handed over iff the fragments read and what its entry holds cover every byte, and behind a stale entry iff one fragment holds the whole message |
| `HandshakeRuns.StaleIffOrphans` | libressl/ssl/d1_both.c:486-537 | over a whole run an entry stays behind in the queue if and only if some message is handed over whole while a part of it is queued |
| `HandshakeRuns.StaleEntryBlocks` | libressl/ssl/d1_both.c:486-537 | a part of one message, that message whole, then both halves of the next: the next is never handed over although every byte of it arrived |
| `HandshakeRuns.WholeThrownAway` | libressl/ssl/d1_both.c:673-700 | a part of a later message, that message whole, then the one before it: the whole message is thrown away because its number is queued, and it is never handed over although every byte arrived and no entry stays behind |
| `HandshakeRuns.RunInSequence` | libressl/ssl/d1_both.c:371-434 | whatever arrives, the messages of a run are numbered on from the expected one, once each |
| `HandshakeRuns.RunFaithful` | libressl/ssl/d1_both.c:371-434 | from honest fragments in any order, repeated, overlapping or lost, the messages of a run are those sent, in order |
| `HandshakeRuns.StaleRun` | libressl/ssl/d1_both.c:371-861 | behind an entry left over, a run hands over exactly the whole messages that come in their turn |
| `HandshakeRuns.RunDelivers` | libressl/ssl/d1_both.c:371-861 | whatever honest fragments arrive, however cut, repeated and ordered, the fragments alone decide how many messages a run hands over: those brought without a gap by the fragments taken, until a message bypasses its own queued part, and from there on only whole messages in their turn |
| `HandshakeRuns.RunReaches` | libressl/ssl/d1_both.c:371-861 | from a new connection exactly the first Reach messages are handed over, all of them iff Reach is their number, and an entry stays behind iff some message bypassed its own queued part |
| `HandshakeRuns.ReachBrought` | libressl/ssl/d1_both.c:371-861 | no message is handed over of which a byte did not arrive |
| `HandshakeRuns.UnmixedReach` | libressl/ssl/d1_both.c:673-700 | when all fragments are in time and no message comes both whole and in part, what is thrown away brings nothing and the run goes as far as the fragments bring every byte |
| `HandshakeRuns.ShortFlightPunctual` | libressl/ssl/d1_both.c:682-687 | with at most eleven messages and no Finished ahead of the first, no fragment comes too early to be kept |
| `HandshakeRuns.RunCompletes` | libressl/ssl/d1_both.c:371-861 | of acceptable messages that arrive in time and none both whole and in part, all are handed over if and only if every byte of every one arrives, and no entry stays behind |
| `HandshakeRuns.WholePassCompletes` | libressl/ssl/d1_both.c:371-861 | whatever honest fragments arrived before, also if reassembly has stalled, a pass over the flight in which every message comes in one fragment, in order, completes it |
| `DtlsTransport.ReceiveRun` | libressl/ssl/d1_both.c:371-434 | calls on the queue, the bitmasks and the buffer hand over exactly the messages of the run on values |
| `DtlsTransport.ReceiveAll` | libressl/ssl/d1_both.c:371-434 | a whole run delivers messages numbered 0, 1, 2, ... once each; from honest fragments they are the messages sent, and the transcript is theirs; if the messages are acceptable, however the arrivals are cut, exactly as many are delivered as the arrivals reach, all only if every byte arrives, and for orderly arrivals all iff every byte arrives |
| `DtlsTransport.PassesFacts` | libressl/ssl/d1_both.c:210-361 | one or more fragmentations of the flight hold only fragments of its messages and every byte of each, and one fragmentation has no message both whole and in part |
| `DtlsTransport.SendAll` | libressl/ssl/d1_both.c:210-361 | first sending and retransmissions under other MTUs put one fragmentation of the whole flight on the wire each, and the transcript records the flight once |
| `DtlsTransport.Exchange` | libressl/ssl/d1_both.c:210-434 | end to end over a network that loses, repeats and reorders fragments of any number of fragmentations: delivered is a prefix of sent, exactly as long as the arrivals reach, and the transcripts agree once all is delivered; a timely flight of at most eleven messages sent once over a network that loses nothing is delivered whole, with equal transcripts |
| `Retransmission.QueuePriority` | libressl/ssl/d1_both.c:896-911 | below 2^15, and for ChangeCipherSpec from 1 on, the stored priority is twice the number less one for a ChangeCipherSpec |
| `Retransmission.Outgoing.AllBelow` | libressl/ssl/d1_both.c:899-910 | the priority of the next message is above all queued ones, also for a ChangeCipherSpec that shares its number with the Finished to come |
| `Retransmission.Outgoing.BufferMessage` | libressl/ssl/d1_both.c:941-991 | the insertion whose result is ignored succeeds and goes to the end; epoch and session are saved with the message |
| `Retransmission.Outgoing.SendMessage` | libressl/ssl/s3_lib.c:1479-1520 | a handshake message takes the next number, is buffered and goes out in fragments under the current epoch |
| `Retransmission.Outgoing.SendChangeCipherSpec` | libressl/ssl/ssl_both.c:304-341 | a ChangeCipherSpec takes the number to come without using it up, is buffered and goes out |
| `Retransmission.Outgoing.UseWriteEpoch` | libressl/ssl/tls12_record_layer.c:286-303 | the record layer can write under the epoch in use, the current and the previous one and no other |
| `Retransmission.Outgoing.RetransmitMessage` | libressl/ssl/d1_both.c:993-1067 | iff the keys of its epoch are still there, the message of that priority goes out whole under its saved epoch, and epoch, session and record layer are restored; otherwise nothing goes out, and the switched epoch and session stay; the transcript is untouched |
| `Retransmission.Outgoing.RetransmitBuffered` | libressl/ssl/d1_both.c:913-939 | iff the keys of all epochs are still there, every buffered message goes out again, once, in the order first sent, each under the epoch saved with it; otherwise exactly those before the first whose keys are gone |
| `Retransmission.UsableIffOneChange` | libressl/ssl/tls12_record_layer.c:286-303 | between two clearings the whole flight can be sent again iff the keys changed at most once after its first message: a second change breaks it |
| `Retransmission.Outgoing.ClearBuffer` | libressl/ssl/d1_both.c:1070-1085 | the flight is emptied, and the keys of the previous write epoch go iff a ChangeCipherSpec of the flight was sent under it |
| `Retransmission.Outgoing.EpochDone` | libressl/ssl/tls12_record_layer.c:305-315 | only the previous epoch is let go, and writing continues under the current one |
| `Retransmission.Outgoing.ChangeEpoch` | libressl/ssl/tls12_record_layer.c:577-601 | new write keys begin the next epoch, and the one before becomes the previous epoch, whose keys stay for retransmission |
| `RecordWriter.Writer.WritePending` | libressl/ssl/ssl_pkt.c:631-675 | what reached the BIO and what waits are always the sealed records; a mismatched retry is refused and writes nothing |
| `RecordWriter.Writer.SealEmpty` | libressl/ssl/ssl_pkt.c:574-602 | an empty record is sealed exactly for application data, where the cipher needs it and none was sealed for this write |
| `RecordWriter.Writer.DoWrite` | libressl/ssl/ssl_pkt.c:520-628 | a chunk goes out whole, or is sealed and waits; a retry never seals it again |
| `RecordWriter.Writer.WriteBytes` | libressl/ssl/ssl_pkt.c:462-518 | sealed records hold each byte of the buffer once and in order, and a later call takes up where this one stopped |
| `RecordWriter.Writer.WriteRetrying` | libressl/ssl/ssl_pkt.c:462-675 | over any schedule of short and blocked writes, success means that exactly the buffer was sealed, in records of the type and no others, each as long as the limit allows but the last, with one empty record in front exactly where the known-IV countermeasure applies, and that the BIO got exactly the sealed records; without success what was sealed is a prefix of the buffer and a later call can take it up; with a transport that never blocks the first call succeeds |
| `ClientHandshake.GateHolds` | libressl/ssl/ssl_pkt.c:797-803 | a ChangeCipherSpec is accepted only with permission, only when none is pending, and at most once |
| `ClientHandshake.Client.AcceptChangeCipherSpec` | libressl/ssl/ssl_pkt.c:1029-1067 | a ChangeCipherSpec is taken iff it is well formed, a cipher is chosen, permission is set and the keys change; permission is then used up |
| `ClientHandshake.Client.ReadBytes` | libressl/ssl/ssl_pkt.c:764-1068 | reading does exactly what the gate on the list of arrivals says, with the limit of three records at a time and nothing read after a close_notify |
| `ClientHandshake.Client.GetMessage` | libressl/ssl/ssl_both.c:435-561 | a message read or kept, refused iff of the wrong type or longer than allowed, with the Finished MAC taken over exactly the messages before it |
| `ClientHandshake.Client.OnReadFinished` | libressl/ssl/ssl_both.c:243-302 | a Finished is accepted iff ChangeCipherSpec came first and its twelve bytes are the MAC of the transcript |
| `ClientHandshake.Client.OnServerHello` | libressl/ssl/ssl_clnt.c:291-314 | only a resumed session is permitted to hear ChangeCipherSpec here |
| `ClientHandshake.Client.OnCert` | libressl/ssl/ssl_clnt.c:329-358 | a late resumption is recognised by a Finished or a ticket, without any ChangeCipherSpec having been accepted and without permission for one |
| `ClientHandshake.Client.OnServerMessage` | libressl/ssl/ssl_clnt.c:360-400 | each message up to ServerHelloDone leads to the state the table of moves says, after it to our certificate exactly on request and else to the key exchange, and the order of messages is kept |
| `ClientHandshake.Client.OnClientMessage` | libressl/ssl/ssl_clnt.c:402-461 | each message of ours goes into the transcript and leads to the state the table of moves says |
| `ClientHandshake.Client.OnWriteFinished` | libressl/ssl/ssl_clnt.c:495-521 | permission for the peer ChangeCipherSpec is set once the own Finished is out and not before, and the flush comes next |
| `ClientHandshake.Client.Step` | libressl/ssl/ssl_clnt.c:197-630 | every turn of the switch moves as the table of moves says, keeps the events that lie behind each state, and keeps the transcript a prefix of the order of messages; and it goes on whenever handlers approve, writes go through and the message the state waits for is at hand |
| `ClientHandshake.Client.Connect` | libressl/ssl/ssl_clnt.c:179-640 | a call resumes where the last one stopped and terminates |
| `ClientHandshake.AllPlaces` | libressl/ssl/ssl_clnt.c:197-630 | the places of the states in order spell the message types of a full handshake, 1, 2, [11], [22], [12], [13], 14, [11], 16, [15], 20, [4], 20, and of a resumed one, 1, 2, [4], 20, 20 |
| `ClientHandshake.MovesForward` | libressl/ssl/ssl_clnt.c:197-630 | every move leads to a later state |
| `ClientHandshake.Run` | libressl/ssl/ssl_clnt.c:179-640 | a handshake that completes has written ChangeCipherSpec and Finished and accepted exactly one ChangeCipherSpec and then a matching Finished, in the order of a full or a resumed handshake; its transcript holds exactly the message types of such a handshake, none skipped, repeated or out of order, with a client certificate iff one was requested |
| `ClientHandshake.FullOrder` | libressl/ssl/ssl_clnt.c:197-640 | in a full handshake no peer ChangeCipherSpec comes before the client Finished |
| `SessionFormat.RoundTrip` | libressl/ssl/ssl_asn1.c:47-431 | for every mix of optional fields, decoding an encoded session into a fresh one gives it back, whatever follows, if identifiers have at most 32 bytes, the key 48, the host name no zero byte, the version fits an int and other numbers a long; otherwise it is refused |
| `SessionFormat.StoredForm` | libressl/ssl/ssl_asn1.c:47-192 | the stored form tag by tag: SEQUENCE of version 1, protocol, cipher, id and key, then context tags 1 to 6, 9 and 10, each present as the source says |
| `SessionFormat.ForeignRefused` | libressl/ssl/ssl_asn1.c:269-293 | another format number, or a cipher suite that is not two bytes, is refused |
| `SessionFormat.RestoredFields` | libressl/ssl/ssl_asn1.c:243-431 | every field survives but the cipher pointer; exactly an unset time or timeout, a negative lifetime hint and an empty ticket become defaults |
| `SessionFormat.OptIntTaken` | libressl/ssl/ssl_asn1.c:96-114 | an optional number is read back, present or not, because a later field has a larger tag |
| `SessionFormat.OptOctetsTaken` | libressl/ssl/ssl_asn1.c:126-177 | an optional octet string is read back, present or not |
| `SessionCodec.Encode` | libressl/ssl/ssl_asn1.c:47-192 | builder calls produce exactly the encoding; given memory, they succeed iff no number is negative, the certificate has an encoding and the contents fit their length |
| `SessionCodec.Decode` | libressl/ssl/ssl_asn1.c:243-431 | the cursor reads do what the field-by-field decoder says, with its limits and defaults |
| `SessionCodec.Store` | libressl/ssl/ssl_asn1.c:206-241 | given memory, a session is stored iff it has a cipher, can be encoded, and takes at most INT_MAX bytes |
| `SessionCodec.StoreAndLoad` | libressl/ssl/ssl_asn1.c:206-431 | a stored session is loaded with every field restored |

## Left out

- RecordMac.DigestRecord: the outer hash goes through EVP in the source and is taken here as the specified digest; keys between one block and 128 bytes are cut to a block (`UsedKey`), as the code does.
- MessageDigest.HashContext.Update: pointer alignment and the wide 64-bit variant of the counters are not modelled.
- ReplayWindow.Satsub64be: the big-endian fast path is not modelled.
- ReplayWindow.Window.GetRecord: the branch for the next epoch and the buffering of its records are not modelled.
- CalendarTime.Tm.GmtimeAdj: arguments on which a C int overflows are undefined in the source and left out by precondition; `long` has 64 bits.
- CipherOrder.CipherList.ApplyRule: starts from tokenised rules, with an algorithm word as the set of its bits; the rule-string scanner is not modelled, nor the prepending of a TLSv1.3 list. The relinking of KILL is one operation on neighbours.
- ByteBuilder.Buffer.Add: whether memory can be had for so many bytes is a parameter; `CBB_discard_child` and `CBB_cleanup` are not modelled.
- BerConverter.ConvertAll: `cbs_find_indefinite` and the front end that calls it are not modelled.
- ProtectedRecord.Open: CBC ciphers with a MAC only, not stream ciphers or AEAD; decryption in place is a function on values, and timing is not modelled.
- Fragmentation.Sender.WriteMessage: flushes and record writes succeed, and the record overhead is below 203 bytes; the write-error branch is not modelled.
- HandshakeReceiver.Buffered.Add: the fragment buffer and its bitmask are sequences held in fields and reassigned, so aliasing of the arrays is not modelled.
- HandshakeReceiver.Receiver.ReadFragment: each fragment is read whole from one record, what a rejected fragment leaves unread goes with it, allocation succeeds, and the listening mode is off.
- Retransmission.Outgoing.RetransmitBuffered: writing a record succeeds.
- RecordWriter.Writer.WriteRetrying: TLS only (DTLS drops a record that blocks), sealing and buffer allocation succeed, no alert is pending and the handshake is over; releasing the buffer is not modelled.
- ClientHandshake.Run: TLS only, first handshake, no session-secret callback; the two halves of reading a message are one state, alerts other than close_notify are records that are ignored or fatal, and the application has not shut the connection down itself.
- Timers, the DTLS record queue, session caching, TLS 1.3, X.509, EVP and BIO internals, and the Rust build glue: they hold no property of this kind or would only add easy members.
