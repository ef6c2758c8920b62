# uscan, modelled in Dafny

uscan discovers network cameras and appliances by sending probes and reading what comes back. This project models the
parts of it that compute: the mDNS codec, the device table and its output, the cancellable sweeps, the packet parsers,
the hand-written pattern matchers, the pcap writer, subnet enumeration and the port provider. Loops that update
variables are methods with invariants, objects that change are classes, and each is proved against a function that
specifies it; the lemmas then say what that function means.

Only one direction of each codec is in the program. The other direction is written here as functions, and the two are
proved to undo each other: a decoder from RFC 3492, a reader of walks and a message writer for RFC 1035, a compressor,
a CSV reader from RFC 4180, packet encoders and a pcap reader.

| files | part |
|---|---|
| `Punycode`, `Rfc3492`, `PunycodeExact`, `Idn` | the Punycode encoder, the decoder that undoes it, the encoder without saturation, domain names |
| `DnsName`, `DnsWire`, `DnsMessage`, `DnsAccept` | names with pointers, their encoding, the message parser, what it accepts |
| `DnsSerialise`, `DnsRewrite`, `Compressor`, `Broker` | message writers, what they reach, compression, dispatch to handlers |
| `Devices`, `Csv`, `Output` | the device table, CSV rows, what a run prints by mode and exit |
| `Sweeps` | scans, sweep tasks and stop as interleaved steps |
| `Vivotek`, `Ubiquiti`, `Panasonic`, `CyberPower`, `Foscam`, `Mask` | packet parsers and the XOR mask |
| `Regex`, `Matchers`, `Utf8`, `Eaton`, `Namespace` | what a leftmost match is, the hand-written matchers, and where a text may be sliced |
| `Pcap`, `Subnet`, `Generator`, `Ports` | record layout, host lists, random numbers, port draws |
| `Bytes`, `Text`, `Sequences`, `Arithmetic` | shared types, splitting and joining, regrouping, products and quotients |

Text is a sequence of bytes or code points; in `Eaton` it is UTF-8. Whether a bind succeeds, how far a write comes,
whether a timer is due, whether an address is private and what events a run sees are parameters. 16-, 32- and 64-bit
arithmetic is written out where it wraps or saturates.

`dafny verify dfyconfig.toml` checks the project.

## Where the code is not what one might expect

- Punycode saturates: from 3856 code points on some input is encoded to text that decodes to something else.
- A name label of 64 to 191 bytes is written and read as a label, although section 2.3.4 of RFC 1035 allows 63; from
  192 bytes on the length byte is a pointer or has wrapped.
- A TXT record loses its last string when that string is empty.
- A cancelled Arecont sweep can still send one round, exactly while it sleeps or is about to send.
- `--batch` prints a CSV or TSV header twice, and after Ctrl+C it prints no row at all.
- An Eaton answer whose value has a longer character where the looked-up name would end stops the task: the slice at
  universal-scanner/src/protocols/eaton.rs:145 is not between characters.
- A pcap write that breaks can leave part of a record, and what is written behind it is lost to readers.
- A failed `free_port` leaves its state, so the next call tries the same 64 ports.
- `subnet_hosts` gives 0.0.0.0/32 and 255.255.255.255/32 all other addresses.
- A Panasonic list without trailing bytes loses its last pair, and Vivotek and Ubiquiti drop a packet that ends in a
  bare header.
- A pcap record with more than 65493 bytes of payload carries a wrong length, and one with more than 1458 is longer than
  the header says records are.

## Model

| member | source | states |
|---|---|---|
| Punycode.EncodeLoop | universal-scanner/src/mdns.rs:263-322 | the nested loops over delta, n, h and bias compute `Encode`, and the fallback of the minimum search is never taken |
| Punycode.MinAtLeast | universal-scanner/src/mdns.rs:283-287 | the search returns the least code point not below n, given that one is left |
| Punycode.DeltaDigits | universal-scanner/src/mdns.rs:294-312 | the digit loop writes the variable-length integer `VarDigits` of the delta |
| Punycode.AdaptBias | universal-scanner/src/mdns.rs:330-340 | the damping loop computes `Adapt` |
| Rfc3492.EncoderFollowsRfc | universal-scanner/src/mdns.rs:298-340 | threshold and bias agree with a separate statement of sections 6.1 and 6.2 of RFC 3492 |
| Rfc3492.RunReadsBack | universal-scanner/src/mdns.rs:294-312 | for every bias, delta and following text, the section 3.3 reader recovers the delta and leaves exactly that text: digit runs are self-delimiting |
| Rfc3492.RunIsUnique | universal-scanner/src/mdns.rs:294-312 | the converse for lower-case digits: a text that reads as a delta starts with the run the encoder writes for that delta |
| PunycodeExact.ExactRoundTrip | universal-scanner/src/mdns.rs:263-322 | the section 6.2 decoder undoes the encoder on unbounded arithmetic on every input, and no delta of an input of at most 3855 code points exceeds a u32 |
| PunycodeExact.SurvivesExactly | universal-scanner/src/mdns.rs:263-322 | the program's encoding decodes to the input, and equals the encoding on unbounded arithmetic, if and only if no delta that is written exceeds a u32 |
| PunycodeExact.RoundTrip | universal-scanner/src/mdns.rs:263-322 | up to 3855 code points saturation has no effect: the encoding is that on unbounded arithmetic, and it decodes to the input |
| PunycodeExact.LateIsLost | universal-scanner/src/mdns.rs:288 | at every greater length the saturating multiplication loses an input |
| PunycodeExact.RoundTripBound | universal-scanner/src/mdns.rs:263-322 | all inputs up to a length survive if and only if that length is at most 3855 |
| PunycodeExact.DecodedLength | universal-scanner/src/mdns.rs:263-322 | even where it is lost, an input decodes to a text of its length or to nothing |
| DnsName.ReadNameLoop | universal-scanner/src/mdns.rs:413-452 | the loop with its recursive pointer case agrees with `ReadName` and terminates: the budget, then the bytes left, go down |
| DnsName.WalkIsRead | universal-scanner/src/mdns.rs:413-452 | along any walk from an offset to a zero byte, the reader returns the spelled name and the end of the field, or the redirect error once the budget is spent |
| DnsName.ReadNameExact | universal-scanner/src/mdns.rs:413-452 | Ok with a name and an end exactly when some walk of at most 15 redirects spells that name and ends there |
| DnsName.CycleIsError | universal-scanner/src/mdns.rs:428-443 | a trail of labels and pointers that comes back to an offset is an error for every budget |
| DnsWire.EncodeNameLoop | universal-scanner/src/mdns.rs:343-352 | the label loop writes each label behind its length cast to a byte, then a zero |
| DnsWire.NameIsRead | universal-scanner/src/mdns.rs:413-452 | a written name, whole or ending in a pointer, reads as its labels joined with the name at the pointer, and ends behind the zero or the pointer; it fails when the pointer fails |
| DnsWire.SuffixByPointer | universal-scanner/src/mdns.rs:428-443 | a suffix replaced by a pointer that resolves to it leaves the name the same |
| DnsWire.EncodeNameExact | universal-scanner/src/mdns.rs:343-352 | an encoded domain reads back, at any place in any packet, if and only if every label has 1 to 191 bytes |
| DnsMessage.ParseTxtLoop | universal-scanner/src/mdns.rs:455-472 | the string loop agrees with `ParseTxt`, a lone last byte left unread |
| DnsMessage.ReadString | universal-scanner/src/mdns.rs:459-468 | the inner loop takes one string, cut at the end of the record or of the packet |
| DnsMessage.Rd16 | universal-scanner/src/mdns.rs:393-400 | a big-endian word and the next position, or an overflow error with the position unchanged |
| DnsMessage.Rd32 | universal-scanner/src/mdns.rs:402-409 | a big-endian number of four bytes and the next position, or an overflow error with the position unchanged |
| DnsMessage.SkipQuestions | universal-scanner/src/mdns.rs:512-520 | the question loop agrees with `ParseQuestions`, errors included |
| DnsMessage.ReadData | universal-scanner/src/mdns.rs:540-569 | the type switch agrees with `ParseData`: none for an unknown type, zeros for an address of a wrong length |
| DnsMessage.ReadSrv | universal-scanner/src/mdns.rs:474-495 | the fields of SRV data, empty when too short, and the empty name for a target that cannot be read |
| DnsMessage.ReadRecord | universal-scanner/src/mdns.rs:530-575 | one record agrees with `ParseRecord` |
| DnsMessage.ReadRecords | universal-scanner/src/mdns.rs:526-577 | the accumulating record loop, with its early exits, agrees with the recursive `ParseRecords` |
| DnsMessage.ReadCounts | universal-scanner/src/mdns.rs:505-522 | the counts of the header, the sum of the three sections without overflow |
| DnsMessage.ParseDnsLoop | universal-scanner/src/mdns.rs:501-578 | the whole parser agrees with `ParseDns` |
| DnsAccept.NamesExactly | universal-scanner/src/mdns.rs:413-452 | the reader of names answers with a name and an end exactly when a walk of at most 15 redirects spells it |
| DnsAccept.QuestionsExactly | universal-scanner/src/mdns.rs:512-520 | the questions are skipped up to an offset if and only if whole questions, each a name and four bytes inside the packet, lead there |
| DnsAccept.RecordExactly | universal-scanner/src/mdns.rs:530-575 | a record gives an answer and a next offset if and only if its owner, its ten bytes and its data are whole and the data says what the answer says under its type, a PTR name included; it stops the parse if and only if it is whole and of an unknown type |
| DnsAccept.AcceptedExactly | universal-scanner/src/mdns.rs:501-578 | a packet is accepted with some answers if and only if it has whole questions and whole records that give these answers, up to the count, the end of the packet or the first whole record of an unknown type |
| DnsAccept.BrokenPacketIsError | universal-scanner/src/mdns.rs:530-545 | one record that is not whole, before the count and inside the packet, makes the whole packet an error, whatever the records before it give |
| DnsSerialise.TxtIsRead | universal-scanner/src/mdns.rs:455-472 | written strings read back, all but a last empty one |
| DnsSerialise.SrvIsRead | universal-scanner/src/mdns.rs:474-495 | written SRV data reads back, with an empty target when the target does not resolve |
| DnsSerialise.RecordIsRead | universal-scanner/src/mdns.rs:530-575 | a written record reads as its answer and the position behind it; an unknown type stops the parse |
| DnsSerialise.MessageIsRead | universal-scanner/src/mdns.rs:501-578 | a written message, its names compressed in any way that resolves, parses to the answers of its records in order, up to the header count or the first unknown type |
| DnsSerialise.RoundTrip | universal-scanner/src/mdns.rs:501-578 | answers written behind any questions parse to the same answers in order across the sections: all of them, those within the count, or those before an unknown type |
| DnsRewrite.ReadIsSpelled | universal-scanner/src/mdns.rs:413-452 | every name that is read can be written: as labels of 1 to 191 bytes, which may hold dots, with a pointer to an empty name when a dot is left over |
| DnsRewrite.ParsedIsWritten | universal-scanner/src/mdns.rs:501-578 | every packet that is accepted parses to the answers of some written message, one record an answer |
| DnsSerialise.CompressionIsTransparent | universal-scanner/src/mdns.rs:428-443 | replacing suffixes of any owner, PTR or SRV names by pointers that resolve to them leaves the parsed answers unchanged |
| Compressor.NameCompresses | universal-scanner/src/mdns.rs:428-443 | a name written with its longest known suffix as a pointer can be written, is no longer, and means the same in every packet that goes on; every place then remembered, in front of pointers too, is read with at most 14 redirects |
| Compressor.CompressedParsesAlike | universal-scanner/src/mdns.rs:501-578 | a writer that compresses questions and records against everything before them, pointers to pointers included, makes messages that are no longer and parse to the same answers, within the reader's 15 redirects |
| Broker.MdnsBroker.RegisterDomain | universal-scanner/src/mdns.rs:45-50 | the filter is bound to the handler and no other filter changes |
| Broker.MdnsBroker.OnPacket | universal-scanner/src/mdns.rs:62-83 | the first answer with a registered name sends the whole packet to its handler; nothing happens on a parse error or when no name is registered |
| Broker.BrokenPacketIsSilent | universal-scanner/src/mdns.rs:62-83 | a packet with a broken record calls no handler |
| Broker.WholePacketDispatches | universal-scanner/src/mdns.rs:62-83 | a packet of whole questions and records calls the handler of the first answer whose name is registered, with all answers, and none exactly when no name is |
| Broker.DispatchIsUnique | universal-scanner/src/mdns.rs:62-83 | a message and its compressed form set off the same dispatch, and only one |
| Idn.IdnAsciiLoop | universal-scanner/src/mdns.rs:246-259 | the label loop computes the ASCII form of a domain |
| Idn.LowerIsPartner | universal-scanner/src/mdns.rs:248 | capital letters become the small letters at their places in the alphabet, and nothing else changes |
| Idn.IdnLabelIs | universal-scanner/src/mdns.rs:250-258 | an ASCII label is kept, and any other becomes xn-- and its encoding |
| Idn.Idempotent | universal-scanner/src/mdns.rs:246-259 | mapping an ASCII form again changes nothing |
| Idn.UndoneExactly | universal-scanner/src/mdns.rs:246-259 | for every domain, undoing the mapping gives the lower-cased domain if and only if no ASCII label begins with xn-- and the deltas of every other label fit a u32 |
| Idn.ShortDomainReturns | universal-scanner/src/mdns.rs:246-259 | with labels of at most 3855 code points the condition on ASCII labels is the only one |
| Idn.BuildQueryBytes | universal-scanner/src/mdns.rs:355-363 | the buffer writes make `BuildQuery` |
| Idn.QueryFrame | universal-scanner/src/mdns.rs:355-363 | around the name stand a header with one question and nothing else, the type, and the class IN |
| Idn.QueryNameExact | universal-scanner/src/mdns.rs:355-363 | the question name reads as the ASCII form and ends four bytes before the packet does, if and only if every label has 1 to 191 bytes |
| Idn.QueryParses | universal-scanner/src/mdns.rs:501-528 | such a query parses, with no answers |
| Idn.QueryUndone | universal-scanner/src/mdns.rs:246-259 | with labels of 1 to 191 bytes, reading the question name of a query and undoing the mapping gives the lower-cased domain if and only if every label can be undone |
| Devices.DeviceTable.constructor | universal-scanner/src/devices.rs:42-48 | a new table is empty and keeps the key mode |
| Devices.DeviceTable.Add | universal-scanner/src/devices.rs:51-91 | the table and the returned row are those of `Added` on the old table, which the lemmas below describe |
| Devices.DeviceTable.All | universal-scanner/src/devices.rs:94-99 | the entries in discovery order |
| Devices.DeviceTable.Len | universal-scanner/src/devices.rs:101-103 | the number of devices that `all` lists |
| Devices.RowMeansChange | universal-scanner/src/devices.rs:51-91 | a row is returned if and only if the table changes, and it is the new entry |
| Devices.RecordsExactly | universal-scanner/src/devices.rs:66-90 | `Records` lists all records of a sequence of devices: the positions whose version exceeds all before, rising in position and version |
| Devices.StreamedRows | uscan/src/run.rs:60-70 | over any run the rows streamed for a key are one for each record of that key, in order, with its version, so a repeated answer prints nothing |
| Devices.FamilyListed | universal-scanner/src/devices.rs:51-57 | the table has an entry for exactly the keys of devices of an enabled address family |
| Devices.TableCountsKeys | universal-scanner/src/devices.rs:94-103 | after any run the list is as long as there are different keys among the accepted devices |
| Devices.KeyIsInjective | universal-scanner/src/devices.rs:59-63 | equal keys mean equal addresses and, in generic mode, equal protocols |
| Devices.RunReflects | universal-scanner/src/devices.rs:51-91 | after any run each entry has the protocol, version, type and serial of the earliest device of the greatest accepted version, the first address, and the last MAC that a record version carried; keys follow first acceptance |
| Devices.SummaryIsUnique | universal-scanner/src/devices.rs:66-90 | that description leaves no choice |
| Devices.FirstKeysDistinct | universal-scanner/src/devices.rs:51-66 | the discovery order holds no key twice |
| Devices.StreamingEqualsBatch | uscan/src/run.rs:60-97 | the last streamed row of each key, in order of first appearance, is the batch list, in both key modes |
| Csv.RowReads | uscan/src/output.rs:55-67 | a rendered row reads back under section 2 of RFC 4180 to its fields, whatever they contain and whatever follows |
| Csv.RowIsDevice | uscan/src/output.rs:55-67 | the fields read back determine the device, version number included |
| Output.BatchLines | uscan/src/output.rs:39-53 | in every format the batch lines are the header, if there is one, and a row for each listed device |
| Output.RunScan | uscan/src/run.rs:29-98 | the lines and the exit code of a run over any events: a header first in every mode, rows as they come, or after a regular end the batch lines, header included; nothing more after Ctrl+C |
| Output.RunEnds | uscan/src/run.rs:52-98 | a run is interrupted when Ctrl+C is the first end and finished when the senders or the timeout are, with the devices received before; otherwise it goes on |
| Output.TsvRowReads | uscan/src/output.rs:69-75 | a TSV row whose fields have no tab splits into the fields of the device |
| Output.TsvHeaderReads | uscan/src/output.rs:19 | the TSV header is the column names |
| Output.StreamReadsBack | uscan/src/run.rs:41-65 | the printed CSV stream reads back to the column names and the fields of every row |
| Output.BatchReadsBack | uscan/src/run.rs:41-98 | the printed CSV batch reads back to the column names twice and the fields of the table after a regular end, and to the column names alone otherwise |
| Output.BatchAgreesExactly | uscan/src/run.rs:41-98 | batch prints the header and the last row of each key of the stream if and only if it ends regularly in a format without header, or it does not end regularly and nothing was accepted |
| Output.TextsAgreeExactly | uscan/src/run.rs:41-98 | the devices read from the CSV batch are the last rows of each key read from the CSV stream if and only if the run ended regularly or nothing was accepted |
| Sweeps.StepInv | universal-scanner/src/protocols/arecont.rs:129-162 | every step of a scan, a sweep task or a stop keeps the invariant `Inv` |
| Sweeps.OneLiveSweep | universal-scanner/src/protocols/dahua2.rs:54-77 | in every execution at most one sweep of an engine has an uncancelled token, and it is the one the engine stores |
| Sweeps.RoundsBounded | universal-scanner/src/protocols/arecont.rs:145-158 | an Arecont sweep sends at most four rounds and exactly four if it ends uncancelled, a netscan at most one per address; at most one round comes after a cancellation |
| Sweeps.NetscanExactly | universal-scanner/src/netscan.rs:28-60 | in every execution a finished netscan has sent one round for each address it tested and found private, and an uncancelled one has tested every address |
| Sweeps.NetscanVisits | universal-scanner/src/netscan.rs:28-60 | for every list of answers the uncancelled sweep does get through all its addresses |
| Sweeps.LateRoundExactly | universal-scanner/src/protocols/arecont.rs:146-156 | in every reachable state a cancelled sweep can still send a round, under some schedule, if and only if its task sleeps or is about to send |
| Sweeps.StopJoinsAll | universal-scanner/src/scanner.rs:183-195 | in every execution, when stop has returned every sweep is registered and finished |
| Sweeps.StopIsNotBlocked | universal-scanner/src/scanner.rs:183-195 | until stop returns some step can be taken |
| Sweeps.StepDescends | universal-scanner/src/scanner.rs:183-195 | every step after stop began lowers a natural number |
| Sweeps.StopReturns | universal-scanner/src/scanner.rs:183-195 | whatever schedule of possible steps follows, it is no longer than a bound fixed when stop begins, and one that cannot go on ends with stop returned |
| Vivotek.Parse | universal-scanner/src/protocols/vivotek.rs:93-172 | the cursor loop agrees with `Parsed` |
| Vivotek.WalkVisits | universal-scanner/src/protocols/vivotek.rs:107-163 | over an encoded list the walk visits exactly its elements, type 0x04 by its own length rule, and drops the packet if it ends in a bare header |
| Vivotek.PacketReports | universal-scanner/src/protocols/vivotek.rs:93-172 | a packet, written with its numbers, is dropped exactly when it ends bare or an element rejects; otherwise the last MAC, address and name are reported |
| Vivotek.ReportsArePackets | universal-scanner/src/protocols/vivotek.rs:93-172 | every packet that reports is the encoding of some list |
| Ubiquiti.Parse | universal-scanner/src/protocols/ubiquiti.rs:98-174 | the cursor loop agrees with `Parsed` |
| Ubiquiti.WalkVisits | universal-scanner/src/protocols/ubiquiti.rs:114-152 | over an encoded list the walk visits exactly its elements; a null type or a bare end drops the packet |
| Ubiquiti.PacketReports | universal-scanner/src/protocols/ubiquiti.rs:98-174 | with the exact size in its header a packet reports the first suitable value of each field |
| Ubiquiti.ReportsArePackets | universal-scanner/src/protocols/ubiquiti.rs:98-174 | every packet that reports is the encoding of some list behind its exact size |
| Panasonic.Parse | universal-scanner/src/protocols/panasonic.rs:111-166 | the cursor loop and the lookups agree with `Parsed` |
| Panasonic.WalkVisits | universal-scanner/src/protocols/panasonic.rs:122-137 | with something unread behind the list, at most four bytes or a pair whose value reaches the end, every pair is pushed and the first of each key kept |
| Panasonic.PacketReports | universal-scanner/src/protocols/panasonic.rs:111-166 | such a packet reports the first value of each key in the list that was written |
| Panasonic.ShortIsDropped | universal-scanner/src/protocols/panasonic.rs:111-121 | a packet of at most 52 bytes reports nothing |
| Panasonic.LastPairIsMissed | universal-scanner/src/protocols/panasonic.rs:122-137 | with nothing behind the list its last pair is missed |
| Panasonic.ReportsArePackets | universal-scanner/src/protocols/panasonic.rs:111-166 | every packet longer than its header is a head, an encoded list and something unread, and reports that list |
| CyberPower.Parse | universal-scanner/src/protocols/cyberpower.rs:93-136 | the reads on a shared position, first in the clear and then in the buffer masked in place, agree with `Parsed` |
| CyberPower.ReadU32 | universal-scanner/src/protocols/cyberpower.rs:149-158 | four bytes as a big-endian number and the position behind them, or none |
| CyberPower.ReadString | universal-scanner/src/protocols/cyberpower.rs:173-182 | the bytes behind a length byte and the position behind them, or none |
| CyberPower.PacketReports | universal-scanner/src/protocols/cyberpower.rs:93-136 | a packet whose bits are flipped exactly as any key says, with anything behind it, reports its MAC, address and name |
| CyberPower.ReportsArePackets | universal-scanner/src/protocols/cyberpower.rs:93-136 | every packet that reports something is such a packet for some contents, and reports their MAC, address and name |
| CyberPower.MaskIsTransparent | universal-scanner/src/protocols/cyberpower.rs:103-107 | any packet with a readable head parses as its unmasked form with key zero does, failures included |
| Mask.MaskFrom | universal-scanner/src/protocols/foscam.rs:106-112 | the loop masks the buffer from a position on with the cyclic key and leaves the rest |
| Mask.XorBitAt | universal-scanner/src/protocols/foscam.rs:106-112 | a bit of an exclusive or is set exactly where the bits of the operands differ |
| Mask.MaskExactly | universal-scanner/src/protocols/foscam.rs:106-112 | one text is the mask of another if and only if it has its length and differs in exactly the bits of the cyclic key |
| Mask.MaskedTwice | universal-scanner/src/protocols/foscam.rs:106-112 | masking twice with one key changes nothing, and a zero key changes nothing |
| Foscam.Parse | universal-scanner/src/protocols/foscam.rs:94-128 | the copy, the mask in place and the field reads agree with `Parsed` |
| Foscam.MaskIsTransparent | universal-scanner/src/protocols/foscam.rs:94-128 | for every key a ciphered answer parses as the plain one with its flag clear |
| Foscam.AnswerExactly | universal-scanner/src/protocols/foscam.rs:94-135 | an answer is reported as a serial, an address and a type if and only if it has the magic MO_I and its opened form, the mask taken off bit by bit, says exactly these |
| Foscam.ShortIsDropped | universal-scanner/src/protocols/foscam.rs:94-104 | something is reported if and only if there are 0x57 bytes and the magic |
| Foscam.OpensOnce | universal-scanner/src/protocols/foscam.rs:106-112 | every answer of full size has exactly one opened form |
| Foscam.CStringOfPadded | universal-scanner/src/protocols/foscam.rs:132-135 | a zero-free text padded with zeros is cut back to itself |
| Regex.MatchAtExact | universal-scanner/src/protocols/hikvision.rs:122-139 | for patterns whose repetitions stop at the next literal, the greedy matcher finds the pieces of a match if and only if they are one |
| Regex.CaptureIsUnique | universal-scanner/src/protocols/hikvision.rs:122-139 | the capture of the leftmost match is determined by the pattern and the text |
| Matchers.ExtractXmlString | universal-scanner/src/protocols/hikvision.rs:124-139 | the capture of the leftmost match of `<tag>([^<]*)</tag>`, and none exactly when nothing matches |
| Matchers.ElementCaptured | universal-scanner/src/protocols/hikvision.rs:124-139 | that capture is the content of the first place where `<tag>`, text without `<`, and `</tag>` stand |
| Matchers.ExtractJsonString | universal-scanner/src/protocols/dahua2.rs:223-239 | the capture of the leftmost match of `"key" *: *"([^"]*)"`, and none exactly when nothing matches |
| Matchers.ExtractJsonSection | universal-scanner/src/protocols/dahua2.rs:243-259 | the capture of the leftmost match of the braced member, braces included, and none exactly when nothing matches |
| Matchers.StringCaptured | universal-scanner/src/protocols/dahua2.rs:223-239 | the captured string is the content of the first place where the quoted key, a colon, perhaps between spaces, and a quoted text stand |
| Matchers.SectionCaptured | universal-scanner/src/protocols/dahua2.rs:243-259 | the captured section is the first braced text behind the quoted key and a colon, with its braces |
| Matchers.SkipSpaces | universal-scanner/src/protocols/dahua2.rs:261-268 | the end of the run of spaces |
| Matchers.MemberAt | universal-scanner/src/protocols/dahua2.rs:226-237 | behind a quoted key, the member that the pattern matches there, and none exactly when it does not |
| Eaton.ExtractObjectEntry | universal-scanner/src/protocols/eaton.rs:105-115 | on any text the capture of the leftmost match of `<OBJECT +name *= *"NAME">([^<]*)</OBJECT>`, none exactly when nothing matches, and a failed slice exactly when, before any match, an opening has a value in which the name would end inside a character |
| Eaton.ObjectCaptured | universal-scanner/src/protocols/eaton.rs:105-160 | the capture is the content of the first place where the object with this name stands, spaces where the pattern has them |
| Eaton.MatchObject | universal-scanner/src/protocols/eaton.rs:119-160 | the same at one opening |
| Eaton.FindValue | universal-scanner/src/protocols/eaton.rs:120-142 | where the value of the attribute begins, and none when the opening is not one |
| Eaton.ValueAtExactly | universal-scanner/src/protocols/eaton.rs:120-142 | there is a value exactly when `<OBJECT +name *= *"` matches, and it begins where the match ends |
| Eaton.MatchContent | universal-scanner/src/protocols/eaton.rs:148-159 | the tests behind the name agree with the rest of the pattern |
| Eaton.SplitNameFails | universal-scanner/src/protocols/eaton.rs:144-145 | every name fails on a value of ASCII one byte short of it with a longer character behind |
| Eaton.AccentFails | universal-scanner/src/protocols/eaton.rs:144-145 | one such packet: seventeen letters and an accented one, for `System.Description` |
| Eaton.AsciiNeverFails | universal-scanner/src/protocols/eaton.rs:144-145 | on ASCII text no slice fails |
| Utf8.BoundaryExactly | universal-scanner/src/protocols/eaton.rs:144-145 | the places where a text may be sliced, told by its bytes, are the places between its characters |
| Namespace.RemoveNamespace | universal-scanner/src/protocols/wsd.rs:128-154 | the loop deletes every leftmost match of `[a-zA-Z_][a-zA-Z_0-9-]*:` |
| Namespace.NameCharacters | universal-scanner/src/protocols/wsd.rs:128-154 | a prefix begins with a letter of the alphabets or an underscore and goes on with these, digits and hyphens |
| Namespace.NothingLeft | universal-scanner/src/protocols/wsd.rs:128-154 | no match is left anywhere in what is kept, from any starting position |
| Namespace.Idempotent | universal-scanner/src/protocols/wsd.rs:128-154 | removing again changes nothing |
| Pcap.PcapWriter.constructor | universal-scanner/src/pcap.rs:20-33 | the file begins as the 24-byte global header, the count as zero |
| Pcap.HeaderReads | universal-scanner/src/pcap.rs:20-33 | a reader of the global header finds the magic number, version 2.4, a snaplen of 1500 and link type 1 |
| Pcap.PcapWriter.AppendUdp | universal-scanner/src/pcap.rs:36-101 | an IPv4 packet appends its record and the count is returned; a write that breaks leaves any proper front of the record and no count; anything else changes nothing |
| Pcap.BuildRecord | universal-scanner/src/pcap.rs:51-94 | the buffer that is built step by step is the record header and the frame |
| Pcap.LengthsExact | universal-scanner/src/pcap.rs:51-53 | the 16-bit frame length is the real one if and only if the payload has at most 65493 bytes |
| Pcap.Play | universal-scanner/src/pcap.rs:36-101 | a run of calls leaves the file and the count of `After` |
| Pcap.FileReadsBack | universal-scanner/src/pcap.rs:20-101 | after any run of calls the count is the number of packets written, and a reader that checks the header and reads every field of the frames gets exactly them in order if and only if no broken write left a byte and every payload has at most 65493 bytes |
| Pcap.CutFileReadsBack | universal-scanner/src/pcap.rs:22-29 | after a clean run a reader that cuts at the stated 1500 bytes sees exactly the packets written if and only if every payload has at most 1458 bytes |
| Pcap.BrokenWriteLoses | universal-scanner/src/pcap.rs:95-97 | one broken write is enough to lose the packet behind it |
| Subnet.MaskIs | universal-scanner/src/iface.rs:103-110 | the shift, its 32-bit overflow guarded, gives the mask of the prefix |
| Subnet.HostsOfSubnet | universal-scanner/src/iface.rs:127-139 | for prefixes up to 31 host `i` is the network address plus `1 + i`, below the broadcast address, for the stated number of hosts cut at the maximum, with no wrap |
| Subnet.HostsOfSingle | universal-scanner/src/iface.rs:127-139 | for a prefix of 32 the list is empty, but for the first and the last address it is the run of all others |
| Subnet.PlannedHosts | universal-scanner/src/netscan.rs:18-23 | for every prefix the plan is the first 254 hosts without exactly the interface address |
| Ports.PortProvider.Reserve | universal-scanner/src/ports.rs:80-84 | exactly these ports become used, and the generator stays |
| Ports.PortProvider.FreePort | universal-scanner/src/ports.rs:87-102 | the first draw of 64 that is unused and binds is returned and marked used, the state moved by the draws made; a failure changes nothing |
| Generator.DrawYieldsExactly | universal-scanner/src/ports.rs:17-26 | draw `i` yields the number that the published steps of SplitMix64 give, bit by bit, at the state `i + 1` increments on |
| Generator.EveryWordIsDrawn | universal-scanner/src/ports.rs:17-19 | from every state every 64-bit word becomes the state exactly once in 2 to the 64 draws |
| Generator.MixingIsBijection | universal-scanner/src/ports.rs:20-23 | mixing has an inverse on both sides |
| Generator.EveryNumberIsYielded | universal-scanner/src/ports.rs:17-23 | from every state every 64-bit number is yielded exactly once in 2 to the 64 draws |
| Ports.EveryPortIsDrawn | universal-scanner/src/ports.rs:24-26 | every port from 1024 to 65533 is drawn from every state |
| Ports.ReturnedExactly | universal-scanner/src/ports.rs:87-102 | a call returns a port if and only if one of its 64 draws picks it, it is unused and binds, and no earlier draw does; the state becomes that of the draw |
| Ports.RunIsFresh | universal-scanner/src/ports.rs:80-102 | over any run and any bind outcomes returned ports are distinct, in range and never used before; the used set is the old one with the reserved and returned ports |
| Ports.NeverAgain | universal-scanner/src/ports.rs:80-102 | a port returned or reserved in one part of a run is not returned in a later part |
| Ports.FailureRepeats | universal-scanner/src/ports.rs:87-102 | after a failure every later call draws the same ports and fails, whatever is reserved meanwhile, until a bind that failed succeeds |

## Left out

- Sockets, multicast joins, receive loops, capture, HTTP, files, logging and clocks: input and output.
- Command line and configuration merging: one-branch facts. How JSON and table rows look is a parameter of `Output`.
- Starting and the first scan are taken to succeed in `Output`; otherwise nothing is printed. A second Ctrl+C while
  stopping is not in it.
- Engines that read fields at fixed offsets, ARP frames and `tvt_provision`: field copies.
- `arecont_convert` and `report_addresses`: a fold over answers, whose parts are in the model.
- `extract_tag` (universal-scanner/src/protocols/wsd.rs:158-178), `key_value_pairs` and `split_server_details`: the
  first is not the regular expression it names, as it has no arm for a plain tag without a prefixed one, the second
  indexes past `=` without a bound.
- `normalize_mac` and `parse_proc_net_udp`: character filters.
- Lossy UTF-8 decoding: names and values are the bytes themselves, and the matchers work on the bytes of a text, where
  every delimiter is ASCII.
- Text of addresses and MACs: parsers report raw bytes; the device table takes an address as its text, which has no `|`
  and differs between families.
- Foscam's unused name field and the rendering of its type number.
- Sweeps are a step system on values instead of classes, since their steps interleave: the invariants are about every
  schedule. Receive-task handles, `start`, and a scan after a stop are not in it, and one round is one step.
- Log lines such as the warning for a wrong magic number: only what is reported.
- Csv.RowReads: line breaks are the line feeds the program prints, where section 2 of RFC 4180 has a carriage
  return as well.
- Matchers.ExtractXmlString: the tag has no `<`, as every tag the program passes.
- Pcap.PcapWriter.constructor: a file that cannot be made, or whose header cannot be written, gives no writer.
- Pcap.PcapWriter.AppendUdp: sums wrap as in a release build; a build with overflow checks stops instead.
- DnsRewrite.ParsedIsWritten: no name in PTR or SRV data has more than 65527 bytes. Pointers can spell longer ones, which
  record data written in full cannot hold.
- Devices.StreamingEqualsBatch: the flags are fixed during a run, as in the program.
