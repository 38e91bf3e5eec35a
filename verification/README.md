# A DLMS concentrator, modelled and proved

The concentrator speaks DLMS/COSEM on one side and HDLC to a meter on the other, keeps a Jalali clock in a
DS1307 chip and load profiles in files.  This project models four of its parts and proves what they
promise.

* **Association** (`ApduTypes`, `Helpers`, `ApduParsing`, `ApduPrinting`, `ApduPrinter`, `ApduParser`,
  `ApduAgreement`, `ApduLongForms`, `ApduCompleteness`, `ApduProgress`, `ApduCounters`, `Acse`, `ApduContents`,
  `ApduCiphered`, `ApduCipheredAnswer`, `AarqHandling`, `CipheredHandshake`).  A client prints an AARQ, the server
  parses it, judges it and prints an AARE, and the client parses that (clause 8 of IEC 62056-5-3).
  `ApduPrinting` and `ApduParsing` say as functions which bytes are printed and what is read, field by field
  and error by error; `ApduPrinter`, `ApduParser` and `AarqHandling.HandleAarqRequest` are the procedures of
  the C code, which append to a byte buffer, patch a length in place, move a read position and overwrite
  settings, proved equal to those functions.  `ApduAgreement` proves that printing and parsing meet,
  `ApduLongForms` what happens where they do not, `AarqHandling` the whole handshake; `ApduCompleteness`
  proves, for every byte string and every deciphering, which fields a server must have seen before it
  accepts a ciphered context.  `Acse` says what a reader of tags and lengths finds in bytes, without
  reference to the code, and `ApduContents` what the printed PDUs hold for such a reader.  `ApduCounters` is
  about the security of a deciphered body and the invocation counter, over one PDU and over any number of
  requests in a row; `ApduCiphered`, `ApduCipheredAnswer` and `CipheredHandshake` carry a ciphered
  association from end to end, for any ciphering that the other end undoes.
* **Gateway** (`Hdlc`, `GatewayFrames`, `MeterReply`, `GatewayMachine`, `GatewayRuns`, `GatewayExchanges`,
  `GatewayTransactions`).  `Hdlc` says what a
  receiver reads in a frame (section 6.4 of IEC 62056-46) without reference to the code.  The generators
  fill frames into arrays; the converter takes a meter's reply apart and collects segments; the nine-state
  loop of `GW_Run` is a function `Next` and a class `Gateway` whose `Step` is proved to be `Next`.
  `GatewayRuns`, `GatewayExchanges` and `GatewayTransactions` hold the theorems about whole runs and whole
  transactions.
* **Calendar and clock** (`Calendar`, `RealTimeClock`).  `M2Sh` and `SH2M` against day counts defined by
  walking from one day to the next; the clock write path and read path through the BCD registers.
* **Checksum and load profile** (`Fcs16`, `ProfileBuffer`).  The table-driven CRC against bit-by-bit
  division, and the ring buffer of profile rows against a list.

Conventions: a byte is an integer below 256, and shifts and masks of unsigned values are the divisions and
remainders they compute (bit vectors in `Fcs16`).  16-bit and 8-bit truncation is written out.  Reading
behind the filled part of a buffer gives zero.  Ciphering is a parameter: any function to an error or to
bytes, and back to an error or a plain text.  Meter, head-end and time-outs are inputs of each round of the gateway.

Where the code departs from its evident intent, the code is modelled and the exact relation is stated:

* The last segment of a reply is announced three bytes longer than it is sent, and every segment loses its
  first three information bytes (`MeterReply.SegmentsAnswered`).
* The FCS of a reply is not looked at: `MeterReply.FrameTranslated` needs the header check only.
* A time-out amid segments, or a refused last segment, leaves the collection filled, and nothing else does
  (`GatewayRuns.WaitsClean`); the next reply carries the old bytes (`MeterReply.RefusedLastStays`,
  `GatewayTransactions.OldBodiesComeFirst`).
* Without a start flag or a frame type the machine stays where it is forever (`GatewayRuns.StuckForever`,
  `GatewayRuns.HeardFrameBlocks`).
* A reply with fewer than three information bytes is answered with a header that is cut short
  (`MeterReply.SingleReplyAnswered`).
* DISC keeps eight bits of the logical address (`GatewayFrames.DiscReaches`).
* The user-information lengths of a plain AARQ are constants (`ApduAgreement.RequestLengthsAreRight`).
* The counter of a ciphered AARQ must be above the one that is expected, and one more than it is expected
  next: a client's very next counter is refused, and with 0xFFFFFFFF expected any counter is taken
  (`ApduCounters.NextInOrderRefused`, `ApduCounters.LaterIsLarger`).  The counter moves on although the title
  is then found to be wrong (`ApduCounters.BodyChecked`).
* The parser goes by the lengths of elements it does not know only; those it knows it reads by fixed numbers
  of bytes or by an inner length (`ApduContents.ElementReadToEnd`).
* A buffer with even bytes from the fourth on, and so without any address, can be accepted as a meter's frame
  (`MeterReply.UnaddressedExactly`, `MeterReply.UnaddressedAccepted`).
* A profile file of more than 65535 bytes counts for what sixteen bits keep of its size
  (`ProfileBuffer.CapacityIsLargest`).
* The chip has no digits for the year 2100, which the clock accepts (`RealTimeClock.ChipLayout`).
* The H_12 mask is 0x64, so H_12 reads back as set at some hours (`RealTimeClock.RegistersInverse`).
* A capture that fails leaves header and counter apart (`ProfileBuffer.FailedCaptureDiverges`); on a full
  ring the next good capture brings them together again over a torn row (`ProfileBuffer.TornRowStays`).
* The error bytes that the server adds to its own rejections of an association are never read: the client
  stops before them and is told that no reason was given (`AarqHandling.Handshake`).
* The client has no code for two of the server's rejections: a missing common version is told as a context
  name that is not supported, and a title that is not recognized as success (`AarqHandling.ToldCode`).
* A server that refuses a high mechanism without having a challenge sends no AARE at all
  (`AarqHandling.AnswerExists`).
* An AARQ of 129 bytes with a protocol version is accepted unread (`ApduLongForms.AcceptedUnread`), and an
  AARE of 129 bytes with one is read as an acceptance (`ApduLongForms.LongAnswerRead`).
* A server that prints a mechanism number above 6 is refused by the client
  (`ApduAgreement.UnknownMechanismRefused`).

The round trips of the association hold when the one outer length byte is in the short form of section
8.1.3.4 of ITU-T X.690 (`ApduAgreement.IsShort`), the titles have eight bytes, and challenges and passwords
have fewer than 256.  `ApduAgreement.RequestIsShort` and `ApduAgreement.AnswerIsShort` say exactly which
settings lead to such a length byte, and `ApduLongForms.LongRequestRead` and `ApduLongForms.LongAnswerRead` what
becomes of the others.  Those of the ciphered association need the ciphered body to have fewer than 254
bytes and the deciphering to give it back with the security, suite and counter it was ciphered with
(`ApduCiphered.Undoes`, `ApduCipheredAnswer.UndoesResponse`).

Theorems about runs of the gateway hold whatever the timing: `GatewayRuns.Heeded` picks from any inputs the
rounds in which something happens, and `GatewayRuns.HeededSuffices` shows that the others change nothing.

## Model

| member | source | states |
|---|---|---|
| Fcs16.TableStep | development/include/crc.h:91-100 | one lookup in the 256-word table equals eight single-bit steps with the reflected polynomial 0x8408, for every register and byte |
| Fcs16.CountCrc | development/include/crc.h:86-107 | the loop returns, for every stretch of up to 65535 bytes, the complemented and swapped register of the bit-by-bit division, whose start value `Preset` and `CheckValues` pin |
| Fcs16.Preset | development/include/crc.h:89 | the start value as a law: the register any string of two bytes or more leaves is what a register of zeros is left with by the string with its first two bytes complemented |
| Fcs16.CheckValues | development/include/crc.h:86-107 | nothing has the FCS zero, and the nine digits from one to nine have 0x6E90 |
| Fcs16.BitsByWeight | development/include/crc.h:97-99 | the bits of a byte go in by weight, the lowest first |
| Fcs16.GoodResidue | development/include/crc.h:86-107 | the register run over any data and its own two emitted bytes ends in 0xF0B8 |
| Fcs16.CheckIsExact | src/DLMS_Gateway.c:1153-1169 | of all two-byte trailers only the FCS itself leaves 0xF0B8, and it always does |
| Fcs16.ShiftInLinear | development/include/crc.h:91-100 | registers run over two strings differ by what the difference of the strings leaves |
| Fcs16.BurstDetected | development/include/crc.h:86-107 | two different strings of one length that differ only within 16 consecutive bits never share an FCS |
| Fcs16.AdjacentBytesDetected | development/include/crc.h:86-107 | two different strings of one length that differ only in two adjacent bytes never share an FCS |
| Calendar.NextGregorianDay | src/Tools.c:214-247 | the Gregorian day count advances by one on the next day, across months, leap days and years |
| Calendar.NextJalaliDay | src/Tools.c:232-247 | the Jalali day count advances by one on the next day under the 33-year leap rule |
| Calendar.CountGregorianDays | src/Tools.c:214-222 | the first half of M2Sh counts the days since 1600-01-01, for every year from 1600 on |
| Calendar.SplitJalaliDays | src/Tools.c:224-247 | the second half of M2Sh finds the date that is reached by walking that many days from 979-01-01 |
| Calendar.ConvertDate | src/Tools.c:214-247 | both halves of M2Sh behind its clamp: on every valid date from 20 March 1600 on they compute the Jalali date of the same day, which the four rows on inverses and order below are about |
| Calendar.M2Sh | src/Tools.c:203-248 | the Jalali date with the same day number as the clamped Gregorian date, for every 16-bit year and 8-bit month and day |
| Calendar.SplitGregorianDays | src/Tools.c:255-267 | the middle of SH2M finds year and day of year of every day after year 0 |
| Calendar.TakeMonths | src/Tools.c:268-272 | the closing loop of SH2M finds a valid date with that day number |
| Calendar.SH2M | src/Tools.c:251-273 | the Gregorian date that many days after year 0, year stored in 16 bits |
| Calendar.Sh2mComputesToGregorian | src/Tools.c:251-273 | on a valid Jalali date SH2M's own day counter leads to the Gregorian date of the same day |
| Calendar.GregorianRoundTrip | src/Tools.c:203-273 | SH2M undoes M2Sh behind its clamp (`ConvertDate`) on every valid date from 20 March 1600 on |
| Calendar.JalaliRoundTrip | src/Tools.c:203-273 | M2Sh behind its clamp (`ConvertDate`) undoes SH2M on every valid Jalali date from 979 on |
| Calendar.NextDay | src/Tools.c:203-273 | what `ConvertDate` computes for the next Gregorian day is the next Jalali day |
| Calendar.ConversionMonotone | src/Tools.c:203-273 | what `ConvertDate` computes keeps the order of dates, in both directions |
| Calendar.Nowruz1379 | src/Tools.c:224-225 | the correspondence is anchored: 1379-01-01 is 20 March 2000 |
| Calendar.ClampedRoundTrip | src/Tools.c:208-210 | with the clamp M2Sh is invertible on a valid date exactly for the years 2000 to 2100 |
| RealTimeClock.Ds1307.SetTime | src/connection.c:1422-1435 | the seven chip registers hold the fields in BCD |
| RealTimeClock.Ds1307.GetTime | src/connection.c:1438-1452 | the fields become what the masked registers read as |
| RealTimeClock.Ds1307.PostWrite | src/exampleserver.c:3547-3561 | writing the clock stores, of any date-time that SH2M can count from year 0, the Gregorian date it leads to and the fields in eight bits; of a valid one the date of the same day |
| RealTimeClock.Ds1307.TimeNow | src/exampleserver.c:781-804 | reading the clock returns the Jalali date-time that the registers stand for |
| RealTimeClock.HourMask | src/connection.c:1449 | the mask 0x64 finds H_12 set at hours from 20 on and at hours whose last digit is 4 to 7, and no others |
| RealTimeClock.RegistersInverse | src/connection.c:1422-1452 | every field comes back from the registers, except that H_12 may come back set |
| RealTimeClock.ChipLayout | src/connection.c:1425-1433 | seconds, minutes, hours, day, date, month and year are in the registers 0 to 6, in this order and in two decimal digits each; only the year 100 is not |
| RealTimeClock.WrittenLayout | src/exampleserver.c:3547-3561 | what a write leaves in each of the chip's registers, for every valid time of the years 2000 to 2100 |
| RealTimeClock.WriteThenRead | src/exampleserver.c:3547-3561 | what was written is read back if and only if the Gregorian year is 2000 to 2100 |
| ProfileBuffer.ProfileGeneric.Capture | src/exampleserver.c:626-718 | header, counter and row of one capture, for columns that succeed and columns that fail |
| ProfileBuffer.ProfileGeneric.WriteColumns | src/exampleserver.c:679-709 | the bytes of the columns before the first error are written one after the other, and the error is returned |
| ProfileBuffer.ProfileGeneric.RowPosition | src/exampleserver.c:675-678 | the seek position is the slot of the index, also where no seek is made |
| ProfileBuffer.ProfileGeneric.Clear | src/exampleserver.c:3174-3196 | index and entries in use become zero and the rows stay where they are |
| ProfileBuffer.SlotIsRemainder | src/exampleserver.c:662-677 | the slots of the model, counted down, are the remainders by the number of entries that the code computes |
| ProfileBuffer.CaptureAppends | src/exampleserver.c:652-709 | a successful capture on a file that holds the last N rows of a list makes it hold the last N rows of the longer list |
| ProfileBuffer.ClearEmpties | src/exampleserver.c:3174-3196 | after a clear the file holds the empty list |
| ProfileBuffer.RunHolds | src/exampleserver.c:626-718 | after any run without a failed capture since its last clear: index n mod N, entries min(n, N), and slot k holds the latest row numbered k mod N |
| ProfileBuffer.RunLeaves | src/exampleserver.c:626-718 | after any run of captures, failed captures and clears: which rows, whole or torn, the slots hold, and what header and counter say |
| ProfileBuffer.RunHoldsList | src/exampleserver.c:652-716 | after any such run the file holds a list if and only if the last capture did not fail and the counter is full or equals the number of attempts modulo N |
| ProfileBuffer.TornRowStays | src/exampleserver.c:652-716 | on a full ring a failed capture and a good one make header and counter agree over a row that was never captured |
| ProfileBuffer.ReadOutIsTail | src/exampleserver.c:652-709 | read from its oldest slot the ring is exactly the tail of the list of captured rows |
| ProfileBuffer.HeaderLayout | src/exampleserver.c:652-674 | index and count are the two halves of the header, most significant byte first |
| ProfileBuffer.CapacityIsLargest | src/exampleserver.c:582-587 | the capacity computed from a file's size is the largest number of rows that fits in what sixteen bits keep of the size, or in 65536 bytes more if that is less than the header |
| ProfileBuffer.RowsFit | src/exampleserver.c:553-592 | that capacity keeps all rows in the file if and only if the file has four bytes, and one row more does not fit a file of up to 65535 bytes |
| ProfileBuffer.FailedCaptureDiverges | src/exampleserver.c:710-716 | after a failed capture header and counter differ by one and the file holds no list at all |
| ApduTypes.ByteBuffer.GetUInt8 | development/src/bytebuffer.c:701-713 | the next unread byte and one byte less to read, or an error that moves nothing |
| ApduTypes.ByteBuffer.GetUInt16 | development/src/bytebuffer.c:741-753 | the next two bytes as a big-endian word, or an error that moves nothing |
| ApduTypes.ByteBuffer.TakeBytes | development/src/bytebuffer.c:551-585 | used as a source, bb_set2 moves the read position past the bytes it copies |
| Helpers.ReverseBits | development/src/helpers.c:1146-1155 | the loop reverses the eight bits of a byte |
| ApduPrinter.SetConformanceToArray | development/src/apdu.c:258-271 | three bytes, each with its bits reversed, are appended |
| ApduPrinter.GenerateApplicationContextName | development/src/apdu.c:118-215 | protocol version, context name, title and invocation id are appended as the settings call for, or a missing title stops it |
| ApduPrinter.GetAuthenticationString | development/src/apdu.c:46-105 | ACSE requirements, mechanism and calling value are appended as the settings call for |
| ApduPrinter.GetInitiateRequest | development/src/apdu.c:281-341 | the initiate request is appended |
| ApduPrinter.GenerateUserInformation | development/src/apdu.c:353-440 | the user information is appended, plain with constant lengths or ciphered under the right command, or the error of the ciphering is returned |
| ApduPrinter.GenerateAarq | development/src/apdu.c:1154-1178 | exactly the bytes of the AARQ are appended, the length byte patched in place, or the error is returned |
| ApduPrinter.GetUserInformation | development/src/apdu.c:1068-1152 | the initiate response, ciphered if the association is, or the error of the ciphering |
| ApduPrinter.GenerateAare | development/src/apdu.c:1924-2083 | exactly the bytes of the AARE are appended, or the error of the first part that fails is returned |
| ApduParser.ParseApplicationContextName | development/src/apdu.c:789-900 | reads the context name, or fails with the code of the first byte that is wrong or missing |
| ApduParser.ParseContext | development/src/apdu.c:1288-1306 | any failure there rejects the association; a ciphered name makes three fields missing |
| ApduParser.ParseResult | development/src/apdu.c:1308-1377 | field 0xA2 for either role, with every error |
| ApduParser.ParseDiagnostic | development/src/apdu.c:1378-1430 | field 0xA3 for either role, with every error |
| ApduParser.ParseRespondingTitle | development/src/apdu.c:1431-1510 | field 0xA4: a title of eight bytes is kept, any other becomes zero |
| ApduParser.ParseCalledInvocation | development/src/apdu.c:1564-1638 | field 0xA5 for either role |
| ApduParser.ParseCallingTitle | development/src/apdu.c:1511-1538 | field 0xA6: the title, or a rejection if ciphered and not of eight bytes |
| ApduParser.ParseRespondingInvocation | development/src/apdu.c:1640-1655 | field 0xA7 |
| ApduParser.ParseCallingApInvocation | development/src/apdu.c:1656-1711 | field 0xA8, with every error |
| ApduParser.ParseCallingInvocation | development/src/apdu.c:1550-1562 | field 0xA9 |
| ApduParser.ParseServerChallenge | development/src/apdu.c:1539-1549 | field 0xAA: the server's challenge |
| ApduParser.ParseAcseRequirements | development/src/apdu.c:1713-1760 | fields 0x8A and 0x88; 0x80 settles the requirement of a ciphered context |
| ApduParser.UpdateAuthentication | development/src/apdu.c:980-1066 | the mechanism of a known name, or the code of the first wrong byte |
| ApduParser.ParseMechanism | development/src/apdu.c:1762-1790 | fields 0x8B and 0x89; GMAC without a title rejects the association |
| ApduParser.UpdatePassword | development/src/apdu.c:933-978 | field 0xAC: password or challenge of 8 to 64 bytes |
| ApduParser.ParseProtocolVersion | development/src/apdu.c:1209-1238 | field 0x80: the version, or a rejection |
| ApduParser.SkipUnknown | development/src/apdu.c:1856-1868 | any other field is passed over by its length |
| ApduParser.GetConformanceFromArray | development/src/apdu.c:233-255 | the conformance value of three bytes, lowest bit first |
| ApduParser.ParseUserInformation | development/src/apdu.c:446-779 | the initiate request or response, plain or ciphered, with policy, suite, counter and title checks |
| ApduParser.CheckPolicy | development/src/apdu.c:520-549 | the checks on a deciphered body in their order, and the counter moved on; what they amount to is in the `ApduCounters` rows |
| ApduParser.ParseParameters | development/src/apdu.c:662-778 | version, conformance, PDU size and VAA name |
| ApduParser.GetObjectCount | development/src/helpers.c:342-384 | a length of one to five bytes, kept in sixteen bits |
| ApduParser.ParseFields | development/src/apdu.c:1279-1869 | the tag loop reads field after field up to the end or the field that leaves |
| ApduParser.ParsePduBytes | development/src/apdu.c:1240-1921 | code, settings and verdict are those of the parser function, for every byte string, either role |
| Helpers.SwapBitsInvolution | development/src/helpers.c:1146-1155 | reversing the bits of a byte twice gives it back |
| ApduPrinting.CommandsMatch | development/src/apdu.c:353-440 | a request is ciphered as 0xDC exactly under general protection with a dedicated key, as 0xDB under it without, and as 0x21 otherwise; each is a command the parser deciphers, and so is the one that answers it, which is the same or 0x28 |
| ApduAgreement.ConformanceRoundTrip | development/src/apdu.c:233-271 | the 24 conformance bits survive being printed and read |
| ApduAgreement.RequestLengthsAreRight | development/src/apdu.c:364-368 | the constant lengths of a plain AARQ count its bytes if and only if there is no quality of service |
| ApduAgreement.RequestIsShort | development/src/apdu.c:1175 | the length of a plain AARQ in terms of the settings, and so exactly when its length byte is in the short form; always, if the secret has at most 64 bytes |
| ApduAgreement.AnswerIsShort | development/src/apdu.c:2082 | the same for a plain AARE with any error data; always, if the challenge has at most 53 bytes and the error at most 15 |
| ApduLongForms.LongFormRead | development/src/helpers.c:342-384 | a PDU whose length byte is above 0x80 is refused at once above 0x84; up to there its own first bytes are taken for a length, which is too much or lets the fields be read from behind it |
| ApduLongForms.LongRequestRead | development/src/apdu.c:1175 | every plain AARQ that is not in the short form has 129 to 255 bytes; it is refused with the code its size gives, leaving the server unchanged, but of 129 bytes with a protocol version it is misread: without GMAC nothing of it is looked at and the server ends as after an empty PDU, with GMAC reading goes on behind or inside the title |
| ApduLongForms.AcceptedUnread | development/src/apdu.c:1856-1868 | a concrete client, whose AARQ is acceptable, is accepted by every such server, which learns nothing from it |
| ApduLongForms.LearnedExactly | development/src/apdu.c:1240-1921 | a server has learned a plain AARQ if and only if it is short and acceptable (GMAC with logical names aside) |
| ApduLongForms.LongAnswerRead | development/src/apdu.c:2082 | the same for a plain AARE with any error data up to 255 bytes: refused with the code its size gives, or, of 129 bytes with a protocol version, read without its result, which stays an acceptance |
| ApduAgreement.AarqRoundTrip | development/src/apdu.c:1154-1178 | the server accepts a plain AARQ if and only if version, mechanism, title, challenge length and policy fit, and has then learned every setting the client sent; code, diagnostic and settings of every refusal are given |
| ApduAgreement.LearnedFields | development/src/apdu.c:446-779 | those settings by name: mechanism, password or challenge, title, version, conformance, PDU size |
| ApduAgreement.AareRoundTrip | development/src/apdu.c:1924-2083 | for any error data: the client recovers result, diagnostic, title, mechanism and challenge; a rejection with a diagnostic stops it with the matching error, an error in place of the response is a wrong tag, and otherwise conformance and PDU size come across and the code says whether the policy fits |
| ApduAgreement.UnknownMechanismRefused | development/src/apdu.c:1044-1064 | an AARE that names a mechanism above the last known one is refused as a wrong tag, whatever its error data |
| ApduAgreement.AgreedBits | development/src/apdu.c:712-721 | a bit is granted if and only if both ends proposed it and it is not general protection |
| ApduCompleteness.FieldFollows | development/src/apdu.c:1276-1868 | what every field does to the bookkeeping of a ciphered context is determined by its own bytes |
| ApduCompleteness.LackingIsUnanswered | development/src/apdu.c:1758-1806 | a requirement is open if and only if no field met it since the last ciphered context name |
| ApduCompleteness.AcceptedMeansComplete | development/src/apdu.c:1871-1899 | a server accepts only complete ciphered contexts, and rejects a readable PDU exactly for an incomplete one |
| ApduProgress.FieldReadsOn | development/src/apdu.c:1276-1868 | in which place a server goes on behind a field is a function of the bytes alone |
| ApduContents.AarqHolds | development/src/apdu.c:1154-1178 | every AARQ of up to 129 bytes, plain or ciphered, is one element that holds exactly the named ones: version, context, title, user, mechanism, secret and user information, and no reading of it holds others; a plain one without quality of service |
| ApduContents.AareHolds | development/src/apdu.c:1924-2083 | the same for every AARE: result, diagnostic of user or provider, title, user, mechanism, challenge, and the error, the response or its ciphering, but none in a ciphered rejection |
| ApduContents.ElementReadToEnd | development/src/apdu.c:1276-1868 | an element a server reads without error is read to its end if and only if its length is the assumed one, or it is the last and shorter |
| ApduContents.ConformanceBits | development/src/apdu.c:258-271 | bit k of byte j of the conformance word is bit 7 - k of byte j that is sent |
| ApduCounters.BodyChecked | development/src/apdu.c:520-549 | the parser goes on behind a deciphered body if and only if security, suite, counter and title fit; the counter moves on if and only if the first three do, and the code is that of the first that does not |
| ApduCounters.PduJudged | development/src/apdu.c:1240-1921 | for every byte string and every deciphering: of the bodies a PDU comes to all before the last fit, the last decides code and counter, and one counted leaves its counter plus one expected |
| ApduCounters.AcceptedUnderPolicy | development/src/apdu.c:1911-1917 | who is accepted has the security that is expected, if any is |
| ApduCounters.LaterIsLarger | development/src/apdu.c:528-537 | whatever is counted after a body has a larger counter if and only if that body is two below the wrap |
| ApduCounters.NextInOrderRefused | development/src/apdu.c:528-537 | the counter that follows the last one counted is refused, the one after it fits |
| ApduCounters.CountersIncrease | development/src/apdu.c:528-537 | over any number of requests in a row, whatever else changes between them, the counters of all bodies counted increase by two at least, from above the one first expected, and the last plus one is expected |
| ApduCounters.StaleRefused | development/src/apdu.c:1276-1868 | a PDU of which a server once came to a body is refused, and moves nothing, wherever that body's counter is too small by then |
| ApduCounters.ReplayRefused | development/src/apdu.c:528-537 | a request of which a body was counted is refused when it comes again, after any requests in between, and moves nothing |
| ApduCiphered.CipheredRoundTrip | development/src/apdu.c:446-779 | a server whose deciphering undoes the client's ciphering takes its AARQ if and only if version, mechanism, secret, security, suite, counter, title and dedicated key fit; code and diagnostic of every other one are given |
| ApduCiphered.LearnedKeeps | development/src/apdu.c:446-779 | what it has then learned, by name: security, suite, key, title, mechanism, secret, version, the smaller PDU size, the common bits, and the next counter |
| ApduCipheredAnswer.CipheredAnswerRead | development/src/apdu.c:1924-2083 | a client whose deciphering undoes the server's ciphering recovers result and diagnostic of every AARE; the code it ends with is given for rejections and acceptances, and conformance and PDU size come across if the response fits |
| AarqHandling.JudgeRequest | development/src/server.c:457-629 | result, diagnostic, error bytes and settings are those of the judgement, for every outcome of the parse and of the validation |
| AarqHandling.HandleAarqRequest | development/src/server.c:441-652 | parse, judgement, challenge and AARE on the real buffer and settings are those of the function, or the exception and the error are |
| AarqHandling.AnswerExists | development/src/server.c:446-456 | a plain AARQ gets an exception response exactly if all of it fits but ciphering is expected, and no AARE exactly if a high mechanism is named without a challenge |
| AarqHandling.Handshake | development/src/server.c:441-647 | for every plain AARQ and every result of the validation: the client is let in if and only if its AARQ is acceptable, version, PDU size and conformance suit the server and nothing was found against its authentication; the code it ends with is given for every refusal; let in, both ends hold the same conformance and the smaller PDU size; each other's challenge and title; and the same mechanism exactly unless the client has none and the server was left at the low one |
| AarqHandling.InitiateErrorIsSent | development/src/server.c:457-500 | the answer to an AARQ that does not suit ends in the user information with the error kind of the first thing that does not: 1 version, 3 PDU size, 2 conformance, 0 an AARQ not read to its end |
| CipheredHandshake.ExceptionExactly | development/src/server.c:446-456 | a ciphered AARQ gets an exception if and only if names and secret fit but the body does not, and it is that of the first thing that does not |
| CipheredHandshake.CipheredAssociation | development/src/server.c:441-647 | a ciphered association whose request is taken: the client is let in if and only if version, PDU sizes and conformance suit and nothing was found against its authentication, is told the diagnostic of the first that does not, and, if it can accept the response, both ends hold the same conformance, PDU size, mechanism, security and each other's challenge and title |
| AarqHandling.PasswordDecides | src/exampleserver.c:3873-3896 | with the validation of the example server an otherwise suitable client is let in if and only if the password that is checked is the secret, and told of a failed authentication otherwise |
| Hdlc.CarriesOne | src/DLMS_Gateway.c:507-540 | a frame carries one set of addresses, control byte and information only |
| GatewayFrames.ControlDecodes | src/DLMS_Gateway.c:1099-1115 | both control bytes decode to the numbers they were made from, modulo eight |
| GatewayFrames.AddressDecodes | src/DLMS_Gateway.c:339-370 | an encoded address decodes to itself modulo what its seven or fourteen bits hold |
| GatewayFrames.FrameTypeBegins | src/DLMS_Gateway.c:858-862 | the byte that is taken for the frame type is the first of the APDU, or zero |
| GatewayFrames.RequestRead | src/DLMS_Gateway.c:252-395 | client, server, device and APDU of a request are found where the head-end puts them, for one or two bytes of physical address |
| GatewayFrames.RequestOnTheLine | src/DLMS_Gateway.c:286-415 | what a receiver reads for such a request: the very address bytes, the client byte, and E6 E6 00 with the APDU |
| GatewayFrames.InformationReaches | src/DLMS_Gateway.c:286-415 | an information frame is read as well formed, with both checks good and exactly the APDU, and reaches server and client of the request if and only if their addresses fit |
| GatewayFrames.ShortFramesReach | src/DLMS_Gateway.c:741-967 | SNRM frames, of control byte 0x93, and receive-ready frames are well formed and reach the same server |
| GatewayFrames.DiscReaches | src/DLMS_Gateway.c:972-1082 | a DISC frame, of control byte 0x53, is well formed and reaches the logical device if and only if its number fits in eight bits (seven in the short form) |
| GatewayFrames.ConvertInformation | src/DLMS_Gateway.c:252-439 | fills in the information frame of a request, or refuses it with the code for its address |
| GatewayFrames.CopyApdu | src/DLMS_Gateway.c:387-392 | the APDU is copied from behind the physical address to the end of the request |
| GatewayFrames.GenerateSnrm | src/DLMS_Gateway.c:741-853 | fills in the SNRM frame |
| GatewayFrames.PollForRemainedData | src/DLMS_Gateway.c:868-967 | fills in the receive-ready frame |
| GatewayFrames.GenerateDisc | src/DLMS_Gateway.c:972-1082 | fills in the DISC frame |
| MeterReply.PlacesFound | src/DLMS_Gateway.c:507-540 | the scans find the ends of both addresses in every frame that a receiver can read |
| MeterReply.FrameTranslated | src/DLMS_Gateway.c:507-642 | every frame with a good header is taken apart as what it carries, whatever follows it in the buffer and whatever its FCS; without an information field it is refused with -4 |
| MeterReply.AcceptsExactly | src/DLMS_Gateway.c:444-736 | any buffer in which a destination address is found is accepted if and only if the frame at its front is one, header check included, with a source address of two or four bytes and an information field |
| MeterReply.UnaddressedExactly | src/DLMS_Gateway.c:507-540 | without a destination address it is accepted exactly if its length byte is odd, its format byte even, and the two bytes behind the byte after them the FCS of those three |
| MeterReply.UnaddressedAccepted | src/DLMS_Gateway.c:507-540 | nine bytes of that kind |
| MeterReply.WrongCheckRefused | src/DLMS_Gateway.c:620-718 | with any other two bytes in place of its header check a frame is refused with -6, and nothing is answered or collected |
| MeterReply.RefusalCodes | src/DLMS_Gateway.c:444-736 | -9 without start flag, -8 without frame type, -7 without end flag, -3 for a source address of another length |
| MeterReply.SingleReplyAnswered | src/DLMS_Gateway.c:687-702 | a reply in one frame becomes one answer with the sender's addresses, the information from offset 3, a length field that counts the rest, and address length 1 exactly below 256; with fewer than three information bytes it is the header cut by the missing ones, without a field there is none |
| MeterReply.RequestAnswered | src/DLMS_Gateway.c:507-702 | the answer carries the request's own addresses if and only if they fit |
| MeterReply.SegmentsAssembled | src/DLMS_Gateway.c:474-684 | for any number of segments, refused ones among them, and any state before, the last call sends what was collected and the accepted bodies in order, and leaves nothing collected |
| MeterReply.SegmentsAnswered | src/DLMS_Gateway.c:654-684 | that answer is complete but for its last three bytes, which its length field counts |
| MeterReply.TranslateKeeps | src/DLMS_Gateway.c:444-736 | for every buffer: an answer goes with a positive code and ends the transaction, segments go on polling, a frame without start changes nothing, refusals keep what was collected |
| MeterReply.RefusedLastStays | src/DLMS_Gateway.c:714-718 | after a refused last segment the next reply in segments begins with the old bytes |
| GatewayMachine.FindOdd | src/DLMS_Gateway.c:507-521 | the loop finds the first odd byte |
| GatewayMachine.CopyInformation | src/DLMS_Gateway.c:623-631 | the information goes to the collection and to the answer at once |
| GatewayMachine.Gateway.ConvertBody | src/DLMS_Gateway.c:507-722 | the converter behind the format field, on its arrays, with every code; which frames it accepts is in `AcceptsExactly` |
| GatewayMachine.Gateway.ConvertReply | src/DLMS_Gateway.c:444-736 | code, segment bit, next state, N(R), collection and answer are those of the translation |
| GatewayMachine.Gateway.Step | src/DLMS_Gateway.c:49-235 | one round of the loop on the real buffers is the step of the machine; what a request's first byte leads to is in `Exchanges` |
| GatewayRuns.RunGateway | src/DLMS_Gateway.c:41-237 | the loop over any inputs is the run of the machine, so all that is proved of runs holds of it |
| GatewayRuns.SequenceNumbers | src/DLMS_Gateway.c:97-177 | in every run the information and receive-ready frames after an SNRM carry the numbers of frames sent and accepted since then, modulo eight, in the bits of their control bytes; SNRM and DISC have 0x93 and 0x53 |
| GatewayRuns.SentFramesCarry | src/DLMS_Gateway.c:90-226 | in every run every frame for the meter is read as addressed to the server of the request in work |
| GatewayRuns.RepliesNeverAhead | src/DLMS_Gateway.c:57-193 | in every run replies never outnumber requests |
| GatewayRuns.OneFrameAtATime | src/DLMS_Gateway.c:110-226 | in every run a frame was heard or the time was up between two frames for the meter |
| GatewayRuns.ReleasingStep | src/DLMS_Gateway.c:199-226 | the invariant of releasing: a request in work has an address for which DISC can be built, and an RLRQ reaches its reply over the disconnection only |
| GatewayRuns.ReleaseIsAnswered | src/DLMS_Gateway.c:199-226 | in every run the reply to a request whose APDU begins with 0x62 follows a DISC that was sent and answered in its own transaction |
| GatewayExchanges.ServingStep | src/DLMS_Gateway.c:54-232 | every round keeps what was exchanged for the request in work, by the first byte of its APDU |
| GatewayExchanges.Exchanges | src/DLMS_Gateway.c:69-88 | in every run: between a request and its information frame an SNRM is sent if and only if its APDU begins with 0x60, before its reply a DISC if and only if it begins with 0x62, and no other request leads to either |
| GatewayRuns.BusyStep | src/DLMS_Gateway.c:54-232 | every busy round uses up a meter frame or comes closer to the end |
| GatewayRuns.TransactionEnds | src/DLMS_Gateway.c:54-232 | whatever the timing, a transaction ends within four busy rounds per meter frame plus the rank of its state, if the frames start as frames do |
| GatewayRuns.StuckForever | src/DLMS_Gateway.c:182-196 | the translating state is kept exactly without start flag or frame type, and then nothing ever changes |
| GatewayRuns.HeardFrameBlocks | src/DLMS_Gateway.c:146-196 | a frame heard in answer to anything but an RLRQ stops the gateway for every continuation if and only if it does not start as a frame |
| GatewayRuns.WaitsClean | src/DLMS_Gateway.c:136-196 | a run from a clean wait is clean at every wait if and only if no round breaks a reply off, by a time-out amid segments or a refused last segment over collected bytes |
| GatewayRuns.UndisturbedWaitsClean | src/DLMS_Gateway.c:136-196 | so a run whose events have no time-out and no refused frame waits clean |
| GatewayRuns.HeededSuffices | src/DLMS_Gateway.c:54-232 | idle rounds anywhere, frames that no state looks for and time-outs beside a frame change neither state nor events |
| GatewayTransactions.ReplyPhase | src/DLMS_Gateway.c:136-226 | whatever the timing, a reply in any number of frames, refused ones among them, is polled for, over the disconnection for an RLRQ, and ends with the last call of the converter |
| GatewayTransactions.TransactionAnswered | src/DLMS_Gateway.c:41-237 | whatever the timing, a request of any kind, answered in any number of frames from any state of the collection, ends as one answer with the request's addresses, the exact bytes it holds, and a clean machine |
| GatewayTransactions.OldBodiesComeFirst | src/DLMS_Gateway.c:136-226 | whatever the timing, segments, a time-out and a request that is answered: the answer begins with the bodies of the segments heard before |

## Left out

- `cip_encrypt` and `cip_decrypt`: parameters of the model; the round trips with ciphering are stated for any two that undo each other.
- ApduContents.AarqHolds: PDUs of 130 bytes and more, whose outer length is not of one byte in the encoding rules (`ApduLongForms` says how they are read).
- ApduPrinter.GenerateAare: encrypted data from the caller; its only caller passes none.
- AarqHandling.HandleAarqRequest: the reset of the settings before the parse, the check for a missing SNRM, the attributes of the association object, and the bytes of an exception response.
- ApduLongForms.LearnedExactly: a misread request with GMAC and logical names, where reading goes on inside the client's title; `LongRequestRead` gives its outcome as that of the bytes behind.
- ApduTypes.ByteBuffer.TakeBytes: allocation failures, and reads past the allocated memory, which read as zero here.
- ApduParser.ParseCallingTitle: a title longer than eight bytes overruns its field in C; here the first eight are kept.
- Calendar.SH2M: overflow of its 32-bit casts, which years beyond five million reach.
- ProfileBuffer.ProfileGeneric.Capture: profiles with no entries at all; the loop then writes two bytes of uninitialised memory to the header, and a row behind the end of the file.
- GatewayMachine.Gateway.Step: rounds that read or write past a buffer of the C code are excluded by `Fits`, but for the copy of 5000 bytes to a transmit buffer of 2048, which every accepted frame makes: the bytes it leaves behind the count are not modelled.
- GatewayRuns.RunGateway: threads, clocks and the serial line; a round finds frames and time-outs as inputs.
- Reading a profile back over the protocol (`readProfileGeneric`), image transfer, access rights, object tables, settings files: flat case lists or code whose intent is unclear.
- `Check_GW_Frame_Valid`: not called.
