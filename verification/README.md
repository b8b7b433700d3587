# Verification of Gypsy

A Dafny model of the stateful parts of Gypsy, a GPS multiplexing daemon: how
bytes of a device become sentences or packets, how these become readings,
satellite lists and signals of a client, how both kinds of device tell the
time, and how the server accounts for the clients it shares between senders.
`dafny verify dfyconfig.toml` checks everything.

## Modules

| part | modules |
|---|---|
| calendar and clocks | `Calendar` (day numbers, the reference), `JulianDay`, `GarminParser`, `NmeaClock` |
| Garmin packets | `GarminParser` (class), `GarminFraming` |
| NMEA text | `Text`, `Checksum`, `Fields`, `Scanner` (loops over a buffer), `Sentence` (meaning of a sentence, printer) |
| NMEA parser | `NmeaHandlers` (functions), `NmeaContext` (class), `NmeaParser` (a sentence in its buffer), `NmeaRuns` (whole runs), `NmeaReports` (from fields to readings and satellites) |
| NMEA stream | `NmeaFraming` (the buffer as text), `NmeaLines` and `NmeaReads` (lines in any reads), `NmeaPairs` (where a CR stands), `NmeaMemory` (the buffer cell by cell), `NmeaStream` (class), `NmeaDevice` (bytes to client) |
| satellites | `Assembly`, `LargeGroups` |
| client | `Numbers`, `ClientState` (functions), `GypsyClient` (class), `ClientRuns` (signals), `ClientReports` (readings) |
| server | `ServerState` (functions), `GypsyServer` (class), `ServerRuns`, `ServerHoldings` (who holds what) |
| shared | `Options`, `Seqs`, `Integers` (the integers of C) |

Each object of the source is a class whose methods work on the same fields and
arrays, step by step, and are proved equal to a function on values; what the
source promises is proved about these functions. `NmeaDevice.DeviceRuns` joins
the parts: bytes in any chunking, sentences, events, client.

## Results that are not obvious

- The Garmin clock, with two week corrections and a trip through the Julian
  day and the calendar, is one linear formula, as long as it fits an int. For a
  packet that names a moment it is the timestamp of an RMC of that moment if and
  only if the time of week is not past the end of the week.
- An RMC gives the right time exactly up to 2038-01-19 03:14:07; from then on
  the 32 bits of the timestamp have wrapped, on both paths.
- A run of Garmin reads cuts packets of mixed lengths right if and only if the
  sizes of the reads fit the lengths of the packets: a call measures all packets in
  its buffer by the first one. A packet longer than the buffer stops the stream for
  good.
- For NMEA sentences of any lengths in any reads it is known exactly what is handed
  on: each line from the last time that it filled the buffer on, and behind an LF if
  a read has ended between the CR and the LF before it. The sentences behind such an
  LF are lost, and no others. So the run ends right if and only if no read separates
  a CR from its LF.
- A call on such lines that ends in a CR stays within the buffer if and only if the
  line before the last is not blank, or, when there is only one line, the cell behind
  its NUL is not a CR left over from earlier text. The first read of a fresh parser
  can fail: a blank line, and then a line of which only the CR has come.
- A CR with another character behind it blinds the parser until the buffer is full.
- The fields of a sentence overflow their array, by one blank field, for exactly
  one kind of text: as many commas as there is room for, the last at the end.
  Only for a GSV does that leave the union of the field arrays.
- The fix signal is emitted exactly on changes of the type, but for a weak
  report of a 3D fix while it is 3D, which no parser makes.
- Of the three accuracies of a GSA one is reported, the first that is not blank: the
  conditional operators of the code nest. A GGA always reports a horizontal accuracy,
  0 when its field is blank.
- Reported climbs account for every change of altitude but those within one second
  of the altitude before, or before there is a time at all.
- Full GSV messages, however many come, find room for their satellites if and
  only if the group declares one to eight of them.
- Whatever other senders do, a sender holds a device as often as its own allowed
  Creates and its Shutdowns of that device say, and a device is on the bus exactly as
  long as some sender has a positive balance.
- The client counter of the server is wrong by exactly the number of Shutdowns
  by senders that do not hold the device. When a Shutdown arms the termination
  timer, that many references are still held; when a vanishing sender does, at most
  that many.
- Without such Shutdowns the timer is armed if and only if the counter is back at
  0 since a Create that left it above 0, and either the server terminates by
  itself or a vanishing sender took the counter there. So a refused Create of an
  idle server cancels the timer for good.
- Shutdown does not replace the colons of a device name as Create does, so it
  never finds such a device.

The comment above `check_checksum` (src/nmea-parser.c:614-616) says that a
sentence without checksum is accepted. The code rejects it, and so does the model.

## Model

| member | source | states |
|---|---|---|
| JulianDay.ToDateCounts | src/gypsy-garmin-parser.c:170-185 | for every Julian day from 1 March 400 on the w, x, a .. f chain gives a valid calendar date whose day number is the Julian day that went in |
| JulianDay.ToDateSteps | src/gypsy-garmin-parser.c:170-185 | consecutive Julian days give consecutive calendar days, by the written-out rule for the next day |
| JulianDay.ToDateInverts | src/gypsy-garmin-parser.c:170-187 | every valid date from 1 March 400 on comes back from its Julian day |
| Calendar.DayNumberOrders | src/gypsy-garmin-parser.c:187-188 | day numbers, which stand for GDate, order and distinguish valid dates exactly |
| GarminParser.GarminParser.CalculateUtc | src/gypsy-garmin-parser.c:131-195 | for any rounded time of week, wn_days >= 0 and 16-bit leap seconds the result is the 32 bits of (wn_days + 7304) * 86400 + time of week - leap seconds, a time past the week counting as its end; it is that number exactly if that fits an int; the stored date is its calendar day |
| GarminParser.GarminParser.SetDate | src/gypsy-garmin-parser.c:168-187 | the step-by-step conversion stores the valid date with the Julian day's day number |
| GarminParser.GarminParser.ReceivedData | src/gypsy-garmin-parser.c:239-320 | one call dispatches the blocks of the length in the first header, in order, and leaves the rest at the front of the buffer |
| GarminParser.GarminParser.Input | src/gypsy-garmin-parser.c:239-333 | offer, read and process together are one Feed of the bytes read, which fit behind those pending |
| GarminParser.LengthIsRead | src/gypsy-garmin-parser.c:241-244 | a data size of n written in bytes 8 to 11 of the header, least significant first, makes a total length of 12 + n as long as that is an int; a larger 32-bit sum is longer than any buffer, and beyond 32 bits it has wrapped |
| GarminFraming.ChunkingIndependence | src/gypsy-garmin-parser.c:239-333 | for packets of one total length of 12 to 1024 bytes with the size of their data in the header, whatever the reads, exactly the packets are dispatched in order, the unfinished one stays and no call hangs |
| GarminFraming.CallFramesRight | src/gypsy-garmin-parser.c:239-320 | for whole packets of any lengths, with the sizes of their data in the headers, and a part of one more in the buffer, a call dispatches exactly the packets and leaves the part if and only if all have the length of the first and the part is shorter |
| GarminFraming.RunsFrameRight | src/gypsy-garmin-parser.c:239-333 | for whole packets of any lengths and a part of one more, over any reads, exactly the packets are dispatched and the part stays if and only if, by quotient and remainder, the length that is due goes into what is pending as often as packets of that length are due next |
| GarminFraming.OversizeStalls | src/gypsy-garmin-parser.c:243-244 | behind a header that declares a packet longer than the buffer nothing is dispatched any more, whatever is read |
| GarminFraming.ReturnsIffFramed | src/gypsy-garmin-parser.c:241-320 | a call with a header in its buffer returns if and only if the header does not declare 2^32 - 12 bytes of data, with which the total length is 0 in 32 bits |
| GarminFraming.MixedLengthsMisframed | src/gypsy-garmin-parser.c:241-244 | two packets of different lengths in one read are cut at the length of the first |
| NmeaClock.NmeaReadsInstant | src/nmea-parser.c:220-260 | for every second of 2000 to 2099 an RMC's date and time give the Unix time if and only if it is not after 2038-01-19 03:14:07, and always a 32-bit int |
| NmeaClock.PathsAgree | src/nmea-parser.c:220-260 | for a packet that names a moment of the century, the 32 bits of its linear form are the timestamp of an RMC of that moment if and only if the time of week is at most 604800 |
| NmeaClock.GarminReadsInstant | src/gypsy-garmin-parser.c:131-195 | what CalculateUtc returns for a packet that names a moment is the timestamp of an RMC of that moment if and only if the time of week is at most 604800, and then the Unix time if and only if the moment is not after 2038-01-19 03:14:07 |
| NmeaClock.TimestampsOrder | src/nmea-parser.c:225-232 | timestamps order moments exactly as calendar and clock do |
| NmeaClock.PrintedDateReads | src/nmea-parser.c:249-254 | ddmmyy of a date of the century is read as that date, whatever follows it |
| NmeaClock.PrintedTimeReads | src/nmea-parser.c:225-232 | hhmmss is read as the second of the day |
| Checksum.OneChangeDetected | src/nmea-parser.c:622-644 | replacing one body character of an accepted sentence of any length by any other byte but '*' and NUL makes it rejected |
| Checksum.SumIsParity | src/nmea-parser.c:622-626 | a bit is set in the sum exactly if it is set in an odd number of characters |
| Checksum.PrintedPassesExactly | src/nmea-parser.c:622-644 | a body of bytes followed by two hexadecimal digits, with any white space and sign before and any further text behind them, is accepted if and only if the number is the sum as a signed char; so a sum of 128 or more, which 7-bit characters do not have, needs a negative number |
| Checksum.PrintedSumReads | src/nmea-parser.c:640 | two hexadecimal digits of either case are read back as the number they print, behind white space and a sign, up to what is no digit |
| Scanner.CheckChecksum | src/nmea-parser.c:620-645 | answers whether the exclusive or equals the printed sum, finds the first '*', and changes nothing but that '*' to NUL |
| Scanner.SplitSentence | src/nmea-parser.c:51-87 | finds the offsets of the fields; of the buffer only the first num_fields commas change, to NUL |
| Scanner.Find | src/gypsy-nmea-parser.c:110 | the first occurrence, or the terminating NUL |
| Scanner.FieldString | src/nmea-parser.c:65-81 | the C string at each offset of the split buffer is the field |
| Fields.SplitKeepsText | src/nmea-parser.c:58-86 | a non-empty text of k commas, k below num_fields, gives k + 1 comma-free fields whose comma-join is the text, blank ones included |
| Fields.SplitOfJoin | src/nmea-parser.c:58-86 | any comma-free fields that have room come back from their comma-join in order, but for a single blank one |
| Fields.SplitRoom | src/nmea-parser.c:58-86 | the array is exceeded, by one field, exactly by a text of num_fields commas that ends in one |
| Fields.SplitTruncates | src/nmea-parser.c:59 | with more commas the result is the first num_fields of all the fields |
| Fields.FieldsReadBack | src/nmea-parser.c:65-81 | in the blanked text each field lies at its offset with a NUL behind it |
| NmeaHandlers.LatitudeReads | src/nmea-parser.c:89-121 | ddmm.mmm is degrees and sixtieths, negative for S, whatever number the minutes are; without minutes these are 0 |
| NmeaHandlers.LatitudeIsRead | src/nmea-parser.c:98-108 | a latitude is reported if and only if two digits begin it, so a blank one is not |
| NmeaHandlers.LongitudeReads | src/nmea-parser.c:123-161 | dddmm.mmm is degrees and sixtieths, negative for W, whatever number the minutes are; without minutes these are 0 |
| NmeaHandlers.LongitudeIsRead | src/nmea-parser.c:132-148 | a longitude is reported if and only if three digits begin it |
| Sentence.RoundTrip | src/nmea-parser.c:651-690 | printing a known tag and 1 to num_fields plain fields with the checksum and parsing the result reaches that tag's handler with exactly those fields, but for a single blank one |
| Sentence.PrintedRmcSetsTime | src/nmea-parser.c:523-580 | a printed RMC of a moment, with or without a fraction of the second and with 11 fields or more, leaves the client at its Unix time, and its day is stored |
| Sentence.PrintedRmcKeepsDay | src/nmea-parser.c:220-260 | a printed RMC with a time and no date is of the stored day, which stays |
| Sentence.DamageIsRefused | src/nmea-parser.c:651-663 | replacing the '$' or one body character of a sentence that is not refused, by any other byte but '*' and NUL, makes it refused, and it changes nothing |
| Sentence.UnknownTagIsIgnored | src/nmea-parser.c:603-608 | a printed sentence of any other tag, of any length, is accepted and changes nothing |
| NmeaReports.PrintedRmcReports | src/nmea-parser.c:524-580 | a printed RMC of 11 fields or more: latitude is that of fields 2 and 3, longitude of 4 and 5, speed of 6, direction of 7, each as before if the field says nothing; every other reading and the satellites are as before; the fix type is that of the status; with less fields it is refused and changes nothing |
| NmeaReports.PrintedGgaReports | src/nmea-parser.c:448-503 | a printed GGA of 14 fields or more: latitude is that of fields 1 and 2, longitude of 3 and 4, altitude of 8, each as before if the field says nothing, horizontal accuracy that of 7 or 0; the climb is the change of altitude by the time since the last one; the fix type is that of the position; every other reading is as before; with less fields it is refused and changes nothing |
| NmeaReports.PrintedGgaSetsTime | src/nmea-parser.c:456-459 | a printed GGA of a moment sets its Unix time when the stored day is the moment's, and leaves the time as it was when there is no day |
| NmeaReports.PrintedGsaReports | src/nmea-parser.c:380-428 | a printed GSA of 17 fields or more: the fix type is field 1, the used ids are fields 2 to 13 up to the first blank one, the accuracy is that of the first of fields 14 to 16 that is not blank; every other reading and the time are as before; with less fields it is refused and changes nothing |
| NmeaReports.PrintedGsvReports | src/nmea-parser.c:286-366 | a printed GSV of up to 19 fields is refused and changes nothing unless it has 3, 7, 11, 15 or 19; then field 0 is the number of messages, field 1 the message number and fields 3 on are the satellites up to a blank id, blank numbers being 0; it is received as that message, and accepted exactly if that is expected |
| NmeaReports.GroupIsPublished | src/nmea-parser.c:281-366 | when a sentence completes a group, in any run whose groups declare 1 to 8 messages, the published list is message by message the satellites that the fields say, each marked in use if and only if the GSA that came last before its message lists its id |
| Sentence.WorkedWritesNuls | src/nmea-parser.c:637-685 | parsing writes nothing into a sentence but NULs |
| NmeaParser.ParseSentence | src/nmea-parser.c:651-690 | parsing a sentence in its buffer is one Step on what Interpret makes of the text, returns whether the sentence was accepted, leaves Worked of the text and changes no cell behind it |
| NmeaParser.CutSentence | src/nmea-parser.c:660-681 | the '$', the checksum, the first comma and the tag of at most 12 characters |
| NmeaParser.ParseTag | src/nmea-parser.c:594-609 | the handler of the tag gets the fields of the data and its answer is returned; an unknown tag changes nothing and is accepted |
| NmeaParser.LeavesUnion | src/nmea-parser.h:38-43 | a field pointer is stored outside the union of the field arrays by exactly one kind of sentence: a GSV of 19 commas, the last at the end |
| NmeaContext.NmeaParseContext.HandleRmc | src/nmea-parser.c:524-580 | stored date, time, position, weak or no fix and course, in that order, and of these each from its own fields (`NmeaReports.RmcIsReported`) |
| NmeaContext.NmeaParseContext.ReadDate | src/nmea-parser.c:238-261 | a date of the calendar replaces the stored one, any other leaves it, and the stored date gives the datestamp |
| NmeaContext.NmeaParseContext.HandleGga | src/nmea-parser.c:448-503 | positive time, position, fix type from the position fields, horizontal accuracy, each from its own fields (`NmeaReports.GgaIsReported`) |
| NmeaContext.NmeaParseContext.HandleGsa | src/nmea-parser.c:380-428 | fix type, the used ids, and accuracy with the one bit that the nested choice selects, each from its own fields (`NmeaReports.GsaIsReported`) |
| NmeaContext.NmeaParseContext.StoreUsed | src/nmea-parser.c:405-416 | the ids from the third field up to the first blank one replace the stored ones |
| NmeaContext.NmeaParseContext.IsUsed | src/nmea-parser.c:347-353 | finds an id exactly when it is among the used ones |
| NmeaContext.NmeaParseContext.HandleGsv | src/nmea-parser.c:281-366 | a message that follows the last one or is the first is staged, the last one of a group publishes it, any other clears |
| NmeaContext.NmeaParseContext.StageSatellites | src/nmea-parser.c:328-357 | the rows up to a blank id are staged in order with their own numbers, each marked if and only if its id is used, within the array |
| Assembly.MarksExactly | src/nmea-parser.c:328-357 | a satellite has the id, elevation, azimuth and signal of its row, and is in use if and only if its id is one of the used ones |
| Assembly.Publication | src/nmea-parser.c:303-363 | over every run whose groups declare 1 to 8 messages, the published list changes only at the last message of a complete group of consecutive messages, to that group's rows in order with their own numbers, each marked in use if and only if its id is among those listed as used last before its message; and every complete group is published |
| Assembly.StagingInvariant | src/nmea-parser.c:308-363 | nothing staged when the count is 0, the count 0 or below the number of messages, at most 4 satellites per message, and room for the next message |
| LargeGroups.FullGroupFits | src/nmea-parser.c:324-363 | full messages, however many come, find room throughout if and only if the declared number, which may be any integer, is 1 to 8 |
| NmeaRuns.RunReceives | src/nmea-parser.c:281-428 | over any run of sentences of all kinds the satellites are those of the assembly |
| NmeaRuns.SentenceHasRoom | src/nmea-parser.c:328-357 | the staging array has room for all that the next sentence adds |
| NmeaRuns.RunHeard | src/gypsy-client.c:1224-1233 | over every run of sentences a listener knows masks, values, satellites, time and fix type, and a fix signal is heard exactly on changes |
| NmeaRuns.StepMovesFix | src/nmea-parser.c:403-570 | a sentence moves the fix type by its one fix report and by nothing else, and this is heard exactly if it is a change |
| NmeaRuns.NoFlapping | src/gypsy-client.c:1224-1233 | from a 3D fix on, no fix change is heard in a run if and only if every RMC has status A, every GGA all three position fields and every GSA fix 3, and then the fix is still 3D |
| NmeaLines.HandedExactly | src/gypsy-nmea-parser.c:94-156 | for sentences without CR and NUL of any lengths and any reads that fit the offered space: handed on is, in order, of each sentence the part since the buffer was last full, with an LF in front exactly if a read ended between the CR and the LF before it, and nothing if that is blank and a read ends behind its CR; every call ends well if and only if the consumer can take that |
| NmeaReads.LongLinesAreCut | src/gypsy-nmea-parser.c:150-155 | of sentences of any lengths, reads that keep CR and LF together hand on the last length mod 1024 characters |
| NmeaReads.ChunkingIndependence | src/gypsy-nmea-parser.c:102-155 | for sentences without CR and NUL that fit the buffer with their CR LF, and reads that fit the offered space and keep CR and LF together, the sentences handed on are exactly those sent, the rest is the unfinished tail, and the parser is as after the sentences one by one |
| NmeaReads.FramesExactly | src/gypsy-nmea-parser.c:102-155 | reads that fit the offered space end with exactly the sentences and the tail if and only if none of them ends between a CR and its LF |
| NmeaReads.CutsLeaveLfs | src/gypsy-nmea-parser.c:115-137 | what is handed on and stays of sentences that fit has as many characters as they have, and one more for each read that ends between a CR and its LF |
| NmeaPairs.HiddenUnlessPaired | src/gypsy-nmea-parser.c:115-137 | a call leaves no counted character unseen if and only if every CR with a character behind it has its LF there |
| NmeaPairs.StrayCrHides | src/gypsy-nmea-parser.c:115-155 | after a call that has seen a CR with another character behind it than LF, nothing of any reads is seen or handed on until the buffer is full, and then all of it is given up |
| NmeaMemory.RoundsView | src/gypsy-nmea-parser.c:110-138 | a call, cell by cell and with the cells left over from before, does what NmeaFraming says of the text that is seen; it stays within the buffer when the text does not end in a CR |
| NmeaMemory.SaneExactly | src/gypsy-nmea-parser.c:110-138 | a call on text whose CRs have their LFs, but for one that may be the last character, stays within the buffer if and only if the parser can take what it is given and, when the text ends in a CR, either it is one line and the cell behind its NUL is not a CR, or the line before the last is not blank |
| NmeaMemory.RunsSaneExactly | src/gypsy-nmea-parser.c:94-156 | over any reads of sentences without CR and NUL no call leaves the buffer if and only if every read fits, the parser can take what it is given, and what every read leads to ends in that way |
| NmeaDevice.BlankLineIsUnsafe | src/gypsy-nmea-parser.c:110-137 | the first read of a fresh parser leaves the buffer when it is a blank line and a line without its LF, although all cells were NUL |
| NmeaMemory.TakeAllView | src/gypsy-nmea-parser.c:94-156 | so a run of reads is a run of NmeaFraming, always if no read ends in a CR, and as long as no call leaves the buffer if some do |
| NmeaStream.GypsyNmeaParser.ReceivedData | src/gypsy-nmea-parser.c:94-141 | the loop over the buffer, which ends because chars_in_buffer falls, is all the rounds of NmeaMemory, for every content of the buffer on which the loop stays within it |
| NmeaStream.GypsyNmeaParser.GetBuffer | src/gypsy-nmea-parser.c:144-156 | a full buffer is given up; what is offered lies behind the characters in use and ends with the buffer |
| NmeaStream.GypsyNmeaParser.TakeSentence | src/gypsy-nmea-parser.c:111-137 | one round ends, parses and removes the first sentence, in place and cell by cell |
| NmeaStream.GypsyNmeaParser.Input | src/gypsy-nmea-parser.c:94-156 | offer, read and process together are one TakeIn of the characters read |
| NmeaDevice.DeviceRuns | src/gypsy-nmea-parser.c:94-156 | in any chunking that keeps CR and LF together no call leaves the buffer, and the parser ends up as after the run of what its sentences say, provided their groups declare 1 to 8 messages and their fields fit the field arrays |
| NmeaDevice.PairsDecide | src/gypsy-nmea-parser.c:94-156 | among the chunkings of such sentences on which no call leaves the buffer, those that keep CR and LF together are exactly the ones that end up there |
| NmeaDevice.SplitsAreTaken | src/gypsy-nmea-parser.c:94-156 | in any chunking of such sentences, what is handed on is each of them, with an LF in front exactly if a read ended between the CR and the LF before it; the parser ends up as after the run of those without LF; and no call leaves the buffer if and only if every read ends safely |
| NmeaDevice.DeviceIsHeard | src/gypsy-nmea-parser.c:94-156 | so in any chunking a listener knows the client's state, and the satellites are those of the assembly |
| GypsyClient.GypsyClient.SetPosition | src/gypsy-client.c:1063-1135 | each masked value is stored in its own place and every other one stays; climb and altitude time; a signal exactly if the position or its mask changed |
| GypsyClient.GypsyClient.SetCourse | src/gypsy-client.c:1138-1194 | each masked value is stored in its own place and every other one stays; a signal exactly if something changed |
| GypsyClient.GypsyClient.SetTimestamp | src/gypsy-client.c:1197-1208 | the time; a signal exactly if it changed |
| GypsyClient.GypsyClient.SetFixType | src/gypsy-client.c:1211-1234 | the fix type, a weak report being compared with 2D when 3D is stored |
| GypsyClient.GypsyClient.SetAccuracy | src/gypsy-client.c:1237-1292 | each masked value is stored in its own place and every other one stays; a signal exactly if something changed |
| GypsyClient.GypsyClient.ReportGroup | src/gypsy-client.c:1149-1186 | the three tests of a setter together store each reported value in its own place and leave the others, and find a change exactly when there is one |
| GypsyClient.GypsyClient.SetSatellites | src/gypsy-client.c:1336-1408 | the comparing copy is plain replacement: the published list is the staged one, nothing is staged, and a signal is emitted exactly if the lists differ, whatever stale slots hold |
| ClientReports.LatestIsKnown | src/gypsy-client.c:1072-1291 | after any run of operations each of latitude, longitude, altitude, speed, direction and the three accuracies is what was told of it last, and unknown if and only if it never was |
| ClientReports.SetLearns | src/gypsy-client.c:1063-1292 | one operation stores each reading that it tells as it is told and leaves every other one, but for the climb that a new altitude makes |
| ClientReports.AltitudeIsTimed | src/gypsy-client.c:1098-1127 | the time by which a climb is divided goes back, after any run, to the time that was stored when the altitude last became known or another one |
| ClientReports.SignalsAreTimely | src/gypsy-client.c:1131-1206 | over any run the time in each position and course signal is the time that a listener has heard last |
| ClientRuns.SignalReplay | src/gypsy-client.c:1072-1291 | after any run of operations the last payload of each kind is the current state, payloads of one kind but fix status never repeat, and mask bits are never lost |
| ClientRuns.FixesRepeatExactly | src/gypsy-client.c:1224-1233 | over any run fix payloads repeat if and only if somewhere a weak report of a 3D fix comes while it is 3D |
| ClientRuns.FixSignal | src/gypsy-client.c:1224-1233 | a fix signal is emitted if and only if the stored type changes, but for a weak report of 3D while it is 3D |
| ClientRuns.ClimbConservesAltitude | src/gypsy-client.c:1100-1128 | climb times elapsed time, summed over any run of finite altitudes, is the final altitude minus the first and minus the changes that come without a positive time before or within the same second |
| ClientRuns.TimedMissesNothing | src/gypsy-client.c:1105-1111 | there are none of those when every change comes at a new time after a positive one |
| ClientRuns.ClimbOfChange | src/gypsy-client.c:1102-1120 | the climb reported for a change of altitude accounts for it if and only if there is a positive time of the altitude before and it is another one; within the same second it is infinite, and without that time the course stays as it is |
| ClientRuns.ClimbHasSign | src/gypsy-client.c:1105-1115 | any climb reported for a change of altitude is finite if and only if both altitudes are and there is time between them, and is above 0 if and only if the altitude has risen in time that has not gone back |
| GypsyServer.GypsyServer.Create | src/gypsy-server.c:110-199 | cancels the timer, refuses a device that is not allowed, else makes or shares the object, adds it to the sender's list and answers with its path (`ServerHoldings.Opens`) |
| GypsyServer.GypsyServer.Shutdown | src/gypsy-server.c:202-250 | counts down and gives back the sender's reference on the object at the device's path, if it has one, and no other (`ServerHoldings.Closes`) |
| GypsyServer.GypsyServer.RemoveClients | src/gypsy-server.c:342-367 | gives back every reference of the sender and forgets it; the timer is armed when the counter comes by zero |
| GypsyServer.GypsyServer.Unref | src/gypsy-server.c:240 | a reference that exists is given back; the last one destroys the object and frees its path |
| ServerHoldings.HoldingsAreBalanced | src/gypsy-server.c:182-365 | after any interleaving of requests a sender holds the object at a path as often as its own requests say: one more for each of its Creates that is allowed, one less for each of its Shutdowns while it has any, none when it vanishes |
| ServerHoldings.RegisteredIffBalance | src/gypsy-server.c:171-243 | after any interleaving an object is registered at a path if and only if some sender has a positive balance there |
| ServerHoldings.ShutdownTakesNamed | src/gypsy-server.c:214-245 | a Shutdown gives back the object at the device's path, once, if the sender holds it; every other object is referenced and listed as before, every other path leads where it led, and the path goes exactly with its last reference; with nothing there it changes nothing and says so |
| ServerHoldings.CreateAnswers | src/gypsy-server.c:165-199 | the answer to an allowed Create is the path that leads to the first object of the sender's list, the one that was there or one that nobody has held, and no other path changes; a refused one changes nothing but the timer |
| ServerHoldings.StrayIffNoBalance | src/gypsy-server.c:237-241 | a Shutdown is by a sender that holds nothing of the device if and only if that sender's balance is 0 and another's is not |
| ServerRuns.RunSound | src/gypsy-server.c:171-243 | over any interleaving of requests each object is referenced as often as it occurs in the lists of all senders, and exactly the objects alive are registered, each at one path |
| ServerRuns.CounterLaw | src/gypsy-server.c:195-363 | over any interleaving the counter is the total length of the lists minus the number of Shutdowns by senders that held nothing of the device |
| ServerRuns.TimerIsSafe | src/gypsy-server.c:227-363 | without such Shutdowns an armed timer implies that the counter is 0 and nobody holds anything |
| ServerRuns.TimerExactly | src/gypsy-server.c:123-363 | without such Shutdowns the timer is armed if and only if the counter is 0 and was above 0 after the last Create, refused or not, and auto_terminate is on or a vanishing sender lowered it last |
| ServerRuns.ArmingShutdown | src/gypsy-server.c:227-233 | when a Shutdown arms the timer, after any run, the counter is 0 and the number of references still held is the number of such Shutdowns |
| ServerRuns.VanishingArms | src/gypsy-server.c:353-363 | after any run, a sender that vanishes with what it holds arms the timer, whatever auto_terminate says, if and only if the counter is positive and the others hold no more references than there were Shutdowns by senders that held nothing of the device; without such Shutdowns, if and only if they hold none |
| ServerRuns.StrayArmsTimer | src/gypsy-server.c:227-245 | one such Shutdown arms the timer while another sender holds the client |
| ServerRuns.RefusalKeepsIdle | src/gypsy-server.c:123-163 | a refused Create of an idle server leaves the timer cancelled until a Create is allowed |
| ServerRuns.OnlyVanishingArms | src/gypsy-server.c:227-361 | with auto_terminate off, no run of Create and Shutdown arms the timer |
| ServerRuns.VanishingArmsAnyway | src/gypsy-server.c:355-361 | with auto_terminate off, a sender that disappears with the last client does arm it |
| ServerRuns.Isolation | src/gypsy-server.c:182-365 | whatever other senders request and whoever disappears, a sender's list, its objects and their paths stay |
| ServerRuns.NoneRemain | src/gypsy-server.c:349-365 | when all senders have gone there is no list, no reference and no object |
| ServerState.AliveIffHeld | src/gypsy-server.c:237-243 | an object is alive exactly as long as some sender's list holds it |
| ServerState.CreateShutdownUndone | src/gypsy-server.c:165-245 | Shutdown undoes Create for a device name without colon: lists, references, registry and counter are as before |
| ServerState.PathsMeet | src/gypsy-server.c:165-218 | Shutdown looks at the path that Create registers if and only if the device name has no colon |
| ServerRuns.ColonIsNeverFound | src/gypsy-server.c:214-225 | after every run the Shutdown of a device with a colon in its name finds no client and changes nothing |
| ServerState.BasenameIgnoresDirectory | src/gypsy-server.c:165-168 | devices of the same name share one object path, whatever their directory and however many slashes follow |

## Left out

- Opening devices, termios, I/O channels, Bluetooth sockets, driver probing and the N810: foreign calls. A read is an input of `Input`.
- The libgypsy wrappers, the examples and the discovery: thin proxies and simple lists.
- Debug notes, logging, the pid file, options and the main loop.
- The D-Bus getters; `gypsy_client_get_course` returns the position mask (src/gypsy-client.c:814), so course claims are about emitted payloads.
- The payloads of Garmin packets: decoding the structures, the fix type table, the filter of satellite records, and `calculate_speed_course`. `dispatched` holds the bytes of each packet.
- Floating point: readings are exact reals with two infinities. Rounding, narrowing to float and NaN are not modelled; the rounded time of week is an input.
- NmeaHandlers.Libc: `atoi`, `strtod` and `g_strtod` are parameters, any functions of the text; `strtol` with base 16 is written out, for values that fit a long.
- GDate is the day number of the proleptic Gregorian calendar; its 16-bit year is not modelled.
- GarminParser.GarminParser.CalculateUtc: days and Julian days in between are unbounded, which differs from the source for wn_days within 7 of 2^31 and for years that 16 bits do not hold. The overflow of the signed result, undefined in C, is taken to wrap, as it is for `NmeaClock.Timestamp`.
- GarminParser.GarminParser.ReceivedData: a header whose length and 12 add up to 0 in 32 bits is excluded, because the loop does not return from it (`GarminFraming.ReturnsIffFramed`).
- NmeaStream.GypsyNmeaParser.ReceivedData: contents of the buffer on which the loop would take more characters than are in use, or search without a NUL, are excluded, because what follows is undefined (`NmeaMemory.Sane`). `NmeaMemory.SaneExactly` says when that happens to lines; of text with other CRs, or with NULs, no exact condition is stated.
- NmeaParser.ParseSentence: digits of a time or date that lie behind the end of the sentence count as NUL, where the code reads the cells there. Excluded is a GSV of 19 commas that ends in one, whose 20th field pointer overwrites the stored date's (`NmeaParser.LeavesUnion`); the lemmas about runs of events speak of it only as of a GSV with the wrong number of fields.
- NmeaContext.NmeaParseContext.HandleGsv: room in the staging array is required, as the code writes without a test; `NmeaRuns.SentenceHasRoom` gives it for groups of 1 to 8 messages, and the same holds for StageSatellites.
- The server's configuration and glob matching: whether a device is allowed is an input.
- The references that a client's parser and channel hold on it: only those of the server are counted, so the last of these destroys the object.
- Whether the bus takes a path as valid, and the signal that the timer emits when it fires.
