# Verified model of the TM4C1294 IoT firmware

The firmware keeps an I/O board on the network: it takes firmware updates over HTTP, talks MQTT 3.1.1 to a
broker, keeps its settings in EEPROM, answers NetBIOS name queries and keeps time with SNTP. This project models
the parts whose correctness does not show in any one function, and proves what they promise.

**Firmware update** (`Nvm`, `Ota*`). Flash and the pending flag are the state that survives a reset. Programming
only clears bits, an erase sets a 16 KB page to 0xFF, and power may fail inside any operation and leave the cells
it works on with any contents. The upload handler, the commit and the boot-time copier are functions on that
state; the classes in `OtaDevice` run them step by step as the firmware does and are proved to perform exactly
the specified operations in the specified order. Main results: for every image, every split into chunks, every
schedule of repeats and any number of power losses during the copy, the first copy that completes installs
exactly the uploaded image (`EndToEnd`, `UpdateExact`); what stands under the pending flag is known at every crash
point of every run (`CommitOrdering`), and a committed image survives the chunks that follow it exactly under a
stated condition (`CommitSurvivesExact`); a validated update stays valid through every interrupted boot
(`RetrySafety`); every staged word is programmed once, into a page erased once (`EveryWordWrittenOnce`).

**Checksum** (`Crc32`, `CrcBurst`, `CrcPolynomial`). The bit loop is the remainder of a division over GF(2) by
the IEEE 802.3 generator, and it tells apart any two messages of equal length that differ in a window of 32 bits
at any bit offset.

**MQTT** (`Mqtt*`). Framing gives the same packets however TCP cuts the stream, for any bytes at all, and over any
run of connections each one's packets are those of its own bytes (`ConversationsApart`). PUBLISH and CONNECT
packets decode to what was put in. The connection machine: when there is a connection block, how far apart attempts
are, when each guard fires, keep-alive, and one `product_on_connect` per session.

**Settings** (`Eeprom`, `ConfigStore`, `Config`). Block and offset registers behave as one flat word array, records
saved in any order never disturb each other, and any damaged word of the broker record is noticed.

**Smaller pieces.** `FormDecode` (URL decoding, RFC 1738 section 2.2), `Netbios` (RFC 1001 section 14.1), `Sntp`
(retry timers and the clock), `CanBitRate` (the divisor search and the registers).

Where an operation changes state in the firmware it is a class method with a loop or field updates here, and its
contract ties the new state to a specification function; what the firmware promises is proved about that function.

Where the code falls short of its promise, the exact condition is proved:

- The final flush of an upload programs its padded word without erasing the page. An image is committed if and
  only if its length is good (shorter than 16 KB, or not 1 to 3 bytes into a page) or the cells under its last
  word happen to be clear of conflicting zeros (`FlushExact`, `LastChunkExact`); a stale cell refuses the upload
  (`StaleCellRefusesImage`, `StaleCellRun`) but is never accepted (`WrongTailIsNoticed`).
- The success page does not mean that an update is pending. It is sent exactly for a commit and for a last chunk
  whose number has gone by (`UpdateOkExact`), so a client that repeats a refused last chunk is told that all is well
  (`RefusalForgotten`, `RefusedThenOk`); it may believe the page exactly when this request or an earlier one
  committed (`OkMeansPendingExact`).
- A chunk 0 erases the header without clearing the flag. Until the next last chunk is accepted every boot rejects
  what it finds and clears the flag; power lost inside an operation on the header page may leave anything in
  the header with the flag still set. A second last chunk accepted with no chunk 0 before it programs one header over
  another; the result is the second one exactly when that has no bit the first one lacks (`CommitOrdering`,
  `SecondCommitExact`).
- After the flush of an image of bad length the receiver stands in a page it has not erased. A committed update
  survives further chunks if and only if its length is good, or the chunks that arrive in order bring fewer than
  four bytes, or its last one to three bytes are 0xFF, and resends never harm it (`CommitSurvivesExact`);
  otherwise the flag stays set over an image the boot rejects.
  16385 zero bytes followed by one chunk of four bytes lose the update that way (`LateChunkRun`).
- The 16-bit multiplier of the length scan is right exactly for lengths below 128 * 128 * 128 (`LengthExact`), and a
  length field that does not end is taken for the value of its first three bytes (`EndlessLength`).
- The callback of a lookup does not ask whether the client is still enabled: a client stopped during a lookup
  connects if the answer comes after all, and stays idle exactly if it does not (`StopHoldsExact`, `StoppedConnects`).
- The guard on a connection attempt counts from a timer that earlier states leave behind, so 10000 ms is an upper
  bound and no lower bound (`ResolvingGuardExact`, `StaleTimerCutsAttempt`).
- `CANBitRateSet` may return 0 after it has written the registers (`ZeroThoughSet`). The rate it sets exceeds the
  one asked for, by less than the rounding of its result, exactly when the rate does not divide the clock and the
  rounded-down ratio is settable and passes the driver's check (`UnroundedRateExceeds`; at 9 Hz and 2 bit/s it
  sets 2.25 bit/s). It cuts a pre-divider above 1024 to ten bits (`BusRatioExact`, `PreDividerCutShort`).
- The seconds since the last SNTP reply come from a 32-bit count of milliseconds. The clock is right exactly when that
  has not wrapped, or has wrapped a multiple of 1000 times (`ClockRunsExact`).
- A node whose client id is empty, or has a space at the end of its first 15 characters, answers no query at all
  (`CanBeFound`).
- Comments at iot_foundation/config.c:181-183 say that the clamp upgrades device counts that read as 0 to a
  working default. The code changes no stored count (`ClampIsIdentity`); the model follows the code.

## Model

| member | source | states |
|---|---|---|
| Crc32.ConfigCRC32 | iot_foundation/config.c:95-117 | the two nested loops compute the specified checksum of any byte string |
| Crc32.Crc32Concat | iot_foundation/config.c:95-117 | the checksum of a concatenation follows from the checksum of its first part and the bytes of the second |
| CrcBits.UpdateIsFeed | iot_foundation/config.c:101-114 | eight bit steps per byte on the register equal feeding the message bit string into a shift register with the reflected generator |
| CrcPolynomial.LongDivision | iot_foundation/config.c:95-117 | message times x^32 plus the preset equals quotient times generator plus the register, for every length |
| CrcPolynomial.DivisionUnique | iot_foundation/config.c:95-117 | quotient and remainder of that division are unique |
| CrcPolynomial.ChecksumIsRemainder | iot_foundation/config.c:90-117 | a 32-bit row is the IEEE 802.3 remainder of the message if and only if it is the complement of the checksum |
| CrcPolynomial.PresetRow | iot_foundation/config.c:100 | the register starts as all ones |
| CrcBurst.FeedInjective | iot_foundation/config.c:103-114 | any number of steps is injective on the register, so a difference never dies out |
| CrcBurst.BurstDetected | iot_foundation/config.c:95-117 | two different messages of equal length whose bits differ only inside some 32-bit window have different checksums |
| CrcBurst.FourByteDamageDetected | iot_foundation/config.c:95-117 | the same for damage inside four consecutive bytes, whatever surrounds them |
| Nvm.CrashConcat | mqtt_io_tm4c1294/ota.c:118-131 | the crash states of two operation lists in sequence are those of the first, or those of the second once the first is done |
| OtaUpload.DecodeSpelled | mqtt_io_tm4c1294/enet_io.c:173-180 | hex digits in any mix of cases decode to exactly the bytes they spell |
| OtaUpload.DecodeExact | mqtt_io_tm4c1294/enet_io.c:173-180 | for any text at all, each byte comes from its own two characters, a digit of either case counting for its value and anything else for 0 |
| OtaUpload.HeaderLayout | mqtt_io_tm4c1294/enet_io.c:449-458 | the header in flash: the mark, size and checksum with their least significant byte first, and a zero word |
| OtaStaging.PutBytesStages | mqtt_io_tm4c1294/enet_io.c:335-374 | decoding more bytes keeps: staged words followed by the alignment buffer are the bytes received, with erased cells ahead of the write address; the overflow that aborts is exact |
| OtaStaging.StepSimulates | mqtt_io_tm4c1294/enet_io.c:286-383 | one request, whatever its number, keeps receiver and flash in step with an ideal receiver that only keeps the next number and the bytes |
| OtaStaging.RunSimulates | mqtt_io_tm4c1294/enet_io.c:286-383 | the same over every run of requests up to a last chunk |
| OtaStaging.PowerUpSimulates | mqtt_io_tm4c1294/enet_io.c:208-214 | in particular for every run from power-up, on any flash contents |
| OtaWear.EveryWordWrittenOnce | mqtt_io_tm4c1294/enet_io.c:298-374 | between a chunk 0 and the first last chunk, every programmed word lies in a page erased exactly once before it and is touched by nothing else |
| OtaOrdering.NeverTouchesApp | mqtt_io_tm4c1294/enet_io.c:286-472 | after any requests from power-up, no operation of any further request touches a cell of the application slot |
| OtaOrdering.AbortIsSticky | mqtt_io_tm4c1294/enet_io.c:305-312 | once aborted, neither memory nor receiver changes until the next chunk 0 |
| OtaOrdering.AppliedAtMostOnce | mqtt_io_tm4c1294/enet_io.c:314-333 | of two applied chunks of one upload the later has the greater number, so none is applied twice |
| OtaOrdering.StepBounded | mqtt_io_tm4c1294/enet_io.c:286-472 | the receiver invariant behind the two rows above holds after every request |
| OtaCommit.StepSafe | mqtt_io_tm4c1294/enet_io.c:286-462 | one request keeps the invariant of the phase the upload is in, and at every crash point inside it what stands under a set flag is what the phase says |
| OtaCommit.CommitOrdering | mqtt_io_tm4c1294/enet_io.c:286-462 | at every crash point of every run from power-up with the flag clear, under a set flag: nothing before a commit; after it, header and staged bytes match the declared totals, or the header stands over the bytes below the page a late word erased; after a chunk 0, the boot rejects until the next commit; after another last chunk with no chunk 0, the header holds the common bits; the only other case is an operation on the header page cut short under a flag already set |
| OtaCommit.SecondCommitExact | mqtt_io_tm4c1294/enet_io.c:449-462 | a last chunk accepted over a header matches what its client declared if and only if the new header has no bit the old one lacks |
| OtaFlush.FlushExact | mqtt_io_tm4c1294/enet_io.c:404-414 | the flush makes the staged bytes the received ones if and only if the length is good or the old cells fit |
| OtaFlush.FlushKeepsRest | mqtt_io_tm4c1294/enet_io.c:404-414 | the padding of the final word changes no cell behind the image |
| OtaFlush.ConcludeExact | mqtt_io_tm4c1294/enet_io.c:388-462 | under the same condition the last chunk commits exactly the image, otherwise it leaves the flag and says so |
| OtaFlush.WrongTailIsNoticed | mqtt_io_tm4c1294/enet_io.c:435-447 | staged bytes that differ from the image in their final word always fail the integrity check |
| OtaFlush.StaleCellRefusesImage | mqtt_io_tm4c1294/enet_io.c:404-414 | for every bad length a single zero cell under the final word makes the condition fail |
| OtaFlush.EndangeredExact | mqtt_io_tm4c1294/enet_io.c:356-414 | the flush leaves the end of the image in a page yet to be erased if and only if its length is bad |
| OtaLate.CrashExact | mqtt_io_tm4c1294/enet_io.c:335-374 | a chunk after the commit keeps header and staged bytes matching at every crash point inside it if and only if it does not complete a word in that page |
| OtaLate.BlankedExact | mqtt_io_tm4c1294/enet_io.c:356-361 | once the page is erased the header matches if and only if the bytes there were 0xFF anyway |
| OtaLate.CommitSurvivesExact | mqtt_io_tm4c1294/enet_io.c:286-462 | after a commit, over every run without a new chunk 0 or a new last chunk, resends of the committing chunk included: the flag and header stay, and they match the staged bytes if and only if the length is good, or the chunks that arrive in order before the first gap bring fewer than four bytes, or the last one to three bytes are 0xFF |
| OtaLate.MismatchIsRejected | mqtt_io_tm4c1294/ota.c:75-104 | a pending header that does not match makes the next boot reject the update and clear the flag |
| OtaLate.LateChunkLosesUpdate | mqtt_io_tm4c1294/enet_io.c:335-374 | one more chunk of at least four bytes turns a committed update of bad length into one the boot rejects, the flag still set |
| OtaLate.LateChunkRun | mqtt_io_tm4c1294/enet_io.c:286-462 | a run of three chunks from power-up in which that happens |
| OtaReplies.UpdateOkExact | mqtt_io_tm4c1294/enet_io.c:286-472 | the success page is sent if and only if the request commits, or is a last chunk other than 0 whose number has gone by, the upload not aborted |
| OtaReplies.IndexPageExact | mqtt_io_tm4c1294/enet_io.c:273-280 | the index page answers exactly the requests that lack a parameter |
| OtaReplies.BusFaultExact | mqtt_io_tm4c1294/enet_io.c:435-440 | the checksum reads past the end of flash exactly for a last chunk with totals that brings more bytes than the region holds and does not abort |
| OtaReplies.OkMeansPendingExact | mqtt_io_tm4c1294/enet_io.c:314-328 | over every run from power-up, a client that reads the success page finds an update pending if and only if this request committed or an earlier one had |
| OtaReplies.RefusalForgotten | mqtt_io_tm4c1294/enet_io.c:314-447 | any last chunk refused in its turn is answered with the success page when it is sent again, exactly when it has not overflowed the region, and changes nothing |
| OtaReplies.RefusedThenOk | mqtt_io_tm4c1294/enet_io.c:314-430 | a run from power-up: a last chunk without totals, refused, then reported as a success with the flag clear |
| OtaReplies.StaleCellRun | mqtt_io_tm4c1294/enet_io.c:404-447 | a run from power-up in which a stale zero cell refuses an upload whose bytes and totals are all right |
| OtaBoot.InstallCopies | mqtt_io_tm4c1294/ota.c:157-171 | an uninterrupted copy leaves the slot starting with the staged words and blank after them, and staging, header and flag as they were |
| OtaBoot.ValidatedExact | mqtt_io_tm4c1294/ota.c:75-100 | a boot accepts an update if and only if the flag is set and the header page carries the mark, a size the region holds, and the checksum of that many staged bytes |
| OtaBoot.BootCrash | mqtt_io_tm4c1294/ota.c:55-132 | one boot of a validated update, cut anywhere: either the flag is still set and the update validates again, or the slot carries the header's checksum |
| OtaBoot.RetrySafety | mqtt_io_tm4c1294/ota.c:75-131 | any series of interrupted boots keeps a validated update validated, with header and staging unchanged |
| OtaBoot.FlagFallsOnlyWhenApplied | mqtt_io_tm4c1294/ota.c:106-131 | after any series of boots the flag falls only when the slot's checksum over the header's size is the header's |
| OtaBoot.NotPendingChangesNothing | mqtt_io_tm4c1294/ota.c:61-64 | over every series of boots cut anywhere, once no update is pending no boot changes anything |
| OtaBoot.AppliedStays | mqtt_io_tm4c1294/ota.c:55-132 | after the flag has fallen over an applied update, no later boot changes anything |
| OtaBoot.UnvalidatedKeepsFlash | mqtt_io_tm4c1294/ota.c:70-100 | over every series of boots cut anywhere, an update that is not validated costs no byte of flash |
| OtaBoot.InstallThenClear | mqtt_io_tm4c1294/ota.c:106-131 | the boot after a completed copy recognises it, clears the flag and touches nothing else |
| OtaBoot.TwoBootsFinish | mqtt_io_tm4c1294/ota.c:55-184 | two boots without a power loss always finish a validated update |
| OtaEndToEnd.UploadCommits | mqtt_io_tm4c1294/enet_io.c:286-462 | every split of a non-empty image of good length up to 496 KB, under every schedule of repeats, from any receiver state and flash contents, commits exactly the image and leaves the slot alone |
| OtaEndToEnd.LastChunkExact | mqtt_io_tm4c1294/enet_io.c:335-462 | a last chunk with the right totals commits the image if and only if the flush condition holds |
| OtaEndToEnd.CommittedIsValidated | mqtt_io_tm4c1294/ota.c:75-100 | a committed image passes every check of the boot |
| OtaEndToEnd.NeverRejected | mqtt_io_tm4c1294/ota.c:75-131 | after a complete upload no boot, whatever was interrupted before it, rejects the image |
| OtaEndToEnd.EndToEnd | mqtt_io_tm4c1294/ota.c:55-184 | after a complete upload and any number of interrupted copies, the first copy that completes leaves the slot starting with exactly the image and the next boot clears the flag |
| OtaEndToEnd.UpdateExact | mqtt_io_tm4c1294/ota.c:55-184 | two boots after a complete upload the flag is clear, and the slot starts with the image if and only if the old firmware did not merely have its checksum |
| OtaDevice.OtaReceiver.DecodeLoop | mqtt_io_tm4c1294/enet_io.c:335-374 | the decode loop over the static variables performs exactly the specified flash operations in order |
| OtaDevice.OtaReceiver.HandleChunk | mqtt_io_tm4c1294/enet_io.c:259-472 | the whole handler does: reply, new variables and the flash and flag operations, in order |
| OtaDevice.OtaApply | mqtt_io_tm4c1294/ota.c:143-184 | the erase loop and copy perform exactly the specified operations |
| OtaDevice.Validate | mqtt_io_tm4c1294/ota.c:61-115 | the checks reach the specified verdict on every flash contents |
| OtaDevice.OtaCheckAndApply | mqtt_io_tm4c1294/ota.c:55-132 | a boot performs exactly the operations the crash results and NotPendingChangesNothing are about |
| Eeprom.EepromPart.EEPROMRead | mqtt_io_tm4c1294/driverlib/eeprom.c:306-359 | for every aligned address and count, across any number of blocks, the words read are those of the flat array |
| Eeprom.EepromPart.EEPROMProgram | mqtt_io_tm4c1294/driverlib/eeprom.c:380-508 | the flat array changes exactly in the words given, up to the first write-protected block, and the status says which |
| Config.Configuration.ConfigInit | iot_foundation/config.c:144-204 | the live records become what the flat store holds, or the defaults |
| Config.Configuration.ConfigSave | iot_foundation/config.c:271-293 | the flat store gets the sealed broker record, or its words up to the first protected block; the result says which |
| Config.Configuration.ConfigNtpSave | iot_foundation/config.c:401-417 | the same for the NTP record |
| Config.Configuration.ConfigOtaIsPending | iot_foundation/config.c:314-320 | the flag is read from the flat store, which does not change |
| Config.Configuration.ConfigOtaSetPending | iot_foundation/config.c:322-330 | the flag words are set in the flat store, up to a protected block, and nothing else changes |
| Config.Configuration.ConfigOtaClearPending | iot_foundation/config.c:332-340 | the flag words are cleared in the flat store, up to a protected block, and nothing else changes |
| Config.Configuration.ConfigFactoryReset | iot_foundation/config.c:351-362 | each of the three foundation magics is cleared unless its block is protected |
| ConfigStore.SavedBrokerLoads | iot_foundation/config.c:164-187 | loading after a save gives back every field of the broker record |
| ConfigStore.SavedNtpLoads | iot_foundation/config.c:189-204 | the same for the NTP record |
| ConfigStore.PowerCycleRestores | iot_foundation/config.c:40-81 | after any history of saves, flag changes and product writes, a power cycle loads the last saved records and the last flag |
| ConfigStore.DamagedBrokerRejected | iot_foundation/config.c:164-181 | one changed word anywhere in a saved broker record makes the next start use the defaults |
| ConfigStore.DamagedNtpRejected | iot_foundation/config.c:189-204 | the same for the NTP record |
| ConfigStore.ClampIsIdentity | iot_foundation/config.c:181-186 | the clamp of the packed device counts changes no record |
| ConfigStore.ResetIsSafe | iot_foundation/config.c:343-373 | a factory reset cut between records leaves each record as it was or at its default |
| MqttFrame.LengthExact | iot_foundation/mqtt_client.c:131-147 | the scan recovers an encoded length if and only if it is below 128 * 128 * 128 |
| MqttFrame.LengthFieldEnds | iot_foundation/mqtt_client.c:631-648 | for any bytes, a length field ends at its first byte below 128 or after four bytes |
| MqttFrame.EndlessLength | iot_foundation/mqtt_client.c:636-660 | a length field that has not ended after four bytes is taken for the value of its first three, and the packet dispatched once that many bytes are there |
| MqttFrame.SegmentationIndependent | iot_foundation/mqtt_client.c:606-680 | for any bytes, any cutting that does not overflow the buffer dispatches the packets of one pass over the whole stream and keeps the same rest |
| MqttFrame.FramingIsExact | iot_foundation/mqtt_client.c:606-680 | for a stream of packets and part of one more, exactly the packets are dispatched and exactly the part is kept |
| MqttFrame.PacedNeverOverflows | iot_foundation/mqtt_client.c:608-624 | when no packet is longer than n bytes and no delivery brings more than 513 - n, the 512-byte buffer never overflows |
| MqttFrame.OverflowForgets | iot_foundation/mqtt_client.c:608-624 | a segment that does not fit empties the buffer and is lost; what follows is taken as on a new connection |
| MqttWire.Receiver.Assemble | iot_foundation/mqtt_client.c:608-624 | copying a chain of segments, a segment that does not fit emptying the buffer |
| MqttWire.Receiver.RecvCB | iot_foundation/mqtt_client.c:606-683 | the loop over the buffer, shifted in place, dispatches the packets of the specification and leaves its rest; it terminates |
| MqttLink.ConversationsApart | iot_foundation/mqtt_client.c:418-460 | over every run of connections, drops and deliveries that fit, each connection's packets are those of its own bytes, and the buffer holds the rest of the current one's |
| MqttLink.EmptyAtConnect | iot_foundation/mqtt_client.c:436-453 | whenever a step gets a connection block, the assembly buffer is empty after it |
| MqttLink.HandshakeEnds | iot_foundation/mqtt_client.c:502-527 | from bytes to state: a CONNACK in any pieces makes the client ready exactly with return code 0, and otherwise sends it into the reconnect delay |
| MqttLink.PacketEffectExact | iot_foundation/mqtt_client.c:494-568 | what any packet at all does to the connection: CONNACK, short ones included, and PINGRESP as stated, every other kind nothing |
| MqttLink.KeepAlivePromised | iot_foundation/mqtt_client.c:840-872 | the keep-alive a broker reads in CONNECT is kept: a ready client is heard from in less than half of it, and waits the whole of it for an answer to a ping |
| MqttWire.PutLen | iot_foundation/mqtt_client.c:131-147 | the loop writes the encoded length behind what is already in the buffer |
| MqttWire.PutStr | iot_foundation/mqtt_client.c:154-162 | a string goes behind the buffer contents with its two-byte length |
| MqttWire.Transmitter.Publish | iot_foundation/mqtt_client.c:720-757 | a publication that fits leaves as exactly its packet, any other is refused |
| MqttWire.Transmitter.SendConnect | iot_foundation/mqtt_client.c:199-261 | the CONNECT packet of the login is sent |
| MqttPacket.PublishFits | iot_foundation/mqtt_client.c:733-737 | the size check passes a publication if and only if its packet leaves two bytes of the 768-byte buffer free |
| MqttPacket.PublishOnWire | iot_foundation/mqtt_client.c:720-757 | a decoder written after section 3.3 of MQTT 3.1.1 gets one PUBLISH with no duplicate flag, quality of service 0, the retain flag, the topic and the payload |
| MqttPacket.MessageExact | iot_foundation/mqtt_client.c:545-568 | a message is delivered if and only if the packet is a PUBLISH whose body is the topic with its length and the payload |
| MqttPacket.PingOnWire | iot_foundation/mqtt_client.c:801-808 | the two bytes of a ping are one packet of type 12 with nothing in it |
| MqttPacket.PublishRoundTrip | iot_foundation/mqtt_client.c:545-568 | publications fed back through the receiver in any segmentation arrive as the same topics and payloads in the same order |
| MqttPacket.ConnectFits | iot_foundation/mqtt_client.c:204 | with the field lengths the application passes, the variable part fits its 256-byte buffer |
| MqttPacket.FlagBits | iot_foundation/mqtt_client.c:213-230 | each bit of the connect flags says exactly which strings follow |
| MqttPacket.ConnectRoundTrip | iot_foundation/mqtt_client.c:199-261 | a decoder written after section 3.1 of MQTT 3.1.1 recovers client id, will, user and password exactly |
| MqttPacket.ConnectOnWire | iot_foundation/mqtt_client.c:199-261 | the bytes handed to TCP are one whole packet whose first byte is that of CONNECT, and it decodes to the client's fields |
| MqttConn.PcbAlways | iot_foundation/mqtt_client.c:375-460 | over every run, there is no connection block exactly in the idle and DNS states |
| MqttConn.AttemptsAreSpaced | iot_foundation/mqtt_client.c:822-838 | two attempts with no restart between them are at least 5000 ms of idle tick time apart |
| MqttConn.NextAttemptExact | iot_foundation/mqtt_client.c:822-838 | over every run of a waiting client, the next attempt comes at the first tick at which the tick time reaches the delay it started with |
| MqttConn.DelayIsBounded | iot_foundation/mqtt_client.c:822-838 | no run from power-up leaves a delay above 5000 ms |
| MqttConn.AttemptExact | iot_foundation/mqtt_client.c:375-460 | what an attempt comes to: a TCP connect, a lookup under way, or 5000 ms to wait, each if and only if the stack answers so |
| MqttConn.LookupExact | iot_foundation/mqtt_client.c:418-460 | the same for the answer to a lookup |
| MqttConn.LossThenAttempt | iot_foundation/mqtt_client.c:573-683 | after a closed or broken link, a refusal or a guard, the client has no block and tries again exactly when 5000 ms of ticks have passed |
| MqttConn.StartThenAttempt | iot_foundation/mqtt_client.c:303-340 | from any state, a start with a host is followed by an attempt at the very next tick, and one without a host by none |
| MqttConn.StopIsFinal | iot_foundation/mqtt_client.c:347-368 | over every run after a stop and before the next start, the client stays idle with no block, attempts nothing and sends nothing |
| MqttConn.StopHoldsExact | iot_foundation/mqtt_client.c:418-460 | with lookups that may be answered at any time, a stopped client stays idle until the next start if and only if none is answered well |
| MqttConn.StoppedConnects | iot_foundation/mqtt_client.c:418-487 | a run from power-up in which a client stopped during a lookup connects |
| MqttConn.ResolvingIsBounded | iot_foundation/mqtt_client.c:876-896 | an attempt never survives more than 10000 ms of ticks before TCP connects, whatever its timer started from |
| MqttConn.ResolvingGuardExact | iot_foundation/mqtt_client.c:876-896 | the guard fires exactly when the timer's starting value and the ticks since together pass 10000 ms |
| MqttConn.StaleTimerCutsAttempt | iot_foundation/mqtt_client.c:876-896 | a run from power-up in which an attempt is dropped after its first millisecond |
| MqttConn.HandshakeGuardExact | iot_foundation/mqtt_client.c:476-482 | after TCP connects the guard fires exactly past 10000 ms |
| MqttConn.SentKept | iot_foundation/mqtt_client.c:172-191 | over every run, while the link is up the keep-alive timer is exactly the time since TCP last took a packet, or since it connected |
| MqttConn.PingKept | iot_foundation/mqtt_client.c:840-875 | over every run, while the link is up the ping timer tells exactly how long a ping has been open |
| MqttConn.KeepAlive | iot_foundation/mqtt_client.c:840-854 | over every run, less than 30000 ms have passed since then after each ready tick whose own write would be taken |
| MqttConn.PingTimeoutExact | iot_foundation/mqtt_client.c:856-872 | the link is dropped at the first tick at which an unanswered ping is 60000 ms old, and at no other tick, whether or not writes succeed |
| MqttClient.Client.MQTTClientSetWill | iot_foundation/mqtt_client.c:283-296 | the will is stored, each string cut to its field, or removed |
| MqttClient.Client.MQTTClientStart | iot_foundation/mqtt_client.c:303-340 | host, port, client id and login are stored, each string cut to its field and a missing one replaced by its default, and any state is dropped for an immediate attempt |
| MqttClient.LoginTold | iot_foundation/mqtt_client.c:199-340 | from the arguments of a start to what a broker reads in CONNECT: client id or its default, will, user and password, each up to 63 characters |
| MqttClient.Client.MQTTClientStop | iot_foundation/mqtt_client.c:347-368 | the stop step of the machine, after which MqttConn.StopIsFinal holds |
| MqttClient.Client.MQTTTryConnect | iot_foundation/mqtt_client.c:375-411 | the step of the machine for literal, cached, pending and failed addresses; the assembly buffer is emptied exactly when a new connection block is had |
| MqttClient.Client.MQTTDNSFoundCB | iot_foundation/mqtt_client.c:418-460 | the step of the machine, with its three ways to fail, and the emptied assembly buffer of a new connection block |
| MqttClient.Client.MQTTConnectedCB | iot_foundation/mqtt_client.c:467-487 | on an error nothing happens, otherwise the timers are reset and the CONNECT packet of the stored login and will goes to TCP if it takes it |
| MqttClient.Client.MQTTRecvCB | iot_foundation/mqtt_client.c:606-683 | buffer and connection take the step of the link: the packets dispatched, their effects in order, and the rest kept |
| MqttClient.Client.MQTTClientTick | iot_foundation/mqtt_client.c:816-903 | the step of the machine in each of the five states, and the ping handed to TCP exactly when the machine sends |
| MqttClient.Client.MQTTClientPublish | iot_foundation/mqtt_client.c:720-757 | the packet of a publication goes to TCP exactly when the client is ready, it fits and TCP takes it |
| MqttApp.EdgeRun | iot_foundation/common/mqtt_app.c:112-174 | over every run, an attempt under way implies that the last tick saw no connection |
| MqttApp.OneCallPerSession | iot_foundation/common/mqtt_app.c:162-174 | over every run no session is announced twice, and every session ready at a tick has been announced |
| MqttGlue.Application.MQTTAppStart | iot_foundation/common/mqtt_app.c:112-138 | the stored settings and a retained "offline" will reach the client, whose CONNECT fits its buffer; the machine starts with the edge detector reset; nothing without a broker |
| MqttGlue.Application.MQTTAppStop | iot_foundation/common/mqtt_app.c:145-150 | the stop step with the edge detector reset |
| MqttGlue.Application.MQTTAppTick | iot_foundation/common/mqtt_app.c:161-174 | the client tick and at most one announcement |
| MqttGlue.Application.Arrives | iot_foundation/mqtt_client.c:606-683 | a delivery is the run of the application machine over the packets in it |
| FormDecode.DecodeFormString | iot_foundation/common/cgifuncs.c:266-351 | for every terminated input and every buffer of at least one byte: the longest decoded prefix that fits, terminated, its length returned, nothing written behind |
| FormDecode.DecodeHexEscape | iot_foundation/common/cgifuncs.c:165-179 | writes the decoded character exactly when both digits are hexadecimal |
| FormDecode.HexDigit | iot_foundation/common/cgifuncs.c:119-146 | a value below 16 exactly for the hexadecimal digits |
| FormDecode.DecodedInverts | iot_foundation/common/cgifuncs.c:266-351 | decoding inverts every mix of plain, plus and either-case percent encodings |
| FormDecode.FormRoundTrip | iot_foundation/common/cgifuncs.c:266-351 | what is stored for any encoding of s is the longest prefix of s that fits |
| FormDecode.EncodedUnambiguous | iot_foundation/common/cgifuncs.c:266-351 | two strings that share an encoding are equal |
| FormDecode.BadEscapeVanishes | iot_foundation/common/cgifuncs.c:310-327 | an escape with a bad digit is skipped whole and leaves no trace |
| FormDecode.CutEscapeVanishes | iot_foundation/common/cgifuncs.c:327-337 | a text that ends inside an escape ends before it |
| Netbios.NbDecodeName | iot_foundation/common/netbiosns.c:69-80 | the loop decodes the 16 octets of a label |
| Netbios.UnlevelInverts | iot_foundation/common/netbiosns.c:69-80 | decoding inverts the first-level encoding of section 14.1 of RFC 1001 |
| Netbios.SameName | iot_foundation/common/netbiosns.c:76-78 | two labels are the same name exactly when their octets agree modulo 16 |
| Netbios.QueryMatches | iot_foundation/common/netbiosns.c:89-117 | a query for a name, for any service and in any case, matches exactly the nodes whose client id starts with it over 15 characters |
| Netbios.QueryAnswered | iot_foundation/common/netbiosns.c:125-253 | from datagram to reply: a query for a name, for any service and in any case, is answered by exactly the nodes that keep that name, not empty, of their client id; the answer is an authoritative response without error that repeats transaction and name and carries the address of the node |
| Netbios.CaseApart | iot_foundation/common/netbiosns.c:58-66 | two names agree in upper case exactly when they agree letter by letter, case apart |
| Netbios.OwnNameAnswered | iot_foundation/common/netbiosns.c:89-253 | a node answers to the first 15 characters of its client id in any case of the letters |
| Netbios.OthersIgnored | iot_foundation/common/netbiosns.c:133-165 | responses, other operations, datagrams with no question or split or too short, other types and name lengths get no answer from any node, and none comes from a node without address or buffer |
| Netbios.AnswersUnanswered | iot_foundation/common/netbiosns.c:143-207 | no node answers an answer |
| Netbios.CanBeFound | iot_foundation/common/netbiosns.c:224-253 | some datagram is answered exactly when what the node keeps of its client id is not empty and does not end in a space |
| Netbios.Responder.constructor | iot_foundation/common/netbiosns.c:224-253 | the snapshot is the first 15 characters in upper case; the listener is opened unless it is empty or there is no socket |
| Netbios.Responder.NbNameMatches | iot_foundation/common/netbiosns.c:89-117 | the two loops decide the match |
| Netbios.Responder.NbReceive | iot_foundation/common/netbiosns.c:125-216 | a reply exactly for an NB query, in one buffer, that names this node while it has an address and a buffer for the reply can be had |
| Netbios.Responder.Deliver | iot_foundation/common/netbiosns.c:239-253 | the same, and none from a node that does not listen |
| Sntp.StartsAgain | iot_foundation/common/sntp_client.c:189-248 | with no callback arriving, the next start comes within the rank of the state, from every state |
| Sntp.StartExact | iot_foundation/common/sntp_client.c:202-245 | while nothing is under way, the next start comes exactly when the limit of the state is reached |
| Sntp.WaitExact | iot_foundation/common/sntp_client.c:213-236 | a lookup or a request is given up exactly when its limit is reached, and the timer starts anew |
| Sntp.LookupExact | iot_foundation/common/sntp_client.c:113-131 | the answer to a lookup leads to exactly 5000 ms of waiting for a reply, or to the next start after exactly 30000 ms |
| Sntp.StartOutcome | iot_foundation/common/sntp_client.c:157-184 | a start asks a known address, looks up any other, and without a socket changes no state |
| Sntp.ReplySetsClock | iot_foundation/common/sntp_client.c:64-107 | a reply that tells the time u, written most significant byte first in its transmit timestamp, leaves the client synced to u from any state |
| Sntp.ReplyShown | iot_foundation/common/sntp_client.c:64-299 | from datagram to face: after a reply that tells u and less than 2^32 ms of ticks, the face shows that much past u in local time exactly while the offset stays in range |
| Sntp.ReplyRefused | iot_foundation/common/sntp_client.c:70-98 | a short reply changes nothing, and one from before 1970 leaves the clock as it was |
| Sntp.ClockRuns | iot_foundation/common/sntp_client.c:192-197 | between replies the counter advances by the tick time, modulo 2^32 |
| Sntp.ClockRunsExact | iot_foundation/common/sntp_client.c:192-197 | the seconds reckoned with are right if and only if the millisecond counter has wrapped a multiple of 1000 times since the last reply |
| Sntp.ClockShowsTheDay | iot_foundation/common/sntp_client.c:293-295 | hours, minutes and seconds are the seconds of the day |
| Sntp.ClockRight | iot_foundation/common/sntp_client.c:271-295 | the face shows local time exactly when the offset neither leaves 32 bits nor goes below 0 |
| Sntp.Client.SntpTick | iot_foundation/common/sntp_client.c:189-248 | the step of the machine in each of the four states |
| Sntp.Client.SntpInit | iot_foundation/common/sntp_client.c:157-184 | the start step, with no socket and with a cached address |
| Sntp.Client.SntpRecvCB | iot_foundation/common/sntp_client.c:64-107 | short packets ignored, timestamps before 1970 refused, others taken as the time |
| Sntp.Client.SntpGetTime | iot_foundation/common/sntp_client.c:258-299 | the face shown, dashes before the first sync, and nothing written into a buffer of fewer than 9 bytes |
| CanBitRate.Controller.CANBitRateSet | mqtt_io_tm4c1294/driverlib/can.c:554-670 | the nested search settles on the smallest settable ratio from its start with the longest bit and writes its registers, between entering initialisation mode and restoring the mode; the rate returned is not above the one asked for; 0 and no register touched when the start is too large |
| CanBitRate.AtMostFourRatios | mqtt_io_tm4c1294/driverlib/can.c:592-664 | no more than four ratios are looked at, and the limit is never passed |
| CanBitRate.ChosenUnique | mqtt_io_tm4c1294/driverlib/can.c:592-664 | ratio and bit length are determined by the start |
| CanBitRate.ClosestFromBelow | mqtt_io_tm4c1294/driverlib/can.c:540-545 | no settable ratio with a rate at or below the one asked for comes closer |
| CanBitRate.UnroundedRateExceeds | mqtt_io_tm4c1294/driverlib/can.c:540-600 | the unrounded rate exceeds the one asked for exactly when the rate does not divide the clock and their rounded-down ratio is settable and passes the driver's check |
| CanBitRate.UnroundedRateExceedsExample | mqtt_io_tm4c1294/driverlib/can.c:584-600 | an input for which that happens |
| CanBitRate.ZeroThoughSet | mqtt_io_tm4c1294/driverlib/can.c:655 | 0 is returned for a rate that was set exactly when the rate asked for is 1 and the clock is no settable ratio |
| CanBitRate.ZeroThoughSetExample | mqtt_io_tm4c1294/driverlib/can.c:655 | an input for which that happens |
| CanBitRate.TimingsExact | mqtt_io_tm4c1294/driverlib/can.c:100-133 | the table follows one rule: the first segment half of the bit rounded up, the second the rest, the jump width the second segment up to 4 |
| CanBitRate.RegistersReadBack | mqtt_io_tm4c1294/driverlib/can.c:100-133 | the registers read back as the table's segments, which add up to the bit length, and the pre-divider cut to ten bits |
| CanBitRate.BusRatioExact | mqtt_io_tm4c1294/driverlib/can.c:592-645 | for every clock and rate, the bus runs at the ratio set for them if and only if that ratio is at most 1024 bits of the length set |
| CanBitRate.SmallStartsExact | mqtt_io_tm4c1294/driverlib/can.c:592-664 | which holds whenever the search starts at 4096 or below |
| CanBitRate.PreDividerCutShort | mqtt_io_tm4c1294/driverlib/can.c:633-645 | a clock and rate for which it fails |
| CanBitRate.Controller.CANBitTimingGet | mqtt_io_tm4c1294/driverlib/can.c:487-521 | for every clock and rate the registers have been set for: the segments add up to the bit length chosen, and the cycles per bit are the ratio chosen if and only if that is at most 1024 bits |

## Left out

- Update: chunk numbers are unbounded integers, where the firmware counts in 32 signed bits; parsing of the query string (`FindCGIParameter`, `ustrtoul`) is not modelled, a request arrives as its fields.
- Update: the boot code is assumed to run. Power loss while page 0 itself is half written can stop it, as mqtt_io_tm4c1294/ota.c:127-130 says.
- Update: checksumming more bytes than the staging region holds is a bus fault that ends the request; what the processor does after it is not modelled.
- OtaCommit.CommitOrdering: says nothing of the header when power fails inside an erase or a programming of its page while the flag is already set: the cells may then hold anything.
- OtaEndToEnd.EndToEnd: speaks of boots that decide to copy; a slot that already has the header's checksum is left as it is, and OtaBoot.FlagFallsOnlyWhenApplied says what then holds.
- OtaStaging.RunSimulates: stops at the first last chunk; from there OtaFlush and OtaCommit take over.
- MqttWire.Transmitter.Publish: requires the packet length to fit its 16-bit variable (`Measured`: topic and payload of at most 65533 bytes together); the wrap beyond it is not modelled.
- MqttWire.Transmitter.SendConnect: requires the variable part to fit the 256 bytes the firmware has for it, which stored strings of up to 63 characters each could exceed; MqttGlue.Application.MQTTAppStart shows that those of the application do not.
- MqttClient.Client.MQTTConnectedCB: requires the same of the stored login and will.
- MQTT: a segment that overflows the assembly buffer empties it (`Assemble` does), but the framing results and MqttLink.ConversationsApart assume this does not happen; MqttFrame.PacedNeverOverflows gives a condition under which it cannot.
- MQTT: one CONNACK per connection, data only from the current connection and, except in MqttConn.StopHoldsExact, no late DNS answer are assumed of the network (`Legal`); timers are unbounded integers.
- MqttGlue.Application.MQTTAppStart: takes the status topic to be the topic base followed by "/status"; `PalSnprintf`, which formats it, is not part of this model, and neither are the other topic strings.
- MQTT: SUBSCRIBE packets and packet identifiers.
- EEPROM: the delay, the busy polling and the sector-mask workaround for other parts; the register header is not part of this model, so the block size follows the driver's address arithmetic. A save cut by a power loss is modelled for the factory reset only.
- Config.Configuration.ConfigInit: ends before the product hook at iot_foundation/config.c:212; product code is not part of this model.
- Config.Configuration.ConfigFactoryReset: without the product hook at iot_foundation/config.c:363.
- Settings: product records are arbitrary words in their own address ranges; JSON restore and the web forms.
- URL decoding: `EncodeFormString` rests on `PalSnprintf`, which is not part of this model; a buffer of size 0 wraps the bound in the code and is excluded.
- NetBIOS and SNTP: sockets, buffers and DNS become success or failure inputs; of a datagram split over several buffers only the first is seen, and the code drops it.
- SNTP: `g_ui32Elapsed` is unbounded here; it is reset long before 32 bits unless one tick is huge.
- CAN: register layout constants come from a header that is not part of this model; the field positions are those of the TM4C1294 register map, and the other functions of the driver are left out.
- CanBitRate.Controller.CANBitRateSet: requires the clock-to-rate ratio that the driver asserts.
- Update: the reset that the main loop is asked for after a commit; SNTP: the bytes of the request.
- lwIP, TCP, DNS, interrupt masking (each callback or tick is one step), the HTTP server and its page templates, board bring-up, the other TivaWare drivers, product code, the Python tools: plumbing with no property of its own here.
