# Verified model of the Mini BLE firmware's core logic

The Mini BLE password keeper has a main MCU and an auxiliary MCU (two generations of firmware,
here called v1 and v2) that talk over a serial link, USB and Bluetooth, and Python scripts on the
host. This project models the parts whose correctness is decided by code, and proves what they
are for. `dafny verify dfyconfig.toml` checks everything.

Each component has a specification on values (a state, a step, a run) and, where the source
updates variables, a class or method with loops that is proved to do exactly that step. The
properties are lemmas about all inputs or all runs of the specification.

| file | component |
|---|---|
| `EarlyDispatch.dfy`, `EarlyAnswers.dfy`, `SlotReading.dfy`, `MainMcuComms.dfy` | messages from the main MCU: DMA, completion interrupt, a main loop that may answer a message before it is complete, and the handler that reads a message packet by packet |
| `TxPacing.dfy` | the pause between two transmissions to the main MCU |
| `Wrappers.dfy` | what several components share |
| `HidPackets.dfy`, `HidHost.dfy`, `HidHostStreams.dfy`, `HidSend.dfy` | HID packets, the host's sender and receiver, both devices' senders |
| `UsbReceiverV1.dfy`, `UsbReceiverV2.dfy`, `UsbReceiverV2Runs.dfy`, `UsbReceiverV2Flip.dfy` | reassembly of HID packets in the two devices |
| `Crc16.dfy`, `CrcPeriod.dfy` | the nibble-table CRC-16 and how long its register takes to repeat |
| `SimpleCrypt.dfy`, `SimpleCryptLaws.dfy`, `SimpleCryptBytes.dfy` | the chained XOR cipher with its integrity check |
| `Utf8.dfy`, `Utf8Strings.dfy` | UTF-8 (section 3 of RFC 3629) and the BMP strings of the main MCU |
| `NorFlash.dfy`, `FlashLoaders.dfy`, `BootloaderV1.dfy`, `BootloaderV1Images.dfy`, `BootloaderV1Transfer.dfy` | flash memory with rows, pages and a page buffer; the programs that write firmware to it; the v1 bootloader's state machine |
| `Timers.dfy`, `Charger.dfy`, `ChargerRegulation.dfy`, `CurrentSense.dfy` | millisecond timers, the NiMH charger on top of them, the two-phase current measurement |
| `KeyboardLut.dfy` | keyboard layout files: the script that writes them and the firmware that reads them |

## Where the code does not do what it is meant to

Each of these is a theorem; wherever a condition is named as exact, it is proved in both directions.

- A message that completes between the clearing of its class's received flag and the use of its
  slot makes the main loop handle the wrong message: the one that was held is never handled, the
  new one twice (`EarlyDispatch.DisturbedMessageIsUsedTwice`). A message that completes while the
  flag of its class is still set overwrites the one that is flagged (`EarlyDispatch.LostIff`).
  Every message is handled exactly once if and only if neither happens
  (`EarlyDispatch.ExactlyOnceIff`).
- The USB handler reads a message from its slot packet by packet while interrupts are on. What it
  sends is one message if and only if no message of the class completes before the last packet is
  taken (`SlotReading.ReadsOneMessageIff`); otherwise the PC gets the beginning of one message
  and the end of another (`SlotReading.TornMessage`, `SlotReading.TornHundred`).
- Changing the byte with the low checksum byte goes undetected exactly when the data length is a
  positive multiple of 32767 (`SimpleCryptLaws.SingleByteChange`).
- The v1 sender's 4-bit loop never ends when the number of fragments is a multiple of 16, as for
  931 to 992 bytes; other messages of more than 930 bytes are cut off (`HidSend.SenderV1Ends`).
- The v2 receiver takes a packet with another number when it expects packet 0, and can deliver
  the tail of a message as a message (`UsbReceiverV2Runs.DeliversTailAlone`). A message delivered
  is whole if and only if its first packet was packet 0 (`UsbReceiverV2Runs.EveryDelivery`). A
  message sent while the device is in the middle of another one is never delivered as it is
  (`UsbReceiverV2Flip.DeliveredIff`).
- The v1 bootloader ignores the flash driver's error, so writes that are not whole rows count as
  written (`BootloaderV1.ProgrammedIffWholeRows`, `BootloaderV1.StartsUnwritten`).
- Its `exit_programming` flag is never cleared, so a second image is started after its first
  write, whole or not (`BootloaderV1Images.StartsWholeImageIff`,
  `BootloaderV1Images.HalfImageIsStarted`).
- The v2 bootloader's 16-bit offset never reaches a write size of 65536 bytes or more
  (`FirmwareV2.RowLoopEnds`), nor that of the v1 flash driver such a length (`NvmV1.PageLoopEnds`),
  which no v1 write command can have.
- Lowering a charger set-point of 0 wraps it to its maximum and raises the output
  (`Charger.LoweringRaisesIffZero`, `Charger.SetPointReachesZero`); readings of 3975 or more never get there
  (`Charger.NeverRaisedOnHighReading`). `LB_ERROR_CUR_REACH` is never entered. A ramp of 6499
  readings wraps the set-point to 4 mV (`ChargerRegulation.RampNeverFalls`).
- A keyboard layout with more than 15 intervals, or with one that starts at 0xFFFF, is written
  without complaint and cannot be read back (`KeyboardLut.AgreesIffUsable`).
- The UTF-8 encoder encodes surrogates, which RFC 3629 forbids (`Utf8.EncodesPerRfc`). The 16-bit
  results of the string functions wrap, and an empty string gets no terminator
  (`Utf8Strings.BmpToUtf8`).
- The UTF-8 decoder looks at bytes behind the length it is given, exactly when a sequence reaches
  over it or an invalid byte stands right behind it (`Utf8Strings.ReadsBehindIff`). From a length
  of 32769 on its signed count can wrap, and the length is ignored
  (`Utf8Strings.LengthIsIgnored`).

## Model

| member | source | states |
|---|---|---|
| EarlyDispatch.RunIsSteady | source_code/aux_mcu_v2/src/COMMS/comms_main_mcu.c:223-291 | on every interleaving of bytes, completions and main-loop steps, disturbing completions included, one invariant holds of flags, slots, sample and dispatches |
| EarlyDispatch.FlagDiscipline | source_code/aux_mcu_v2/src/DMA/dma.c:60-98 | on every run no class has its answered and received flags set together; at most one answered flag is set, it names the class of the message in flight, and it is set exactly when that message is answered early |
| EarlyDispatch.CopyIsRight | source_code/aux_mcu_v2/src/COMMS/comms_main_mcu.c:279-290 | on every run, where the critical section decides to answer, the copy it makes agrees with the message in flight on type, length and payload |
| EarlyDispatch.DispatchesAreRight | source_code/aux_mcu_v2/src/COMMS/comms_main_mcu.c:223-309 | on every run each dispatch of a completed message has the right class and, at the moment its handler is called, the right bytes, up to the end of the payload if it was early; a message dispatched early is not dispatched again |
| EarlyDispatch.RunKeepsInv | source_code/aux_mcu_v2/src/COMMS/comms_main_mcu.c:223-291 | on every run in which no completion lands in a slot being used, dispatches of a class are in order, waiting messages are not dispatched, and every completed message is accounted for |
| EarlyDispatch.AtMostOnceInOrder | source_code/aux_mcu_v2/src/COMMS/comms_main_mcu.c:223-291 | on those runs no message is dispatched twice and messages of a class are dispatched in arrival order |
| EarlyDispatch.AtMostOnceIffQuiet | source_code/aux_mcu_v2/src/COMMS/comms_main_mcu.c:225-255 | when the full-message check runs between any two completions of a class, no message is dispatched twice if and only if no completion lands between a flag's clearing and the slot's use |
| EarlyDispatch.LostIff | source_code/aux_mcu_v2/src/DMA/dma.c:60-98 | on every run a message is lost from its slot while flagged if and only if a completion of its class comes while the received flag is set |
| EarlyDispatch.ExactlyOnceIff | source_code/aux_mcu_v2/src/COMMS/comms_main_mcu.c:225-255 | on every run, every completed message is dispatched exactly once, after one more pass of the checks, if and only if no completion lands between a flag's clearing and the slot's use and none comes while the flag of its class is set |
| EarlyDispatch.ExactlyOnceIffQuiet | source_code/aux_mcu_v2/src/COMMS/comms_main_mcu.c:225-255 | when the full-message check runs between any two completions of a class, the first of these conditions alone decides: exactly once if and only if no completion lands between a flag's clearing and the slot's use |
| EarlyDispatch.DispatchedExactlyOnce | source_code/aux_mcu_v2/src/COMMS/comms_main_mcu.c:225-255 | the positive half for one message: on a run without either, exactly once as soon as the main loop has gone through its checks again |
| EarlyDispatch.NothingLost | source_code/aux_mcu_v2/src/DMA/dma.c:60-98 | no flagged message is overwritten when its class is checked between any two completions |
| EarlyDispatch.CheckedIsKept | source_code/aux_mcu_v2/src/DMA/dma.c:60-98 | checking a class between any two of its completions is enough: no completion comes while the flag of its class is set |
| EarlyDispatch.FlagMeansUnchecked | source_code/aux_mcu_v2/src/DMA/dma.c:60-98 | a set received flag goes back to a completion since which the class was not checked |
| EarlyDispatch.DisturbedMessageIsUsedTwice | source_code/aux_mcu_v2/src/COMMS/comms_main_mcu.c:226-235 | a run from power-on, checked between its two completions, on which the second USB message is dispatched twice and the first never |
| EarlyDispatch.DisturbedRunLoses | source_code/aux_mcu_v2/src/COMMS/comms_main_mcu.c:225-255 | after a completion in a slot being used some completed message is never dispatched, whatever follows |
| EarlyAnswers.DecidesIff | source_code/aux_mcu_v2/src/COMMS/comms_main_mcu.c:276-291 | on every run, the step of the critical section sets the answered flag of the class, and no other, and goes on to answer if and only if the bytes counted reach the end of the payload, are fewer than 524, and neither flag of the class is set; otherwise it changes nothing |
| EarlyAnswers.PassAnswersIff | source_code/aux_mcu_v2/src/COMMS/comms_main_mcu.c:256-309 | on every run, a pass of the main loop in which only bytes arrive logs an early answer of the message in flight, with its number, class, type, length and payload, if and only if the bytes there at its beginning reach the end of the payload and are fewer than 524 and neither flag of the class is set |
| EarlyAnswers.IsAnsweredEarly | source_code/aux_mcu_v2/src/COMMS/comms_main_mcu.c:256-309 | for any message of any class, and any moment from the end of its payload until fewer than 21 bytes are to come: a run from power-on on which it is answered before it is complete |
| SlotReading.SlotIsOwned | source_code/aux_mcu_v2/src/DMA/dma.c:60-98 | on every run a slot holds, byte for byte, the last completed message of its class, and if that waits to be dispatched it is as that message |
| SlotReading.OwnerStaysIff | source_code/aux_mcu_v2/src/DMA/dma.c:60-98 | over any window of events the slot stays with the same message if and only if no message of the class completes; afterwards it holds a later one |
| SlotReading.ReadsOneMessageIff | source_code/aux_mcu_v2/src/COMMS/comms_usb.c:101-149 | on every run and for any moments at which the handler takes its fragments: each is one of the message that owns the slot at that moment, and all are of the message dispatched if and only if no message of the class completes before the last one is taken |
| SlotReading.CopyStays | source_code/aux_mcu_v2/src/COMMS/comms_main_mcu.c:279-309 | a message answered early is read from a copy that no interrupt changes while the handler runs |
| SlotReading.TornMessage | source_code/aux_mcu_v2/src/COMMS/comms_usb.c:101-149 | for any two USB messages, a run from power-on on which the handler, called for the first, takes its first fragment from it and all others from the second, though no completion lands between a flag's clearing and the slot's use |
| SlotReading.TornHundred | source_code/aux_mcu_v2/src/COMMS/comms_usb.c:101-149 | for instance, of a message of 100 ones the fragments sent are 62 ones and 38 twos |
| MainMcuComms.Comms.ByteArrives | source_code/aux_mcu_v2/src/DMA/dma.c:362-374 | a received byte goes to the next place of the DMA buffer; the state moves by one byte step |
| MainMcuComms.Comms.DmacHandler | source_code/aux_mcu_v2/src/DMA/dma.c:45-103 | the interrupt handler on the buffers and flags is the completion step |
| MainMcuComms.Comms.CheckReceived | source_code/aux_mcu_v2/src/COMMS/comms_main_mcu.c:226-229 | testing and clearing a received flag is the check step |
| MainMcuComms.Comms.DealWithSlot | source_code/aux_mcu_v2/src/COMMS/comms_main_mcu.c:231-255 | handling the slot unless already answered is the slot step |
| MainMcuComms.Comms.ReadByteCount | source_code/aux_mcu_v2/src/DMA/dma.c:208-220 | the count read is exact, or that of a finished transfer just after re-arming |
| MainMcuComms.Comms.CriticalSection | source_code/aux_mcu_v2/src/COMMS/comms_main_mcu.c:276-291 | the critical section on flags and buffers is the decision step |
| MainMcuComms.Comms.AnswerEarly | source_code/aux_mcu_v2/src/COMMS/comms_main_mcu.c:293-309 | the copy is handled by its own type |
| TxPacing.NeedsDelay | source_code/aux_mcu_v2/src/DMA/dma.c:262-287 | the branches on the wrapping counters amount to one test: fewer than 720 counted cycles and fewer than 20 ms |
| TxPacing.SkippingIsSafe | source_code/aux_mcu_v2/src/DMA/dma.c:262-287 | whenever the delay is skipped at least 720 cycles have really passed, across any number of wraps of both counters |
| TxPacing.DelayIsExact | source_code/aux_mcu_v2/src/DMA/dma.c:262-287 | until the millisecond counter has run round, the delay is taken if and only if fewer than 720 cycles have passed, or exactly 720 with a wrap |
| HidPackets.CountsAgree | source_code/aux_mcu/src/USBHID/usbhid.c:158-164 | the three packet-count formulas agree on every non-empty length |
| HidPackets.PacketFields | scripts/python_framework/generic_hid_device.py:42-98 | every generated packet has the length, flags, number and count it should, bit for bit in its two header bytes, its payload behind them, and is not the reset marker |
| HidHost.GenericHidDevice.GetPacketsFromMessage | scripts/python_framework/generic_hid_device.py:42-98 | the fragments of the message, in order, and the flip bit toggled; with more than 16 packets it raises and the flip bit stays |
| HidHost.ReceiveHidMessage | scripts/python_framework/generic_hid_device.py:159-206 | the loop computes the recursive collection of fragments, including size errors, timeouts and short packets |
| HidHostStreams.ReceivesIff | scripts/python_framework/generic_hid_device.py:159-206 | on any stream of packets that hold what they announce: without a packet that bears the number of the last one the call times out; otherwise it takes the packets up to the first such one and gives command, length and data if and only if the first has at least 4 payload bytes and the length field is that of the rest |
| HidSend.SendHidMessage | source_code/aux_mcu_v2/src/COMMS/comms_usb.c:101-149 | the loop ends and sends exactly the message's fragments, padded to 64 bytes |
| HidSend.SendToUsb | source_code/aux_mcu/src/USBHID/usbhid.c:154-182 | up to 930 bytes the loop ends and sends exactly the message's fragments; an empty message gives one empty packet |
| HidSend.SenderV1Ends | source_code/aux_mcu/src/USBHID/usbhid.c:154-182 | for every length the condition of the 4-bit loop fails after some number of turns if and only if the count is not 15, that is, unless a non-empty message has a multiple of 16 fragments; the loop then ends after as many packets as the count says, and has sent everything if and only if that is at most 930 bytes |
| HidSend.HostRecovers | scripts/python_framework/generic_hid_device.py:159-206 | from the fragments of any message of at least 4 bytes the host gets command, length and data if the length field is right, else a size error |
| HidSend.RoundTripV2 | source_code/aux_mcu_v2/src/COMMS/comms_usb.c:101-149 | what the v2 device sends, the host recovers |
| HidSend.RoundTripV1 | source_code/aux_mcu/src/USBHID/usbhid.c:154-182 | what the v1 device sends, the host recovers |
| UsbReceiverV2.DeliversAfterReset | source_code/aux_mcu_v2/src/COMMS/comms_usb.c:171-272 | after any packets and a reset marker, the host's packets for messages m1..mk make the device deliver exactly m1..mk, in order |
| UsbReceiverV2.ReceiveMessage | source_code/aux_mcu_v2/src/COMMS/comms_usb.c:190-265 | a receiver that expects packet 0 with the host's flip bit delivers the message, zero-padded, and flips |
| UsbReceiverV2.StreamHasNoMarker | scripts/python_framework/generic_hid_device.py:294-298 | no packet the host generates can be taken for the reset marker |
| UsbReceiverV2Runs.EveryDelivery | source_code/aux_mcu_v2/src/COMMS/comms_usb.c:171-272 | for any stream of packets, the messages delivered come, in order, from separate contiguous runs with one flip bit; such a run is a whole message if and only if its first packet is packet 0, and then exactly its bodies, zero-padded, are delivered |
| UsbReceiverV2Runs.WholeIffFirstIsZero | source_code/aux_mcu_v2/src/COMMS/comms_usb.c:199-265 | the same for the packets held when a packet makes the device deliver |
| UsbReceiverV2Runs.DeliversTailAlone | source_code/aux_mcu_v2/src/COMMS/comms_usb.c:199-206 | from power-on, a message of several packets and then only the last packet of another one as long: that packet's payload is delivered as a message, before the rest of the first one |
| UsbReceiverV2Flip.FlipIsParity | source_code/aux_mcu_v2/src/COMMS/comms_usb.c:171-265 | whatever came before, the flip bit expected is the parity of the deliveries since the last marker, or since power-on |
| UsbReceiverV2Flip.DeliversAfterRejection | source_code/aux_mcu_v2/src/COMMS/comms_usb.c:189-230 | after any stream whose last packet was rejected, messages that go on with the flip bit expected before it are delivered exactly, in order |
| UsbReceiverV2Flip.RepetitionIsIgnored | source_code/aux_mcu_v2/src/COMMS/comms_usb.c:189-197 | whatever the host sends with the flip bit of a delivered message before it goes on with the other one delivers nothing and loses nothing of what follows |
| UsbReceiverV2Flip.DeliveredIff | source_code/aux_mcu_v2/src/COMMS/comms_usb.c:189-206 | after any stream, a host message on the flip bit expected is delivered, alone and as it is, if and only if the device is not in the middle of another one |
| UsbReceiverV2.UsbComms.CommunicationRoutine | source_code/aux_mcu_v2/src/COMMS/comms_usb.c:171-272 | the routine on the globals and the payload buffer is one receive step |
| UsbReceiverV2.UsbComms.ConfigurationCallback | source_code/aux_mcu_v2/src/COMMS/comms_usb.c:154-166 | the callback resets flip state and indexes and nothing else |
| UsbReceiverV1.EveryMessageIsWhole | source_code/aux_mcu/src/USBHID/usbhid.c:80-131 | for any stream of packets, the messages handed over come, in order, from separate contiguous runs numbered 0 to the total with one flip bit, each with what fits of its packets' bodies |
| UsbReceiverV1.HandedOverIff | source_code/aux_mcu/src/USBHID/usbhid.c:80-131 | a packet makes the device hand over a message if and only if the stream ends in a whole message that starts while nothing is held |
| UsbReceiverV1.FittedIffShort | source_code/aux_mcu/src/COMM/comm.c:119-148 | the payload is the concatenation of the bodies if and only if they are at most 536 bytes |
| UsbReceiverV1.HoldsOpenMessage | source_code/aux_mcu/src/USBHID/usbhid.c:80-131 | after any stream the receive buffer holds the bodies of the packets counted, within 992 bytes |
| UsbReceiverV1.DeliversNextMessage | source_code/aux_mcu/src/USBHID/usbhid.c:80-131 | after any stream, a host message of up to 536 bytes on the other flip bit is handed over unchanged, and nothing else |
| UsbReceiverV1.DeliversMessages | source_code/aux_mcu/src/USBHID/usbhid.c:80-131 | after any stream, host messages m1..mk with alternating flip bit, beginning with the other one, are handed over unchanged in order, and nothing else |
| UsbReceiverV1.UsbHid.Task | source_code/aux_mcu/src/USBHID/usbhid.c:80-131 | the function on the statics and buffers is one receive step |
| UsbReceiverV1.UsbHid.ProcessInPkt | source_code/aux_mcu/src/COMM/comm.c:119-148 | filling the message for the main MCU in place is the forwarding step |
| Crc16.Checksum | scripts/smc_decode/simplecrypt.py:86-93 | the nibble-table loop equals the bit-by-bit reflected CRC with polynomial 0x8408, initial value 0xFFFF and complement (Appendix C.2 of RFC 1662) |
| Crc16.GoodFinalValue | scripts/smc_decode/simplecrypt.py:86-93 | for every message followed by its checksum, low byte first, the register ends in 0xF0B8 (Appendix C.2 of RFC 1662) |
| Crc16.CheckValue | scripts/smc_decode/simplecrypt.py:86-93 | the checksum of the ASCII digits 1 to 9 is 0x906E |
| Crc16.BurstDetected | scripts/smc_decode/simplecrypt.py:86-93 | equal-length inputs that differ only within two adjacent bytes have different checksums |
| Crc16.FoldKeepsDifference | scripts/smc_decode/simplecrypt.py:88-92 | different register values stay different over any common tail |
| Crc16.ByteStepIsTimesEight | scripts/smc_decode/simplecrypt.py:88-92 | a byte step is eight steps of the register after adding the byte |
| CrcPeriod.PeriodOnBytes | scripts/smc_decode/simplecrypt.py:40-43 | n steps of the register bring a non-zero byte value back if and only if 32767 divides n |
| CrcPeriod.TimesIsProduct | scripts/smc_decode/simplecrypt.py:40-43 | n steps are one multiplication of polynomials over GF(2) |
| SimpleCrypt.SplitKey | scripts/smc_decode/simplecrypt.py:113-120 | the eight parts are the little-endian digits of the key modulo 2^64 |
| SimpleCrypt.DecipherInvertsEncipher | scripts/smc_decode/simplecrypt.py:154-163 | deciphering undoes enciphering from any position and chaining byte |
| SimpleCryptBytes.EncipherChains | scripts/smc_decode/simplecrypt.py:156-164 | each byte of the result is the sum (XOR) of the byte of the text, the byte of the result before it, and digit i mod 8, to base 256, of the key modulo 2^64 |
| SimpleCryptBytes.DecipherChains | scripts/smc_decode/simplecrypt.py:210-220 | deciphering gives the byte string to which the bytes received stand in that relation |
| SimpleCrypt.Cryptor.EncryptToBytes | scripts/smc_decode/simplecrypt.py:123-171 | the method computes the specified encryption, errors included, and changes nothing |
| SimpleCryptBytes.EncryptsTo | scripts/smc_decode/simplecrypt.py:122-176 | for every key: version 3, the flags, and, chained with the bytes of the key, the random byte, the checksum, higher byte first, and the text or its length, highest byte first, and compressed form; compressed always, never, or if shorter; it fails if and only if a length of 2^32 or more is to be packed |
| SimpleCrypt.Cryptor.DecryptToBytes | scripts/smc_decode/simplecrypt.py:181-244 | the method computes the specified decryption, errors included, and changes nothing |
| SimpleCryptBytes.DecryptsTo | scripts/smc_decode/simplecrypt.py:190-245 | for every key and checksum-mode message: the byte string that chains to it with the bytes of the key is refused unless its checksum matches, and otherwise gives what is behind the checksum, decompressed from its fifth byte on if flagged |
| SimpleCryptLaws.RoundTrip | scripts/smc_decode/simplecrypt.py:123-244 | decrypting what was encrypted gives the text, for every key, random byte and compression mode |
| SimpleCryptLaws.RefusedIffNotIntact | scripts/smc_decode/simplecrypt.py:213-239 | a checksum-mode message is refused if and only if its checksum does not match |
| SimpleCryptLaws.Spread | scripts/smc_decode/simplecrypt.py:209-218 | changing one ciphertext byte changes the plaintext there and at the next byte, by the same amount, and nowhere else |
| SimpleCryptLaws.SingleByteChange | scripts/smc_decode/simplecrypt.py:213-239 | changing one byte behind the header is detected, except the low checksum byte when the data length is a positive multiple of 32767 |
| Utf8.DecodeInvertsEncode | source_code/main_mcu/src/utils.c:307-419 | every code point of the plane is decoded from its encoding, whatever follows |
| Utf8.EncodesPerRfc | source_code/main_mcu/src/utils.c:367-419 | the encoding is well formed by section 4 of RFC 3629 if and only if the code point is no surrogate |
| Utf8.ReEncodes | source_code/main_mcu/src/utils.c:307-358 | an accepted sequence encodes back to itself if and only if it is well formed or a surrogate's form |
| Utf8.InvalidIff | source_code/main_mcu/src/utils.c:301-358 | a sequence is refused if and only if its first byte is 0x80 to 0xBF or at least 0xF0 |
| Utf8Strings.EncodeBmp | source_code/main_mcu/src/utils.c:367-419 | writes the encoding and one zero byte, or nothing if they exceed the limit; other bytes stay |
| Utf8Strings.BmpToUtf8 | source_code/main_mcu/src/utils.c:428-454 | writes the encoding of the string and one zero byte if they fit, else the longest prefix that does; the wrapped length or -1; an empty string writes nothing |
| Utf8Strings.ToInt16Wraps | source_code/main_mcu/src/utils.c:428-446 | the result given back is the one signed 16-bit number that differs from the count by a multiple of 65536 |
| Utf8Strings.DecodeBmp | source_code/main_mcu/src/utils.c:307-358 | the lead-byte mask loop ends on every byte and the result is the specified decoding |
| Utf8Strings.Utf8ToBmp | source_code/main_mcu/src/utils.c:464-504 | for 16-bit lengths of which one is at most 0x7FFF, and memory that holds what is read: the loop ends, and output and result are the specified conversion in all four endings |
| Utf8Strings.ReadsBehindIff | source_code/main_mcu/src/utils.c:464-504 | while the signed count stays in range, a byte behind the length is read if and only if the conversion ends at a sequence that reaches over the length or at an invalid byte right behind it; no point taken ends behind the length |
| Utf8Strings.ReadableWithSpare | source_code/main_mcu/src/utils.c:464-504 | while the signed count stays in range, memory that goes three bytes behind the length holds all that is read |
| Utf8Strings.LengthIsIgnored | source_code/main_mcu/src/utils.c:464-504 | for every length from 32769 on and every output longer than a third of it, three-byte sequences are taken beyond the length until the output is full |
| Utf8Strings.ConvertsEncoding | source_code/main_mcu/src/utils.c:464-504 | converting at the place where an encoded string starts gives that string, and reads nothing behind its zero |
| Utf8Strings.RoundTrip | source_code/main_mcu/src/utils.c:428-504 | encoding a non-empty zero-free string and decoding it returns the string and its length, whatever the memory behind the zero |
| NorFlash.WritesOverErased | source_code/aux_mcu_v2/src/bootloader.c:82-96 | over erased cells the AND of a page write is a copy |
| NorFlash.FilledRow | source_code/aux_mcu_v2/src/bootloader.c:82-96 | erasing a row and filling it is copying a row, each cell programmed once |
| NorFlash.Flash.FlashRow | source_code/aux_mcu_v2/src/bootloader.c:82-96 | erase, then four pages of halfword stores with automatic page writes: the row equals the data, all else unchanged, each halfword programmed once since its erase |
| NorFlash.CopiedTwice | source_code/aux_mcu_v2/src/bootloader.c:77-97 | two adjacent copies are one copy |
| FlashLoaders.ReadsBack | source_code/aux_mcu_v2/src/bootloader.c:94-94 | read byte by byte, a copied range gives back the bytes and every other byte is as it was |
| FirmwareV2.ProcessWrite | source_code/aux_mcu_v2/src/bootloader.c:73-105 | a write command copies its payload to the application's place plus the address; a size that is no multiple of 256 changes nothing and is not answered |
| FirmwareV2.RowLoopEnds | source_code/aux_mcu_v2/src/bootloader.c:77-97 | for a size of whole rows the 16-bit offset reaches it if and only if it is below 65536, and then after as many turns as there are rows |
| FirmwareV2.FlashFirmwareUpdate | source_code/main_mcu/src/LOGIC/logic_aux_mcu.c:257-298 | the main MCU's loop over write commands leaves the file, zero-padded to 512 bytes, at 0x800 and every other byte as it was |
| FirmwareMain.FlashFirmware | source_code/main_mcu/src/bootloader.c:137-158 | the flash from 0x2000 is a copy of the file rounded up to whole rows |
| NvmV1.WritePageWords | source_code/aux_mcu/src/NVM/nvm.c:57-72 | clear buffer, store 16 words, write page: the page is ANDed with the data |
| NvmV1.WriteBuffer | source_code/aux_mcu/src/NVM/nvm.c:39-77 | the error code for bad length or address and nothing changed, else a plain copy |
| NvmV1.CheckIff | source_code/aux_mcu/src/NVM/nvm.c:39-50 | no error if and only if length and address are multiples of 256, and a bad address is reported only with a good length |
| NvmV1.PageLoopEnds | source_code/aux_mcu/src/NVM/nvm.c:41-52 | for a length of whole rows the 16-bit offset reaches it if and only if it is below 65536, and then after as many turns as there are pages |
| NvmV1.PageStep | source_code/aux_mcu/src/NVM/nvm.c:52-73 | one page keeps the loop's invariant: whole rows copied, the begun row erased behind its pages |
| BootloaderV1.StartedOnlyIfFilled | source_code/aux_mcu/src/bootloader.c:187-241 | the application is started only if no programming request was ever accepted or a write brought the length to the image's size |
| BootloaderV1Transfer.LeavesIffTransferred | source_code/aux_mcu/src/bootloader.c:206-222 | on every run, the write that fills the image leads to the state that waits for the last transfer; there nothing changes, whatever is received, until the first turn that finds the transfer done, which goes on to start the application |
| BootloaderV1Transfer.StartedOnlyIfTransferred | source_code/aux_mcu/src/bootloader.c:187-231 | on every run on which a programming request was accepted, the application is started only after a turn in that state that found the transfer done, with no write accepted from that turn on |
| BootloaderV1Transfer.NoApplicationIff | source_code/aux_mcu/src/bootloader.c:33-44 | no application is there if and only if the four bytes at 0x2004 all read 0xFF |
| BootloaderV1Transfer.StartsIffVector | source_code/aux_mcu/src/bootloader.c:33-60 | on every run, the turn that is to start the application does so if and only if one of these bytes is not 0xFF, and else waits again |
| BootloaderV1.FlagsRecord | source_code/aux_mcu/src/bootloader.c:119-149 | the two flags record exactly that a request was accepted and that the image was received, and the modes follow from them |
| BootloaderV1.HoldsWrites | source_code/aux_mcu/src/bootloader.c:119-149 | when every accepted write is 0, 256 or 512 bytes, flash from 0x2000 holds the writes since the last programming command and the address is 0x2000 plus the length |
| BootloaderV1Images.StartsWholeImageIff | source_code/aux_mcu/src/bootloader.c:187-241 | when an application is started after programming with such writes, its whole image is in flash if and only if the last programming command came before any image was complete, or the image fits in one write; after a late command there is exactly one non-empty write |
| BootloaderV1Images.StartsWritten | source_code/aux_mcu/src/bootloader.c:187-241 | a run on which a one-row image with a reset vector is received, is in flash and is started |
| BootloaderV1Images.StartsHalfImage | source_code/aux_mcu/src/bootloader.c:187-241 | a run on which a first image without reset vector is not started, the command for a second image of two rows is late, and that image is started after its first row |
| BootloaderV1Images.HalfImageIsStarted | source_code/aux_mcu/src/bootloader.c:187-241 | such a run exists for every flash with room for a row: a row of 0xFF, then a row of zeros of a two-row image |
| BootloaderV1.ProgrammedIffWholeRows | source_code/aux_mcu/src/bootloader.c:138-149 | on any run, a write reaches flash if and only if its size and the total before it are multiples of 256, and then puts there what memory holds from the message's payload on, however much that is; it is counted in any case |
| BootloaderV1.AddressFollows | source_code/aux_mcu/src/bootloader.c:138-149 | on every run the address is 0x2000 plus the length modulo 2^32 |
| BootloaderV1.StartsUnwritten | source_code/aux_mcu/src/bootloader.c:138-149 | an image shorter than a row, sent in one write of its size, is started with nothing written |
| BootloaderV1.SecondAttemptIsCutShort | source_code/aux_mcu/src/bootloader.c:187-231 | on every run, back in the wait state after an image was received, programming is over again two turns later whatever is received |
| BootloaderV1.WaitsFiveTicks | source_code/aux_mcu/src/bootloader.c:90-104 | without a programming command the fifth 100 ms tick and no earlier one ends the wait |
| BootloaderV1Transfer.WaitsFiveTicksAgain | source_code/aux_mcu/src/bootloader.c:90-104 | on every run without a request, each later wait, after no application was found, is ended by its fifth tick and no earlier one |
| BootloaderV1.Bootloader.BootloaderWrite | source_code/aux_mcu/src/bootloader.c:138-149 | the function on the statics and the flash is the write step, for any size that flash and memory hold |
| BootloaderV1.Bootloader.ProcessMsg | source_code/aux_mcu/src/COMM/comm_bootloader.c:42-62 | a command has the specified effect, writes only in the program state |
| BootloaderV1.Bootloader.constructor | source_code/aux_mcu/src/COMM/comm_bootloader.c:69-97 | with the magic key programming is entered at once, the next-state variable still being the wait state |
| BootloaderV1.Bootloader.MainTurn | source_code/aux_mcu/src/bootloader.c:187-241 | one turn of the main loop is one step of the state machine |
| Timers.RunsForExactly | source_code/aux_mcu_v2/src/TIMER/driver_timer.c:124-217 | a timer started with v > 0 runs for exactly v ticks and is then expired until cleared, whatever happens to other timers |
| Timers.ClearedUntilStarted | source_code/aux_mcu_v2/src/TIMER/driver_timer.c:176-191 | a poll without clearing changes nothing; after one with clearing the timer reads running, whatever happens, until it is started again |
| Timers.ShortcutIsHarmless | source_code/aux_mcu_v2/src/TIMER/driver_timer.c:198-217 | the skip-if-equal shortcut equals an unconditional start if and only if v > 0, or the count is not 0, or the timer is expired |
| Timers.RunStaysGood | source_code/aux_mcu_v2/src/TIMER/driver_timer.c:124-217 | on every run a non-zero count implies the running flag |
| Timers.TimerDriver.MsTick | source_code/aux_mcu_v2/src/TIMER/driver_timer.c:124-140 | the loop over the timer array ticks every timer once |
| Timers.TimerDriver.HasExpired | source_code/aux_mcu_v2/src/TIMER/driver_timer.c:176-191 | reports the flag and clears it when asked, for this timer only |
| Timers.TimerDriver.StartTimer | source_code/aux_mcu_v2/src/TIMER/driver_timer.c:198-217 | starts this timer only, with the shortcut |
| Charger.AlwaysSafe | source_code/aux_mcu_v2/src/LOGIC/logic_battery.c:65-284 | on every run mosfets and step-down are on exactly in the three charging states, the DAC holds the set-point's code, within 0..493, and `LB_ERROR_CUR_REACH` is never entered |
| Charger.RestsUntilStarted | source_code/aux_mcu_v2/src/LOGIC/logic_battery.c:108-279 | idle, error and done states last, all off, until charging is started |
| Charger.NeverRaisedOnHighReading | source_code/aux_mcu_v2/src/LOGIC/logic_battery.c:127-270 | on every run a reading of 3975 or more never raises the output |
| ChargerRegulation.NextState | source_code/aux_mcu_v2/src/LOGIC/logic_battery.c:107-275 | on every run: a current above 100 ends the ramp and one above 375 the reach state, both with set-point and output kept; a low side of 3975 or more where the set-point was to be raised ends in the ramp error from ramp and reach and in the maintain error from maintain; more than 5 below the peak is done; nothing else changes the state |
| ChargerRegulation.RampRises | source_code/aux_mcu_v2/src/LOGIC/logic_battery.c:107-150 | whatever happened before, n readings of at most 100 below 3975 after a start keep the ramp and give the set-point 550 + 10 n, in 16 bits, and the output its code |
| ChargerRegulation.RampNeverFalls | source_code/aux_mcu_v2/src/LOGIC/logic_battery.c:107-150 | up to 6498 such readings the output was never higher before; the 6499th wraps the set-point to 4 and the output to its minimum |
| ChargerRegulation.ReachRises | source_code/aux_mcu_v2/src/LOGIC/logic_battery.c:152-205 | as long as the reach state lasts, every decision raises the set-point by 1 and the output follows |
| ChargerRegulation.MaintainRegulates | source_code/aux_mcu_v2/src/LOGIC/logic_battery.c:207-275 | as long as the maintain state lasts, n decisions raise the set-point by n below a current of 373, lower it by n above 379 and keep it in between; the output follows |
| ChargerRegulation.SetPointFollows | source_code/aux_mcu_v2/src/LOGIC/logic_battery.c:107-275 | on any run without a start on which charging goes on, through whatever states, the set-point is what it was plus the changes called for, in 16 bits |
| Charger.LoweringRaisesIffZero | source_code/aux_mcu_v2/src/LOGIC/logic_battery.c:241-246 | a maintain decision that lowers the set-point raises the output, to its maximum, if and only if the set-point was 0 |
| Charger.SetPointReachesZero | source_code/aux_mcu_v2/src/LOGIC/logic_battery.c:241-246 | a run from power-on on which 550 lowering decisions bring the set-point to 0, with the output at its minimum, and the next one raises it to its maximum |
| Charger.DecisionsAreApart | source_code/aux_mcu_v2/src/LOGIC/logic_battery.c:150-275 | no decision comes less than 5 ms (reach) or 10 ms (maintain) after the one before |
| ChargerRegulation.DecidesAgain | source_code/aux_mcu_v2/src/LOGIC/logic_battery.c:150-275 | the next decision is due exactly at the fifth (reach) or tenth (maintain) tick after the one before |
| Charger.PeakIsTracked | source_code/aux_mcu_v2/src/LOGIC/logic_battery.c:162-219 | in the maintain state the stored peak is the maximum of the entry reading and all decision readings, and the counter counts decisions since it was first reached |
| Charger.DoneExactlyBelowPeak | source_code/aux_mcu_v2/src/LOGIC/logic_battery.c:228-240 | charging is done if and only if a decision reading is more than 5 below that maximum |
| Charger.DacRange | source_code/aux_mcu_v2/src/PLATFORM/platform_io.c:164-184 | the code lies in 0..493 and reaches its ends exactly up to 552 mV and from 1872 mV |
| Charger.DacFalls | source_code/aux_mcu_v2/src/PLATFORM/platform_io.c:164-184 | a higher set-point never lowers the output |
| ChargerRegulation.DacTracks | source_code/aux_mcu_v2/src/PLATFORM/platform_io.c:164-184 | between 550 and 1872 mV differences of the code follow those of the set-point, 191 to 512, within one step |
| Charger.BatteryLogic.StartCharge | source_code/aux_mcu_v2/src/LOGIC/logic_battery.c:65-88 | the function on the globals is the start step |
| Charger.BatteryLogic.RunTask | source_code/aux_mcu_v2/src/LOGIC/logic_battery.c:93-284 | one call with a reading, on the globals and the timer driver, is the measurement step |
| CurrentSense.ReadyPairIsWhole | source_code/aux_mcu_v2/src/PLATFORM/platform_io.c:41-109 | a pair reported ready is the last two conversions, high side first, with no conversion in progress |
| CurrentSense.TriggerGivesPair | source_code/aux_mcu_v2/src/PLATFORM/platform_io.c:41-109 | after any allowed run, a fetch with trigger makes the next two conversions the ready pair |
| CurrentSense.NothingWithoutTrigger | source_code/aux_mcu_v2/src/PLATFORM/platform_io.c:96-109 | after a fetch without trigger nothing is converted and nothing is ready until a fetch with one |
| CurrentSense.Sampler.AdcHandler | source_code/aux_mcu_v2/src/PLATFORM/platform_io.c:41-90 | the interrupt handler on the volatile variables is the conversion step |
| CurrentSense.Sampler.GetResult | source_code/aux_mcu_v2/src/PLATFORM/platform_io.c:96-109 | returns the pair, and starts the next measurement when asked |
| KeyboardLut.GenerateLut | scripts/keyboards/cldr_parser.py:546-619 | the loops over description, keys, intervals and points give the specified file; it raises where the script does, which is exactly when the description is too long, a number cannot be packed, or the dictionary or an entry is empty |
| KeyboardLut.WritableIff | scripts/keyboards/cldr_parser.py:546-612 | the loops over description, interval bounds and interval points meet nothing to raise on if and only if the description has at most 19 characters of 16 bits, there are keys, and each is a 16-bit number with a non-empty entry |
| KeyboardLut.FileBegins | scripts/keyboards/cldr_parser.py:546-555 | the file begins with the description, and the rest of its 20 places is 0 |
| KeyboardLut.BuildIntervals | scripts/keyboards/cldr_parser.py:557-581 | the running start and last key give the specified intervals, unless the bound of one cannot be packed |
| KeyboardLut.PopulateLut | scripts/keyboards/cldr_parser.py:592-612 | the nested loops give the symbols of all points of all intervals, unless they meet an empty entry |
| KeyboardLut.IntervalsDescribeKeys | scripts/keyboards/cldr_parser.py:557-581 | the intervals are sorted, disjoint, more than 20 apart, start at keys with none within 20 before, end at keys with none within 20 behind, and hold every key |
| KeyboardLut.CoveredIff | scripts/keyboards/cldr_parser.py:557-581 | the points covered are exactly the keys and what lies between two keys at most 20 apart |
| KeyboardLut.AgreesIffUsable | source_code/main_mcu/src/FILESYSTEM/custom_fs.c:372-431 | the device finds for every code point the dictionary's symbol, or 0xFFFF (tab and return apart) if absent, when there are at most 15 intervals and none starts at 0xFFFF; and only then, unless an interval starts at a key whose symbol is itself 0xFFFF |
| KeyboardLut.SymbolIsExpected | source_code/main_mcu/src/FILESYSTEM/custom_fs.c:383-426 | the positive half for one code point |
| KeyboardLut.UncoveredSymbols | source_code/main_mcu/src/FILESYSTEM/custom_fs.c:404-420 | points the layout does not cover give 0x2B for tab, 0x28 for return and else 0xFFFF |
| KeyboardLut.ScanHits | source_code/main_mcu/src/FILESYSTEM/custom_fs.c:383-396 | the scan with its 16-bit offset stops at the interval that holds the point, with the table's place for it |
| KeyboardLut.FindSymbol | source_code/main_mcu/src/FILESYSTEM/custom_fs.c:378-426 | the loop over the descriptions computes the specified symbol |
| KeyboardLut.GetKeyboardSymbols | source_code/main_mcu/src/FILESYSTEM/custom_fs.c:375-441 | a symbol for every point, and success if and only if none is 0xFFFF |
| KeyboardLut.ReadsBackIff | scripts/keyboards/cldr_parser.py:600-612 | one-key, dead-key and two-key symbols are told apart if and only if the first of two keys is not code 0 bare or with shift alone |
| KeyboardLut.CodeBytes | scripts/keyboards/cldr_parser.py:600-612 | of two keys the first is the high byte of the symbol; a single key is the low byte, under a high byte of 128 if it is dead and 0 if not |
| KeyboardLut.IsoKeysReadBack | scripts/keyboards/cldr_parser.py:503-521 | so they are for the non-zero codes of the ISO table, which never give 0xFFFF |

## Left out

- EarlyDispatch.RunIsSteady: assumes that interrupts and main-loop steps are atomic as listed in the model, that the message type is read in one step, that the DMA byte count is exact except for 0 just after re-arming, and that at most 20 bytes arrive between sample and critical section; the check and the use of a slot are separate steps.
- EarlyDispatch.DispatchesAreRight: in the state machine the use of a slot is one step, the call of the handler; how the USB handler then reads the slot is the subject of SlotReading.ReadsOneMessageIff. What the handlers do with a message otherwise is not modelled; the BLE handler is empty in the source.
- SlotReading.ReadsOneMessageIff: a fragment is taken in one step, and the length is read when the handler begins; bytes that a completion replaces during a single copy of at most 62 bytes are not modelled.
- EarlyAnswers.PassAnswersIff: passes in which no message completes; the step that decides is covered on every run by EarlyAnswers.DecidesIff.
- UsbReceiverV2.DeliversAfterReset: the packets after the marker are a conforming host's; other streams are the subject of UsbReceiverV2Runs.EveryDelivery.
- UsbReceiverV1.EveryMessageIsWhole: packets announce at most 62 payload bytes; 63, which the 6-bit field allows, reads beyond the packet in the source.
- UsbReceiverV2.UsbComms.CommunicationRoutine: a payload length of 63 copies the byte behind the buffer, which is part of the modelled buffer but arbitrary.
- HidSend.SendToUsb: up to 930 bytes; beyond that the loop does not end or cuts the message off (HidSend.SenderV1Ends).
- HidHost.ReceiveHidMessage: the packets the device has sent are given; waiting and time-outs of the USB library are the end of that sequence.
- HidHostStreams.ReceivesIff: packets that hold the payload they announce; shorter ones are clipped, as in HidHost.ReceiveHidMessage.
- SimpleCryptBytes.DecryptsTo: messages of version 3 with the checksum flag; other versions and flags are in SimpleCrypt.Cryptor.DecryptToBytes.
- SimpleCryptLaws.RoundTrip: zlib is an uninterpreted pair whose second function undoes the first; only checksum mode, because the hash branch of decryption uses an undefined name. The base64 string forms are not modelled.
- Utf8Strings.Utf8ToBmp: not for an input length and an output length both above 0x7FFF, when both of the source's signed 16-bit counters can overflow.
- Utf8Strings.RoundTrip: not for the empty string, for which the encoder writes no terminator.
- FirmwareV2.ProcessWrite: addresses that are multiples of 256, as the main MCU sends them (logic_aux_mcu.c:271-273), which the source does not check, and sizes below 65536, from which on its loop does not end (FirmwareV2.RowLoopEnds). A size above 512 writes what follows the payload in memory.
- NvmV1.WriteBuffer: lengths below 65536, as the 16-bit size of every write command is; from there on the page loop does not end (NvmV1.PageLoopEnds).
- FirmwareV2.FlashFirmwareUpdate: each command is answered before the next is sent; the message exchange itself is not modelled.
- FirmwareMain.FlashFirmware: the external flash must hold whole rows from the file's start; the CRC32 check and the flag handling around the loop are not modelled.
- BootloaderV1.HoldsWrites: a write that passes the driver's checks but leaves the flash or the memory has an arbitrary effect on flash in the model; BootloaderV1.Bootloader does not perform it.
- KeyboardLut.AgreesIffUsable: the "only then" leaves out dictionaries in which an interval starts at a key whose symbol is 0xFFFF, which a point that is not found gives as well.
- Charger.AlwaysSafe: busy waits of 1 ms are not modelled as steps; other users of the timer driver are.
- CurrentSense.ReadyPairIsWhole: results are fetched only when no conversion is in progress, as the battery code does.
- Charger.NeverRaisedOnHighReading: readings are 12-bit averages, as the converter is set up to give.
- KeyboardLut.GenerateLut: starts from the finished dictionary; parsing of layouts and transforms is not modelled, and the file is a sequence of halfwords.
- KeyboardLut.ReadsBackIff: entries of one or two keys; of three or more only the first two are written.
- The echo of the last packet when the host asks for an acknowledgement, and the host's wait for it: one send call.
- Register set-up of clocks, ports, DMA descriptors, USB controller and fuses: writes to hardware without logic.
- BLE, GUI, debug-menu and functional-test code, USB descriptors: plumbing, or calls into code that is not part of this model.
- Copies of the same code (the v3 and v4 bootloaders, the other copies of the Python HID class) are modelled once.
