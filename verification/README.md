# MemType firmware: a verified model

The firmware of a hardware password keeper on an 8-bit AVR: it types stored credentials as a USB
keyboard, keeps them encrypted in its own flash, and talks USB entirely in software. This project
models its hard parts and proves what they promise.

- **Cipher.** `Noekeon.dfy` is NOEKEON on 32-bit words with the proof that its two directions undo
  each other. `NoekeonAvr.dfy` is the register code, in place on 32 bytes of memory, proved to
  compute it. `NoekeonBits.dfy` is a round bit by bit, which both are proved to do, and
  `NoekeonKnown.dfy` a published test vector.
- **Wire.** `Wire.dfy` has NRZI, bit stuffing and a packet's line states (sections 7.1.8 and 7.1.9
  of USB 2.0); `WireReceive.dfy` says what the two receivers make of any line, when they agree, and
  proves the round trips; `Transmitters.dfy` and `Receivers.dfy` are the register code of both
  clock rates; `Loopback.dfy` joins both ends of the cable. One line sample stands for one bit time.
- **CRC.** `Crc.dfy` is the CRC-16 of section 8.3.5.2 of USB 2.0 as a bit-serial register, its
  bytewise and table forms, and the residue; `CrcTables.dfy` is the listed table; `CrcCode.dfy` is
  the slow loop, the fast form, the append and the receive check.
- **Endpoints.** `Transfer.dfy` says how a reply is cut into packets (sections 8.5.3 and 8.6 of USB
  2.0). `Device.dfy` is the device as the host sees it: a machine driven by a log of what happened,
  packets that arrived and actions of the main loop. What it answered, acknowledged and sent are
  functions of the log, and its promises are proved for every log. `Driver.dfy` is the interrupt
  routine and the main loop as one class, proved to be that machine: a log that only grows, with
  every answer the machine's. The interrupt routine is atomic; a schedule gives, for every gap
  between two statements of the main loop, the packets that arrive there, and everything is proved
  for every schedule. `HostView.dfy` and `HostDriver.dfy` say what machine and driver do with tokens
  and requests built from addresses, endpoints and lengths.
- **Store.** `Flash.dfy` is page erase, fill and write and the update of an unaligned range;
  `Ucp.dfy` the host protocol that fills the store; `Session.dfy` whole transfers, against an
  abstract machine and read back.
- **Credentials.** `Selection.dfy` is the ring of records. `Fields.dfy` says what playback types as
  a function of the record; `Playback.dfy` is the decryption by blocks, the print queue and the
  typing state machine.
- **Oscillator.** `Calibration.dfy` is the binary search and the neighbourhood search.

Registers are `bv8`, or `nat` with the wrap-around written out. Ghost fields record histories: the
log of the device, the flash operations, the characters taken, the keys the host saw. A key is what
the report shows: a NUL, which playback queues for a field to skip and for no text, is counted by the
firmware but shows none.

Where a promise has limits, they are exact: the packets the 16.5 MHz receiver can decode
(`RoundTrip165Exactly`) and the lines on which it collects other bits than the 20 MHz one
(`SameBitsExactly`), the longest packet its transmitter can send (`TwelveBytesAtMost`), the calls of
FLS_write that write, do nothing or never return (`FlsWrite`, `Turns`), the reads that never end
(`ReadNeverEnds`, `KeepPolling`), the records playback repeats (`TypesFields`, `LongRecordRepeats`,
`EndsExactly`), the playbacks that a later deletion erases exactly (`PlayThenDelete`, `NoBlankFields`,
and `SkippingCounts` for one it does not), the interrupted playbacks that go on by themselves
(`DeletePlayback`), the rings whose predecessor is not found (`PreviousOfNext`, `PreviousLinks`), the
responses on which calibration hangs or misses (`HangsBelowTarget`, `OscCalStart`), the interrupt that
makes two reports carry the same identifier when they are queued without main's guard
(`QueuedAgain`, `UsbSetInterrupt`), the SET_INTERFACE after which the reports start with the wrong one
(`FirstReport`), and the reports whose copy stays in its buffer (`CopyFits`).

A comment at usbdrv/usbdrv.c:235 says that of an empty report one byte is copied. The counter is a
char, unsigned by the flags at Makefile:22, and is counted down before it is tested, so it is 256
bytes: the model follows the code.

## Model

| member | source | states |
|---|---|---|
| Noekeon.RotationDistances | noekeon.S:217-232 | repeating the rotation by one gives the rotations by 1, 2 and 5 the cipher is defined with |
| Noekeon.ThetaEvenSelfInverse | noekeon.S:329-338 | the first part of theta undoes itself |
| Noekeon.ThetaOddSelfInverse | noekeon.S:361-370 | so does the third |
| Noekeon.AddKeySelfInverse | noekeon.S:344-351 | and the key addition between them |
| Noekeon.ThetaInverts | noekeon.S:328-375 | theta run forwards and its three parts run backwards undo each other under the same key |
| Noekeon.AddConstSelfInverse | noekeon.S:191-196 | adding a round constant twice changes nothing |
| Noekeon.GammaSelfInverse | noekeon.S:273-323 | gamma is an involution |
| Noekeon.PiInverts | noekeon.S:217-265 | the two sets of rotations undo each other |
| Noekeon.NonLinearSelfInverse | noekeon.S:217-267 | rotations, gamma and rotations back together, whose table of four bits is `NoekeonBits.NonLinearSubstitutes`, are an involution |
| Noekeon.ConstUpdatesInverse | noekeon.S:101-138 | the 0x1B and the 0x8D updates of the round constant undo each other |
| Noekeon.LastConst | noekeon.S:128-129 | sixteen forward updates lead from 0x80 to 0xD4 |
| Noekeon.ConstBackwards | noekeon.S:128-146 | the decryption constants are the encryption constants in reverse order |
| Noekeon.LinearInverse | noekeon.S:202-212 | the linear layers of the two round functions undo each other for the same constant |
| Noekeon.RoundUndone | noekeon.S:202-267 | one decryption round takes back one encryption round, and the other way round |
| Noekeon.DecryptRetraces | noekeon.S:125-146 | after i rounds decryption stands where encryption stood after 16 - i, for every i |
| Noekeon.DecryptAfterEncrypt | noekeon.S:92-146 | decrypting an encrypted block gives it back, for every key and block |
| Noekeon.EncryptRetraces | noekeon.S:92-113 | the same retracing the other way round |
| Noekeon.EncryptAfterDecrypt | noekeon.S:92-146 | encrypting a decrypted block gives it back |
| NoekeonBits.ThetaFlows | noekeon.S:328-375 | bit by bit: in either half of theta every bit of two words takes up the sum of the other two words' bits at its own place and eight places up and down |
| NoekeonBits.NonLinearSubstitutes | noekeon.S:217-267 | everywhere bit i of word 0, bit i - 1 of word 1, bit i - 5 of word 2 and bit i - 2 of word 3 leave as the entry of a table of sixteen that the four select |
| NoekeonKnown.KnownAnswer | noekeon.S:92-113 | the published test vector of direct mode, plain text, key and cipher text as numbers |
| NoekeonKnown.EncryptKnown | noekeon.S:92-113 | the register code, run on its bytes in memory, leaves the published bytes |
| NoekeonKnown.DecryptKnown | noekeon.S:125-146 | and takes them back |
| NoekeonAvr.WordLeftOne | noekeon.S:157-162 | a carry chain through four registers is a 32-bit rotation left by one |
| NoekeonAvr.WordRightOne | noekeon.S:175-180 | the mirrored chain is a rotation right by one |
| NoekeonAvr.ShiftLeft | noekeon.S:154-165 | the loop rotates the word at X by its count plus one, touches nothing else, and leaves X behind the word |
| NoekeonAvr.ShiftRight | noekeon.S:172-186 | the same to the right |
| NoekeonAvr.ShiftPi1 | noekeon.S:217-232 | words 1, 2 and 3 rotate by 1, 5 and 2, word 0 and the key stay |
| NoekeonAvr.ShiftPi2 | noekeon.S:250-267 | and back |
| NoekeonAvr.GammaColumns | noekeon.S:237-245 | gamma done byte by byte in four columns is gamma on words |
| NoekeonAvr.GammaNonLinearByte | noekeon.S:313-323 | one non-linear step on four registers |
| NoekeonAvr.GammaByte | noekeon.S:273-311 | one column is replaced, every other byte kept, X on the next column |
| NoekeonAvr.GammaInPlace | noekeon.S:237-245 | four columns make gamma, key untouched |
| NoekeonAvr.ParityRotates | noekeon.S:377-402 | the parity of four bytes does not depend on where one starts |
| NoekeonAvr.MixByParity | noekeon.S:404-430 | parity xor the byte two places on is byte i of t ^ (t >>> 8) ^ (t <<< 8), for every word |
| NoekeonAvr.ThetaLoad | noekeon.S:393-402 | folds four bytes into the running parity |
| NoekeonAvr.ThetaApplyXor | noekeon.S:404-430 | one mixed byte goes into two target words, the pointers move on |
| NoekeonAvr.ThetaApply | noekeon.S:377-391 | both target words receive the whole mixed word |
| NoekeonAvr.ThetaPart2 | noekeon.S:344-351 | the counted-down loop adds all sixteen key bytes |
| NoekeonAvr.ThetaInPlace | noekeon.S:328-375 | the shared chain of three parts is theta or its inverse as bit 7 of the round counter says, and stops |
| NoekeonAvr.RoundConstAdd | noekeon.S:191-196 | only the low byte of word 0 changes |
| NoekeonAvr.WordBits | noekeon.S:157-162 | the bits of a word are those of its four bytes, low byte first |
| NoekeonAvr.EncryptionRoundBits | noekeon.S:202-267 | an encryption round as a relation between the bits in memory before and after, its linear mixing and its table written out, with no word operation in it |
| NoekeonAvr.DecryptionRoundBits | noekeon.S:202-267 | a decryption round so |
| NoekeonAvr.RoundEncrypt | noekeon.S:202-267 | one round of the word cipher, key unchanged; bit by bit, the mixed bits through the table, four by four |
| NoekeonAvr.RoundDecrypt | noekeon.S:202-267 | one round of the inverse, key unchanged; bit by bit the same |
| NoekeonAvr.NextConstByCarry | noekeon.S:101-138 | shift and conditional xor are the two constant updates |
| NoekeonAvr.EncryptInPlace | noekeon.S:92-113 | memory ends up holding the word cipher's result; the loop runs sixteen rounds; the key bytes stay |
| NoekeonAvr.DecryptInPlace | noekeon.S:125-146 | the same for decryption |
| NoekeonAvr.EncryptThenDecrypt | noekeon.S:92-146 | run one after the other, all 32 bytes are as before |
| NoekeonAvr.DecryptThenEncrypt | noekeon.S:92-146 | also in the other order |
| Wire.SendAllIsNrzi | usbdrv/usbdrvasm20.inc:303-331 | sending bit by bit, with a history of ones, gives the NRZI levels of the stuffed bits |
| Wire.WalkReadsBack | usbdrv/usbdrvasm20.inc:203-226 | reading those levels bit by bit gives the unstuffed bits, for every line, level and history |
| WireReceive.Run20Framed | usbdrv/usbdrvasm20.inc:134-226 | on a line that ends on a byte boundary, all data bits are delivered, or overflow is reported above eleven bytes |
| WireReceive.Run165Framed | usbdrv/usbdrvasm165.inc:269-330 | the same for the receiver that looks at one line only |
| WireReceive.MinusRefinesCounting | usbdrv/usbdrvasm165.inc:108-120 | the receiver with mask windows decodes every framed line as the counting one does, unless the first byte starts with five ones |
| WireReceive.SameBitsExactly | usbdrv/usbdrvasm165.inc:103-120 | on any line of data states the two receivers collect the same bits all along, at every alignment, if and only if it does not start with five ones |
| WireReceive.RoundTrip20 | usbdrv/usbdrvasm20.inc:112-226 | every packet's line states decode to exactly its bytes, up to eleven; more overflow |
| WireReceive.PidHasClearLowBit | usbdrv/usbdrvasm165.inc:108-120 | no packet identifier starts with five ones |
| WireReceive.RoundTrip165 | usbdrv/usbdrvasm165.inc:139-330 | the same round trip for packets whose first byte does not |
| WireReceive.RoundTrip165Exactly | usbdrv/usbdrvasm165.inc:108-120 | a packet survives exactly when its first byte does not start with five ones or only zeros follow them |
| Transmitters.SendBit | usbdrv/usbdrvasm20.inc:305-316 | one bit and its stuff bit go out as the standard wants them, whatever the registers held |
| Transmitters.SendBit7 | usbdrv/usbdrvasm20.inc:320-328 | so does bit 7, whose stuff bit is a second pass over the output code |
| Transmitters.BitCntShift | usbdrv/usbdrvasm20.inc:304-318 | the counter pattern 0x49 ends the inner loop on the seventh bit |
| Transmitters.Transmit20 | usbdrv/usbdrvasm20.inc:294-357 | the bytes appear on the line with sync, stuffing (also before end of packet) and end of packet, for any earlier register contents |
| Transmitters.TwelveBytesAtMost | usbdrv/usbdrvasm165.inc:399-412 | the counter that starts at 0xff, loses 37 a bit and is never reset gives seven bits for every byte if and only if there are at most twelve |
| Transmitters.SendByte165 | usbdrv/usbdrvasm165.inc:400-423 | one byte at 16.5 MHz, the counter three lower afterwards |
| Transmitters.Transmit165 | usbdrv/usbdrvasm165.inc:390-450 | the same line states as at 20 MHz for up to twelve bytes |
| Receivers.Receive20 | usbdrv/usbdrvasm20.inc:109-226 | the register loop stores the bytes the ones-counting receiver decodes on any line, counts them, reports overflow, and writes nothing outside its eleven bytes |
| Receivers.EscapeMeansRun | usbdrv/usbdrvasm165.inc:281-329 | zero under a mask, below 2, below 4: each test recognises six ones, across byte borders |
| Receivers.MarkBit | usbdrv/usbdrvasm165.inc:174-265 | setting the bit again keeps later windows from seeing the same run |
| Receivers.RecoveredByte | usbdrv/usbdrvasm165.inc:269-272 | the final xor turns inverted and re-set bits into the data byte |
| Receivers.ReceiveBit165 | usbdrv/usbdrvasm165.inc:139-330 | one stage follows the abstract receiver and skips a stuff bit when it must |
| Receivers.Receive165 | usbdrv/usbdrvasm165.inc:103-330 | the mask-window receiver stores the bytes its abstract form decodes on any line |
| Loopback.Loopback20 | usbdrv/usbdrvasm20.inc:109-357 | register code at both ends: what is sent is stored, byte for byte, exactly when it fits |
| Loopback.Loopback165 | usbdrv/usbdrvasm165.inc:103-450 | the same at 16.5 MHz for packets that start with an identifier |
| Crc.UpdateIsSerial | usbdrv/usbdrvasm.S:150-167 | eight shifts of the register with a byte added are eight steps of the bit-serial CRC |
| Crc.UpdateBytes | usbdrv/usbdrvasm18-crc.inc:626-634 | the same step by table entries on the two halves of the register |
| Crc.Residue | usbdrv/usbdrvasm18-crc.inc:98-110 | two bytes bring the register to 0xB001 if and only if they are the payload's CRC |
| CrcTables.Listing | usbdrv/usbdrvasm18-crc.inc:637-707 | all 512 listed bytes are the parity formula |
| CrcCode.SlowByte | usbdrv/usbdrvasm.S:244-253 | the bit loop on the complemented register runs exactly eight times |
| CrcCode.UsbCrc16 | usbdrv/usbdrvasm.S:232-258 | the slow form returns the reference CRC of exactly len bytes |
| CrcCode.FastByte | usbdrv/usbdrvasm.S:184-210 | swap, shifts and parity are one table step |
| CrcCode.UsbCrc16Fast | usbdrv/usbdrvasm.S:177-216 | the fast form returns the reference CRC too, so the two agree |
| CrcCode.UsbCrc16Append | usbdrv/usbdrvasm.S:264-268 | its two bytes follow the payload, nothing else changes |
| CrcCode.StartsPreset | usbdrv/usbdrvasm18-crc.inc:44-53 | 0xFE54 looks up to the preset register one byte early |
| CrcCode.PendingStep | usbdrv/usbdrvasm18-crc.inc:506-549 | the register that runs one byte late keeps step with the reference |
| CrcCode.CrcAccepts | usbdrv/usbdrvasm18-crc.inc:98-110 | a packet is accepted if and only if it ends with the CRC of what precedes |
| CrcCode.AppendThenCheck | usbdrv/usbdrvasm.S:263-268 | whatever the sender appends, the table-driven receiver accepts |
| Transfer.BlocksCarry | usbdrv/usbdrv.c:525-547 | a reply's packets concatenate to the reply |
| Transfer.BlockSizes | usbdrv/usbdrv.c:525-547 | all carry eight bytes but the last, which carries fewer, possibly none |
| Transfer.BlocksAlternate | usbdrv/usbdrv.c:533 | their identifiers alternate |
| Transfer.Fragmentation | usbdrv/usbdrv.c:525-547 | complete packets, the reply in order, one short packet at the end, identifiers alternating from DATA1 |
| Transfer.BlockIs | usbdrv/usbdrv.c:525-547 | packet i of a reply has the other identifier than packet i - 1 and bytes 8i to 8i + 7, or as many as there are |
| Device.PromiseCarriesReply | usbdrv/usbdrv.c:421-469 | what a SETUP asks for is its reply cut at wLength, at most 254 bytes, fragmented so; `HostView.ReplyLimited` has it for any number the host asks for |
| Device.ExactlyOnce | usbdrv/asmcommon.inc:104-127 | for every log: the messages whose packets the host saw acknowledged are those processed, once, in order and unaltered, but for the one that may wait |
| Device.SendsCompletePackets | usbdrv/usbdrv.c:525-547 | every data packet ever sent, on either endpoint, is an identifier, at most eight bytes and their CRC |
| Device.OutgoingKept | usbdrv/usbdrv.c:421-547 | what endpoint 0 has sent since the last SETUP, what waits there and what is still to build remain one list until something new is asked for |
| Device.ControlReply | usbdrv/usbdrv.c:438-547 | after a SETUP, until something new is asked for, the packets on endpoint 0 are a prefix of those its request promises, and all of them once nothing waits or is left to build |
| Device.StatusStage | usbdrv/usbdrv.c:470-482 | a control-out transfer the application takes is answered with exactly one empty packet, DATA1, after its last packet and not before |
| Device.StallStage | usbdrv/usbdrv.c:474-477 | after an error of the application endpoint 0 answers 0x1E until the next request |
| Device.AddressIsAssigned | usbdrv/usbdrv.c:388-389 | the address in force is zero or, doubled, one that a processed SET_ADDRESS carried |
| Device.AddressSwitches | usbdrv/usbdrvasm165.inc:424-435 | without a reset or another SET_ADDRESS the address stays exactly until a data packet goes out, on either endpoint, and is then the one asked for last |
| Device.AddressStays | usbdrv/usbdrv.c:594-602 | without a data packet only a reset changes it |
| Device.ReportsAlternate | usbdrv/usbdrv.c:219-247 | while every report is queued in a free slot, the identifiers the host sees on endpoint 1 alternate |
| Device.QueuedAgain | usbdrv/usbdrv.c:228-232 | a report queued while another waits keeps them alternating if and only if that one has not gone out by the time it is withdrawn |
| Device.FirstReport | usbdrv/usbdrv.c:403-405 | after SET_INTERFACE the first report carries DATA0 if and only if none waited |
| Device.RoundProcesses | usbdrv/usbdrv.c:573-588 | what was acknowledged before a round of the main loop is processed after it |
| Device.RunKeeps | main.c:147-158 | over any rounds and arrivals reports go on alternating, and the address changes only with a data packet or a reset |
| HostView.InToken | usbdrv/asmcommon.inc:64-175 | an IN token with seven bits of address, four of endpoint and five of CRC: another address gets silence; ours gets NAK while a message is unprocessed, otherwise slot 1 if and only if the endpoint is not 0 |
| HostView.TokenThenData | usbdrv/asmcommon.inc:64-127 | a SETUP or OUT token so given and the data packet behind it: ours is acknowledged and kept with token and payload if the buffer is free, and refused if not; another address gets silence and is forgotten |
| HostView.RequestMeans | usbdrv/usbdrv.c:445-466 | direction, type, recipient and wLength in the bytes of a request built from them |
| HostView.BytesAre | usbdrv/usbdrv.c:491-517 | a reply that lies in memory is the bytes there, in order |
| HostView.BlocksCarryAll | usbdrv/usbdrv.c:525-547 | n bytes take n / 8 + 1 packets, 0x4B and 0xC3 in turns, eight bytes each and the rest in the last |
| HostView.ReplyLimited | usbdrv/usbdrv.c:438-469 | a host that asks for n bytes of a descriptor or an application's reply of len is promised exactly the first min(len, n), n low byte first |
| HostView.PromisedBytes | usbdrv/usbdrv.c:438-469 | packet by packet: which identifier and which bytes of memory |
| HostView.TakenOver | usbdrv/usbdrv.c:452-462 | a request the application takes over: nothing yet if it is to the device; to the host as many bytes as the low byte of wLength says, unless that is 255 |
| HostView.StandardAnswers | usbdrv/usbdrv.c:369-409 | GET_STATUS returns two zero bytes, GET_CONFIGURATION the configuration, GET_INTERFACE a zero byte, each cut at wLength; all other requests but GET_DESCRIPTOR an empty packet |
| HostView.ConfigurationReported | usbdrv/usbdrv.c:394-398 | over any run GET_CONFIGURATION returns the byte that the last SET_CONFIGURATION before it carried |
| HostView.AddressInForce | usbdrv/usbdrv.c:388-389 | after SET_ADDRESS a, without a reset or another one, the old address is in force until the first data packet goes out, and a from then on |
| HostView.FirstAfterInterface | usbdrv/usbdrv.c:403-404 | after SET_INTERFACE, request code 11, the first report starts with 0xC3 if and only if none waited |
| HostView.ReportsDelivered | usbdrv/usbdrv.c:219-247 | while every report is queued in a free slot: what endpoint 1 has sent or holds grows by packets with exactly the payloads queued, in order and once each |
| Driver.Usb.Receive | usbdrv/asmcommon.inc:54-63 | a packet only ever lands in the half the main loop does not read |
| Driver.Usb.HandleData | usbdrv/asmcommon.inc:104-127 | a data packet is ignored, refused, or acknowledged; acknowledged with a payload, it is kept unaltered, as the machine has it |
| Driver.Usb.HandleIn | usbdrv/asmcommon.inc:129-175 | an IN is refused while a received packet waits; otherwise it gets the slot's handshake or its packet, which is the machine's answer; which endpoint that is, `HostDriver.PollEndpoint` says |
| Driver.Usb.HandleToken | usbdrv/asmcommon.inc:64-98 | a token for somebody else makes the next data packet be ignored; which one that is, `HostDriver.PollEndpoint` and `SendData` say |
| Driver.Usb.Interrupt | usbdrv/asmcommon.inc:42-175 | any packet of any length is answered as the machine answers it, registers and buffers become what the machine becomes, and nothing the main loop owns changes |
| Driver.Usb.Interrupts | usbdrv/asmcommon.inc:42-175 | so are all packets of a gap, each once and in order |
| Driver.Usb.SendEndpoint0 | usbdrv/usbdrvasm165.inc:424-435 | with a data packet, and only then, the pending address takes effect, doubled |
| Driver.Usb.UsbDeviceRead | usbdrv/usbdrv.c:491-517 | a block is copied byte by byte, with interrupts between the bytes, from memory or from the bytes staged at usbTxBuf+9 |
| Driver.Usb.UsbBuildTxBlock | usbdrv/usbdrv.c:525-547 | exactly the next promised packet reaches the slot, complete before its length is written; the promise is shorter by it |
| Driver.Usb.AbortPending | usbdrv/usbdrv.c:442-443 | a SETUP withdraws a pending packet, which cannot go out between the two stores |
| Driver.Usb.UsbDriverSetup | usbdrv/usbdrv.c:360-411 | the standard requests answer what the standard wants; SET_ADDRESS only notes the address |
| Driver.Usb.LimitReply | usbdrv/usbdrv.c:451-469 | the reply is cut at byte 6 plus 256 times byte 7, except for one the application takes over |
| Driver.Usb.ProcessSetup | usbdrv/usbdrv.c:438-469 | afterwards slots, address to take, identifiers and the packets to build are those of the machine that has taken the request |
| Driver.Usb.ProcessOut | usbdrv/usbdrv.c:470-482 | so after a control-out packet, which stalls, asks for an empty packet, or changes nothing |
| Driver.Usb.UsbProcessRx | usbdrv/usbdrv.c:421-484 | it sees the held message, unaltered, with interrupts in between, and does what the machine does with it |
| Driver.Usb.PollReceive | usbdrv/usbdrv.c:573-588 | a held message is processed once and the buffer freed only afterwards |
| Driver.Usb.PollTransmit | usbdrv/usbdrv.c:589-593 | a packet is built exactly if one is left to build and the slot is free |
| Driver.Usb.PollReset | usbdrv/usbdrv.c:594-602 | a reset forgets both addresses |
| Driver.Usb.UsbPoll | usbdrv/usbdrv.c:568-606 | all that usbPoll adds to the log, in order: a held message processed and freed, a packet built if one can be, the addresses cleared on a reset; in the end registers and buffers are the machine's |
| Driver.CopyFits | usbdrv/usbdrv.c:222-237 | the copy of a report stays in its buffer if and only if it has one to ten bytes |
| Driver.Usb.CopyReport | usbdrv/usbdrv.c:233-237 | the do-while loop with its eight-bit counter, interrupts between the bytes, copies as many bytes as the counter takes steps |
| Driver.Usb.UsbSetInterrupt | usbdrv/usbdrv.c:219-247 | with a free slot at the start the report is the next packet, with the other identifier; otherwise it replaces the one that waits; identifiers stay alternating exactly when no interrupt empties the slot between test and claim |
| Driver.Usb.MainRound | main.c:147-158 | one round, with main's guard, adds to the log exactly what a round of the machine adds |
| Driver.Usb.MainLoop | main.c:147-158 | over every run and schedule the log grows by rounds of the machine and registers agree with it; so messages are processed once, in order and unaltered, all that were acknowledged before the last round; every packet on the bus is complete; the address is a doubled assigned one or zero and changes only with a data packet or a reset; reports go on alternating |
| Driver.Usb.AnswerSetup | main.c:147-158 | from a SETUP in the receive buffer, over any rounds and schedule, the packets sent on endpoint 0 are a prefix of what it asks for, all of it when usbMsgLen says so and the slot is empty, until something new is asked for |
| HostDriver.PollEndpoint | usbdrv/asmcommon.inc:64-175 | the interrupt routine's answer to an IN token built from address and endpoint: silence for another address; ours gets NAK with the receive buffer full, otherwise the packet or handshake of usbTxLen1 if and only if the endpoint is not 0, else of usbTxLen |
| HostDriver.SendData | usbdrv/asmcommon.inc:64-127 | a token so built and its data packet: acknowledged and held with this token and payload, or refused, or ignored |
| HostDriver.AnswerRead | usbdrv/usbdrv.c:438-547 | over any rounds and schedule, packet i that goes out on endpoint 0 is the i-th with bytes 8i to 8i + 7 of the memory the reply lies in, and there are as many as carry the first min(len, n), n being what the host asks for |
| Flash.SpliceExactly | fls.c:40-76 | a range replaced: its bytes are the new ones, every other is as before, and that is only one memory |
| Flash.PagesAreTouched | fls.c:51-54 | every page of a range is listed |
| Flash.PagesInOrder | fls.c:51-75 | in ascending order, so once |
| Flash.Memory.LoadPage | fls.c:28-38 | words filled little-endian leave the bytes in the page buffer |
| Flash.Memory.Merge | fls.c:66-69 | the new bytes replace their part of the page |
| Flash.Memory.UpdatePage | fls.c:63-72 | erase, merge and program change only that part of the flash |
| Flash.Memory.Bounds | fls.c:53-61 | the eight-bit bounds of any turn and where the next one starts; of a call that returns they are the range's part of the page, unless the sum wraps |
| Flash.Memory.FlsWrite | fls.c:40-76 | the range is written and nothing else changes, each touched page erased once before it is written, if the end on the first page does not wrap; if it wraps, the flash stays as it was |
| Flash.NeverReturns | fls.c:50-76 | above 255 bytes and without the wrap the loop variable stops at the size's low byte, below the size |
| Flash.Memory.Turns | fls.c:50-76 | the loop's turns, any number of them, lead there: it goes on for ever |
| Ucp.Protocol.StagedFits | ucp.c:227-231 | what UCP_WriteTask flushes never wraps, wherever the store lies |
| Ucp.Protocol.Flush | ucp.c:229-231 | the staged bytes go to the flash behind those flushed before |
| Ucp.Protocol.StageByte | ucp.c:223-240 | a byte is staged, and flushed at the end of a page and of the transfer |
| Ucp.Protocol.UcpWriteTask | ucp.c:216-245 | a polled packet is taken, as much of it as is wanted; flash holds the flushed prefix, tempBuff the rest, and nothing else has changed |
| Ucp.Protocol.StartWrite | ucp.c:171-179 | a WRITE begins with nothing staged, at byte 1 plus 256 times byte 2, for byte 3 plus 256 times byte 4 |
| Ucp.Protocol.DecodeWriting | ucp.c:113-127 | a packet while one is pending, or when nothing more is wanted, ends the transfer without being written |
| Ucp.Protocol.DecodeEeprom | ucp.c:128-151 | a packet for the PIN or keyboard table is taken while bytes are wanted; the last one ends the command or drops the wish to lock; a further one is an error |
| Ucp.Protocol.Command | ucp.c:152-212 | a transfer begins from the idle state only, with its numbers low byte first; other states answer a protocol error; the other commands change no more than the answer |
| Ucp.Protocol.UcpDecode | ucp.c:99-213 | what every packet does in every state and how it is answered; the flash is never touched |
| Ucp.Protocol.PollReading | ucp.c:60-83 | a poll delivers the next eight bytes, by sixteen-bit addresses, and ends at the range's end |
| Ucp.Protocol.UcpTask | ucp.c:49-96 | a poll turns an accepted packet into a pending write, once |
| Session.Handle | ucp.c:99-127 | one packet, poll or turn of the main loop does what the abstract upload does |
| Session.Write | ucp.c:171-245 | for a WRITE of any number of bytes at any offset and any interleaving of events after it, state and every byte of the flash are those of the abstract upload; only the range from base plus offset on changes; complete, it holds the bytes taken |
| Session.CompleteHasAll | ucp.c:233-240 | an upload is complete only with all its bytes |
| Session.ReadNeverEnds | ucp.c:61-76 | a READ whose last packet does not end inside sixteen bits stays below its end for ever |
| Session.KeepPolling | ucp.c:57-84 | so the interpreter, polled any number of times, is still reading, at the offset the polls lead to |
| Session.Read | ucp.c:57-84 | otherwise, polled to idle, it answers with the command and then, eight bytes at a time, the bytes from base plus offset on, as many as asked for; with an error for none |
| Session.ChunksCarry | ucp.c:60-76 | those answers, joined, begin with the range's bytes |
| Session.WriteThenRead | ucp.c:159-245 | a completed WRITE anywhere in flash, read back with the same two numbers, returns the bytes it took, echo first; they are in the flash at base plus offset, and the rest of it is as before |
| Session.StraightUpload | ucp.c:113-245 | a host that polls for each packet and waits for it to be programmed ends with a complete upload of exactly its packets' bytes |
| Session.UploadThenRead | ucp.c:159-245 | so those bytes are in the flash at base plus offset, nothing else of it has changed, and reading returns them |
| Selection.NulFound | crd.c:160-171 | the search for the end of a name ends when the memory holds a NUL anywhere |
| Selection.RecordMeans | crd.c:149-157 | a name, a NUL and a link at an offset: the name ends there and the next record is the link, low byte first |
| Selection.RingIsPeriod | crd.c:128-146 | records that lie in the store, each linked to the next one and the last to the first, are a ring of as many links, and the predecessor of each is the record before |
| Selection.OnePredecessor | crd.c:128-140 | on a ring, one record only links to c |
| Selection.PreviousLinks | crd.c:128-140 | the record selected links to c, unless c is alone on a ring away from offset 0 |
| Selection.RingWithZero | crd.c:128-140 | a ring through offset 0 is never such a one |
| Selection.PreviousOfNext | crd.c:128-146 | going back from the next record leads to c with the same exception, and to offset 0 in it |
| Selection.Selector.CrdFindEos | crd.c:160-171 | the address behind the next NUL |
| Selection.Selector.CrdLoadCredential | crd.c:149-157 | name, link and fields of the record at an offset |
| Selection.Selector.LoadRecord | crd.c:149-157 | a record whose bytes the store holds: name at base plus offset, next the number its link bytes hold, fields three bytes behind the name |
| Selection.Selector.CrdNext | crd.c:142-146 | one link forward |
| Selection.Selector.CrdPrevious | crd.c:128-140 | the walk ends and selects the predecessor, for every ring |
| Selection.Selector.NextRecord | crd.c:142-146 | on a ring of records in the store, from record i to record i + 1 |
| Selection.Selector.PreviousRecord | crd.c:128-140 | and to record i - 1 |
| Selection.Selector.NextThenPrevious | crd.c:128-146 | on a ring through offset 0, next then previous is where one was |
| Selection.Selector.PreviousThenNext | crd.c:128-146 | and previous then next |
| Fields.TypesText | crd.c:80-112 | one call of CRD_apply moves over one stretch of text, and the NUL behind it, without leaving its block |
| Fields.TypesFields | crd.c:75-122 | while fields 0 to b - 1 with their NULs take at most 256 bytes, fields a to b - 1 are typed exactly |
| Fields.LongRecordRepeats | crd.c:108-112 | beyond that the end is not reached before the record repeats from its start |
| Fields.EndsExactly | crd.c:76-78 | playback ends if and only if no field is wanted or the first 256 bytes hold a NUL |
| Fields.BlanksText | crd.c:92-112 | one call of CRD_apply queues a NUL exactly if it has no text to type: a field to skip, or nothing before the next NUL |
| Fields.NoBlankFields | crd.c:75-122 | no NUL is queued if and only if playback starts with the first field, every field has a character, and none ends at the end of a block |
| Playback.RecordIsText | crd.c:86-90 | a text stored encrypted is the record playback sees |
| Playback.StoredEncrypted | crd.c:86-90 | sixteen encrypted blocks one behind the other in the store are such a text |
| Playback.SearchStep | print.c:62-83 | a string takes the first free slot from the current one on, or is lost |
| Playback.Typist.Print | print.c:62-83 | the queue after print |
| Playback.Typist.LoadBlock | crd.c:86-90 | the plain buffer holds the decrypted block, the key is kept |
| Playback.Typist.CrdFind | crd.c:174-185 | the length of the text up to a NUL or the block's end |
| Playback.Typist.CrdApply | crd.c:75-113 | the next stretch is queued and position and counter move past it; past the last field nothing happens |
| Playback.Typist.CrdPrintDetail | crd.c:116-122 | playback starts with the first stretch of the record |
| Playback.Typist.NextStretch | print.c:136-145 | a used-up stretch is followed by the next one, or playback is finished |
| Playback.NoKey | print.c:40-54 | of all entries of the key table only 0 makes a report that shows no key |
| Playback.StrikesExactly | print.c:40-54 | the report made of an entry is the one with left shift down exactly for bit 7, right alt exactly for bit 6, no other modifier, and the low six bits as the key, 0x3A alone replaced by 0x64 |
| Playback.ShownStrikes | print.c:40-54 | of characters pressed the host sees, in order, one such report for each that has a key |
| Playback.PlainKeys | print.c:146-163 | which is every one when all have a key and none asks for a pause |
| Playback.Typist.PressKey | print.c:40-54 | those bits of the report, one by one |
| Playback.Typist.TypeChar | print.c:146-163 | a character leaves the waiting text, as a report with the bits its table entry asks for, or as a pause |
| Playback.Typist.TickDelete | print.c:179-196 | a backspace for each key counted, then an unfinished string is given up |
| Playback.Typist.PrintUpdate | print.c:97-202 | every tick of playback keeps the characters taken and waiting those wanted and a NUL for each blank stretch, and makes progress; what a tick does while deleting, or at a free slot |
| Playback.Typist.Tick | main.c:152-157 | the host sees a key when the report changes to it; so it sees exactly those pressed that have one, also repeated, because a release lies between two presses; and what it sees has the bits of the key pressed last |
| Playback.Typist.Play | print.c:97-202 | from a quiet keyboard the ticks end and it is quiet again; the host saw the backspaces owed and then the keys of exactly the wanted fields' characters, in order, each report with the bits of its character's table entry; cCount has these and a NUL for each stretch skipped or empty |
| Playback.Typist.PlayFields | crd.c:75-122 | the same down to the store: report by report, the keys of encrypted fields of at most 256 bytes |
| Playback.Typist.PlayThenDelete | print.c:179-206 | fields typed and then deleted: as many backspaces as keys the host saw if and only if the NULs counted are a multiple of 256; below 256 bytes exactly if no field is skipped, empty, or ends with its block |
| Playback.SkippingCounts | opt.c:97-101 | a password behind two fields: two NULs are counted, two backspaces too many |
| Playback.Typist.DeletePlayback | print.c:136-196 | a deletion in the middle of a playback erases what was counted and gives the string up, but the record goes on with its next stretch if and only if the last wanted field has not been reached |
| Calibration.BinarySearch | osccal.c:21-34 | ends on the last setting below the target, or 0, with the last measurement there or just above |
| Calibration.Neighbourhood | osccal.c:37-48 | the best of three, or the middle one when none beats the raw measurement; skipped at 0 |
| Calibration.HangsBelowTarget | osccal.c:39 | the loop's guard holds of every eight-bit value exactly when setting 254 is below the target |
| Calibration.OscCalStart | osccal.c:20-49 | for every non-decreasing response that reaches the target at 254, the result has the least deviation of all 256 settings if and only if the response does not miss |
| Calibration.UsualResponse | osccal.c:20-49 | with setting 1 below the target and every later one above half of it, it does not |
| Calibration.MissPossible | osccal.c:38-46 | a response that does |

## Left out

- Cycle counts, sampling phase, PLL and leap cycles, the search for the sync pattern, port
  directions and the register stack: one sample per bit, from the end of the sync byte on.
- The other clock variants of the line code and the rest of the 18 MHz receiver: the same properties
  on more code.
- WireReceive.MinusRefinesCounting: for lines that end on a byte boundary; the two receivers look for
  the end of packet at different bits, so a broken line may mean different things to them, though they
  collect the same bits (`SameBitsExactly`).
- Lost and corrupted packets, and duplicates: the driver assumes error-free communication.
- Driver.Usb.MainLoop: bytes outside the driver that usbMsgPtr points to stay the same while a reply
  goes out; which descriptor or application bytes those are is a parameter, as are the answers of
  usbFunctionSetup and usbFunctionWrite.
- The build options for a third endpoint, HALT, flow control, long transfers, usbFunctionRead and
  usbFunctionWriteOut, and the hooks: all off in usbconfig.h but the reset hook, which starts the
  calibration.
- Driver.Usb.UsbSetInterrupt: for one to eight bytes, as main's reports have; for none the copy leaves
  the buffer (`CopyFits`), and more do not fit with their CRC.
- Flash.Memory.FlsWrite: for a range that ends inside the memory; a longer one would come round and
  overwrite itself. Returns is required because the loop never ends without it.
- Session.Write: for a transfer that ends inside the memory, with packets of eight bytes and no lock
  or unlock event. Packets of other sizes are in `Ucp.Protocol.UcpDecode`.
- Ucp.Protocol.DecodeEeprom: the store to the EEPROM is not modelled, nor are reads of RAM and
  EEPROM, whose bytes are a parameter; CRD_Init at the end of a WRITE is not called.
- Selection.Selector.CrdPrevious: for a credential that lies on a ring; otherwise the loop has no end,
  since no walk along the links comes back. Printing the name afterwards is left out.
- Playback.Typist.Play: a second string queued meanwhile, and typing of plain strings, are modelled but
  no more is proved of them than the queue's state. So is a string queued before the ring comes round
  in Playback.Typist.DeletePlayback.
- The entries of the key table: it is a parameter. Where it matters, NUL has no key and every character
  typed has one or is the pause, as in hid_defines.c:8-137 for printable characters.
- Calibration.OscCalStart: the frame length is a function of the setting, and measurements fit a
  signed word. The store of the result to EEPROM is left out.
- PIN entry, menus, buttons, scheduler and LED: user interface.
- USB and HID descriptors and main's request dispatch: static data and thin switches.
