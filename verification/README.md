# Verification of the Realtek three-wire transport, its configuration lists, COW dictionaries and the settings merge

A Dafny model of four parts of the repository, with proofs of what they are for. Each part that the
source writes imperatively is modelled twice: as classes and methods that change state the way the
source does, and as functions on values. The methods are proved equal to the functions, and the
properties are proved about the functions, for all inputs and whole runs.

- **The three-wire (H5) UART transport and the firmware download** of `hciattach_rtk.c`, which follows
  the Bluetooth Core Specification, Volume 4, Part D, sections 3 (SLIP), 4 (packet header), 5 (data
  integrity check), 6 (reliable packets) and 8 (link establishment). `DataIntegrity` and `Damage` hold
  the CRC and what it notices, `Slip` framing and header, `Transport` the connection as a state machine
  on values, `Reception`, `Segments`, `Delivery`, `Runs`, `HeaderDamage`, `HostRuns` and
  `Retransmission` what holds of it, `Acknowledgements` what it answers, `LinkUp` how the link comes up,
  `CommandEvents` when a command is done, `KnownAnswers` and `KnownFrames` known check values and frames,
  `Buffers` and `Rtb` the objects, `PatchPackets` the cutting of the image, `Download` the way from the
  image to the line, `OtherEnd` from the line to the image, and `Answers` when a download succeeds.
- **The configuration lists** of `rtb_fwc.c`. `ConfigList` holds the intrusive rings, `ConfigMerge`
  `merge_configs`, `ConfigTlv` the parser, the writer, and the way from file to file.
- **BitBake's copy-on-write dictionary**, `COW.py`. `Cow` holds the levels on values and the eagerly
  copied dictionaries they stand for, `CowLevels` the objects.
- **The settings merge**, `merge_settings.py`. `Settings` holds the merge of nested values, `SettingsTree`
  the objects.

A byte is an integer from 0 to 255, and the register of the CRC is its 16 bits. `Transport.Host.log`
records the packets at the entry of `h5_complete_rx_pkt`, `wire` the bytes written to the serial line,
and `exited` that `exit` was called. What arrives on the line, the file read, and the order in which
Python lists attributes are parameters.

Where the code does not do what is expected of it, the code is modelled and a lemma says exactly when
it does: the packet index of the download (`PatchPackets.IndexAsAnnounced`,
`PatchPackets.Bit7MarksLast`), the adopted sequence number meant for the time after the last patch packet
(`Runs.OrderExactlyOffTotal`), whose guard is never met in a download of more than 128 packets
(`Download.GuardExactly`), a download of more than 256 packets (`Answers.DownloadEnds`), a burst of errors
across the start of the check bytes (`Runs.DamageAccepted`), damage to the header that switches the check
off (`Runs.DamageDecided`, `HeaderDamage.FlagClearedAccepted`, `HeaderDamage.ShortenedAccepted`),
an event shorter than its headers (`Delivery.StreamWholeExactly`), a payload over 4095 bytes
(`Slip.LengthFits`), a configuration over 65535 bytes (`ConfigTlv.WireParsed`, `ConfigTlv.LengthExact`), a
mutable value set over an immutable one (`Cow.SetMutVisible`), the empty tuple
(`Cow.SetPlainVisible`), doubled items (`Cow.YieldItems`), and remove mode, which does not do what its
docstring says (`Settings.RemovedExactly`, `Settings.RemoveAdds`).

## Model

| member | source | states |
|---|---|---|
| `DataIntegrity.TableStepIsFourBits` | meta-rockchip/recipes-devtools/rtl-tools/files/hciattach_rtk.c:162-167 | One step of `h5_crc_update`, shift by a nibble and correct from `crc_table`, equals four steps of the reflected CCITT CRC with polynomial 0x8408, for every register and nibble |
| `DataIntegrity.TableIsBitwise` | meta-rockchip/recipes-devtools/rtl-tools/files/hciattach_rtk.c:246-254 | Folding `h5_crc_update` over any message gives the bitwise reflected CCITT CRC of its bits, least significant first |
| `DataIntegrity.BurstDetected` | meta-rockchip/recipes-devtools/rtl-tools/files/hciattach_rtk.c:246-254 | Two equally long messages that differ, and only inside a window of 16 consecutive bits on the line, never have the same CRC |
| `DataIntegrity.OddErrorsDetected` | meta-rockchip/recipes-devtools/rtl-tools/files/hciattach_rtk.c:246-254 | Two equally long messages that differ in an odd number of bits, wherever they are, never have the same CRC |
| `DataIntegrity.TableReverses` | meta-rockchip/recipes-devtools/rtl-tools/files/hciattach_rtk.c:117-155 | Each of the 256 entries of `byte_rev_table` is its index with the bits in the opposite order |
| `DataIntegrity.BitRev16Injective` | meta-rockchip/recipes-devtools/rtl-tools/files/hciattach_rtk.c:157-160 | `bit_rev16` sends different registers to different words |
| `DataIntegrity.CheckBytesDecide` | meta-rockchip/recipes-devtools/rtl-tools/files/hciattach_rtk.c:892-901 | The comparison of the receiver (`bit_rev16` against `h5_get_crc`) accepts the two check bytes sent for a register if and only if the receiver computed that same register |
| `KnownAnswers.CheckValues` | meta-rockchip/recipes-devtools/rtl-tools/files/hciattach_rtk.c:162-170 | The register starts from 0xffff; the nine bytes "123456789" give 0x6f91, the check value listed for this CRC; `40 00 00 bf` is sent with the check bytes `57 1a` |
| `KnownAnswers.LeadingZeroNoticed` | meta-rockchip/recipes-devtools/rtl-tools/files/hciattach_rtk.c:409-414 | A zero byte put in front of any message changes its CRC, which a register that starts from zero would not notice |
| `Slip.RoundTrip` | meta-rockchip/recipes-devtools/rtl-tools/files/hciattach_rtk.c:300-328 | Decoding undoes escaping, for every byte string |
| `Slip.UnescapeExactly` | meta-rockchip/recipes-devtools/rtl-tools/files/hciattach_rtk.c:338-402 | An escaped byte is read as exactly the byte that is escaped so, and as none if none is |
| `Slip.EncodeInjective` | meta-rockchip/recipes-devtools/rtl-tools/files/hciattach_rtk.c:300-328 | Different byte strings never escape to the same bytes, the step to `Delivery.FrameInjective` |
| `Slip.FrameTransparent` | meta-rockchip/recipes-devtools/rtl-tools/files/hciattach_rtk.c:436-495 | In a frame 0xc0 occurs first and last and nowhere else, and 0x11 and 0x13 do not occur |
| `Slip.HeaderFields` | meta-rockchip/recipes-devtools/rtl-tools/files/hciattach_rtk.c:84-90 | The `H5_HDR_` macros read back the acknowledge number, reliable bit, sequence number, CRC bit, type and the payload length modulo 4096 that the header was built from, and the header checksum holds |
| `Slip.LengthFits` | meta-rockchip/recipes-devtools/rtl-tools/files/hciattach_rtk.c:467-470 | The header carries the payload length if and only if it is at most 4095 |
| `KnownFrames.HeaderSum` | meta-rockchip/recipes-devtools/rtl-tools/files/hciattach_rtk.c:447-470 | The header checksum holds if and only if the four header bytes add up to 0xff modulo 256 |
| `KnownFrames.EscapesKnown` | meta-rockchip/recipes-devtools/rtl-tools/files/hciattach_rtk.c:300-328 | `c0 db 11 13` is escaped as `db dc db dd db de db df` |
| `LinkUp.NothingEscaped` | meta-rockchip/recipes-devtools/rtl-tools/files/hciattach_rtk.c:300-328 | Every other byte stands for itself |
| `KnownFrames.DataFrame` | meta-rockchip/recipes-devtools/rtl-tools/files/hciattach_rtk.c:409-498 | The whole frame, `c0 9d 42 00 20 db dc db dd db de db df c0`, of ACL data with these four bytes, number 5 and acknowledge number 3 |
| `Buffers.SkBuff.constructor` | meta-rockchip/recipes-devtools/rtl-tools/files/hciattach_rtk.c:172-187 | `skb_alloc`: an empty buffer of the size asked for, every byte zero |
| `Buffers.SkBuff.Put` | meta-rockchip/recipes-devtools/rtl-tools/files/hciattach_rtk.c:199-209 | `skb_put` and the copy into its room: the bytes are appended, or, exactly when they do not fit, it fails where the source exits; the bytes past the data stay zero |
| `Buffers.SkBuff.Trim` | meta-rockchip/recipes-devtools/rtl-tools/files/hciattach_rtk.c:215-222 | `skb_trim` shortens the data and never lengthens it |
| `Buffers.SkBuff.Pull` | meta-rockchip/recipes-devtools/rtl-tools/files/hciattach_rtk.c:229-238 | `skb_pull` moves the data pointer, and fails exactly when less data is left than asked for |
| `Buffers.SkBuff.SlipMsgDelim` | meta-rockchip/recipes-devtools/rtl-tools/files/hciattach_rtk.c:286-290 | Appends the delimiter, or fails exactly when it does not fit |
| `Buffers.SkBuff.SlipOneByte` | meta-rockchip/recipes-devtools/rtl-tools/files/hciattach_rtk.c:300-328 | Appends the escape sequence of the byte, or the byte, or fails exactly when it does not fit |
| `Rtb.RtbStruct.constructor` | meta-rockchip/recipes-devtools/rtl-tools/files/hciattach_rtk.c:2011 | The cleared structure: hunting for a delimiter, numbers 0, link in SYNC |
| `Rtb.RtbStruct.PreparePkt` | meta-rockchip/recipes-devtools/rtl-tools/files/hciattach_rtk.c:409-498 | `h5_prepare_pkt`: the frame of header, payload and check bytes, the sequence number taken if the type is reliable, nothing for an unknown type; no `skb_put` into the allocation of (len + 6) * 2 + 2 fails |
| `Rtb.RtbStruct.EncodePacket` | meta-rockchip/recipes-devtools/rtl-tools/files/hciattach_rtk.c:472-495 | Header, payload and the check bytes of their CRC are escaped, in this order, between two delimiters |
| `Rtb.RtbStruct.EncodeBytes` | meta-rockchip/recipes-devtools/rtl-tools/files/hciattach_rtk.c:473-486 | One encoding loop: the escaped bytes are appended, the CRC runs over them if it is in use |
| `Rtb.RtbStruct.BuildHeader` | meta-rockchip/recipes-devtools/rtl-tools/files/hciattach_rtk.c:447-470 | The four header bytes, and the sequence number taken by a reliable packet modulo 8 |
| `Rtb.RtbStruct.WritePkt` | meta-rockchip/recipes-devtools/rtl-tools/files/hciattach_rtk.c:548-552 | A packet is built and its frame is written to the line |
| `Rtb.RtbStruct.RtbSendAck` | meta-rockchip/recipes-devtools/rtl-tools/files/hciattach_rtk.c:546-557 | `rtb_send_ack`: an empty acknowledgement is written |
| `Rtb.RtbStruct.HandleInternalRx` | meta-rockchip/recipes-devtools/rtl-tools/files/hciattach_rtk.c:708-761 | `h5_handle_internal_rx`: the SYNC and CONFIG exchange by link state, the replies written, the CRC setting taken from a third byte if the packet has one |
| `Rtb.RtbStruct.CommandComplete` | meta-rockchip/recipes-devtools/rtl-tools/files/hciattach_rtk.c:568-588 | The part shared by both command complete handlers: a payload too short for its headers ends the process; status and opcode decide |
| `Rtb.RtbStruct.H5InitHciCc` | meta-rockchip/recipes-devtools/rtl-tools/files/hciattach_rtk.c:562-627 | `h5_init_hci_cc`: the command is marked done, versions and chip type are taken from its parameters, and the five counted opcodes are counted in 16 bits |
| `Rtb.RtbStruct.H5PostHciCc` | meta-rockchip/recipes-devtools/rtl-tools/files/hciattach_rtk.c:632-668 | `h5_post_hci_cc`: the completed reset makes the link ACTIVE |
| `Rtb.RtbStruct.RecvFrame` | meta-rockchip/recipes-devtools/rtl-tools/files/hciattach_rtk.c:673-706 | `hci_recv_frame`: dispatch by link state; during the download the index of the event is taken, and bit 7 ends it |
| `Rtb.RtbStruct.CompleteRxPkt` | meta-rockchip/recipes-devtools/rtl-tools/files/hciattach_rtk.c:766-817 | `h5_complete_rx_pkt`: the packet is logged, its numbers noted, it is dispatched and acknowledged, and the decoder hunts again |
| `Rtb.RtbStruct.NoteRxNumbers` | meta-rockchip/recipes-devtools/rtl-tools/files/hciattach_rtk.c:771-781 | The expected number becomes that of a reliable packet plus 1 modulo 8, and an acknowledgement is due |
| `Rtb.RtbStruct.DispatchRxPkt` | meta-rockchip/recipes-devtools/rtl-tools/files/hciattach_rtk.c:783-806 | Which packet types are passed up, handled internally, or dropped |
| `Rtb.RtbStruct.AckIfAsked` | meta-rockchip/recipes-devtools/rtl-tools/files/hciattach_rtk.c:808-811 | The acknowledgement that ends `h5_complete_rx_pkt` |
| `Rtb.RtbStruct.UnslipOneByte` | meta-rockchip/recipes-devtools/rtl-tools/files/hciattach_rtk.c:338-402 | `h5_unslip_one_byte`: escape state, decoded byte into the buffer, CRC and count; an unknown escape drops the packet |
| `Rtb.RtbStruct.StoreByte` | meta-rockchip/recipes-devtools/rtl-tools/files/hciattach_rtk.c:347-353 | A decoded byte is stored, enters the CRC unless it is a check byte, and is counted; in every valid state `skb_put` succeeds |
| `Rtb.RtbStruct.CheckRxHeader` | meta-rockchip/recipes-devtools/rtl-tools/files/hciattach_rtk.c:843-880 | A bad checksum or an unexpected sequence number drops the packet, otherwise the payload length is expected |
| `Rtb.RtbStruct.RefuseHeader` | meta-rockchip/recipes-devtools/rtl-tools/files/hciattach_rtk.c:854-875 | An unexpected number asks for an acknowledgement, and is adopted only in PATCH while tx_index equals total_num |
| `Rtb.RtbStruct.CheckRxData` | meta-rockchip/recipes-devtools/rtl-tools/files/hciattach_rtk.c:882-890 | A complete payload is handed up, or two check bytes are expected first |
| `Rtb.RtbStruct.CheckRxCrc` | meta-rockchip/recipes-devtools/rtl-tools/files/hciattach_rtk.c:892-904 | The packet is handed up without its check bytes if they match, and dropped if not |
| `Rtb.RtbStruct.RecvPass` | meta-rockchip/recipes-devtools/rtl-tools/files/hciattach_rtk.c:827-949 | One pass of the loop of `h5_recv`, and whether it consumed the byte |
| `Rtb.RtbStruct.Recv` | meta-rockchip/recipes-devtools/rtl-tools/files/hciattach_rtk.c:822-952 | `h5_recv` on the object is the function `Recv` on values, for every valid state and byte string, and keeps the object valid |
| `Reception.RecvConcat` | meta-rockchip/recipes-devtools/rtl-tools/files/hciattach_rtk.c:1041-1048 | Receiving `a` and then `b` is receiving `a` followed by `b`, for every state and every cut, although some transitions wait for another byte: same state, log, and bytes written |
| `Reception.PassProgress` | meta-rockchip/recipes-devtools/rtl-tools/files/hciattach_rtk.c:827-949 | A pass of the loop that consumes nothing strictly lowers the rank of the decoder state |
| `Reception.PassesLinear` | meta-rockchip/recipes-devtools/rtl-tools/files/hciattach_rtk.c:827-949 | The loop ends, after at most four passes a byte |
| `Reception.Resynchronised` | meta-rockchip/recipes-devtools/rtl-tools/files/hciattach_rtk.c:827-949 | From every state, after any bytes that end in 0xc0, the decoder waits for the start of a packet with nothing expected, unless the process has ended |
| `Reception.RecvEncoded` | meta-rockchip/recipes-devtools/rtl-tools/files/hciattach_rtk.c:338-402 | Escaped data enters the buffer decoded and is counted |
| `Reception.BufferBound` | meta-rockchip/recipes-devtools/rtl-tools/files/hciattach_rtk.c:931-936 | Buffered plus expected bytes never exceed the allocation of 0x1005 |
| `Reception.FrameExactly` | meta-rockchip/recipes-devtools/rtl-tools/files/hciattach_rtk.c:822-952 | For any bytes at all between two delimiters, longer or shorter than their length field says, with or without the CRC flag: the exact connection afterwards. The packet in front is completed if and only if the header sum holds, the number is expected, the packet is all there, and the check bytes match where the received header asks for them; the rest is skipped and the next frame is awaited |
| `Reception.FrameReceived` | meta-rockchip/recipes-devtools/rtl-tools/files/hciattach_rtk.c:822-952 | Its case for a packet as long as its length field says: with a sound header and the number expected it is completed if and only if its check bytes match; either way the decoder is ready for the next frame |
| `Reception.FrameRefused` | meta-rockchip/recipes-devtools/rtl-tools/files/hciattach_rtk.c:843-875 | Its case for a header that is damaged or out of order: the frame is dropped whole, nothing completed, and its number is adopted only in PATCH while tx_index equals total_num |
| `Segments.PieceReceived` | meta-rockchip/recipes-devtools/rtl-tools/files/hciattach_rtk.c:338-402 | For any bytes between two delimiters, escaped in whatever way or not at all: what they do is done by the bytes they stand for, up to an escape that is unknown or cut short, which ends the packet as a delimiter does |
| `Segments.StreamExactly` | meta-rockchip/recipes-devtools/rtl-tools/files/hciattach_rtk.c:822-952 | For every byte string up to a delimiter, from the start of a packet: `h5_recv` does exactly what a simple reading of the line does that cuts it at the delimiters, undoes the escapes of each piece and looks at the packet in front |
| `Segments.HuntingExactly` | meta-rockchip/recipes-devtools/rtl-tools/files/hciattach_rtk.c:822-952 | The same for a receiver that still hunts for a delimiter, as after start-up: it skips the first piece |
| `Segments.DecodedAll` | meta-rockchip/recipes-devtools/rtl-tools/files/hciattach_rtk.c:338-402 | What a piece without wrong escapes stands for is its decoding |
| `Delivery.FrameInjective` | meta-rockchip/recipes-devtools/rtl-tools/files/hciattach_rtk.c:445-495 | Different header fields or payloads never give the same frame, with or without check bytes, for payloads of any length |
| `Delivery.BuiltPacket` | meta-rockchip/recipes-devtools/rtl-tools/files/hciattach_rtk.c:409-498 | What `h5_prepare_pkt` builds is a sound packet with the sender's number if it is reliable, and check bytes that match |
| `Delivery.OrderDelivered` | meta-rockchip/recipes-devtools/rtl-tools/files/hciattach_rtk.c:822-952 | One built frame is completed once, and sender and receiver stay in step |
| `Delivery.StreamRoundTrip` | meta-rockchip/recipes-devtools/rtl-tools/files/hciattach_rtk.c:822-952 | For every list of built packets (any supported type, payload up to 4095, any acknowledge numbers, CRC on or off for each) the receiver completes exactly those packets, once each and in order, unless the process ends after one of them, and then a prefix |
| `Delivery.ExitsExactly` | meta-rockchip/recipes-devtools/rtl-tools/files/hciattach_rtk.c:562-573 | Completing a packet ends the process if and only if it is a command complete event shorter than its headers, passed up in INIT or HCI_RESET |
| `Delivery.QuietNeverExits` | meta-rockchip/recipes-devtools/rtl-tools/files/hciattach_rtk.c:562-573 | A stream none of whose passed-up packets is a command complete event shorter than its headers never ends the process |
| `Delivery.QuietRoundTrip` | meta-rockchip/recipes-devtools/rtl-tools/files/hciattach_rtk.c:822-952 | Such a stream, command complete events of full length included, is completed whole, and the receiver waits for the next frame |
| `Delivery.StreamHanded` | meta-rockchip/recipes-devtools/rtl-tools/files/hciattach_rtk.c:822-952 | Receiving a stream of built packets is completing them one by one |
| `Delivery.StreamWholeExactly` | meta-rockchip/recipes-devtools/rtl-tools/files/hciattach_rtk.c:562-573 | For every stream, receiver and link state: the process ends if and only if some packet is passed up, has fewer than 5 payload bytes and 0x0e as its first byte in the buffer, and meets the link in INIT or HCI_RESET; exactly otherwise every packet is completed, once and in order |
| `Delivery.InitExitsExactly` | meta-rockchip/recipes-devtools/rtl-tools/files/hciattach_rtk.c:562-573 | From INIT, which reception never leaves, that is if and only if the list holds such a packet |
| `Delivery.ShortEventExits` | meta-rockchip/recipes-devtools/rtl-tools/files/hciattach_rtk.c:568-573 | A stream of one short command complete event, received in INIT, ends the process |
| `Delivery.StreamConcat` | meta-rockchip/recipes-devtools/rtl-tools/files/hciattach_rtk.c:409-498 | The stream of two lists is the stream of the first followed by the stream of the second from the sender left by the first |
| `Delivery.StreamSameSender` | meta-rockchip/recipes-devtools/rtl-tools/files/hciattach_rtk.c:455-461 | What is sent depends on the sender only through the number of its next reliable packet |
| `Acknowledgements.WordAnswered` | meta-rockchip/recipes-devtools/rtl-tools/files/hciattach_rtk.c:766-817 | Any bytes between two delimiters, on an established link or, if not of the link exchange, on any: a completed packet that is reliable, or any completed while an acknowledgement is pending, is answered, unless the process ends, by exactly one frame, unreliable, of type 0, empty, with the number expected next, given byte by byte, and none is pending after; a packet out of order writes nothing and leaves one pending; nothing else is written |
| `Acknowledgements.RefusedThenAcked` | meta-rockchip/recipes-devtools/rtl-tools/files/hciattach_rtk.c:854-875 | After a packet out of order the next completed one is followed by an acknowledgement with the number expected then |
| `Acknowledgements.OrderAcknowledged` | meta-rockchip/recipes-devtools/rtl-tools/files/hciattach_rtk.c:766-817 | A built reliable packet with the number expected that does not end the process is answered by exactly the acknowledgement of that number plus 1, and none is left pending; a built unreliable one, with nothing pending, by nothing |
| `Acknowledgements.StreamAcknowledged` | meta-rockchip/recipes-devtools/rtl-tools/files/hciattach_rtk.c:808-811 | Over a stream of built packets that does not end the process: one acknowledgement for each reliable packet, in order, each with its own number, and none left pending |
| `Acknowledgements.StreamConfirmed` | meta-rockchip/recipes-devtools/rtl-tools/files/hciattach_rtk.c:771-811 | What the receiver of a stream writes tells its sender, when that reads it, the number of its own next reliable packet |
| `KnownFrames.AckFrames` | meta-rockchip/recipes-devtools/rtl-tools/files/hciattach_rtk.c:546-557 | The acknowledgement of number 1 is `c0 08 00 00 f7 c0`; of number 0, with check bytes, `c0 40 00 00 bf 57 1a c0` |
| `KnownFrames.AnswerAcknowledged` | meta-rockchip/recipes-devtools/rtl-tools/files/hciattach_rtk.c:766-817 | In PATCH, expecting number 0, `c0 80 74 00 0b 0e 05 01 20 fc 00 00 c0` is answered by `c0 08 00 00 f7 c0`, with none left pending |
| `LinkUp.SyncExactly` | meta-rockchip/recipes-devtools/rtl-tools/files/hciattach_rtk.c:722-732 | In SYNC, on any bytes between two delimiters: the link goes to CONFIG if and only if a packet of the exchange is completed that begins `02 7d`; `01 7e` is answered by `c0 00 2f 00 d0 02 7d c0`; nothing else is written but an acknowledgement that is due |
| `LinkUp.ConfigExactly` | meta-rockchip/recipes-devtools/rtl-tools/files/hciattach_rtk.c:733-760 | In CONFIG: the link goes to INIT if and only if one is completed that begins `04 7b`, and bit 4 of its third byte, if it has one, settles the use of check bytes; `01 7e` and `03 fc` are answered by their eight bytes, any other of the exchange by an acknowledgement |
| `LinkUp.LinkComesUp` | meta-rockchip/recipes-devtools/rtl-tools/files/hciattach_rtk.c:722-755 | From SYNC the two responses, byte by byte, with any byte of settings, bring the link to INIT with check bytes as the settings say |
| `LinkUp.LinkComesUpPlain` | meta-rockchip/recipes-devtools/rtl-tools/files/hciattach_rtk.c:722-755 | So do the two responses without settings, which leave the use of check bytes as it was |
| `LinkUp.InitReached` | meta-rockchip/recipes-devtools/rtl-tools/files/hciattach_rtk.c:1334-1362 | From the start there are runs that reach INIT before any download, with check bytes and without |
| `CommandEvents.InitExactly` | meta-rockchip/recipes-devtools/rtl-tools/files/hciattach_rtk.c:562-627 | In INIT, on any bytes between two delimiters: the command in flight is marked done if and only if a packet is completed that is passed up, has at least 5 bytes, 0x0e as the first, its opcode in the fourth and fifth, low byte first, and status 0 next; it is counted if and only if the opcode is 0xfc17, 0x1009, 0x1001, 0xfc6d or 0xfc61; what it tells is taken from its bytes |
| `CommandEvents.ResetExactly` | meta-rockchip/recipes-devtools/rtl-tools/files/hciattach_rtk.c:632-668 | The same in HCI_RESET, where nothing is counted and the link becomes ACTIVE if and only if the command was 0x0c03 |
| `CommandEvents.PatchExactly` | meta-rockchip/recipes-devtools/rtl-tools/files/hciattach_rtk.c:684-699 | In PATCH: rx_index becomes the low seven bits of the seventh byte of any command complete event, whatever it completes, and bit 7 of that byte alone ends PATCH |
| `CommandEvents.EventInInit` | meta-rockchip/recipes-devtools/rtl-tools/files/hciattach_rtk.c:562-627 | A built command complete event in INIT: with status 0 and the opcode in flight it marks the command done and counts it if it is one of the five; with any other opcode or status nothing changes |
| `CommandEvents.EventTells` | meta-rockchip/recipes-devtools/rtl-tools/files/hciattach_rtk.c:600-619 | HCI version and revision, LMP subversion, ROM version, chip type and version are taken from the parameters, at these offsets |
| `CommandEvents.EventInReset` | meta-rockchip/recipes-devtools/rtl-tools/files/hciattach_rtk.c:632-668 | A built command complete event in HCI_RESET: ACTIVE if and only if status 0 and opcode 0x0c03, in flight |
| `CommandEvents.StreamReplies` | meta-rockchip/recipes-devtools/rtl-tools/files/hciattach_rtk.c:562-627 | Over a stream received in INIT: the command in flight is done if and only if the stream holds a reply to it, and `num_of_cmd_sent` grows by the number of replies if it is one of the five |
| `CommandEvents.CommandSucceeds` | meta-rockchip/recipes-devtools/rtl-tools/files/hciattach_rtk.c:1107-1112 | A command put in flight in INIT succeeds, over any stream after it, if and only if the stream holds a reply to it |
| `Runs.PassStep` | meta-rockchip/recipes-devtools/rtl-tools/files/hciattach_rtk.c:827-949 | Every pass keeps the invariant: bytes buffered and expected add up by state, `message_crc` is the CRC of the buffer without check bytes, an accepted header is sound and in order |
| `Runs.RecvInOrder` | meta-rockchip/recipes-devtools/rtl-tools/files/hciattach_rtk.c:771-779 | On every byte string, unless tx_index equals total_num in PATCH, the n-th reliable packet completed carries the number first expected plus n modulo 8, and the expected number follows |
| `Runs.AdoptedThenAccepted` | meta-rockchip/recipes-devtools/rtl-tools/files/hciattach_rtk.c:866-872 | While tx_index equals total_num in PATCH there is input on which reception is not in order: a number out of order is adopted, then accepted |
| `Runs.OrderExactlyOffTotal` | meta-rockchip/recipes-devtools/rtl-tools/files/hciattach_rtk.c:866-872 | Between frames, reception is in order on all input if and only if not both the link is in PATCH and tx_index equals total_num; `Download.GuardExactly` says when that is |
| `Runs.RepeatAccepted` | meta-rockchip/recipes-devtools/rtl-tools/files/hciattach_rtk.c:854-875 | A repeat of a completed reliable frame, after any bytes in between, those that end inside or just before the end of a packet included, is completed again if and only if the reliable packets completed up to the first delimiter of the repeat, the first copy included, are a multiple of 8 |
| `Runs.DeliveredAfterGarbage` | meta-rockchip/recipes-devtools/rtl-tools/files/hciattach_rtk.c:827-949 | A good frame after arbitrary bytes is completed if its number is the one expected at that point |
| `Damage.MatchesExactly` | meta-rockchip/recipes-devtools/rtl-tools/files/hciattach_rtk.c:892-901 | The comparison of the receiver accepts a packet with two check bytes if and only if they are the check bytes of that packet |
| `Damage.CodewordEven` | meta-rockchip/recipes-devtools/rtl-tools/files/hciattach_rtk.c:488-493 | A packet with its check bytes always has an even number of set bits |
| `Damage.OddFlipsNoticed` | meta-rockchip/recipes-devtools/rtl-tools/files/hciattach_rtk.c:892-901 | An odd number of flipped bits, anywhere in packet and check bytes, is noticed |
| `Damage.BurstNoticed` | meta-rockchip/recipes-devtools/rtl-tools/files/hciattach_rtk.c:892-901 | A burst of at most 14 bits is noticed wherever it lies, across the start of the check bytes too |
| `Damage.PacketBurstNoticed` | meta-rockchip/recipes-devtools/rtl-tools/files/hciattach_rtk.c:892-901 | A burst of at most 16 bits inside the packet is noticed if the check bytes arrive as sent |
| `Damage.CheckDamageNoticed` | meta-rockchip/recipes-devtools/rtl-tools/files/hciattach_rtk.c:892-901 | Any damage to the check bytes alone is noticed |
| `Damage.StraddlingBurstMatches` | meta-rockchip/recipes-devtools/rtl-tools/files/hciattach_rtk.c:157-160 | For every packet there is a burst of 15 bits, from its last bit into the check bytes, that is not noticed, because `bit_rev16` sends each byte of the register reversed |
| `Runs.CompletedExactly` | meta-rockchip/recipes-devtools/rtl-tools/files/hciattach_rtk.c:822-952 | For any bytes between two delimiters: the packet in front is completed if and only if its header sum holds, its number is expected, and it is all there, followed, if its own header asks for them, by exactly the check bytes that a sender gives it; otherwise the log is unchanged |
| `Runs.DamageDecided` | meta-rockchip/recipes-devtools/rtl-tools/files/hciattach_rtk.c:843-904 | The same damage without any condition on flag and length: something is completed if and only if the header sum holds, the number is expected, and either the CRC flag was cleared and the packet of the received length fits, or the flag is set, the length was made shorter, and the check bytes of the shorter packet follow it |
| `Runs.DamageRejected` | meta-rockchip/recipes-devtools/rtl-tools/files/hciattach_rtk.c:843-904 | A packet with check bytes, damaged in an odd number of bits, in a burst of at most 14 bits anywhere, in one of at most 16 inside the packet, or in the check bytes alone, is never completed if the CRC flag and the length arrive as sent: nothing changes, except that a damaged number under a header sum that still holds is treated as out of order |
| `Runs.DamageAccepted` | meta-rockchip/recipes-devtools/rtl-tools/files/hciattach_rtk.c:892-904 | No longer burst can be promised: every packet with a payload can be damaged in 15 consecutive bits so that another packet is completed in its place |
| `HeaderDamage.FlagClearedAccepted` | meta-rockchip/recipes-devtools/rtl-tools/files/hciattach_rtk.c:882-890 | Every packet with check bytes and an expected number can be damaged in its CRC flag and its checksum so that it is completed, unchecked, with another header: by 3 flipped bits if bit 6 of the checksum was set, which the comparison would have noticed, and by 2 if not |
| `HeaderDamage.ShortenedAccepted` | meta-rockchip/recipes-devtools/rtl-tools/files/hciattach_rtk.c:843-890 | Damage within a burst of 10 bits that clears the CRC flag and adds 4 to the low digit of the length completes, unchecked, a packet 12 bytes shorter if and only if that digit is 12 or more, and nothing otherwise, although the comparison would have noticed |
| `HeaderDamage.OddDamageAccepted` | meta-rockchip/recipes-devtools/rtl-tools/files/hciattach_rtk.c:843-890 | The header `40 44 00 7b` with any 4 payload bytes and their check bytes, received as `00 44 00 bb`: 3 flipped bits, the length as sent, and the packet is completed |
| `HeaderDamage.BurstDamageAccepted` | meta-rockchip/recipes-devtools/rtl-tools/files/hciattach_rtk.c:843-890 | The header `40 c4 00 fb` with any 12 payload bytes and their check bytes, received as `00 04 00 fb`: 3 bits in a burst of 10, and an empty event packet is completed |
| `HostRuns.InitialInv` | meta-rockchip/recipes-devtools/rtl-tools/files/hciattach_rtk.c:2011 | The cleared structure satisfies the invariant |
| `HostRuns.Reachable` | meta-rockchip/recipes-devtools/rtl-tools/files/hciattach_rtk.c:822-952 | So does every state reached by any interleaving of received bytes and the host's own actions |
| `HostRuns.RunInOrder` | meta-rockchip/recipes-devtools/rtl-tools/files/hciattach_rtk.c:771-779 | Over every run of received bytes and host actions in which tx_index never equals total_num in PATCH, reliable packets are completed in order |
| `HostRuns.PassNumbers` | meta-rockchip/recipes-devtools/rtl-tools/files/hciattach_rtk.c:562-627 | A pass of the receiver counts exactly if it completes a packet that is passed up in INIT with at least 5 payload bytes, 0x0e as the first, status 0, and the opcode of the command in flight, one of the five counted; no other pass moves `num_of_cmd_sent`, and none moves `msgq_txseq` |
| `HostRuns.RunNumbers` | meta-rockchip/recipes-devtools/rtl-tools/files/hciattach_rtk.c:455-461 | Over every run `msgq_txseq` follows the reliable packets built modulo 8, and `num_of_cmd_sent`, in 16 bits, the packets completed that complete a counted command |
| `HostRuns.CountersAgree` | meta-rockchip/recipes-devtools/rtl-tools/files/hciattach_rtk.c:626 | If as many counted commands are completed in a run from the start as reliable packets are built, counter and sequence number agree modulo 8 |
| `HostRuns.RunPath` | meta-rockchip/recipes-devtools/rtl-tools/files/hciattach_rtk.c:632-760 | Over a run of received bytes and host actions the link state only stays or moves one step along SYNC, CONFIG, INIT, PATCH, HCI_RESET, ACTIVE, with `use_crc` changing only on the step from CONFIG to INIT, if and only if the download, which sets PATCH whatever the state, begins only from INIT or PATCH |
| `HostRuns.LinkAdvances` | meta-rockchip/recipes-devtools/rtl-tools/files/hciattach.h:121-128 | No such run takes the link back, and from INIT on `use_crc` is settled |
| `HostRuns.DownloadInTurn` | meta-rockchip/recipes-devtools/rtl-tools/files/hciattach_rtk.c:1983-1988 | A run with one download keeps to that if and only if it was in INIT when the download began, or had ended before |
| `HostRuns.DownloadAdvances` | meta-rockchip/recipes-devtools/rtl-tools/files/hciattach_rtk.c:1094-1104 | From the start: once the link has come up, with any events after that, the one download begins in turn, so that the link only moves forward over the whole run |
| `PatchPackets.PaddingClosesWindow` | meta-rockchip/recipes-devtools/rtl-tools/files/hciattach_rtk.c:1468-1497 | For every size and every number of earlier commands, those commands, the patch packets 0 to total_idx and the reset are together a multiple of 8 |
| `PatchPackets.PaddingLeast` | meta-rockchip/recipes-devtools/rtl-tools/files/hciattach_rtk.c:1468-1497 | With no fewer additional packets, of which there are at most 7, and none over H4 |
| `PatchPackets.SequenceCloses` | meta-rockchip/recipes-devtools/rtl-tools/files/hciattach_rtk.c:1468-1497 | From a given sequence number the patch packets and the reset lead to 0 if and only if that number is the count of commands modulo 8 |
| `PatchPackets.Bit7MarksLast` | meta-rockchip/recipes-devtools/rtl-tools/files/hciattach_rtk.c:1508-1541 | Bit 7 of the index marks the last packet and no other if and only if total_idx is at most 255 |
| `PatchPackets.IndexAsAnnounced` | meta-rockchip/recipes-devtools/rtl-tools/files/hciattach_rtk.c:1509-1515 | The index follows the sequence 0, 1, ..., 127, 1, ..., 127, 1, ... of its comment for packets 0 to 254 and not for 255; the exact condition for every packet number |
| `PatchPackets.ImageConserved` | meta-rockchip/recipes-devtools/rtl-tools/files/hciattach_rtk.c:1468-1561 | The data of packets 0 to total_idx is exactly the image; packets up to end_idx have 1 to 252 bytes of it, the additional ones none |
| `PatchPackets.CountPackets` | meta-rockchip/recipes-devtools/rtl-tools/files/hciattach_rtk.c:1468-1504 | end_idx, lp_len and total_idx in the 8 and 16 bit arithmetic of the code, for every size; up to 16 bits they are those of the image |
| `PatchPackets.CutPacket` | meta-rockchip/recipes-devtools/rtl-tools/files/hciattach_rtk.c:1509-1541 | The branches on i choose j, the index byte and the data of packet i, with pkt_buf at 252 * i |
| `PatchPackets.CursorAdvances` | meta-rockchip/recipes-devtools/rtl-tools/files/hciattach_rtk.c:1558-1560 | pkt_buf reaches the data of the next packet although it moves on by comparing the wrapped index |
| `PatchPackets.IndexMeetsTotal` | meta-rockchip/recipes-devtools/rtl-tools/files/hciattach_rtk.c:1138-1144 | The tx_index that a packet sets equals total_idx if and only if it is the last of a download of at most 128 packets |
| `Retransmission.RepeatDropped` | meta-rockchip/recipes-devtools/rtl-tools/files/hciattach_rtk.c:854-875 | A receiver that expects the next number drops the last reliable frame written again, whatever it is |
| `Retransmission.LineDelivered` | meta-rockchip/recipes-devtools/rtl-tools/files/hciattach_rtk.c:822-952 | On a line on which the last reliable frame is written again any number of times at any points, every packet built is completed once and in order |
| `Download.WritePatch` | meta-rockchip/recipes-devtools/rtl-tools/files/hciattach_rtk.c:1138-1176 | tx_index is set, the command is built and its frame written |
| `Download.HandleReport` | meta-rockchip/recipes-devtools/rtl-tools/files/hciattach_rtk.c:1210-1277 | One report of a wait: bytes are received, a timeout writes the frame again while retry lasts and then ends the process |
| `Download.HandleBatch` | meta-rockchip/recipes-devtools/rtl-tools/files/hciattach_rtk.c:1209-1277 | All reports of one epoll_wait, in order, until the process ends |
| `Download.H5DownloadPatch` | meta-rockchip/recipes-devtools/rtl-tools/files/hciattach_rtk.c:1121-1284 | The command is written, then awaited, with up to three retransmissions, until after all reports of one epoll_wait rx_index has met tx_index |
| `Download.H4DownloadPatch` | meta-rockchip/recipes-devtools/rtl-tools/files/hciattach_h4.c:166-197 | The H4 packet is written; any byte may come back |
| `Download.DownloadPacket` | meta-rockchip/recipes-devtools/rtl-tools/files/hciattach_rtk.c:1543-1556 | One packet over either transport: over H5 its wait decides, over H4 a byte that is not the index ends the download except for the last packet; the line carries one packet more |
| `Download.DownloadNext` | meta-rockchip/recipes-devtools/rtl-tools/files/hciattach_rtk.c:1508-1561 | The body of the loop: packet i is cut and sent, and, if it succeeds, the cursor is ready for packet i + 1 |
| `Download.SendImage` | meta-rockchip/recipes-devtools/rtl-tools/files/hciattach_rtk.c:1507-1561 | The loop: the packets sent are those of the image in order, and all of them if it ends with ok; over H5 state and result are those of the waits folded over the packets, over H4 ok means that every index but the last came back; what is on the line carries the packets; all reception is in order, except past the last packet of a download of at most 128 |
| `Download.H5HciReset` | meta-rockchip/recipes-devtools/rtl-tools/files/hciattach_rtk.c:1381-1396 | The reset command is written and takes the next sequence number |
| `Download.RtbDownloadFwc` | meta-rockchip/recipes-devtools/rtl-tools/files/hciattach_rtk.c:1451-1567 | Whatever is reported meanwhile: the same of the whole download; the reset follows, and leaves `msgq_txseq` at 0 if and only if the command count agreed with it before |
| `Download.AwaitCarries` | meta-rockchip/recipes-devtools/rtl-tools/files/hciattach_rtk.c:1208-1278 | Whatever is reported during a wait, the line goes on carrying exactly the packets it carried |
| `Download.AwaitInOrder` | meta-rockchip/recipes-devtools/rtl-tools/files/hciattach_rtk.c:1208-1278 | A wait entered while tx_index does not equal total_num receives in order to its end |
| `Download.GuardExactly` | meta-rockchip/recipes-devtools/rtl-tools/files/hciattach_rtk.c:866-872 | During a download tx_index equals total_num in PATCH if and only if the last packet has been sent and there are at most 128 |
| `Download.RecvWritesAcks` | meta-rockchip/recipes-devtools/rtl-tools/files/hciattach_rtk.c:808-811 | Once the link is established, all that reception writes to the line is a stream of acknowledgements that takes no sequence number |
| `Download.ResetClosesWindow` | meta-rockchip/recipes-devtools/rtl-tools/files/hciattach_rtk.c:1563-1567 | After a whole download the reset leaves `msgq_txseq` at 0 if and only if the command count agreed with it modulo 8 before |
| `Download.RunClosesWindow` | meta-rockchip/recipes-devtools/rtl-tools/files/hciattach_rtk.c:1563-1567 | It is 0 after every run from the start in which as many counted commands were completed as reliable packets built, a whole download and the reset |
| `OtherEnd.LineRead` | meta-rockchip/recipes-devtools/rtl-tools/files/hciattach_rtk.c:1121-1176 | A receiver in step that is fed everything a download wrote so far, acknowledgements and repeats included, and reads its command packets with a reader of its own (opcode 0xfc20, low byte first, a third byte that counts the rest, index, data), reads exactly the patch packets sent |
| `OtherEnd.DownloadReceived` | meta-rockchip/recipes-devtools/rtl-tools/files/hciattach_rtk.c:1451-1561 | From a whole download it reads every packet with its index, and their data is exactly the image |
| `OtherEnd.H4Read` | meta-rockchip/recipes-devtools/rtl-tools/files/hciattach_h4.c:166-185 | Over H4 the bytes written split, by their own type and length bytes, into commands that read as exactly the patch packets sent |
| `OtherEnd.ResetRead` | meta-rockchip/recipes-devtools/rtl-tools/files/hciattach_rtk.c:1381-1396 | From the reset frame a receiver in step reads a command without parameters whose opcode is the one then in flight |
| `OtherEnd.ResetAnswered` | meta-rockchip/recipes-devtools/rtl-tools/files/hciattach_rtk.c:632-668 | In HCI_RESET, the reset written and answered with status 0, the link is ACTIVE and the command done |
| `Answers.AnswerTaken` | meta-rockchip/recipes-devtools/rtl-tools/files/hciattach_rtk.c:684-699 | In PATCH a command complete event with the number expected is completed, sets rx_index to the low seven bits of its index, and ends PATCH if bit 7 is set |
| `Answers.SendsAnswered` | meta-rockchip/recipes-devtools/rtl-tools/files/hciattach_rtk.c:1507-1561 | Every packet up to number 255 that is answered in order with its index, after at most three timeouts, ends its wait |
| `Answers.AwaitStuck` | meta-rockchip/recipes-devtools/rtl-tools/files/hciattach_rtk.c:1208-1278 | After PATCH a wait for another index never succeeds, whatever is reported, and ends the process once there are more timeouts than retransmissions |
| `Answers.DownloadEnds` | meta-rockchip/recipes-devtools/rtl-tools/files/hciattach_rtk.c:1451-1561 | With a controller that answers every packet in time, in order and with its index, a download over H5 succeeds if and only if total_idx is at most 255: the index of packet 255 is 0x80, whose echo ends PATCH, so packet 256 is never answered, whatever comes, and after four timeouts the process has ended |
| `Answers.BegunEnds` | meta-rockchip/recipes-devtools/rtl-tools/files/hciattach_rtk.c:1983-1988 | The same of every download that begins between frames, in whatever state: it starts in PATCH with rx_index -1 |
| `ConfigList.InitListHead` | meta-rockchip/recipes-devtools/rtl-tools/files/rtb_fwc.c:280-284 | A ring of one |
| `ConfigList.ListEmpty` | meta-rockchip/recipes-devtools/rtl-tools/files/rtb_fwc.c:286-289 | Whether the ring is only its head |
| `ConfigList.ListAddTail` | meta-rockchip/recipes-devtools/rtl-tools/files/rtb_fwc.c:291-304 | The node becomes the last of the ring |
| `ConfigList.ListDel` | meta-rockchip/recipes-devtools/rtl-tools/files/rtb_fwc.c:306-319 | The ring without the node, its own pointers poisoned |
| `ConfigList.ListSpliceTail` | meta-rockchip/recipes-devtools/rtl-tools/files/rtb_fwc.c:321-340 | All nodes but the head of one ring follow, in order, at the end of the other |
| `ConfigList.ListSplice` | meta-rockchip/recipes-devtools/rtl-tools/files/rtb_fwc.c:321-333 | The same for a ring that is not empty |
| `ConfigList.ListReplace` | meta-rockchip/recipes-devtools/rtl-tools/files/rtb_fwc.c:342-349 | The new node stands where the old one stood |
| `ConfigList.ListReplaceInit` | meta-rockchip/recipes-devtools/rtl-tools/files/rtb_fwc.c:351-356 | The same, and the old node is a ring of its own |
| `ConfigMerge.FoldBytes` | meta-rockchip/recipes-devtools/rtl-tools/files/rtb_fwc.c:596-621 | Every byte of a merged item comes from the last extra of its offset that reaches it, or else from the item; the item is as long as the longest of them |
| `ConfigMerge.FoldIdempotent` | meta-rockchip/recipes-devtools/rtl-tools/files/rtb_fwc.c:596-621 | The same extras applied to an item again change nothing |
| `ConfigMerge.AddedFrom` | meta-rockchip/recipes-devtools/rtl-tools/files/rtb_fwc.c:623-632 | The extras added are exactly those whose offset no item has |
| `ConfigMerge.MergeIdempotent` | meta-rockchip/recipes-devtools/rtl-tools/files/rtb_fwc.c:576-633 | Merging the same extras a second time changes nothing, if their offsets are distinct |
| `ConfigMerge.UpdateItem` | meta-rockchip/recipes-devtools/rtl-tools/files/rtb_fwc.c:602-609 | A shorter extra overwrites the front of the item and leaves its ring; both rings stay well formed |
| `ConfigMerge.ReplaceItem` | meta-rockchip/recipes-devtools/rtl-tools/files/rtb_fwc.c:610-616 | Any other extra leaves its ring and takes the place of the item; both rings stay well formed |
| `ConfigMerge.ApplyExtra` | meta-rockchip/recipes-devtools/rtl-tools/files/rtb_fwc.c:599-619 | The inner loop: the item with the extra's offset, if there is one, is changed or replaced, and nothing else |
| `ConfigMerge.MergeExtra` | meta-rockchip/recipes-devtools/rtl-tools/files/rtb_fwc.c:596-621 | The same on both rings, whose items are every item with the extra applied, and the extras without it if it was taken |
| `ConfigMerge.MergeMatches` | meta-rockchip/recipes-devtools/rtl-tools/files/rtb_fwc.c:595-621 | The outer loop: the first ring holds every item folded with all extras, the second the extras with new offsets |
| `ConfigMerge.MoveRest` | meta-rockchip/recipes-devtools/rtl-tools/files/rtb_fwc.c:623-632 | The last loop: the rest of the second ring follows the first, and the second ends empty |
| `ConfigMerge.MergeConfigs` | meta-rockchip/recipes-devtools/rtl-tools/files/rtb_fwc.c:576-633 | When at most one item has the offset of any extra: both rings stay well formed; the first holds the original items in order, each folded in order with every extra of its offset, followed by the extras with new offsets in order; the second ends empty |
| `ConfigTlv.ParseEncoded` | meta-rockchip/recipes-devtools/rtl-tools/files/rtb_fwc.c:665-684 | Parsing the encoding of any list of items gives the list back |
| `ConfigTlv.EncodeParsed` | meta-rockchip/recipes-devtools/rtl-tools/files/rtb_fwc.c:665-684 | A body that items tile exactly is the encoding of those items |
| `ConfigTlv.WireParsed` | meta-rockchip/recipes-devtools/rtl-tools/files/rtb_fwc.c:639-687 | A list of items written to a file is accepted and parsed back if and only if its encoding has fewer than 65536 bytes |
| `ConfigTlv.ParsedWire` | meta-rockchip/recipes-devtools/rtl-tools/files/rtb_fwc.c:639-687 | An accepted file that items tile exactly is, byte for byte, what the writer makes of them |
| `ConfigTlv.WireBytes` | meta-rockchip/recipes-devtools/rtl-tools/files/rtb_fwc.c:1177-1188 | Byte by byte: a written file begins `55 ab 23 87`, tells, low byte first, how many bytes follow, and has every item where those before it end: offset, low byte first, length and data |
| `ConfigTlv.LengthExact` | meta-rockchip/recipes-devtools/rtl-tools/files/rtb_fwc.c:1102-1165 | The 16-bit config_len is the size of the file if and only if the file has fewer than 65536 bytes |
| `ConfigTlv.ParseConfig` | meta-rockchip/recipes-devtools/rtl-tools/files/rtb_fwc.c:639-687 | `rtb_parse_config`: -1 and an unchanged ring for an empty buffer, a wrong magic word or a wrong length; otherwise the items follow in the ring |
| `ConfigTlv.ParseBody` | meta-rockchip/recipes-devtools/rtl-tools/files/rtb_fwc.c:665-684 | Its loop |
| `ConfigTlv.ConfigLength` | meta-rockchip/recipes-devtools/rtl-tools/files/rtb_fwc.c:1102-1165 | Both 16-bit lengths, for every ring, wrap-around included |
| `ConfigTlv.WriteConfig` | meta-rockchip/recipes-devtools/rtl-tools/files/rtb_fwc.c:1102-1188 | The buffer of config_len bytes is filled, exactly, with magic word, length and the items of the ring |
| `ConfigTlv.ReadConfig` | meta-rockchip/recipes-devtools/rtl-tools/files/rtb_fwc.c:1088-1195 | From file to new file: the written buffer is that of the parsed items merged with the extras |
| `Cow.PlainWritten` | poky/bitbake/lib/bb/COW.py:54-59 | A plain write at a level changes the lookup of that key exactly at the levels below it that have no nearer plain attribute |
| `Cow.MutWritten` | poky/bitbake/lib/bb/COW.py:54-59 | The same for a mutable attribute |
| `Cow.Isolation` | poky/bitbake/lib/bb/COW.py:54-79 | An operation at a level changes nothing that its ancestors, its siblings or any level not below it look up |
| `Cow.GetNeutral` | poky/bitbake/lib/bb/COW.py:61-79 | A get, with or without the copy into the level, changes no lookup at any level |
| `Cow.SetMutVisible` | poky/bitbake/lib/bb/COW.py:54-59 | A mutable value that is set is looked up if and only if no plain value or deletion marker is found for its key |
| `Cow.SetPlainVisible` | poky/bitbake/lib/bb/COW.py:97-108 | A plain value that is set is looked up if and only if it is not the empty tuple, which deletes |
| `Cow.WriteExact` | poky/bitbake/lib/bb/COW.py:54-108 | At its own level a write changes every lookup as it changes the dictionary if and only if it stores neither the empty tuple nor a mutable value where a plain value or deletion marker is found |
| `Cow.StepAgrees` | poky/bitbake/lib/bb/COW.py:45-122 | Any allowed operation keeps every level equal to its eagerly copied dictionary |
| `Cow.RefinesEager` | poky/bitbake/lib/bb/COW.py:45-147 | After every allowed history of copy, set, delete, get and change in place, each level has the lookups, keys and items of an independent, eagerly copied dictionary |
| `Cow.YieldItems` | poky/bitbake/lib/bb/COW.py:124-147 | Iterating yields exactly the items of the dictionary, and an item twice if and only if its key has attributes of both kinds on the way up |
| `CowLevels.CowDict.Cow` | poky/bitbake/lib/bb/COW.py:45-52 | A new level below this one |
| `CowLevels.CowDict.GetPlain` | poky/bitbake/lib/bb/COW.py:92-93 | `getattr` of the key walks up the levels |
| `CowLevels.CowDict.GetAttr` | poky/bitbake/lib/bb/COW.py:68 | `getattr` of the mutable key walks up the levels |
| `CowLevels.CowDict.SetItem` | poky/bitbake/lib/bb/COW.py:54-59 | `__setitem__` |
| `CowLevels.CowDict.DelItem` | poky/bitbake/lib/bb/COW.py:107-108 | `__delitem__` sets the marker |
| `CowLevels.CowDict.GetMutable` | poky/bitbake/lib/bb/COW.py:61-79 | `__getmutable__`: the own object, or without readonly a fresh copy of the nearest one, now an attribute of this level |
| `CowLevels.CowDict.GetItem` | poky/bitbake/lib/bb/COW.py:89-105 | `__getitem__`: what it returns, its KeyError included, and that no lookup changes |
| `CowLevels.CowDict.HasKey` | poky/bitbake/lib/bb/COW.py:117-122 | `has_key` if and only if the lookup finds a value; nothing changes |
| `CowLevels.CowDict.IterItems` | poky/bitbake/lib/bb/COW.py:124-147 | The loop over what `dir` listed yields exactly what is looked up at its start, although without readonly each get copies values into the level; no lookup at any level changes |
| `CowLevels.CowDict.ChangeInPlace` | poky/bitbake/lib/bb/COW.py:61-105 | A value fetched and changed in place: only objects of this level are written |
| `CowLevels.GetThenAssign` | poky/bitbake/lib/bb/COW.py:61-79 | Changing a value in place is a get without readonly followed by a write at this level |
| `Settings.MergeAssociative` | meta-phosphor/recipes-phosphor/settings/phosphor-settings-manager/merge_settings.py:32-42 | Two overrides in turn are one override by their own merge, for all nested dicts, although a dict in the target keeps a leaf out |
| `Settings.MergeIdempotent` | meta-phosphor/recipes-phosphor/settings/phosphor-settings-manager/merge_settings.py:32-42 | The same override twice is the override once |
| `Settings.MergeAllOnce` | meta-phosphor/recipes-phosphor/settings/phosphor-settings-manager/merge_settings.py:56-61 | Any list of overrides in turn is one merge with what they make of an empty target |
| `Settings.MergePath` | meta-phosphor/recipes-phosphor/settings/phosphor-settings-manager/merge_settings.py:32-42 | Overriding, path by path: the override wins wherever it says anything, except that a dict takes it in; what it does not name stays, and nothing else appears |
| `Settings.LeafTakesEffect` | meta-phosphor/recipes-phosphor/settings/phosphor-settings-manager/merge_settings.py:35-41 | A leaf of the override takes effect if and only if the target has no dict at its path |
| `Settings.RemovePath` | meta-phosphor/recipes-phosphor/settings/phosphor-settings-manager/merge_settings.py:32-42 | Removing, path by path |
| `Settings.RemovedExactly` | meta-phosphor/recipes-phosphor/settings/phosphor-settings-manager/merge_settings.py:38-41 | A path to be removed is gone afterwards if and only if a leaf of the target lies on it |
| `Settings.RemoveAdds` | meta-phosphor/recipes-phosphor/settings/phosphor-settings-manager/merge_settings.py:38-41 | Removing an absent key adds it, and naming a dict by a leaf does not remove it, against the docstring at lines 24-26 |
| `Settings.MergeStep` | meta-phosphor/recipes-phosphor/settings/phosphor-settings-manager/merge_settings.py:34-41 | The turns of the loop over any keys, in any order, make the merge with that part of the source |
| `SettingsTree.PyDict.Put` | meta-phosphor/recipes-phosphor/settings/phosphor-settings-manager/merge_settings.py:41 | Assigning a key |
| `SettingsTree.PyDict.Pop` | meta-phosphor/recipes-phosphor/settings/phosphor-settings-manager/merge_settings.py:39 | Popping a key |
| `SettingsTree.DeepCopy` | meta-phosphor/recipes-phosphor/settings/phosphor-settings-manager/merge_settings.py:41 | `copy.deepcopy`: an equal tree of new dicts |
| `SettingsTree.MergeKey` | meta-phosphor/recipes-phosphor/settings/phosphor-settings-manager/merge_settings.py:35-41 | One turn of the loop |
| `SettingsTree.MergeChild` | meta-phosphor/recipes-phosphor/settings/phosphor-settings-manager/merge_settings.py:36 | The recursive call changes the value of its key in place and nothing else |
| `SettingsTree.DictMerge` | meta-phosphor/recipes-phosphor/settings/phosphor-settings-manager/merge_settings.py:14-42 | `dict_merge` leaves in the target, changed in place, exactly the merge of its old contents with the source; the source is not written, and everything added is new |

## Left out

- Serial port, epoll, timers, termios, ioctls, process start-up and signals: input and output. A send
  appends to `wire`; what epoll_wait reports in a wait, bytes or the timer, is an arbitrary parameter.
- Download.H5DownloadPatch: errors of the line, which end the process, are not modelled; nor is the
  switch of hardware flow control after the last packet.
- Download.H4DownloadPatch: the reading half of the driver; the byte it returns is a parameter.
- Download.DownloadPacket: the byte that comes back over H4 is a parameter.
- Download.H5HciReset: the wait for the completion of the reset is not modelled.
- Download.SendImage: images as for the whole download.
- Download.RtbDownloadFwc: the image is small enough that the 16-bit counters hold end_idx and the
  additional packets; `PatchPackets.CountPackets` gives their values beyond that. The wait for the
  completion of the reset, and the reset over H4, are not modelled.
- `start_transmit_wait`, with its own wait and retransmissions, is not modelled beyond the events of
  `HostRuns`, in which the host may build packets and receive bytes in any order.
- Runs.DamageRejected: damage that changes the CRC flag or the length is excluded, because the receiver
  accepts some of it; `Runs.DamageDecided` says exactly which.
- Answers.DownloadEnds: an answer arrives in one read, and before it nothing but timeouts.
- Buffers.SkBuff.Put: nothing is put after a pull, where `skb_put` would not see the bytes given up.
- Buffers.SkBuff.SlipMsgDelim: not after a pull either.
- Buffers.SkBuff.SlipOneByte: not after a pull either.
- Allocation always succeeds and `free` does nothing.
- ConfigMerge.MergeConfigs: at most one item may have the offset of an extra, because a second match
  would use the extra after it was freed or moved.
- ConfigMerge.ApplyExtra: the same.
- ConfigMerge.MergeExtra: the same.
- ConfigMerge.MergeMatches: the same.
- ConfigTlv.ParseConfig: a buffer of 1 to 5 bytes, and a body whose last item runs over its end, are
  excluded, because the source reads past the buffer there.
- ConfigTlv.ParseBody: a body whose last item runs over its end is excluded, as above.
- ConfigTlv.WriteConfig: a file of 65536 bytes or more is excluded, because the source writes past the
  buffer it sized with the wrapped length; `ConfigTlv.LengthExact` says when that happens.
- ConfigTlv.ReadConfig: files and results as for parser, merge and writer.
- `rtb_read_config` also takes baud rate and flow control from the items, and an address from another
  file; these change neither the lists nor the buffer.
- Cow.RefinesEager: a history may not write to a level that was copied, store the empty tuple, or set a
  mutable value where a plain one or a deletion marker is found. `Cow.WriteExact` shows that nothing less
  than the last two will do; `Cow.PlainWritten` and `Cow.MutWritten` say exactly which levels see a write.
- CowLevels.CowDict.SetItem: the object set is not one that another attribute refers to.
- `__revertitem__`, `COWSetMeta`, `iterkeys`, dictionaries nested as values, reserved attribute names and
  warnings of `COW.py`. Mutable values are flat and no two attributes share one.
- Loading and dumping YAML; anything that is not a dict is a leaf. Dicts that YAML aliases would share
  are separate trees, and the target is a dict.
- Chip tables, baud tables, vendor storage, firmware files, `brcm_patchram_plus1.c` and the rest of the
  repository.
