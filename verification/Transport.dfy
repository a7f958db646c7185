/** The three-wire transport as a state machine on values: what building a packet, receiving
    bytes and handing up a completed packet do to the connection. */
module Transport {
  import opened DataIntegrity
  import opened Slip
  import opened Options

  const H5_ACK_PKT := 0x00
  const HCI_COMMAND_PKT := 0x01
  const HCI_ACLDATA_PKT := 0x02
  const HCI_SCODATA_PKT := 0x03
  const HCI_EVENT_PKT := 0x04
  const H5_VDRSPEC_PKT := 0x0e
  const H5_LINK_CTL_PKT := 0x0f

  datatype RxState = W4Delimiter | W4Start | W4Hdr | W4Data | W4Crc

  datatype Link = Sync | Config | Init | Patch | HciReset | Active

  /** The decoder: buf is what rx_skb holds, empty while there is no rx_skb. */
  datatype Rx = Rx(state: RxState, count: nat, escaped: bool, crc: Word, buf: seq<byte>)

  /** What the controller has told about itself. */
  datatype Info = Info(hciVer: nat, hciRev: nat, lmpSubver: nat, eversion: nat, chipType: nat, chipVer: nat)

  /** The rest of the connection. log records the packets at the entry of h5_complete_rx_pkt,
      wire the bytes written back to the serial line, and exited that the process has ended. */
  datatype Host = Host(
    rxseqTxack: nat, rxack: nat, useCrc: bool, isTxackReq: bool, msgqTxseq: nat, link: Link,
    cmdOpcode: nat, cmdSuccess: bool, numOfCmdSent: nat, info: Info,
    txIndex: int, rxIndex: int, totalNum: int,
    log: seq<seq<byte>>, wire: seq<byte>, exited: bool)

  datatype H5 = H5(rx: Rx, host: Host)

  /** rtb_cfg after rtb_init has cleared it. */
  const INITIAL: H5 := H5(Rx(W4Delimiter, 0, false, CRC_INIT, []),
                          Host(0, 0, false, false, 0, Sync, 0, false, 0, Info(0, 0, 0, 0, 0, 0), 0, 0, 0,
                               [], [], false))

  predicate HostOk(h: Host) {
    h.rxseqTxack < 8 && h.msgqTxseq < 8
  }

  /** Past the exchange that brings the link up. */
  predicate Established(link: Link) {
    link != Sync && link != Config
  }

  /** How much has been buffered and how much is still expected, by state. */
  predicate RxOk(rx: Rx) {
    match rx.state
    case W4Delimiter => rx.count == 0 && rx.buf == []
    case W4Start => rx.count == 0 && rx.buf == []
    case W4Hdr => |rx.buf| + rx.count == 4 && (rx.escaped ==> rx.count > 0)
    case W4Data => |rx.buf| >= 4 && |rx.buf| + rx.count == 4 + HdrLen(rx.buf) && (rx.escaped ==> rx.count > 0)
    case W4Crc => |rx.buf| >= 4 && HdrCrc(rx.buf) && rx.count <= 2
                  && |rx.buf| + rx.count == 6 + HdrLen(rx.buf) && (rx.escaped ==> rx.count > 0)
  }

  predicate Ok(s: H5) {
    RxOk(s.rx) && HostOk(s.host)
  }

  // ----- building packets

  predicate Supported(kind: int) {
    kind in {H5_ACK_PKT, HCI_COMMAND_PKT, HCI_ACLDATA_PKT, HCI_EVENT_PKT, H5_VDRSPEC_PKT, H5_LINK_CTL_PKT}
  }

  predicate SentReliably(kind: int) {
    kind in {HCI_ACLDATA_PKT, HCI_COMMAND_PKT, HCI_EVENT_PKT}
  }

  function TxFields(h: Host, kind: nat, len: nat): (f: Fields)
    requires HostOk(h) && Supported(kind)
    ensures FieldsOk(f)
  {
    var rel := SentReliably(kind);
    Fields(h.rxseqTxack, rel, if rel then h.msgqTxseq else 0, h.useCrc, kind, len)
  }

  /** Header, payload and, when the header says so, check bytes. */
  function PacketBytes(f: Fields, payload: seq<byte>): seq<byte>
    requires FieldsOk(f)
  {
    var body := Header(f) + payload;
    if f.crc then body + CheckBytes(Crc(body)) else body
  }

  /** h5_prepare_pkt: the frame, if the packet type is known, and the connection after it. */
  function Prepare(h: Host, payload: seq<byte>, kind: int): (r: (Host, Option<seq<byte>>))
    requires HostOk(h)
    ensures HostOk(r.0)
  {
    if !Supported(kind) then (h, None)
    else
      var next := if SentReliably(kind) then (h.msgqTxseq + 1) % 8 else h.msgqTxseq;
      (h.(isTxackReq := false, msgqTxseq := next),
       Some(Frame(PacketBytes(TxFields(h, kind, |payload|), payload))))
  }

  /** The guard under which an unexpected number is adopted: during the download tx_index equals
      total_num. */
  predicate IndexAtTotal(h: Host) {
    h.link == Patch && h.txIndex == h.totalNum
  }

  /** Nothing that in-order reception depends on differs. */
  predicate SameNumbers(h: Host, r: Host) {
    r.rxseqTxack == h.rxseqTxack && r.msgqTxseq == h.msgqTxseq && r.log == h.log
    && r.txIndex == h.txIndex && r.totalNum == h.totalNum
    && (IndexAtTotal(r) ==> IndexAtTotal(h)) && (h.exited ==> r.exited)
  }

  /** rtb_send_ack. */
  function SendAck(h: Host): (r: Host)
    requires HostOk(h)
    ensures HostOk(r) && SameNumbers(h, r) && r.exited == h.exited && r.link == h.link && r.useCrc == h.useCrc
  {
    var (h', frame) := Prepare(h, [], H5_ACK_PKT);
    h'.(wire := h'.wire + frame.value)
  }

  // ----- completed packets

  /** The receive buffer is zeroed when allocated, so reading past its contents gives zero. */
  function At(buf: seq<byte>, i: nat): byte {
    if i < |buf| then buf[i] else 0
  }

  const SYNC_RESP_PKT: seq<byte> := [0xc0, 0x00, 0x2f, 0x00, 0xd0, 0x02, 0x7d, 0xc0]
  const CONF_RESP_PKT: seq<byte> := [0xc0, 0x00, 0x2f, 0x00, 0xd0, 0x04, 0x7b, 0xc0]

  /** h5_handle_internal_rx on a buffer whose packet, header included, ends at len. */
  function HandleInternal(h: Host, buf: seq<byte>, len: nat): (r: Host)
    requires HostOk(h)
    ensures HostOk(r) && SameNumbers(h, r) && r.exited == h.exited
  {
    var head := (At(buf, 4), At(buf, 5));
    if h.link == Sync then
      if head == (0x01, 0x7e) then h.(wire := h.wire + SYNC_RESP_PKT)
      else if head == (0x02, 0x7d) then h.(link := Config)
      else h
    else if h.link == Config then
      if head == (0x01, 0x7e) then h.(wire := h.wire + SYNC_RESP_PKT)
      else if head == (0x03, 0xfc) then h.(wire := h.wire + CONF_RESP_PKT)
      else if head == (0x04, 0x7b) then
        h.(link := Init, useCrc := if len > 6 then At(buf, 6) / 16 % 2 == 1 else h.useCrc)
      else SendAck(h)
    else h
  }

  const HCI_VENDOR_CHANGE_BAUD := 0xfc17
  const HCI_CMD_READ_BD_ADDR := 0x1009
  const HCI_CMD_READ_LOCAL_VER := 0x1001
  const HCI_VENDOR_READ_ROM_VER := 0xfc6d
  const HCI_VENDOR_READ_CHIP_TYPE := 0xfc61
  const HCI_CMD_RESET := 0x0c03

  predicate CountedOpcode(opcode: int) {
    opcode in {HCI_VENDOR_CHANGE_BAUD, HCI_CMD_READ_BD_ADDR, HCI_CMD_READ_LOCAL_VER,
               HCI_VENDOR_READ_ROM_VER, HCI_VENDOR_READ_CHIP_TYPE}
  }

  function EventOpcode(buf: seq<byte>): nat {
    (At(buf, 7) as int) + 256 * At(buf, 8)
  }

  /** skb_pull of the event header and of the command complete header: a payload shorter than
      their 5 bytes ends the process. */
  predicate PullFails(len: nat) {
    len < 9
  }

  /** A command complete event for the command in flight, with status 0. */
  predicate CompletesCommand(h: Host, buf: seq<byte>) {
    At(buf, 9) == 0 && h.cmdOpcode == EventOpcode(buf)
  }

  function EventWord(buf: seq<byte>, i: nat): nat {
    (At(buf, i) as int) + 256 * At(buf, i + 1)
  }

  /** What the parameters of a completed command tell, from the status byte at 9 on. */
  function Learned(info: Info, buf: seq<byte>): Info {
    match EventOpcode(buf)
    case 0x1001 => info.(hciVer := At(buf, 10), hciRev := EventWord(buf, 11), lmpSubver := EventWord(buf, 16))
    case 0xfc6d => info.(eversion := At(buf, 10))
    case 0xfc61 => info.(chipType := At(buf, 10) % 16, chipVer := At(buf, 11) % 16)
    case _ => info
  }

  /** h5_init_hci_cc. */
  function InitHciCc(h: Host, buf: seq<byte>, len: nat): (r: Host)
    ensures SameNumbers(h, r)
  {
    if PullFails(len) then h.(exited := true)
    else if !CompletesCommand(h, buf) then h
    else
      h.(cmdSuccess := true, info := Learned(h.info, buf),
         numOfCmdSent := if CountedOpcode(EventOpcode(buf)) then (h.numOfCmdSent + 1) % 0x10000 else h.numOfCmdSent)
  }

  /** h5_post_hci_cc. */
  function PostHciCc(h: Host, buf: seq<byte>, len: nat): (r: Host)
    ensures SameNumbers(h, r)
  {
    if PullFails(len) then h.(exited := true)
    else if !CompletesCommand(h, buf) then h
    else h.(cmdSuccess := true, link := if EventOpcode(buf) == HCI_CMD_RESET then Active else h.link)
  }

  /** hci_recv_frame. */
  function HciRecvFrame(h: Host, buf: seq<byte>, len: nat): (r: Host)
    ensures SameNumbers(h, r)
    ensures r.exited == (h.exited || (h.link in {Init, HciReset} && At(buf, 4) == 0x0e && PullFails(len)))
  {
    if h.link == Init then
      if At(buf, 4) == 0x0e then InitHciCc(h, buf, len) else h
    else if h.link == Patch then
      if At(buf, 4) != 0x0e then h
      else if At(buf, 10) / 128 % 2 == 1 then h.(rxIndex := At(buf, 10) % 128, link := HciReset)
      else h.(rxIndex := At(buf, 10))
    else if h.link == HciReset then
      if At(buf, 4) == 0x0e then PostHciCc(h, buf, len) else h
    else h
  }

  predicate PassedUp(kind: nat) {
    kind in {HCI_ACLDATA_PKT, HCI_EVENT_PKT, HCI_COMMAND_PKT, HCI_SCODATA_PKT}
  }

  /** Sequence and acknowledge numbers of a completed packet. */
  function NoteNumbers(h: Host, packet: seq<byte>): (r: Host)
    requires |packet| >= 4 && HostOk(h)
    ensures HostOk(r)
  {
    var h1 := h.(log := h.log + [packet], rxack := HdrAck(packet));
    if HdrReliable(packet) then h1.(rxseqTxack := (HdrSeq(packet) + 1) % 8, isTxackReq := true) else h1
  }

  function Dispatch(h: Host, buf: seq<byte>, len: nat): (r: Host)
    requires 4 <= len <= |buf| && HostOk(h)
    ensures HostOk(r) && SameNumbers(h, r)
  {
    var kind := HdrType(buf);
    if PassedUp(kind) then HciRecvFrame(h, buf, len)
    else if kind == H5_LINK_CTL_PKT then HandleInternal(h, buf, len)
    else h
  }

  /** h5_complete_rx_pkt: the packet is the first len bytes of the buffer. */
  function Complete(h: Host, buf: seq<byte>, len: nat): (r: Host)
    requires 4 <= len <= |buf| && HostOk(h)
    ensures HostOk(r)
  {
    var h2 := Dispatch(NoteNumbers(h, buf[..len]), buf, len);
    if !h2.exited && h2.isTxackReq then SendAck(h2) else h2
  }

  // ----- receiving

  function Dropped(rx: Rx, state: RxState): Rx {
    rx.(state := state, count := 0, buf := [])
  }

  /** One decoded byte enters the buffer, and the CRC if the packet has one and this is not it. */
  function Accept(rx: Rx, b: byte): (r: Rx)
    requires RxOk(rx) && rx.count > 0
    ensures RxOk(r)
  {
    var buf := rx.buf + [b];
    rx.(buf := buf, count := rx.count - 1, escaped := false,
        crc := if HdrCrc(buf) && rx.state != W4Crc then CrcUpdate(rx.crc, b) else rx.crc)
  }

  /** h5_unslip_one_byte. */
  function Unslip(rx: Rx, b: byte): (r: Rx)
    requires RxOk(rx) && rx.count > 0
    ensures RxOk(r)
  {
    if !rx.escaped then
      if b == ESCAPE then rx.(escaped := true) else Accept(rx, b)
    else
      match Unescape(b)
      case Some(c) => Accept(rx, c)
      case None => Dropped(rx, W4Delimiter)
  }

  predicate SeqExpected(h: Host, packet: seq<byte>)
    requires |packet| >= 4
  {
    HdrReliable(packet) ==> HdrSeq(packet) == h.rxseqTxack
  }

  /** An out-of-order header is dropped; while tx_index equals total_num its number is adopted. */
  function OutOfOrder(h: Host, seqno: nat): Host {
    h.(isTxackReq := true, rxseqTxack := if IndexAtTotal(h) then seqno else h.rxseqTxack)
  }

  function CheckHeader(s: H5): (r: H5)
    requires Ok(s) && s.rx.state == W4Hdr && s.rx.count == 0
    ensures Ok(r)
  {
    var hdr := s.rx.buf;
    if !HdrChecksumOk(hdr) then s.(rx := Dropped(s.rx, W4Delimiter))
    else if !SeqExpected(s.host, hdr) then
      H5(Dropped(s.rx, W4Delimiter), OutOfOrder(s.host, HdrSeq(hdr)))
    else s.(rx := s.rx.(state := W4Data, count := HdrLen(hdr)))
  }

  function CompletePacket(s: H5, len: nat): (r: H5)
    requires Ok(s) && 4 <= len <= |s.rx.buf|
    ensures Ok(r)
  {
    H5(s.rx.(state := W4Delimiter, count := 0, buf := []), Complete(s.host, s.rx.buf, len))
  }

  function DataComplete(s: H5): (r: H5)
    requires Ok(s) && s.rx.state == W4Data && s.rx.count == 0
    ensures Ok(r)
  {
    if HdrCrc(s.rx.buf) then s.(rx := s.rx.(state := W4Crc, count := 2)) else CompletePacket(s, |s.rx.buf|)
  }

  function CheckCrc(s: H5): (r: H5)
    requires Ok(s) && s.rx.state == W4Crc && s.rx.count == 0
    ensures Ok(r)
  {
    var n := |s.rx.buf|;
    if CrcMatches(s.rx.crc, s.rx.buf[n - 2], s.rx.buf[n - 1]) then CompletePacket(s, n - 2)
    else s.(rx := Dropped(s.rx, W4Delimiter))
  }

  /** The decoder in front of a packet: a header of four bytes, an empty buffer. */
  const FRESH: Rx := Rx(W4Hdr, 4, false, CRC_INIT, [])

  /** One pass of the loop of h5_recv with b the next byte: the new state, and whether the pass
      consumed b. */
  function Pass(s: H5, b: byte): (r: (H5, bool))
    requires Ok(s)
    ensures Ok(r.0)
  {
    if s.rx.count > 0 then
      (s.(rx := if b == DELIMITER then Dropped(s.rx, W4Start) else Unslip(s.rx, b)), true)
    else
      match s.rx.state
      case W4Hdr => (CheckHeader(s), false)
      case W4Data => (DataComplete(s), false)
      case W4Crc => (CheckCrc(s), false)
      case W4Delimiter => (if b == DELIMITER then s.(rx := s.rx.(state := W4Start)) else s, true)
      case W4Start =>
        if b == DELIMITER then (s, true)
        else (s.(rx := FRESH), false)
  }

  /** Passes that can still happen before a byte is consumed. */
  function Rank(rx: Rx): nat {
    if rx.count > 0 then 0
    else
      match rx.state
      case W4Delimiter => 0
      case W4Start => 1
      case W4Crc => 1
      case W4Data => 2
      case W4Hdr => 3
  }

  /** h5_recv: passes until the bytes are used up or the process has ended. */
  function Recv(s: H5, data: seq<byte>): (r: H5)
    requires Ok(s)
    ensures Ok(r)
    decreases |data|, Rank(s.rx)
  {
    if data == [] || s.host.exited then s
    else
      var (t, consumed) := Pass(s, data[0]);
      Recv(t, if consumed then data[1..] else data)
  }
}
