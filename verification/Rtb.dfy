/** struct rtb_struct and the functions of hciattach_rtk.c that work on it, each refining its
    function on values in Transport. */
module Rtb {
  import opened DataIntegrity
  import opened Slip
  import opened Buffers
  import opened Transport
  import opened Reception
  import opened Options

  const H5_HDR_SIZE := 4
  const RX_BUFFER_SIZE := 0x1005

  /** skb holds buf, and the packet in it ends at len. */
  ghost predicate Unread(skb: SkBuff, buf: seq<byte>, len: nat)
    reads skb, skb.mem
  {
    skb.Valid() && skb.maxLen == RX_BUFFER_SIZE && 4 <= len <= |buf| <= RX_BUFFER_SIZE
    && skb.head == 0 && skb.dataLen == len
    && forall i :: 0 <= i < RX_BUFFER_SIZE ==> skb.mem[i] == At(buf, i)
  }

  /** skb holds buf, read from the offset of its payload; len is where the packet in it ends. */
  ghost predicate Holds(skb: SkBuff, buf: seq<byte>, len: nat)
    reads skb, skb.mem
  {
    skb.Valid() && skb.maxLen == RX_BUFFER_SIZE && 4 <= len <= |buf| <= RX_BUFFER_SIZE
    && skb.head == H5_HDR_SIZE && skb.dataLen == len - H5_HDR_SIZE
    && forall i :: 0 <= i < RX_BUFFER_SIZE ==> skb.mem[i] == At(buf, i)
  }

  lemma HeaderMacros(h: Host, buf: seq<byte>)
    requires |buf| == 4
    ensures HdrChecksumOk(buf) == (255 - (buf[0] as int + buf[1] + buf[2]) % 256 == buf[3])
    ensures SeqExpected(h, buf) == !(buf[0] / 128 % 2 == 1 && buf[0] % 8 != h.rxseqTxack)
    ensures HdrSeq(buf) == buf[0] % 8 && HdrLen(buf) == buf[1] / 16 + (buf[2] as int) * 16
  {}

  lemma RoomForByte(rx: Rx)
    requires RxOk(rx) && rx.count > 0
    ensures |rx.buf| < RX_BUFFER_SIZE
  {}

  lemma CrcOfNothing()
    ensures Crc([]) == CRC_INIT
  {}

  lemma EncodeStep(done: seq<byte>, bytes: seq<byte>, i: nat)
    requires i < |bytes|
    ensures Encode(done + bytes[..i + 1]) == Encode(done + bytes[..i]) + SlipByte(bytes[i])
    ensures Crc(done + bytes[..i + 1]) == CrcUpdate(Crc(done + bytes[..i]), bytes[i])
  {
    var so := done + bytes[..i + 1];
    assert so[..|so| - 1] == done + bytes[..i] && so[|so| - 1] == bytes[i];
    hide SlipByte, CrcUpdate;
  }

  class RtbStruct {
    var rxseqTxack: nat
    var rxack: nat
    var useCrc: bool
    var isTxackReq: bool
    var msgqTxseq: nat
    var messageCrc: Word
    var rxCount: nat
    var rxState: RxState
    var rxEscaped: bool
    var link: Link
    var rxSkb: SkBuff?
    var numOfCmdSent: nat
    var info: Info
    var cmdOpcode: nat
    var cmdSuccess: bool
    var totalNum: int
    var txIndex: int
    var rxIndex: int
    /** The bytes written to serial_fd, and whether exit was called. */
    var wire: seq<byte>
    var exited: bool
    /** The packets at the entry of h5_complete_rx_pkt. */
    ghost var log: seq<seq<byte>>

    ghost function HostState(): Host
      reads this
    {
      Host(rxseqTxack, rxack, useCrc, isTxackReq, msgqTxseq, link, cmdOpcode, cmdSuccess, numOfCmdSent, info,
           txIndex, rxIndex, totalNum, log, wire, exited)
    }

    ghost function Footprint(): set<object>
      reads this
    {
      if rxSkb == null then {} else {rxSkb, rxSkb.mem}
    }

    ghost predicate SkbOk()
      reads this, Footprint()
    {
      rxSkb != null ==>
        rxSkb.Valid() && rxSkb.head == 0 && rxSkb.maxLen == RX_BUFFER_SIZE && rxSkb.RestZero()
    }

    ghost function RxOf(): Rx
      reads this, Footprint()
      requires SkbOk()
    {
      Rx(rxState, rxCount, rxEscaped, messageCrc, if rxSkb == null then [] else rxSkb.Contents())
    }

    ghost function State(): H5
      reads this, Footprint()
      requires SkbOk()
    {
      H5(RxOf(), HostState())
    }

    ghost predicate Valid(): (valid: bool)
      reads this, Footprint()
      ensures valid ==> SkbOk() && Ok(State())
    {
      SkbOk() && Ok(State()) && (rxSkb == null <==> rxState in {W4Delimiter, W4Start})
    }

    /** The cleared structure of rtb_init. */
    constructor ()
      ensures Valid() && Footprint() == {}
      ensures State() == INITIAL
    {
      rxseqTxack, rxack, useCrc, isTxackReq, msgqTxseq := 0, 0, false, false, 0;
      messageCrc, rxCount, rxState, rxEscaped, link, rxSkb := CRC_INIT, 0, W4Delimiter, false, Sync, null;
      numOfCmdSent, cmdOpcode, cmdSuccess, totalNum, txIndex, rxIndex := 0, 0, false, 0, 0, 0;
      info, wire, exited, log := Info(0, 0, 0, 0, 0, 0), [], false, [];
    }

    // ----- sending

    /** h5_prepare_pkt. */
    method PreparePkt(data: seq<byte>, pktType: int) returns (nskb: SkBuff?)
      requires HostOk(HostState())
      modifies this`isTxackReq, this`msgqTxseq
      ensures HostState() == Prepare(old(HostState()), data, pktType).0
      ensures nskb == null <==> Prepare(old(HostState()), data, pktType).1.None?
      ensures nskb != null ==>
                fresh(nskb) && fresh(nskb.mem) && nskb.Valid()
                && Prepare(old(HostState()), data, pktType).1 == Some(nskb.Contents())
    {
      hide Header, Frame, PacketBytes;
      var rel: bool;
      match pktType
      {
        case 0x02 => rel := true;
        case 0x01 => rel := true;
        case 0x04 => rel := true;
        case 0x00 => rel := false;
        case 0x0e => rel := false;
        case 0x0f => rel := false;
        case _ => return null;
      }
      ghost var f := TxFields(HostState(), pktType, |data|);
      nskb := new SkBuff((|data| + 6) * 2 + 2);
      var ok := nskb.SlipMsgDelim();
      assert ok;
      var hdr := BuildHeader(|data|, pktType, rel);
      EncodePacket(nskb, hdr, data, f);
    }

    /** The encoding part of h5_prepare_pkt: header, payload, check bytes, final delimiter. */
    method EncodePacket(nskb: SkBuff, hdr: seq<byte>, data: seq<byte>, ghost f: Fields)
      requires nskb.Valid() && nskb.head == 0 && nskb.Contents() == [DELIMITER]
      requires nskb.maxLen == (|data| + 6) * 2 + 2
      requires FieldsOk(f) && hdr == Header(f) && f.crc == useCrc
      modifies nskb`dataLen, nskb.mem
      ensures nskb.Valid() && nskb.Contents() == Frame(PacketBytes(f, data))
    {
      hide Header, CheckBytes, CrcUpdate, SlipByte, Crc;
      assert [DELIMITER] + Encode([]) == [DELIMITER] && [] + hdr == hdr;
      assert Crc([]) == CRC_INIT by { CrcOfNothing(); }
      var crc := EncodeBytes(nskb, hdr, [], CRC_INIT);
      crc := EncodeBytes(nskb, data, hdr, crc);
      if useCrc {
        var check := CheckBytes(crc);
        var _ := EncodeBytes(nskb, check, hdr + data, crc);
      }
      var ok := nskb.SlipMsgDelim();
      assert ok;
    }

    /** The header of h5_prepare_pkt, and the sequence number it takes. */
    method BuildHeader(len: nat, pktType: nat, rel: bool) returns (hdr: seq<byte>)
      requires HostOk(HostState()) && Supported(pktType) && rel == SentReliably(pktType)
      modifies this`isTxackReq, this`msgqTxseq
      ensures hdr == Header(TxFields(old(HostState()), pktType, len)) && |hdr| == 4
      ensures HostState() == old(HostState()).(
                isTxackReq := false, msgqTxseq := if rel then (old(msgqTxseq) + 1) % 8 else old(msgqTxseq))
    {
      var h0 := rxseqTxack * 8;
      isTxackReq := false;
      if rel {
        h0 := h0 + 0x80 + msgqTxseq;
        msgqTxseq := (msgqTxseq + 1) % 8;
      }
      if useCrc { h0 := h0 + 0x40; }
      var h1 := len * 16 % 256 + pktType;
      var h2 := len / 16 % 256;
      LowNibbleUp(len);
      hdr := [h0, h1, h2, 255 - (h0 + h1 + h2) % 256];
    }

    /** One encoding loop of h5_prepare_pkt: appends bytes after the encoding of done. */
    method EncodeBytes(nskb: SkBuff, bytes: seq<byte>, ghost done: seq<byte>, crc0: Word) returns (crc: Word)
      requires nskb.Valid() && nskb.head == 0 && nskb.Contents() == [DELIMITER] + Encode(done)
      requires 2 * |done + bytes| + 1 <= nskb.maxLen
      requires crc0 == if useCrc then Crc(done) else CRC_INIT
      modifies nskb`dataLen, nskb.mem
      ensures nskb.Valid() && nskb.Contents() == [DELIMITER] + Encode(done + bytes)
      ensures crc == if useCrc then Crc(done + bytes) else CRC_INIT
    {
      crc := crc0;
      assert done + bytes[..0] == done;
      for i := 0 to |bytes|
        invariant nskb.Valid() && nskb.Contents() == [DELIMITER] + Encode(done + bytes[..i])
        invariant crc == if useCrc then Crc(done + bytes[..i]) else CRC_INIT
      {
        hide *;
        EncodeStep(done, bytes, i);
        var ok := nskb.SlipOneByte(bytes[i]);
        assert ok;
        Assoc([DELIMITER], Encode(done + bytes[..i]), SlipByte(bytes[i]));
        if useCrc { crc := CrcUpdate(crc, bytes[i]); }
      }
      assert done + bytes[..|bytes|] == done + bytes;
    }

    /** rtb_send_ack. */
    method RtbSendAck()
      requires HostOk(HostState())
      modifies this`isTxackReq, this`msgqTxseq, this`wire
      ensures HostState() == SendAck(old(HostState()))
    {
      var _ := WritePkt([], H5_ACK_PKT);
    }

    /** Builds a packet and writes its frame to the line. */
    method WritePkt(data: seq<byte>, pktType: int) returns (bytes: seq<byte>)
      requires HostOk(HostState()) && Supported(pktType)
      modifies this`isTxackReq, this`msgqTxseq, this`wire
      ensures var (h, frame) := Prepare(old(HostState()), data, pktType);
              bytes == frame.value && HostState() == h.(wire := h.wire + bytes)
    {
      hide Frame, PacketBytes, TxFields;
      var nskb := PreparePkt(data, pktType);
      bytes := nskb.mem[nskb.head..nskb.head + nskb.dataLen];
      wire := wire + bytes;
    }

    // ----- completed packets

    /** h5_handle_internal_rx. */
    method HandleInternalRx(skb: SkBuff, ghost buf: seq<byte>, ghost len: nat)
      requires HostOk(HostState()) && Holds(skb, buf, len)
      modifies this`isTxackReq, this`msgqTxseq, this`wire, this`link, this`useCrc
      ensures HostState() == HandleInternal(old(HostState()), buf, len)
    {
      var d0, d1, d2 := skb.mem[skb.head], skb.mem[skb.head + 1], skb.mem[skb.head + 2];
      if link == Sync {
        if d0 == 0x01 && d1 == 0x7e {
          wire := wire + [0xc0, 0x00, 0x2f, 0x00, 0xd0, 0x02, 0x7d, 0xc0];
        } else if d0 == 0x02 && d1 == 0x7d {
          link := Config;
        }
      } else if link == Config {
        if d0 == 0x01 && d1 == 0x7e {
          wire := wire + [0xc0, 0x00, 0x2f, 0x00, 0xd0, 0x02, 0x7d, 0xc0];
        } else if d0 == 0x03 && d1 == 0xfc {
          wire := wire + [0xc0, 0x00, 0x2f, 0x00, 0xd0, 0x04, 0x7b, 0xc0];
        } else if d0 == 0x04 && d1 == 0x7b {
          link := Init;
          if skb.dataLen > 2 { useCrc := d2 / 16 % 2 == 1; }
        } else {
          RtbSendAck();
        }
      }
    }

    /** The part of h5_init_hci_cc and h5_post_hci_cc that they share: pulls the headers and
        checks status and opcode. */
    method CommandComplete(skb: SkBuff, ghost buf: seq<byte>, ghost len: nat) returns (done: bool, opcode: nat)
      requires Holds(skb, buf, len)
      modifies this`cmdSuccess, this`exited, skb`head, skb`dataLen
      ensures done == (!PullFails(len) && CompletesCommand(old(HostState()), buf))
      ensures done ==> opcode == EventOpcode(buf) && skb.head == 9
      ensures HostState() == if PullFails(len) then old(HostState()).(exited := true)
                             else if done then old(HostState()).(cmdSuccess := true)
                             else old(HostState())
    {
      done, opcode := false, 0;
      var ok := skb.Pull(2);
      if !ok { exited := true; return; }
      opcode := (skb.mem[skb.head + 1] as int) + 256 * (skb.mem[skb.head + 2] as int);
      ok := skb.Pull(3);
      if !ok { exited := true; return; }
      var status := skb.mem[skb.head];
      if status != 0 || cmdOpcode != opcode { return; }
      cmdSuccess := true;
      done := true;
    }

    /** h5_init_hci_cc. */
    method H5InitHciCc(skb: SkBuff, ghost buf: seq<byte>, ghost len: nat)
      requires Holds(skb, buf, len)
      modifies this`cmdSuccess, this`exited, this`numOfCmdSent, this`info, skb`head, skb`dataLen
      ensures HostState() == InitHciCc(old(HostState()), buf, len)
    {
      var done, opcode := CommandComplete(skb, buf, len);
      if !done { return; }
      match opcode
      {
        case 0xfc17 =>
        case 0x1009 =>
        case 0x1001 =>
          info := info.(hciVer := skb.mem[skb.head + 1],
                        hciRev := (skb.mem[skb.head + 2] as int) + 256 * (skb.mem[skb.head + 3] as int),
                        lmpSubver := (skb.mem[skb.head + 7] as int) + 256 * (skb.mem[skb.head + 8] as int));
        case 0xfc6d => info := info.(eversion := skb.mem[skb.head + 1]);
        case 0xfc61 => info := info.(chipType := skb.mem[skb.head + 1] % 16, chipVer := skb.mem[skb.head + 2] % 16);
        case _ => return;
      }
      numOfCmdSent := (numOfCmdSent + 1) % 0x10000;
    }

    /** h5_post_hci_cc. */
    method H5PostHciCc(skb: SkBuff, ghost buf: seq<byte>, ghost len: nat)
      requires Holds(skb, buf, len)
      modifies this`cmdSuccess, this`exited, this`link, skb`head, skb`dataLen
      ensures HostState() == PostHciCc(old(HostState()), buf, len)
    {
      var done, opcode := CommandComplete(skb, buf, len);
      if done && opcode == HCI_CMD_RESET { link := Active; }
    }

    /** hci_recv_frame. */
    method RecvFrame(skb: SkBuff, ghost buf: seq<byte>, ghost len: nat)
      requires Holds(skb, buf, len)
      modifies this`cmdSuccess, this`exited, this`link, this`numOfCmdSent, this`info, this`rxIndex,
               skb`head, skb`dataLen
      ensures HostState() == HciRecvFrame(old(HostState()), buf, len)
    {
      var event := skb.mem[skb.head];
      if link == Init {
        if event == 0x0e { H5InitHciCc(skb, buf, len); }
      } else if link == Patch {
        if event != 0x0e { return; }
        rxIndex := skb.mem[skb.head + 6];
        if rxIndex / 128 % 2 == 1 {
          rxIndex := rxIndex % 128;
          link := HciReset;
        }
      } else if link == HciReset {
        if event == 0x0e { H5PostHciCc(skb, buf, len); }
      }
    }

    /** h5_complete_rx_pkt; buf is all that rx_skb has received, check bytes included. */
    method CompleteRxPkt(ghost buf: seq<byte>)
      requires HostOk(HostState()) && rxSkb != null && Unread(rxSkb, buf, rxSkb.dataLen)
      modifies this, rxSkb
      ensures rxSkb == null && rxState == W4Delimiter && rxCount == old(rxCount)
      ensures rxEscaped == old(rxEscaped) && messageCrc == old(messageCrc)
      ensures HostState() == Complete(old(HostState()), buf, old(rxSkb.dataLen))
    {
      hide NoteNumbers, Dispatch, SendAck;
      ghost var len := rxSkb.dataLen;
      NoteRxNumbers(buf, len);
      DispatchRxPkt(buf, len);
      AckIfAsked();
      rxState := W4Delimiter;
      rxSkb := null;
    }

    /** The acknowledgement at the end of h5_complete_rx_pkt. */
    method AckIfAsked()
      requires HostOk(HostState())
      modifies this`isTxackReq, this`msgqTxseq, this`wire
      ensures var h := old(HostState());
              HostState() == if !h.exited && h.isTxackReq then SendAck(h) else h
    {
      if !exited && isTxackReq {
        RtbSendAck();
        isTxackReq := false;
      }
    }

    /** The first part of h5_complete_rx_pkt. */
    method NoteRxNumbers(ghost buf: seq<byte>, ghost len: nat)
      requires HostOk(HostState()) && rxSkb != null && Unread(rxSkb, buf, len)
      modifies this`log, this`rxseqTxack, this`isTxackReq, this`rxack
      ensures HostState() == NoteNumbers(old(HostState()), buf[..len])
    {
      assert rxSkb.mem[..len] == buf[..len];
      log := log + [rxSkb.mem[..len]];
      var h0 := rxSkb.mem[0];
      if h0 / 128 % 2 == 1 {
        rxseqTxack := (h0 % 8 + 1) % 8;
        isTxackReq := true;
      }
      rxack := h0 / 8 % 8;
    }

    /** The middle part of h5_complete_rx_pkt. */
    method DispatchRxPkt(ghost buf: seq<byte>, ghost len: nat)
      requires HostOk(HostState()) && rxSkb != null && Unread(rxSkb, buf, len)
      modifies this`isTxackReq, this`msgqTxseq, this`wire, this`link, this`useCrc,
               this`cmdSuccess, this`exited, this`numOfCmdSent, this`info, this`rxIndex, rxSkb`head, rxSkb`dataLen
      ensures HostState() == Dispatch(old(HostState()), buf, len)
    {
      var kind := rxSkb.mem[1] % 16;
      var passUp := true;
      match kind
      {
        case 0x02 => passUp := true;
        case 0x04 => passUp := true;
        case 0x01 => passUp := true;
        case 0x03 => passUp := true;
        case 0x0f =>
          passUp := false;
          var _ := rxSkb.Pull(H5_HDR_SIZE);
          HandleInternalRx(rxSkb, buf, len);
        case _ => passUp := false;
      }
      if passUp {
        var _ := rxSkb.Pull(H5_HDR_SIZE);
        RecvFrame(rxSkb, buf, len);
      }
    }

    // ----- receiving

    /** The footprint has only lost objects or gained new ones. */
    twostate predicate FootprintKept()
      reads this
    {
      forall o :: o in Footprint() ==> o in old(Footprint()) || !old(allocated(o))
    }

    /** The step of h5_unslip_one_byte that stores a decoded byte: in a valid state there is room. */
    method StoreByte(b: byte)
      requires SkbOk() && rxSkb != null && RxOk(RxOf()) && rxCount > 0
      modifies this`rxCount, this`messageCrc, this`rxEscaped, rxSkb`dataLen, rxSkb.mem
      ensures SkbOk() && RxOf() == Accept(old(RxOf()), b)
    {
      RoomForByte(RxOf());
      hide CrcUpdate, RxOk, HdrCrc, SkbOk, RxOf;
      PutByte(b);
      TrackCrc(b);
      CountByte();
    }

    /** The skb_put of h5_unslip_one_byte. */
    method PutByte(b: byte)
      requires SkbOk() && rxSkb != null && |RxOf().buf| < RX_BUFFER_SIZE
      modifies rxSkb`dataLen, rxSkb.mem
      ensures SkbOk() && RxOf() == old(RxOf()).(buf := old(RxOf().buf) + [b])
    {
      var ok := rxSkb.Put([b]);
      assert ok;
    }

    /** The CRC step of h5_unslip_one_byte. */
    method TrackCrc(b: byte)
      requires SkbOk() && rxSkb != null && RxOf().buf != []
      modifies this`messageCrc
      ensures SkbOk()
      ensures var rx := old(RxOf());
              RxOf() == rx.(crc := if HdrCrc(rx.buf) && rx.state != W4Crc then CrcUpdate(rx.crc, b) else rx.crc)
    {
      hide CrcUpdate;
      assert rxSkb.Contents()[0] == rxSkb.mem[0];
      if rxSkb.mem[0] / 64 % 2 == 1 && rxState != W4Crc {
        messageCrc := CrcUpdate(messageCrc, b);
      }
    }

    /** The end of the step. */
    method CountByte()
      requires SkbOk() && rxCount > 0
      modifies this`rxCount, this`rxEscaped
      ensures SkbOk() && RxOf() == old(RxOf()).(escaped := false, count := old(rxCount) - 1)
    {
      rxEscaped, rxCount := false, rxCount - 1;
    }

    /** h5_unslip_one_byte. */
    method UnslipOneByte(b: byte)
      requires Valid() && rxCount > 0
      modifies this, Footprint()
      ensures Valid() && FootprintKept()
      ensures State() == old(State()).(rx := Unslip(old(State()).rx, b))
    {
      hide Accept;
      if !rxEscaped {
        if b == 0xdb { rxEscaped := true; } else { StoreByte(b); }
      } else {
        match b
        case 0xdc => StoreByte(0xc0);
        case 0xdd => StoreByte(0xdb);
        case 0xde => StoreByte(0x11);
        case 0xdf => StoreByte(0x13);
        case _ =>
          Drop(W4Delimiter);
      }
    }

    /** Gives the packet up. */
    method Drop(state: RxState)
      requires Valid() && state in {W4Delimiter, W4Start}
      modifies this`rxSkb, this`rxState, this`rxCount
      ensures Valid() && FootprintKept() && State() == old(State()).(rx := Dropped(old(State()).rx, state))
    {
      rxSkb := null;
      rxState, rxCount := state, 0;
    }

    /** Gets ready for the header of a packet. */
    method StartPacket()
      requires Valid()
      modifies this`rxSkb, this`rxState, this`rxCount, this`rxEscaped, this`messageCrc
      ensures SkbOk() && FootprintKept() && rxSkb != null && RxOf() == FRESH
    {
      rxState, rxCount, rxEscaped, messageCrc := W4Hdr, 4, false, CRC_INIT;
      rxSkb := new SkBuff(RX_BUFFER_SIZE);
    }

    /** The header check of h5_recv. */
    method CheckRxHeader()
      requires Valid() && rxState == W4Hdr && rxCount == 0
      modifies this
      ensures Valid() && FootprintKept() && State() == CheckHeader(old(State()))
    {
      ghost var s := State();
      var h0, h1, h2, h3 := rxSkb.mem[0], rxSkb.mem[1], rxSkb.mem[2], rxSkb.mem[3];
      HeaderMacros(s.host, s.rx.buf);
      assert s.rx.buf == [h0, h1, h2, h3];
      hide HdrChecksumOk, SeqExpected, HdrSeq, HdrLen, Valid, State, Ok, OutOfOrder;
      if 255 - (h0 as int + h1 + h2) % 256 != h3 {
        Drop(W4Delimiter);
      } else if h0 / 128 % 2 == 1 && h0 % 8 != rxseqTxack {
        RefuseHeader(h0 % 8);
      } else {
        ExpectData(h1 / 16 + (h2 as int) * 16);
      }
    }

    /** The branch of an unexpected sequence number. */
    method RefuseHeader(seqno: nat)
      requires Valid() && seqno < 8
      modifies this`rxSkb, this`rxState, this`rxCount, this`isTxackReq, this`rxseqTxack
      ensures Valid() && FootprintKept()
      ensures State() == H5(Dropped(old(State()).rx, W4Delimiter), OutOfOrder(old(State()).host, seqno))
    {
      isTxackReq := true;
      Drop(W4Delimiter);
      if link == Patch && txIndex == totalNum { rxseqTxack := seqno; }
    }

    /** The branch of an accepted header. */
    method ExpectData(len: nat)
      requires Valid() && rxState == W4Hdr && rxCount == 0 && len == HdrLen(RxOf().buf)
      modifies this`rxState, this`rxCount
      ensures Valid() && FootprintKept()
      ensures State() == old(State()).(rx := old(State()).rx.(state := W4Data, count := len))
    {
      rxState := W4Data;
      rxCount := len;
    }

    /** What h5_recv does once the payload is complete. */
    method CheckRxData()
      requires Valid() && rxState == W4Data && rxCount == 0
      modifies this, rxSkb
      ensures Valid() && FootprintKept() && State() == DataComplete(old(State()))
    {
      BufferBound(State());
      ghost var buf := rxSkb.Contents();
      var h0 := rxSkb.mem[0];
      assert h0 == buf[0];
      if h0 / 64 % 2 == 1 {
        rxState := W4Crc;
        rxCount := 2;
      } else {
        hide Complete;
        CompleteRxPkt(buf);
      }
    }

    /** What h5_recv does once the check bytes are complete. */
    method CheckRxCrc()
      requires Valid() && rxState == W4Crc && rxCount == 0
      modifies this, rxSkb
      ensures Valid() && FootprintKept() && State() == CheckCrc(old(State()))
    {
      BufferBound(State());
      hide BitRev16, GetCrc, Complete;
      ghost var buf := rxSkb.Contents();
      var n := rxSkb.dataLen;
      assert rxSkb.mem[n - 2] == buf[n - 2] && rxSkb.mem[n - 1] == buf[n - 1];
      if BitRev16(messageCrc) != GetCrc(rxSkb.mem[n - 2], rxSkb.mem[n - 1]) {
        Drop(W4Delimiter);
      } else {
        rxSkb.Trim(n - 2);
        CompleteRxPkt(buf);
      }
    }

    /** One pass of the loop of h5_recv. */
    method RecvPass(b: byte) returns (consumed: bool)
      requires Valid()
      modifies this, Footprint()
      ensures Valid() && FootprintKept()
      ensures (State(), consumed) == Pass(old(State()), b)
    {
      hide CheckHeader, DataComplete, CheckCrc, Unslip, Dropped;
      if rxCount > 0 {
        if b == 0xc0 {
          Drop(W4Start);
        } else {
          UnslipOneByte(b);
        }
        return true;
      }
      match rxState
      case W4Hdr => CheckRxHeader(); consumed := false;
      case W4Data => CheckRxData(); consumed := false;
      case W4Crc => CheckRxCrc(); consumed := false;
      case W4Delimiter =>
        if b == 0xc0 { rxState := W4Start; }
        consumed := true;
      case W4Start =>
        if b == 0xc0 {
          consumed := true;
        } else {
          StartPacket();
          consumed := false;
        }
    }

    /** h5_recv. */
    method Recv(data: seq<byte>)
      requires Valid()
      modifies this, Footprint()
      ensures Valid() && FootprintKept()
      ensures State() == Transport.Recv(old(State()), data)
    {
      var ptr := 0;
      while ptr < |data| && !exited
        invariant 0 <= ptr <= |data| && Valid() && FootprintKept()
        invariant Transport.Recv(State(), data[ptr..]) == Transport.Recv(old(State()), data)
        decreases |data| - ptr, Rank(RxOf())
      {
        ghost var s := State();
        PassProgress(s, data[ptr]);
        var consumed := RecvPass(data[ptr]);
        hide Pass, Ok;
        assert data[ptr..][1..] == data[ptr + 1..];
        if consumed { ptr := ptr + 1; }
      }
    }
  }
}
