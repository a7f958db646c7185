/** Known frames: what is written and read, byte by byte. */
module KnownFrames {
  import opened DataIntegrity
  import opened Slip
  import opened Transport
  import opened Reception
  import opened Delivery
  import opened Runs
  import opened Acknowledgements
  import opened LinkUp
  import opened KnownAnswers

  /** The four bytes of a header whose checksum holds add up to all ones. */
  lemma HeaderSum(w: seq<byte>)
    requires |w| >= 4
    ensures HdrChecksumOk(w) <==> (w[0] as int + w[1] as int + w[2] as int + w[3] as int) % 0x100 == 0xff
  {}

  /** Every byte that is escaped, and how. */
  lemma EscapesKnown()
    ensures Encode([0xc0, 0xdb, 0x11, 0x13]) == [0xdb, 0xdc, 0xdb, 0xdd, 0xdb, 0xde, 0xdb, 0xdf]
  {
    EncodeOne(0xc0);
    EncodeOne(0xdb);
    EncodeOne(0x11);
    EncodeOne(0x13);
    assert SlipByte(0xc0) == [0xdb, 0xdc] && SlipByte(0xdb) == [0xdb, 0xdd];
    assert SlipByte(0x11) == [0xdb, 0xde] && SlipByte(0x13) == [0xdb, 0xdf];
    hide Encode, SlipByte;
    var a: seq<byte>, b: seq<byte>, c: seq<byte>, d: seq<byte> := [0xc0], [0xdb], [0x11], [0x13];
    EncodeConcat(a, b);
    EncodeConcat(a + b, c);
    EncodeConcat(a + b + c, d);
    assert a + b + c + d == [0xc0, 0xdb, 0x11, 0x13];
  }

  const DATA: seq<byte> := [0xc0, 0xdb, 0x11, 0x13]
  const DATA_HEADER: seq<byte> := [0x9d, 0x42, 0x00, 0x20]
  const DATA_FRAME: seq<byte> :=
    [0xc0, 0x9d, 0x42, 0x00, 0x20, 0xdb, 0xdc, 0xdb, 0xdd, 0xdb, 0xde, 0xdb, 0xdf, 0xc0]

  /** ACL data from a sender that is at number 5 and expects number 3: every field of the header. */
  lemma DataFrame(h: Host)
    requires HostOk(h) && h.msgqTxseq == 5
    ensures FrameOf(h, Order(3, false, 0x02, DATA)) == DATA_FRAME
  {
    var o := Order(3, false, 0x02, DATA);
    BuiltFrame(h, o);
    DataHeader(h);
    EscapesKnown();
    hide *;
    DataBytes();
    FrameCut(DATA_HEADER, DATA);
  }

  lemma DataBytes()
    ensures Plain(DATA_HEADER) && DATA == [0xc0, 0xdb, 0x11, 0x13]
    ensures DATA_FRAME == [0xc0] + DATA_HEADER + [0xdb, 0xdc, 0xdb, 0xdd, 0xdb, 0xde, 0xdb, 0xdf] + [0xc0]
  {}

  lemma DataHeader(h: Host)
    requires HostOk(h) && h.msgqTxseq == 5
    ensures var o := Order(3, false, 0x02, DATA); PacketOf(h, o) + CheckOf(h, o) == DATA_HEADER + DATA
  {}

  lemma FrameCut(hdr: seq<byte>, payload: seq<byte>)
    requires Plain(hdr)
    ensures Frame(hdr + payload) == [0xc0] + hdr + Encode(payload) + [0xc0]
  {
    NothingEscaped(hdr);
    hide Encode;
    EncodeConcat(hdr, payload);
  }

  /** The acknowledgement of number 1 without check bytes, and of number 0 with them. */
  lemma AckFrames()
    ensures AckBytes(1, false) == [0xc0, 0x08, 0x00, 0x00, 0xf7, 0xc0]
    ensures AckBytes(0, true) == [0xc0, 0x40, 0x00, 0x00, 0xbf, 0x57, 0x1a, 0xc0]
  {
    CheckValues();
    PlainBytes();
    hide *;
    AckWithout(1, ACK_ONE);
    AckWith(0, ACK_NONE, [0x57, 0x1a]);
    PlainFrame(ACK_ONE);
    PlainFrame(ACK_NONE + [0x57, 0x1a]);
  }

  const ACK_ONE: seq<byte> := [0x08, 0x00, 0x00, 0xf7]
  const ACK_NONE: seq<byte> := [0x40, 0x00, 0x00, 0xbf]

  lemma PlainBytes()
    ensures ACK_ONE == [0x08, 0x00, 0x00, 0xf7] && ACK_NONE == [0x40, 0x00, 0x00, 0xbf]
    ensures Plain(ACK_ONE) && Plain(ACK_NONE + [0x57, 0x1a])
  {}

  lemma AckWithout(number: nat, hdr: seq<byte>)
    requires number < 8 && hdr == [8 * number, 0x00, 0x00, 0xff - 8 * number]
    ensures AckBytes(number, false) == Frame(hdr)
  {
    hide Frame;
  }

  lemma AckWith(number: nat, hdr: seq<byte>, check: seq<byte>)
    requires number < 8 && hdr == [8 * number + 0x40, 0x00, 0x00, 0xbf - 8 * number] && check == CheckBytes(Crc(hdr))
    ensures AckBytes(number, true) == Frame(hdr + check)
  {
    hide Frame, CheckBytes, Crc;
  }

  const ANSWER: seq<byte> := [0x80, 0x74, 0x00, 0x0b, 0x0e, 0x05, 0x01, 0x20, 0xfc, 0x00, 0x00]

  const ANSWER_FRAME: seq<byte> := [0xc0, 0x80, 0x74, 0x00, 0x0b, 0x0e, 0x05, 0x01, 0x20, 0xfc, 0x00, 0x00, 0xc0]
  const ACK_FRAME: seq<byte> := [0xc0, 0x08, 0x00, 0x00, 0xf7, 0xc0]

  lemma AnswerCarried(h: Host)
    requires h.rxseqTxack == 0
    ensures CarriesPacket(h, ANSWER) && HdrReliable(ANSWER) && HdrSeq(ANSWER) == 0 && HdrType(ANSWER) == 0x04
    ensures HdrLen(ANSWER) == 7 && WordSize(ANSWER) == 11
  {}

  lemma AnswerNoExit(h: Host)
    requires HostOk(h) && h.link == Patch && !h.exited
    ensures !Complete(h, ANSWER[..11], 11).exited
  {
    hide Complete;
    ExitsExactly(h, ANSWER[..11], 11);
  }

  /** The answer to the first patch packet, without check bytes, and what is written back. */
  lemma AnswerAcknowledged(s: H5)
    requires Waiting(s) && s.host.link == Patch && !s.host.useCrc && s.host.rxseqTxack == 0
    ensures var t := Recv(s, ANSWER_FRAME).host;
            t.wire == s.host.wire + ACK_FRAME && !t.isTxackReq && t.rxseqTxack == 1
            && !t.exited
  {
    hide *;
    WaitingHost(s);
    AnswerFrameKnown();
    AnswerStays(s);
    ReliableAnswered(s, ANSWER, 0);
    AckFrames();
  }

  /** A reliable packet that is completed, in an established link. */
  lemma ReliableAnswered(s: H5, w: seq<byte>, number: nat)
    requires Waiting(s) && Established(s.host.link) && CarriesPacket(s.host, w) && |w| >= 1 && HdrReliable(w)
    requires HdrSeq(w) == number && !Recv(s, Frame(w)).host.exited
    ensures var t := Recv(s, Frame(w)).host;
            t.wire == s.host.wire + AckBytes((number + 1) % 8, s.host.useCrc) && !t.isTxackReq
            && t.rxseqTxack == (number + 1) % 8
  {
    WaitingHost(s);
    hide *;
    WordAnswered(s, w);
    AnsweredMeans(s.host, Recv(s, Frame(w)).host, w);
  }

  lemma AnswerStays(s: H5)
    requires Waiting(s) && s.host.link == Patch && s.host.rxseqTxack == 0
    ensures !Recv(s, Frame(ANSWER)).host.exited && Established(s.host.link)
    ensures CarriesPacket(s.host, ANSWER) && |ANSWER| >= 1 && HdrReliable(ANSWER) && HdrSeq(ANSWER) == 0
  {
    WaitingHost(s);
    PatchUp(s);
    hide *;
    AnswerFrameKnown();
    AnswerCarried(s.host);
    AnswerNoExit(s.host);
    WordCases(s, ANSWER);
  }

  lemma PatchUp(s: H5)
    requires Waiting(s) && s.host.link == Patch
    ensures Established(s.host.link) && !s.host.exited
  {}

  lemma AnswerFrameKnown()
    ensures Frame(ANSWER) == ANSWER_FRAME && |ANSWER| == 11
    ensures ACK_FRAME == [0xc0, 0x08, 0x00, 0x00, 0xf7, 0xc0]
  {
    hide Frame;
    PlainFrame(ANSWER);
  }
}
