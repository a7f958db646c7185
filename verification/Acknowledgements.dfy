/** What the receiver writes for what it completes: the acknowledgements, byte by byte. */
module Acknowledgements {
  import opened DataIntegrity
  import opened Slip
  import opened Transport
  import opened Reception
  import opened Delivery
  import opened Runs
  import opened Options

  // ----- one acknowledgement

  /** The bytes of an empty unreliable packet of type 0 that names the number expected next. */
  function AckBytes(number: nat, crc: bool): seq<byte>
    requires number < 8
  {
    var flags := 8 * number + if crc then 0x40 else 0;
    var hdr: seq<byte> := [flags, 0x00, 0x00, 0xff - flags];
    Frame(if crc then hdr + CheckBytes(Crc(hdr)) else hdr)
  }

  lemma SendAckExactly(h: Host)
    requires HostOk(h)
    ensures SendAck(h) == h.(wire := h.wire + AckBytes(h.rxseqTxack, h.useCrc), isTxackReq := false)
  {
    PreparedAck(h);
    AckPacket(h.rxseqTxack, h.useCrc);
    hide Frame, PacketBytes, Prepare, AckBytes;
  }

  lemma PreparedAck(h: Host)
    requires HostOk(h)
    ensures Prepare(h, [], 0x00)
         == (h.(isTxackReq := false), Some(Frame(PacketBytes(Fields(h.rxseqTxack, false, 0, h.useCrc, 0x00, 0), []))))
  {
    hide Frame, PacketBytes;
  }

  lemma AckPacket(number: nat, crc: bool)
    requires number < 8
    ensures Frame(PacketBytes(Fields(number, false, 0, crc, 0x00, 0), [])) == AckBytes(number, crc)
  {
    hide Frame, CheckBytes, Crc, Header;
    var hdr := Header(Fields(number, false, 0, crc, 0x00, 0));
    AckHeader(number, crc);
    assert hdr + [] == hdr;
  }

  lemma AckHeader(number: nat, crc: bool)
    requires number < 8
    ensures var flags := 8 * number + if crc then 0x40 else 0;
            Header(Fields(number, false, 0, crc, 0x00, 0)) == [flags, 0x00, 0x00, 0xff - flags]
  {
    var flags := 8 * number + if crc then 0x40 else 0;
    assert (flags + 0 + 0) % 256 == flags;
  }

  // ----- one packet

  /** The number expected once a packet is completed. */
  function NumberAfter(h: Host, w: seq<byte>): (n: nat)
    requires HostOk(h) && |w| >= 1
    ensures n < 8
  {
    if HdrReliable(w) then (HdrSeq(w) + 1) % 8 else h.rxseqTxack
  }

  /** An acknowledgement is due once the packet is completed. */
  predicate Due(h: Host, w: seq<byte>)
    requires |w| >= 1
  {
    h.isTxackReq || HdrReliable(w)
  }

  /** Before the acknowledgement. */
  function Handed(h: Host, buf: seq<byte>, len: nat): (r: Host)
    requires 4 <= len <= |buf| && HostOk(h)
    ensures HostOk(r)
  {
    Dispatch(NoteNumbers(h, buf[..len]), buf, len)
  }

  lemma NotedExactly(h: Host, buf: seq<byte>, len: nat)
    requires 4 <= len <= |buf| && HostOk(h)
    ensures NoteNumbers(h, buf[..len])
         == h.(log := h.log + [buf[..len]], rxack := HdrAck(buf), rxseqTxack := NumberAfter(h, buf),
               isTxackReq := Due(h, buf))
  {}

  /** A packet that is not one of the link exchange is handed on without a word on the line. */
  lemma HandedQuietly(h: Host, buf: seq<byte>, len: nat)
    requires 4 <= len <= |buf| && HostOk(h) && (HdrType(buf) != 0x0f || Established(h.link))
    ensures var r := Handed(h, buf, len);
            r.wire == h.wire && r.isTxackReq == Due(h, buf) && r.rxseqTxack == NumberAfter(h, buf)
            && r.rxack == HdrAck(buf) && r.useCrc == h.useCrc && (Established(h.link) ==> Established(r.link))
            && r.log == h.log + [buf[..len]]
  {
    NotedExactly(h, buf, len);
    var h1 := NoteNumbers(h, buf[..len]);
    hide NoteNumbers, HdrType, HdrSeq, HdrAck, HdrReliable, EventOpcode, CountedOpcode, Learned, At, SendAck;
  }

  /** From a packet completed on h to t: what is expected, what is due, and what was written. */
  predicate Answered(h: Host, t: Host, w: seq<byte>)
    requires HostOk(h) && |w| >= 1
  {
    t.rxseqTxack == NumberAfter(h, w) && t.rxack == HdrAck(w) && t.useCrc == h.useCrc
    && t.wire == h.wire + (if Due(h, w) && !t.exited then AckBytes(NumberAfter(h, w), h.useCrc) else [])
    && t.isTxackReq == (Due(h, w) && t.exited)
    && (Established(h.link) ==> Established(t.link))
  }

  lemma CompleteAnswers(h: Host, buf: seq<byte>, len: nat)
    requires 4 <= len <= |buf| && HostOk(h) && (HdrType(buf) != 0x0f || Established(h.link))
    ensures Answered(h, Complete(h, buf, len), buf)
  {
    HandedQuietly(h, buf, len);
    var r := Handed(h, buf, len);
    SendAckExactly(r);
    hide Dispatch, NoteNumbers, HdrType, HdrSeq, HdrAck, HdrReliable, AckBytes, SendAck;
  }

  /** What comes between two delimiters is one completed packet, or refused, or too little. */
  lemma WordCases(s: H5, w: seq<byte>)
    requires Waiting(s)
    ensures var t := Recv(s, Frame(w)).host;
            if CarriesPacket(s.host, w) then t == Complete(s.host, w[..WordSize(w)], 4 + HdrLen(w))
            else if |w| >= 4 && HdrChecksumOk(w) && !SeqExpected(s.host, w) then t == OutOfOrder(s.host, HdrSeq(w))
            else t == s.host
  {
    AcceptedExactly(s.host, w);
    hide Recv, Frame, Complete, OutOfOrder, HdrLen, HdrChecksumOk, SeqExpected, WordSize, CarriesPacket, HdrSeq;
    FrameExactly(s, w);
    if CarriesPacket(s.host, w) { CarriedSize(s.host, w); }
  }

  lemma CarriedSize(h: Host, w: seq<byte>)
    requires CarriesPacket(h, w)
    ensures 4 <= 4 + HdrLen(w) <= WordSize(w) <= |w| && HdrChecksumOk(w) && SeqExpected(h, w)
  {
    hide HdrLen, HdrCrc, HdrChecksumOk, SeqExpected;
  }

  lemma SameFront(w: seq<byte>, k: nat)
    requires 4 <= k <= |w|
    ensures var p := w[..k];
            HdrType(p) == HdrType(w) && HdrReliable(p) == HdrReliable(w) && HdrSeq(p) == HdrSeq(w)
            && HdrAck(p) == HdrAck(w)
  {}

  lemma AnsweredFront(h: Host, t: Host, w: seq<byte>, k: nat)
    requires HostOk(h) && 4 <= k <= |w|
    ensures Answered(h, t, w[..k]) <==> Answered(h, t, w)
  {
    SameFront(w, k);
    hide HdrReliable, HdrSeq, HdrAck, AckBytes;
  }

  lemma WaitingHost(s: H5)
    requires Waiting(s)
    ensures Ok(s) && HostOk(s.host)
  {}

  lemma RefusedAsks(h: Host, number: nat)
    ensures var t := OutOfOrder(h, number); t.wire == h.wire && t.useCrc == h.useCrc && t.isTxackReq
  {}

  /** Whatever comes between two delimiters, but for the packets of the link exchange while it lasts:
      a packet that is completed is acknowledged in the same breath, if it is reliable or something was
      pending, with the number expected then; a packet out of order is not, but leaves an acknowledgement
      pending for the next that is completed. Nothing else is written. */
  lemma WordAnswered(s: H5, w: seq<byte>)
    requires Waiting(s) && (|w| >= 2 && HdrType(w) == 0x0f ==> Established(s.host.link))
    ensures var t := Recv(s, Frame(w)).host;
            if CarriesPacket(s.host, w) then Answered(s.host, t, w)
            else t.wire == s.host.wire && t.useCrc == s.host.useCrc
                 && t.isTxackReq
                    == (s.host.isTxackReq || (|w| >= 4 && HdrChecksumOk(w) && !SeqExpected(s.host, w)))
  {
    WaitingHost(s);
    hide *;
    WordCases(s, w);
    if |w| >= 4 { RefusedAsks(s.host, HdrSeq(w)); }
    if CarriesPacket(s.host, w) {
      CarriedSize(s.host, w);
      SameFront(w, WordSize(w));
      CompleteAnswers(s.host, w[..WordSize(w)], 4 + HdrLen(w));
      AnsweredFront(s.host, Recv(s, Frame(w)).host, w, WordSize(w));
    }
  }

  /** A packet out of order writes nothing; the next one that is completed, reliable or not, is followed
      by an acknowledgement with the number expected then. */
  lemma RefusedThenAcked(s: H5, w: seq<byte>, v: seq<byte>)
    requires Waiting(s) && Established(s.host.link) && |w| >= 4 && HdrChecksumOk(w) && !SeqExpected(s.host, w)
    requires var t := Recv(s, Frame(w)); CarriesPacket(t.host, v) && !Recv(t, Frame(v)).host.exited
    ensures var t := Recv(s, Frame(w));
            var u := Recv(t, Frame(v));
            Waiting(t) && t.host.wire == s.host.wire
            && u.host.wire == s.host.wire + AckBytes(NumberAfter(t.host, v), s.host.useCrc) && !u.host.isTxackReq
  {
    RefusedWaits(s, w);
    NotCarried(s.host, w);
    WordAnswered(s, w);
    var t := Recv(s, Frame(w));
    hide Recv, Frame, AckBytes, HdrChecksumOk, SeqExpected, CarriesPacket, NumberAfter;
    WordAnswered(t, v);
  }

  lemma RefusedWaits(s: H5, w: seq<byte>)
    requires Waiting(s) && |w| >= 4 && HdrChecksumOk(w) && !SeqExpected(s.host, w)
    ensures var t := Recv(s, Frame(w)); Waiting(t) && t.host.link == s.host.link
  {
    hide Recv, Frame, HdrChecksumOk, SeqExpected, HdrSeq;
    FrameRefused(s, w);
  }

  lemma NotCarried(h: Host, w: seq<byte>)
    requires |w| >= 4 && !SeqExpected(h, w)
    ensures !CarriesPacket(h, w)
  {}

  // ----- built packets

  lemma BuiltWord(s: H5, h: Host, o: Order)
    requires Waiting(s) && HostOk(h) && OrderOk(o) && InStep(s, h, [o])
    ensures var w := PacketOf(h, o) + CheckOf(h, o);
            CarriesPacket(s.host, w) && FrameOf(h, o) == Frame(w) && HdrType(w) == o.kind
            && HdrReliable(w) == SentReliably(o.kind) && HdrAck(w) == o.ack
            && (HdrReliable(w) ==> HdrSeq(w) == h.msgqTxseq == s.host.rxseqTxack)
            && WordSize(w) == |w| && HdrLen(w) == |o.payload| && HdrCrc(w) == o.crc
  {
    var p, check := PacketOf(h, o), CheckOf(h, o);
    var w := p + check;
    BuiltPacket(h, o);
    BuiltFrame(h, o);
    OrderFacts(s, h, o);
    Joined(p, check);
    Prefix(s.host, w, |p|);
    SameFront(w, |p|);
    BuiltCarried(s.host, p, check);
    hide PacketOf, CheckOf, Frame, HdrType, HdrReliable, HdrAck, HdrSeq, HdrCrc, HdrLen, HdrChecksumOk, Intact, Prepare,
         CarriesPacket;
  }

  lemma BuiltCarried(h: Host, p: seq<byte>, check: seq<byte>)
    requires Sound(p) && SeqExpected(h, p) && |check| == (if HdrCrc(p) then 2 else 0) && Intact(p, check)
    ensures CarriesPacket(h, p + check) && WordSize(p + check) == |p + check|
  {
    var w := p + check;
    Joined(p, check);
    Prefix(h, w, |p|);
    WordSizeIs(w);
    AcceptedExactly(h, w);
    hide HdrLen, HdrCrc, HdrChecksumOk, SeqExpected, CarriesPacket;
  }

  /** A built packet with the number expected: if it is reliable, what is written is exactly one
      acknowledgement, with the number after it, unless the process ends. If it is not, and nothing was
      pending, nothing is written. */
  lemma OrderAcknowledged(s: H5, h: Host, o: Order)
    requires Waiting(s) && HostOk(h) && OrderOk(o) && InStep(s, h, [o])
    requires o.kind == 0x0f ==> Established(s.host.link)
    ensures var t := Recv(s, FrameOf(h, o)).host;
            t.rxack == o.ack && t.useCrc == s.host.useCrc && (Established(s.host.link) ==> Established(t.link))
            && (o.kind in {0x01, 0x02, 0x04} && !t.exited ==>
                  t.wire == s.host.wire + AckBytes((h.msgqTxseq + 1) % 8, s.host.useCrc) && !t.isTxackReq
                  && t.rxseqTxack == (h.msgqTxseq + 1) % 8)
            && (o.kind !in {0x01, 0x02, 0x04} && !s.host.isTxackReq ==>
                  t.wire == s.host.wire && !t.isTxackReq && t.rxseqTxack == s.host.rxseqTxack)
  {
    BuiltWord(s, h, o);
    var w := PacketOf(h, o) + CheckOf(h, o);
    hide *;
    WordAnswered(s, w);
    AnsweredMeans(s.host, Recv(s, FrameOf(h, o)).host, w);
    Kinds(o.kind);
  }

  lemma AnsweredMeans(h: Host, t: Host, w: seq<byte>)
    requires HostOk(h) && |w| >= 1 && Answered(h, t, w)
    ensures t.rxack == HdrAck(w) && t.useCrc == h.useCrc && (Established(h.link) ==> Established(t.link))
    ensures HdrReliable(w) ==>
              t.rxseqTxack == (HdrSeq(w) + 1) % 8
              && (!t.exited ==> t.wire == h.wire + AckBytes((HdrSeq(w) + 1) % 8, h.useCrc) && !t.isTxackReq)
    ensures !HdrReliable(w) && !h.isTxackReq ==> t.wire == h.wire && !t.isTxackReq && t.rxseqTxack == h.rxseqTxack
  {
    hide HdrReliable, HdrSeq, HdrAck, AckBytes;
    assert h.wire + [] == h.wire;
  }

  lemma Kinds(kind: nat)
    ensures SentReliably(kind) <==> kind in {0x01, 0x02, 0x04}
  {}

  // ----- a stream

  function Reliables(orders: seq<Order>): nat {
    if orders == [] then 0 else (if SentReliably(orders[0].kind) then 1 else 0) + Reliables(orders[1..])
  }

  /** n acknowledgements, of the n numbers after the first. */
  function AckRun(first: nat, crc: bool, n: nat): seq<byte>
    requires first < 8
    decreases n
  {
    if n == 0 then [] else AckBytes((first + 1) % 8, crc) + AckRun((first + 1) % 8, crc, n - 1)
  }

  predicate NoLinkControl(orders: seq<Order>) {
    forall o :: o in orders ==> o.kind != 0x0f
  }

  lemma NoLinkControlFirst(orders: seq<Order>)
    requires NoLinkControl(orders) && orders != []
    ensures orders[0].kind != 0x0f && NoLinkControl(orders[1..])
  {}

  lemma SumOfEight(first: nat, n: nat)
    ensures ((first + 1) % 8 + n) % 8 == (first + (n + 1)) % 8
  {}

  lemma WaitingAfter(s: H5, h: Host, o: Order)
    requires Waiting(s) && HostOk(h) && OrderOk(o) && InStep(s, h, [o])
    ensures var t := Recv(s, FrameOf(h, o));
            (!t.host.exited ==> Waiting(t))
            && (s.host.rxseqTxack == h.msgqTxseq ==> t.host.rxseqTxack == AfterOrder(h, o).msgqTxseq)
  {
    BuiltFrame(h, o);
    hide PacketOf, CheckOf, Frame, Recv, Complete, AfterOrder;
    OrderDelivered(s, h, o);
  }

  lemma StreamSplit(s: H5, h: Host, orders: seq<Order>)
    requires Ok(s) && HostOk(h) && OrdersOk(orders) && orders != []
    ensures OrderOk(orders[0]) && OrdersOk(orders[1..])
    ensures Recv(s, Stream(h, orders))
         == Recv(Recv(s, FrameOf(h, orders[0])), Stream(AfterOrder(h, orders[0]), orders[1..]))
  {
    OrdersFirst(orders);
    RecvConcat(s, FrameOf(h, orders[0]), Stream(AfterOrder(h, orders[0]), orders[1..]));
    hide Recv, FrameOf, AfterOrder;
  }

  lemma ReliablesFirst(orders: seq<Order>)
    requires orders != []
    ensures Reliables(orders) == (if orders[0].kind in {0x01, 0x02, 0x04} then 1 else 0) + Reliables(orders[1..])
  {}

  /** Over a stream of built packets with nothing pending before: exactly one acknowledgement for each
      reliable packet, in order, each with the number after it; none is left pending. */
  lemma {:induction false} StreamAcknowledged(s: H5, h: Host, orders: seq<Order>)
    requires Waiting(s) && HostOk(h) && OrdersOk(orders) && InStep(s, h, orders) && !s.host.isTxackReq
    requires Established(s.host.link) || NoLinkControl(orders)
    requires !Recv(s, Stream(h, orders)).host.exited
    ensures var t := Recv(s, Stream(h, orders)).host;
            t.wire == s.host.wire + AckRun(s.host.rxseqTxack, s.host.useCrc, Reliables(orders)) && !t.isTxackReq
            && t.rxseqTxack == (s.host.rxseqTxack + Reliables(orders)) % 8
    decreases orders
  {
    hide *;
    if orders == [] {
      NothingAcknowledged(s, h);
    } else {
      var t := FirstReceived(s, h, orders);
      FirstAcknowledged(s, h, orders, t);
      StreamAcknowledged(t, AfterOrder(h, orders[0]), orders[1..]);
      AckRunMore(s.host, t.host, orders[0], orders);
    }
  }

  lemma ExitStays(t: H5, data: seq<byte>)
    requires Ok(t)
    ensures t.host.exited ==> Recv(t, data) == t
  {}

  lemma NothingAcknowledged(s: H5, h: Host)
    requires Waiting(s) && HostOk(h)
    ensures Recv(s, Stream(h, [])) == s && Reliables([]) == 0
    ensures s.host.wire == s.host.wire + AckRun(s.host.rxseqTxack, s.host.useCrc, 0)
    ensures s.host.rxseqTxack == (s.host.rxseqTxack + 0) % 8
  {}

  lemma FirstReceived(s: H5, h: Host, orders: seq<Order>) returns (t: H5)
    requires Waiting(s) && HostOk(h) && OrdersOk(orders) && InStep(s, h, orders) && orders != []
    requires !Recv(s, Stream(h, orders)).host.exited
    ensures OrderOk(orders[0]) && OrdersOk(orders[1..]) && Waiting(t) && t == Recv(s, FrameOf(h, orders[0]))
    ensures InStep(t, AfterOrder(h, orders[0]), orders[1..])
    ensures Recv(s, Stream(h, orders)) == Recv(t, Stream(AfterOrder(h, orders[0]), orders[1..]))
  {
    var o, h1 := orders[0], AfterOrder(h, orders[0]);
    StreamSplit(s, h, orders);
    InStepFirst(s, h, orders);
    t := Recv(s, FrameOf(h, o));
    hide Recv, FrameOf, Stream, AfterOrder, OrdersOk, OrderOk, InStep, RxOk;
    WaitingAfter(s, h, o);
    ExitStays(t, Stream(h1, orders[1..]));
    InStepRest(s, t, h, h1, orders);
  }

  lemma FirstAcknowledged(s: H5, h: Host, orders: seq<Order>, t: H5)
    requires Waiting(s) && HostOk(h) && OrdersOk(orders) && InStep(s, h, orders) && !s.host.isTxackReq && orders != []
    requires Established(s.host.link) || NoLinkControl(orders)
    requires OrderOk(orders[0]) && Waiting(t) && t == Recv(s, FrameOf(h, orders[0]))
    ensures s.host.rxseqTxack < 8 && t.host.rxseqTxack < 8 && !t.host.isTxackReq && t.host.useCrc == s.host.useCrc
    ensures Established(t.host.link) || NoLinkControl(orders[1..])
    ensures orders[0].kind in {0x01, 0x02, 0x04} ==>
              t.host.wire == s.host.wire + AckBytes((s.host.rxseqTxack + 1) % 8, s.host.useCrc)
              && t.host.rxseqTxack == (s.host.rxseqTxack + 1) % 8
    ensures orders[0].kind !in {0x01, 0x02, 0x04} ==>
              t.host.wire == s.host.wire && t.host.rxseqTxack == s.host.rxseqTxack
  {
    var o := orders[0];
    InStepFirst(s, h, orders);
    if o.kind in {0x01, 0x02, 0x04} { InStepNumber(s, h, o, orders); }
    if !Established(s.host.link) { NoLinkControlFirst(orders); }
    WaitingHost(s);
    WaitingHost(t);
    hide *;
    Small(s.host);
    Small(t.host);
    OrderAcknowledged(s, h, o);
  }

  lemma InStepNumber(s: H5, h: Host, o: Order, orders: seq<Order>)
    requires InStep(s, h, orders) && orders != [] && o == orders[0] && SentReliably(o.kind)
    ensures s.host.rxseqTxack == h.msgqTxseq
  {}

  lemma AckRunMore(h: Host, t: Host, o: Order, orders: seq<Order>)
    requires h.rxseqTxack < 8 && t.rxseqTxack < 8 && orders != [] && o == orders[0] && t.useCrc == h.useCrc
    requires o.kind in {0x01, 0x02, 0x04} ==>
               t.wire == h.wire + AckBytes((h.rxseqTxack + 1) % 8, h.useCrc) && t.rxseqTxack == (h.rxseqTxack + 1) % 8
    requires o.kind !in {0x01, 0x02, 0x04} ==> t.wire == h.wire && t.rxseqTxack == h.rxseqTxack
    ensures t.wire + AckRun(t.rxseqTxack, t.useCrc, Reliables(orders[1..]))
         == h.wire + AckRun(h.rxseqTxack, h.useCrc, Reliables(orders))
    ensures (t.rxseqTxack + Reliables(orders[1..])) % 8 == (h.rxseqTxack + Reliables(orders)) % 8
  {
    hide *;
    ReliablesFirst(orders);
    var n := Reliables(orders[1..]);
    if o.kind in {0x01, 0x02, 0x04} { AckRunOne(h.wire, t.wire, h.rxseqTxack, t.rxseqTxack, h.useCrc, n); }
  }

  lemma AckRunOne(before: seq<byte>, wire: seq<byte>, first: nat, next: nat, crc: bool, n: nat)
    requires first < 8 && next == (first + 1) % 8 && wire == before + AckBytes(next, crc)
    ensures wire + AckRun(next, crc, n) == before + AckRun(first, crc, n + 1)
    ensures (next + n) % 8 == (first + (n + 1)) % 8
  {
    hide AckBytes;
    SumOfEight(first, n);
    Assoc(before, AckBytes(next, crc), AckRun(next, crc, n));
  }

  // ----- the other end again

  /** Whoever waits for it reads an acknowledgement as just that. */
  lemma AckRead(g: H5, number: nat, crc: bool)
    requires Waiting(g) && number < 8
    ensures var t := Recv(g, AckBytes(number, crc)); Waiting(t) && t.host.rxack == number
  {
    var o := Order(number, crc, 0x00, []);
    AckOrder(g.host, number, crc);
    hide Recv, FrameOf, AckBytes, PacketOf, CheckOf, Frame;
    BuiltFrame(g.host, o);
    QuietDelivered(g, g.host, o);
    WaitingAfter(g, g.host, o);
    AckPlain(g, o);
  }

  lemma AckOrder(h: Host, number: nat, crc: bool)
    requires HostOk(h) && number < 8
    ensures FrameOf(h, Order(number, crc, 0x00, [])) == AckBytes(number, crc)
  {
    PreparedAck(Sender(h, Order(number, crc, 0x00, [])));
    AckPacket(number, crc);
    hide Frame, PacketBytes, AckBytes, Prepare;
  }

  lemma AckPlain(g: H5, o: Order)
    requires Waiting(g) && OrderOk(o) && o.kind == 0x00
    ensures Recv(g, FrameOf(g.host, o)).host.rxack == o.ack
  {
    hide Recv, FrameOf, AckBytes;
    assert InStep(g, g.host, [o]);
    OrderAcknowledged(g, g.host, o);
  }

  /** The acknowledgements of a stream tell its sender the number of its next reliable packet. */
  lemma {:induction false} AcksRead(g: H5, first: nat, crc: bool, n: nat)
    requires Waiting(g) && first < 8
    ensures var t := Recv(g, AckRun(first, crc, n));
            Waiting(t) && t.host.rxack == if n == 0 then g.host.rxack else (first + n) % 8
    decreases n
  {
    hide *;
    WaitingHost(g);
    if n == 0 {
      NoAcksRead(g, first, crc);
    } else {
      var next := (first + 1) % 8;
      AckRead(g, next, crc);
      AckRunFirst(first, crc, n);
      RecvConcat(g, AckBytes(next, crc), AckRun(next, crc, n - 1));
      AcksRead(Recv(g, AckBytes(next, crc)), next, crc, n - 1);
      NumberRead(first, n);
    }
  }

  lemma NoAcksRead(g: H5, first: nat, crc: bool)
    requires Ok(g) && first < 8
    ensures Recv(g, AckRun(first, crc, 0)) == g
  {}

  lemma AckRunFirst(first: nat, crc: bool, n: nat)
    requires first < 8 && n > 0
    ensures AckRun(first, crc, n) == AckBytes((first + 1) % 8, crc) + AckRun((first + 1) % 8, crc, n - 1)
  {}

  lemma NumberRead(first: nat, n: nat)
    requires first < 8 && n > 0
    ensures ((first + 1) % 8 + (n - 1)) % 8 == (first + n) % 8
  {}

  lemma {:induction false} ReliablesCounted(h: Host, orders: seq<Order>)
    requires HostOk(h) && OrdersOk(orders)
    ensures AfterOrders(h, orders).msgqTxseq == (h.msgqTxseq + Reliables(orders)) % 8
    decreases orders
  {
    hide *;
    if orders == [] {
      NothingCounted(h);
    } else {
      OrdersFirst(orders);
      OneCounted(h, orders[0]);
      FirstCounted(h, orders);
      ReliablesCounted(AfterOrder(h, orders[0]), orders[1..]);
      SumOfEight(h.msgqTxseq, Reliables(orders[1..]));
    }
  }

  lemma NothingCounted(h: Host)
    requires HostOk(h)
    ensures AfterOrders(h, []).msgqTxseq == (h.msgqTxseq + Reliables([])) % 8
  {}

  lemma FirstCounted(h: Host, orders: seq<Order>)
    requires HostOk(h) && orders != [] && OrderOk(orders[0]) && OrdersOk(orders[1..]) && OrdersOk(orders)
    ensures AfterOrders(h, orders) == AfterOrders(AfterOrder(h, orders[0]), orders[1..])
    ensures Reliables(orders) == (if SentReliably(orders[0].kind) then 1 else 0) + Reliables(orders[1..])
    ensures h.msgqTxseq < 8
  {}

  lemma OneCounted(h: Host, o: Order)
    requires HostOk(h) && OrderOk(o)
    ensures AfterOrder(h, o).msgqTxseq == if SentReliably(o.kind) then (h.msgqTxseq + 1) % 8 else h.msgqTxseq
  {
    hide Frame, PacketBytes;
  }

  /** There and back: what the receiver of a stream writes tells the sender that all its reliable packets
      have arrived. */
  lemma StreamConfirmed(s: H5, h: Host, orders: seq<Order>, g: H5) returns (reply: seq<byte>)
    requires Waiting(s) && HostOk(h) && OrdersOk(orders) && s.host.rxseqTxack == h.msgqTxseq && !s.host.isTxackReq
    requires Established(s.host.link) || NoLinkControl(orders)
    requires !Recv(s, Stream(h, orders)).host.exited && Reliables(orders) > 0 && Waiting(g)
    ensures Recv(s, Stream(h, orders)).host.wire == s.host.wire + reply
    ensures Recv(g, reply).host.rxack == AfterOrders(h, orders).msgqTxseq
  {
    AllInStep(s, h, orders);
    hide *;
    WaitingHost(s);
    Small(s.host);
    StreamAcknowledged(s, h, orders);
    RunConfirmed(h, orders, g, s.host.useCrc);
    reply := AckRun(s.host.rxseqTxack, s.host.useCrc, Reliables(orders));
  }

  lemma RunConfirmed(h: Host, orders: seq<Order>, g: H5, crc: bool)
    requires HostOk(h) && OrdersOk(orders) && Reliables(orders) > 0 && Waiting(g)
    ensures h.msgqTxseq < 8 && Ok(g)
    ensures Recv(g, AckRun(h.msgqTxseq, crc, Reliables(orders))).host.rxack == AfterOrders(h, orders).msgqTxseq
  {
    hide *;
    WaitingHost(g);
    Small(h);
    ReliablesCounted(h, orders);
    AcksRead(g, h.msgqTxseq, crc, Reliables(orders));
  }

  lemma AllInStep(s: H5, h: Host, orders: seq<Order>)
    requires s.host.rxseqTxack == h.msgqTxseq
    ensures InStep(s, h, orders)
  {}

  lemma Small(h: Host)
    requires HostOk(h)
    ensures h.rxseqTxack < 8 && h.msgqTxseq < 8
  {}
}
