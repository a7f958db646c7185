/** What gets through: round trips from the packet builder to the log of completed packets, and
    exactly which streams end the process. */
module Delivery {
  import opened DataIntegrity
  import opened Slip
  import opened Transport
  import opened Reception
  import opened Options

  // ----- one frame

  lemma SameFrame(a: seq<byte>, b: seq<byte>)
    requires Frame(a) == Frame(b)
    ensures a == b
  {
    hide Encode;
    assert Encode(a) == Frame(a)[1..|Frame(a)| - 1] && Encode(b) == Frame(b)[1..|Frame(b)| - 1];
    EncodeInjective(a, b);
  }

  /** Different headers or payloads never give the same frame, whatever the lengths. */
  lemma FrameInjective(f: Fields, p: seq<byte>, g: Fields, q: seq<byte>)
    requires FieldsOk(f) && FieldsOk(g) && f.len == |p| && g.len == |q|
    requires Frame(PacketBytes(f, p)) == Frame(PacketBytes(g, q))
    ensures f == g && p == q
  {
    var a, b := PacketBytes(f, p), PacketBytes(g, q);
    SameFrame(a, b);
    assert a[..4] == Header(f) && b[..4] == Header(g);
    HeaderFields(f);
    HeaderFields(g);
    hide Header, CheckBytes, Crc, Encode, Frame, HdrChecksumOk, HdrAck, HdrReliable, HdrSeq, HdrCrc, HdrType, HdrLen;
    assert p == a[4..4 + |p|] && q == b[4..4 + |q|];
  }

  // ----- a stream of built packets

  /** A packet to build, with the acknowledge number and the CRC setting then in force. */
  datatype Order = Order(ack: nat, crc: bool, kind: nat, payload: seq<byte>)

  predicate OrderOk(o: Order) {
    o.ack < 8 && Supported(o.kind) && |o.payload| <= 4095
  }

  predicate OrdersOk(orders: seq<Order>) {
    forall o :: o in orders ==> OrderOk(o)
  }

  lemma OrdersFirst(orders: seq<Order>)
    requires OrdersOk(orders) && orders != []
    ensures OrderOk(orders[0]) && OrdersOk(orders[1..])
  {}

  /** The sender as it is when it builds the packet. */
  function Sender(h: Host, o: Order): (r: Host)
    requires HostOk(h) && OrderOk(o)
    ensures HostOk(r)
  {
    h.(rxseqTxack := o.ack, useCrc := o.crc)
  }

  /** The header and payload that h5_prepare_pkt puts into the frame. */
  function PacketOf(h: Host, o: Order): (packet: seq<byte>)
    requires HostOk(h) && OrderOk(o)
    ensures |packet| == 4 + |o.payload|
  {
    assert HostOk(Sender(h, o));
    Header(TxFields(Sender(h, o), o.kind, |o.payload|)) + o.payload
  }

  function CheckOf(h: Host, o: Order): seq<byte>
    requires HostOk(h) && OrderOk(o)
  {
    if o.crc then CheckBytes(Crc(PacketOf(h, o))) else []
  }

  function AfterOrder(h: Host, o: Order): (r: Host)
    requires HostOk(h) && OrderOk(o)
    ensures HostOk(r)
  {
    Prepare(Sender(h, o), o.payload, o.kind).0
  }

  /** The frame that h5_prepare_pkt builds. */
  function FrameOf(h: Host, o: Order): seq<byte>
    requires HostOk(h) && OrderOk(o)
  {
    Prepare(Sender(h, o), o.payload, o.kind).1.value
  }

  /** The frames of the packets, built one after another by h5_prepare_pkt. */
  function Stream(h: Host, orders: seq<Order>): seq<byte>
    requires HostOk(h) && OrdersOk(orders)
    decreases orders
  {
    if orders == [] then []
    else FrameOf(h, orders[0]) + Stream(AfterOrder(h, orders[0]), orders[1..])
  }

  function Packets(h: Host, orders: seq<Order>): (ps: seq<seq<byte>>)
    requires HostOk(h) && OrdersOk(orders)
    ensures |ps| == |orders|
    decreases orders
  {
    if orders == [] then []
    else [PacketOf(h, orders[0])] + Packets(AfterOrder(h, orders[0]), orders[1..])
  }

  /** A built packet is sound, carries the sender's number if it is reliable, and its check
      bytes match. */
  lemma BuiltPacket(h: Host, o: Order)
    requires HostOk(h) && OrderOk(o)
    ensures var p := PacketOf(h, o);
            Sound(p) && HdrReliable(p) == SentReliably(o.kind) && HdrCrc(p) == o.crc
            && (HdrReliable(p) ==> HdrSeq(p) == h.msgqTxseq) && HdrType(p) == o.kind && HdrAck(p) == o.ack
            && |CheckOf(h, o)| == (if HdrCrc(p) then 2 else 0)
            && Intact(p, CheckOf(h, o))
  {
    BuiltHeader(h, o);
    hide Header, HdrSeq, HdrAck, HdrLen, HdrType, HdrChecksumOk, HdrCrc, HdrReliable, CheckBytes, CrcMatches, PacketOf;
    CheckBytesDecide(Crc(PacketOf(h, o)), Crc(PacketOf(h, o)));
  }

  lemma BuiltHeader(h: Host, o: Order)
    requires HostOk(h) && OrderOk(o)
    ensures var p := PacketOf(h, o);
            HdrChecksumOk(p) && HdrLen(p) == |o.payload| && HdrReliable(p) == SentReliably(o.kind)
            && HdrCrc(p) == o.crc && (HdrReliable(p) ==> HdrSeq(p) == h.msgqTxseq)
            && HdrType(p) == o.kind && HdrAck(p) == o.ack
  {
    var f := TxFields(Sender(h, o), o.kind, |o.payload|);
    assert f.len % 4096 == f.len;
    hide Header, HdrSeq, HdrAck, HdrLen, HdrType, HdrChecksumOk, HdrCrc, HdrReliable;
    HeaderFields(f);
    SameFields(Header(f), o.payload);
  }

  lemma BuiltFrame(h: Host, o: Order)
    requires HostOk(h) && OrderOk(o)
    ensures Prepare(Sender(h, o), o.payload, o.kind).1 == Some(Frame(PacketOf(h, o) + CheckOf(h, o)))
  {
    hide Header, Frame, CheckBytes;
    assert !o.crc ==> PacketOf(h, o) + [] == PacketOf(h, o);
  }

  lemma SameFields(hdr: seq<byte>, payload: seq<byte>)
    requires |hdr| == 4
    ensures var p := hdr + payload;
            HdrChecksumOk(p) == HdrChecksumOk(hdr) && HdrLen(p) == HdrLen(hdr)
            && HdrReliable(p) == HdrReliable(hdr) && HdrCrc(p) == HdrCrc(hdr) && HdrSeq(p) == HdrSeq(hdr)
            && HdrType(p) == HdrType(hdr) && HdrAck(p) == HdrAck(hdr)
  {}

  lemma CompleteNumbers(h: Host, buf: seq<byte>, len: nat)
    requires 4 <= len <= |buf| && HostOk(h)
    ensures var r := Complete(h, buf, len);
            r.log == h.log + [buf[..len]]
            && r.rxseqTxack == (if HdrReliable(buf) then (HdrSeq(buf) + 1) % 8 else h.rxseqTxack)
            && r.txIndex == h.txIndex && r.totalNum == h.totalNum
            && (IndexAtTotal(r) ==> IndexAtTotal(h))
            && (h.exited ==> r.exited)
  {}

  /** The receiver's number, if any of the packets is going to be compared with it. */
  predicate InStep(s: H5, h: Host, orders: seq<Order>) {
    (forall o :: o in orders ==> !SentReliably(o.kind)) || s.host.rxseqTxack == h.msgqTxseq
  }

  /** One built frame is completed once, and leaves sender and receiver in step. */
  lemma OrderDelivered(s: H5, h: Host, o: Order)
    requires Waiting(s) && HostOk(h) && OrderOk(o) && InStep(s, h, [o])
    ensures var t := Recv(s, Frame(PacketOf(h, o) + CheckOf(h, o)));
            t.host == Complete(s.host, PacketOf(h, o) + CheckOf(h, o), |PacketOf(h, o)|)
            && t.host.log == s.host.log + [PacketOf(h, o)] && (t.host.exited || AtStart(t))
            && (s.host.rxseqTxack == h.msgqTxseq ==> t.host.rxseqTxack == AfterOrder(h, o).msgqTxseq)
  {
    var p, check := PacketOf(h, o), CheckOf(h, o);
    OrderFacts(s, h, o);
    hide PacketOf, CheckOf, Frame, Complete, AfterOrder, HdrSeq, HdrReliable, HdrCrc, Intact;
    FrameReceived(s, p, check);
    CompleteNumbers(s.host, p + check, |p|);
    assert (p + check)[..|p|] == p;
    SameBits(p, check);
  }

  lemma OrderFacts(s: H5, h: Host, o: Order)
    requires HostOk(h) && OrderOk(o) && InStep(s, h, [o])
    ensures var p, check := PacketOf(h, o), CheckOf(h, o);
            Sound(p) && SeqExpected(s.host, p) && |check| == (if HdrCrc(p) then 2 else 0) && Intact(p, check)
            && (s.host.rxseqTxack == h.msgqTxseq ==>
                  AfterOrder(h, o).msgqTxseq == if HdrReliable(p) then (HdrSeq(p) + 1) % 8 else h.msgqTxseq)
  {
    BuiltPacket(h, o);
    hide PacketOf, CheckOf, HdrSeq, HdrReliable, HdrCrc, Intact;
    assert o in [o];
  }

  lemma SameBits(p: seq<byte>, check: seq<byte>)
    requires |p| >= 1
    ensures HdrReliable(p + check) == HdrReliable(p) && HdrSeq(p + check) == HdrSeq(p)
  {}

  lemma FirstDelivered(s: H5, h: Host, orders: seq<Order>) returns (t: H5)
    requires Waiting(s) && HostOk(h) && OrdersOk(orders) && InStep(s, h, orders)
    requires orders != []
    ensures var o, h1 := orders[0], AfterOrder(h, orders[0]);
            t.host.log == s.host.log + [PacketOf(h, o)]
            && t.host == Complete(s.host, PacketOf(h, o) + CheckOf(h, o), |PacketOf(h, o)|)
            && (!t.host.exited ==> Waiting(t) && InStep(t, h1, orders[1..]))
            && t == Recv(s, Frame(PacketOf(h, o) + CheckOf(h, o)))
            && Recv(s, Stream(h, orders)) == Recv(t, Stream(h1, orders[1..]))
  {
    var o, h1 := orders[0], AfterOrder(h, orders[0]);
    OrdersFirst(orders);
    StreamFirst(h, orders);
    InStepFirst(s, h, orders);
    OrderDelivered(s, h, o);
    t := Recv(s, Frame(PacketOf(h, o) + CheckOf(h, o)));
    if !t.host.exited { InStepRest(s, t, h, h1, orders); }
    hide *;
    RecvConcat(s, Frame(PacketOf(h, o) + CheckOf(h, o)), Stream(h1, orders[1..]));
  }

  /** From s to t the first k of the packets were completed, once each and in order; all of them
      unless the process ended after one of them. */
  predicate Delivered(s: H5, t: H5, packets: seq<seq<byte>>, k: nat) {
    k <= |packets| && t.host.log == s.host.log + packets[..k]
    && (k < |packets| ==> t.host.exited) && (!t.host.exited ==> Waiting(t))
  }

  lemma DeliveredOne(s: H5, t: H5, u: H5, p: seq<byte>, rest: seq<seq<byte>>, k: nat)
    requires t.host.log == s.host.log + [p] && Delivered(t, u, rest, k)
    ensures Delivered(s, u, [p] + rest, k + 1)
  {
    assert s.host.log + ([p] + rest)[..k + 1] == (s.host.log + [p]) + rest[..k];
  }

  /** Every list of built packets is completed once each and in order, unless the process ends
      after one of them. */
  lemma {:induction false} StreamRoundTrip(s: H5, h: Host, orders: seq<Order>) returns (k: nat)
    requires Waiting(s) && HostOk(h) && OrdersOk(orders) && InStep(s, h, orders)
    ensures Delivered(s, Recv(s, Stream(h, orders)), Packets(h, orders), k)
    decreases orders
  {
    if orders == [] {
      k := 0;
    } else {
      hide *;
      OrdersFirst(orders);
      var t := FirstDelivered(s, h, orders);
      StreamFirst(h, orders);
      var p, h1 := PacketOf(h, orders[0]), AfterOrder(h, orders[0]);
      var rest := Packets(h1, orders[1..]);
      if t.host.exited {
        k := 0;
        RecvExited(t, Stream(h1, orders[1..]));
        DeliveredNone(t, rest);
      } else {
        k := StreamRoundTrip(t, h1, orders[1..]);
      }
      DeliveredOne(s, t, Recv(t, Stream(h1, orders[1..])), p, rest, k);
      k := k + 1;
    }
  }

  lemma DeliveredNone(t: H5, packets: seq<seq<byte>>)
    requires t.host.exited
    ensures Delivered(t, t, packets, 0)
  {
    assert t.host.log + packets[..0] == t.host.log;
  }

  lemma StreamFirst(h: Host, orders: seq<Order>)
    requires HostOk(h) && orders != [] && OrdersOk(orders)
    ensures var o, h1 := orders[0], AfterOrder(h, orders[0]);
            Stream(h, orders) == Frame(PacketOf(h, o) + CheckOf(h, o)) + Stream(h1, orders[1..])
            && Packets(h, orders) == [PacketOf(h, o)] + Packets(h1, orders[1..])
  {
    BuiltFrame(h, orders[0]);
  }

  lemma InStepFirst(s: H5, h: Host, orders: seq<Order>)
    requires orders != [] && InStep(s, h, orders)
    ensures InStep(s, h, [orders[0]])
  {}

  lemma InStepRest(s: H5, t: H5, h: Host, h1: Host, orders: seq<Order>)
    requires orders != [] && InStep(s, h, orders)
    requires s.host.rxseqTxack == h.msgqTxseq ==> t.host.rxseqTxack == h1.msgqTxseq
    ensures InStep(t, h1, orders[1..])
  {}

  // ----- streams put together

  function AfterOrders(h: Host, orders: seq<Order>): (r: Host)
    requires HostOk(h) && OrdersOk(orders)
    ensures HostOk(r)
    decreases orders
  {
    if orders == [] then h else AfterOrders(AfterOrder(h, orders[0]), orders[1..])
  }

  lemma OrdersConcat(a: seq<Order>, b: seq<Order>)
    requires OrdersOk(a) && OrdersOk(b)
    ensures OrdersOk(a + b)
  {}

  lemma {:induction false} StreamConcat(h: Host, a: seq<Order>, b: seq<Order>)
    requires HostOk(h) && OrdersOk(a) && OrdersOk(b) && OrdersOk(a + b)
    ensures Stream(h, a + b) == Stream(h, a) + Stream(AfterOrders(h, a), b)
    ensures AfterOrders(h, a + b) == AfterOrders(AfterOrders(h, a), b)
    decreases a
  {
    if a == [] {
      assert a + b == b;
    } else {
      OrdersFirst(a);
      OrdersConcat(a[1..], b);
      var h1 := AfterOrder(h, a[0]);
      assert (a + b)[0] == a[0] && (a + b)[1..] == a[1..] + b;
      hide Prepare, AfterOrder, Sender, OrdersOk, HostOk;
      StreamConcat(h1, a[1..], b);
      Assoc(FrameOf(h, a[0]), Stream(h1, a[1..]), Stream(AfterOrders(h1, a[1..]), b));
    }
  }

  /** A stream depends on the sender only through the number of its next reliable packet. */
  lemma {:induction false} StreamSameSender(h: Host, g: Host, orders: seq<Order>)
    requires HostOk(h) && HostOk(g) && OrdersOk(orders) && h.msgqTxseq == g.msgqTxseq
    ensures Stream(h, orders) == Stream(g, orders)
    ensures AfterOrders(h, orders).msgqTxseq == AfterOrders(g, orders).msgqTxseq
    decreases orders
  {
    if orders != [] {
      OrdersFirst(orders);
      SameSender(h, g, orders[0]);
      hide Prepare, AfterOrder, Sender;
      StreamSameSender(AfterOrder(h, orders[0]), AfterOrder(g, orders[0]), orders[1..]);
    }
  }

  lemma SameSender(h: Host, g: Host, o: Order)
    requires HostOk(h) && HostOk(g) && OrderOk(o) && h.msgqTxseq == g.msgqTxseq
    ensures Prepare(Sender(h, o), o.payload, o.kind).1 == Prepare(Sender(g, o), o.payload, o.kind).1
    ensures AfterOrder(h, o).msgqTxseq == AfterOrder(g, o).msgqTxseq
  {
    hide Frame, PacketBytes;
  }

  // ----- streams that do not end the process

  /** Not a command complete event, or not too short for its headers; the first byte of an empty
      payload is that of the check bytes, if there are any. */
  predicate Quiet(o: Order) {
    !PassedUp(o.kind) || |o.payload| >= 5 || (o.payload != [] && o.payload[0] != 0x0e)
  }

  lemma QuietDelivered(s: H5, h: Host, o: Order)
    requires Waiting(s) && HostOk(h) && OrderOk(o) && InStep(s, h, [o]) && Quiet(o)
    ensures !Recv(s, Frame(PacketOf(h, o) + CheckOf(h, o))).host.exited
  {
    var p, check := PacketOf(h, o), CheckOf(h, o);
    BuiltPacket(h, o);
    OrderDelivered(s, h, o);
    assert HdrType(p + check) == HdrType(p) == o.kind;
    assert o.payload != [] ==> At(p + check, 4) == o.payload[0];
    hide PacketOf, CheckOf, Complete, HdrType, At;
    ExitsExactly(s.host, p + check, |p|);
  }

  /** The only input that ends the process is a command complete event too short for its headers,
      passed up while commands are being completed. */
  lemma ExitsExactly(h: Host, buf: seq<byte>, len: nat)
    requires 4 <= len <= |buf| && HostOk(h)
    ensures Complete(h, buf, len).exited <==>
            h.exited || (h.link in {Init, HciReset} && PassedUp(HdrType(buf)) && At(buf, 4) == 0x0e && len < 9)
  {
    hide SendAck, HciRecvFrame, HandleInternal;
  }

  predicate AllQuiet(orders: seq<Order>) {
    forall o :: o in orders ==> Quiet(o)
  }

  lemma AllQuietFirst(orders: seq<Order>)
    requires AllQuiet(orders) && orders != []
    ensures Quiet(orders[0]) && AllQuiet(orders[1..])
  {}

  lemma {:induction false} QuietNeverExits(s: H5, h: Host, orders: seq<Order>)
    requires Waiting(s) && HostOk(h) && OrdersOk(orders) && InStep(s, h, orders) && AllQuiet(orders)
    ensures !Recv(s, Stream(h, orders)).host.exited
    decreases orders
  {
    if orders != [] {
      OrdersFirst(orders);
      AllQuietFirst(orders);
      InStepFirst(s, h, orders);
      hide *;
      QuietDelivered(s, h, orders[0]);
      var t := FirstDelivered(s, h, orders);
      QuietNeverExits(t, AfterOrder(h, orders[0]), orders[1..]);
    } else {
      hide Frame;
    }
  }

  /** A stream of built packets, none of them a command complete event too short for its headers, is
      completed whole, whatever the link state. */
  lemma QuietRoundTrip(s: H5, h: Host, orders: seq<Order>)
    requires Waiting(s) && HostOk(h) && OrdersOk(orders) && InStep(s, h, orders) && AllQuiet(orders)
    ensures var t := Recv(s, Stream(h, orders));
            t.host.log == s.host.log + Packets(h, orders) && Waiting(t)
  {
    QuietNeverExits(s, h, orders);
    hide Recv, Stream, Packets, InStep;
    var k := StreamRoundTrip(s, h, orders);
    assert Packets(h, orders)[..k] == Packets(h, orders);
  }

  // ----- exactly which streams end the process

  /** Passed up, too short for the headers of a command complete event, and taken for one. */
  predicate Fatal(h: Host, o: Order)
    requires HostOk(h) && OrderOk(o)
  {
    PassedUp(o.kind) && |o.payload| < 5 && At(PacketOf(h, o) + CheckOf(h, o), 4) == 0x0e
  }

  /** The receiver after it has completed a built packet. */
  function Handed(g: Host, h: Host, o: Order): (r: Host)
    requires HostOk(g) && HostOk(h) && OrderOk(o)
    ensures HostOk(r)
  {
    Complete(g, PacketOf(h, o) + CheckOf(h, o), |PacketOf(h, o)|)
  }

  /** The receiver after it has completed the packets, up to one that ended the process. */
  function HandedAll(g: Host, h: Host, orders: seq<Order>): (r: Host)
    requires HostOk(g) && HostOk(h) && OrdersOk(orders)
    ensures HostOk(r)
    decreases orders
  {
    if orders == [] || g.exited then g
    else HandedAll(Handed(g, h, orders[0]), AfterOrder(h, orders[0]), orders[1..])
  }

  /** One of the packets is fatal, and is met in a link state in which commands are completed. */
  predicate Exits(g: Host, h: Host, orders: seq<Order>)
    requires HostOk(g) && HostOk(h) && OrdersOk(orders)
    decreases orders
  {
    orders != []
    && ((g.link in {Init, HciReset} && Fatal(h, orders[0]))
        || Exits(Handed(g, h, orders[0]), AfterOrder(h, orders[0]), orders[1..]))
  }

  lemma HandedExits(g: Host, h: Host, o: Order)
    requires HostOk(g) && HostOk(h) && OrderOk(o) && !g.exited
    ensures Handed(g, h, o).exited <==> g.link in {Init, HciReset} && Fatal(h, o)
  {
    var p, check := PacketOf(h, o), CheckOf(h, o);
    BuiltPacket(h, o);
    assert HdrType(p + check) == HdrType(p) == o.kind;
    hide PacketOf, CheckOf, Complete, HdrType, At;
    ExitsExactly(g, p + check, |p|);
  }

  /** Receiving a stream of built packets is completing them one by one. */
  lemma {:induction false} StreamHanded(s: H5, h: Host, orders: seq<Order>)
    requires Waiting(s) && HostOk(h) && OrdersOk(orders) && InStep(s, h, orders)
    ensures Recv(s, Stream(h, orders)).host == HandedAll(s.host, h, orders)
    decreases orders
  {
    if orders != [] {
      OrdersFirst(orders);
      var t := FirstDelivered(s, h, orders);
      hide Recv, Stream, FrameOf, PacketOf, CheckOf, AfterOrder, InStep, Complete, OrdersOk, Waiting;
      HandedFirst(s.host, h, orders);
      if t.host.exited {
        RecvExited(t, Stream(AfterOrder(h, orders[0]), orders[1..]));
      } else {
        StreamHanded(t, AfterOrder(h, orders[0]), orders[1..]);
      }
    } else {
      hide Frame;
    }
  }

  lemma HandedFirst(g: Host, h: Host, orders: seq<Order>)
    requires HostOk(g) && HostOk(h) && OrdersOk(orders) && orders != [] && !g.exited
    ensures OrdersOk(orders[1..]) && OrderOk(orders[0])
    ensures HandedAll(g, h, orders) == HandedAll(Handed(g, h, orders[0]), AfterOrder(h, orders[0]), orders[1..])
    ensures Handed(g, h, orders[0]).exited ==> HandedAll(g, h, orders) == Handed(g, h, orders[0])
  {
    OrdersFirst(orders);
    hide Handed, AfterOrder;
  }

  lemma {:induction false} HandedAllExits(g: Host, h: Host, orders: seq<Order>)
    requires HostOk(g) && HostOk(h) && OrdersOk(orders) && !g.exited
    ensures HandedAll(g, h, orders).exited <==> Exits(g, h, orders)
    decreases orders
  {
    if orders != [] {
      HandedFirst(g, h, orders);
      HandedExits(g, h, orders[0]);
      hide Handed, AfterOrder, Fatal;
      var g1 := Handed(g, h, orders[0]);
      if !g1.exited { HandedAllExits(g1, AfterOrder(h, orders[0]), orders[1..]); }
    }
  }

  /** A stream of built packets ends the process exactly when one of them is fatal in the link state
      it meets; exactly otherwise every packet is completed, once and in order, and the next frame is
      awaited. */
  lemma StreamWholeExactly(s: H5, h: Host, orders: seq<Order>)
    requires Waiting(s) && HostOk(h) && OrdersOk(orders) && InStep(s, h, orders)
    ensures var t := Recv(s, Stream(h, orders));
            (t.host.exited <==> Exits(s.host, h, orders))
            && (t.host.log == s.host.log + Packets(h, orders) && Waiting(t) <==> !Exits(s.host, h, orders))
  {
    StreamHanded(s, h, orders);
    HandedAllExits(s.host, h, orders);
    hide Recv, Stream, Packets, InStep, HandedAll, Exits;
    var k := StreamRoundTrip(s, h, orders);
    assert Packets(h, orders)[..|orders|] == Packets(h, orders);
  }

  /** Reception does not take the link out of INIT. */
  lemma InitStays(g: Host, h: Host, o: Order)
    requires HostOk(g) && HostOk(h) && OrderOk(o) && g.link == Init
    ensures Handed(g, h, o).link == Init
  {
    hide SendAck, PacketOf, CheckOf, HdrType, EventOpcode, CountedOpcode;
  }

  /** Some packet of the list, sent with the number it then gets, is fatal. */
  predicate SomeFatal(h: Host, orders: seq<Order>)
    requires HostOk(h) && OrdersOk(orders)
    decreases orders
  {
    orders != [] && (Fatal(h, orders[0]) || SomeFatal(AfterOrder(h, orders[0]), orders[1..]))
  }

  lemma {:induction false} ExitsFromInit(g: Host, h: Host, orders: seq<Order>)
    requires HostOk(g) && HostOk(h) && OrdersOk(orders) && g.link == Init
    ensures Exits(g, h, orders) <==> SomeFatal(h, orders)
    decreases orders
  {
    if orders != [] {
      OrdersFirst(orders);
      InitStays(g, h, orders[0]);
      hide Handed, AfterOrder, Fatal;
      ExitsFromInit(Handed(g, h, orders[0]), AfterOrder(h, orders[0]), orders[1..]);
    }
  }

  /** While the host initialises the controller, a stream ends the process exactly when some packet of
      it is fatal. */
  lemma InitExitsExactly(s: H5, h: Host, orders: seq<Order>)
    requires Waiting(s) && HostOk(h) && OrdersOk(orders) && InStep(s, h, orders) && s.host.link == Init
    ensures Recv(s, Stream(h, orders)).host.exited <==> SomeFatal(h, orders)
  {
    hide Recv, Stream, Exits, InStep;
    StreamWholeExactly(s, h, orders);
    ExitsFromInit(s.host, h, orders);
  }

  /** A command complete event without its headers, received in INIT, ends the process. */
  lemma ShortEventExits(s: H5, h: Host)
    requires Waiting(s) && HostOk(h) && s.host.rxseqTxack == h.msgqTxseq && s.host.link == Init
    ensures var orders := [Order(0, false, HCI_EVENT_PKT, [0x0e])];
            OrdersOk(orders) && Recv(s, Stream(h, orders)).host.exited
  {
    var o := Order(0, false, HCI_EVENT_PKT, [0x0e]);
    assert OrderOk(o) && OrdersOk([o]);
    assert At(PacketOf(h, o) + CheckOf(h, o), 4) == 0x0e;
    hide Recv, Stream;
    InitExitsExactly(s, h, [o]);
  }
}
