/** A line on which the last reliable frame may be written again at any time, and what a receiver
    makes of it. */
module Retransmission {
  import opened DataIntegrity
  import opened Slip
  import opened Transport
  import opened Reception
  import opened Delivery

  /** What the line depends on: the number of the next reliable packet, and the last reliable frame,
      empty before the first. */
  datatype Sending = Sending(seqno: nat, last: seq<byte>)

  /** A packet that is built and written, or the last reliable frame written again. */
  datatype Tx = First(order: Order) | Again

  /** A host that sends from this number. */
  function From(seqno: nat): (h: Host)
    requires seqno < 8
    ensures HostOk(h) && h.msgqTxseq == seqno
  {
    INITIAL.host.(msgqTxseq := seqno)
  }

  predicate TxOk(tx: Tx) {
    tx.First? ==> OrderOk(tx.order) && Quiet(tx.order)
  }

  predicate TxsOk(txs: seq<Tx>) {
    forall tx :: tx in txs ==> TxOk(tx)
  }

  /** The last frame, if there is one, is that of the reliable packet before the next. */
  ghost predicate SendingOk(x: Sending) {
    x.seqno < 8 && (x.last == [] || exists packet :: Before(x, packet))
  }

  predicate Before(x: Sending, packet: seq<byte>) {
    x.last == Frame(packet) && |packet| >= 4 && HdrChecksumOk(packet) && HdrReliable(packet)
    && (HdrSeq(packet) + 1) % 8 == x.seqno
  }

  function Written(x: Sending, tx: Tx): seq<byte>
    requires x.seqno < 8 && TxOk(tx)
  {
    match tx
    case First(o) => FrameOf(From(x.seqno), o)
    case Again => x.last
  }

  function Next(x: Sending, tx: Tx): (r: Sending)
    requires x.seqno < 8 && TxOk(tx)
    ensures r.seqno < 8
  {
    match tx
    case First(o) =>
      if SentReliably(o.kind) then Sending(AfterOrder(From(x.seqno), o).msgqTxseq, FrameOf(From(x.seqno), o)) else x
    case Again => x
  }

  lemma TxsFirst(txs: seq<Tx>)
    requires TxsOk(txs) && txs != []
    ensures TxOk(txs[0]) && TxsOk(txs[1..])
  {}

  /** All that is written. */
  function Line(x: Sending, txs: seq<Tx>): seq<byte>
    requires x.seqno < 8 && TxsOk(txs)
    decreases txs
  {
    if txs == [] then [] else Written(x, txs[0]) + Line(Next(x, txs[0]), txs[1..])
  }

  function After(x: Sending, txs: seq<Tx>): (r: Sending)
    requires x.seqno < 8 && TxsOk(txs)
    ensures r.seqno < 8
    decreases txs
  {
    if txs == [] then x else After(Next(x, txs[0]), txs[1..])
  }

  /** What is completed for one transmission. */
  function Completed(x: Sending, tx: Tx): seq<seq<byte>>
    requires x.seqno < 8 && TxOk(tx)
  {
    if tx.First? then [PacketOf(From(x.seqno), tx.order)] else []
  }

  /** The packets built, in order. */
  function PacketsOn(x: Sending, txs: seq<Tx>): seq<seq<byte>>
    requires x.seqno < 8 && TxsOk(txs)
    decreases txs
  {
    if txs == [] then []
    else assert TxOk(txs[0]); Completed(x, txs[0]) + PacketsOn(Next(x, txs[0]), txs[1..])
  }

  lemma TxsConcat(a: seq<Tx>, b: seq<Tx>)
    requires TxsOk(a) && TxsOk(b)
    ensures TxsOk(a + b)
  {}

  lemma {:induction false} LineConcat(x: Sending, a: seq<Tx>, b: seq<Tx>)
    requires x.seqno < 8 && TxsOk(a) && TxsOk(b) && TxsOk(a + b)
    ensures Line(x, a + b) == Line(x, a) + Line(After(x, a), b)
    ensures After(x, a + b) == After(After(x, a), b)
    decreases a
  {
    if a == [] {
      assert a + b == b;
    } else {
      TxsFirst(a);
      TxsConcat(a[1..], b);
      var y := Next(x, a[0]);
      assert (a + b)[0] == a[0] && (a + b)[1..] == a[1..] + b;
      hide Written, Next, TxOk, TxsOk;
      LineConcat(y, a[1..], b);
      Assoc(Written(x, a[0]), Line(y, a[1..]), Line(After(y, a[1..]), b));
    }
  }

  // ----- streams of packets built once

  function Firsts(orders: seq<Order>): (txs: seq<Tx>)
    ensures |txs| == |orders| && forall i :: 0 <= i < |txs| ==> txs[i] == First(orders[i])
  {
    seq(|orders|, i requires 0 <= i < |orders| => First(orders[i]))
  }

  lemma SameFrames(h: Host, seqno: nat, o: Order)
    requires HostOk(h) && OrderOk(o) && h.msgqTxseq == seqno
    ensures seqno < 8 && FrameOf(h, o) == FrameOf(From(seqno), o)
    ensures AfterOrder(h, o).msgqTxseq == AfterOrder(From(seqno), o).msgqTxseq
  {
    SameSender(h, From(seqno), o);
  }

  /** A stream of unreliable packets leaves the sending state alone. */
  lemma {:induction false} StreamIsLine(h: Host, x: Sending, orders: seq<Order>)
    requires HostOk(h) && OrdersOk(orders) && AllQuiet(orders) && h.msgqTxseq == x.seqno
    requires forall o :: o in orders ==> !SentReliably(o.kind)
    ensures TxsOk(Firsts(orders)) && x.seqno < 8 && Line(x, Firsts(orders)) == Stream(h, orders)
    ensures After(x, Firsts(orders)) == x
    decreases orders
  {
    if orders != [] {
      OrdersFirst(orders);
      AllQuietFirst(orders);
      var h1 := AfterOrder(h, orders[0]);
      SameFrames(h, x.seqno, orders[0]);
      assert h1.msgqTxseq == h.msgqTxseq;
      hide AfterOrder, FrameOf, OrdersOk, AllQuiet, OrderOk, Quiet;
      StreamIsLine(h1, x, orders[1..]);
      assert Firsts(orders)[1..] == Firsts(orders[1..]);
    }
  }

  // ----- what a receiver makes of it

  lemma NextOk(x: Sending, tx: Tx)
    requires SendingOk(x) && TxOk(tx)
    ensures SendingOk(Next(x, tx))
  {
    if tx.First? && SentReliably(tx.order.kind) {
      var h, o := From(x.seqno), tx.order;
      BuiltPacket(h, o);
      BuiltFrame(h, o);
      SameBits(PacketOf(h, o), CheckOf(h, o));
      var y := Next(x, tx);
      SameSum(PacketOf(h, o), CheckOf(h, o));
      hide PacketOf, CheckOf, Frame, HdrChecksumOk, HdrReliable, HdrSeq;
      assert Before(y, PacketOf(h, o) + CheckOf(h, o));
    }
  }

  lemma SameSum(p: seq<byte>, check: seq<byte>)
    requires |p| >= 4
    ensures HdrChecksumOk(p + check) == HdrChecksumOk(p)
  {}

  /** A receiver that expects the next number drops a repeat. */
  lemma RepeatDropped(s: H5, x: Sending)
    requires Waiting(s) && SendingOk(x) && s.host.rxseqTxack == x.seqno && !IndexAtTotal(s.host)
    ensures var t := Recv(s, x.last);
            Waiting(t) && t.host.log == s.host.log && t.host.rxseqTxack == x.seqno && !IndexAtTotal(t.host)
  {
    if x.last != [] {
      var packet :| Before(x, packet);
      assert !SeqExpected(s.host, packet);
      hide Recv, Frame, HdrChecksumOk, HdrSeq, HdrReliable, SeqExpected;
      FrameRefused(s, packet);
    }
  }

  lemma FirstCompleted(s: H5, x: Sending, o: Order)
    requires Waiting(s) && x.seqno < 8 && OrderOk(o) && Quiet(o)
    requires s.host.rxseqTxack == x.seqno && !IndexAtTotal(s.host)
    ensures var t := Recv(s, FrameOf(From(x.seqno), o));
            Waiting(t) && t.host.log == s.host.log + [PacketOf(From(x.seqno), o)] && !IndexAtTotal(t.host)
            && t.host.rxseqTxack == AfterOrder(From(x.seqno), o).msgqTxseq
  {
    var h := From(x.seqno);
    BuiltFrame(h, o);
    hide Recv, Frame, PacketOf, CheckOf, AfterOrder, Complete;
    OrderDelivered(s, h, o);
    QuietDelivered(s, h, o);
    CompleteNumbers(s.host, PacketOf(h, o) + CheckOf(h, o), |PacketOf(h, o)|);
  }

  lemma NextSeqno(x: Sending, o: Order)
    requires x.seqno < 8 && TxOk(First(o))
    ensures Next(x, First(o)).seqno == AfterOrder(From(x.seqno), o).msgqTxseq
  {
    hide Frame, PacketBytes;
  }

  /** Every packet built is completed once and in order, however often and wherever the last
      reliable frame is written again. */
  lemma {:induction false} LineDelivered(s: H5, x: Sending, txs: seq<Tx>)
    requires Waiting(s) && SendingOk(x) && TxsOk(txs) && s.host.rxseqTxack == x.seqno && !IndexAtTotal(s.host)
    ensures var t := Recv(s, Line(x, txs));
            Waiting(t) && t.host.log == s.host.log + PacketsOn(x, txs) && t.host.rxseqTxack == After(x, txs).seqno
    decreases txs
  {
    if txs == [] {
      LineNone(s, x);
    } else {
      TxsFirst(txs);
      NextOk(x, txs[0]);
      hide *;
      var t := OneWritten(s, x, txs[0]);
      LineDelivered(t, Next(x, txs[0]), txs[1..]);
      RecvConcat(s, Written(x, txs[0]), Line(Next(x, txs[0]), txs[1..]));
      LineFirst(s, x, txs);
    }
  }

  lemma LineNone(s: H5, x: Sending)
    requires Ok(s) && x.seqno < 8
    ensures Line(x, []) == [] && Recv(s, []) == s && After(x, []) == x && PacketsOn(x, []) == []
    ensures s.host.log + [] == s.host.log
  {}

  lemma OneWritten(s: H5, x: Sending, tx: Tx) returns (t: H5)
    requires Waiting(s) && SendingOk(x) && TxOk(tx) && s.host.rxseqTxack == x.seqno && !IndexAtTotal(s.host)
    ensures t == Recv(s, Written(x, tx)) && Waiting(t) && !IndexAtTotal(t.host)
    ensures t.host.rxseqTxack == Next(x, tx).seqno && t.host.log == s.host.log + Completed(x, tx)
  {
    t := Recv(s, Written(x, tx));
    match tx
    case First(o) =>
      NextSeqno(x, o);
      hide Recv, FrameOf, PacketOf, AfterOrder, Next, Quiet, OrderOk;
      FirstCompleted(s, x, o);
    case Again =>
      hide Recv;
      RepeatDropped(s, x);
  }

  lemma LineFirst(s: H5, x: Sending, txs: seq<Tx>)
    requires x.seqno < 8 && TxsOk(txs) && txs != []
    ensures TxOk(txs[0]) && TxsOk(txs[1..])
    ensures Line(x, txs) == Written(x, txs[0]) + Line(Next(x, txs[0]), txs[1..])
    ensures After(x, txs) == After(Next(x, txs[0]), txs[1..])
    ensures s.host.log + PacketsOn(x, txs) == s.host.log + Completed(x, txs[0]) + PacketsOn(Next(x, txs[0]), txs[1..])
  {}
}
