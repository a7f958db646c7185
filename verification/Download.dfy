/** The download of firmware and configuration by rtb_download_fwc over both transports: what is
    written to the line, whatever arrives meanwhile, and what the other end makes of it. */
module Download {
  import opened DataIntegrity
  import opened Slip
  import opened Transport
  import opened Reception
  import opened Delivery
  import opened Runs
  import opened Retransmission
  import opened PatchPackets
  import opened HostRuns
  import opened Rtb
  import opened Options

  // ----- one patch packet

  /** The HCI command that carries a patch packet. */
  function PatchCommand(p: PatchPkt): seq<byte>
    requires |p.data| <= PATCH_DATA_FIELD_MAX_SIZE
  {
    [0x20, 0xfc, |p.data| + 1, p.index] + p.data
  }

  function PatchOrder(h: Host, p: PatchPkt): (o: Order)
    requires HostOk(h) && |p.data| <= PATCH_DATA_FIELD_MAX_SIZE
    ensures OrderOk(o)
  {
    Order(h.rxseqTxack, h.useCrc, HCI_COMMAND_PKT, PatchCommand(p))
  }

  function NextSeq(seqno: nat): (r: nat)
    ensures r < 8
  {
    (seqno + 1) % 8
  }

  /** The connection once a patch packet has been written. */
  function AfterPatch(h: Host, p: PatchPkt): (r: Host)
    requires HostOk(h) && |p.data| <= PATCH_DATA_FIELD_MAX_SIZE
    ensures HostOk(r) && r.msgqTxseq == NextSeq(h.msgqTxseq)
  {
    var o := PatchOrder(h, p);
    h.(txIndex := p.index % 0x80, isTxackReq := false, msgqTxseq := NextSeq(h.msgqTxseq),
       wire := h.wire + FrameOf(h, o))
  }

  lemma PatchWritten(h: Host, h1: Host, p: PatchPkt, cmd: seq<byte>)
    requires HostOk(h) && |p.data| <= PATCH_DATA_FIELD_MAX_SIZE
    requires h1 == h.(txIndex := p.index % 0x80) && cmd == PatchCommand(p)
    ensures var (h2, frame) := Prepare(h1, cmd, HCI_COMMAND_PKT);
            frame.value == FrameOf(h, PatchOrder(h, p)) && h2.(wire := h2.wire + frame.value) == AfterPatch(h, p)
  {
    hide Frame, PacketBytes, PatchCommand;
    assert Sender(h, PatchOrder(h, p)) == h;
  }

  /** What epoll_wait reports of one descriptor: bytes that were read, or the timer. */
  datatype Ready = Data(bytes: seq<byte>) | Timeout

  /** What one report does: bytes are received, a timeout writes the frame again while retry lasts. */
  function Reported(s: H5, frame: seq<byte>, retry: nat, r: Ready): (t: H5)
    requires Ok(s)
    ensures Ok(t)
  {
    match r
    case Data(bytes) => Recv(s, bytes)
    case Timeout =>
      s.(host := if retry == 0 then s.host.(exited := true) else s.host.(wire := s.host.wire + frame))
  }

  function Retries(retry: nat, r: Ready): nat {
    if r.Timeout? && retry > 0 then retry - 1 else retry
  }

  /** What all reports of one epoll_wait do, and the retransmissions left. */
  function Batch(s: H5, frame: seq<byte>, retry: nat, batch: seq<Ready>): (r: (H5, nat))
    requires Ok(s)
    ensures Ok(r.0)
    decreases batch
  {
    if batch == [] || s.host.exited then (s, retry)
    else Batch(Reported(s, frame, retry, batch[0]), frame, Retries(retry, batch[0]), batch[1..])
  }

  predicate IndexMet(h: Host) {
    !h.exited && h.rxIndex == h.txIndex
  }

  /** The wait of h5_download_patch once its frame is written, with the reports of each epoll_wait, until
      rx_index has met tx_index: false if the process ends, or the reports do. */
  function Await(s: H5, frame: seq<byte>, retry: nat, ready: seq<seq<Ready>>): (r: (H5, bool))
    requires Ok(s)
    ensures Ok(r.0)
    decreases ready
  {
    if ready == [] || s.host.exited then (s, false)
    else
      var (t, left) := Batch(s, frame, retry, ready[0]);
      if IndexMet(t.host) then (t, true) else Await(t, frame, left, ready[1..])
  }

  /** The sending half of h5_download_patch. */
  method WritePatch(rtb: RtbStruct, p: PatchPkt) returns (frame: seq<byte>)
    requires rtb.Valid() && |p.data| <= PATCH_DATA_FIELD_MAX_SIZE
    modifies rtb`txIndex, rtb`isTxackReq, rtb`msgqTxseq, rtb`wire
    ensures rtb.HostState() == AfterPatch(old(rtb.HostState()), p)
    ensures frame == FrameOf(old(rtb.HostState()), PatchOrder(old(rtb.HostState()), p))
  {
    ghost var h := rtb.HostState();
    rtb.txIndex := if p.index / 0x80 % 2 == 1 then p.index % 0x80 else p.index;
    var hciPatch: seq<byte> := [0x20, 0xfc, |p.data| + 1, p.index] + p.data;
    PatchWritten(h, rtb.HostState(), p, hciPatch);
    hide Prepare, AfterPatch, FrameOf, PatchOrder;
    frame := rtb.WritePkt(hciPatch, HCI_COMMAND_PKT);
  }

  /** One report. */
  method HandleReport(rtb: RtbStruct, frame: seq<byte>, retry: nat, r: Ready) returns (retry': nat)
    requires rtb.Valid()
    modifies rtb, rtb.Footprint()
    ensures rtb.Valid() && rtb.FootprintKept() && retry' == Retries(retry, r)
    ensures rtb.State() == Reported(old(rtb.State()), frame, retry, r)
  {
    hide Recv;
    retry' := retry;
    match r
    {
      case Data(bytes) =>
        rtb.Recv(bytes);
      case Timeout =>
        if retry == 0 {
          rtb.exited := true;
        } else {
          rtb.wire := rtb.wire + frame;
          retry' := retry - 1;
        }
    }
  }

  /** The loop over the reports of one epoll_wait. */
  method HandleBatch(rtb: RtbStruct, frame: seq<byte>, retry: nat, batch: seq<Ready>) returns (retry': nat)
    requires rtb.Valid()
    modifies rtb, rtb.Footprint()
    ensures rtb.Valid() && rtb.FootprintKept()
    ensures (rtb.State(), retry') == Batch(old(rtb.State()), frame, retry, batch)
  {
    hide Reported, Retries, RxOk;
    ghost var s := rtb.State();
    retry' := retry;
    var n := 0;
    while n < |batch| && !rtb.exited
      invariant 0 <= n <= |batch| && rtb.Valid() && rtb.FootprintKept()
      invariant Batch(s, frame, retry, batch) == Batch(rtb.State(), frame, retry', batch[n..])
    {
      BatchStep(rtb.State(), frame, retry', batch[n..]);
      assert batch[n..][1..] == batch[n + 1..];
      retry' := HandleReport(rtb, frame, retry', batch[n]);
      n := n + 1;
    }
  }

  lemma BatchStep(s: H5, frame: seq<byte>, retry: nat, batch: seq<Ready>)
    requires Ok(s) && batch != [] && !s.host.exited
    ensures Batch(s, frame, retry, batch)
         == Batch(Reported(s, frame, retry, batch[0]), frame, Retries(retry, batch[0]), batch[1..])
  {}

  /** h5_download_patch, with the reports of each epoll_wait. */
  method H5DownloadPatch(rtb: RtbStruct, p: PatchPkt, ready: seq<seq<Ready>>) returns (ok: bool)
    requires rtb.Valid() && |p.data| <= PATCH_DATA_FIELD_MAX_SIZE
    modifies rtb, rtb.Footprint()
    ensures rtb.Valid() && rtb.FootprintKept()
    ensures var h := old(rtb.HostState());
            (rtb.State(), ok)
            == Await(old(rtb.State()).(host := AfterPatch(h, p)), FrameOf(h, PatchOrder(h, p)), 3, ready)
  {
    hide AfterPatch, FrameOf, PatchOrder, Batch, RxOk;
    ghost var s := rtb.State().(host := AfterPatch(rtb.HostState(), p));
    var frame := WritePatch(rtb, p);
    var retry, i := 3, 0;
    ok := false;
    while i < |ready| && !ok && !rtb.exited
      invariant 0 <= i <= |ready| && rtb.Valid() && rtb.FootprintKept()
      invariant Await(s, frame, 3, ready)
             == if ok then (rtb.State(), ok) else Await(rtb.State(), frame, retry, ready[i..])
    {
      AwaitStep(rtb.State(), frame, retry, ready[i..]);
      retry := HandleBatch(rtb, frame, retry, ready[i]);
      ok := !rtb.exited && rtb.rxIndex == rtb.txIndex;
      i := i + 1;
    }
  }

  lemma AwaitStep(s: H5, frame: seq<byte>, retry: nat, ready: seq<seq<Ready>>)
    requires Ok(s) && ready != [] && !s.host.exited
    ensures var (t, left) := Batch(s, frame, retry, ready[0]);
            Await(s, frame, retry, ready) == if IndexMet(t.host) then (t, true) else Await(t, frame, left, ready[1..])
  {}

  // ----- what the receiver writes meanwhile

  predicate Ack(o: Order) {
    o.kind == H5_ACK_PKT && o.payload == []
  }

  predicate Acks(orders: seq<Order>) {
    forall o :: o in orders ==> Ack(o)
  }

  /** From h to r at most one acknowledgement was written, and no sequence number taken. */
  predicate MayAck(h: Host, r: Host, acks: seq<Order>)
    requires HostOk(h)
  {
    OrdersOk(acks) && Acks(acks) && |acks| <= 1
    && r.wire == h.wire + (if acks == [] then [] else FrameOf(h, acks[0]))
    && r.msgqTxseq == h.msgqTxseq && (Established(h.link) ==> Established(r.link))
  }

  lemma SendAckWrites(h: Host, h2: Host) returns (acks: seq<Order>)
    requires HostOk(h) && HostOk(h2) && h2.wire == h.wire && h2.msgqTxseq == h.msgqTxseq
    requires Established(h.link) ==> Established(h2.link)
    ensures MayAck(h, SendAck(h2), acks)
  {
    acks := [Order(h2.rxseqTxack, h2.useCrc, H5_ACK_PKT, [])];
    hide Frame, PacketBytes;
  }

  lemma DispatchWrites(h: Host, buf: seq<byte>, len: nat)
    requires 4 <= len <= |buf| && HostOk(h) && Established(h.link)
    ensures var r := Dispatch(h, buf, len); r.wire == h.wire && Established(r.link)
  {
    hide HdrType, EventOpcode, CountedOpcode, SendAck;
  }

  lemma CompleteWrites(h: Host, buf: seq<byte>, len: nat) returns (acks: seq<Order>)
    requires 4 <= len <= |buf| && HostOk(h) && Established(h.link)
    ensures MayAck(h, Complete(h, buf, len), acks)
  {
    var h1 := NoteNumbers(h, buf[..len]);
    DispatchWrites(h1, buf, len);
    var h2 := Dispatch(h1, buf, len);
    assert h2.wire == h.wire && h2.msgqTxseq == h.msgqTxseq && Established(h2.link);
    hide Dispatch, NoteNumbers, SendAck;
    if !h2.exited && h2.isTxackReq { acks := SendAckWrites(h, h2); } else { acks := []; }
  }

  lemma PassWrites(s: H5, b: byte) returns (acks: seq<Order>)
    requires Ok(s) && Established(s.host.link)
    ensures MayAck(s.host, Pass(s, b).0.host, acks)
  {
    hide Complete, FrameOf, Unslip, CrcMatches, HdrChecksumOk, HdrSeq, HdrReliable;
    acks := [];
    if s.rx.count == 0 && s.rx.state == W4Data && !HdrCrc(s.rx.buf) {
      acks := CompleteWrites(s.host, s.rx.buf, |s.rx.buf|);
    } else if s.rx.count == 0 && s.rx.state == W4Crc {
      var n := |s.rx.buf| - 2;
      if CrcMatches(s.rx.crc, s.rx.buf[n], s.rx.buf[n + 1]) { acks := CompleteWrites(s.host, s.rx.buf, n); }
    }
  }

  lemma AcksThen(h: Host, t: Host, acks: seq<Order>, more: seq<Order>)
    requires HostOk(h) && HostOk(t) && MayAck(h, t, acks) && OrdersOk(more) && Acks(more)
    ensures OrdersOk(acks + more) && Acks(acks + more)
    ensures t.wire + Stream(t, more) == h.wire + Stream(h, acks + more)
    ensures AfterOrders(h, acks + more).msgqTxseq == AfterOrders(t, more).msgqTxseq
  {
    OrdersConcat(acks, more);
    StreamConcat(h, acks, more);
    var h' := AfterOrders(h, acks);
    assert h'.msgqTxseq == h.msgqTxseq && Stream(h, acks) == (if acks == [] then [] else FrameOf(h, acks[0])) by {
      OnlyAck(h, acks);
    }
    StreamSameSender(h', t, more);
    hide FrameOf, Stream, AfterOrders;
    Assoc(h.wire, Stream(h, acks), Stream(t, more));
  }

  lemma OnlyAck(h: Host, acks: seq<Order>)
    requires HostOk(h) && OrdersOk(acks) && Acks(acks) && |acks| <= 1
    ensures AfterOrders(h, acks).msgqTxseq == h.msgqTxseq
    ensures Stream(h, acks) == if acks == [] then [] else FrameOf(h, acks[0])
  {
    hide Frame, PacketBytes;
    if acks != [] {
      var h1 := AfterOrder(h, acks[0]);
      assert acks[1..] == [] && Stream(h1, []) == [] && AfterOrders(h1, []) == h1;
      assert Ack(acks[0]);
    }
  }

  /** Once the link is established, all that receiving writes to the line is a stream of
      acknowledgements built by h5_prepare_pkt. */
  lemma {:induction false} RecvWritesAcks(s: H5, data: seq<byte>) returns (acks: seq<Order>)
    requires Ok(s) && Established(s.host.link)
    ensures OrdersOk(acks) && Acks(acks)
    ensures var t := Recv(s, data);
            t.host.wire == s.host.wire + Stream(s.host, acks) && Established(t.host.link)
            && AfterOrders(s.host, acks).msgqTxseq == t.host.msgqTxseq == s.host.msgqTxseq
    decreases |data|, Rank(s.rx)
  {
    if data == [] || s.host.exited {
      acks := [];
    } else {
      var (t, consumed) := Pass(s, data[0]);
      PassProgress(s, data[0]);
      var first := PassWrites(s, data[0]);
      hide Pass, Rank, FrameOf, Stream, AfterOrders;
      var more := RecvWritesAcks(t, if consumed then data[1..] else data);
      AcksThen(s.host, t.host, first, more);
      acks := first + more;
    }
  }

  // ----- what the line carries

  /** The payloads of the commands among the packets built. */
  function Commands(txs: seq<Tx>): seq<seq<byte>> {
    if txs == [] then []
    else Commands(txs[..|txs| - 1]) + CommandIn(txs[|txs| - 1])
  }

  function CommandIn(tx: Tx): seq<seq<byte>> {
    if tx.First? && tx.order.kind == HCI_COMMAND_PKT then [tx.order.payload] else []
  }

  predicate Sendable(sent: seq<PatchPkt>) {
    forall p :: p in sent ==> |p.data| <= PATCH_DATA_FIELD_MAX_SIZE
  }

  function PatchCommands(sent: seq<PatchPkt>): seq<seq<byte>>
    requires Sendable(sent)
  {
    if sent == [] then [] else PatchCommands(sent[..|sent| - 1]) + [PatchCommand(sent[|sent| - 1])]
  }

  lemma {:induction false} CommandsConcat(a: seq<Tx>, b: seq<Tx>)
    ensures Commands(a + b) == Commands(a) + Commands(b)
  {
    if b == [] {
      assert a + b == a;
    } else {
      assert (a + b)[..|a + b| - 1] == a + b[..|b| - 1];
      CommandsConcat(a, b[..|b| - 1]);
    }
  }

  lemma {:induction false} AcksCarryNothing(acks: seq<Order>)
    requires Acks(acks)
    ensures Commands(Firsts(acks)) == [] && AllQuiet(acks) && forall o :: o in acks ==> !SentReliably(o.kind)
  {
    if acks != [] {
      var n := |acks| - 1;
      assert Ack(acks[n]);
      AcksCarryNothing(acks[..n]);
      assert acks == acks[..n] + [acks[n]] && Firsts(acks)[..n] == Firsts(acks[..n]);
    }
  }

  function Start(h0: Host): Sending {
    Sending(h0.msgqTxseq, [])
  }

  /** What was written since h0 is a line of built packets, none of which can end a receiver, and
      repeats of the last reliable frame; it carries the patch packets, in order, in its commands. */
  predicate Carries(h0: Host, h: Host, txs: seq<Tx>, sent: seq<PatchPkt>)
    requires HostOk(h0)
  {
    TxsOk(txs) && h.wire == h0.wire + Line(Start(h0), txs) && After(Start(h0), txs).seqno == h.msgqTxseq
    && Sendable(sent) && Commands(txs) == PatchCommands(sent)
  }

  lemma CarriesNothing(h0: Host)
    requires HostOk(h0)
    ensures Carries(h0, h0, [], [])
  {}

  /** More is written from h to t. */
  predicate Writes(x: Sending, h: Host, t: Host, more: seq<Tx>, y: Sending)
    requires x.seqno < 8
  {
    TxsOk(more) && t.wire == h.wire + Line(x, more) && After(x, more) == y && y.seqno == t.msgqTxseq
  }

  lemma CarriesMore(h0: Host, h: Host, t: Host, txs: seq<Tx>, sent: seq<PatchPkt>, more: seq<Tx>,
                    sent': seq<PatchPkt>, y: Sending)
    requires HostOk(h0) && Carries(h0, h, txs, sent) && Writes(After(Start(h0), txs), h, t, more, y)
    requires Sendable(sent') && Commands(txs + more) == PatchCommands(sent')
    ensures Carries(h0, t, txs + more, sent') && After(Start(h0), txs + more) == y
  {
    TxsConcat(txs, more);
    hide TxOk, TxsOk, Line, After, Commands, PatchCommands, Sendable;
    LineConcat(Start(h0), txs, more);
    Assoc(h0.wire, Line(Start(h0), txs), Line(After(Start(h0), txs), more));
  }

  lemma PatchCommandsAppend(sent: seq<PatchPkt>, p: PatchPkt)
    requires Sendable(sent) && |p.data| <= PATCH_DATA_FIELD_MAX_SIZE
    ensures Sendable(sent + [p]) && PatchCommands(sent + [p]) == PatchCommands(sent) + [PatchCommand(p)]
  {
    assert (sent + [p])[..|sent|] == sent;
  }

  lemma OneLine(x: Sending, tx: Tx)
    requires x.seqno < 8 && TxOk(tx)
    ensures TxsOk([tx]) && Line(x, [tx]) == Written(x, tx) && After(x, [tx]) == Next(x, tx)
    ensures Commands([tx]) == CommandIn(tx)
  {
    hide Written, Next, TxOk;
    assert [tx][1..] == [] && [tx][..0] == [];
    var y := Next(x, tx);
    assert Line(y, []) == [] && After(y, []) == y && Written(x, tx) + [] == Written(x, tx);
  }

  /** The frame of the packet that is waited for. */
  predicate LastIs(h0: Host, txs: seq<Tx>, frame: seq<byte>)
    requires HostOk(h0) && TxsOk(txs)
  {
    After(Start(h0), txs).last == frame
  }

  lemma PatchTx(h: Host, x: Sending, p: PatchPkt)
    requires HostOk(h) && |p.data| <= PATCH_DATA_FIELD_MAX_SIZE && x.seqno == h.msgqTxseq
    ensures var o, t := PatchOrder(h, p), AfterPatch(h, p);
            TxOk(First(o)) && CommandIn(First(o)) == [PatchCommand(p)]
            && t.wire == h.wire + Written(x, First(o)) && Next(x, First(o)) == Sending(t.msgqTxseq, FrameOf(h, o))
            && t.link == h.link && t.totalNum == h.totalNum && t.txIndex == p.index % 0x80
  {
    var o := PatchOrder(h, p);
    SameFrames(h, x.seqno, o);
    AfterPatchOrder(h, p);
    hide FrameOf, Frame, PacketBytes, AfterOrder;
  }

  lemma AfterPatchOrder(h: Host, p: PatchPkt)
    requires HostOk(h) && |p.data| <= PATCH_DATA_FIELD_MAX_SIZE
    ensures AfterPatch(h, p).msgqTxseq == AfterOrder(h, PatchOrder(h, p)).msgqTxseq
  {
    hide FrameOf, Frame, PacketBytes, PatchCommand;
  }

  /** A patch packet is written. */
  lemma CarriesPatch(h0: Host, h: Host, txs: seq<Tx>, sent: seq<PatchPkt>, p: PatchPkt)
    requires HostOk(h0) && HostOk(h) && Carries(h0, h, txs, sent) && |p.data| <= PATCH_DATA_FIELD_MAX_SIZE
    ensures var o := PatchOrder(h, p); var txs' := txs + [First(o)];
            Carries(h0, AfterPatch(h, p), txs', sent + [p]) && LastIs(h0, txs', FrameOf(h, o))
  {
    var x, o, t := After(Start(h0), txs), PatchOrder(h, p), AfterPatch(h, p);
    PatchTx(h, x, p);
    OneLine(x, First(o));
    PatchCommandsAppend(sent, p);
    CommandsConcat(txs, [First(o)]);
    hide Line, After, Commands, CommandIn, PatchCommands, PatchOrder, AfterPatch, FrameOf, TxsOk, TxOk, Written, Next,
         PatchCommand;
    CarriesMore(h0, h, t, txs, sent, [First(o)], sent + [p], Sending(t.msgqTxseq, FrameOf(h, o)));
  }

  /** The last frame is written again. */
  lemma CarriesAgain(h0: Host, h: Host, t: Host, txs: seq<Tx>, sent: seq<PatchPkt>, frame: seq<byte>)
    requires HostOk(h0) && Carries(h0, h, txs, sent) && LastIs(h0, txs, frame)
    requires t.wire == h.wire + frame && t.msgqTxseq == h.msgqTxseq
    ensures Carries(h0, t, txs + [Again], sent) && LastIs(h0, txs + [Again], frame)
  {
    var x := After(Start(h0), txs);
    OneLine(x, Again);
    CommandsConcat(txs, [Again]);
    hide Line, After, Commands, PatchCommands, TxsOk;
    assert Commands(txs) + [] == Commands(txs);
    CarriesMore(h0, h, t, txs, sent, [Again], sent, x);
  }

  /** Acknowledgements are written. */
  lemma CarriesAcks(h0: Host, h: Host, t: Host, txs: seq<Tx>, sent: seq<PatchPkt>, acks: seq<Order>)
    requires HostOk(h0) && HostOk(h) && Carries(h0, h, txs, sent) && OrdersOk(acks) && Acks(acks)
    requires t.wire == h.wire + Stream(h, acks) && t.msgqTxseq == h.msgqTxseq
    ensures Carries(h0, t, txs + Firsts(acks), sent)
    ensures After(Start(h0), txs + Firsts(acks)) == After(Start(h0), txs)
  {
    var x := After(Start(h0), txs);
    AcksCarryNothing(acks);
    hide Line, After, Commands, PatchCommands, TxsOk, Stream, OrdersOk, Acks, AllQuiet;
    StreamIsLine(h, x, acks);
    CommandsConcat(txs, Firsts(acks));
    assert Commands(txs) + [] == Commands(txs);
    CarriesMore(h0, h, t, txs, sent, Firsts(acks), sent, x);
  }

  /** Whatever is reported during the wait, the line carries what it carried. */
  lemma ReportCarries(h0: Host, s: H5, frame: seq<byte>, retry: nat, r: Ready, txs: seq<Tx>, sent: seq<PatchPkt>)
    returns (txs': seq<Tx>)
    requires HostOk(h0) && Ok(s) && Established(s.host.link) && Carries(h0, s.host, txs, sent) && LastIs(h0, txs, frame)
    ensures var t := Reported(s, frame, retry, r);
            Carries(h0, t.host, txs', sent) && LastIs(h0, txs', frame) && Established(t.host.link)
            && t.host.msgqTxseq == s.host.msgqTxseq
  {
    txs' := txs;
    match r
    case Data(bytes) =>
      var acks := RecvWritesAcks(s, bytes);
      hide Recv, Stream, AfterOrders, Line, After, Commands, PatchCommands, TxsOk, OrdersOk, Acks;
      CarriesAcks(h0, s.host, Recv(s, bytes).host, txs, sent, acks);
      txs' := txs + Firsts(acks);
    case Timeout =>
      if retry > 0 {
        hide Line, After, Commands, PatchCommands, TxsOk;
        CarriesAgain(h0, s.host, Reported(s, frame, retry, r).host, txs, sent, frame);
        txs' := txs + [Again];
      }
  }

  lemma {:induction false} BatchCarries(h0: Host, s: H5, frame: seq<byte>, retry: nat, batch: seq<Ready>,
                                        txs: seq<Tx>, sent: seq<PatchPkt>)
    returns (txs': seq<Tx>)
    requires HostOk(h0) && Ok(s) && Established(s.host.link) && Carries(h0, s.host, txs, sent) && LastIs(h0, txs, frame)
    ensures var t := Batch(s, frame, retry, batch).0;
            Carries(h0, t.host, txs', sent) && LastIs(h0, txs', frame) && Established(t.host.link)
            && t.host.msgqTxseq == s.host.msgqTxseq
    decreases batch
  {
    if batch == [] || s.host.exited {
      txs' := txs;
    } else {
      txs' := ReportCarries(h0, s, frame, retry, batch[0], txs, sent);
      hide Reported, Carries, LastIs, Retries, RxOk, Established;
      txs' := BatchCarries(h0, Reported(s, frame, retry, batch[0]), frame, Retries(retry, batch[0]), batch[1..], txs',
                           sent);
    }
  }

  lemma {:induction false} AwaitCarries(h0: Host, s: H5, frame: seq<byte>, retry: nat, ready: seq<seq<Ready>>,
                                        txs: seq<Tx>, sent: seq<PatchPkt>)
    returns (txs': seq<Tx>)
    requires HostOk(h0) && Ok(s) && Established(s.host.link) && Carries(h0, s.host, txs, sent) && LastIs(h0, txs, frame)
    ensures var t := Await(s, frame, retry, ready).0;
            Carries(h0, t.host, txs', sent) && Established(t.host.link) && t.host.msgqTxseq == s.host.msgqTxseq
    decreases ready
  {
    if ready == [] || s.host.exited {
      txs' := txs;
    } else {
      txs' := BatchCarries(h0, s, frame, retry, ready[0], txs, sent);
      var (t, left) := Batch(s, frame, retry, ready[0]);
      hide Batch, Carries, LastIs, RxOk, Established;
      if !IndexMet(t.host) { txs' := AwaitCarries(h0, t, frame, left, ready[1..], txs', sent); }
    }
  }

  // ----- the index, the guard and the order of what is received

  lemma {:induction false} RecvKeepsIndex(s: H5, data: seq<byte>)
    requires Ok(s)
    ensures var t := Recv(s, data).host; t.txIndex == s.host.txIndex && t.totalNum == s.host.totalNum
    decreases |data|, Rank(s.rx)
  {
    hide *;
    if data == [] || s.host.exited {
      RecvNothing(s, data);
    } else {
      PassKeepsIndex(s, data[0]);
      PassProgress(s, data[0]);
      var (t, consumed) := Pass(s, data[0]);
      RecvKeepsIndex(t, if consumed then data[1..] else data);
      RecvFirst(s, data);
    }
  }

  lemma PassKeepsIndex(s: H5, b: byte)
    requires Ok(s)
    ensures var t := Pass(s, b).0.host; t.txIndex == s.host.txIndex && t.totalNum == s.host.totalNum
  {
    hide Unslip, CrcMatches, HdrChecksumOk, HdrCrc, HdrReliable, HdrSeq, Complete;
    if s.rx.count == 0 && s.rx.state == W4Data { CompleteNumbers(s.host, s.rx.buf, |s.rx.buf|); }
    if s.rx.count == 0 && s.rx.state == W4Crc { CompleteNumbers(s.host, s.rx.buf, |s.rx.buf| - 2); }
  }

  lemma ReportKeepsIndex(s: H5, frame: seq<byte>, retry: nat, r: Ready)
    requires Ok(s)
    ensures var t := Reported(s, frame, retry, r).host; t.txIndex == s.host.txIndex && t.totalNum == s.host.totalNum
  {
    hide Recv;
    if r.Data? { RecvKeepsIndex(s, r.bytes); }
  }

  lemma {:induction false} BatchKeepsIndex(s: H5, frame: seq<byte>, retry: nat, batch: seq<Ready>)
    requires Ok(s)
    ensures var t := Batch(s, frame, retry, batch).0.host; t.txIndex == s.host.txIndex && t.totalNum == s.host.totalNum
    decreases batch
  {
    if batch != [] && !s.host.exited {
      ReportKeepsIndex(s, frame, retry, batch[0]);
      hide Reported, Retries, RxOk;
      BatchKeepsIndex(Reported(s, frame, retry, batch[0]), frame, Retries(retry, batch[0]), batch[1..]);
    }
  }

  lemma {:induction false} AwaitKeepsIndex(s: H5, frame: seq<byte>, retry: nat, ready: seq<seq<Ready>>)
    requires Ok(s)
    ensures var t := Await(s, frame, retry, ready).0.host; t.txIndex == s.host.txIndex && t.totalNum == s.host.totalNum
    decreases ready
  {
    if ready != [] && !s.host.exited {
      BatchKeepsIndex(s, frame, retry, ready[0]);
      var (t, left) := Batch(s, frame, retry, ready[0]);
      hide Batch, RxOk;
      AwaitKeepsIndex(t, frame, left, ready[1..]);
    }
  }

  /** What the order depends on has not changed. */
  lemma SameOrder(s0: H5, s: H5, t: H5)
    requires Inv(s) && HostOk(s0.host) && InOrder(s0, s) && HostOk(t.host) && t.rx == s.rx
    requires t.host.log == s.host.log && t.host.rxseqTxack == s.host.rxseqTxack
    ensures Inv(t) && InOrder(s0, t)
  {
    hide HdrSeq, HdrReliable, HdrChecksumOk, Crc;
  }

  lemma ReportInOrder(s0: H5, s: H5, frame: seq<byte>, retry: nat, r: Ready)
    requires Inv(s) && HostOk(s0.host) && InOrder(s0, s) && !IndexAtTotal(s.host)
    ensures var t := Reported(s, frame, retry, r); Inv(t) && InOrder(s0, t) && !IndexAtTotal(t.host)
  {
    match r
    case Data(bytes) => RecvInOrder'(s0, s, bytes);
    case Timeout =>
      hide Inv, InOrder, Recv;
      SameOrder(s0, s, Reported(s, frame, retry, r));
  }

  lemma {:induction false} BatchInOrder(s0: H5, s: H5, frame: seq<byte>, retry: nat, batch: seq<Ready>)
    requires Inv(s) && HostOk(s0.host) && InOrder(s0, s) && !IndexAtTotal(s.host)
    ensures var t := Batch(s, frame, retry, batch).0; Inv(t) && InOrder(s0, t) && !IndexAtTotal(t.host)
    decreases batch
  {
    if batch != [] && !s.host.exited {
      ReportInOrder(s0, s, frame, retry, batch[0]);
      hide Reported, Retries, Inv, InOrder, IndexAtTotal;
      BatchInOrder(s0, Reported(s, frame, retry, batch[0]), frame, Retries(retry, batch[0]), batch[1..]);
    }
  }

  lemma {:induction false} AwaitInOrder(s0: H5, s: H5, frame: seq<byte>, retry: nat, ready: seq<seq<Ready>>)
    requires Inv(s) && HostOk(s0.host) && InOrder(s0, s) && !IndexAtTotal(s.host)
    ensures var t := Await(s, frame, retry, ready).0; Inv(t) && InOrder(s0, t)
    decreases ready
  {
    if ready != [] && !s.host.exited {
      BatchInOrder(s0, s, frame, retry, ready[0]);
      var (t, left) := Batch(s, frame, retry, ready[0]);
      hide Batch, Inv, InOrder, IndexAtTotal;
      AwaitInOrder(s0, t, frame, left, ready[1..]);
    }
  }

  // ----- one packet over H5

  /** The number after n reliable packets. */
  function SeqAfter(first: nat, n: nat): nat {
    (first + n) % 8
  }

  lemma NextNumber(first: nat, n: nat)
    ensures NextSeq(SeqAfter(first, n)) == SeqAfter(first, n + 1)
  {}

  /** From h0 to h the packets were sent over H5. */
  predicate SentH5(h0: Host, h: Host, txs: seq<Tx>, sent: seq<PatchPkt>)
    requires HostOk(h0)
  {
    Established(h.link) && Carries(h0, h, txs, sent) && h.msgqTxseq == SeqAfter(h0.msgqTxseq, |sent|)
  }

  /** total_num and, once a packet was sent, tx_index. */
  predicate Tracks(h: Host, total: nat, n: nat) {
    h.totalNum == total && (n > 0 ==> h.txIndex == IndexByte(n - 1, total) % 0x80)
  }

  /** Reception has been in order since s0, once n packets were sent: always in a download long enough
      that tx_index never equals total_num, and until the last packet in any other. */
  predicate Ordered(s0: H5, s: H5, total: nat, n: nat) {
    (total > 127 || n <= total) && Inv(s0) ==> Inv(s) && InOrder(s0, s)
  }

  function Patched(s: H5, p: PatchPkt): (t: H5)
    requires Ok(s) && |p.data| <= PATCH_DATA_FIELD_MAX_SIZE
    ensures Ok(t)
  {
    s.(host := AfterPatch(s.host, p))
  }

  function PatchFrame(s: H5, p: PatchPkt): seq<byte>
    requires Ok(s) && |p.data| <= PATCH_DATA_FIELD_MAX_SIZE
  {
    FrameOf(s.host, PatchOrder(s.host, p))
  }

  /** The connection after h5_download_patch. */
  function PatchAwaited(s: H5, p: PatchPkt, ready: seq<seq<Ready>>): (t: H5)
    requires Ok(s) && |p.data| <= PATCH_DATA_FIELD_MAX_SIZE
    ensures Ok(t)
  {
    Await(Patched(s, p), PatchFrame(s, p), 3, ready).0
  }

  function PatchPacket(image: seq<byte>, total: nat, i: nat): (p: PatchPkt)
    ensures |p.data| <= PATCH_DATA_FIELD_MAX_SIZE
  {
    PatchPkt(IndexByte(i, total), Chunk(image, i))
  }

  /** The first n packets of an image over H5: the connection after them, up to the first wait that
      fails, and whether every wait has succeeded. */
  function Sends(s: H5, image: seq<byte>, total: nat, ready: nat -> seq<seq<Ready>>, n: nat): (r: (H5, bool))
    requires Ok(s)
    ensures Ok(r.0)
  {
    if n == 0 then (s, true)
    else
      var (t, ok) := Sends(s, image, total, ready, n - 1);
      var p := PatchPacket(image, total, n - 1);
      if ok then Await(Patched(t, p), PatchFrame(t, p), 3, ready(n - 1)) else (t, false)
  }

  /** Nothing is sent after a wait that fails. */
  lemma {:induction false} SendsNoMore(s: H5, image: seq<byte>, total: nat, ready: nat -> seq<seq<Ready>>, i: nat,
                                       n: nat)
    requires Ok(s) && i <= n && !Sends(s, image, total, ready, i).1
    ensures Sends(s, image, total, ready, n) == Sends(s, image, total, ready, i)
  {
    hide Await;
    if i < n { SendsNoMore(s, image, total, ready, i, n - 1); }
  }

  lemma SendsOne(s: H5, image: seq<byte>, total: nat, ready: nat -> seq<seq<Ready>>, n: nat)
    requires Ok(s) && Sends(s, image, total, ready, n).1
    ensures var t, p := Sends(s, image, total, ready, n).0, PatchPacket(image, total, n);
            Sends(s, image, total, ready, n + 1) == Await(Patched(t, p), PatchFrame(t, p), 3, ready(n))
  {}

  lemma PatchSent(h0: Host, s: H5, p: PatchPkt, ready: seq<seq<Ready>>, txs: seq<Tx>, sent: seq<PatchPkt>)
    returns (txs': seq<Tx>)
    requires HostOk(h0) && Ok(s) && SentH5(h0, s.host, txs, sent) && |p.data| <= PATCH_DATA_FIELD_MAX_SIZE
    ensures SentH5(h0, PatchAwaited(s, p, ready).host, txs', sent + [p])
  {
    var o, t := PatchOrder(s.host, p), Patched(s, p);
    CarriesPatch(h0, s.host, txs, sent, p);
    PatchLink(s.host, p);
    NextNumber(h0.msgqTxseq, |sent|);
    hide Await, AfterPatch, Carries, LastIs, PatchOrder, FrameOf, RxOk, NextSeq, SeqAfter, Established;
    txs' := AwaitCarries(h0, t, PatchFrame(s, p), 3, ready, txs + [First(o)], sent + [p]);
  }

  lemma PatchLink(h: Host, p: PatchPkt)
    requires HostOk(h) && |p.data| <= PATCH_DATA_FIELD_MAX_SIZE
    ensures var t := AfterPatch(h, p);
            t.link == h.link && t.totalNum == h.totalNum && t.txIndex == p.index % 0x80
            && t.log == h.log && t.rxseqTxack == h.rxseqTxack && t.msgqTxseq == NextSeq(h.msgqTxseq)
  {
    hide FrameOf, NextSeq;
  }

  lemma PatchTracks(s: H5, p: PatchPkt, ready: seq<seq<Ready>>, total: nat, n: nat)
    requires Ok(s) && |p.data| <= PATCH_DATA_FIELD_MAX_SIZE
    requires Tracks(s.host, total, n) && p.index == IndexByte(n, total)
    ensures Tracks(PatchAwaited(s, p, ready).host, total, n + 1)
  {
    PatchLink(s.host, p);
    hide Await, AfterPatch, RxOk, FrameOf, PatchOrder, IndexByte;
    AwaitKeepsIndex(Patched(s, p), PatchFrame(s, p), 3, ready);
  }

  lemma PatchOrdered(s0: H5, s: H5, p: PatchPkt, ready: seq<seq<Ready>>, total: nat, n: nat)
    requires Ok(s0) && Ok(s) && |p.data| <= PATCH_DATA_FIELD_MAX_SIZE && Tracks(s.host, total, n)
    requires n <= total && p.index == IndexByte(n, total) && Ordered(s0, s, total, n)
    ensures Ordered(s0, PatchAwaited(s, p, ready), total, n + 1)
  {
    PatchLink(s.host, p);
    IndexMeetsTotal(n, total);
    hide Await, AfterPatch, FrameOf, PatchOrder, IndexByte, Inv, InOrder, RxOk;
    if (total > 127 || n < total) && Inv(s0) {
      SameOrder(s0, s, Patched(s, p));
      AwaitInOrder(s0, Patched(s, p), PatchFrame(s, p), 3, ready);
    }
  }

  /** During the download the guard of the receiver is met exactly after the last packet, and only in
      a download of at most 128. */
  lemma GuardExactly(h: Host, total: nat, n: nat)
    requires Tracks(h, total, n) && 0 < n <= total + 1
    ensures IndexAtTotal(h) <==> h.link == Patch && n == total + 1 && total <= 127
  {
    IndexMeetsTotal(n - 1, total);
    hide IndexByte;
  }

  // ----- H4

  /** The H4 packets that h4_download_patch writes. */
  function H4Bytes(sent: seq<PatchPkt>): seq<byte>
    requires Sendable(sent)
  {
    if sent == [] then [] else H4Bytes(sent[..|sent| - 1]) + H4Packet(sent[|sent| - 1])
  }

  function H4Packet(p: PatchPkt): seq<byte>
    requires |p.data| <= PATCH_DATA_FIELD_MAX_SIZE
  {
    [0x01] + PatchCommand(p)
  }

  lemma SendableMore(sent: seq<PatchPkt>, p: PatchPkt)
    requires Sendable(sent) && |p.data| <= PATCH_DATA_FIELD_MAX_SIZE
    ensures Sendable(sent + [p]) && H4Bytes(sent + [p]) == H4Bytes(sent) + H4Packet(p)
  {
    hide H4Packet;
    assert (sent + [p])[..|sent|] == sent;
  }

  /** The writing half of h4_download_patch; resp is the byte that it returns. */
  method H4DownloadPatch(rtb: RtbStruct, p: PatchPkt, resp: byte) returns (index: byte)
    requires rtb.Valid() && |p.data| <= PATCH_DATA_FIELD_MAX_SIZE
    modifies rtb`wire
    ensures rtb.Valid() && rtb.FootprintKept() && index == resp
    ensures rtb.State() == old(rtb.State()).(host := old(rtb.HostState()).(wire := old(rtb.wire) + H4Packet(p)))
  {
    var buf: seq<byte> := [0x01, 0x20, 0xfc, |p.data| + 1, p.index] + p.data;
    assert buf == H4Packet(p);
    rtb.wire := rtb.wire + buf;
    index := resp;
  }

  // ----- rtb_download_fwc

  /** From g to s the packets sent are on the line: over H5 in a line of frames, with the index and the
      order of reception tracked. */
  predicate Downloading(proto: Proto, g: H5, s: H5, total: nat, txs: seq<Tx>, sent: seq<PatchPkt>)
    requires HostOk(g.host)
  {
    Sendable(sent)
    && (proto == ThreeWire ==>
          SentH5(g.host, s.host, txs, sent) && Tracks(s.host, total, |sent|) && Ordered(g, s, total, |sent|))
    && (proto == H4 ==> s.host.wire == g.host.wire + H4Bytes(sent))
  }

  lemma DownloadingH5(g: H5, s: H5, p: PatchPkt, ready: seq<seq<Ready>>, total: nat, txs: seq<Tx>, sent: seq<PatchPkt>)
    returns (txs': seq<Tx>)
    requires Ok(g) && Ok(s) && Downloading(ThreeWire, g, s, total, txs, sent) && |p.data| <= PATCH_DATA_FIELD_MAX_SIZE
    requires |sent| <= total && p.index == IndexByte(|sent|, total)
    ensures Downloading(ThreeWire, g, PatchAwaited(s, p, ready), total, txs', sent + [p])
  {
    hide PatchAwaited, SentH5, Tracks, Ordered, Sendable, IndexByte, RxOk, H4Bytes;
    SendableMore(sent, p);
    PatchTracks(s, p, ready, total, |sent|);
    PatchOrdered(g, s, p, ready, total, |sent|);
    txs' := PatchSent(g.host, s, p, ready, txs, sent);
  }

  lemma DownloadingH4(g: H5, s: H5, t: H5, p: PatchPkt, total: nat, txs: seq<Tx>, sent: seq<PatchPkt>)
    requires HostOk(g.host) && Downloading(H4, g, s, total, txs, sent) && |p.data| <= PATCH_DATA_FIELD_MAX_SIZE
    requires t.host.wire == s.host.wire + H4Packet(p)
    ensures Downloading(H4, g, t, total, txs, sent + [p])
  {
    SendableMore(sent, p);
    hide Sendable, H4Bytes, H4Packet;
    Assoc(g.host.wire, H4Bytes(sent), H4Packet(p));
  }

  /** How one packet has gone from s to t: over H5 as its wait, over H4 as its index came back, which is
      not compared for the last. */
  predicate PacketDone(proto: Proto, s: H5, t: H5, p: PatchPkt, last: bool, ready: seq<seq<Ready>>, resp: byte,
                       ok: bool)
    requires Ok(s) && |p.data| <= PATCH_DATA_FIELD_MAX_SIZE
  {
    (proto == ThreeWire ==> (t, ok) == Await(Patched(s, p), PatchFrame(s, p), 3, ready))
    && (proto == H4 ==> (ok <==> last || resp == p.index))
  }

  /** One packet of rtb_download_fwc over either transport, and the index it goes on with. */
  method DownloadPacket(rtb: RtbStruct, p: PatchPkt, j: nat, last: bool, proto: Proto, ready: seq<seq<Ready>>,
                        resp: byte, ghost g: H5, ghost total: nat, ghost txs: seq<Tx>, ghost sent: seq<PatchPkt>)
    returns (ok: bool, currIdx: byte, ghost txs': seq<Tx>)
    requires rtb.Valid() && Ok(g) && |p.data| <= PATCH_DATA_FIELD_MAX_SIZE && (last || p.index == j)
    requires |sent| <= total && p.index == IndexByte(|sent|, total)
    requires Downloading(proto, g, rtb.State(), total, txs, sent)
    modifies rtb, rtb.Footprint()
    ensures rtb.Valid() && rtb.FootprintKept() && (ok && !last ==> currIdx == p.index)
    ensures Downloading(proto, g, rtb.State(), total, txs', sent + [p])
    ensures PacketDone(proto, old(rtb.State()), rtb.State(), p, last, ready, resp, ok)
  {
    hide Downloading, Await, AfterPatch, FrameOf, PatchOrder, IndexByte, RxOk, H4Packet;
    ghost var s := rtb.State();
    if proto == H4 {
      currIdx := H4DownloadPatch(rtb, p, resp);
      ok := !(currIdx != j && !last);
      txs' := txs;
      DownloadingH4(g, s, rtb.State(), p, total, txs, sent);
    } else {
      ok := H5DownloadPatch(rtb, p, ready);
      currIdx := p.index;
      txs' := DownloadingH5(g, s, p, ready, total, txs, sent);
    }
  }

  /** The connection with total_num set. */
  function DownloadStarts(s: H5, total: nat): (t: H5)
    requires Ok(s)
    ensures Ok(t)
  {
    s.(host := s.host.(totalNum := total))
  }

  /** How the loop stands before packet n: over H5 as the waits have left it, over H4 with ok if every
      index came back but that of the last packet, which is not compared. */
  predicate Outcome(proto: Proto, s: H5, t: H5, ok: bool, image: seq<byte>, total: nat, ready: nat -> seq<seq<Ready>>,
                    resps: nat -> byte, n: nat)
    requires Ok(s)
  {
    (proto == ThreeWire ==> (t, ok) == Sends(s, image, total, ready, n))
    && (proto == H4 ==> (ok <==> forall i :: 0 <= i < n && i < total ==> resps(i) == RollOver(i)))
  }

  lemma OutcomeNone(proto: Proto, s: H5, image: seq<byte>, total: nat, ready: nat -> seq<seq<Ready>>,
                    resps: nat -> byte)
    requires Ok(s)
    ensures Outcome(proto, s, s, true, image, total, ready, resps, 0)
  {}

  lemma OutcomeMore(proto: Proto, s: H5, t: H5, u: H5, ok: bool, image: seq<byte>, total: nat,
                    ready: nat -> seq<seq<Ready>>, resps: nat -> byte, n: nat)
    requires Ok(s) && Ok(t) && Outcome(proto, s, t, true, image, total, ready, resps, n)
    requires n <= total
    requires PacketDone(proto, t, u, PatchPacket(image, total, n), n == total, ready(n), resps(n), ok)
    ensures Outcome(proto, s, u, ok, image, total, ready, resps, n + 1)
  {
    hide Await, Patched, PatchFrame, RollOver, RxOk;
    if proto == ThreeWire { SendsOne(s, image, total, ready, n); }
  }

  lemma OutcomeAll(proto: Proto, s: H5, t: H5, ok: bool, image: seq<byte>, total: nat, ready: nat -> seq<seq<Ready>>,
                   resps: nat -> byte, n: nat)
    requires Ok(s) && Outcome(proto, s, t, ok, image, total, ready, resps, n) && n <= total + 1
    requires ok ==> n == total + 1
    ensures Outcome(proto, s, t, ok, image, total, ready, resps, total + 1)
  {
    hide RollOver, RxOk;
    if proto == ThreeWire && !ok { SendsNoMore(s, image, total, ready, n, total + 1); }
  }

  /** The loop before packet |sent|: what was sent is on the line and is the start of the image, and ok
      tells how the waits, or the comparisons over H4, have gone. */
  predicate Progressing(proto: Proto, g: H5, t: H5, ok: bool, image: seq<byte>, total: nat,
                        ready: nat -> seq<seq<Ready>>, resps: nat -> byte, txs: seq<Tx>, sent: seq<PatchPkt>)
    requires Ok(g)
  {
    SendsImage(sent, image, total) && Downloading(proto, g, t, total, txs, sent)
    && Outcome(proto, DownloadStarts(g, total), t, ok, image, total, ready, resps, |sent|)
  }

  lemma ProgressNone(proto: Proto, g: H5, image: seq<byte>, total: nat, ready: nat -> seq<seq<Ready>>,
                     resps: nat -> byte)
    requires Ok(g) && g.host.link == Patch
    ensures Progressing(proto, g, DownloadStarts(g, total), true, image, total, ready, resps, [], [])
  {
    NothingSent(proto, g, DownloadStarts(g, total), total);
    OutcomeNone(proto, DownloadStarts(g, total), image, total, ready, resps);
    hide Downloading, Outcome, RxOk;
  }

  lemma ProgressParts(proto: Proto, g: H5, s: H5, ok: bool, image: seq<byte>, total: nat,
                      ready: nat -> seq<seq<Ready>>, resps: nat -> byte, txs: seq<Tx>, sent: seq<PatchPkt>)
    requires Ok(g) && Progressing(proto, g, s, ok, image, total, ready, resps, txs, sent)
    ensures SendsImage(sent, image, total) && Downloading(proto, g, s, total, txs, sent)
  {}

  lemma ProgressMore(proto: Proto, g: H5, s: H5, t: H5, ok: bool, image: seq<byte>, total: nat,
                     ready: nat -> seq<seq<Ready>>, resps: nat -> byte, txs: seq<Tx>, sent: seq<PatchPkt>,
                     txs': seq<Tx>, p: PatchPkt)
    requires Ok(g) && Ok(s) && Progressing(proto, g, s, true, image, total, ready, resps, txs, sent)
    requires |sent| <= total && p == PatchPkt(IndexByte(|sent|, total), Chunk(image, |sent|))
    requires Downloading(proto, g, t, total, txs', sent + [p])
    requires PacketDone(proto, s, t, p, |sent| == total, ready(|sent|), resps(|sent|), ok)
    ensures Progressing(proto, g, t, ok, image, total, ready, resps, txs', sent + [p])
  {
    hide SendsImage, Downloading, Outcome, PacketDone, RxOk, IndexByte, Chunk;
    SentMore(sent, image, total, p);
    OutcomeMore(proto, DownloadStarts(g, total), s, t, ok, image, total, ready, resps, |sent|);
  }

  lemma CursorNext(i: nat, endIdx: nat, totalIdx: nat, pktBuf: Option<nat>, currIdx: nat)
    requires endIdx <= totalIdx && (i <= endIdx ==> pktBuf == Some(PATCH_DATA_FIELD_MAX_SIZE * i))
    requires currIdx == IndexByte(i, totalIdx)
    ensures i < endIdx
            ==> AdvanceCursor(pktBuf, currIdx, endIdx) == Some(PATCH_DATA_FIELD_MAX_SIZE * (i + 1))
  {
    if i < endIdx { CursorAdvances(i, endIdx, totalIdx); }
  }

  /** The body of the loop of rtb_download_fwc for packet |sent|. */
  method DownloadNext(rtb: RtbStruct, buf: seq<byte>, proto: Proto, ready: nat -> seq<seq<Ready>>, resps: nat -> byte,
                      endIdx: nat, totalIdx: nat, lpLen: nat, pktBuf: Option<nat>, sent: seq<PatchPkt>,
                      ghost g: H5, ghost txs: seq<Tx>)
    returns (ok: bool, sent': seq<PatchPkt>, ghost txs': seq<Tx>, pktBuf': Option<nat>)
    requires rtb.Valid() && Ok(g) && Progressing(proto, g, rtb.State(), true, buf, totalIdx, ready, resps, txs, sent)
    requires buf != [] && endIdx == EndIdx(|buf|) <= totalIdx && |sent| <= totalIdx
    requires lpLen == |buf| - PATCH_DATA_FIELD_MAX_SIZE * endIdx
    requires |sent| <= endIdx ==> pktBuf == Some(PATCH_DATA_FIELD_MAX_SIZE * |sent|)
    modifies rtb, rtb.Footprint()
    ensures rtb.Valid() && rtb.FootprintKept() && |sent'| == |sent| + 1
    ensures Progressing(proto, g, rtb.State(), ok, buf, totalIdx, ready, resps, txs', sent')
    ensures ok && |sent'| <= endIdx ==> pktBuf' == Some(PATCH_DATA_FIELD_MAX_SIZE * |sent'|)
  {
    ghost var i, s := |sent|, rtb.State();
    hide SendsImage, Downloading, IndexByte, RollOver, Chunk, EndIdx, AdvanceCursor, PacketDone, Progressing;
    hide Ok, RtbStruct.State, RtbStruct.Valid, RtbStruct.SkbOk, RtbStruct.RxOf, RtbStruct.HostState;
    ProgressParts(proto, g, s, true, buf, totalIdx, ready, resps, txs, sent);
    var p, j;
    p, j, pktBuf' := CutPacket(buf, |sent|, endIdx, totalIdx, lpLen, pktBuf);
    CursorNext(i, endIdx, totalIdx, pktBuf', p.index);
    var currIdx;
    ok, currIdx, txs' :=
      DownloadPacket(rtb, p, j, |sent| == totalIdx, proto, ready(|sent|), resps(|sent|), g, totalIdx, txs, sent);
    ProgressMore(proto, g, s, rtb.State(), ok, buf, totalIdx, ready, resps, txs, sent, txs', p);
    pktBuf' := AdvanceCursor(pktBuf', currIdx, endIdx);
    sent' := sent + [p];
  }

  /** The loop of rtb_download_fwc, with the reports of each wait and the bytes the controller returns
      over H4. */
  method SendImage(rtb: RtbStruct, buf: seq<byte>, proto: Proto, ready: nat -> seq<seq<Ready>>, resps: nat -> byte)
    returns (ok: bool, sent: seq<PatchPkt>, ghost txs: seq<Tx>)
    requires rtb.Valid() && rtb.link == Patch && buf != [] && EndIdx(|buf|) + 8 < 0x10000
    modifies rtb, rtb.Footprint()
    ensures rtb.Valid() && rtb.FootprintKept()
    ensures Downloaded(proto, old(rtb.State()), rtb.State(), ok, buf, ready, resps, txs, sent)
  {
    var endIdx, lpLen, totalIdx := CountPackets(|buf|, rtb.numOfCmdSent, proto);
    ghost var g := rtb.State();
    rtb.totalNum := totalIdx;
    ProgressNone(proto, g, buf, totalIdx, ready, resps);
    assert rtb.State() == DownloadStarts(g, totalIdx);
    sent, txs := [], [];
    var pktBuf := Some(0);
    var i := 0;
    ok := true;
    hide TotalIdx, EndIdx, AddPkts, SendsImage, Downloading, AdvanceCursor, Outcome, Progressing, IndexByte, Chunk;
    hide Ok, RtbStruct.State, RtbStruct.Valid, RtbStruct.SkbOk, RtbStruct.RxOf, RtbStruct.HostState;
    while i <= totalIdx && ok
      invariant i == |sent| <= totalIdx + 1
      invariant ok && i <= endIdx ==> pktBuf == Some(PATCH_DATA_FIELD_MAX_SIZE * i)
      invariant rtb.Valid() && rtb.FootprintKept()
      invariant Progressing(proto, g, rtb.State(), ok, buf, totalIdx, ready, resps, txs, sent)
      decreases totalIdx + 1 - i
    {
      ok, sent, txs, pktBuf :=
        DownloadNext(rtb, buf, proto, ready, resps, endIdx, totalIdx, lpLen, pktBuf, sent, g, txs);
      i := i + 1;
    }
    ProgressDone(proto, g, rtb.State(), ok, buf, totalIdx, ready, resps, txs, sent);
  }

  /** The download from g to s: what was sent is on the line, in the packets of the image and in order,
      all of them if it ends with ok, which is as the waits, or the comparisons over H4, have gone. */
  predicate Downloaded(proto: Proto, g: H5, s: H5, ok: bool, image: seq<byte>, ready: nat -> seq<seq<Ready>>,
                       resps: nat -> byte, txs: seq<Tx>, sent: seq<PatchPkt>)
    requires Ok(g) && image != []
  {
    var total := TotalIdx(|image|, g.host.numOfCmdSent, proto);
    SendsImage(sent, image, total) && |sent| <= total + 1 && (ok ==> |sent| == total + 1)
    && Downloading(proto, g, s, total, txs, sent)
    && Outcome(proto, DownloadStarts(g, total), s, ok, image, total, ready, resps, total + 1)
  }

  lemma ProgressDone(proto: Proto, g: H5, t: H5, ok: bool, image: seq<byte>, total: nat,
                     ready: nat -> seq<seq<Ready>>, resps: nat -> byte, txs: seq<Tx>, sent: seq<PatchPkt>)
    requires Ok(g) && Progressing(proto, g, t, ok, image, total, ready, resps, txs, sent) && image != []
    requires |sent| <= total + 1 && (ok ==> |sent| == total + 1)
    requires total == TotalIdx(|image|, g.host.numOfCmdSent, proto)
    ensures Downloaded(proto, g, t, ok, image, ready, resps, txs, sent)
  {
    hide SendsImage, Downloading, Outcome, RxOk, TotalIdx;
    OutcomeAll(proto, DownloadStarts(g, total), t, ok, image, total, ready, resps, |sent|);
  }

  lemma NothingSent(proto: Proto, g: H5, s: H5, total: nat)
    requires Ok(g) && g.host.link == Patch && s == g.(host := g.host.(totalNum := total))
    ensures Downloading(proto, g, s, total, [], [])
  {
    CarriesNothing(g.host);
    if Inv(g) {
      InOrderNone(g);
      SameOrder(g, g, s);
    }
    hide Inv, InOrder;
    assert g.host.wire + [] == g.host.wire;
  }

  /** The connection after the reset command is written. */
  function AfterReset(h: Host): (r: Host)
    requires HostOk(h)
    ensures HostOk(r) && r.msgqTxseq == NextSeq(h.msgqTxseq)
  {
    var (t, frame) := Prepare(h, [0x03, 0x0c, 0x00], HCI_COMMAND_PKT);
    t.(wire := t.wire + frame.value, cmdOpcode := HCI_CMD_RESET, cmdSuccess := false)
  }

  /** The sending half of h5_hci_reset. */
  method H5HciReset(rtb: RtbStruct)
    requires rtb.Valid()
    modifies rtb`isTxackReq, rtb`msgqTxseq, rtb`wire, rtb`cmdOpcode, rtb`cmdSuccess
    ensures rtb.Valid() && rtb.FootprintKept()
    ensures rtb.State() == old(rtb.State()).(host := AfterReset(old(rtb.HostState())))
  {
    hide Frame, PacketBytes;
    var cmd: seq<byte> := [0x03, 0x0c, 0x00];
    var _ := rtb.WritePkt(cmd, HCI_COMMAND_PKT);
    rtb.cmdOpcode := 0x0c03;
    rtb.cmdSuccess := false;
  }

  /** rtb_download_fwc. Whatever is reported meanwhile, the packets sent are those of the image, in
      order, all of them if every wait has succeeded, and all that was written is one line that
      carries them; s is the connection before the reset. When the commands counted before the
      download are, modulo 8, the reliable packets sent, msgq_txseq ends at 0. */
  method RtbDownloadFwc(rtb: RtbStruct, buf: seq<byte>, proto: Proto, ready: nat -> seq<seq<Ready>>, resps: nat -> byte)
    returns (ok: bool, sent: seq<PatchPkt>, ghost txs: seq<Tx>, ghost s: H5)
    requires rtb.Valid() && rtb.link == Patch && buf != [] && EndIdx(|buf|) + 8 < 0x10000
    modifies rtb, rtb.Footprint()
    ensures rtb.Valid() && Ok(s)
    ensures Downloaded(proto, old(rtb.State()), s, ok, buf, ready, resps, txs, sent)
    ensures rtb.State() == if ok && proto == ThreeWire then s.(host := AfterReset(s.host)) else s
    ensures ok && proto == ThreeWire ==> (rtb.msgqTxseq == 0 <==> old(rtb.msgqTxseq) == old(rtb.numOfCmdSent) % 8)
  {
    hide TotalIdx, EndIdx, SendsImage, Downloading, AfterReset, NextSeq, RxOk, Outcome;
    ghost var g, cmds := rtb.State(), rtb.numOfCmdSent;
    ok, sent, txs := SendImage(rtb, buf, proto, ready, resps);
    s := rtb.State();
    if ok && proto == ThreeWire {
      H5HciReset(rtb);
      ResetClosesWindow(g, s, txs, sent, |buf|, cmds);
    }
  }

  /** After a whole download the reset leaves msgq_txseq at 0 exactly when the commands counted before
      the download are, modulo 8, the reliable packets sent before it. */
  lemma ResetClosesWindow(g: H5, s: H5, txs: seq<Tx>, sent: seq<PatchPkt>, size: nat, cmds: nat)
    requires Ok(g) && HostOk(s.host) && size > 0 && |sent| == TotalIdx(size, cmds, ThreeWire) + 1
    requires Downloading(ThreeWire, g, s, TotalIdx(size, cmds, ThreeWire), txs, sent)
    ensures AfterReset(s.host).msgqTxseq == 0 <==> g.host.msgqTxseq == cmds % 8
  {
    hide Carries, AfterReset, TotalIdx, Sendable, H4Bytes, RxOk, Tracks, Ordered;
    SequenceCloses(size, cmds, g.host.msgqTxseq);
    NextNumber(g.host.msgqTxseq, |sent|);
  }

  /** That holds after every run from the start in which each reliable packet was counted once. */
  lemma RunClosesWindow(events: seq<Event>, s: H5, txs: seq<Tx>, sent: seq<PatchPkt>, size: nat)
    requires ReliablesBuilt(INITIAL, events) == Counted(INITIAL, events) && HostOk(s.host) && size > 0
    requires var g := Run(INITIAL, events);
             |sent| == TotalIdx(size, g.host.numOfCmdSent, ThreeWire) + 1
             && Downloading(ThreeWire, g, s, TotalIdx(size, g.host.numOfCmdSent, ThreeWire), txs, sent)
    ensures AfterReset(s.host).msgqTxseq == 0
  {
    hide Downloading, AfterReset, TotalIdx, Run, ReliablesBuilt, Counted;
    CountersAgree(events);
    ResetClosesWindow(Run(INITIAL, events), s, txs, sent, size, Run(INITIAL, events).host.numOfCmdSent);
  }
}
