/** When a download over H5 comes to its end: a controller answers each patch packet with a command
    complete event that carries its index. */
module Answers {
  import opened DataIntegrity
  import opened Slip
  import opened Transport
  import opened Reception
  import opened Delivery
  import opened Runs
  import opened Retransmission
  import opened PatchPackets
  import opened HostRuns
  import opened Download
  import opened Options

  // ----- one answer

  /** A command complete event with this index after its status. */
  predicate Answer(o: Order, index: byte) {
    OrderOk(o) && o.kind == HCI_EVENT_PKT && |o.payload| >= 7 && o.payload[0] == 0x0e && o.payload[6] == index
  }

  /** The frame of the i-th answer of a controller that starts from this number. */
  function AnswerFrame(first: nat, i: nat, o: Order): seq<byte>
    requires OrderOk(o)
  {
    FrameOf(From((first + i) % 8), o)
  }

  /** The link state after an index has come back. */
  function LinkAfter(index: byte): Link {
    if index / 128 % 2 == 1 then HciReset else Patch
  }

  lemma FrameAnswers(h: Host, buf: seq<byte>, len: nat, index: byte)
    requires h.link == Patch && At(buf, 4) == 0x0e && At(buf, 10) == index
    ensures var t := HciRecvFrame(h, buf, len);
            t.rxIndex == index % 128 && t.link == LinkAfter(index) && t.exited == h.exited
  {}

  lemma CompleteAnswers(h: Host, buf: seq<byte>, len: nat, index: byte)
    requires 4 <= len <= |buf| && HostOk(h) && h.link == Patch && !h.exited
    requires HdrType(buf) == HCI_EVENT_PKT && At(buf, 4) == 0x0e && At(buf, 10) == index
    ensures var t := Complete(h, buf, len); t.rxIndex == index % 128 && t.link == LinkAfter(index) && !t.exited
  {
    FrameAnswers(NoteNumbers(h, buf[..len]), buf, len, index);
    hide HciRecvFrame, HdrType, HdrSeq, HdrAck, HdrReliable, At, LinkAfter, Frame, PacketBytes;
  }

  lemma AnswerBytes(h: Host, o: Order, index: byte)
    requires HostOk(h) && Answer(o, index)
    ensures var buf := PacketOf(h, o) + CheckOf(h, o);
            HdrType(buf) == HCI_EVENT_PKT && At(buf, 4) == 0x0e && At(buf, 10) == index
  {
    var p, check := PacketOf(h, o), CheckOf(h, o);
    BuiltPacket(h, o);
    assert (p + check)[1] == p[1] && p[4] == o.payload[0] && p[10] == o.payload[6];
    hide Intact, CheckOf, HdrSeq, HdrReliable, HdrCrc, HdrAck, Sound;
  }

  /** An answer with the number expected is taken, and the next frame awaited. */
  lemma AnswerTaken(s: H5, n: nat, o: Order, index: byte)
    requires Waiting(s) && s.host.link == Patch && n < 8 && s.host.rxseqTxack == n && Answer(o, index)
    ensures var t := Recv(s, FrameOf(From(n), o));
            Waiting(t) && t.host.rxseqTxack == (n + 1) % 8 && t.host.rxIndex == index % 128
            && t.host.link == LinkAfter(index) && t.host.txIndex == s.host.txIndex
            && t.host.totalNum == s.host.totalNum
  {
    var h := From(n);
    AnswerBytes(h, o, index);
    BuiltFrame(h, o);
    RecvKeepsIndex(s, FrameOf(h, o));
    AnswerOrder(h, o);
    hide PacketOf, CheckOf, Frame, Recv, Complete, AfterOrder, From, LinkAfter, HdrType, At;
    OrderDelivered(s, h, o);
    CompleteAnswers(s.host, PacketOf(h, o) + CheckOf(h, o), |PacketOf(h, o)|, index);
  }

  lemma AnswerOrder(h: Host, o: Order)
    requires HostOk(h) && OrderOk(o) && o.kind == HCI_EVENT_PKT
    ensures AfterOrder(h, o).msgqTxseq == (h.msgqTxseq + 1) % 8
    ensures FrameOf(h, o) == Prepare(Sender(h, o), o.payload, o.kind).1.value
  {
    hide Frame, PacketBytes;
  }

  // ----- one wait

  /** The answer comes, after no more time-outs than there are retransmissions left. */
  predicate Comes(ready: seq<seq<Ready>>, answer: seq<byte>, retry: nat)
    decreases ready
  {
    ready != []
    && (ready[0] == [Data(answer)] || (ready[0] == [Timeout] && retry > 0 && Comes(ready[1..], answer, retry - 1)))
  }

  function WireSet(s: H5, wire: seq<byte>): (t: H5)
    ensures Ok(s) ==> Ok(t)
    ensures Waiting(s) ==> Waiting(t)
  {
    s.(host := s.host.(wire := wire))
  }

  lemma BatchOne(s: H5, frame: seq<byte>, retry: nat, r: Ready)
    requires Ok(s) && !s.host.exited
    ensures Batch(s, frame, retry, [r]) == (Reported(s, frame, retry, r), Retries(retry, r))
  {
    hide Reported, Retries, RxOk;
    assert [r][1..] == [];
  }

  /** A wait ends with the answer, if that makes the indices meet. */
  lemma {:induction false} AwaitAnswer(s: H5, frame: seq<byte>, retry: nat, ready: seq<seq<Ready>>, answer: seq<byte>)
    returns (wire: seq<byte>)
    requires Ok(s) && !s.host.exited && s.host.rxIndex != s.host.txIndex && Comes(ready, answer, retry)
    ensures var t := Recv(WireSet(s, wire), answer);
            IndexMet(t.host) ==> Await(s, frame, retry, ready) == (t, true)
    decreases ready
  {
    hide Recv, RxOk;
    wire := s.host.wire;
    if ready[0] == [Data(answer)] {
      BatchOne(s, frame, retry, Data(answer));
      assert WireSet(s, wire) == s;
    } else {
      BatchOne(s, frame, retry, Timeout);
      var t := WireSet(s, s.host.wire + frame);
      assert Reported(s, frame, retry, Timeout) == t;
      wire := AwaitAnswer(t, frame, retry - 1, ready[1..], answer);
      assert WireSet(t, wire) == WireSet(s, wire);
    }
  }

  // ----- the packets that are answered

  /** The connection before packet n, when all before have been answered. */
  predicate Standing(s: H5, total: nat, first: nat, n: nat) {
    Waiting(s) && s.host.rxseqTxack == (first + n) % 8 && s.host.totalNum == total
    && s.host.rxIndex == (if n == 0 then -1 else IndexByte(n - 1, total) % 128)
    && s.host.link == if n == 0 then Patch else LinkAfter(IndexByte(n - 1, total))
  }

  /** Up to packet 255 the index moves on, and only the last, or packet 255, leaves PATCH. */
  lemma IndexMoves(n: nat, total: nat)
    requires n <= total && n <= 255
    ensures n > 0 ==> IndexByte(n - 1, total) % 128 != IndexByte(n, total) % 128
    ensures n > 0 ==> LinkAfter(IndexByte(n - 1, total)) == Patch
  {}

  lemma PatchKept(s: H5, p: PatchPkt)
    requires Ok(s) && |p.data| <= PATCH_DATA_FIELD_MAX_SIZE
    ensures var t := Patched(s, p);
            t.rx == s.rx && t.host.rxIndex == s.host.rxIndex && t.host.exited == s.host.exited
            && t.host.txIndex == p.index % 128 && t.host.link == s.host.link && t.host.totalNum == s.host.totalNum
            && t.host.rxseqTxack == s.host.rxseqTxack
  {
    hide FrameOf, RxOk;
  }

  lemma NextAnswer(first: nat, n: nat)
    ensures ((first + n) % 8 + 1) % 8 == (first + (n + 1)) % 8
  {}

  /** Up to packet 255 an answer ends the wait. */
  lemma PacketAnswered(s: H5, p: PatchPkt, total: nat, first: nat, n: nat, ready: seq<seq<Ready>>, o: Order)
    requires Standing(s, total, first, n) && n <= total && n <= 255
    requires |p.data| <= PATCH_DATA_FIELD_MAX_SIZE && p.index == IndexByte(n, total)
    requires Answer(o, p.index) && Comes(ready, AnswerFrame(first, n, o), 3)
    ensures var (t, ok) := Await(Patched(s, p), PatchFrame(s, p), 3, ready); ok && Standing(t, total, first, n + 1)
  {
    IndexMoves(n, total);
    PatchKept(s, p);
    NextAnswer(first, n);
    var t := Patched(s, p);
    hide Recv, RxOk, FrameOf, Await, Patched, PatchFrame, IndexByte, LinkAfter, Comes, Answer, From;
    var wire := AwaitAnswer(t, PatchFrame(s, p), 3, ready, AnswerFrame(first, n, o));
    AnswerTaken(WireSet(t, wire), (first + n) % 8, o, p.index);
  }

  /** A controller answers each packet in time, in order and with its index. Past packet 255 nothing is
      assumed of it. */
  predicate Answers(first: nat, total: nat, ready: nat -> seq<seq<Ready>>, answers: nat -> Order) {
    forall i :: 0 <= i <= total && i <= 255 ==>
      Answer(answers(i), IndexByte(i, total)) && Comes(ready(i), AnswerFrame(first, i, answers(i)), 3)
  }

  lemma {:induction false} SendsAnswered(s: H5, image: seq<byte>, total: nat, first: nat,
                                         ready: nat -> seq<seq<Ready>>, answers: nat -> Order, n: nat)
    requires Standing(s, total, first, 0) && Answers(first, total, ready, answers) && n <= total + 1 && n <= 256
    ensures var (t, ok) := Sends(s, image, total, ready, n); ok && Standing(t, total, first, n)
  {
    if n > 0 {
      var i := n - 1;
      SendsAnswered(s, image, total, first, ready, answers, i);
      SendsOne(s, image, total, ready, i);
      assert Answer(answers(i), IndexByte(i, total));
      hide Sends, Standing, Await, Patched, PatchFrame, IndexByte, Comes, Answer, AnswerFrame, Chunk, RxOk;
      var t := Sends(s, image, total, ready, i).0;
      StandingOk(t, total, first, i);
      PacketAnswered(t, PatchPacket(image, total, i), total, first, i, ready(i), answers(i));
    }
  }

  lemma StandingOk(s: H5, total: nat, first: nat, n: nat)
    requires Standing(s, total, first, n)
    ensures Ok(s)
  {}

  // ----- the packet that never is

  /** Past the download, where rx_index no longer changes. */
  predicate PastPatch(h: Host) {
    h.link == HciReset || h.link == Active
  }

  lemma FramePast(h: Host, buf: seq<byte>, len: nat)
    requires PastPatch(h)
    ensures var t := HciRecvFrame(h, buf, len); PastPatch(t) && t.rxIndex == h.rxIndex
  {
    hide EventOpcode, Learned, CountedOpcode;
  }

  lemma CompletePast(h: Host, buf: seq<byte>, len: nat)
    requires 4 <= len <= |buf| && HostOk(h) && PastPatch(h)
    ensures var t := Complete(h, buf, len); PastPatch(t) && t.rxIndex == h.rxIndex
  {
    DispatchPast(NoteNumbers(h, buf[..len]), buf, len);
    hide Dispatch, HdrSeq, HdrAck, HdrReliable, Frame, PacketBytes;
  }

  lemma DispatchPast(h: Host, buf: seq<byte>, len: nat)
    requires 4 <= len <= |buf| && HostOk(h) && PastPatch(h)
    ensures var t := Dispatch(h, buf, len); PastPatch(t) && t.rxIndex == h.rxIndex
  {
    FramePast(h, buf, len);
    hide HciRecvFrame, HdrType, At, SendAck;
  }

  lemma PassPast(s: H5, b: byte)
    requires Ok(s) && PastPatch(s.host)
    ensures var t := Pass(s, b).0; PastPatch(t.host) && t.host.rxIndex == s.host.rxIndex
  {
    hide Unslip, CrcMatches, HdrChecksumOk, HdrCrc, HdrReliable, HdrSeq, Complete;
    if s.rx.count == 0 && s.rx.state == W4Data { CompletePast(s.host, s.rx.buf, |s.rx.buf|); }
    if s.rx.count == 0 && s.rx.state == W4Crc { CompletePast(s.host, s.rx.buf, |s.rx.buf| - 2); }
  }

  lemma {:induction false} RecvPast(s: H5, data: seq<byte>)
    requires Ok(s) && PastPatch(s.host)
    ensures var t := Recv(s, data); PastPatch(t.host) && t.host.rxIndex == s.host.rxIndex
    decreases |data|, Rank(s.rx)
  {
    if data != [] && !s.host.exited {
      PassPast(s, data[0]);
      PassProgress(s, data[0]);
      var (t, consumed) := Pass(s, data[0]);
      hide *;
      RecvPast(t, if consumed then data[1..] else data);
      RecvFirst(s, data);
    }
  }

  /** Past the download, with an index that has not come back. */
  predicate Stuck(s: H5) {
    Ok(s) && PastPatch(s.host) && s.host.rxIndex != s.host.txIndex
  }

  function Timeouts(batch: seq<Ready>): nat {
    if batch == [] then 0 else (if batch[0].Timeout? then 1 else 0) + Timeouts(batch[1..])
  }

  function AllTimeouts(ready: seq<seq<Ready>>): nat {
    if ready == [] then 0 else Timeouts(ready[0]) + AllTimeouts(ready[1..])
  }

  lemma ReportStuck(s: H5, frame: seq<byte>, retry: nat, r: Ready)
    requires Stuck(s)
    ensures Stuck(Reported(s, frame, retry, r))
    ensures !Reported(s, frame, retry, r).host.exited ==> Retries(retry, r) + Timeouts([r]) == retry
  {
    hide Recv, RxOk;
    if r.Data? {
      RecvPast(s, r.bytes);
      RecvKeepsIndex(s, r.bytes);
    }
    assert [r][1..] == [];
  }

  lemma {:induction false} BatchStuck(s: H5, frame: seq<byte>, retry: nat, batch: seq<Ready>)
    requires Stuck(s)
    ensures var (t, left) := Batch(s, frame, retry, batch);
            Stuck(t) && (!t.host.exited ==> left + Timeouts(batch) == retry)
    decreases batch
  {
    if batch != [] && !s.host.exited {
      ReportStuck(s, frame, retry, batch[0]);
      assert [batch[0]][1..] == [];
      hide Reported, Retries, RxOk, Stuck;
      BatchStuck(Reported(s, frame, retry, batch[0]), frame, Retries(retry, batch[0]), batch[1..]);
    }
  }

  /** Whatever is reported then, the wait does not succeed; with more time-outs than retransmissions
      left the process ends. */
  lemma {:induction false} AwaitStuck(s: H5, frame: seq<byte>, retry: nat, ready: seq<seq<Ready>>)
    requires Stuck(s)
    ensures var (t, ok) := Await(s, frame, retry, ready);
            !ok && (AllTimeouts(ready) > retry ==> t.host.exited)
    decreases ready
  {
    if ready != [] && !s.host.exited {
      BatchStuck(s, frame, retry, ready[0]);
      var (t, left) := Batch(s, frame, retry, ready[0]);
      StuckNotMet(t);
      hide Batch, Timeouts, RxOk, Stuck, IndexMet;
      AwaitStuck(t, frame, left, ready[1..]);
      if t.host.exited { AwaitExited(t, frame, left, ready[1..]); }
    }
  }

  lemma AwaitExited(s: H5, frame: seq<byte>, retry: nat, ready: seq<seq<Ready>>)
    requires Ok(s) && s.host.exited
    ensures Await(s, frame, retry, ready) == (s, false)
  {}

  lemma StuckNotMet(s: H5)
    requires Stuck(s)
    ensures Ok(s) && !IndexMet(s.host)
  {}

  lemma StandingStuck(s: H5, p: PatchPkt, total: nat, first: nat)
    requires Standing(s, total, first, 256) && total >= 256
    requires |p.data| <= PATCH_DATA_FIELD_MAX_SIZE && p.index == IndexByte(256, total)
    ensures Ok(s) && Stuck(Patched(s, p))
  {
    PatchKept(s, p);
    hide Patched, RxOk;
  }

  /** The answer to packet 255 carries index 0x80, which ends the download: packet 256 is never answered. */
  lemma Packet256(s: H5, image: seq<byte>, total: nat, first: nat, ready: nat -> seq<seq<Ready>>,
                  answers: nat -> Order)
    requires Standing(s, total, first, 0) && Answers(first, total, ready, answers) && total >= 256
    ensures var (t, ok) := Sends(s, image, total, ready, total + 1);
            !ok && (AllTimeouts(ready(256)) > 3 ==> t.host.exited)
  {
    SendsAnswered(s, image, total, first, ready, answers, 256);
    SendsOne(s, image, total, ready, 256);
    var t, p := Sends(s, image, total, ready, 256).0, PatchPacket(image, total, 256);
    hide Sends, Standing, Await, Answers, IndexByte, Chunk, Patched, PatchFrame, RxOk, Stuck, AllTimeouts;
    StandingStuck(t, p, total, first);
    AwaitStuck(Patched(t, p), PatchFrame(t, p), 3, ready(256));
    SendsNoMore(s, image, total, ready, 257, total + 1);
  }

  lemma DownloadSends(g: H5, s: H5, ok: bool, image: seq<byte>, ready: nat -> seq<seq<Ready>>, resps: nat -> byte,
                      txs: seq<Tx>, sent: seq<PatchPkt>)
    requires Ok(g) && image != [] && Downloaded(ThreeWire, g, s, ok, image, ready, resps, txs, sent)
    ensures var total := TotalIdx(|image|, g.host.numOfCmdSent, ThreeWire);
            (s, ok) == Sends(DownloadStarts(g, total), image, total, ready, total + 1)
  {
    hide TotalIdx, Sends, Downloading, SendsImage, RxOk;
  }

  lemma StartStands(g: H5, total: nat)
    requires Waiting(g) && g.host.link == Patch && g.host.rxIndex == -1
    ensures Ok(g) && Standing(DownloadStarts(g, total), total, g.host.rxseqTxack, 0)
  {}

  /** With a controller that answers every patch packet in time, in order and with its index, a download
      over H5 succeeds exactly if the last packet has at most number 255. Otherwise, after packet 256 has
      timed out once more than it is repeated, the process has ended. */
  lemma DownloadEnds(g: H5, s: H5, ok: bool, image: seq<byte>, ready: nat -> seq<seq<Ready>>, resps: nat -> byte,
                     txs: seq<Tx>, sent: seq<PatchPkt>, answers: nat -> Order)
    requires Waiting(g) && g.host.link == Patch && g.host.rxIndex == -1 && image != []
    requires Answers(g.host.rxseqTxack, TotalIdx(|image|, g.host.numOfCmdSent, ThreeWire), ready, answers)
    requires Downloaded(ThreeWire, g, s, ok, image, ready, resps, txs, sent)
    ensures ok <==> TotalIdx(|image|, g.host.numOfCmdSent, ThreeWire) <= 255
    ensures !ok && AllTimeouts(ready(256)) > 3 ==> s.host.exited
  {
    var total, first := TotalIdx(|image|, g.host.numOfCmdSent, ThreeWire), g.host.rxseqTxack;
    hide *;
    DownloadSends(g, s, ok, image, ready, resps, txs, sent);
    StartStands(g, total);
    var start := DownloadStarts(g, total);
    if total <= 255 {
      SendsAnswered(start, image, total, first, ready, answers, total + 1);
    } else {
      Packet256(start, image, total, first, ready, answers);
    }
  }

  /** So does every download that begins between frames. */
  lemma BegunEnds(s0: H5, last: int, s: H5, ok: bool, image: seq<byte>, ready: nat -> seq<seq<Ready>>,
                  resps: nat -> byte, txs: seq<Tx>, sent: seq<PatchPkt>, answers: nat -> Order)
    requires Waiting(s0) && image != []
    requires Answers(s0.host.rxseqTxack, TotalIdx(|image|, s0.host.numOfCmdSent, ThreeWire), ready, answers)
    requires Downloaded(ThreeWire, React(s0, DownloadBegins(last)), s, ok, image, ready, resps, txs, sent)
    ensures ok <==> TotalIdx(|image|, s0.host.numOfCmdSent, ThreeWire) <= 255
  {
    Begun(s0, last);
    hide *;
    DownloadEnds(React(s0, DownloadBegins(last)), s, ok, image, ready, resps, txs, sent, answers);
  }

  lemma Begun(s0: H5, last: int)
    requires Waiting(s0)
    ensures var g := React(s0, DownloadBegins(last));
            Ok(s0) && Waiting(g) && g.host.link == Patch && g.host.rxIndex == -1
            && g.host.rxseqTxack == s0.host.rxseqTxack && g.host.numOfCmdSent == s0.host.numOfCmdSent
  {}
}
