/** The receiver on arbitrary bytes: order, repeats, garbage and damage. */
module Runs {
  import opened DataIntegrity
  import opened Damage
  import opened Slip
  import opened Transport
  import opened Reception
  import opened Delivery

  // ----- one pass

  /** A pass either leaves the log and the expected number alone, or completes one sound packet
      that carries the expected number if it is reliable. */
  predicate Progress(s: H5, t: H5) {
    (t.host.log == s.host.log && t.host.rxseqTxack == s.host.rxseqTxack)
    || (|t.host.log| == |s.host.log| + 1 && t.host.log[..|s.host.log|] == s.host.log
        && var p := t.host.log[|s.host.log|];
           Sound(p) && SeqExpected(s.host, p)
           && t.host.rxseqTxack == if HdrReliable(p) then (HdrSeq(p) + 1) % 8 else s.host.rxseqTxack)
  }

  lemma CompleteProgress(s: H5, len: nat)
    requires Ok(s) && 4 <= len <= |s.rx.buf| && Sound(s.rx.buf[..len]) && SeqExpected(s.host, s.rx.buf)
    ensures Progress(s, CompletePacket(s, len))
    ensures IndexAtTotal(CompletePacket(s, len).host) ==> IndexAtTotal(s.host)
  {
    var buf := s.rx.buf;
    var p := buf[..len];
    assert HdrSeq(p) == HdrSeq(buf) && HdrReliable(p) == HdrReliable(buf);
    hide HdrSeq, HdrReliable, Dispatch, SendAck;
  }

  /** What every pass keeps. */
  predicate Step(s: H5, t: H5) {
    Inv(t) && (IndexAtTotal(t.host) ==> IndexAtTotal(s.host)) && (!IndexAtTotal(s.host) ==> Progress(s, t))
  }

  lemma CheckCrcStep(s: H5)
    requires Inv(s) && s.rx.state == W4Crc && s.rx.count == 0
    ensures Step(s, CheckCrc(s))
  {
    hide CrcMatches, Crc, Complete;
    var n := |s.rx.buf| - 2;
    assert Sound(s.rx.buf[..n]);
    CompleteProgress(s, n);
  }

  lemma CheckHeaderStep(s: H5)
    requires Inv(s) && s.rx.state == W4Hdr && s.rx.count == 0
    ensures Step(s, CheckHeader(s))
  {
    hide Crc;
  }

  lemma CheckDataStep(s: H5)
    requires Inv(s) && s.rx.state == W4Data && s.rx.count == 0
    ensures HdrCrc(s.rx.buf) ==> Step(s, s.(rx := s.rx.(state := W4Crc, count := 2)))
    ensures !HdrCrc(s.rx.buf) ==> Step(s, CompletePacket(s, |s.rx.buf|))
  {
    hide Crc, Complete;
    var buf := s.rx.buf;
    assert buf[..|buf|] == buf && buf[..4 + HdrLen(buf)] == buf;
    CompleteProgress(s, |buf|);
  }

  lemma UnslipStep(s: H5, b: byte)
    requires Inv(s) && s.rx.count > 0
    ensures Step(s, s.(rx := Unslip(s.rx, b)))
  {
    hide CrcUpdate, Crc;
    if !s.rx.escaped && b != ESCAPE { AcceptTracks(s.rx, b); }
    if s.rx.escaped && Unescape(b).Some? { AcceptTracks(s.rx, Unescape(b).value); }
  }

  lemma PassStep(s: H5, b: byte)
    requires Inv(s)
    ensures Step(s, Pass(s, b).0)
  {
    if s.rx.count > 0 {
      UnslipStep(s, b);
      hide Unslip, Crc;
    } else {
      hide CheckHeader, CheckCrc, CompletePacket, Crc, Progress;
      match s.rx.state
      case W4Hdr => CheckHeaderStep(s);
      case W4Crc => CheckCrcStep(s);
      case W4Data => CheckDataStep(s);
      case _ => assert !IndexAtTotal(s.host) ==> Progress(s, s) by { SameProgress(s); }
    }
  }

  lemma SameProgress(s: H5)
    ensures Progress(s, s)
  {}

  // ----- order

  /** The sequence numbers of the reliable packets in a log. */
  function ReliableSeqs(log: seq<seq<byte>>): seq<nat> {
    if log == [] then []
    else
      var p := log[|log| - 1];
      ReliableSeqs(log[..|log| - 1]) + if |p| >= 1 && HdrReliable(p) then [HdrSeq(p)] else []
  }

  /** The n-th number is first + n, modulo 8. */
  predicate Consecutive(seqs: seq<nat>, first: nat) {
    forall n :: 0 <= n < |seqs| ==> seqs[n] == (first + n) % 8
  }

  /** t has completed sound packets after those of s, the reliable ones numbered from the number
      that s expected, and expects the number after them. */
  predicate InOrder(s: H5, t: H5) {
    |s.host.log| <= |t.host.log| && t.host.log[..|s.host.log|] == s.host.log
    && var more := t.host.log[|s.host.log|..];
       (forall p :: p in more ==> Sound(p))
       && Consecutive(ReliableSeqs(more), s.host.rxseqTxack)
       && t.host.rxseqTxack == (s.host.rxseqTxack + |ReliableSeqs(more)|) % 8
  }

  lemma InOrderNone(s: H5)
    requires HostOk(s.host)
    ensures InOrder(s, s)
  {}

  lemma InOrderMore(s: H5, t: H5, u: H5)
    requires HostOk(s.host) && InOrder(s, t) && Progress(t, u)
    ensures InOrder(s, u)
  {
    hide HdrReliable, HdrSeq;
    if |u.host.log| == |t.host.log| + 1 {
      var k := |s.host.log|;
      var before, more := t.host.log[k..], u.host.log[k..];
      var p := u.host.log[|t.host.log|];
      assert u.host.log == t.host.log + [p];
      assert more == before + [p] && more[..|more| - 1] == before;
    } else {
      assert u.host.log == t.host.log;
    }
  }

  lemma {:induction false} RecvInOrder'(s0: H5, s: H5, data: seq<byte>)
    requires Inv(s) && HostOk(s0.host) && InOrder(s0, s) && !IndexAtTotal(s.host)
    ensures var t := Recv(s, data); Inv(t) && InOrder(s0, t) && !IndexAtTotal(t.host)
    decreases |data|, Rank(s.rx)
  {
    if data != [] && !s.host.exited {
      PassStep(s, data[0]);
      PassProgress(s, data[0]);
      var (t, consumed) := Pass(s, data[0]);
      hide *;
      InOrderMore(s0, s, t);
      RecvInOrder'(s0, t, if consumed then data[1..] else data);
      RecvFirst(s, data);
    }
  }

  lemma RecvFirst(s: H5, data: seq<byte>)
    requires Ok(s) && data != [] && !s.host.exited
    ensures Recv(s, data) == var (t, consumed) := Pass(s, data[0]); Recv(t, if consumed then data[1..] else data)
  {}

  /** Whatever bytes arrive, the reliable packets completed are numbered consecutively from the
      number expected, except while tx_index equals total_num in the download. */
  lemma RecvInOrder(s: H5, data: seq<byte>)
    requires Inv(s) && !IndexAtTotal(s.host)
    ensures var t := Recv(s, data); Inv(t) && InOrder(s, t) && !IndexAtTotal(t.host)
  {
    InOrderNone(s);
    RecvInOrder'(s, s, data);
  }

  /** A reliable command packet without payload and CRC. */
  function Probe(seqno: nat): (packet: seq<byte>)
    requires seqno < 8
    ensures |packet| == 4
  {
    Header(Fields(0, true, seqno, false, HCI_COMMAND_PKT, 0))
  }

  lemma ProbeFields(seqno: nat)
    requires seqno < 8
    ensures var p := Probe(seqno);
            Sound(p) && HdrReliable(p) && !HdrCrc(p) && HdrSeq(p) == seqno && Intact(p, [])
  {
    HeaderFields(Fields(0, true, seqno, false, HCI_COMMAND_PKT, 0));
    hide Header, HdrSeq, HdrReliable, HdrCrc, HdrLen, HdrChecksumOk;
  }

  /** While tx_index equals total_num a number out of order is adopted and then accepted. */
  lemma AdoptedThenAccepted(s: H5) returns (data: seq<byte>)
    requires Inv(s) && Waiting(s) && IndexAtTotal(s.host)
    ensures !InOrder(s, Recv(s, data))
  {
    var q := (s.host.rxseqTxack + 1) % 8;
    var p, frame := Probe(q), Frame(Probe(q));
    ProbeFields(q);
    data := frame + frame;
    hide Probe, HdrSeq, HdrReliable, HdrCrc, Frame, Intact, Complete, HdrChecksumOk, HdrLen;
    FrameRefused(s, p);
    var t := Recv(s, frame);
    assert p + [] == p && p[..4] == p;
    FrameReceived(t, p, []);
    CompleteNumbers(t.host, p, 4);
    RecvConcat(s, frame, frame);
    var u := Recv(t, frame);
    assert u.host.log == s.host.log + [p];
    OutOfStep(s, u, p);
  }

  lemma OutOfStep(s: H5, u: H5, p: seq<byte>)
    requires HostOk(s.host) && Sound(p) && HdrReliable(p) && HdrSeq(p) != s.host.rxseqTxack
    requires u.host.log == s.host.log + [p]
    ensures !InOrder(s, u)
  {
    hide HdrSeq, HdrReliable;
    var more := u.host.log[|s.host.log|..];
    assert more == [p] && more[..0] == [];
    assert ReliableSeqs(more) == [HdrSeq(p)];
    assert ReliableSeqs(more)[0] == HdrSeq(p);
  }

  ghost predicate AlwaysInOrder(s: H5)
    requires Ok(s)
  {
    forall data :: InOrder(s, Recv(s, data))
  }

  /** Between frames: reception stays in order on all input exactly unless, in the download,
      tx_index equals total_num. */
  lemma OrderExactlyOffTotal(s: H5)
    requires Inv(s) && Waiting(s)
    ensures AlwaysInOrder(s) <==> !IndexAtTotal(s.host)
  {
    if IndexAtTotal(s.host) {
      var data := AdoptedThenAccepted(s);
    } else {
      forall data ensures InOrder(s, Recv(s, data)) { RecvInOrder(s, data); }
    }
  }

  // ----- repeats

  /** The number of reliable packets completed from s to t. */
  function Accepted(s: H5, t: H5): nat
    requires |s.host.log| <= |t.host.log|
  {
    |ReliableSeqs(t.host.log[|s.host.log|..])|
  }

  /** A repeat of a reliable frame that was completed, after any bytes in between, is completed again
      exactly when the number of reliable packets completed since, the first copy included, is a
      multiple of 8. What the bytes in between left unfinished is settled by the first delimiter of
      the repeat. */
  lemma RepeatAccepted(s: H5, packet: seq<byte>, check: seq<byte>, between: seq<byte>)
    requires Inv(s) && Waiting(s) && !IndexAtTotal(s.host)
    requires Sound(packet) && HdrReliable(packet) && SeqExpected(s.host, packet)
    requires |check| == (if HdrCrc(packet) then 2 else 0) && Intact(packet, check)
    requires !Recv(s, Frame(packet + check) + between + [DELIMITER]).host.exited
    ensures var t := Recv(s, Frame(packet + check) + between + [DELIMITER]);
            var u := Recv(s, Frame(packet + check) + between + Frame(packet + check));
            |s.host.log| <= |t.host.log|
            && u.host.log == if Accepted(s, t) % 8 == 0 then t.host.log + [packet] else t.host.log
  {
    var before := Frame(packet + check) + between;
    RecvInOrder(s, before + [DELIMITER]);
    var t := Recv(s, before + [DELIMITER]);
    GarbageThenFrame(s, before, packet + check);
    RepeatNumber(s.host.rxseqTxack, Accepted(s, t), t.host.rxseqTxack);
    RepeatReceived(t, packet, check);
  }

  lemma RepeatReceived(t: H5, packet: seq<byte>, check: seq<byte>)
    requires Waiting(t) && !IndexAtTotal(t.host) && Sound(packet)
    requires |check| == (if HdrCrc(packet) then 2 else 0) && Intact(packet, check)
    ensures Recv(t, Frame(packet + check)).host.log
         == if SeqExpected(t.host, packet) then t.host.log + [packet] else t.host.log
  {
    SameHeaderPlus(t.host, packet, check);
    assert (packet + check)[..|packet|] == packet;
    hide HdrSeq, HdrReliable, HdrCrc, HdrLen, HdrChecksumOk, Frame, Intact, Complete, Recv, SeqExpected;
    if SeqExpected(t.host, packet) {
      FrameReceived(t, packet, check);
      CompleteNumbers(t.host, packet + check, |packet|);
    } else {
      FrameRefused(t, packet + check);
    }
  }

  lemma SameHeaderPlus(h: Host, packet: seq<byte>, check: seq<byte>)
    requires |packet| >= 4
    ensures SeqExpected(h, packet + check) == SeqExpected(h, packet)
  {}

  lemma RepeatNumber(first: nat, m: nat, next: nat)
    requires first < 8 && next == (first + m) % 8
    ensures next == first <==> m % 8 == 0
  {}

  // ----- garbage and damage

  /** A good frame after arbitrary bytes is completed if its number is expected at that point. */
  lemma DeliveredAfterGarbage(s: H5, garbage: seq<byte>, packet: seq<byte>, check: seq<byte>)
    requires Ok(s) && Sound(packet) && |check| == (if HdrCrc(packet) then 2 else 0) && Intact(packet, check)
    requires var u := Recv(s, garbage + [DELIMITER]); !u.host.exited && SeqExpected(u.host, packet)
    ensures Recv(s, garbage + Frame(packet + check)).host.log
         == Recv(s, garbage + [DELIMITER]).host.log + [packet]
  {
    var u := Recv(s, garbage + [DELIMITER]);
    GarbageThenFrame(s, garbage, packet + check);
    hide Recv, Frame, Intact, Complete, HdrCrc, HdrReliable, HdrSeq;
    FrameReceived(u, packet, check);
    CompleteNumbers(u.host, packet + check, |packet|);
    assert (packet + check)[..|packet|] == packet;
  }

  lemma GarbageThenFrame(s: H5, garbage: seq<byte>, packet: seq<byte>)
    requires Ok(s) && !Recv(s, garbage + [DELIMITER]).host.exited
    ensures AtStart(Recv(s, garbage + [DELIMITER]))
    ensures Recv(s, garbage + Frame(packet)) == Recv(Recv(s, garbage + [DELIMITER]), Frame(packet))
  {
    Resynchronised(s, garbage);
    FirstDelimiter(s, garbage, packet);
    FrameAtStart(Recv(s, garbage + [DELIMITER]), packet);
  }

  lemma FirstDelimiter(s: H5, garbage: seq<byte>, packet: seq<byte>)
    requires Ok(s)
    ensures Recv(s, garbage + Frame(packet))
         == Recv(Recv(s, garbage + [DELIMITER]), Encode(packet) + [DELIMITER])
  {
    hide *;
    FrameOpens(packet);
    Assoc(garbage, [DELIMITER], Encode(packet) + [DELIMITER]);
    RecvConcat(s, garbage + [DELIMITER], Encode(packet) + [DELIMITER]);
  }

  lemma FrameAtStart(s: H5, packet: seq<byte>)
    requires Ok(s) && !s.host.exited && AtStart(s)
    ensures Recv(s, Frame(packet)) == Recv(s, Encode(packet) + [DELIMITER])
  {
    RecvDelimiterWaiting(s);
    hide Recv, Encode, Frame;
    FrameOpens(packet);
    RecvConcat(s, [DELIMITER], Encode(packet) + [DELIMITER]);
  }

  /** Damage to a packet and its check bytes that the comparison is bound to notice: an odd number of
      flipped bits, a burst of at most 14 bits, a burst of at most 16 bits inside the packet, or any
      damage to the check bytes alone. */
  ghost predicate Noticed(sent: seq<byte>, received: seq<byte>, check: seq<byte>)
    requires |check| == 2
  {
    |received| == |sent|
    && (OddFlips(Codeword(sent), received + check)
        || (received + check != Codeword(sent) && ShortBurst(Codeword(sent), received + check))
        || (check == CheckBytes(Crc(sent)) && BurstApart(sent, received))
        || (received == sent && check != CheckBytes(Crc(sent))))
  }

  predicate OddFlips(a: seq<byte>, b: seq<byte>) {
    |a| == |b| && Flips(Bits(a), Bits(b)) % 2 == 1
  }

  ghost predicate ShortBurst(a: seq<byte>, b: seq<byte>) {
    |a| == |b| && exists p: nat :: Within(Bits(a), Bits(b), p, 14)
  }

  lemma NoticedFails(sent: seq<byte>, received: seq<byte>, check: seq<byte>)
    requires |check| == 2 && Noticed(sent, received, check) && |received| >= 2
    ensures !Matches(received, check)
  {
    hide Codeword, Bits, Matches, Flips, CheckBytes, Crc, BurstApart;
    if OddFlips(Codeword(sent), received + check) {
      OddFlipsNoticed(sent, received, check);
    } else if received + check != Codeword(sent) && ShortBurst(Codeword(sent), received + check) {
      var p: nat :| Within(Bits(Codeword(sent)), Bits(received + check), p, 14);
      BurstNoticed(sent, received, check, p);
    } else if check == CheckBytes(Crc(sent)) && BurstApart(sent, received) {
      PacketBurstNoticed(sent, received);
    } else {
      CheckDamageNoticed(sent, check);
    }
  }

  /** In front of w stands a packet whose header sum holds and whose number is expected, all of it
      and, if its header asks for check bytes, followed by those that a sender gives it. */
  predicate CarriesPacket(h: Host, w: seq<byte>) {
    |w| >= 4 && HdrChecksumOk(w) && SeqExpected(h, w) && 4 + HdrLen(w) <= |w|
    && (HdrCrc(w) ==> 6 + HdrLen(w) <= |w| && w[..6 + HdrLen(w)] == Codeword(w[..4 + HdrLen(w)]))
  }

  lemma CheckIsOwn(w: seq<byte>, n: nat)
    requires 4 <= n && n + 2 <= |w|
    ensures Matches(w[..n], w[n..n + 2]) <==> w[..n + 2] == Codeword(w[..n])
  {
    MatchesExactly(w[..n], w[n..n + 2]);
    hide Matches, Codeword;
    assert w[..n] + w[n..n + 2] == w[..n + 2];
  }

  lemma HoldsExactly(w: seq<byte>)
    requires |w| >= 4 && |w| >= WordSize(w)
    ensures CheckHolds(w) <==> (HdrCrc(w) ==> w[..6 + HdrLen(w)] == Codeword(w[..4 + HdrLen(w)]))
  {
    hide HdrLen, HdrCrc, Matches, Codeword;
    if HdrCrc(w) { CheckIsOwn(w, 4 + HdrLen(w)); }
  }

  lemma AcceptedExactly(h: Host, w: seq<byte>)
    ensures WordAccepted(h, w) <==> CarriesPacket(h, w)
  {
    if |w| >= 4 {
      hide HdrLen, HdrCrc, HdrChecksumOk, SeqExpected, Matches, Codeword, CheckHolds, WordSize;
      WordSizeIs(w);
      if |w| >= WordSize(w) { HoldsExactly(w); }
    }
  }

  lemma AfterWordLog(h: Host, w: seq<byte>)
    requires HostOk(h)
    ensures AfterWord(h, w).log == if WordAccepted(h, w) then h.log + [w[..4 + HdrLen(w)]] else h.log
  {
    if WordAccepted(h, w) {
      CompleteNumbers(h, w[..WordSize(w)], 4 + HdrLen(w));
      assert w[..WordSize(w)][..4 + HdrLen(w)] == w[..4 + HdrLen(w)];
    }
    hide Complete, HdrLen, HdrCrc, HdrChecksumOk, SeqExpected, CheckHolds, WordSize, HdrReliable, HdrSeq;
  }

  /** Whatever comes between two delimiters, however long and whatever its header says: one packet is
      completed if one stands in front, and none otherwise. */
  lemma CompletedExactly(s: H5, w: seq<byte>)
    requires Waiting(s)
    ensures var t := Recv(s, Frame(w));
            (t.host.exited || AtStart(t))
            && t.host.log == if CarriesPacket(s.host, w) then s.host.log + [w[..4 + HdrLen(w)]] else s.host.log
  {
    hide Recv, Frame, AfterWord, WordAccepted, CarriesPacket;
    FrameExactly(s, w);
    AfterWordLog(s.host, w);
    AcceptedExactly(s.host, w);
  }

  /** w is a packet and check bytes, sent as those of sent, with damage that the comparison is bound
      to notice. */
  ghost predicate Damaged(sent: seq<byte>, w: seq<byte>) {
    Sound(sent) && HdrCrc(sent) && |w| == |sent| + 2 && Noticed(sent, w[..|sent|], w[|sent|..])
  }

  /** Damage that the comparison would notice is accepted all the same exactly when it leaves the
      header sum right and the number as expected and, either clears the flag that asks for the
      comparison, with a length that fits, or changes the length so that the check bytes of the
      shorter packet happen to follow it. */
  lemma DamageDecided(s: H5, sent: seq<byte>, w: seq<byte>)
    requires Waiting(s) && Damaged(sent, w)
    ensures Recv(s, Frame(w)).host.log
         == if HdrChecksumOk(w) && SeqExpected(s.host, w)
               && if !HdrCrc(w) then 4 + HdrLen(w) <= |w|
                  else HdrLen(w) < HdrLen(sent) && w[..6 + HdrLen(w)] == Codeword(w[..4 + HdrLen(w)])
            then s.host.log + [w[..4 + HdrLen(w)]] else s.host.log
  {
    CompletedExactly(s, w);
    if HdrLen(w) == HdrLen(sent) { SameLengthFails(sent, w); }
    hide Recv, Frame, HdrLen, HdrCrc, HdrChecksumOk, SeqExpected, Codeword, Noticed;
  }

  lemma SameLengthFails(sent: seq<byte>, w: seq<byte>)
    requires Damaged(sent, w) && HdrLen(w) == HdrLen(sent)
    ensures w[..6 + HdrLen(w)] != Codeword(w[..4 + HdrLen(w)])
  {
    hide Noticed, Codeword, Matches, HdrCrc, HdrChecksumOk, HdrLen;
    var n := |sent|;
    NoticedFails(sent, w[..n], w[n..]);
    CheckIsOwn(w, n);
    assert w[n..n + 2] == w[n..];
  }

  /** As long as the flag and the length arrive as sent, a packet and check bytes with damage that is
      noticed are not completed or counted. The damaged number of a header whose sum still holds can ask
      for an acknowledgement; nothing else changes. */
  lemma DamageRejected(s: H5, sent: seq<byte>, w: seq<byte>)
    requires Waiting(s) && Damaged(sent, w) && HdrCrc(w) && HdrLen(w) == HdrLen(sent)
    ensures var t := Recv(s, Frame(w));
            AtStart(t) && t.host == if HdrChecksumOk(w) && !SeqExpected(s.host, w) then OutOfOrder(s.host, HdrSeq(w))
                                    else s.host
  {
    SameLengthFails(sent, w);
    AcceptedExactly(s.host, w);
    hide Recv, Frame, HdrLen, HdrCrc, HdrChecksumOk, SeqExpected, Codeword, Noticed, WordAccepted, HdrSeq, OutOfOrder;
    FrameExactly(s, w);
  }

  /** No more than 14 bits can be promised: every packet with a payload can be damaged in a burst of
      15, across the start of its check bytes, so that another packet is completed for it. */
  lemma DamageAccepted(s: H5, sent: seq<byte>) returns (received: seq<byte>, check: seq<byte>)
    requires Waiting(s) && Sound(sent) && HdrCrc(sent) && SeqExpected(s.host, sent) && |sent| > 4
    ensures |received| == |sent| && received != sent && |check| == 2
    ensures Within(Bits(Codeword(sent)), Bits(received + check), 8 * |sent| - 1, 15)
    ensures Recv(s, Frame(received + check)).host.log == s.host.log + [received]
  {
    received := Flipped(sent);
    assert received[..4] == sent[..4];
    hide *;
    check := StraddlingBurstMatches(sent);
    MatchesExactly(received, check);
    SameHead(s.host, sent, received);
    WholePacket(s.host, received, check);
    CompletedExactly(s, received + check);
  }

  lemma WholePacket(h: Host, packet: seq<byte>, check: seq<byte>)
    requires Sound(packet) && HdrCrc(packet) && SeqExpected(h, packet) && packet + check == Codeword(packet)
    ensures CarriesPacket(h, packet + check) && (packet + check)[..4 + HdrLen(packet + check)] == packet
  {
    hide Codeword;
    var w := packet + check;
    Joined(packet, check);
    Prefix(h, w, |packet|);
    hide HdrLen, HdrCrc, HdrChecksumOk, SeqExpected;
  }

  lemma SameHead(h: Host, a: seq<byte>, b: seq<byte>)
    requires |a| == |b| && |a| >= 4 && a[..4] == b[..4]
    ensures Sound(a) == Sound(b) && HdrCrc(a) == HdrCrc(b) && SeqExpected(h, a) == SeqExpected(h, b)
  {
    assert a[0] == a[..4][0] && a[1] == a[..4][1] && a[2] == a[..4][2] && a[3] == a[..4][3];
  }
}
