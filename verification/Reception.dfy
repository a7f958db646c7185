/** What h5_recv does with whole streams of bytes. */
module Reception {
  import opened DataIntegrity
  import opened Damage
  import opened Slip
  import opened Transport

  // ----- chunks and delimiters

  /** Cutting the input anywhere changes nothing. */
  lemma {:induction false} RecvConcat(s: H5, a: seq<byte>, b: seq<byte>)
    requires Ok(s)
    ensures Recv(s, a + b) == Recv(Recv(s, a), b)
    decreases |a|, Rank(s.rx)
  {
    hide Pass;
    if a == [] {
      assert a + b == b;
    } else if !s.host.exited {
      PassProgress(s, a[0]);
      var (t, consumed) := Pass(s, a[0]);
      assert (a + b)[1..] == a[1..] + b;
      RecvConcat(t, if consumed then a[1..] else a, b);
    }
  }

  /** A pass that consumes nothing brings the next byte nearer. */
  lemma PassProgress(s: H5, b: byte)
    requires Ok(s)
    ensures !Pass(s, b).1 ==> Rank(Pass(s, b).0.rx) < Rank(s.rx)
  {}

  /** The number of passes of the loop over data. */
  function Passes(s: H5, data: seq<byte>): nat
    requires Ok(s)
    decreases |data|, Rank(s.rx)
  {
    if data == [] || s.host.exited then 0
    else
      var (t, consumed) := Pass(s, data[0]);
      1 + Passes(t, if consumed then data[1..] else data)
  }

  /** h5_recv ends after at most four passes a byte. */
  lemma {:induction false} PassesLinear(s: H5, data: seq<byte>)
    requires Ok(s)
    ensures Passes(s, data) <= (if data == [] then 0 else 4 * |data| - 3 + Rank(s.rx))
    decreases |data|, Rank(s.rx)
  {
    if data != [] && !s.host.exited {
      PassProgress(s, data[0]);
      var (t, consumed) := Pass(s, data[0]);
      RankBound(t.rx);
      hide Pass, Rank;
      PassesLinear(t, if consumed then data[1..] else data);
    }
  }

  lemma RankBound(rx: Rx)
    ensures Rank(rx) <= 3
  {}

  predicate AtStart(s: H5) {
    s.rx.state == W4Start && s.rx.count == 0
  }

  lemma {:induction false} DelimiterResets(s: H5)
    requires Ok(s) && !s.host.exited
    ensures var t := Recv(s, [DELIMITER]); t.host.exited || AtStart(t)
    decreases Rank(s.rx)
  {
    PassProgress(s, DELIMITER);
    var (t, consumed) := Pass(s, DELIMITER);
    if consumed {
      assert Recv(s, [DELIMITER]) == Recv(t, [DELIMITER][1..]) == t;
    } else if !t.host.exited {
      hide Pass;
      DelimiterResets(t);
    }
  }

  /** After any bytes that end in the delimiter the decoder waits for the start of a packet. */
  lemma Resynchronised(s: H5, garbage: seq<byte>)
    requires Ok(s)
    ensures var t := Recv(s, garbage + [DELIMITER]); t.host.exited || AtStart(t)
  {
    RecvConcat(s, garbage, [DELIMITER]);
    if !Recv(s, garbage).host.exited { DelimiterResets(Recv(s, garbage)); }
  }

  // ----- encoded data

  /** The decoder after the decoded bytes of data. */
  function Accepts(rx: Rx, data: seq<byte>): (r: Rx)
    requires RxOk(rx) && |data| <= rx.count
    ensures RxOk(r) && r.state == rx.state && r.buf == rx.buf + data && r.count == rx.count - |data|
    ensures !rx.escaped ==> !r.escaped
    decreases data
  {
    if data == [] then rx else Accepts(Accept(rx, data[0]), data[1..])
  }

  lemma RecvOne(s: H5, b: byte)
    requires Ok(s) && !s.host.exited
    ensures Recv(s, [b]) == Pass(s, b).0 || !Pass(s, b).1
  {
    hide Pass;
    assert [b][1..] == [];
  }

  lemma RecvSlipByte(s: H5, c: byte)
    requires Ok(s) && !s.host.exited && !s.rx.escaped && s.rx.count > 0
    ensures Recv(s, SlipByte(c)) == s.(rx := Accept(s.rx, c))
  {
    hide Accept;
    var code := SlipByte(c);
    RecvOne(s, code[0]);
    if |code| == 2 {
      var t := s.(rx := s.rx.(escaped := true));
      RecvOne(t, code[1]);
      RecvConcat(s, [ESCAPE], [code[1]]);
      assert code == [ESCAPE] + [code[1]];
      EscapeClears(s.rx, c);
    } else {
      assert code == [c];
    }
  }

  lemma EscapeClears(rx: Rx, c: byte)
    requires RxOk(rx) && rx.count > 0 && !rx.escaped
    ensures RxOk(rx.(escaped := true)) && Accept(rx.(escaped := true), c) == Accept(rx, c)
  {}

  /** Encoded data enters the buffer decoded. */
  lemma {:induction false} RecvEncoded(s: H5, data: seq<byte>)
    requires Ok(s) && !s.host.exited && !s.rx.escaped && |data| <= s.rx.count
    ensures Recv(s, Encode(data)) == s.(rx := Accepts(s.rx, data))
    decreases data
  {
    hide SlipByte;
    if data != [] {
      EncodeFirst(data);
      RecvConcat(s, SlipByte(data[0]), Encode(data[1..]));
      RecvSlipByte(s, data[0]);
      AcceptCounts(s.rx, data[0]);
      hide Accept, RxOk;
      RecvEncoded(s.(rx := Accept(s.rx, data[0])), data[1..]);
    }
  }

  lemma AcceptCounts(rx: Rx, b: byte)
    requires RxOk(rx) && rx.count > 0
    ensures var r := Accept(rx, b); r.count == rx.count - 1 && !r.escaped
  {}

  // ----- what holds in every reachable state

  /** message_crc is the CRC of what has been buffered, check bytes excluded. */
  predicate CrcTracks(rx: Rx)
    requires RxOk(rx)
  {
    match rx.state
    case W4Hdr => rx.buf == [] || HdrCrc(rx.buf) ==> rx.crc == Crc(rx.buf)
    case W4Data => HdrCrc(rx.buf) ==> rx.crc == Crc(rx.buf)
    case W4Crc => rx.crc == Crc(rx.buf[..4 + HdrLen(rx.buf)])
    case _ => true
  }

  /** Past the header check, the header is sound and in order. */
  predicate HeaderAccepted(s: H5)
    requires Ok(s)
  {
    s.rx.state == W4Data || s.rx.state == W4Crc ==> HdrChecksumOk(s.rx.buf) && SeqExpected(s.host, s.rx.buf)
  }

  predicate Sound(packet: seq<byte>) {
    |packet| >= 4 && |packet| == 4 + HdrLen(packet) && HdrChecksumOk(packet)
  }

  predicate Inv(s: H5) {
    Ok(s) && CrcTracks(s.rx) && HeaderAccepted(s)
  }

  lemma AcceptTracks(rx: Rx, b: byte)
    requires RxOk(rx) && rx.count > 0 && CrcTracks(rx)
    ensures CrcTracks(Accept(rx, b))
  {
    hide CrcUpdate;
    var buf := rx.buf + [b];
    assert buf[..|buf| - 1] == rx.buf;
    if rx.state == W4Crc {
      assert buf[..4 + HdrLen(buf)] == rx.buf[..4 + HdrLen(rx.buf)];
    }
  }

  lemma {:induction false} AcceptsTracks(rx: Rx, data: seq<byte>)
    requires RxOk(rx) && |data| <= rx.count && CrcTracks(rx)
    ensures CrcTracks(Accepts(rx, data))
    decreases data
  {
    if data != [] {
      AcceptTracks(rx, data[0]);
      hide CrcTracks;
      AcceptsTracks(Accept(rx, data[0]), data[1..]);
    }
  }

  /** In every state between passes the buffer and what is still expected fit the allocation
      of 0x1005 bytes. */
  lemma BufferBound(s: H5)
    requires Ok(s)
    ensures |s.rx.buf| + s.rx.count <= 0x1005
  {}

  // ----- any bytes between two delimiters

  /** Between frames. */
  predicate Waiting(s: H5) {
    Ok(s) && !s.host.exited && s.rx.count == 0 && s.rx.state in {W4Delimiter, W4Start}
  }

  lemma RecvDelimiterWaiting(s: H5)
    requires Ok(s) && !s.host.exited && s.rx.count == 0 && s.rx.state in {W4Delimiter, W4Start}
    ensures Recv(s, [DELIMITER]) == s.(rx := s.rx.(state := W4Start))
  {
    RecvOne(s, DELIMITER);
  }

  /** A pass that does not consume the first byte can be taken first. */
  lemma RecvPass(s: H5, data: seq<byte>)
    requires Ok(s) && !s.host.exited && data != [] && !Pass(s, data[0]).1
    ensures Recv(s, data) == Recv(Pass(s, data[0]).0, data)
  {}

  lemma RecvExited(t: H5, data: seq<byte>)
    requires Ok(t) && t.host.exited
    ensures Recv(t, data) == t
  {}

  lemma {:induction false} RecvWhileHunting(s: H5, data: seq<byte>)
    requires Ok(s) && !s.host.exited && s.rx.state == W4Delimiter && DELIMITER !in data
    ensures Recv(s, data) == s
    decreases data
  {
    if data != [] { RecvWhileHunting(s, data[1..]); }
  }

  lemma RecvToDelimiter(s: H5, data: seq<byte>)
    requires Ok(s) && !s.host.exited && s.rx.state == W4Delimiter
    ensures var t := Recv(s, Encode(data) + [DELIMITER]); t.host == s.host && AtStart(t)
  {
    Transparent(data);
    RecvWhileHunting(s, Encode(data));
    RecvConcat(s, Encode(data), [DELIMITER]);
    RecvDelimiterWaiting(s);
  }

  /** A delimiter ends a packet that is not complete. */
  lemma CutShort(s: H5, data: seq<byte>)
    requires Ok(s) && !s.host.exited && !s.rx.escaped && |data| < s.rx.count
    ensures var t := Recv(s, Encode(data) + [DELIMITER]); t.host == s.host && AtStart(t)
  {
    RecvEncoded(s, data);
    RecvConcat(s, Encode(data), [DELIMITER]);
    RecvOne(s.(rx := Accepts(s.rx, data)), DELIMITER);
  }

  /** The decoder after an encoded header. */
  lemma RecvHeader(s: H5, hdr: seq<byte>) returns (t: H5)
    requires Ok(s) && !s.host.exited && AtStart(s) && |hdr| == 4
    ensures Ok(t) && Recv(s, Encode(hdr)) == t && t.host == s.host
    ensures t.rx.state == W4Hdr && t.rx.count == 0 && !t.rx.escaped && t.rx.buf == hdr && CrcTracks(t.rx)
  {
    t := H5(Accepts(FRESH, hdr), s.host);
    EncodeFirst(hdr);
    Transparent(hdr);
    RecvPass(s, Encode(hdr));
    RecvEncoded(H5(FRESH, s.host), hdr);
    AcceptsTracks(FRESH, hdr);
    assert [] + hdr == hdr;
  }

  lemma HeaderRefused(s: H5, b: byte)
    requires Ok(s) && s.rx.state == W4Hdr && s.rx.count == 0
    requires !(HdrChecksumOk(s.rx.buf) && SeqExpected(s.host, s.rx.buf))
    ensures var t := CheckHeader(s);
            Pass(s, b) == (t, false) && t.rx.state == W4Delimiter && t.rx.count == 0
            && t.host == if HdrChecksumOk(s.rx.buf) then OutOfOrder(s.host, HdrSeq(s.rx.buf)) else s.host
  {}

  /** The bytes of a packet with its check bytes, if it has them, by its own header. */
  function WordSize(w: seq<byte>): (n: nat)
    requires |w| >= 4
    ensures n >= 4 + HdrLen(w)
  {
    4 + HdrLen(w) + if HdrCrc(w) then 2 else 0
  }

  /** The check bytes that the header asks for are those of the packet. */
  predicate CheckHolds(w: seq<byte>)
    requires |w| >= 4 && |w| >= WordSize(w)
  {
    var n := 4 + HdrLen(w);
    HdrCrc(w) ==> Matches(w[..n], w[n..n + 2])
  }

  /** The packet in front of w is completed. */
  predicate WordAccepted(h: Host, w: seq<byte>) {
    |w| >= 4 && HdrChecksumOk(w) && SeqExpected(h, w) && |w| >= WordSize(w) && CheckHolds(w)
  }

  /** The connection after w arrives between two delimiters. */
  function AfterWord(h: Host, w: seq<byte>): Host
    requires HostOk(h)
  {
    if |w| < 4 || !HdrChecksumOk(w) then h
    else if !SeqExpected(h, w) then OutOfOrder(h, HdrSeq(w))
    else if WordAccepted(h, w) then Complete(h, w[..WordSize(w)], 4 + HdrLen(w))
    else h
  }

  /** What a header says does not depend on what follows it. */
  lemma Prefix(h: Host, w: seq<byte>, k: nat)
    requires 4 <= k <= |w|
    ensures var p := w[..k];
            HdrChecksumOk(p) == HdrChecksumOk(w) && SeqExpected(h, p) == SeqExpected(h, w) && HdrSeq(p) == HdrSeq(w)
            && HdrCrc(p) == HdrCrc(w) && HdrLen(p) == HdrLen(w) && HdrReliable(p) == HdrReliable(w)
  {}

  lemma EncodeSplit(w: seq<byte>, k: nat, tail: seq<byte>)
    requires k <= |w|
    ensures Encode(w) + tail == Encode(w[..k]) + (Encode(w[k..]) + tail)
  {
    hide Encode;
    assert w == w[..k] + w[k..];
    EncodeConcat(w[..k], w[k..]);
    Assoc(Encode(w[..k]), Encode(w[k..]), tail);
  }

  /** What follows the packet is skipped up to the delimiter. */
  lemma RestSkipped(s: H5, t: H5, rest: seq<byte>)
    requires Ok(s) && !s.host.exited && Ok(t) && (t.host.exited || t.rx.state == W4Delimiter)
    requires Pass(s, (Encode(rest) + [DELIMITER])[0]) == (t, false)
    ensures var u := Recv(s, Encode(rest) + [DELIMITER]); u.host == t.host && (u.host.exited || AtStart(u))
  {
    hide Pass, Encode;
    RecvPass(s, Encode(rest) + [DELIMITER]);
    if t.host.exited { RecvExited(t, Encode(rest) + [DELIMITER]); } else { RecvToDelimiter(t, rest); }
  }

  lemma StartCheck(s: H5, b: byte)
    requires Ok(s) && s.rx.state == W4Data && s.rx.count == 0 && HdrCrc(s.rx.buf) && CrcTracks(s.rx)
    ensures var s1 := s.(rx := s.rx.(state := W4Crc, count := 2));
            Pass(s, b) == (s1, false) && Ok(s1) && CrcTracks(s1.rx)
  {
    assert s.rx.buf[..4 + HdrLen(s.rx.buf)] == s.rx.buf;
  }

  lemma OwnCheck(rx: Rx, w: seq<byte>)
    requires |w| >= 4 && HdrCrc(w) && |w| >= WordSize(w)
    requires RxOk(rx) && rx.state == W4Crc && rx.count == 0 && CrcTracks(rx) && rx.buf == w[..WordSize(w)]
    ensures var n := 4 + HdrLen(w);
            |rx.buf| == n + 2 && (CrcMatches(rx.crc, rx.buf[n], rx.buf[n + 1]) <==> CheckHolds(w))
  {
    hide *;
    var n := 4 + HdrLen(w);
    WordSizeIs(w);
    SameLength(w, n + 2);
    Tracked(rx);
    OwnBytes(rx.buf, w, n);
    CheckMeans(w);
  }

  lemma SameLength(w: seq<byte>, k: nat)
    requires 4 <= k <= |w|
    ensures HdrLen(w[..k]) == HdrLen(w)
  {}

  lemma WordSizeIs(w: seq<byte>)
    requires |w| >= 4
    ensures WordSize(w) == 4 + HdrLen(w) + if HdrCrc(w) then 2 else 0
  {}

  lemma Tracked(rx: Rx)
    requires RxOk(rx) && rx.state == W4Crc && rx.count == 0 && CrcTracks(rx)
    ensures |rx.buf| == 6 + HdrLen(rx.buf) && rx.crc == Crc(rx.buf[..4 + HdrLen(rx.buf)])
  {}

  lemma OwnBytes(buf: seq<byte>, w: seq<byte>, n: nat)
    requires n + 2 <= |w| && buf == w[..n + 2]
    ensures buf[..n] == w[..n] && buf[n] == w[n..n + 2][0] && buf[n + 1] == w[n..n + 2][1]
  {}

  lemma CheckMeans(w: seq<byte>)
    requires |w| >= 4 && HdrCrc(w) && |w| >= 6 + HdrLen(w)
    ensures var n := 4 + HdrLen(w);
            WordSize(w) == n + 2 && (CheckHolds(w) <==> CrcMatches(Crc(w[..n]), w[n..n + 2][0], w[n..n + 2][1]))
  {
    hide HdrLen, HdrCrc, CrcMatches, Crc;
  }

  lemma PassAtCheck(s: H5, b: byte)
    requires Ok(s) && s.rx.state == W4Crc && s.rx.count == 0
    ensures RxOk(s.rx) && HostOk(s.host) && Pass(s, b) == (CheckCrc(s), false) && CheckCrc(s).rx.state == W4Delimiter
    ensures var buf, n := s.rx.buf, |s.rx.buf| - 2;
            n >= 4 && CheckCrc(s).host
                      == if CrcMatches(s.rx.crc, buf[n], buf[n + 1]) then Complete(s.host, buf, n) else s.host
  {
    hide CrcMatches, Complete;
  }

  lemma GoodHeaderWord(h: Host, w: seq<byte>)
    requires HostOk(h) && |w| >= 4 && |w| >= WordSize(w) && HdrChecksumOk(w) && SeqExpected(h, w)
    ensures AfterWord(h, w) == if CheckHolds(w) then Complete(h, w[..WordSize(w)], 4 + HdrLen(w)) else h
  {
    hide WordSize, CheckHolds, Complete, HdrChecksumOk, SeqExpected, HdrLen, OutOfOrder;
  }

  lemma CheckPassed(s: H5, w: seq<byte>, b: byte)
    requires |w| >= 4 && HdrCrc(w) && |w| >= WordSize(w) && HdrChecksumOk(w) && SeqExpected(s.host, w)
    requires Ok(s) && s.rx.state == W4Crc && s.rx.count == 0 && CrcTracks(s.rx) && s.rx.buf == w[..WordSize(w)]
    ensures var t := CheckCrc(s);
            Pass(s, b) == (t, false) && t.host == AfterWord(s.host, w) && t.rx.state == W4Delimiter
  {
    hide *;
    PassAtCheck(s, b);
    OwnCheck(s.rx, w);
    WordSizeIs(w);
    GoodHeaderWord(s.host, w);
  }

  /** The decoder takes the first k bytes that it expects. */
  lemma RecvSome(s: H5, data: seq<byte>) returns (t: H5)
    requires Ok(s) && !s.host.exited && !s.rx.escaped && CrcTracks(s.rx) && s.rx.count <= |data|
    ensures Ok(t) && t.host == s.host && t.rx.state == s.rx.state && t.rx.count == 0 && !t.rx.escaped && CrcTracks(t.rx)
    ensures t.rx.buf == s.rx.buf + data[..s.rx.count]
    ensures Recv(s, Encode(data) + [DELIMITER]) == Recv(t, Encode(data[s.rx.count..]) + [DELIMITER])
  {
    var k := s.rx.count;
    t := s.(rx := Accepts(s.rx, data[..k]));
    EncodeSplit(data, k, [DELIMITER]);
    RecvEncoded(s, data[..k]);
    AcceptsTracks(s.rx, data[..k]);
    hide Recv, Encode, CrcTracks;
    RecvConcat(s, Encode(data[..k]), Encode(data[k..]) + [DELIMITER]);
  }

  lemma ShortWord(h: Host, w: seq<byte>)
    requires HostOk(h) && |w| >= 4 && SeqExpected(h, w) && |w| < WordSize(w)
    ensures AfterWord(h, w) == h
  {
    hide HdrChecksumOk, SeqExpected, WordSize, Complete, OutOfOrder;
  }

  /** In front of the check bytes. */
  predicate BeforeCheck(s: H5, w: seq<byte>) {
    |w| >= 4 && |w| >= 4 + HdrLen(w) && HdrCrc(w) && HdrChecksumOk(w) && SeqExpected(s.host, w)
    && Ok(s) && !s.host.exited && !s.rx.escaped && CrcTracks(s.rx) && s.rx.buf == w[..4 + HdrLen(w)]
  }

  lemma CheckStarted(s: H5, w: seq<byte>, tail: seq<byte>) returns (t: H5)
    requires BeforeCheck(s, w) && s.rx.state == W4Data && s.rx.count == 0 && tail != []
    ensures BeforeCheck(t, w) && t.rx.state == W4Crc && t.rx.count == 2 && t.host == s.host
    ensures Recv(s, tail) == Recv(t, tail)
  {
    t := s.(rx := s.rx.(state := W4Crc, count := 2));
    Prefix(s.host, w, 4 + HdrLen(w));
    StartCheck(s, tail[0]);
    RecvPass(s, tail);
    hide Pass, Recv, HdrLen, HdrChecksumOk, SeqExpected, RxOk, CrcTracks;
  }

  lemma BeforeCheckMeans(s: H5, w: seq<byte>)
    requires BeforeCheck(s, w)
    ensures |w| >= 4 && |w| >= 4 + HdrLen(w) && HdrCrc(w) && HdrChecksumOk(w) && SeqExpected(s.host, w)
    ensures Ok(s) && HostOk(s.host) && !s.host.exited && !s.rx.escaped && CrcTracks(s.rx)
    ensures s.rx.buf == w[..4 + HdrLen(w)]
  {}

  lemma Cuts(w: seq<byte>, n: nat, k: nat)
    requires n + k <= |w|
    ensures w[..n] + w[n..][..k] == w[..n + k] && w[n..][k..] == w[n + k..]
  {}

  lemma CheckTaken(s: H5, w: seq<byte>) returns (t: H5)
    requires BeforeCheck(s, w) && s.rx.state == W4Crc && s.rx.count == 2 && |w| >= WordSize(w)
    ensures Ok(t) && t.host == s.host && t.rx.state == W4Crc && t.rx.count == 0 && CrcTracks(t.rx)
    ensures t.rx.buf == w[..WordSize(w)]
    ensures Recv(s, Encode(w[4 + HdrLen(w)..]) + [DELIMITER]) == Recv(t, Encode(w[WordSize(w)..]) + [DELIMITER])
  {
    hide *;
    BeforeCheckMeans(s, w);
    var n := 4 + HdrLen(w);
    WordSizeIs(w);
    t := RecvSome(s, w[n..]);
    Cuts(w, n, 2);
  }

  /** From the end of the payload on, with check bytes. */
  lemma AfterCrcPayload(s: H5, w: seq<byte>)
    requires BeforeCheck(s, w) && s.rx.state == W4Data && s.rx.count == 0
    ensures var t := Recv(s, Encode(w[4 + HdrLen(w)..]) + [DELIMITER]);
            t.host == AfterWord(s.host, w) && (t.host.exited || AtStart(t))
  {
    hide *;
    BeforeCheckMeans(s, w);
    WordSizeIs(w);
    var n := 4 + HdrLen(w);
    DelimiterLast(Encode(w[n..]));
    var s1 := CheckStarted(s, w, Encode(w[n..]) + [DELIMITER]);
    BeforeCheckMeans(s1, w);
    if |w| < WordSize(w) {
      ShortWord(s.host, w);
      CutShort(s1, w[n..]);
    } else {
      var t := CheckTaken(s1, w);
      DelimiterLast(Encode(w[n + 2..]));
      CheckPassed(t, w, (Encode(w[n + 2..]) + [DELIMITER])[0]);
      RestSkipped(t, CheckCrc(t), w[n + 2..]);
    }
  }

  lemma PlainPassed(s: H5, w: seq<byte>, b: byte)
    requires |w| >= 4 && !HdrCrc(w) && |w| >= WordSize(w) && HdrChecksumOk(w) && SeqExpected(s.host, w)
    requires Ok(s) && s.rx.state == W4Data && s.rx.count == 0 && s.rx.buf == w[..WordSize(w)]
    ensures var t := DataComplete(s);
            Pass(s, b) == (t, false) && t.host == AfterWord(s.host, w) && t.rx.state == W4Delimiter
  {
    Prefix(s.host, w, WordSize(w));
    hide Complete;
  }

  /** From the end of the payload on. */
  lemma AfterPayload(s: H5, w: seq<byte>)
    requires |w| >= 4 && |w| >= 4 + HdrLen(w) && HdrChecksumOk(w) && SeqExpected(s.host, w)
    requires Ok(s) && !s.host.exited && s.rx.state == W4Data && s.rx.count == 0 && !s.rx.escaped && CrcTracks(s.rx)
    requires s.rx.buf == w[..4 + HdrLen(w)]
    ensures var t := Recv(s, Encode(w[4 + HdrLen(w)..]) + [DELIMITER]);
            t.host == AfterWord(s.host, w) && (t.host.exited || AtStart(t))
  {
    hide Pass, Recv, Encode, AfterWord, DataComplete, CrcTracks, HdrLen, HdrChecksumOk, SeqExpected, RxOk;
    if HdrCrc(w) {
      AfterCrcPayload(s, w);
    } else {
      var rest := w[4 + HdrLen(w)..];
      PlainPassed(s, w, (Encode(rest) + [DELIMITER])[0]);
      RestSkipped(s, DataComplete(s), rest);
    }
  }

  lemma DelimiterLast(data: seq<byte>)
    ensures data + [DELIMITER] != []
  {}

  lemma HeaderPassed(s: H5, w: seq<byte>, tail: seq<byte>) returns (t: H5)
    requires |w| >= 4 && HdrChecksumOk(w) && SeqExpected(s.host, w) && tail != []
    requires Ok(s) && !s.host.exited && s.rx.state == W4Hdr && s.rx.count == 0 && !s.rx.escaped && CrcTracks(s.rx)
    requires s.rx.buf == w[..4]
    ensures Ok(t) && t.host == s.host && t.rx.state == W4Data && t.rx.count == HdrLen(w) && !t.rx.escaped
    ensures CrcTracks(t.rx) && t.rx.buf == w[..4] && Recv(s, tail) == Recv(t, tail)
  {
    Prefix(s.host, w, 4);
    t := s.(rx := s.rx.(state := W4Data, count := HdrLen(w)));
    assert CheckHeader(s) == t;
    RecvPass(s, tail);
    hide Recv, Pass, Crc;
  }

  /** From an accepted header on. */
  lemma AfterGoodHeader(s: H5, w: seq<byte>)
    requires |w| >= 4 && HdrChecksumOk(w) && SeqExpected(s.host, w)
    requires Ok(s) && !s.host.exited && s.rx.state == W4Hdr && s.rx.count == 0 && !s.rx.escaped && CrcTracks(s.rx)
    requires s.rx.buf == w[..4]
    ensures var t := Recv(s, Encode(w[4..]) + [DELIMITER]);
            t.host == AfterWord(s.host, w) && (t.host.exited || AtStart(t))
  {
    var len, rest := HdrLen(w), w[4..];
    hide *;
    WordSizeIs(w);
    DelimiterLast(Encode(rest));
    var s1 := HeaderPassed(s, w, Encode(rest) + [DELIMITER]);
    if |rest| < len {
      ShortWord(s.host, w);
      CutShort(s1, rest);
    } else {
      var t := RecvSome(s1, rest);
      Cuts(w, 4, len);
      AfterPayload(t, w);
    }
  }

  /** From a complete header on. */
  lemma AfterHeader(s: H5, w: seq<byte>)
    requires |w| >= 4 && Ok(s) && !s.host.exited && s.rx.state == W4Hdr && s.rx.count == 0 && !s.rx.escaped
    requires CrcTracks(s.rx) && s.rx.buf == w[..4]
    ensures var t := Recv(s, Encode(w[4..]) + [DELIMITER]);
            t.host == AfterWord(s.host, w) && (t.host.exited || AtStart(t))
  {
    Prefix(s.host, w, 4);
    if HdrChecksumOk(w) && SeqExpected(s.host, w) {
      AfterGoodHeader(s, w);
    } else {
      HeaderRefused(s, (Encode(w[4..]) + [DELIMITER])[0]);
      hide Pass, Recv, Encode, CheckHeader, HdrChecksumOk, SeqExpected, HdrSeq, CrcTracks;
      RestSkipped(s, CheckHeader(s), w[4..]);
    }
  }

  lemma AfterDelimiter(s: H5, w: seq<byte>)
    requires Ok(s) && !s.host.exited && AtStart(s)
    ensures var t := Recv(s, Encode(w) + [DELIMITER]);
            t.host == AfterWord(s.host, w) && (t.host.exited || AtStart(t))
  {
    if |w| >= 4 {
      var t := RecvHeader(s, w[..4]);
      EncodeSplit(w, 4, [DELIMITER]);
      RecvConcat(s, Encode(w[..4]), Encode(w[4..]) + [DELIMITER]);
      hide Pass, Recv, Encode, AfterWord, CrcTracks;
      AfterHeader(t, w);
    } else if w == [] {
      assert Encode(w) + [DELIMITER] == [DELIMITER];
      RecvDelimiterWaiting(s);
    } else {
      EncodeFirst(w);
      Transparent(w);
      RecvPass(s, Encode(w) + [DELIMITER]);
      CutShort(H5(FRESH, s.host), w);
    }
  }

  /** Whatever bytes come between two delimiters: the packet in front of them, as long as its own
      header says, is completed exactly when the header sum holds, its number is expected, it is all
      there, and the check bytes, if the header asks for them, are its own. What follows it is
      skipped, and the next frame is awaited. */
  lemma FrameExactly(s: H5, w: seq<byte>)
    requires Waiting(s)
    ensures var t := Recv(s, Frame(w)); t.host == AfterWord(s.host, w) && (t.host.exited || AtStart(t))
  {
    var s1 := s.(rx := s.rx.(state := W4Start));
    RecvDelimiterWaiting(s);
    FrameOpens(w);
    RecvConcat(s, [DELIMITER], Encode(w) + [DELIMITER]);
    hide Recv, Encode, Frame, AfterWord;
    AfterDelimiter(s1, w);
  }

  // ----- one packet

  /** The packet has its check bytes, where it has any. */
  predicate Intact(packet: seq<byte>, check: seq<byte>)
    requires Sound(packet) && |check| == (if HdrCrc(packet) then 2 else 0)
  {
    HdrCrc(packet) ==> Matches(packet, check)
  }

  /** The connection after a frame whose header is accepted. */
  function AfterFrame(h: Host, packet: seq<byte>, check: seq<byte>): Host
    requires HostOk(h) && Sound(packet) && |check| == (if HdrCrc(packet) then 2 else 0)
  {
    if Intact(packet, check) then Complete(h, packet + check, |packet|) else h
  }

  /** A packet whose header is accepted is completed exactly when its check bytes match; either way
      the decoder then waits for the next frame. */
  lemma FrameReceived(s: H5, packet: seq<byte>, check: seq<byte>)
    requires Waiting(s) && Sound(packet) && SeqExpected(s.host, packet)
    requires |check| == (if HdrCrc(packet) then 2 else 0)
    ensures var t := Recv(s, Frame(packet + check));
            t.host == AfterFrame(s.host, packet, check) && (t.host.exited || AtStart(t))
  {
    ReceivedWord(s.host, packet, check);
    hide Recv, Frame, AfterWord, AfterFrame, Intact;
    FrameExactly(s, packet + check);
  }

  lemma Joined(a: seq<byte>, b: seq<byte>)
    ensures var w := a + b; w[..|a|] == a && w[|a|..] == b && w[|a|..|w|] == b && w[..|w|] == w
  {}

  lemma ReceivedWord(h: Host, packet: seq<byte>, check: seq<byte>)
    requires HostOk(h) && Sound(packet) && SeqExpected(h, packet) && |check| == (if HdrCrc(packet) then 2 else 0)
    ensures AfterWord(h, packet + check) == AfterFrame(h, packet, check)
  {
    var w := packet + check;
    Joined(packet, check);
    Prefix(h, w, |packet|);
    WordSizeIs(w);
    hide Complete, Matches, HdrChecksumOk, HdrLen, HdrCrc, SeqExpected, HdrSeq, HdrReliable, AfterWord, WordSize;
    GoodHeaderWord(h, w);
  }

  /** A frame whose header is damaged or out of order is dropped whole: nothing is completed and
      the decoder waits for the next frame. Its number is adopted only in the download, while tx_index
      equals total_num. */
  lemma FrameRefused(s: H5, packet: seq<byte>)
    requires Waiting(s) && |packet| >= 4 && !(HdrChecksumOk(packet) && SeqExpected(s.host, packet))
    ensures var t := Recv(s, Frame(packet));
            AtStart(t)
            && t.host == if HdrChecksumOk(packet) then OutOfOrder(s.host, HdrSeq(packet)) else s.host
  {
    hide Recv, Frame, HdrChecksumOk, SeqExpected, HdrSeq;
    FrameExactly(s, packet);
  }
}
