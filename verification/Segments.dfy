/** h5_recv against a simple reading of the line: cut it at the delimiters, undo the escapes of each
    piece, and look at the packet in front. */
module Segments {
  import opened DataIntegrity
  import opened Slip
  import opened Transport
  import opened Reception
  import opened Options

  /** The bytes that a piece stands for, up to an escape that is unknown or cut short. */
  function Decoded(x: seq<byte>): seq<byte> {
    if x == [] then []
    else if x[0] != ESCAPE then [x[0]] + Decoded(x[1..])
    else if |x| == 1 || Unescape(x[1]).None? then []
    else [Unescape(x[1]).value] + Decoded(x[2..])
  }

  /** Where nothing is wrong with the escapes, that is the decoding. */
  lemma {:induction false} DecodedAll(x: seq<byte>)
    requires Decode(x).Some?
    ensures Decoded(x) == Decode(x).value
  {
    if x != [] { DecodedAll(if x[0] != ESCAPE then x[1..] else x[2..]); }
  }

  // ----- one byte, however it is escaped

  /** u stands for the byte c. */
  predicate Unit(u: seq<byte>, c: byte) {
    (|u| == 1 && u[0] == c && c != ESCAPE && c != DELIMITER)
    || (|u| == 2 && u[0] == ESCAPE && u[1] != DELIMITER && Unescape(u[1]) == Some(c))
  }

  lemma SlipUnit(c: byte)
    ensures Unit(SlipByte(c), c)
  {}

  /** Past a packet boundary the next byte is only looked at for being a delimiter. */
  lemma PassBlind(s: H5, b: byte, c: byte)
    requires Ok(s) && s.rx.count == 0 && s.rx.state != W4Delimiter && b != DELIMITER && c != DELIMITER
    ensures Pass(s, b) == Pass(s, c) && !Pass(s, b).1
  {}

  lemma PassKeepsEscape(s: H5, b: byte)
    requires Ok(s) && s.rx.count == 0 && !s.rx.escaped
    ensures !Pass(s, b).0.rx.escaped
  {}

  lemma UnitTaken(s: H5, u: seq<byte>, c: byte)
    requires Ok(s) && !s.host.exited && !s.rx.escaped && s.rx.count > 0 && Unit(u, c)
    ensures Recv(s, u) == s.(rx := Accept(s.rx, c))
  {
    hide Accept;
    RecvOne(s, u[0]);
    if |u| == 2 {
      var t := s.(rx := s.rx.(escaped := true));
      RecvOne(t, u[1]);
      RecvConcat(s, [u[0]], [u[1]]);
      assert u == [u[0]] + [u[1]];
      EscapeClears(s.rx, c);
    } else {
      assert u == [c];
    }
  }

  /** Two ways to write the same byte are received alike. */
  lemma {:induction false} UnitSame(s: H5, u: seq<byte>, v: seq<byte>, c: byte)
    requires Ok(s) && !s.rx.escaped && Unit(u, c) && Unit(v, c)
    ensures Recv(s, u) == Recv(s, v) && !Recv(s, u).rx.escaped
    decreases Rank(s.rx)
  {
    if s.host.exited {
      RecvExited(s, u);
      RecvExited(s, v);
    } else if s.rx.count > 0 {
      UnitTaken(s, u, c);
      UnitTaken(s, v, c);
      AcceptCounts(s.rx, c);
    } else if s.rx.state == W4Delimiter {
      RecvWhileHunting(s, u);
      RecvWhileHunting(s, v);
    } else {
      PassBlind(s, u[0], v[0]);
      PassProgress(s, u[0]);
      PassKeepsEscape(s, u[0]);
      RecvPass(s, u);
      RecvPass(s, v);
      hide Pass, Recv, Rank;
      UnitSame(Pass(s, u[0]).0, u, v, c);
    }
  }

  // ----- an escape that stands for nothing

  predicate Unknown(r: seq<byte>) {
    DELIMITER !in r && (r == [] || Unescape(r[0]).None?)
  }

  lemma HuntToDelimiter(s: H5, data: seq<byte>)
    requires Ok(s) && !s.host.exited && s.rx.state == W4Delimiter && DELIMITER !in data
    ensures Recv(s, data + [DELIMITER]).host == s.host
  {
    RecvWhileHunting(s, data);
    RecvConcat(s, data, [DELIMITER]);
    RecvDelimiterWaiting(s);
  }

  lemma DeadEndCounting(s: H5, r: seq<byte>)
    requires Ok(s) && !s.host.exited && !s.rx.escaped && s.rx.count > 0 && Unknown(r)
    ensures Recv(s, [ESCAPE] + (r + [DELIMITER])).host == s.host
    ensures Recv(s, [DELIMITER]).host == s.host
  {
    var t := s.(rx := s.rx.(escaped := true));
    RecvOne(s, ESCAPE);
    RecvOne(s, DELIMITER);
    RecvConcat(s, [ESCAPE], r + [DELIMITER]);
    if r == [] {
      assert r + [DELIMITER] == [DELIMITER];
      RecvOne(t, DELIMITER);
    } else {
      var u := t.(rx := Dropped(t.rx, W4Delimiter));
      RecvOne(t, r[0]);
      assert r + [DELIMITER] == [r[0]] + (r[1..] + [DELIMITER]);
      RecvConcat(t, [r[0]], r[1..] + [DELIMITER]);
      HuntToDelimiter(u, r[1..]);
    }
  }

  lemma DelimiterAtStart(s: H5)
    requires Ok(s) && !s.host.exited && AtStart(s)
    ensures Recv(s, [DELIMITER]).host == s.host
  {
    RecvOne(s, DELIMITER);
  }

  /** An unknown escape ends a piece like the delimiter itself. */
  lemma {:induction false} DeadEnd(s: H5, r: seq<byte>)
    requires Ok(s) && !s.rx.escaped && Unknown(r)
    ensures Recv(s, [ESCAPE] + (r + [DELIMITER])).host == Recv(s, [DELIMITER]).host
    decreases Rank(s.rx)
  {
    var data := [ESCAPE] + (r + [DELIMITER]);
    if s.host.exited {
      RecvExited(s, data);
      RecvExited(s, [DELIMITER]);
    } else if s.rx.count > 0 {
      DeadEndCounting(s, r);
    } else if s.rx.state == W4Delimiter {
      assert data == ([ESCAPE] + r) + [DELIMITER];
      HuntToDelimiter(s, [ESCAPE] + r);
      RecvDelimiterWaiting(s);
    } else {
      PassProgress(s, ESCAPE);
      PassKeepsEscape(s, ESCAPE);
      PassBlind(s, ESCAPE, ESCAPE);
      RecvPass(s, data);
      var t := Pass(s, ESCAPE).0;
      DeadEndPass(s);
      hide Pass, Recv, Rank;
      DeadEnd(t, r);
    }
  }

  /** The pass before the escape is the pass before the delimiter, or opens a packet that is cut short. */
  lemma DeadEndPass(s: H5)
    requires Ok(s) && !s.host.exited && s.rx.count == 0 && s.rx.state != W4Delimiter
    ensures Recv(Pass(s, ESCAPE).0, [DELIMITER]).host == Recv(s, [DELIMITER]).host
  {
    if s.rx.state == W4Start {
      DelimiterAtStart(s);
      RecvOne(H5(FRESH, s.host), DELIMITER);
    } else {
      PassEnding(s);
      RecvPass(s, [DELIMITER]);
    }
  }

  lemma PassEnding(s: H5)
    requires Ok(s) && s.rx.count == 0 && s.rx.state in {W4Hdr, W4Data, W4Crc}
    ensures Pass(s, ESCAPE) == Pass(s, DELIMITER) && !Pass(s, DELIMITER).1
  {}

  // ----- a piece

  lemma FirstUnit(x: seq<byte>)
    requires Decoded(x) != [] && DELIMITER !in x
    ensures var k := if x[0] != ESCAPE then 1 else 2;
            |x| >= k && Unit(x[..k], Decoded(x)[0]) && Decoded(x[k..]) == Decoded(x)[1..] && DELIMITER !in x[k..]
  {}

  /** A piece is received like the encoding of what it stands for. */
  lemma {:induction false} PieceAsEncoded(s: H5, x: seq<byte>)
    requires Ok(s) && !s.rx.escaped && DELIMITER !in x
    ensures Recv(s, x + [DELIMITER]).host == Recv(s, Encode(Decoded(x)) + [DELIMITER]).host
    decreases |x|
  {
    var w := Decoded(x);
    if w == [] {
      assert Encode(w) + [DELIMITER] == [DELIMITER];
      if x == [] {
        assert x + [DELIMITER] == [DELIMITER];
      } else {
        assert x == [ESCAPE] + x[1..] && x + [DELIMITER] == [ESCAPE] + (x[1..] + [DELIMITER]);
        DeadEnd(s, x[1..]);
      }
    } else {
      FirstUnit(x);
      PieceStep(s, x, if x[0] != ESCAPE then 1 else 2);
    }
  }

  lemma {:induction false} PieceStep(s: H5, x: seq<byte>, k: nat)
    requires Ok(s) && !s.rx.escaped && DELIMITER !in x && Decoded(x) != [] && 0 < k <= |x|
    requires Unit(x[..k], Decoded(x)[0]) && Decoded(x[k..]) == Decoded(x)[1..] && DELIMITER !in x[k..]
    ensures Recv(s, x + [DELIMITER]).host == Recv(s, Encode(Decoded(x)) + [DELIMITER]).host
    decreases |x|, 0
  {
    var w := Decoded(x);
    hide Recv, Encode, Decoded, Unit, SlipByte;
    EncodeFirst(w);
    SlipUnit(w[0]);
    UnitSame(s, x[..k], SlipByte(w[0]), w[0]);
    var t := Recv(s, x[..k]);
    assert x + [DELIMITER] == x[..k] + (x[k..] + [DELIMITER]);
    RecvConcat(s, x[..k], x[k..] + [DELIMITER]);
    Assoc(SlipByte(w[0]), Encode(w[1..]), [DELIMITER]);
    RecvConcat(s, SlipByte(w[0]), Encode(w[1..]) + [DELIMITER]);
    PieceAsEncoded(t, x[k..]);
  }

  /** Any piece between delimiters, whatever its escapes. */
  lemma PieceReceived(s: H5, x: seq<byte>)
    requires Ok(s) && !s.host.exited && AtStart(s) && DELIMITER !in x
    ensures var t := Recv(s, x + [DELIMITER]);
            t.host == AfterWord(s.host, Decoded(x)) && (t.host.exited || AtStart(t))
  {
    Resynchronised(s, x);
    var s0 := s.(rx := s.rx.(escaped := false));
    EscapeForgotten(s, x);
    PieceAsEncoded(s0, x);
    hide Recv, Encode, AfterWord;
    AfterDelimiter(s0, Decoded(x));
  }

  /** At the start of a packet it does not matter whether the last one ended in an escape. */
  lemma EscapeForgotten(s: H5, x: seq<byte>)
    requires Ok(s) && !s.host.exited && AtStart(s) && DELIMITER !in x
    ensures Recv(s, x + [DELIMITER]).host == Recv(s.(rx := s.rx.(escaped := false)), x + [DELIMITER]).host
  {
    var s0 := s.(rx := s.rx.(escaped := false));
    if x == [] {
      assert x + [DELIMITER] == [DELIMITER];
      DelimiterAtStart(s);
      DelimiterAtStart(s0);
    } else {
      RecvPass(s, x + [DELIMITER]);
      RecvPass(s0, x + [DELIMITER]);
    }
  }

  // ----- a whole stream

  /** The pieces between the delimiters of the data, the last one after the last delimiter. */
  function Pieces(data: seq<byte>): (pieces: seq<seq<byte>>)
    ensures |pieces| >= 1
  {
    if data == [] then [[]]
    else
      var rest := Pieces(data[1..]);
      if data[0] == DELIMITER then [[]] + rest else [[data[0]] + rest[0]] + rest[1..]
  }

  /** The connection after the pieces, one by one, until the process ends. */
  function AfterPieces(h: Host, pieces: seq<seq<byte>>): Host
    requires HostOk(h)
    decreases pieces
  {
    if pieces == [] || h.exited then h
    else
      HostKept(h, Decoded(pieces[0]));
      AfterPieces(AfterWord(h, Decoded(pieces[0])), pieces[1..])
  }

  lemma HostKept(h: Host, w: seq<byte>)
    requires HostOk(h)
    ensures HostOk(AfterWord(h, w))
  {}

  /** The pieces with their delimiters. */
  function Together(pieces: seq<seq<byte>>): seq<byte> {
    if pieces == [] then [] else pieces[0] + [DELIMITER] + Together(pieces[1..])
  }

  lemma {:induction false} PiecesTogether(data: seq<byte>)
    ensures Together(Pieces(data)) == data + [DELIMITER]
    ensures forall x :: x in Pieces(data) ==> DELIMITER !in x
  {
    if data == [] {
      assert Pieces(data)[1..] == [];
    } else {
      PiecesTogether(data[1..]);
      var rest := Pieces(data[1..]);
      if data[0] == DELIMITER {
        assert Pieces(data)[1..] == rest;
      } else {
        assert Pieces(data)[1..] == rest[1..];
        assert Together(Pieces(data)) == [data[0]] + Together(rest);
      }
      assert data + [DELIMITER] == [data[0]] + (data[1..] + [DELIMITER]);
    }
  }

  lemma {:induction false} PiecesReceived(s: H5, pieces: seq<seq<byte>>)
    requires Ok(s) && (s.host.exited || AtStart(s)) && forall x :: x in pieces ==> DELIMITER !in x
    ensures var t := Recv(s, Together(pieces));
            t.host == AfterPieces(s.host, pieces) && (t.host.exited || AtStart(t))
    decreases pieces
  {
    if s.host.exited {
      RecvExited(s, Together(pieces));
    } else if pieces != [] {
      var x := pieces[0];
      PieceReceived(s, x);
      HostKept(s.host, Decoded(x));
      hide Recv, AfterWord, Decoded;
      RecvConcat(s, x + [DELIMITER], Together(pieces[1..]));
      PiecesReceived(Recv(s, x + [DELIMITER]), pieces[1..]);
    }
  }

  /** Whatever bytes arrive, up to a delimiter: from the start of a packet, h5_recv does what the pieces
      between the delimiters do one by one, each by the packet in front of what it stands for. */
  lemma StreamExactly(s: H5, data: seq<byte>)
    requires Ok(s) && !s.host.exited && AtStart(s)
    ensures var t := Recv(s, data + [DELIMITER]);
            t.host == AfterPieces(s.host, Pieces(data)) && (t.host.exited || AtStart(t))
  {
    PiecesTogether(data);
    hide Recv, AfterPieces, Together, Pieces;
    PiecesReceived(s, Pieces(data));
  }

  /** A receiver that hunts for a delimiter, as it does at first, skips the first piece. */
  lemma HuntingExactly(s: H5, data: seq<byte>)
    requires Ok(s) && !s.host.exited && s.rx.state == W4Delimiter
    ensures var t := Recv(s, data + [DELIMITER]);
            t.host == AfterPieces(s.host, Pieces(data)[1..]) && (t.host.exited || AtStart(t))
  {
    var pieces := Pieces(data);
    PiecesTogether(data);
    var t := s.(rx := s.rx.(state := W4Start));
    RecvWhileHunting(s, pieces[0]);
    RecvConcat(s, pieces[0], [DELIMITER]);
    RecvDelimiterWaiting(s);
    hide Recv, AfterPieces, Pieces;
    RecvConcat(s, pieces[0] + [DELIMITER], Together(pieces[1..]));
    PiecesReceived(t, pieces[1..]);
  }
}
