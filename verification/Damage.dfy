/** Damage to a packet and its check bytes together: what the comparison of the receiver is bound
    to notice, and what it cannot. */
module Damage {
  import opened DataIntegrity

  /** A packet followed by the check bytes that are sent with it. */
  function Codeword(packet: seq<byte>): (word: seq<byte>)
    ensures |word| == |packet| + 2
  {
    packet + CheckBytes(Crc(packet))
  }

  predicate Matches(packet: seq<byte>, check: seq<byte>)
    requires |check| == 2
  {
    CrcMatches(Crc(packet), check[0], check[1])
  }

  /** The comparison accepts exactly the check bytes of the packet received. */
  lemma MatchesExactly(packet: seq<byte>, check: seq<byte>)
    requires |check| == 2
    ensures Matches(packet, check) <==> packet + check == Codeword(packet)
  {
    var own := Crc(packet);
    CheckBytesDecide(own, own);
    var rev := BitRev16(own);
    ByteValue(check[0]);
    ByteValue(check[1]);
    hide Crc, LowBits, Value, BitRev16;
    if Matches(packet, check) {
      assert rev[8..] == ByteBits(check[0]) && rev[..8] == ByteBits(check[1]);
      assert check == CheckBytes(own);
    }
    if packet + check == packet + CheckBytes(own) {
      assert check == (packet + check)[|packet|..] == CheckBytes(own);
    }
  }

  // ----- bits on the line

  /** The check bits on the line: each byte of the register in the opposite order. */
  function LineBits(crc: Word): Word {
    BitRev8(crc[..8]) + BitRev8(crc[8..])
  }

  lemma CheckBits(crc: Word)
    ensures Bits(CheckBytes(crc)) == LineBits(crc)
  {
    var rev, check := BitRev16(crc), CheckBytes(crc);
    assert rev[8..] == BitRev8(crc[..8]) && rev[..8] == BitRev8(crc[8..]);
    LowBitsOfValue(rev[8..]);
    LowBitsOfValue(rev[..8]);
    hide LowBits, Value;
    assert check[..1] == [check[0]] && check[..1][..0] == [];
    assert Bits(check[..1]) == ByteBits(check[0]);
  }

  lemma {:induction false} BitsConcat(a: seq<byte>, b: seq<byte>)
    ensures Bits(a + b) == Bits(a) + Bits(b)
  {
    hide ByteBits;
    if b == [] {
      assert a + b == a;
    } else {
      var n := |b| - 1;
      assert (a + b)[..|a + b| - 1] == a + b[..n] && (a + b)[|a + b| - 1] == b[n];
      BitsConcat(a, b[..n]);
    }
  }

  lemma CodewordBits(packet: seq<byte>)
    ensures Bits(Codeword(packet)) == Bits(packet) + LineBits(Crc(packet))
  {
    CheckBits(Crc(packet));
    hide Crc, CheckBytes, LineBits, Bits;
    BitsConcat(packet, CheckBytes(Crc(packet)));
  }

  lemma {:induction false} BitsInjective(a: seq<byte>, b: seq<byte>)
    requires |a| == |b| && Bits(a) == Bits(b)
    ensures a == b
  {
    if a != [] {
      var n := |a| - 1;
      assert Bits(a)[..8 * n] == Bits(a[..n]) && Bits(b)[..8 * n] == Bits(b[..n]);
      assert Bits(a)[8 * n..] == ByteBits(a[n]) && Bits(b)[8 * n..] == ByteBits(b[n]);
      ByteValue(a[n]);
      ByteValue(b[n]);
      BitsInjective(a[..n], b[..n]);
      assert a == a[..n] + [a[n]] && b == b[..n] + [b[n]];
    }
  }

  // ----- odd numbers of flipped bits

  lemma OddEight(bits: seq<bool>)
    requires |bits| == 8
    ensures Odd(BitRev8(bits)) == Odd(bits)
  {
    OddOfEight(bits);
    OddOfEight(BitRev8(bits));
  }

  lemma OddOfEight(b: seq<bool>)
    requires |b| == 8
    ensures Odd(b) == (b[0] != (b[1] != (b[2] != (b[3] != (b[4] != (b[5] != (b[6] != b[7])))))))
  {
    var t := b[1..];
    assert Odd(t[1..]) == (b[2] != (b[3] != Odd(t[1..][1..][1..])));
    var u := t[1..][1..][1..];
    assert Odd(u) == (b[4] != (b[5] != Odd(u[1..][1..])));
    assert Odd(u[1..][1..]) == (b[6] != (b[7] != Odd(u[1..][1..][1..][1..])));
  }

  lemma OddLine(crc: Word)
    ensures Odd(LineBits(crc)) == Odd(crc)
  {
    hide BitRev8;
    OddConcat(BitRev8(crc[..8]), BitRev8(crc[8..]));
    OddEight(crc[..8]);
    OddEight(crc[8..]);
    OddConcat(crc[..8], crc[8..]);
    assert crc == crc[..8] + crc[8..];
  }

  lemma OddInit()
    ensures !Odd(CRC_INIT)
  {
    OddConcat(CRC_INIT[..8], CRC_INIT[8..]);
    OddOfEight(CRC_INIT[..8]);
    OddOfEight(CRC_INIT[8..]);
    assert CRC_INIT == CRC_INIT[..8] + CRC_INIT[8..];
  }

  /** Every packet and its check bytes have an even number of set bits. */
  lemma CodewordEven(packet: seq<byte>)
    ensures !Odd(Bits(Codeword(packet)))
  {
    TableIsBitwise(packet);
    BitCrcParity(CRC_INIT, Bits(packet));
    OddInit();
    OddLine(Crc(packet));
    CodewordBits(packet);
    hide Crc, Bits, BitCrc, LineBits, Odd;
    OddConcat(Bits(packet), LineBits(Crc(packet)));
  }

  /** An odd number of flipped bits, anywhere in packet and check bytes, is noticed. */
  lemma OddFlipsNoticed(sent: seq<byte>, packet: seq<byte>, check: seq<byte>)
    requires |packet| == |sent| && |check| == 2
    requires Flips(Bits(Codeword(sent)), Bits(packet + check)) % 2 == 1
    ensures !Matches(packet, check)
  {
    MatchesExactly(packet, check);
    CodewordEven(sent);
    CodewordEven(packet);
    hide Codeword, Bits, Matches;
    FlipsParity(Bits(Codeword(sent)), Bits(packet + check));
  }

  // ----- bursts across the boundary

  /** a and b agree outside the width bits from p on. */
  ghost predicate Within(a: seq<bool>, b: seq<bool>, p: nat, width: nat)
    requires |a| == |b|
  {
    forall i :: 0 <= i < |a| && !(p <= i < p + width) ==> a[i] == b[i]
  }

  /** Four zero bits, at once. */
  function NibbleStep(x: Word): Word {
    seq(16, i requires 0 <= i < 16 =>
      (i < 12 && x[i + 4]) != (if i < 4 then x[i] else if 7 <= i < 11 then x[i - 7] else i >= 12 && x[i - 12]))
  }

  lemma NibbleSteps(x: Word)
    ensures Zeros(x, 4) == NibbleStep(x)
  {
    var n: Nibble := x[..4];
    var zeros: Nibble := [false, false, false, false];
    FeedAsWord(x, zeros);
    assert Xor(x, Pad(zeros)) == x;
    TableStepIsFourBits(x, zeros);
    assert LowNibble(x, zeros) == n;
    TableEntry(n);
    hide LowBits, CrcTable, NibbleValue;
    assert Xor(ShiftRight(x, 4), Spread(n, 4)) == NibbleStep(x);
  }

  lemma {:induction false} ZerosSum(x: Word, m: nat, n: nat)
    ensures Zeros(x, m + n) == Zeros(Zeros(x, m), n)
    decreases m
  {
    hide BitStep;
    if m > 0 { ZerosSum(BitStep(x, false), m - 1, n); }
  }

  lemma SixteenZeros(x: Word)
    ensures Zeros(x, 16) == NibbleStep(NibbleStep(NibbleStep(NibbleStep(x))))
  {
    ZerosSum(x, 4, 12);
    ZerosSum(Zeros(x, 4), 4, 8);
    ZerosSum(Zeros(Zeros(x, 4), 4), 4, 4);
    hide NibbleStep, Zeros;
    NibbleSteps(x);
    NibbleSteps(NibbleStep(x));
    NibbleSteps(NibbleStep(NibbleStep(x)));
    NibbleSteps(NibbleStep(NibbleStep(NibbleStep(x))));
  }

  /** What four zero bits make of each bit. */
  predicate Stepped(x: Word, y: Word) {
    y[0] == (x[4] != x[0]) && y[1] == (x[5] != x[1]) && y[2] == (x[6] != x[2]) && y[3] == (x[7] != x[3])
    && y[4] == x[8] && y[5] == x[9] && y[6] == x[10]
    && y[7] == (x[11] != x[0]) && y[8] == (x[12] != x[1]) && y[9] == (x[13] != x[2]) && y[10] == (x[14] != x[3])
    && y[11] == x[15] && y[12] == x[0] && y[13] == x[1] && y[14] == x[2] && y[15] == x[3]
  }

  lemma NibbleStepped(x: Word)
    ensures Stepped(x, NibbleStep(x))
  {}

  lemma Straddle(x: Word, y: Word, z: Word, w: Word, r: Word, a: nat)
    requires Stepped(x, y) && Stepped(y, z) && Stepped(z, w) && Stepped(w, r)
    requires 3 <= a < 16 && (forall i :: 0 <= i < a ==> !x[i])
    requires forall c :: a - 2 <= c < 16 ==> !LineBits(r)[c]
    ensures forall i :: 0 <= i < 16 ==> !x[i]
  {
    var line := LineBits(r);
    assert line[15] == r[8] && line[14] == r[9] && line[13] == r[10] && line[12] == r[11];
    assert line[11] == r[12] && line[10] == r[13] && line[9] == r[14] && line[8] == r[15];
    assert line[7] == r[0] && line[6] == r[1] && line[5] == r[2] && line[4] == r[3];
    assert line[3] == r[4] && line[2] == r[5] && line[1] == r[6] && line[0] == r[7];
    hide LineBits;
    match a
    case 3 => case 4 => case 5 => case 6 => case 7 => case 8 => case 9 =>
    case 10 => case 11 => case 12 => case 13 => case 14 => case 15 =>
  }

  lemma LineAt(crc: Word, c: nat)
    requires c < 16
    ensures LineBits(crc)[c] == crc[if c < 8 then 7 - c else 23 - c]
  {}

  lemma LineXor(x: Word, y: Word)
    ensures forall c :: 0 <= c < 16 ==> LineBits(Xor(x, y))[c] == (LineBits(x)[c] != LineBits(y)[c])
  {
    hide LineBits;
    forall c | 0 <= c < 16 ensures LineBits(Xor(x, y))[c] == (LineBits(x)[c] != LineBits(y)[c]) {
      LineAt(x, c);
      LineAt(y, c);
      LineAt(Xor(x, y), c);
    }
  }

  lemma AgreeFrom(x: seq<bool>, y: seq<bool>, k: nat)
    requires |x| == |y| && k <= |x| && x[k..] == y[k..]
    ensures forall c :: k <= c < |x| ==> x[c] == y[c]
  {
    forall c | k <= c < |x| ensures x[c] == y[c] { assert x[c] == x[k..][c - k] && y[c] == y[k..][c - k]; }
  }

  lemma AgreeUpTo(x: seq<bool>, y: seq<bool>, k: nat)
    requires |x| == |y| && k <= |x| && x[..k] == y[..k]
    ensures forall c :: 0 <= c < k ==> x[c] == y[c]
  {
    forall c | 0 <= c < k ensures x[c] == y[c] { assert x[c] == x[..k][c] && y[c] == y[..k][c]; }
  }

  lemma LineInjective(x: Word, y: Word)
    requires LineBits(x) == LineBits(y)
    ensures x == y
  {
    forall i | 0 <= i < 16 ensures x[i] == y[i] {
      var c := if i < 8 then 7 - i else 23 - i;
      LineAt(x, c);
      LineAt(y, c);
    }
  }

  /** Two messages alike but for their last 16 bits: how their registers differ. */
  lemma LastWord(a: seq<bool>, u: Word, v: Word)
    ensures Xor(BitCrc(CRC_INIT, a + u), BitCrc(CRC_INIT, a + v)) == Zeros(Xor(u, v), 16)
  {
    var mid := BitCrc(CRC_INIT, a);
    BitCrcConcat(CRC_INIT, a, u);
    BitCrcConcat(CRC_INIT, a, v);
    FeedAsWord(mid, u);
    FeedAsWord(mid, v);
    assert Pad(u) == u && Pad(v) == v;
    ZerosLinear(Xor(mid, u), Xor(mid, v), 16);
    assert Xor(Xor(mid, u), Xor(mid, v)) == Xor(u, v);
  }

  /** Registers whose check bits agree from 14 bits after the start of a window on, for messages that
      agree up to its start. */
  lemma StraddleNone(u: Word, v: Word, crc: Word, crc': Word, a: nat)
    requires Xor(crc, crc') == Zeros(Xor(u, v), 16) && 3 <= a < 16 && u[..a] == v[..a]
    requires LineBits(crc)[a - 2..] == LineBits(crc')[a - 2..]
    ensures u == v
  {
    var x := Xor(u, v);
    SixteenZeros(x);
    LineXor(crc, crc');
    hide LineBits, Zeros, NibbleStep;
    var y := NibbleStep(x);
    var z := NibbleStep(y);
    var w := NibbleStep(z);
    NibbleStepped(x);
    NibbleStepped(y);
    NibbleStepped(z);
    NibbleStepped(w);
    AgreeUpTo(u, v, a);
    AgreeFrom(LineBits(crc), LineBits(crc'), a - 2);
    hide Stepped;
    Straddle(x, y, z, w, NibbleStep(w), a);
    assert forall i :: 0 <= i < 16 ==> !x[i];
  }

  /** Bit strings that agree outside a window, cut at n. */
  lemma CutWithin(s: seq<bool>, l: seq<bool>, r: seq<bool>, k: seq<bool>, p: nat, width: nat)
    requires |s| == |r| && |l| == |k| && Within(s + l, r + k, p, width)
    ensures p + width <= |s| ==> l == k
    ensures p >= |s| ==> s == r
    ensures Within(s, r, p, width)
    ensures p < |s| < p + width <= |s| + |l| ==> l[p + width - |s|..] == k[p + width - |s|..]
    ensures p < |s| ==> s[..p] == r[..p]
  {
    var n := |s|;
    assert forall i :: 0 <= i < n ==> (s + l)[i] == s[i] && (r + k)[i] == r[i];
    assert forall i :: 0 <= i < |l| ==> (s + l)[n + i] == l[i] && (r + k)[n + i] == k[i];
  }

  lemma BurstBits(s: seq<bool>, r: seq<bool>, p: nat)
    requires |s| == |r| >= 16 && s != r
    ensures var l, k := LineBits(BitCrc(CRC_INIT, s)), LineBits(BitCrc(CRC_INIT, r)); !Within(s + l, r + k, p, 14)
  {
    hide BitCrc, LineBits;
    var x, y := BitCrc(CRC_INIT, s), BitCrc(CRC_INIT, r);
    if Within(s + LineBits(x), r + LineBits(y), p, 14) {
      CutWithin(s, LineBits(x), r, LineBits(y), p, 14);
      if p + 14 <= |s| {
        LineInjective(x, y);
        assert AgreeOutside(s, r, p);
        BurstChangesBitCrc(CRC_INIT, s, r, p);
      } else if p < |s| {
        BurstAcross(s, r, p);
      }
    }
  }

  lemma BurstAcross(s: seq<bool>, r: seq<bool>, p: nat)
    requires 16 <= |s| == |r| && p < |s| < p + 14 && s[..p] == r[..p]
    requires LineBits(BitCrc(CRC_INIT, s))[p + 14 - |s|..] == LineBits(BitCrc(CRC_INIT, r))[p + 14 - |s|..]
    ensures s == r
  {
    hide *;
    var m := |s| - 16;
    var u: Word, v: Word := s[m..], r[m..];
    assert s == s[..m] + u && r == r[..m] + v && s[..m] == s[..p][..m] && r[..m] == r[..p][..m];
    assert u[..p - m] == s[..p][m..] && v[..p - m] == r[..p][m..];
    LastWord(s[..m], u, v);
    StraddleNone(u, v, BitCrc(CRC_INIT, s), BitCrc(CRC_INIT, r), p - m);
  }

  /** A burst of at most 14 bits is noticed wherever it lies, across the start of the check bytes
      too. */
  lemma BurstNoticed(sent: seq<byte>, packet: seq<byte>, check: seq<byte>, p: nat)
    requires |packet| == |sent| >= 2 && |check| == 2 && packet + check != Codeword(sent)
    requires Within(Bits(Codeword(sent)), Bits(packet + check), p, 14)
    ensures !Matches(packet, check)
  {
    MatchesExactly(packet, check);
    if Matches(packet, check) {
      CodewordBits(sent);
      CodewordBits(packet);
      TableIsBitwise(sent);
      TableIsBitwise(packet);
      if Bits(sent) == Bits(packet) { BitsInjective(sent, packet); }
      hide Bits, Crc, LineBits, Codeword, BitCrc;
      BurstBits(Bits(sent), Bits(packet), p);
    }
  }

  /** A burst of at most 16 bits within the packet is noticed if the check bytes arrive as sent. */
  lemma PacketBurstNoticed(sent: seq<byte>, packet: seq<byte>)
    requires BurstApart(sent, packet)
    ensures !Matches(packet, CheckBytes(Crc(sent)))
  {
    BurstDetected(sent, packet);
    CheckBytesDecide(Crc(packet), Crc(sent));
  }

  /** Any damage to the check bytes alone is noticed. */
  lemma CheckDamageNoticed(sent: seq<byte>, check: seq<byte>)
    requires |check| == 2 && check != CheckBytes(Crc(sent))
    ensures !Matches(sent, check)
  {
    MatchesExactly(sent, check);
    assert check == (sent + check)[|sent|..] && CheckBytes(Crc(sent)) == Codeword(sent)[|sent|..];
  }

  // ----- a burst that is not noticed

  /** The byte with its last bit on the line flipped. */
  function FlipLast(b: byte): byte {
    ByteOf(ByteBits(b)[7 := !ByteBits(b)[7]])
  }

  /** The packet with its last bit flipped. */
  function Flipped(packet: seq<byte>): (r: seq<byte>)
    requires packet != []
    ensures |r| == |packet|
  {
    packet[..|packet| - 1] + [FlipLast(packet[|packet| - 1])]
  }

  lemma FlippedBits(packet: seq<byte>)
    requires packet != []
    ensures var s := Bits(packet); Bits(Flipped(packet)) == s[|s| - 1 := !s[|s| - 1]]
  {
    var n := |packet| - 1;
    var bits := ByteBits(packet[n]);
    LowBitsOfValue(bits[7 := !bits[7]]);
    hide LowBits, Value;
    assert Flipped(packet)[..n] == packet[..n];
    assert Bits(Flipped(packet)) == Bits(packet[..n]) + bits[7 := !bits[7]];
  }

  /** Feeding the other bit last changes the register at the taps. */
  lemma LastBit(a: seq<bool>, bit: bool)
    ensures var x, y := BitCrc(CRC_INIT, a + [bit]), BitCrc(CRC_INIT, a + [!bit]);
            forall i :: 0 <= i < 16 ==> x[i] == (y[i] != Tap(i))
  {
    BitCrcConcat(CRC_INIT, a, [bit]);
    BitCrcConcat(CRC_INIT, a, [!bit]);
    assert [bit][1..] == [] && [!bit][1..] == [];
  }

  /** Whatever the packet, there is a burst of 15 bits, from the last bit of the packet on, that is
      not noticed: bit_rev16 sends the bits of each byte of the register in the opposite order, so
      that the two sides of the boundary can cancel. */
  lemma StraddlingBurstMatches(sent: seq<byte>) returns (check: seq<byte>)
    requires sent != []
    ensures |check| == 2 && Flipped(sent) != sent && Matches(Flipped(sent), check)
    ensures Within(Bits(Codeword(sent)), Bits(Flipped(sent) + check), 8 * |sent| - 1, 15)
  {
    hide *;
    check := CheckBytes(Crc(Flipped(sent)));
    CheckBytesDecide(Crc(Flipped(sent)), Crc(Flipped(sent)));
    FlippedCodeword(sent);
    MatchesMeans(Flipped(sent), check);
  }

  lemma MatchesMeans(packet: seq<byte>, check: seq<byte>)
    requires |check| == 2
    ensures Matches(packet, check) <==> CrcMatches(Crc(packet), check[0], check[1])
    ensures check == CheckBytes(Crc(packet)) ==> packet + check == Codeword(packet)
  {}

  lemma FlippedCodeword(sent: seq<byte>)
    requires sent != []
    ensures Flipped(sent) != sent
    ensures Within(Bits(Codeword(sent)), Bits(Codeword(Flipped(sent))), 8 * |sent| - 1, 15)
  {
    hide *;
    CodewordBits(sent);
    CodewordBits(Flipped(sent));
    TableIsBitwise(sent);
    TableIsBitwise(Flipped(sent));
    FlippedBits(sent);
    FlippedLine(Bits(sent));
  }

  lemma FlippedLine(s: seq<bool>)
    requires s != []
    ensures var r := s[|s| - 1 := !s[|s| - 1]];
            r != s && Within(s + LineBits(BitCrc(CRC_INIT, s)), r + LineBits(BitCrc(CRC_INIT, r)), |s| - 1, 15)
  {
    hide BitCrc, LineBits;
    var n := |s| - 1;
    var r := s[n := !s[n]];
    assert s == s[..n] + [s[n]] && r == s[..n] + [!s[n]] && r[n] != s[n];
    LastBit(s[..n], s[n]);
    var x, y := BitCrc(CRC_INIT, s), BitCrc(CRC_INIT, r);
    LineAt(x, 14);
    LineAt(y, 14);
    LineAt(x, 15);
    LineAt(y, 15);
  }
}
