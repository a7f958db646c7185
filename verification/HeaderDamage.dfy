/** Damage that switches the comparison of the check bytes off: the receiver takes the flag that asks
    for it from the header that has been damaged. */
module HeaderDamage {
  import opened DataIntegrity
  import opened Damage
  import opened Slip
  import opened Transport
  import opened Reception
  import opened Runs

  // ----- flipped bits of a byte

  lemma {:induction false} LowAndHigh(r: nat, h: nat, k: nat, m: nat)
    requires r < Pow2(k)
    ensures LowBits(r + Pow2(k) * h, k + m) == LowBits(r, k) + LowBits(h, m)
    decreases k
  {
    if k > 0 {
      var p := Pow2(k - 1) * h;
      Doubled(k, h);
      Halved(r, p);
      LowAndHigh(r / 2, h, k - 1, m);
      assert LowBits(r + 2 * p, k + m) == [r % 2 == 1] + LowBits(r / 2 + p, k + m - 1);
    }
  }

  lemma Doubled(k: nat, h: nat)
    requires k > 0
    ensures Pow2(k) * h == 2 * (Pow2(k - 1) * h)
  {}

  lemma Halved(r: nat, p: nat)
    ensures (r + 2 * p) % 2 == r % 2 && (r + 2 * p) / 2 == r / 2 + p
  {}

  lemma HighBits(r: nat, h: nat)
    requires r < 64 && h < 4
    ensures ByteBits(r + 64 * h) == LowBits(r, 6) + [h % 2 == 1, h / 2 == 1]
  {
    assert Pow2(6) == 64;
    LowAndHigh(r, h, 6, 2);
    TwoBits(h);
    hide LowBits, Pow2;
  }

  lemma TwoBits(h: nat)
    requires h < 4
    ensures LowBits(h, 2) == [h % 2 == 1, h / 2 == 1]
  {
    assert LowBits(h, 2)[1..] == LowBits(h / 2, 1);
    assert LowBits(h / 2, 1)[1..] == [];
  }

  lemma {:induction false} FlipsConcat(a: seq<bool>, b: seq<bool>, c: seq<bool>, d: seq<bool>)
    requires |a| == |b| && |c| == |d|
    ensures Flips(a + c, b + d) == Flips(a, b) + Flips(c, d)
  {
    if a == [] {
      assert a + c == c && b + d == d;
    } else {
      assert (a + c)[1..] == a[1..] + c && (b + d)[1..] == b[1..] + d;
      FlipsConcat(a[1..], b[1..], c, d);
    }
  }

  lemma {:induction false} FlipsSelf(a: seq<bool>)
    ensures Flips(a, a) == 0
  {
    if a != [] { FlipsSelf(a[1..]); }
  }

  lemma FlipsTwo(x: bool, y: bool, u: bool, v: bool)
    ensures Flips([x, y], [u, v]) == (if x != u then 1 else 0) + (if y != v then 1 else 0)
  {
    assert Flips([y], [v]) == (if y != v then 1 else 0) + Flips([y][1..], [v][1..]);
    assert Flips([x, y], [u, v]) == (if x != u then 1 else 0) + Flips([x, y][1..], [u, v][1..]);
    assert [x, y][1..] == [y] && [u, v][1..] == [v];
  }

  /** Bytes that agree in their low six bits. */
  lemma FlipsHigh(r: nat, h: nat, g: nat)
    requires r < 64 && h < 4 && g < 4
    ensures Flips(ByteBits(r + 64 * h), ByteBits(r + 64 * g))
         == (if h % 2 != g % 2 then 1 else 0) + (if h / 2 != g / 2 then 1 else 0)
    ensures ByteBits(r + 64 * h)[..6] == ByteBits(r + 64 * g)[..6]
  {
    HighBits(r, h);
    HighBits(r, g);
    hide ByteBits, LowBits, Flips;
    FlipsConcat(LowBits(r, 6), LowBits(r, 6), [h % 2 == 1, h / 2 == 1], [g % 2 == 1, g / 2 == 1]);
    FlipsSelf(LowBits(r, 6));
    FlipsTwo(h % 2 == 1, h / 2 == 1, g % 2 == 1, g / 2 == 1);
  }

  function Plus64(b: byte): byte {
    (b + 64) % 256
  }

  lemma Plus64Bits(b: byte)
    ensures Flips(ByteBits(b), ByteBits(Plus64(b))) == if b / 64 % 2 == 1 then 2 else 1
  {
    hide ByteBits, Flips;
    FlipsHigh(b % 64, b / 64, (b / 64 + 1) % 4);
  }

  lemma ClearedBits(b: byte)
    requires b / 64 % 2 == 1
    ensures Flips(ByteBits(b), ByteBits(b - 64)) == 1 && ByteBits(b)[..6] == ByteBits(b - 64)[..6]
  {
    hide ByteBits, Flips;
    FlipsHigh(b % 64, b / 64, b / 64 - 1);
  }

  // ----- flipped bits of a word

  lemma BitsFirst(w: seq<byte>)
    requires w != []
    ensures Bits(w) == ByteBits(w[0]) + Bits(w[1..])
  {
    hide ByteBits;
    BitsConcat([w[0]], w[1..]);
    assert [w[0]] + w[1..] == w;
    assert [w[0]][..0] == [];
    assert Bits([w[0]]) == ByteBits(w[0]);
  }

  lemma FlipsFirst(a: seq<byte>, b: seq<byte>)
    requires |a| == |b| > 0
    ensures Flips(Bits(a), Bits(b)) == Flips(ByteBits(a[0]), ByteBits(b[0])) + Flips(Bits(a[1..]), Bits(b[1..]))
  {
    BitsFirst(a);
    BitsFirst(b);
    hide ByteBits, Bits, Flips;
    FlipsConcat(ByteBits(a[0]), ByteBits(b[0]), Bits(a[1..]), Bits(b[1..]));
  }

  lemma FlipsFour(a: seq<byte>, b: seq<byte>)
    requires |a| == |b| >= 4 && a[4..] == b[4..]
    ensures Flips(Bits(a), Bits(b))
         == Flips(ByteBits(a[0]), ByteBits(b[0])) + Flips(ByteBits(a[1]), ByteBits(b[1]))
            + Flips(ByteBits(a[2]), ByteBits(b[2])) + Flips(ByteBits(a[3]), ByteBits(b[3]))
  {
    hide ByteBits, Bits, Flips;
    FlipsFirst(a, b);
    FlipsFirst(a[1..], b[1..]);
    FlipsFirst(a[1..][1..], b[1..][1..]);
    FlipsFirst(a[1..][1..][1..], b[1..][1..][1..]);
    assert a[1..][1..][1..][1..] == a[4..] && b[1..][1..][1..][1..] == b[4..];
    FlipsSelf(Bits(a[4..]));
  }

  // ----- the flag cleared, the header sum made up in the checksum

  /** Bit 6 cleared. */
  function ClearFlag(b: byte): byte {
    b / 128 * 128 + b % 64
  }

  function FlagCleared(w: seq<byte>): (r: seq<byte>)
    requires |w| >= 4
    ensures |r| == |w| && r[4..] == w[4..]
  {
    [ClearFlag(w[0]), w[1], w[2], Plus64(w[3])] + w[4..]
  }

  lemma FlagClearedBytes(w: seq<byte>)
    requires |w| >= 4 && HdrCrc(w)
    ensures var r := FlagCleared(w);
            w[0] / 64 % 2 == 1 && r[0] == w[0] - 64 != w[0] && r[1] == w[1] && r[2] == w[2] && r[3] == Plus64(w[3])
  {}

  lemma FlagClearedFlips(w: seq<byte>)
    requires |w| >= 4 && HdrCrc(w)
    ensures Flips(Bits(w), Bits(FlagCleared(w))) == if w[3] / 64 % 2 == 1 then 3 else 2
  {
    hide *;
    var r := FlagCleared(w);
    FlagClearedBytes(w);
    Plus64Bits(w[3]);
    ClearedBits(w[0]);
    FlipsFour(w, r);
    FlipsSelf(ByteBits(w[1]));
    FlipsSelf(ByteBits(w[2]));
  }

  lemma FlagClearedHeader(h: Host, w: seq<byte>)
    requires |w| >= 4 && HdrCrc(w) && HdrChecksumOk(w)
    ensures var r := FlagCleared(w);
            HdrChecksumOk(r) && !HdrCrc(r) && HdrLen(r) == HdrLen(w) && SeqExpected(h, r) == SeqExpected(h, w)
  {
    FlagClearedBytes(w);
    SumMadeUp(w[0], w[1], w[2], w[3]);
    NumberKept(w[0]);
    hide FlagCleared, Plus64;
  }

  lemma SumMadeUp(a: byte, b: byte, c: byte, d: byte)
    requires a >= 64 && 255 - ((a as int) + b + c) % 256 == d
    ensures 255 - (a - 64 + b + c) % 256 == Plus64(d)
  {}

  lemma NumberKept(a: byte)
    requires a / 64 % 2 == 1
    ensures a >= 64 && (a - 64) / 64 % 2 == 0 && (a - 64) % 8 == a % 8 && (a - 64) / 128 == a / 128
  {}

  lemma HeaderOfCodeword(h: Host, sent: seq<byte>)
    requires Sound(sent) && HdrCrc(sent)
    ensures var w := Codeword(sent);
            HdrChecksumOk(w) && HdrCrc(w) && HdrLen(w) == HdrLen(sent) == |sent| - 4
            && SeqExpected(h, w) == SeqExpected(h, sent) && w[..|sent|] == sent && w[4..|sent|] == sent[4..]
  {
    hide CheckBytes, Crc;
    assert Codeword(sent)[..|sent|] == sent;
    Prefix(h, Codeword(sent), |sent|);
  }

  lemma DamagedMeans(sent: seq<byte>, w: seq<byte>)
    requires Sound(sent) && HdrCrc(sent) && |w| == |sent| + 2
    requires OddFlips(Codeword(sent), w) || (w != Codeword(sent) && ShortBurst(Codeword(sent), w))
    ensures Damaged(sent, w)
  {
    hide OddFlips, ShortBurst, Codeword, HdrCrc, Sound;
    assert w[..|sent|] + w[|sent|..] == w;
  }

  /** Every packet with check bytes can be damaged in two or three bits so that it is completed with
      another header: the flag is cleared, and the sum made up in the checksum. Where bit 6 of the checksum
      is set that is an odd number of bits, which the comparison would have noticed. */
  lemma FlagClearedAccepted(s: H5, sent: seq<byte>) returns (w: seq<byte>)
    requires Waiting(s) && Sound(sent) && HdrCrc(sent) && SeqExpected(s.host, sent)
    ensures w == FlagCleared(Codeword(sent))
    ensures Flips(Bits(Codeword(sent)), Bits(w)) == if sent[3] / 64 % 2 == 1 then 3 else 2
    ensures sent[3] / 64 % 2 == 1 ==> Damaged(sent, w)
    ensures w[..|sent|] != sent && Recv(s, Frame(w)).host.log == s.host.log + [w[..|sent|]]
  {
    var c := Codeword(sent);
    HeaderOfCodeword(s.host, sent);
    assert c[3] == c[..|sent|][3] && c[0] == c[..|sent|][0];
    w := FlagCleared(c);
    FlagClearedBytes(c);
    assert w[..|sent|][0] == w[0];
    FlagClearedFlips(c);
    FlagClearedHeader(s.host, c);
    hide HdrCrc, HdrLen, HdrChecksumOk, SeqExpected, FlagCleared, Codeword, Flips, Bits, Sound, Recv, Frame, Damaged;
    if sent[3] / 64 % 2 == 1 { DamagedMeans(sent, w); }
    CompletedExactly(s, w);
  }

  // ----- the flag cleared, the header sum made up in the length

  /** The low digit of the length is 12 or more. */
  predicate TwelveToTake(len: nat): (yes: bool)
    ensures yes ==> len >= 12
  {
    len % 16 >= 12
  }

  function Shortened(w: seq<byte>): (r: seq<byte>)
    requires |w| >= 4
    ensures |r| == |w|
  {
    [ClearFlag(w[0]), Plus64(w[1])] + w[2..]
  }

  lemma ShortenedBytes(w: seq<byte>)
    requires |w| >= 4 && HdrCrc(w)
    ensures var r := Shortened(w);
            w[0] / 64 % 2 == 1 && r[0] == w[0] - 64 && r[1] == Plus64(w[1]) && r[2] == w[2] && r[3] == w[3]
            && r[2..] == w[2..]
  {}

  lemma ShortenedBurst(w: seq<byte>)
    requires |w| >= 4 && HdrCrc(w)
    ensures Within(Bits(w), Bits(Shortened(w)), 6, 10)
  {
    var r := Shortened(w);
    ShortenedBytes(w);
    ClearedBits(w[0]);
    hide Shortened, Within, HdrCrc, ByteBits, Bits;
    var a, b, c, d, rest := ByteBits(w[0]), ByteBits(r[0]), ByteBits(w[1]), ByteBits(r[1]), Bits(w[2..]);
    assert |a| == |b| == |c| == |d| == 8;
    hide *;
    BitsTwo(w);
    BitsTwo(r);
    LateBytes(a, b, c, d, rest);
  }

  lemma BitsTwo(w: seq<byte>)
    requires |w| >= 2
    ensures Bits(w) == ByteBits(w[0]) + (ByteBits(w[1]) + Bits(w[2..]))
  {
    hide *;
    BitsFirst(w);
    BitsFirst(w[1..]);
    assert w[1..][1..] == w[2..];
  }

  lemma BurstIsShort(a: seq<byte>, b: seq<byte>)
    requires |a| == |b| && Within(Bits(a), Bits(b), 6, 10)
    ensures ShortBurst(a, b)
  {
    hide Bits;
    assert Within(Bits(a), Bits(b), 6, 14);
  }

  lemma LateBytes(a: seq<bool>, b: seq<bool>, c: seq<bool>, d: seq<bool>, rest: seq<bool>)
    requires |a| == |b| == |c| == |d| == 8 && a[..6] == b[..6]
    ensures Within(a + (c + rest), b + (d + rest), 6, 10)
  {
    AgreeUpTo(a, b, 6);
  }

  lemma ShortenedHeader(h: Host, w: seq<byte>)
    requires |w| >= 4 && HdrCrc(w) && HdrChecksumOk(w)
    ensures var r := Shortened(w);
            HdrChecksumOk(r) && !HdrCrc(r) && SeqExpected(h, r) == SeqExpected(h, w)
            && HdrLen(r) == if TwelveToTake(HdrLen(w)) then HdrLen(w) - 12 else HdrLen(w) + 4
  {
    ShortenedBytes(w);
    NumberKept(w[0]);
    SumShifted(w[0], w[1], w[2]);
    LengthPlus4(w[1], w[2]);
    hide Shortened, Plus64;
  }

  lemma SumShifted(a: byte, b: byte, c: byte)
    requires a >= 64
    ensures (a - 64 + Plus64(b) + c) % 256 == ((a as int) + b + c) % 256
  {}

  lemma LengthPlus4(low: byte, high: byte)
    ensures var len := low / 16 + (high as int) * 16;
            Plus64(low) / 16 + (high as int) * 16 == if TwelveToTake(len) then len - 12 else len + 4
  {
    DigitPlus4(low);
    assert (low / 16 + (high as int) * 16) % 16 == low / 16;
    hide Plus64;
  }

  lemma DigitPlus4(low: byte)
    ensures low / 16 < 16 && Plus64(low) / 16 == if low / 16 >= 12 then low / 16 - 12 else low / 16 + 4
  {}

  /** The same within a burst of 10 bits: the flag is cleared and the sum made up in the length. The
      comparison would have noticed, yet a packet 12 bytes shorter is completed exactly if there are as many
      to take away in the low digit of the length. */
  lemma ShortenedAccepted(s: H5, sent: seq<byte>) returns (w: seq<byte>)
    requires Waiting(s) && Sound(sent) && HdrCrc(sent) && SeqExpected(s.host, sent)
    ensures w == Shortened(Codeword(sent))
    ensures Within(Bits(Codeword(sent)), Bits(w), 6, 10) && Damaged(sent, w)
    ensures Recv(s, Frame(w)).host.log
         == if TwelveToTake(|sent| - 4) then s.host.log + [w[..|sent| - 12]] else s.host.log
  {
    hide *;
    var c := Codeword(sent);
    HeaderOfCodeword(s.host, sent);
    w := Shortened(c);
    ShortenedBytes(c);
    ShortenedBurst(c);
    BurstIsShort(c, w);
    DamagedMeans(sent, w);
    ShortenedCarries(s.host, sent);
    CompletedExactly(s, w);
  }

  lemma ShortenedCarries(h: Host, sent: seq<byte>)
    requires Sound(sent) && HdrCrc(sent) && SeqExpected(h, sent)
    ensures var w := Shortened(Codeword(sent));
            (CarriesPacket(h, w) <==> TwelveToTake(|sent| - 4))
            && (TwelveToTake(|sent| - 4) ==> 4 + HdrLen(w) == |sent| - 12)
  {
    HeaderOfCodeword(h, sent);
    ShortenedHeader(h, Codeword(sent));
    hide HdrCrc, HdrLen, HdrChecksumOk, SeqExpected, Shortened, Codeword, Sound, TwelveToTake;
  }

  // ----- two packets

  /** An event packet of 4 bytes: an odd number of bits, its length as sent. */
  lemma OddDamageAccepted(s: H5, payload: seq<byte>)
    requires Waiting(s) && |payload| == 4
    ensures var sent: seq<byte> := [0x40, 0x44, 0x00, 0x7b] + payload;
            var w: seq<byte> := [0x00, 0x44, 0x00, 0xbb] + payload + CheckBytes(Crc(sent));
            Damaged(sent, w) && Flips(Bits(Codeword(sent)), Bits(w)) == 3 && HdrLen(w) == HdrLen(sent)
            && Recv(s, Frame(w)).host.log == s.host.log + [[0x00, 0x44, 0x00, 0xbb] + payload]
  {
    hide Recv, Frame, CheckBytes, Crc, Bits, Flips, Damaged;
    var sent: seq<byte> := [0x40, 0x44, 0x00, 0x7b] + payload;
    var w := FlagClearedAccepted(s, sent);
    assert w == [0x00, 0x44, 0x00, 0xbb] + payload + CheckBytes(Crc(sent));
    assert w[..8] == [0x00, 0x44, 0x00, 0xbb] + payload;
  }

  /** An event packet of 12 bytes: three bits within a burst of 10, and an empty event is completed. */
  lemma BurstDamageAccepted(s: H5, payload: seq<byte>)
    requires Waiting(s) && |payload| == 12
    ensures var sent: seq<byte> := [0x40, 0xc4, 0x00, 0xfb] + payload;
            var w: seq<byte> := [0x00, 0x04, 0x00, 0xfb] + payload + CheckBytes(Crc(sent));
            Damaged(sent, w) && Within(Bits(Codeword(sent)), Bits(w), 6, 10)
            && Recv(s, Frame(w)).host.log == s.host.log + [[0x00, 0x04, 0x00, 0xfb]]
  {
    hide Recv, Frame, CheckBytes, Crc, Bits, Damaged;
    var sent: seq<byte> := [0x40, 0xc4, 0x00, 0xfb] + payload;
    assert TwelveToTake(12);
    var w := ShortenedAccepted(s, sent);
    assert w == [0x00, 0x04, 0x00, 0xfb] + payload + CheckBytes(Crc(sent));
    assert w[..4] == [0x00, 0x04, 0x00, 0xfb];
  }
}
