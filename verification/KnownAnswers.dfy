/** Known values of the check sequence. */
module KnownAnswers {
  import opened DataIntegrity
  import opened Damage

  /** Bit by bit, what one table step makes of a register. */
  predicate StepsTo(x: Word, n: Nibble, y: Word) {
    Moved(x, x[0] != n[0], x[1] != n[1], x[2] != n[2], x[3] != n[3], y)
  }

  predicate Moved(x: Word, a: bool, b: bool, c: bool, d: bool, y: Word) {
    y[0] == (x[4] != a) && y[1] == (x[5] != b) && y[2] == (x[6] != c) && y[3] == (x[7] != d)
    && y[4] == x[8] && y[5] == x[9] && y[6] == x[10]
    && y[7] == (x[11] != a) && y[8] == (x[12] != b) && y[9] == (x[13] != c) && y[10] == (x[14] != d)
    && y[11] == x[15] && y[12] == a && y[13] == b && y[14] == c && y[15] == d
  }

  lemma StepIs(x: Word, n: Nibble, y: Word)
    requires StepsTo(x, n, y)
    ensures TableStep(x, n) == y
  {
    TableStepIsFourBits(x, n);
    FeedAsWord(x, n);
    var fed := Xor(x, Pad(n));
    NibbleSteps(fed);
    NibbleStepped(fed);
    FedBits(x, n);
    hide TableStep, NibbleStep, Xor, Pad, BitCrc, Zeros;
    SteppedOnce(fed, NibbleStep(fed), y);
  }

  lemma FedBits(x: Word, n: Nibble)
    ensures var fed := Xor(x, Pad(n));
            fed[0] == (x[0] != n[0]) && fed[1] == (x[1] != n[1]) && fed[2] == (x[2] != n[2]) && fed[3] == (x[3] != n[3])
            && forall i :: 4 <= i < 16 ==> fed[i] == x[i]
  {}

  lemma SteppedOnce(x: Word, y: Word, z: Word)
    requires Stepped(x, y) && Stepped(x, z)
    ensures y == z
  {}

  /** A nibble and a word, by their hexadecimal digits. */
  function Digit(k: nat): Nibble
    requires k < 16
  {
    [k % 2 == 1, k / 2 % 2 == 1, k / 4 % 2 == 1, k / 8 == 1]
  }

  function Hex(a: nat, b: nat, c: nat, d: nat): Word
    requires a < 16 && b < 16 && c < 16 && d < 16
  {
    Digit(d) + Digit(c) + Digit(b) + Digit(a)
  }

  lemma TwoValue(x: bool, y: bool, more: seq<bool>)
    ensures Value([x, y] + more) == (if x then 1 else 0) + (if y then 2 else 0) + 4 * Value(more)
  {
    var n := [x, y] + more;
    assert n[1..] == [y] + more && n[1..][1..] == more;
    assert Value(n) == (if x then 1 else 0) + 2 * Value(n[1..]);
    assert Value(n[1..]) == (if y then 1 else 0) + 2 * Value(n[1..][1..]);
  }

  lemma DigitValue(k: nat, more: seq<bool>)
    requires k < 16
    ensures Value(Digit(k) + more) == k + 16 * Value(more)
  {
    var n := Digit(k);
    TwoValue(n[2], n[3], more);
    TwoValue(n[0], n[1], [n[2], n[3]] + more);
    hide Value;
    assert n + more == [n[0], n[1]] + ([n[2], n[3]] + more);
  }

  lemma DigitsOf(hi: nat, lo: nat)
    requires hi < 16 && lo < 16
    ensures ByteBits(16 * hi + lo) == Digit(lo) + Digit(hi)
  {
    DigitValue(lo, Digit(hi));
    DigitValue(hi, []);
    assert Digit(hi) + [] == Digit(hi);
    hide Digit, LowBits;
    LowBitsOfValue(Digit(lo) + Digit(hi));
  }

  lemma HexValue(a: nat, b: nat, c: nat, d: nat)
    requires a < 16 && b < 16 && c < 16 && d < 16
    ensures Value(Hex(a, b, c, d)) == 0x1000 * a + 0x100 * b + 0x10 * c + d
  {
    hide Digit;
    DigitValue(a, []);
    DigitValue(b, Digit(a));
    DigitValue(c, Digit(b) + Digit(a));
    DigitValue(d, Digit(c) + (Digit(b) + Digit(a)));
    assert Digit(a) + [] == Digit(a);
    assert Hex(a, b, c, d) == Digit(d) + (Digit(c) + (Digit(b) + Digit(a)));
  }

  lemma CrcMore(msg: seq<byte>, b: byte)
    ensures Crc(msg + [b]) == TableStep(TableStep(Crc(msg), ByteBits(b)[..4]), ByteBits(b)[4..])
  {
    hide TableStep, ByteBits;
    assert (msg + [b])[..|msg|] == msg;
  }

  lemma Halves(a: Nibble, b: Nibble)
    ensures (a + b)[..4] == a && (a + b)[4..] == b
  {}

  /** z is the exclusive or of two digits. */
  predicate XorIs(x: nat, y: nat, z: nat) {
    x < 16 && y < 16 && z < 16
    && (z % 2 == 1) == ((x % 2 == 1) != (y % 2 == 1)) && (z / 2 % 2 == 1) == ((x / 2 % 2 == 1) != (y / 2 % 2 == 1))
    && (z / 4 % 2 == 1) == ((x / 4 % 2 == 1) != (y / 4 % 2 == 1)) && (z / 8 == 1) == ((x / 8 == 1) != (y / 8 == 1))
  }

  lemma XorBits(x: nat, y: nat, z: nat)
    requires XorIs(x, y, z)
    ensures var p, q, r := Digit(x), Digit(y), Digit(z);
            r[0] == (p[0] != q[0]) && r[1] == (p[1] != q[1]) && r[2] == (p[2] != q[2]) && r[3] == (p[3] != q[3])
  {}

  lemma HalfBits(k: nat)
    requires k < 16
    ensures var n, h, l := Digit(k), Digit(k / 2), Digit(k % 2 * 8);
            h[0] == n[1] && h[1] == n[2] && h[2] == n[3] && !h[3] && !l[0] && !l[1] && !l[2] && l[3] == n[0]
  {}

  lemma WordBits(a: Nibble, b: Nibble, c: Nibble, d: Nibble)
    ensures var w := d + c + b + a;
            w[0] == d[0] && w[1] == d[1] && w[2] == d[2] && w[3] == d[3]
            && w[4] == c[0] && w[5] == c[1] && w[6] == c[2] && w[7] == c[3]
            && w[8] == b[0] && w[9] == b[1] && w[10] == b[2] && w[11] == b[3]
            && w[12] == a[0] && w[13] == a[1] && w[14] == a[2] && w[15] == a[3]
  {}

  /** A table step by digits: the register moves down one, and k, its last digit with that of the
      message, comes back in at 12, 5 and 0. */
  lemma DigitStep(a: nat, b: nat, c: nat, d: nat, n: nat, k: nat, e: nat, f: nat, g: nat)
    requires XorIs(d, n, k) && XorIs(a, k / 2, e) && XorIs(b, k % 2 * 8, f) && XorIs(c, k, g)
    ensures TableStep(Hex(a, b, c, d), Digit(n)) == Hex(k, e, f, g)
  {
    XorBits(d, n, k);
    XorBits(a, k / 2, e);
    XorBits(b, k % 2 * 8, f);
    XorBits(c, k, g);
    HalfBits(k);
    hide *;
    NibblesStep(Digit(a), Digit(b), Digit(c), Digit(d), Digit(n), Digit(k), Digit(e), Digit(f), Digit(g));
    HexMeans(a, b, c, d);
    HexMeans(k, e, f, g);
    StepIs(Hex(a, b, c, d), Digit(n), Hex(k, e, f, g));
  }

  lemma HexMeans(a: nat, b: nat, c: nat, d: nat)
    requires a < 16 && b < 16 && c < 16 && d < 16
    ensures Hex(a, b, c, d) == Digit(d) + Digit(c) + Digit(b) + Digit(a)
  {}

  lemma NibblesStep(a: Nibble, b: Nibble, c: Nibble, d: Nibble, n: Nibble, k: Nibble, e: Nibble, f: Nibble, g: Nibble)
    requires k[0] == (d[0] != n[0]) && k[1] == (d[1] != n[1]) && k[2] == (d[2] != n[2]) && k[3] == (d[3] != n[3])
    requires e[0] == (a[0] != k[1]) && e[1] == (a[1] != k[2]) && e[2] == (a[2] != k[3]) && e[3] == a[3]
    requires f[0] == b[0] && f[1] == b[1] && f[2] == b[2] && f[3] == (b[3] != k[0])
    requires g[0] == (c[0] != k[0]) && g[1] == (c[1] != k[1]) && g[2] == (c[2] != k[2]) && g[3] == (c[3] != k[3])
    ensures StepsTo(d + c + b + a, n, g + f + e + k)
  {
    WordBits(a, b, c, d);
    WordBits(k, e, f, g);
  }

  /** A register by its digits. */
  datatype Reg = Reg(a: nat, b: nat, c: nat, d: nat)

  predicate RegOk(x: Reg) {
    x.a < 16 && x.b < 16 && x.c < 16 && x.d < 16
  }

  predicate Steps(x: Reg, n: nat, y: Reg) {
    XorIs(x.d, n, y.a) && XorIs(x.a, y.a / 2, y.b) && XorIs(x.b, y.a % 2 * 8, y.c) && XorIs(x.c, y.a, y.d)
  }

  predicate CrcIs(msg: seq<byte>, x: Reg) {
    RegOk(x) && Crc(msg) == Hex(x.a, x.b, x.c, x.d)
  }

  /** One byte more, with the register after each of its nibbles. */
  lemma ByteMore(msg: seq<byte>, i: nat, hi: nat, lo: nat, x: Reg, y: Reg, z: Reg)
    requires i < |msg| && hi < 16 && lo < 16 && msg[i] == 16 * hi + lo
    requires CrcIs(msg[..i], x) && Steps(x, lo, y) && Steps(y, hi, z)
    ensures CrcIs(msg[..i + 1], z)
  {
    hide TableStep, Hex, Digit, Crc, ByteBits;
    assert msg[..i + 1] == msg[..i] + [msg[i]];
    CrcMore(msg[..i], msg[i]);
    DigitsOf(hi, lo);
    Halves(Digit(lo), Digit(hi));
    DigitStep(x.a, x.b, x.c, x.d, lo, y.a, y.b, y.c, y.d);
    DigitStep(y.a, y.b, y.c, y.d, hi, z.a, z.b, z.c, z.d);
  }

  lemma CrcOfNothing()
    ensures CrcIs([], Reg(0xf, 0xf, 0xf, 0xf))
  {}

  lemma CrcOfAck(m: seq<byte>)
    requires m == [0x40, 0x00, 0x00, 0xbf]
    ensures CrcIs(m, Reg(0x5, 0x8, 0xe, 0xa))
  {
    hide CrcIs, Crc, Hex, Digit, TableStep, CrcUpdate, RegOk;
    assert m[0] == 0x40 && m[1] == 0x00 && m[2] == 0x00 && m[3] == 0xbf;
    CrcOfNothing();
    assert m[..0] == [] && m[..4] == m;
    ByteMore(m, 0, 0x4, 0x0, Reg(0xf, 0xf, 0xf, 0xf), Reg(0xf, 0x8, 0x7, 0x0), Reg(0x4, 0xd, 0x8, 0x3));
    ByteMore(m, 1, 0x0, 0x0, Reg(0x4, 0xd, 0x8, 0x3), Reg(0x3, 0x5, 0x5, 0xb), Reg(0xb, 0x6, 0xd, 0xe));
    ByteMore(m, 2, 0x0, 0x0, Reg(0xb, 0x6, 0xd, 0xe), Reg(0xe, 0xc, 0x6, 0x3), Reg(0x3, 0xf, 0x4, 0x5));
    ByteMore(m, 3, 0xb, 0xf, Reg(0x3, 0xf, 0x4, 0x5), Reg(0xa, 0x6, 0xf, 0xe), Reg(0x5, 0x8, 0xe, 0xa));
  }

  lemma CrcOfDigits(m: seq<byte>)
    requires m == [0x31, 0x32, 0x33, 0x34, 0x35, 0x36, 0x37, 0x38, 0x39]
    ensures CrcIs(m, Reg(0x6, 0xf, 0x9, 0x1))
  {
    hide CrcIs, Crc, Hex, Digit, TableStep, CrcUpdate, RegOk;
    assert m[0] == 0x31 && m[1] == 0x32 && m[2] == 0x33 && m[3] == 0x34 && m[4] == 0x35;
    assert m[5] == 0x36 && m[6] == 0x37 && m[7] == 0x38 && m[8] == 0x39;
    CrcOfNothing();
    assert m[..0] == [] && m[..9] == m;
    ByteMore(m, 0, 0x3, 0x1, Reg(0xf, 0xf, 0xf, 0xf), Reg(0xe, 0x8, 0xf, 0x1), Reg(0x2, 0xf, 0x8, 0xd));
    ByteMore(m, 1, 0x3, 0x2, Reg(0x2, 0xf, 0x8, 0xd), Reg(0xf, 0x5, 0x7, 0x7), Reg(0x4, 0xd, 0x5, 0x3));
    ByteMore(m, 2, 0x3, 0x3, Reg(0x4, 0xd, 0x5, 0x3), Reg(0x0, 0x4, 0xd, 0x5), Reg(0x6, 0x3, 0x4, 0xb));
    ByteMore(m, 3, 0x3, 0x4, Reg(0x6, 0x3, 0x4, 0xb), Reg(0xf, 0x1, 0xb, 0xb), Reg(0x8, 0xb, 0x1, 0x3));
    ByteMore(m, 4, 0x3, 0x5, Reg(0x8, 0xb, 0x1, 0x3), Reg(0x6, 0xb, 0xb, 0x7), Reg(0x4, 0x4, 0xb, 0xf));
    ByteMore(m, 5, 0x3, 0x6, Reg(0x4, 0x4, 0xb, 0xf), Reg(0x9, 0x0, 0xc, 0x2), Reg(0x1, 0x9, 0x8, 0xd));
    ByteMore(m, 6, 0x3, 0x7, Reg(0x1, 0x9, 0x8, 0xd), Reg(0xa, 0x4, 0x9, 0x2), Reg(0x1, 0xa, 0xc, 0x8));
    ByteMore(m, 7, 0x3, 0x8, Reg(0x1, 0xa, 0xc, 0x8), Reg(0x0, 0x1, 0xa, 0xc), Reg(0xf, 0x7, 0x9, 0x5));
    ByteMore(m, 8, 0x3, 0x9, Reg(0xf, 0x7, 0x9, 0x5), Reg(0xc, 0x9, 0x7, 0x5), Reg(0x6, 0xf, 0x9, 0x1));
  }

  lemma CrcValue(msg: seq<byte>, x: Reg)
    requires CrcIs(msg, x)
    ensures Value(Crc(msg)) == 0x1000 * x.a + 0x100 * x.b + 0x10 * x.c + x.d
  {
    hide Hex, Crc, Value;
    HexValue(x.a, x.b, x.c, x.d);
  }

  lemma ReversedDigits(hi: nat, lo: nat, rhi: nat, rlo: nat)
    requires hi < 16 && lo < 16 && rhi < 16 && rlo < 16
    requires var h, l, rh, rl := Digit(hi), Digit(lo), Digit(rhi), Digit(rlo);
             rh == [l[3], l[2], l[1], l[0]] && rl == [h[3], h[2], h[1], h[0]]
    ensures ByteOf(BitRev8(Digit(lo) + Digit(hi))) == 16 * rhi + rlo
  {
    var bits := Digit(lo) + Digit(hi);
    assert BitRev8(bits) == Digit(rlo) + Digit(rhi);
    DigitValue(rlo, Digit(rhi));
    DigitValue(rhi, []);
    assert Digit(rhi) + [] == Digit(rhi);
  }

  /** The check sequence of known packets: the register starts from all ones, the nine digits give the
      check value listed for this CRC, and an empty acknowledgement with number 0 is sent with the check
      bytes 57 1a. */
  lemma CheckValues()
    ensures Value(Crc([])) == 0xffff
    ensures Value(Crc([0x31, 0x32, 0x33, 0x34, 0x35, 0x36, 0x37, 0x38, 0x39])) == 0x6f91
    ensures CheckBytes(Crc([0x40, 0x00, 0x00, 0xbf])) == [0x57, 0x1a]
  {
    hide Crc, Value;
    CrcOfNothing();
    CrcValue([], Reg(0xf, 0xf, 0xf, 0xf));
    var digits: seq<byte> := [0x31, 0x32, 0x33, 0x34, 0x35, 0x36, 0x37, 0x38, 0x39];
    CrcOfDigits(digits);
    CrcValue(digits, Reg(0x6, 0xf, 0x9, 0x1));
    CrcOfAck([0x40, 0x00, 0x00, 0xbf]);
    CheckOfHex(Crc([0x40, 0x00, 0x00, 0xbf]));
  }

  lemma CheckOfHex(crc: Word)
    requires crc == Hex(0x5, 0x8, 0xe, 0xa)
    ensures CheckBytes(crc) == [0x57, 0x1a]
  {
    assert crc[..8] == Digit(0xa) + Digit(0xe) && crc[8..] == Digit(0x8) + Digit(0x5);
    ReversedDigits(0xe, 0xa, 0x5, 0x7);
    ReversedDigits(0x5, 0x8, 0x1, 0xa);
    hide ByteOf, Digit, Hex;
    var rev := BitRev16(crc);
    assert rev[8..] == BitRev8(crc[..8]) && rev[..8] == BitRev8(crc[8..]);
  }

  /** A zero byte in front is always noticed, which a register that started from zero would not do. */
  lemma LeadingZeroNoticed(msg: seq<byte>)
    ensures Crc([0x00] + msg) != Crc(msg)
  {
    TableIsBitwise(msg);
    TableIsBitwise([0x00] + msg);
    BitsConcat([0x00], msg);
    BitCrcConcat(CRC_INIT, Bits([0x00]), Bits(msg));
    CrcOfZero();
    TableIsBitwise([0x00]);
    var fed := BitCrc(CRC_INIT, Bits([0x00]));
    hide Crc, Bits, BitCrc;
    if BitCrc(fed, Bits(msg)) == BitCrc(CRC_INIT, Bits(msg)) { BitCrcInjective(fed, CRC_INIT, Bits(msg)); }
  }

  lemma CrcOfZero()
    ensures Crc([0x00]) != CRC_INIT
  {
    assert Crc([]) == CRC_INIT;
    CrcOfNothing();
    hide Crc, TableStep, CrcUpdate, Value;
    var m: seq<byte> := [0x00];
    assert m[..0] == [] && m[..1] == m;
    ByteMore(m, 0, 0x0, 0x0, Reg(0xf, 0xf, 0xf, 0xf), Reg(0xf, 0x8, 0x7, 0x0), Reg(0x0, 0xf, 0x8, 0x7));
    CrcValue([0x00], Reg(0x0, 0xf, 0x8, 0x7));
    CrcValue([], Reg(0xf, 0xf, 0xf, 0xf));
  }
}
