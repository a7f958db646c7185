/** The data integrity check of the three-wire transport: a nibble-table CRC, shown to be the
    reflected CCITT CRC, and the corruptions of a message it is bound to notice. */
module DataIntegrity {
  type byte = x: int | 0 <= x < 256

  /** A 16-bit word as its bits, least significant first. */
  type Word = w: seq<bool> | |w| == 16
    witness [false, false, false, false, false, false, false, false,
     false, false, false, false, false, false, false, false]

  function Xor(x: Word, y: Word): Word {
    seq(16, i requires 0 <= i < 16 => x[i] != y[i])
  }

  function Falses(n: nat): (zeros: seq<bool>)
    ensures |zeros| == n && forall i :: 0 <= i < n ==> !zeros[i]
  {
    if n == 0 then [] else Falses(n - 1) + [false]
  }

  function ShiftRight(x: Word, n: nat): Word
    requires n <= 16
  {
    x[n..] + Falses(n)
  }

  /** The n low bits of d, least significant first. */
  function LowBits(d: nat, n: nat): (bits: seq<bool>)
    ensures |bits| == n
  {
    if n == 0 then [] else [d % 2 == 1] + LowBits(d / 2, n - 1)
  }

  function ByteBits(d: byte): (bits: seq<bool>)
    ensures |bits| == 8
  {
    LowBits(d, 8)
  }

  function Pow2(n: nat): nat {
    if n == 0 then 1 else 2 * Pow2(n - 1)
  }

  /** The number whose bits these are. */
  function Value(bits: seq<bool>): (d: nat)
    ensures d < Pow2(|bits|)
  {
    if bits == [] then 0 else (if bits[0] then 1 else 0) + 2 * Value(bits[1..])
  }

  lemma {:induction false} LowBitsOfValue(bits: seq<bool>)
    ensures LowBits(Value(bits), |bits|) == bits
  {
    if bits != [] { LowBitsOfValue(bits[1..]); }
  }

  /** crc_table. */
  function CrcTable(nibble: nat): nat
    requires nibble < 16
  {
    match nibble
    case 0 => 0x0000 case 1 => 0x1081 case 2 => 0x2102 case 3 => 0x3183
    case 4 => 0x4204 case 5 => 0x5285 case 6 => 0x6306 case 7 => 0x7387
    case 8 => 0x8408 case 9 => 0x9489 case 10 => 0xa50a case 11 => 0xb58b
    case 12 => 0xc60c case 13 => 0xd68d case 14 => 0xe70e case 15 => 0xf78f
  }

  type Nibble = n: seq<bool> | |n| == 4 witness [false, false, false, false]

  function NibbleValue(n: Nibble): (k: nat)
    ensures k < 16
  {
    (if n[0] then 1 else 0) + (if n[1] then 2 else 0) + (if n[2] then 4 else 0) + (if n[3] then 8 else 0)
  }

  function LowNibble(reg: Word, n: Nibble): (r: Nibble) {
    [reg[0] != n[0], reg[1] != n[1], reg[2] != n[2], reg[3] != n[3]]
  }

  /** The register shifted by a nibble and corrected from the table. */
  function TableStep(reg: Word, n: Nibble): Word {
    Xor(ShiftRight(reg, 4), LowBits(CrcTable(NibbleValue(LowNibble(reg, n))), 16))
  }

  /** h5_crc_update: two table steps, low nibble first. */
  function CrcUpdate(crc: Word, d: byte): Word {
    TableStep(TableStep(crc, ByteBits(d)[..4]), ByteBits(d)[4..])
  }

  /** 0xffff. */
  const CRC_INIT: Word := [true, true, true, true, true, true, true, true,
     true, true, true, true, true, true, true, true]

  /** message_crc after the bytes of msg. */
  function Crc(msg: seq<byte>): Word {
    if msg == [] then CRC_INIT else CrcUpdate(Crc(msg[..|msg| - 1]), msg[|msg| - 1])
  }

  // ----- the reflected CCITT CRC, one bit at a time

  /** The polynomial x^16 + x^12 + x^5 + 1 without its leading term, reflected: 0x8408. */
  predicate Tap(i: int) {
    i == 3 || i == 10 || i == 15
  }

  /** One bit of the reflected CCITT CRC. */
  function BitStep(reg: Word, bit: bool): Word {
    seq(16, i requires 0 <= i < 16 => (i < 15 && reg[i + 1]) != (reg[0] != bit && Tap(i)))
  }

  function BitCrc(reg: Word, bits: seq<bool>): Word
    decreases bits
  {
    if bits == [] then reg else BitCrc(BitStep(reg, bits[0]), bits[1..])
  }

  /** The bits of a message in the order of the line: least significant first. */
  function Bits(msg: seq<byte>): (bits: seq<bool>)
    ensures |bits| == 8 * |msg|
  {
    if msg == [] then [] else Bits(msg[..|msg| - 1]) + ByteBits(msg[|msg| - 1])
  }

  lemma {:induction false} BitCrcConcat(reg: Word, a: seq<bool>, b: seq<bool>)
    ensures BitCrc(reg, a + b) == BitCrc(BitCrc(reg, a), b)
    decreases a
  {
    if a == [] {
      assert a + b == b;
    } else {
      assert (a + b)[1..] == a[1..] + b;
      BitCrcConcat(BitStep(reg, a[0]), a[1..], b);
    }
  }

  /** The register after n zero bits. */
  function Zeros(reg: Word, n: nat): Word
    decreases n
  {
    if n == 0 then reg else Zeros(BitStep(reg, false), n - 1)
  }

  /** Bits as a word, the first one least significant. */
  function Pad(bits: seq<bool>): Word
    requires |bits| <= 16
  {
    bits + Falses(16 - |bits|)
  }

  lemma StepAbsorbsBit(reg: Word, bits: seq<bool>)
    requires 0 < |bits| <= 16
    ensures BitStep(Xor(reg, Pad(bits)), false) == Xor(BitStep(reg, bits[0]), Pad(bits[1..]))
  {}

  /** Up to 16 bits fed one at a time act like a word fed into the register at once. */
  lemma {:induction false} FeedAsWord(reg: Word, bits: seq<bool>)
    requires |bits| <= 16
    ensures BitCrc(reg, bits) == Zeros(Xor(reg, Pad(bits)), |bits|)
    decreases bits
  {
    hide BitStep;
    if bits == [] {
      assert Xor(reg, Pad([])) == reg;
    } else {
      StepAbsorbsBit(reg, bits);
      FeedAsWord(BitStep(reg, bits[0]), bits[1..]);
    }
  }

  lemma {:induction false} ZerosLinear(x: Word, y: Word, n: nat)
    ensures Zeros(Xor(x, y), n) == Xor(Zeros(x, n), Zeros(y, n))
    decreases n
  {
    if n != 0 {
      assert BitStep(Xor(x, y), false) == Xor(BitStep(x, false), BitStep(y, false));
      ZerosLinear(BitStep(x, false), BitStep(y, false), n - 1);
    }
  }

  lemma {:induction false} ZerosShift(x: Word, n: nat)
    requires n <= 16 && forall i :: 0 <= i < n ==> !x[i]
    ensures Zeros(x, n) == ShiftRight(x, n)
    decreases n
  {
    if n == 0 {
      assert ShiftRight(x, 0) == x;
    } else {
      assert BitStep(x, false) == ShiftRight(x, 1);
      ZerosShift(BitStep(x, false), n - 1);
      assert ShiftRight(ShiftRight(x, 1), n - 1) == ShiftRight(x, n);
    }
  }

  /** A nibble in the register after k zero bits: each bit shifted out is added at the taps. */
  function Spread(n: Nibble, k: nat): Word
    requires k <= 4
  {
    seq(16, i requires 0 <= i < 16 =>
      if i < 4 - k then n[i + k]
      else if i < 4 then n[i - 4 + k]
      else if 11 - k <= i < 11 then n[i - 11 + k]
      else 16 - k <= i && n[i - 16 + k])
  }

  lemma NibbleFirst(n: Nibble, rest: seq<bool>)
    ensures Value(n + rest) == NibbleValue(n) + 16 * Value(rest)
  {
    var bits := n + rest;
    assert bits[1..][1..][1..][1..] == rest;
    assert bits[1..][0] == n[1] && bits[1..][1..][0] == n[2] && bits[1..][1..][1..][0] == n[3];
    assert Value(bits[1..][1..]) == (if n[2] then 1 else 0) + (if n[3] then 2 else 0) + 4 * Value(rest);
  }

  lemma SpreadValue(n: Nibble)
    ensures Value(Spread(n, 4)) == 0x1081 * NibbleValue(n)
  {
    hide Value;
    var second: Nibble, third: Nibble := [false, false, false, n[0]], [n[1], n[2], n[3], false];
    NibbleFirst(n, second + (third + (n + [])));
    NibbleFirst(second, third + (n + []));
    NibbleFirst(third, n + []);
    NibbleFirst(n, []);
    EmptyValue();
    assert Spread(n, 4) == n + (second + (third + (n + [])));
  }

  lemma EmptyValue()
    ensures Value([]) == 0
  {}

  /** The table holds the CRC of each nibble. */
  lemma TableEntry(n: Nibble)
    ensures LowBits(CrcTable(NibbleValue(n)), 16) == Spread(n, 4)
  {
    hide LowBits, Value, Spread, NibbleValue;
    var k := NibbleValue(n);
    assert CrcTable(k) == 0x1081 * k;
    SpreadValue(n);
    LowBitsOfValue(Spread(n, 4));
  }

  lemma {:induction false} SpreadIsZeros(n: Nibble, k: nat)
    requires k <= 4
    ensures Zeros(Spread(n, k), 4 - k) == Spread(n, 4)
    decreases 4 - k
  {
    if k < 4 {
      SpreadStep(n, k);
      hide BitStep, Spread;
      SpreadIsZeros(n, k + 1);
    }
  }

  lemma SpreadStep(n: Nibble, k: nat)
    requires k < 4
    ensures BitStep(Spread(n, k), false) == Spread(n, k + 1)
  {}

  lemma TableStepIsFourBits(reg: Word, n: Nibble)
    ensures TableStep(reg, n) == BitCrc(reg, n)
  {
    var low: Nibble, high: Word := LowNibble(reg, n), Falses(4) + reg[4..];
    FeedAsWord(reg, n);
    assert Xor(reg, Pad(n)) == Xor(high, Pad(low));
    ZerosLinear(high, Pad(low), 4);
    ZerosShift(high, 4);
    assert Spread(low, 0) == Pad(low);
    SpreadIsZeros(low, 0);
    TableEntry(low);
    assert ShiftRight(high, 4) == ShiftRight(reg, 4);
  }

  /** The nibble-table CRC is the bitwise reflected CCITT CRC. */
  lemma {:induction false} TableIsBitwise(msg: seq<byte>)
    ensures Crc(msg) == BitCrc(CRC_INIT, Bits(msg))
  {
    hide TableStep, ByteBits, BitStep;
    if msg != [] {
      var front, bits := msg[..|msg| - 1], ByteBits(msg[|msg| - 1]);
      TableIsBitwise(front);
      TableStepIsFourBits(Crc(front), bits[..4]);
      TableStepIsFourBits(TableStep(Crc(front), bits[..4]), bits[4..]);
      BitCrcConcat(Crc(front), bits[..4], bits[4..]);
      assert bits == bits[..4] + bits[4..];
      BitCrcConcat(CRC_INIT, Bits(front), bits);
    }
  }

  // ----- bursts

  lemma BitStepInjective(x: Word, y: Word, bit: bool)
    requires BitStep(x, bit) == BitStep(y, bit)
    ensures x == y
  {
    var x', y' := BitStep(x, bit), BitStep(y, bit);
    assert x'[15] == (x[0] != bit) && y'[15] == (y[0] != bit);
    forall i | 0 <= i < 16 ensures x[i] == y[i] {
      if i > 0 { assert x'[i - 1] == y'[i - 1]; }
    }
  }

  lemma {:induction false} BitCrcInjective(x: Word, y: Word, bits: seq<bool>)
    requires BitCrc(x, bits) == BitCrc(y, bits)
    ensures x == y
    decreases bits
  {
    hide BitStep;
    if bits != [] {
      BitCrcInjective(BitStep(x, bits[0]), BitStep(y, bits[0]), bits[1..]);
      BitStepInjective(x, y, bits[0]);
    }
  }

  lemma {:induction false} ZerosInjective(x: Word, y: Word, n: nat)
    requires Zeros(x, n) == Zeros(y, n)
    ensures x == y
    decreases n
  {
    hide BitStep;
    if n != 0 {
      ZerosInjective(BitStep(x, false), BitStep(y, false), n - 1);
      BitStepInjective(x, y, false);
    }
  }

  lemma XorPadInjective(reg: Word, u: seq<bool>, v: seq<bool>)
    requires |u| == |v| <= 16 && Xor(reg, Pad(u)) == Xor(reg, Pad(v))
    ensures u == v
  {
    forall i | 0 <= i < |u| ensures u[i] == v[i] {
      assert Xor(reg, Pad(u))[i] == Xor(reg, Pad(v))[i];
    }
  }

  ghost predicate AgreeOutside(a: seq<bool>, b: seq<bool>, p: nat)
    requires |a| == |b|
  {
    p <= |a| && forall i :: 0 <= i < |a| && !(p <= i < p + 16) ==> a[i] == b[i]
  }

  /** A window of at most 16 bits is injective into the register. */
  lemma WindowInjective(reg: Word, u: seq<bool>, v: seq<bool>)
    requires |u| == |v| <= 16 && BitCrc(reg, u) == BitCrc(reg, v)
    ensures u == v
  {
    FeedAsWord(reg, u);
    FeedAsWord(reg, v);
    hide *;
    ZerosInjective(Xor(reg, Pad(u)), Xor(reg, Pad(v)), |u|);
    XorPadInjective(reg, u, v);
  }

  lemma BitCrcParts(reg: Word, a: seq<bool>, u: seq<bool>, b: seq<bool>)
    ensures BitCrc(reg, a + (u + b)) == BitCrc(BitCrc(BitCrc(reg, a), u), b)
  {
    hide *;
    BitCrcConcat(reg, a, u + b);
    BitCrcConcat(BitCrc(reg, a), u, b);
  }

  /** Two bit strings that differ, and only inside a window of 16, have different CRCs. */
  lemma BurstChangesBitCrc(reg: Word, a: seq<bool>, b: seq<bool>, p: nat)
    requires |a| == |b| && a != b && AgreeOutside(a, b, p)
    ensures BitCrc(reg, a) != BitCrc(reg, b)
  {
    var q := if p + 16 <= |a| then p + 16 else |a|;
    assert a[..p] == b[..p] && a[q..] == b[q..];
    hide *;
    var u, v, mid := a[p..q], b[p..q], BitCrc(reg, a[..p]);
    assert a == a[..p] + (u + a[q..]) && b == b[..p] + (v + b[q..]);
    BitCrcParts(reg, a[..p], u, a[q..]);
    BitCrcParts(reg, b[..p], v, b[q..]);
    if BitCrc(reg, a) == BitCrc(reg, b) {
      BitCrcInjective(BitCrc(mid, u), BitCrc(mid, v), a[q..]);
      WindowInjective(mid, u, v);
    }
  }

  /** On the line a and b differ, and only within 16 consecutive bits. */
  ghost predicate BurstApart(a: seq<byte>, b: seq<byte>) {
    |a| == |b| && Bits(a) != Bits(b) && exists p: nat :: AgreeOutside(Bits(a), Bits(b), p)
  }

  /** Every burst of at most 16 bits changes the CRC of a message. */
  lemma BurstDetected(a: seq<byte>, b: seq<byte>)
    requires BurstApart(a, b)
    ensures Crc(a) != Crc(b)
  {
    var p: nat :| AgreeOutside(Bits(a), Bits(b), p);
    TableIsBitwise(a);
    TableIsBitwise(b);
    BurstChangesBitCrc(CRC_INIT, Bits(a), Bits(b), p);
  }

  // ----- odd numbers of flipped bits

  /** Whether an odd number of the bits is set. */
  function Odd(bits: seq<bool>): bool {
    if bits == [] then false else bits[0] != Odd(bits[1..])
  }

  /** The number of positions at which a and b differ. */
  function Flips(a: seq<bool>, b: seq<bool>): nat
    requires |a| == |b|
  {
    if a == [] then 0 else (if a[0] != b[0] then 1 else 0) + Flips(a[1..], b[1..])
  }

  lemma {:induction false} FlipsParity(a: seq<bool>, b: seq<bool>)
    requires |a| == |b|
    ensures (Flips(a, b) % 2 == 1) == (Odd(a) != Odd(b))
  {
    if a != [] { FlipsParity(a[1..], b[1..]); }
  }

  lemma {:induction false} OddConcat(a: seq<bool>, b: seq<bool>)
    ensures Odd(a + b) == (Odd(a) != Odd(b))
  {
    if a == [] {
      assert a + b == b;
    } else {
      assert (a + b)[1..] == a[1..] + b;
      OddConcat(a[1..], b);
    }
  }

  lemma OddParts(a: seq<bool>, x: bool, b: seq<bool>, y: bool, c: seq<bool>)
    ensures Odd(a + ([x] + (b + ([y] + c)))) == (Odd(a) != (x != (Odd(b) != (y != Odd(c)))))
  {
    OddConcat(a, [x] + (b + ([y] + c)));
    OddConcat(b, [y] + c);
    assert ([x] + (b + ([y] + c)))[1..] == b + ([y] + c) && ([y] + c)[1..] == c;
  }

  lemma OddFirst(bits: seq<bool>)
    requires bits != []
    ensures Odd(bits) == (bits[0] != Odd(bits[1..]))
  {}

  lemma Pieces(r: seq<bool>)
    requires |r| >= 11
    ensures r == r[..3] + ([r[3]] + (r[4..10] + ([r[10]] + r[11..])))
  {}

  lemma StepPieces(reg: Word, next: Word, fed: bool)
    requires forall i :: 0 <= i < 16 ==> next[i] == ((i < 15 && reg[i + 1]) != (fed && Tap(i)))
    ensures next[..3] == reg[1..][..3] && next[4..10] == reg[1..][4..10] && next[11..] == reg[1..][11..] + [fed]
    ensures next[3] == (reg[1..][3] != fed) && next[10] == (reg[1..][10] != fed)
  {}

  /** The polynomial has an odd number of taps, so a bit fed in flips the parity of the register. */
  lemma BitStepParity(reg: Word, bit: bool)
    ensures Odd(BitStep(reg, bit)) == (Odd(reg) != bit)
  {
    var fed, next, rest := reg[0] != bit, BitStep(reg, bit), reg[1..];
    assert forall i :: 0 <= i < 16 ==> next[i] == ((i < 15 && reg[i + 1]) != (fed && Tap(i)));
    hide *;
    StepPieces(reg, next, fed);
    Pieces(next);
    Pieces(rest);
    OddParts(next[..3], next[3], next[4..10], next[10], next[11..]);
    OddParts(rest[..3], rest[3], rest[4..10], rest[10], rest[11..]);
    OddConcat(rest[11..], [fed]);
    OddFirst(reg);
    OddFirst([fed]);
    OddNone([fed][1..]);
  }

  lemma OddNone(bits: seq<bool>)
    requires bits == []
    ensures !Odd(bits)
  {}

  lemma {:induction false} BitCrcParity(reg: Word, bits: seq<bool>)
    ensures Odd(BitCrc(reg, bits)) == (Odd(reg) != Odd(bits))
    decreases bits
  {
    hide BitStep;
    if bits != [] {
      BitStepParity(reg, bits[0]);
      BitCrcParity(BitStep(reg, bits[0]), bits[1..]);
    }
  }

  /** Every odd number of flipped bits, wherever they are, changes the CRC of a message. */
  lemma OddErrorsDetected(a: seq<byte>, b: seq<byte>)
    requires |a| == |b| && Flips(Bits(a), Bits(b)) % 2 == 1
    ensures Crc(a) != Crc(b)
  {
    TableIsBitwise(a);
    TableIsBitwise(b);
    FlipsParity(Bits(a), Bits(b));
    BitCrcParity(CRC_INIT, Bits(a));
    BitCrcParity(CRC_INIT, Bits(b));
  }

  // ----- the check bytes on the line

  function ByteOf(bits: seq<bool>): byte
    requires |bits| == 8
  {
    assert Pow2(8) == 256; Value(bits)
  }

  /** bit_rev8, on the bits of its argument: the same bits in the opposite order. */
  function BitRev8(bits: seq<bool>): (rev: seq<bool>)
    requires |bits| == 8
    ensures |rev| == 8
  {
    [bits[7], bits[6], bits[5], bits[4], bits[3], bits[2], bits[1], bits[0]]
  }

  /** byte_rev_table, by rows of sixteen. */
  function RevRow(high: nat): (row: seq<int>)
    requires high < 16
    ensures |row| == 16
  {
    match high
    case 0 => [0x00, 0x80, 0x40, 0xc0, 0x20, 0xa0, 0x60, 0xe0, 0x10, 0x90, 0x50, 0xd0, 0x30, 0xb0, 0x70, 0xf0]
    case 1 => [0x08, 0x88, 0x48, 0xc8, 0x28, 0xa8, 0x68, 0xe8, 0x18, 0x98, 0x58, 0xd8, 0x38, 0xb8, 0x78, 0xf8]
    case 2 => [0x04, 0x84, 0x44, 0xc4, 0x24, 0xa4, 0x64, 0xe4, 0x14, 0x94, 0x54, 0xd4, 0x34, 0xb4, 0x74, 0xf4]
    case 3 => [0x0c, 0x8c, 0x4c, 0xcc, 0x2c, 0xac, 0x6c, 0xec, 0x1c, 0x9c, 0x5c, 0xdc, 0x3c, 0xbc, 0x7c, 0xfc]
    case 4 => [0x02, 0x82, 0x42, 0xc2, 0x22, 0xa2, 0x62, 0xe2, 0x12, 0x92, 0x52, 0xd2, 0x32, 0xb2, 0x72, 0xf2]
    case 5 => [0x0a, 0x8a, 0x4a, 0xca, 0x2a, 0xaa, 0x6a, 0xea, 0x1a, 0x9a, 0x5a, 0xda, 0x3a, 0xba, 0x7a, 0xfa]
    case 6 => [0x06, 0x86, 0x46, 0xc6, 0x26, 0xa6, 0x66, 0xe6, 0x16, 0x96, 0x56, 0xd6, 0x36, 0xb6, 0x76, 0xf6]
    case 7 => [0x0e, 0x8e, 0x4e, 0xce, 0x2e, 0xae, 0x6e, 0xee, 0x1e, 0x9e, 0x5e, 0xde, 0x3e, 0xbe, 0x7e, 0xfe]
    case 8 => [0x01, 0x81, 0x41, 0xc1, 0x21, 0xa1, 0x61, 0xe1, 0x11, 0x91, 0x51, 0xd1, 0x31, 0xb1, 0x71, 0xf1]
    case 9 => [0x09, 0x89, 0x49, 0xc9, 0x29, 0xa9, 0x69, 0xe9, 0x19, 0x99, 0x59, 0xd9, 0x39, 0xb9, 0x79, 0xf9]
    case 10 => [0x05, 0x85, 0x45, 0xc5, 0x25, 0xa5, 0x65, 0xe5, 0x15, 0x95, 0x55, 0xd5, 0x35, 0xb5, 0x75, 0xf5]
    case 11 => [0x0d, 0x8d, 0x4d, 0xcd, 0x2d, 0xad, 0x6d, 0xed, 0x1d, 0x9d, 0x5d, 0xdd, 0x3d, 0xbd, 0x7d, 0xfd]
    case 12 => [0x03, 0x83, 0x43, 0xc3, 0x23, 0xa3, 0x63, 0xe3, 0x13, 0x93, 0x53, 0xd3, 0x33, 0xb3, 0x73, 0xf3]
    case 13 => [0x0b, 0x8b, 0x4b, 0xcb, 0x2b, 0xab, 0x6b, 0xeb, 0x1b, 0x9b, 0x5b, 0xdb, 0x3b, 0xbb, 0x7b, 0xfb]
    case 14 => [0x07, 0x87, 0x47, 0xc7, 0x27, 0xa7, 0x67, 0xe7, 0x17, 0x97, 0x57, 0xd7, 0x37, 0xb7, 0x77, 0xf7]
    case 15 => [0x0f, 0x8f, 0x4f, 0xcf, 0x2f, 0xaf, 0x6f, 0xef, 0x1f, 0x9f, 0x5f, 0xdf, 0x3f, 0xbf, 0x7f, 0xff]
  }

  function ByteRevTable(b: byte): int {
    RevRow(b / 16)[b % 16]
  }

  function RevNibble(n: Nibble): Nibble {
    [n[3], n[2], n[1], n[0]]
  }

  /** A row whose first entry is first. */
  function RowFrom(first: int): seq<int> {
    [first, first + 0x80, first + 0x40, first + 0xc0, first + 0x20, first + 0xa0, first + 0x60, first + 0xe0,
     first + 0x10, first + 0x90, first + 0x50, first + 0xd0, first + 0x30, first + 0xb0, first + 0x70, first + 0xf0]
  }

  lemma Rows(high: Nibble)
    ensures RevRow(NibbleValue(high)) == RowFrom(NibbleValue(RevNibble(high)))
  {}

  lemma RowEntry(first: int, low: Nibble)
    ensures RowFrom(first)[NibbleValue(low)] == first + 16 * NibbleValue(RevNibble(low))
  {}

  lemma TableNibbles(low: Nibble, high: Nibble)
    ensures var l, h := NibbleValue(low), NibbleValue(high);
            ByteRevTable(16 * h + l) == 16 * NibbleValue(RevNibble(low)) + NibbleValue(RevNibble(high))
  {
    hide RevRow, RowFrom, NibbleValue;
    Rows(high);
    RowEntry(NibbleValue(RevNibble(high)), low);
  }

  /** Every entry of the table is its index with the bits in the opposite order. */
  lemma TableReverses(b: byte)
    ensures 0 <= ByteRevTable(b) < 256 && ByteBits(ByteRevTable(b)) == BitRev8(ByteBits(b))
  {
    hide ByteRevTable, LowBits, Value, NibbleValue;
    var bits := ByteBits(b);
    var low: Nibble, high: Nibble := bits[..4], bits[4..];
    assert bits == low + (high + []);
    ByteValue(b);
    NibbleFirst(low, high + []);
    NibbleFirst(high, []);
    EmptyValue();
    TableNibbles(low, high);
    var rev := BitRev8(bits);
    assert rev == RevNibble(high) + (RevNibble(low) + []);
    NibbleFirst(RevNibble(high), RevNibble(low) + []);
    NibbleFirst(RevNibble(low), []);
    LowBitsOfValue(rev);
  }

  lemma {:induction false} LowBitsValue(d: nat, n: nat)
    requires d < Pow2(n)
    ensures Value(LowBits(d, n)) == d
  {
    if n > 0 { LowBitsValue(d / 2, n - 1); }
  }

  lemma ByteValue(b: byte)
    ensures Value(ByteBits(b)) == b
  {
    assert Pow2(8) == 256;
    LowBitsValue(b, 8);
  }

  /** bit_rev16. */
  function BitRev16(x: Word): Word {
    BitRev8(x[8..]) + BitRev8(x[..8])
  }

  /** The two check bytes in the order they are sent, high byte of the reversed register first. */
  function CheckBytes(crc: Word): (check: seq<byte>)
    ensures |check| == 2
  {
    var rev := BitRev16(crc);
    [ByteOf(rev[8..]), ByteOf(rev[..8])]
  }

  /** h5_get_crc: two received bytes, the first one high. */
  function GetCrc(hi: byte, lo: byte): Word {
    ByteBits(lo) + ByteBits(hi)
  }

  /** The receiver's comparison of its own register with two received check bytes. */
  predicate CrcMatches(own: Word, hi: byte, lo: byte) {
    BitRev16(own) == GetCrc(hi, lo)
  }

  lemma BitRev16Injective(x: Word, y: Word)
    requires BitRev16(x) == BitRev16(y)
    ensures x == y
  {
    forall i | 0 <= i < 16 ensures x[i] == y[i] {
      assert BitRev16(x)[15 - i] == x[i] && BitRev16(y)[15 - i] == y[i];
    }
  }

  /** The comparison accepts the check bytes sent for a register exactly when the receiver
      computed the same register. */
  lemma CheckBytesDecide(own: Word, crc: Word)
    ensures CrcMatches(own, CheckBytes(crc)[0], CheckBytes(crc)[1]) <==> own == crc
  {
    var rev := BitRev16(crc);
    LowBitsOfValue(rev[8..]);
    LowBitsOfValue(rev[..8]);
    hide LowBits, Value;
    assert GetCrc(CheckBytes(crc)[0], CheckBytes(crc)[1]) == rev;
    if BitRev16(own) == rev { BitRev16Injective(own, crc); }
  }
}
