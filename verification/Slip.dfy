/** SLIP framing and the packet header of the three-wire transport. */
module Slip {
  import opened DataIntegrity
  import opened Options

  const DELIMITER: byte := 0xc0
  const ESCAPE: byte := 0xdb

  // ----- SLIP

  /** h5_slip_one_byte. */
  function SlipByte(c: byte): (s: seq<byte>)
    ensures 1 <= |s| <= 2
  {
    match c
    case 0xc0 => [0xdb, 0xdc]
    case 0xdb => [0xdb, 0xdd]
    case 0x11 => [0xdb, 0xde]
    case 0x13 => [0xdb, 0xdf]
    case _ => [c]
  }

  function Encode(data: seq<byte>): (s: seq<byte>)
    ensures |data| <= |s| <= 2 * |data|
  {
    if data == [] then [] else Encode(data[..|data| - 1]) + SlipByte(data[|data| - 1])
  }

  /** The byte that an escaped byte stands for. */
  function Unescape(b: byte): Option<byte> {
    match b
    case 0xdc => Some(0xc0)
    case 0xdd => Some(0xdb)
    case 0xde => Some(0x11)
    case 0xdf => Some(0x13)
    case _ => None
  }

  /** An escaped byte stands for exactly the byte that is escaped so, and for none if none is. */
  lemma UnescapeExactly(b: byte, c: byte)
    ensures Unescape(b) == Some(c) <==> SlipByte(c) == [ESCAPE, b]
  {}

  /** The data whose encoding is s; None where an escape is unknown or cut short. */
  function Decode(s: seq<byte>): Option<seq<byte>> {
    if s == [] then Some([])
    else if s[0] != ESCAPE then
      match Decode(s[1..])
      case None => None
      case Some(rest) => Some([s[0]] + rest)
    else if |s| == 1 then None
    else
      match (Unescape(s[1]), Decode(s[2..]))
      case (Some(b), Some(rest)) => Some([b] + rest)
      case _ => None
  }

  lemma {:induction false} EncodeConcat(a: seq<byte>, b: seq<byte>)
    ensures Encode(a + b) == Encode(a) + Encode(b)
  {
    if b == [] {
      assert a + b == a;
    } else {
      var n := |b| - 1;
      assert (a + b)[..|a + b| - 1] == a + b[..n] && (a + b)[|a + b| - 1] == b[n];
      EncodeConcat(a, b[..n]);
      Assoc(Encode(a), Encode(b[..n]), SlipByte(b[n]));
    }
  }

  lemma EncodeFirst(data: seq<byte>)
    requires data != []
    ensures Encode(data) == SlipByte(data[0]) + Encode(data[1..])
  {
    hide SlipByte;
    assert data == [data[0]] + data[1..];
    EncodeConcat([data[0]], data[1..]);
    assert Encode([data[0]][..0]) == [];
  }

  lemma DecodeFirst(c: byte, s: seq<byte>)
    ensures Decode(SlipByte(c) + s) == match Decode(s) case None => None case Some(rest) => Some([c] + rest)
  {
    var t := SlipByte(c) + s;
    if |SlipByte(c)| == 1 { assert t[1..] == s; } else { assert t[2..] == s; }
  }

  /** Decoding undoes encoding. */
  lemma {:induction false} RoundTrip(data: seq<byte>)
    ensures Decode(Encode(data)) == Some(data)
  {
    hide SlipByte;
    if data != [] {
      EncodeFirst(data);
      DecodeFirst(data[0], Encode(data[1..]));
      RoundTrip(data[1..]);
      assert data == [data[0]] + data[1..];
    }
  }

  lemma EncodeInjective(a: seq<byte>, b: seq<byte>)
    requires Encode(a) == Encode(b)
    ensures a == b
  {
    RoundTrip(a);
    RoundTrip(b);
  }

  /** Neither the delimiter nor the software flow control bytes occur in encoded data. */
  lemma {:induction false} Transparent(data: seq<byte>)
    ensures forall i :: 0 <= i < |Encode(data)| ==> Encode(data)[i] !in {0xc0, 0x11, 0x13}
  {
    if data != [] { Transparent(data[..|data| - 1]); }
  }

  /** A packet between its delimiters. */
  function Frame(packet: seq<byte>): seq<byte> {
    [DELIMITER] + Encode(packet) + [DELIMITER]
  }

  lemma Assoc(a: seq<byte>, b: seq<byte>, c: seq<byte>)
    ensures a + (b + c) == (a + b) + c
  {}

  lemma FrameOpens(packet: seq<byte>)
    ensures Frame(packet) == [DELIMITER] + (Encode(packet) + [DELIMITER])
  {
    hide Encode;
    Assoc([DELIMITER], Encode(packet), [DELIMITER]);
  }

  /** The delimiter occurs first and last in a frame and nowhere else, and the flow control
      bytes do not occur at all. */
  lemma FrameTransparent(packet: seq<byte>)
    ensures var f := Frame(packet);
            (forall i :: 0 <= i < |f| ==> (f[i] == DELIMITER <==> i == 0 || i == |f| - 1))
            && 0x11 !in f && 0x13 !in f
  {
    Transparent(packet);
    var f := Frame(packet);
    forall i | 0 < i < |f| - 1 ensures f[i] !in {0xc0, 0x11, 0x13} {
      assert f[i] == Encode(packet)[i - 1];
    }
  }

  // ----- the packet header

  function HdrSeq(packet: seq<byte>): nat requires |packet| >= 1 { packet[0] % 8 }
  function HdrAck(packet: seq<byte>): nat requires |packet| >= 1 { packet[0] / 8 % 8 }
  predicate HdrCrc(packet: seq<byte>) requires |packet| >= 1 { packet[0] / 64 % 2 == 1 }
  predicate HdrReliable(packet: seq<byte>) requires |packet| >= 1 { packet[0] / 128 % 2 == 1 }
  function HdrType(packet: seq<byte>): nat requires |packet| >= 2 { packet[1] % 16 }
  function HdrLen(packet: seq<byte>): nat requires |packet| >= 3 { packet[1] / 16 + (packet[2] as int) * 16 }

  predicate HdrChecksumOk(packet: seq<byte>)
    requires |packet| >= 4
  {
    255 - ((packet[0] as int) + packet[1] + packet[2]) % 256 == packet[3]
  }

  datatype Fields = Fields(ack: nat, reliable: bool, seqno: nat, crc: bool, kind: nat, len: nat)

  predicate FieldsOk(f: Fields) {
    f.ack < 8 && f.seqno < 8 && f.kind < 16 && (!f.reliable ==> f.seqno == 0)
  }

  /** The four header bytes; the length keeps only its low 12 bits. */
  function Header(f: Fields): (hdr: seq<byte>)
    requires FieldsOk(f)
    ensures |hdr| == 4
  {
    var h0 := f.ack * 8 + (if f.reliable then 0x80 + f.seqno else 0) + (if f.crc then 0x40 else 0);
    var h1 := f.len * 16 % 256 + f.kind;
    var h2 := f.len / 16 % 256;
    [h0, h1, h2, 255 - (h0 + h1 + h2) % 256]
  }

  /** The receiver's field macros read back what the header was built from. */
  lemma HeaderFields(f: Fields)
    requires FieldsOk(f)
    ensures var h := Header(f);
            HdrChecksumOk(h) && HdrAck(h) == f.ack && HdrReliable(h) == f.reliable
            && HdrSeq(h) == f.seqno && HdrCrc(h) == f.crc && HdrType(h) == f.kind
            && HdrLen(h) == f.len % 4096
  {
    HeaderFlags(f.ack, f.reliable, f.seqno, f.crc);
    HeaderLength(f.len, f.kind);
  }

  lemma HeaderLength(len: nat, kind: nat)
    requires kind < 16
    ensures var h1 := len * 16 % 256 + kind;
            h1 % 16 == kind && h1 / 16 + len / 16 % 256 * 16 == len % 4096
  {
    LowNibbleUp(len);
    LowNibbleDown(len % 16, kind);
    TwelveBits(len);
  }

  lemma LowNibbleUp(len: nat)
    ensures len * 16 % 256 == len % 16 * 16
  {}

  lemma LowNibbleDown(low: nat, kind: nat)
    requires low < 16 && kind < 16
    ensures (low * 16 + kind) % 16 == kind && (low * 16 + kind) / 16 == low
  {}

  lemma TwelveBits(len: nat)
    ensures len % 16 + len / 16 % 256 * 16 == len % 4096
  {}

  lemma HeaderFlags(ack: nat, reliable: bool, seqno: nat, crc: bool)
    requires ack < 8 && seqno < 8 && (!reliable ==> seqno == 0)
    ensures var h0 := ack * 8 + (if reliable then 0x80 + seqno else 0) + (if crc then 0x40 else 0);
            h0 % 8 == seqno && h0 / 8 % 8 == ack && (h0 / 64 % 2 == 1) == crc
            && (h0 / 128 % 2 == 1) == reliable
  {}

  /** The length field carries the payload length exactly up to 4095 bytes. */
  lemma LengthFits(f: Fields)
    requires FieldsOk(f)
    ensures HdrLen(Header(f)) == f.len <==> f.len <= 4095
  {
    HeaderFields(f);
  }
}
