/** The configuration file of rtb_fwc.c: rtb_parse_config, and the length computation and the
    writer of rtb_read_config. */
module ConfigTlv {
  import opened DataIntegrity
  import opened ConfigList
  import opened ConfigMerge
  import Slip
  import opened Options

  const MAGIC: seq<byte> := [0x55, 0xab, 0x23, 0x87]

  function Low(x: nat): byte {
    x % 256
  }

  function High(x: nat): byte {
    x / 256 % 256
  }

  /** A little-endian 16-bit word. */
  function Word(lo: byte, hi: byte): Offset {
    lo as int + 256 * (hi as int)
  }

  lemma Halves(x: nat)
    ensures Word(Low(x), High(x)) == x % 0x10000
    ensures x < 0x10000 ==> Word(Low(x), High(x)) == x
  {}

  lemma Joined(lo: byte, hi: byte)
    ensures Low(Word(lo, hi)) == lo && High(Word(lo, hi)) == hi
  {}

  // ----- the format

  function EncodeItem(it: Item): seq<byte> {
    [Low(it.offset), High(it.offset), |it.data|] + it.data
  }

  function Encode(items: seq<Item>): seq<byte> {
    if items == [] then [] else EncodeItem(items[0]) + Encode(items[1..])
  }

  /** The bytes of the item at the front of a body. */
  function FirstSize(body: seq<byte>): nat
    requires |body| >= 3
  {
    3 + body[2] as int
  }

  function FirstItem(body: seq<byte>): Item
    requires |body| >= 3 && |body| >= FirstSize(body)
  {
    Item(Word(body[0], body[1]), body[3..FirstSize(body)])
  }

  /** The items that tile a body exactly, if any do. */
  function ParseItems(body: seq<byte>): (r: Option<seq<Item>>)
    decreases |body|
  {
    if body == [] then Some([])
    else if |body| < 3 || |body| < FirstSize(body) then None
    else
      match ParseItems(body[FirstSize(body)..])
      case None => None
      case Some(rest) => Some([FirstItem(body)] + rest)
  }

  function Header(dlen: nat): seq<byte> {
    MAGIC + [Low(dlen), High(dlen)]
  }

  /** The file the writer makes of a list of items. */
  function Wire(items: seq<Item>): seq<byte> {
    Header(|Encode(items)|) + Encode(items)
  }

  /** The checks of rtb_parse_config on the header. */
  predicate Accepted(buf: seq<byte>) {
    |buf| >= 6 && buf[..4] == MAGIC && Word(buf[4], buf[5]) == |buf| - 6
  }

  lemma {:induction false} ParseEncoded(items: seq<Item>)
    ensures ParseItems(Encode(items)) == Some(items)
  {
    if items != [] {
      ParseEncoded(items[1..]);
      ParseEncodedFront(items);
    }
  }

  lemma ParseEncodedFront(items: seq<Item>)
    requires items != [] && ParseItems(Encode(items[1..])) == Some(items[1..])
    ensures ParseItems(Encode(items)) == Some(items)
  {
    hide *;
    EncodeFront(items);
    FrontItem(items[0], Encode(items[1..]));
    ParseFront(items[0], items[1..]);
    assert items == [items[0]] + items[1..];
  }

  lemma ParseFront(it: Item, rest: seq<Item>)
    requires ParseItems(Encode(rest)) == Some(rest)
    requires var body := EncodeItem(it) + Encode(rest);
             |body| >= 3 && |body| >= FirstSize(body)
             && FirstItem(body) == it && body[FirstSize(body)..] == Encode(rest)
    ensures ParseItems(EncodeItem(it) + Encode(rest)) == Some([it] + rest)
  {}

  lemma FrontItem(it: Item, rest: seq<byte>)
    ensures var body := EncodeItem(it) + rest;
            |body| >= 3 && |body| >= FirstSize(body) && FirstItem(body) == it && body[FirstSize(body)..] == rest
  {}

  /** Items tile a body exactly when it is their encoding. */
  lemma {:induction false} EncodeParsed(body: seq<byte>)
    requires ParseItems(body).Some?
    ensures Encode(ParseItems(body).value) == body
    decreases |body|
  {
    if body != [] {
      EncodeParsed(body[FirstSize(body)..]);
      ParseFirst(body);
      SplitFirst(body);
      FirstEncoded(body);
    }
  }

  lemma FirstEncoded(body: seq<byte>)
    requires |body| >= 3 && |body| >= FirstSize(body)
    requires ParseItems(body).Some? && ParseItems(body[FirstSize(body)..]).Some?
    requires ParseItems(body).value == [FirstItem(body)] + ParseItems(body[FirstSize(body)..]).value
    requires Encode(ParseItems(body[FirstSize(body)..]).value) == body[FirstSize(body)..]
    requires body == EncodeItem(FirstItem(body)) + body[FirstSize(body)..]
    ensures Encode(ParseItems(body).value) == body
  {}

  lemma SplitFirst(body: seq<byte>)
    requires |body| >= 3 && |body| >= FirstSize(body)
    ensures body == EncodeItem(FirstItem(body)) + body[FirstSize(body)..]
  {
    Joined(body[0], body[1]);
    assert body == [body[0], body[1], body[2]] + body[3..FirstSize(body)] + body[FirstSize(body)..];
  }

  /** A list of items survives being written and parsed exactly when the 16-bit length field holds
      its size. */
  lemma WireParsed(items: seq<Item>)
    ensures Accepted(Wire(items)) <==> |Encode(items)| < 0x10000
    ensures ParseItems(Wire(items)[6..]) == Some(items)
  {
    var n := |Encode(items)|;
    ParseEncoded(items);
    Halves(n);
    assert Wire(items)[6..] == Encode(items);
    WireHeader(items);
    if n >= 0x10000 { Wrapped(n); }
  }

  lemma WireHeader(items: seq<Item>)
    ensures var w := Wire(items);
            w[..4] == MAGIC && w[4] == Low(|w| - 6) && w[5] == High(|w| - 6) && |w| == 6 + |Encode(items)|
  {}

  lemma Wrapped(n: nat)
    requires n >= 0x10000
    ensures n % 0x10000 != n
  {}

  /** An accepted file that items tile exactly is what the writer makes of them. */
  lemma ParsedWire(buf: seq<byte>)
    requires Accepted(buf) && ParseItems(buf[6..]).Some?
    ensures Wire(ParseItems(buf[6..]).value) == buf
  {
    EncodeParsed(buf[6..]);
    HeaderIs(buf);
    hide ParseItems, Encode, Header, Accepted;
    assert buf == buf[..6] + buf[6..];
  }

  lemma HeaderIs(buf: seq<byte>)
    requires Accepted(buf)
    ensures buf[..6] == Header(|buf| - 6)
  {
    Joined(buf[4], buf[5]);
    assert buf[..6] == buf[..4] + [buf[4], buf[5]];
  }

  /** Read byte by byte, a file that is written begins 55 ab 23 87, then tells, low byte first, how many
      bytes follow, and has every item where those before it end: its offset, low byte first, the number of
      its bytes, and those. */
  lemma WireBytes(items: seq<Item>, i: nat)
    requires |Encode(items)| < 0x10000 && i < |items|
    ensures var w, at := Wire(items), 6 + |Encode(items[..i])|;
            at + 3 + |items[i].data| <= |w| && w[..4] == [0x55, 0xab, 0x23, 0x87]
            && w[4] as int + 0x100 * (w[5] as int) == |w| - 6
            && w[at] as int + 0x100 * (w[at + 1] as int) == items[i].offset && w[at + 2] as int == |items[i].data|
            && w[at + 3..at + 3 + |items[i].data|] == items[i].data
  {
    WireHeader(items);
    Halves(|Encode(items)|);
    Halves(items[i].offset);
    EncodeAt(items, i);
    var front, it, back := Encode(items[..i]), EncodeItem(items[i]), Encode(items[i + 1..]);
    WireCut(items, i);
    var w, at := Wire(items), 6 + |front|;
    hide Encode, EncodeItem, Wire, Low, High;
    ItemBytes(Header(|Encode(items)|) + front, items[i], back);
  }

  lemma WireCut(items: seq<Item>, i: nat)
    requires i < |items|
    ensures Wire(items)
         == (Header(|Encode(items)|) + Encode(items[..i])) + EncodeItem(items[i]) + Encode(items[i + 1..])
  {
    hide Encode, EncodeItem, Header;
    assert items == items[..i + 1] + items[i + 1..];
    EncodeConcat(items[..i + 1], items[i + 1..]);
    EncodeAt(items, i);
  }

  lemma ItemBytes(a: seq<byte>, it: Item, b: seq<byte>)
    ensures var w, at := a + EncodeItem(it) + b, |a|;
            at + 3 + |it.data| <= |w| && w[at] == Low(it.offset) && w[at + 1] == High(it.offset)
            && w[at + 2] as int == |it.data| && w[at + 3..at + 3 + |it.data|] == it.data
  {
    var e := EncodeItem(it);
    assert e[3..] == it.data;
    var w := a + e + b;
    assert w[|a|..|a| + |e|] == e;
    assert w[|a| + 3..|a| + |e|] == e[3..];
  }

  // ----- the encoding, grown at its end

  lemma EncodeFront(items: seq<Item>)
    requires items != []
    ensures Encode(items) == EncodeItem(items[0]) + Encode(items[1..])
  {}

  lemma {:induction false} EncodeConcat(a: seq<Item>, b: seq<Item>)
    ensures Encode(a + b) == Encode(a) + Encode(b)
  {
    if a == [] {
      assert a + b == b;
    } else {
      EncodeConcat(a[1..], b);
      FrontOfConcat(a, b);
    }
  }

  lemma FrontOfConcat(a: seq<Item>, b: seq<Item>)
    requires a != [] && Encode(a[1..] + b) == Encode(a[1..]) + Encode(b)
    ensures Encode(a + b) == Encode(a) + Encode(b)
  {
    hide *;
    EncodeFront(a + b);
    EncodeFront(a);
    assert (a + b)[1..] == a[1..] + b && (a + b)[0] == a[0];
    Slip.Assoc(EncodeItem(a[0]), Encode(a[1..]), Encode(b));
  }

  lemma EncodeAt(items: seq<Item>, i: nat)
    requires i < |items|
    ensures Encode(items[..i + 1]) == Encode(items[..i]) + EncodeItem(items[i])
    ensures |Encode(items[..i + 1])| <= |Encode(items)|
  {
    assert items[..i + 1] == items[..i] + [items[i]] && items == items[..i + 1] + items[i + 1..];
    EncodeConcat(items[..i], [items[i]]);
    EncodeConcat(items[..i + 1], items[i + 1..]);
    assert Encode([items[i]]) == EncodeItem(items[i]);
  }

  // ----- rtb_parse_config

  /** rtb_parse_config: a buffer with a good header whose items tile it is appended to the ring of
      the configuration, any other changes nothing. */
  method ParseConfig(buf: seq<byte>, head: CfgListItem, ghost r: Nodes) returns (result: int, ghost r': Nodes)
    requires |r| > 0 && r[0] == head && IsRing(r)
    requires buf == [] || 6 <= |buf|
    requires Accepted(buf) ==> ParseItems(buf[6..]).Some?
    modifies set n | n in r
    ensures result == if Accepted(buf) then 0 else -1
    ensures IsRing(r') && |r'| >= |r| && r'[..|r|] == r && forall i :: |r| <= i < |r'| ==> fresh(r'[i])
    ensures Items(r') == old(Items(r)) + if Accepted(buf) then ParseItems(buf[6..]).value else []
  {
    r' := r;
    if |buf| == 0 { return -1, r; }
    if buf[..4] != MAGIC { return -1, r; }
    var cfgLen := Word(buf[4], buf[5]);
    if cfgLen != |buf| - 6 { return -1, r; }
    r' := ParseBody(buf[6..], head, r);
    result := 0;
  }

  /** The loop over the items; entry is what is left of the body from the current item on. */
  method ParseBody(body: seq<byte>, head: CfgListItem, ghost r: Nodes) returns (ghost r': Nodes)
    requires |r| > 0 && r[0] == head && IsRing(r)
    requires ParseItems(body).Some?
    modifies set n | n in r
    ensures IsRing(r') && |r'| >= |r| && r'[..|r|] == r && forall i :: |r| <= i < |r'| ==> fresh(r'[i])
    ensures Items(r') == old(Items(r)) + ParseItems(body).value
  {
    hide IsRing, Items, ParseItems, Word;
    ghost var all := Items(r) + ParseItems(body).value;
    r' := r;
    var i, entry := 0, body;
    while i < |body|
      invariant 0 <= i <= |body| && |entry| == |body| - i && ParseItems(entry).Some?
      invariant IsRing(r') && |r'| >= |r| && r'[..|r|] == r && forall j :: |r| <= j < |r'| ==> fresh(r'[j])
      invariant Items(r') + ParseItems(entry).value == all
    {
      ParseFirst(entry);
      var tmp := FirstSize(entry);
      ghost var items, it := Items(r'), FirstItem(entry);
      r' := AppendItem(Word(entry[0], entry[1]), entry[3..tmp], head, r');
      i, entry := i + tmp, entry[tmp..];
      MoveOver(items, it, ParseItems(entry).value);
    }
    ParseNothing(entry);
  }

  lemma ParseFirst(body: seq<byte>)
    requires body != [] && ParseItems(body).Some?
    ensures |body| >= 3 && |body| >= FirstSize(body) && ParseItems(body[FirstSize(body)..]).Some?
    ensures ParseItems(body).value == [FirstItem(body)] + ParseItems(body[FirstSize(body)..]).value
  {}

  lemma MoveOver(a: seq<Item>, it: Item, b: seq<Item>)
    ensures a + ([it] + b) == a + [it] + b
  {}

  lemma ParseNothing(body: seq<byte>)
    requires body == []
    ensures ParseItems(body) == Some([])
  {}

  /** A new item at the end of the ring. */
  method AppendItem(offset: Offset, data: Data, head: CfgListItem, ghost r: Nodes) returns (ghost r': Nodes)
    requires |r| > 0 && r[0] == head && IsRing(r)
    modifies r`next, r`prev
    ensures IsRing(r') && |r'| == |r| + 1 && r'[..|r|] == r && fresh(r'[|r|])
    ensures Items(r') == old(Items(r)) + [Item(offset, data)]
  {
    hide IsRing, Items;
    ghost var items := Items(r);
    var item := new CfgListItem(offset, data);
    RingKept(r);
    ListAddTail(item, head, r);
    r' := r + [item];
    ItemsAre(r', items + [Item(offset, data)]);
  }

  // ----- the lengths

  /** The first loop of rtb_read_config over the ring: both lengths are 16-bit sums. */
  method ConfigLength(head: CfgListItem, ghost r: Nodes) returns (configLen: nat, dlen: nat)
    requires |r| > 0 && r[0] == head && IsRing(r)
    ensures configLen == (6 + |Encode(Items(r))|) % 0x10000
    ensures dlen == |Encode(Items(r))| % 0x10000
  {
    hide IsRing, Items;
    ghost var items, i := Items(r), 0;
    configLen, dlen := 6, 0;
    RingStart(r);
    var pos := head.next;
    while pos != head
      invariant 0 <= i < |r| && pos == After(r, i)
      invariant configLen == (6 + |Encode(items[..i])|) % 0x10000
      invariant dlen == |Encode(items[..i])| % 0x10000
      decreases |r| - i
    {
      LengthStep(items, i, |Encode(items[..i])|);
      configLen := (configLen + 3 + |pos.data|) % 0x10000;
      dlen := (dlen + 3 + |pos.data|) % 0x10000;
      i := i + 1;
      RingStep(r, i);
      pos := pos.next;
    }
    RingEnd(r, i + 1);
    assert items[..i] == items;
  }

  lemma LengthStep(items: seq<Item>, i: nat, n: nat)
    requires i < |items| && n == |Encode(items[..i])|
    ensures |Encode(items[..i + 1])| == n + 3 + |items[i].data|
    ensures ((6 + n) % 0x10000 + 3 + |items[i].data|) % 0x10000 == (6 + n + 3 + |items[i].data|) % 0x10000
    ensures (n % 0x10000 + 3 + |items[i].data|) % 0x10000 == (n + 3 + |items[i].data|) % 0x10000
  {
    EncodeAt(items, i);
    ModSum(6 + n, 3 + |items[i].data|);
    ModSum(n, 3 + |items[i].data|);
  }

  lemma ModSum(a: nat, b: nat)
    ensures (a % 0x10000 + b) % 0x10000 == (a + b) % 0x10000
  {}

  /** The buffer that is allocated holds the file exactly when the file fits 16 bits. */
  lemma LengthExact(items: seq<Item>)
    ensures (6 + |Encode(items)|) % 0x10000 == |Wire(items)| <==> |Wire(items)| < 0x10000
  {
    WireHeader(items);
  }

  // ----- the writer

  /** memcpy. */
  method Memcpy(buf: array<byte>, at: nat, data: seq<byte>)
    requires at + |data| <= buf.Length
    modifies buf
    ensures buf[..at + |data|] == old(buf[..at]) + data
  {
    var j := 0;
    while j < |data|
      invariant 0 <= j <= |data|
      invariant buf[..at + j] == old(buf[..at]) + data[..j]
    {
      buf[at + j] := data[j];
      assert buf[..at + j + 1] == buf[..at + j] + [data[j]] && data[..j + 1] == data[..j] + [data[j]];
      j := j + 1;
    }
  }

  /** One item at p. */
  method WriteItem(n: CfgListItem, buf: array<byte>, p: nat)
    requires p + 3 + |n.data| <= buf.Length
    modifies buf
    ensures buf[..p + 3 + |n.data|] == old(buf[..p]) + EncodeItem(n.Value())
  {
    ghost var front := buf[..p];
    buf[p] := Low(n.offset);
    buf[p + 1] := High(n.offset);
    buf[p + 2] := |n.data|;
    assert buf[..p + 3] == front + [buf[p], buf[p + 1], buf[p + 2]];
    Memcpy(buf, p + 3, n.data);
  }

  /** The rest of rtb_read_config: the buffer is sized, and filled with the items of the ring. */
  method WriteConfig(head: CfgListItem, ghost r: Nodes) returns (buf: array<byte>)
    requires |r| > 0 && r[0] == head && IsRing(r)
    requires |Wire(Items(r))| < 0x10000
    ensures fresh(buf) && buf[..] == Wire(Items(r))
  {
    hide IsRing, Items, Wire, Encode, EncodeItem;
    ghost var items, i := Items(r), 0;
    var configLen, dlen := ConfigLength(head, r);
    WireSize(items);
    buf := new byte[configLen];
    WriteHeader(buf, dlen);
    var p := 6;
    RingStart(r);
    var pos := head.next;
    while pos != head
      invariant 0 <= i < |r| && pos == After(r, i) && fresh(buf)
      invariant 6 <= p <= buf.Length && p == 6 + |Encode(items[..i])| && buf[..p] == Header(dlen) + Encode(items[..i])
      decreases |r| - i
    {
      WriteStep(items, i);
      assert pos.Value() == items[i];
      WriteItem(pos, buf, p);
      p := p + 3 + |pos.data|;
      i := i + 1;
      RingStep(r, i);
      pos := pos.next;
    }
    RingEnd(r, i + 1);
    assert items[..i] == items && buf[..p] == buf[..];
  }

  lemma WireSize(items: seq<Item>)
    requires |Wire(items)| < 0x10000
    ensures |Wire(items)| == 6 + |Encode(items)| && |Encode(items)| % 0x10000 == |Encode(items)|
    ensures (6 + |Encode(items)|) % 0x10000 == 6 + |Encode(items)|
    ensures Encode([]) == [] && Wire(items) == Header(|Encode(items)|) + Encode(items)
  {}

  lemma WriteStep(items: seq<Item>, i: nat)
    requires i < |items|
    ensures Encode(items[..i + 1]) == Encode(items[..i]) + EncodeItem(items[i])
    ensures |EncodeItem(items[i])| == 3 + |items[i].data| && |Encode(items[..i + 1])| <= |Encode(items)|
  {
    EncodeAt(items, i);
  }

  method WriteHeader(buf: array<byte>, dlen: nat)
    requires 6 <= buf.Length
    modifies buf
    ensures buf[..6] == Header(dlen)
  {
    buf[0], buf[1], buf[2], buf[3] := 0x55, 0xab, 0x23, 0x87;
    buf[4] := Low(dlen);
    buf[5] := High(dlen);
  }

  // ----- rtb_read_config

  /** rtb_read_config with the file at hand: parse, merge the extras, write. */
  method ReadConfig(file: seq<byte>, head: CfgListItem, head2: CfgListItem, ghost r0: Nodes, ghost q0: Nodes)
    returns (accepted: bool, buf: array<byte>)
    requires |r0| > 0 && r0[0] == head && |q0| > 0 && q0[0] == head2 && IsRing(r0) && IsRing(q0) && Disjoint(q0, r0)
    requires file == [] || 6 <= |file|
    requires Accepted(file) ==> ParseItems(file[6..]).Some?
    requires Accepted(file) ==> Mergeable(Items(r0) + ParseItems(file[6..]).value, Items(q0))
    modifies set n | n in r0 || n in q0
    ensures accepted <==> Accepted(file)
    ensures accepted ==> buf[..] == Wire(Merged(old(Items(r0)) + ParseItems(file[6..]).value, old(Items(q0))))
  {
    hide IsRing, Items, Disjoint, Wire, Merged, ParseItems, Accepted, Mergeable;
    ghost var items, extras := Items(r0), Items(q0);
    buf := new byte[0];
    var result;
    ghost var r;
    OnceApart(r0, q0);
    result, r := ParseConfig(file, head, r0);
    if result < 0 { return false, buf; }
    RingKept(q0);
    ItemsAre(q0, extras);
    StillDisjoint(r0, q0, r);
    MergeableParts(Items(r), extras);
    r := MergeConfigs(head, head2, r, q0);
    buf := WriteConfig(head, r);
    accepted := true;
  }

  lemma StillDisjoint(r0: Nodes, q0: Nodes, r: Nodes)
    requires Disjoint(q0, r0) && |r| >= |r0| && r[..|r0|] == r0 && forall i :: |r0| <= i < |r| ==> r[i] !in q0
    ensures Disjoint(q0, r)
  {
    assert forall i :: 0 <= i < |r0| ==> r[i] == r0[i];
  }

  lemma MergeableParts(items: seq<Item>, extras: seq<Item>)
    requires Mergeable(items, extras)
    ensures forall e :: e in extras ==> AtMostOnce(items, e.offset)
    ensures |Wire(Merged(items, extras))| < 0x10000
  {}

  /** What the merge and the writer ask of the items: no two of them meet one extra, and the result
      fits 16 bits. */
  ghost predicate Mergeable(items: seq<Item>, extras: seq<Item>) {
    (forall e :: e in extras ==> AtMostOnce(items, e.offset)) && |Wire(Merged(items, extras))| < 0x10000
  }
}
