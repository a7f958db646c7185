/** The patch packets of rtb_download_fwc: how many there are, their indices, and how the image is cut
    into them. */
module PatchPackets {
  import opened DataIntegrity
  import opened Options

  const PATCH_DATA_FIELD_MAX_SIZE := 252

  datatype Proto = H4 | ThreeWire

  /** A patch packet: its index byte and its data. */
  datatype PatchPkt = PatchPkt(index: byte, data: seq<byte>)

  // ----- how many packets

  function EndIdx(size: nat): nat
    requires size > 0
  {
    (size - 1) / PATCH_DATA_FIELD_MAX_SIZE
  }

  /** The additional packets after num commands and data packets. */
  function AddPkts(num: nat, proto: Proto): nat {
    var pad := if num % 8 != 0 then 8 - num % 8 else 0;
    if proto == H4 then 0 else if pad != 0 then pad - 1 else pad + 7
  }

  /** total_idx: the index of the last packet. */
  function TotalIdx(size: nat, cmds: nat, proto: Proto): nat
    requires size > 0
  {
    EndIdx(size) + AddPkts((cmds + EndIdx(size) + 1) % 0x10000, proto)
  }

  /** Whatever the size and the number of commands before, with the reset that follows the number
      of packets is a multiple of 8. */
  lemma PaddingClosesWindow(size: nat, cmds: nat)
    requires size > 0
    ensures (cmds + (TotalIdx(size, cmds, ThreeWire) + 1) + 1) % 8 == 0
  {
    var n := cmds + EndIdx(size) + 1;
    assert n % 0x10000 % 8 == n % 8;
    hide EndIdx;
  }

  /** The commands before, the packets up to total and the reset. */
  predicate Closes(cmds: nat, total: nat) {
    (cmds + (total + 1) + 1) % 8 == 0
  }

  /** No fewer additional packets would do; over H4 there are none. */
  lemma PaddingLeast(size: nat, cmds: nat)
    requires size > 0
    ensures EndIdx(size) <= TotalIdx(size, cmds, ThreeWire) < EndIdx(size) + 8
    ensures forall t :: EndIdx(size) <= t < TotalIdx(size, cmds, ThreeWire) ==> !Closes(cmds, t)
    ensures TotalIdx(size, cmds, H4) == EndIdx(size)
  {
    var total := TotalIdx(size, cmds, ThreeWire);
    PaddingClosesWindow(size, cmds);
    assert AddPkts((cmds + EndIdx(size) + 1) % 0x10000, ThreeWire) <= 7;
    hide TotalIdx, EndIdx;
    forall t | EndIdx(size) <= t < total ensures !Closes(cmds, t) {
      NotBoth(cmds + (t + 1) + 1, cmds + (total + 1) + 1);
    }
  }

  lemma NotBoth(a: nat, b: nat)
    requires a < b < a + 8 && b % 8 == 0
    ensures a % 8 != 0
  {}

  /** msgq_txseq is 0 after the reset exactly when the commands counted before the download are,
      modulo 8, those that were sent. */
  lemma SequenceCloses(size: nat, cmds: nat, txseq: nat)
    requires size > 0 && txseq < 8
    ensures (txseq + (TotalIdx(size, cmds, ThreeWire) + 1) + 1) % 8 == 0 <==> txseq == cmds % 8
  {
    PaddingClosesWindow(size, cmds);
    hide TotalIdx;
  }

  // ----- the index byte

  /** The index of packet i before bit 7 is set: rolls over past 0x7f. */
  function RollOver(i: nat): nat {
    if i > 0x7f then i % 0x80 + 1 else i
  }

  function SetBit7(j: nat): byte
    requires j <= 0x80
  {
    if j >= 0x80 then j else j + 0x80
  }

  function IndexByte(i: nat, total: nat): byte {
    if i == total then SetBit7(RollOver(i)) else RollOver(i)
  }

  /** Bit 7 marks the last packet and no other exactly up to 256 packets. */
  lemma Bit7MarksLast(total: nat)
    ensures (forall i :: 0 <= i <= total ==> (IndexByte(i, total) >= 0x80 <==> i == total)) <==> total <= 255
  {
    if total > 255 { assert IndexByte(255, total) == 0x80; }
  }

  /** 0, 1, ..., 127, 1, ..., 127, 1, ...: what the comment on the index announces. */
  function Announced(i: nat): nat {
    if i == 0 then 0 else (i - 1) % 127 + 1
  }

  /** The index follows the announced sequence exactly for packets 0 to 254, and past them only
      where the surplus of every 128 packets has added up to a whole turn of 127. */
  lemma IndexAsAnnounced(i: nat)
    ensures RollOver(i) == Announced(i) <==> i <= 0x7f || (i / 0x80 % 127 == 1 && i % 0x80 < 127)
    ensures i <= 254 ==> RollOver(i) == Announced(i)
    ensures RollOver(255) != Announced(255)
  {
    if i > 0x7f { Surplus(i / 0x80, i % 0x80); }
  }

  lemma Surplus(a: nat, b: nat)
    requires a > 0 && b < 128
    ensures (128 * a + b - 1) % 127 == b <==> a % 127 == 1 && b < 127
  {
    var q, c := (a - 1) / 127, (a - 1) % 127;
    if c + b < 127 {
      Remainder(128 * a + b - 1, a + q, c + b);
    } else if c + b < 254 {
      Remainder(128 * a + b - 1, a + q + 1, c + b - 127);
    }
    if c < 126 { Remainder(a, q, c + 1); } else { Remainder(a, q + 1, 0); }
  }

  lemma Remainder(x: nat, q: nat, r: nat)
    requires x == 127 * q + r && r < 127
    ensures x % 127 == r
  {}

  // ----- the packets of an image

  /** The data of packet i. */
  function Chunk(image: seq<byte>, i: nat): (data: seq<byte>)
    ensures |data| <= PATCH_DATA_FIELD_MAX_SIZE
  {
    var from, to := PATCH_DATA_FIELD_MAX_SIZE * i, PATCH_DATA_FIELD_MAX_SIZE * (i + 1);
    if from >= |image| then [] else if to <= |image| then image[from..to] else image[from..]
  }

  function DataOf(sent: seq<PatchPkt>): seq<byte> {
    if sent == [] then [] else DataOf(sent[..|sent| - 1]) + sent[|sent| - 1].data
  }

  /** The packets sent are those of the image, in order, up to number |sent|. */
  predicate SendsImage(sent: seq<PatchPkt>, image: seq<byte>, total: nat) {
    forall i :: 0 <= i < |sent| ==> sent[i] == PatchPkt(IndexByte(i, total), Chunk(image, i))
  }

  lemma {:induction false} DataOfPrefix(sent: seq<PatchPkt>, image: seq<byte>, total: nat)
    requires SendsImage(sent, image, total)
    ensures var n := PATCH_DATA_FIELD_MAX_SIZE * |sent|;
            DataOf(sent) == if n <= |image| then image[..n] else image
  {
    if sent != [] {
      var k := |sent| - 1;
      DataOfPrefix(sent[..k], image, total);
      assert sent[k] == PatchPkt(IndexByte(k, total), Chunk(image, k));
      var from, to := PATCH_DATA_FIELD_MAX_SIZE * k, PATCH_DATA_FIELD_MAX_SIZE * (k + 1);
      if to <= |image| {
        assert image[..to] == image[..from] + image[from..to];
      } else if from < |image| {
        assert image == image[..from] + image[from..];
      } else {
        assert (if from <= |image| then image[..from] else image) == image == image + [];
      }
    }
  }

  /** The data of the packets 0 to total_idx is the image: every packet up to end_idx has 1 to 252
      bytes of it, and the additional packets are empty. */
  lemma ImageConserved(sent: seq<PatchPkt>, image: seq<byte>, cmds: nat, proto: Proto)
    requires image != [] && |sent| == TotalIdx(|image|, cmds, proto) + 1
    requires SendsImage(sent, image, TotalIdx(|image|, cmds, proto))
    ensures DataOf(sent) == image
    ensures forall i :: 0 <= i < |sent| ==>
              if i <= EndIdx(|image|) then 1 <= |sent[i].data| <= PATCH_DATA_FIELD_MAX_SIZE
              else sent[i].data == []
  {
    var end := EndIdx(|image|);
    assert PATCH_DATA_FIELD_MAX_SIZE * end < |image| <= PATCH_DATA_FIELD_MAX_SIZE * (end + 1);
    DataOfPrefix(sent, image, TotalIdx(|image|, cmds, proto));
    forall i | 0 <= i < |sent|
      ensures if i <= end then 1 <= |sent[i].data| <= PATCH_DATA_FIELD_MAX_SIZE else sent[i].data == []
    {
      assert sent[i].data == Chunk(image, i);
      if i > end { assert PATCH_DATA_FIELD_MAX_SIZE * i >= PATCH_DATA_FIELD_MAX_SIZE * (end + 1); }
      if i <= end { assert PATCH_DATA_FIELD_MAX_SIZE * i <= PATCH_DATA_FIELD_MAX_SIZE * end; }
    }
  }

  lemma SentMore(sent: seq<PatchPkt>, image: seq<byte>, total: nat, p: PatchPkt)
    requires SendsImage(sent, image, total)
    requires p == PatchPkt(IndexByte(|sent|, total), Chunk(image, |sent|))
    ensures SendsImage(sent + [p], image, total)
  {
    hide IndexByte, Chunk;
    assert forall k :: 0 <= k < |sent| ==> (sent + [p])[k] == sent[k];
  }

  // ----- the computation, step by step

  lemma LastLength(size: nat)
    requires size > 0
    ensures var n := size % PATCH_DATA_FIELD_MAX_SIZE;
            size - PATCH_DATA_FIELD_MAX_SIZE * EndIdx(size) == if n == 0 then PATCH_DATA_FIELD_MAX_SIZE else n
  {}

  lemma NoWrap(size: nat, cmds: nat, proto: Proto)
    requires size > 0
    ensures var end := EndIdx(size) % 0x10000;
            EndIdx(size) + 8 < 0x10000 ==>
              end == EndIdx(size)
              && TotalIdx(size, cmds, proto) == (end + AddPkts((cmds + end + 1) % 0x10000, proto)) % 0x10000 >= end
  {
    hide EndIdx;
    assert AddPkts((cmds + EndIdx(size) + 1) % 0x10000, proto) <= 7;
  }

  /** The counts that rtb_download_fwc starts from, in its 8 and 16-bit arithmetic. Up to 16 bits they
      are those of the image. */
  method CountPackets(size: nat, numOfCmdSent: nat, proto: Proto) returns (endIdx: nat, lpLen: nat, totalIdx: nat)
    requires size > 0
    ensures endIdx == EndIdx(size) % 0x10000
    ensures lpLen == size - PATCH_DATA_FIELD_MAX_SIZE * EndIdx(size)
    ensures totalIdx == (endIdx + AddPkts((numOfCmdSent + endIdx + 1) % 0x10000, proto)) % 0x10000
    ensures EndIdx(size) + 8 < 0x10000 ==> endIdx == EndIdx(size) <= totalIdx == TotalIdx(size, numOfCmdSent, proto)
  {
    LastLength(size);
    NoWrap(size, numOfCmdSent, proto);
    hide TotalIdx;
    endIdx := (size - 1) / PATCH_DATA_FIELD_MAX_SIZE % 0x10000;
    lpLen := size % PATCH_DATA_FIELD_MAX_SIZE;
    var num := (numOfCmdSent + endIdx + 1) % 0x10000;
    var addPkts := if num % 8 != 0 then 8 - num % 8 else 0;
    if proto == ThreeWire {
      if addPkts != 0 { addPkts := addPkts - 1; } else { addPkts := addPkts + 7; }
    } else {
      addPkts := 0;
    }
    totalIdx := (addPkts + endIdx) % 0x10000;
    if lpLen == 0 { lpLen := PATCH_DATA_FIELD_MAX_SIZE; }
  }

  /** The branches of rtb_download_fwc that choose index, length and data of packet i; pktBuf is the
      offset of pkt_buf in the image, None when it is NULL, and j the index without bit 7. */
  method CutPacket(image: seq<byte>, i: nat, endIdx: nat, totalIdx: nat, lpLen: nat, pktBuf: Option<nat>)
    returns (p: PatchPkt, j: nat, pktBuf': Option<nat>)
    requires image != [] && endIdx == EndIdx(|image|) <= totalIdx && i <= totalIdx
    requires lpLen == |image| - PATCH_DATA_FIELD_MAX_SIZE * endIdx
    requires i <= endIdx ==> pktBuf == Some(PATCH_DATA_FIELD_MAX_SIZE * i)
    ensures p == PatchPkt(IndexByte(i, totalIdx), Chunk(image, i)) && |p.data| <= PATCH_DATA_FIELD_MAX_SIZE
    ensures j == RollOver(i) && (i < totalIdx ==> p.index == j)
    ensures i <= endIdx ==> pktBuf' == pktBuf
  {
    if i > 0x7f { j := i % 0x80 + 1; } else { j := i; }
    var currIdx: byte, currLen;
    pktBuf' := pktBuf;
    if i < endIdx {
      currIdx := j;
      currLen := PATCH_DATA_FIELD_MAX_SIZE;
    } else if i == endIdx {
      if i == totalIdx { currIdx := SetBit7(j); } else { currIdx := j; }
      currLen := lpLen;
    } else if i < totalIdx {
      currIdx := j;
      pktBuf' := None;
      currLen := 0;
    } else {
      currIdx := SetBit7(j);
      pktBuf' := None;
      currLen := 0;
    }
    ChunkBounds(image, i, endIdx);
    var data := if pktBuf'.Some? then image[pktBuf'.value..pktBuf'.value + currLen] else [];
    p := PatchPkt(currIdx, data);
  }

  lemma ChunkBounds(image: seq<byte>, i: nat, endIdx: nat)
    requires image != [] && endIdx == EndIdx(|image|)
    ensures var from := PATCH_DATA_FIELD_MAX_SIZE * i;
            var last := |image| - PATCH_DATA_FIELD_MAX_SIZE * endIdx;
            1 <= last <= PATCH_DATA_FIELD_MAX_SIZE
            && Chunk(image, i) == if i < endIdx then image[from..from + PATCH_DATA_FIELD_MAX_SIZE]
                                  else if i == endIdx then image[from..from + last] else []
  {
    if i > endIdx { assert PATCH_DATA_FIELD_MAX_SIZE * i >= PATCH_DATA_FIELD_MAX_SIZE * (endIdx + 1); }
    if i < endIdx { assert PATCH_DATA_FIELD_MAX_SIZE * (i + 1) <= PATCH_DATA_FIELD_MAX_SIZE * endIdx; }
  }

  /** pkt_buf moves on while the index sent is below end_idx. */
  function AdvanceCursor(pktBuf: Option<nat>, currIdx: nat, endIdx: nat): Option<nat> {
    if currIdx < endIdx && pktBuf.Some? then Some(pktBuf.value + PATCH_DATA_FIELD_MAX_SIZE) else pktBuf
  }

  /** While data packets remain, the index sent is below end_idx, so the cursor reaches the data of
      the next packet. */
  lemma CursorAdvances(i: nat, endIdx: nat, totalIdx: nat)
    requires i < endIdx <= totalIdx
    ensures AdvanceCursor(Some(PATCH_DATA_FIELD_MAX_SIZE * i), IndexByte(i, totalIdx), endIdx)
         == Some(PATCH_DATA_FIELD_MAX_SIZE * (i + 1))
  {}

  // ----- the index and the guard of the receiver

  /** tx_index, which h5_download_patch sets to the index without bit 7, equals total_num exactly for
      the last packet of a download of at most 128. */
  lemma IndexMeetsTotal(i: nat, total: nat)
    requires i <= total
    ensures IndexByte(i, total) % 0x80 == total <==> i == total && total <= 127
  {}
}
