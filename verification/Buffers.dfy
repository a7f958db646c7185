/** The byte buffer of hciattach_rtk.c: a fixed allocation, the offset of its data pointer and
    the number of bytes in use from there. */
module Buffers {
  import opened DataIntegrity
  import opened Slip

  class SkBuff {
    const maxLen: nat
    const mem: array<byte>
    var head: nat
    var dataLen: nat

    ghost predicate Valid()
      reads this
    {
      mem.Length == maxLen && head + dataLen <= maxLen
    }

    ghost function Contents(): (data: seq<byte>)
      reads this, mem
      requires Valid()
      ensures |data| == dataLen
    {
      mem[head..head + dataLen]
    }

    /** Everything past the data is still as it was cleared by skb_alloc. */
    ghost predicate RestZero()
      reads this, mem
      requires Valid()
    {
      forall i :: head + dataLen <= i < maxLen ==> mem[i] == 0
    }

    /** skb_alloc. */
    constructor (len: nat)
      ensures Valid() && fresh(mem) && maxLen == len && head == 0 && Contents() == [] && RestZero()
    {
      maxLen := len;
      mem := new byte[len](_ => 0);
      head, dataLen := 0, 0;
    }

    /** skb_put and the copy into the room it made: false where the process would end. It does not
        see bytes given up by skb_pull, so that nothing may be put after a pull. */
    method Put(bytes: seq<byte>) returns (ok: bool)
      requires Valid() && head == 0
      modifies this`dataLen, mem
      ensures Valid() && ok == (old(dataLen) + |bytes| <= maxLen)
      ensures Contents() == old(Contents()) + if ok then bytes else []
      ensures old(RestZero()) ==> RestZero()
    {
      ok := dataLen + |bytes| <= maxLen;
      if !ok { return; }
      var at := dataLen;
      dataLen := dataLen + |bytes|;
      forall i | 0 <= i < |bytes| { mem[at + i] := bytes[i]; }
    }

    /** skb_trim. */
    method Trim(len: nat)
      requires Valid()
      modifies this`dataLen
      ensures Valid() && dataLen == if old(dataLen) > len then len else old(dataLen)
    {
      if dataLen > len { dataLen := len; }
    }

    /** skb_pull: false where the process would end. */
    method Pull(len: nat) returns (ok: bool)
      requires Valid()
      modifies this`dataLen, this`head
      ensures Valid() && ok == (len <= old(dataLen))
      ensures head == old(head) + (if ok then len else 0) && dataLen == old(dataLen) - (if ok then len else 0)
    {
      ok := len <= dataLen;
      if ok { dataLen, head := dataLen - len, head + len; }
    }

    /** h5_slip_msgdelim. */
    method SlipMsgDelim() returns (ok: bool)
      requires Valid() && head == 0
      modifies this`dataLen, mem
      ensures Valid() && ok == (old(dataLen) + 1 <= maxLen)
      ensures Contents() == old(Contents()) + if ok then [DELIMITER] else []
    {
      ok := Put([0xc0]);
    }

    /** h5_slip_one_byte. */
    method SlipOneByte(c: byte) returns (ok: bool)
      requires Valid() && head == 0
      modifies this`dataLen, mem
      ensures Valid() && ok == (old(dataLen) + |SlipByte(c)| <= maxLen)
      ensures Contents() == old(Contents()) + if ok then SlipByte(c) else []
    {
      match c
      case 0xc0 => ok := Put([0xdb, 0xdc]);
      case 0xdb => ok := Put([0xdb, 0xdd]);
      case 0x11 => ok := Put([0xdb, 0xde]);
      case 0x13 => ok := Put([0xdb, 0xdf]);
      case _ => ok := Put([c]);
    }
  }
}
