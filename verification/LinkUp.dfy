/** How the link comes up: the SYNC and CONFIG exchange on the line, byte by byte. */
module LinkUp {
  import opened DataIntegrity
  import opened Slip
  import opened Transport
  import opened Reception
  import opened Delivery
  import opened Runs
  import opened HostRuns
  import opened Acknowledgements

  // ----- one packet of the exchange

  /** The bytes after the header, the check bytes included, begin with these two. */
  predicate Begins(w: seq<byte>, a: byte, b: byte)
    requires |w| >= 4
  {
    WordSize(w) <= |w| && WordSize(w) >= 6 && w[4] == a && w[5] == b
  }

  /** The packet is completed, is one of the exchange, and begins with these bytes. */
  predicate Says(h: Host, w: seq<byte>, a: byte, b: byte) {
    CarriesPacket(h, w) && HdrType(w) == 0x0f && Begins(w, a, b)
  }

  const SYNC_RESPONSE: seq<byte> := [0xc0, 0x00, 0x2f, 0x00, 0xd0, 0x02, 0x7d, 0xc0]
  const CONFIG_RESPONSE: seq<byte> := [0xc0, 0x00, 0x2f, 0x00, 0xd0, 0x04, 0x7b, 0xc0]

  /** The acknowledgement that a completed packet leaves due, if it does. */
  function AckIfDue(h: Host, w: seq<byte>, crc: bool): seq<byte>
    requires HostOk(h) && |w| >= 1
  {
    if Due(h, w) then AckBytes(NumberAfter(h, w), crc) else []
  }

  lemma HeadBytes(w: seq<byte>, a: byte, b: byte)
    requires |w| >= 4 && WordSize(w) <= |w| && b != 0
    ensures var buf := w[..WordSize(w)]; At(buf, 4) == a && At(buf, 5) == b <==> Begins(w, a, b)
  {
    hide WordSize;
    WordSizeIs(w);
  }

  lemma ThirdByte(w: seq<byte>)
    requires |w| >= 4 && WordSize(w) <= |w| && HdrLen(w) >= 3
    ensures At(w[..WordSize(w)], 6) == w[6]
  {
    WordSizeIs(w);
    hide WordSize;
  }

  lemma OthersKeep(h: Host, buf: seq<byte>, len: nat)
    requires 4 <= len <= |buf| && HostOk(h) && HdrType(buf) != 0x0f && !Established(h.link)
    ensures Dispatch(h, buf, len) == h
  {
    hide HdrType, At, HandleInternal;
  }

  // ----- SYNC

  /** In SYNC, on a packet that is noted in h. */
  lemma SyncHandled(h: Host, w: seq<byte>)
    requires HostOk(h) && h.link == Sync && |w| >= 4 && 4 + HdrLen(w) <= WordSize(w) <= |w|
    ensures var exchange := HdrType(w) == 0x0f;
            Dispatch(h, w[..WordSize(w)], 4 + HdrLen(w))
            == h.(link := if exchange && Begins(w, 0x02, 0x7d) then Config else Sync,
                  wire := h.wire + if exchange && Begins(w, 0x01, 0x7e) then SYNC_RESPONSE else [])
  {
    HeadBytes(w, 0x02, 0x7d);
    HeadBytes(w, 0x01, 0x7e);
    SameFront(w, WordSize(w));
    assert h.wire + [] == h.wire;
    hide At, HdrType, HdrLen, Begins, WordSize;
    if HdrType(w) != 0x0f { OthersKeep(h, w[..WordSize(w)], 4 + HdrLen(w)); }
  }

  /** In CONFIG, on a packet that is noted in h. */
  lemma ConfigHandled(h: Host, w: seq<byte>)
    requires HostOk(h) && h.link == Config && |w| >= 4 && 4 + HdrLen(w) <= WordSize(w) <= |w|
    ensures var t := Dispatch(h, w[..WordSize(w)], 4 + HdrLen(w));
            if HdrType(w) != 0x0f then t == h
            else if Begins(w, 0x04, 0x7b) then
              t == h.(link := Init, useCrc := if HdrLen(w) >= 3 then w[6] / 0x10 % 2 == 1 else h.useCrc)
            else if Begins(w, 0x01, 0x7e) then t == h.(wire := h.wire + SYNC_RESPONSE)
            else if Begins(w, 0x03, 0xfc) then t == h.(wire := h.wire + CONFIG_RESPONSE)
            else t == h.(wire := h.wire + AckBytes(h.rxseqTxack, h.useCrc), isTxackReq := false)
  {
    HeadBytes(w, 0x01, 0x7e);
    HeadBytes(w, 0x03, 0xfc);
    HeadBytes(w, 0x04, 0x7b);
    SameFront(w, WordSize(w));
    if HdrLen(w) >= 3 { ThirdByte(w); }
    hide At, HdrType, HdrLen, Begins, WordSize, AckBytes, Dispatch;
    var buf, len := w[..WordSize(w)], 4 + HdrLen(w);
    if HdrType(w) == 0x0f { ConfigInternal(h, buf, len); } else { OthersKeep(h, buf, len); }
  }

  lemma ConfigInternal(h: Host, buf: seq<byte>, len: nat)
    requires 4 <= len <= |buf| && HostOk(h) && h.link == Config && HdrType(buf) == 0x0f
    ensures var t, a, b := Dispatch(h, buf, len), At(buf, 4), At(buf, 5);
            if a == 0x04 && b == 0x7b then
              t == h.(link := Init, useCrc := if len > 6 then At(buf, 6) / 0x10 % 2 == 1 else h.useCrc)
            else if a == 0x01 && b == 0x7e then t == h.(wire := h.wire + SYNC_RESPONSE)
            else if a == 0x03 && b == 0xfc then t == h.(wire := h.wire + CONFIG_RESPONSE)
            else t == h.(wire := h.wire + AckBytes(h.rxseqTxack, h.useCrc), isTxackReq := false)
  {
    SendAckExactly(h);
    hide At, HdrType, SendAck, AckBytes;
  }

  /** What ends the completion of a packet. */
  lemma EndsWithAck(h: Host, n: Host, r: Host, buf: seq<byte>, len: nat)
    requires 4 <= len <= |buf| && HostOk(h) && n == NoteNumbers(h, buf[..len]) && r == Dispatch(n, buf, len)
    ensures Complete(h, buf, len)
         == if r.isTxackReq && !r.exited
            then r.(wire := r.wire + AckBytes(r.rxseqTxack, r.useCrc), isTxackReq := false) else r
  {
    SendAckExactly(r);
    hide NoteNumbers, Dispatch, AckBytes;
  }

  /** A completed packet is noted on the host. */
  lemma WordNoted(h: Host, w: seq<byte>)
    requires HostOk(h) && |w| >= 4 && 4 + HdrLen(w) <= WordSize(w) <= |w|
    ensures var n := NoteNumbers(h, w[..WordSize(w)][..4 + HdrLen(w)]);
            n.link == h.link && n.useCrc == h.useCrc && n.wire == h.wire && n.exited == h.exited && HostOk(n)
            && n.isTxackReq == Due(h, w) && n.rxseqTxack == NumberAfter(h, w)
  {
    NotedExactly(h, w[..WordSize(w)], 4 + HdrLen(w));
    SameFront(w, WordSize(w));
    hide NoteNumbers, WordSize, HdrLen, HdrSeq, HdrAck, HdrReliable;
  }

  lemma CarriedWord(h: Host, w: seq<byte>)
    requires CarriesPacket(h, w)
    ensures |w| >= 4 && 4 + HdrLen(w) <= WordSize(w) <= |w|
  {
    CarriedSize(h, w);
  }

  lemma SyncCompletes(h: Host, w: seq<byte>)
    requires HostOk(h) && h.link == Sync && !h.exited && |w| >= 4 && 4 + HdrLen(w) <= WordSize(w) <= |w|
    ensures var t := Complete(h, w[..WordSize(w)], 4 + HdrLen(w));
            var exchange := HdrType(w) == 0x0f;
            t.link == (if exchange && Begins(w, 0x02, 0x7d) then Config else Sync) && t.useCrc == h.useCrc
            && t.wire == h.wire + ((if exchange && Begins(w, 0x01, 0x7e) then SYNC_RESPONSE else [])
                                   + AckIfDue(h, w, h.useCrc))
            && !t.isTxackReq && !t.exited
  {
    hide *;
    var buf, len := w[..WordSize(w)], 4 + HdrLen(w);
    var n := NoteNumbers(h, buf[..len]);
    WordNoted(h, w);
    SyncHandled(n, w);
    EndsWithAck(h, n, Dispatch(n, buf, len), buf, len);
    var reply := if HdrType(w) == 0x0f && Begins(w, 0x01, 0x7e) then SYNC_RESPONSE else [];
    AckIfDueMeans(h, w, h.useCrc);
    Assoc(h.wire, reply, AckIfDue(h, w, h.useCrc));
    assert (h.wire + reply) + [] == h.wire + reply;
  }

  lemma AckIfDueMeans(h: Host, w: seq<byte>, crc: bool)
    requires HostOk(h) && |w| >= 1
    ensures NumberAfter(h, w) < 8
    ensures AckIfDue(h, w, crc) == if Due(h, w) then AckBytes(NumberAfter(h, w), crc) else []
  {}

  /** In SYNC, whatever comes between two delimiters: the link goes to CONFIG exactly on a completed
      packet of the exchange that begins 02 7d; one that begins 01 7e is answered by the eight bytes of the
      response; nothing else is written but an acknowledgement that is due. */
  lemma SyncExactly(s: H5, w: seq<byte>)
    requires Waiting(s) && s.host.link == Sync
    ensures var h, t := s.host, Recv(s, Frame(w)).host;
            t.link == (if Says(h, w, 0x02, 0x7d) then Config else Sync) && t.useCrc == h.useCrc && !t.exited
            && (CarriesPacket(h, w) ==>
                  !t.isTxackReq
                  && t.wire == h.wire + ((if Says(h, w, 0x01, 0x7e) then SYNC_RESPONSE else [])
                                         + AckIfDue(h, w, h.useCrc)))
            && (!CarriesPacket(h, w) ==> t.wire == h.wire)
  {
    WaitingHost(s);
    Hunting(s);
    hide *;
    WordCases(s, w);
    SaysMeans(s.host, w, 0x02, 0x7d);
    SaysMeans(s.host, w, 0x01, 0x7e);
    if |w| >= 4 { RefusedKeeps(s.host, HdrSeq(w)); }
    if CarriesPacket(s.host, w) {
      CarriedWord(s.host, w);
      SyncCompletes(s.host, w);
    }
  }

  lemma Hunting(s: H5)
    requires Waiting(s)
    ensures !s.host.exited
  {}

  lemma SaysMeans(h: Host, w: seq<byte>, a: byte, b: byte)
    ensures Says(h, w, a, b) ==> CarriesPacket(h, w)
    ensures CarriesPacket(h, w) ==> |w| >= 4 && (Says(h, w, a, b) <==> HdrType(w) == 0x0f && Begins(w, a, b))
  {
    hide Begins, HdrType, HdrLen, HdrChecksumOk, SeqExpected, HdrCrc;
  }

  lemma RefusedKeeps(h: Host, number: nat)
    ensures var t := OutOfOrder(h, number);
            t.link == h.link && t.useCrc == h.useCrc && t.wire == h.wire && t.exited == h.exited
  {}

  // ----- CONFIG

  /** The bit of the third byte that settles the use of check bytes. */
  function CrcAsked(w: seq<byte>, before: bool): bool
    requires |w| >= 4
  {
    if HdrLen(w) >= 3 && |w| >= 7 then w[6] / 0x10 % 2 == 1 else before
  }

  lemma CrcAskedMeans(w: seq<byte>, before: bool)
    requires |w| >= 4 && 4 + HdrLen(w) <= |w|
    ensures HdrLen(w) >= 3 ==> |w| >= 7 && CrcAsked(w, before) == (w[6] / 0x10 % 2 == 1)
    ensures HdrLen(w) < 3 ==> CrcAsked(w, before) == before
  {}

  lemma ConfigCompletes(h: Host, w: seq<byte>)
    requires HostOk(h) && h.link == Config && !h.exited && |w| >= 4 && 4 + HdrLen(w) <= WordSize(w) <= |w|
    ensures var t := Complete(h, w[..WordSize(w)], 4 + HdrLen(w));
            var exchange := HdrType(w) == 0x0f;
            t.link == (if exchange && Begins(w, 0x04, 0x7b) then Init else Config)
            && t.useCrc == (if exchange && Begins(w, 0x04, 0x7b) then CrcAsked(w, h.useCrc) else h.useCrc)
            && !t.isTxackReq && !t.exited
            && t.wire == h.wire + (if !exchange || Begins(w, 0x04, 0x7b) then AckIfDue(h, w, t.useCrc)
                                   else if Begins(w, 0x01, 0x7e) then SYNC_RESPONSE + AckIfDue(h, w, h.useCrc)
                                   else if Begins(w, 0x03, 0xfc) then CONFIG_RESPONSE + AckIfDue(h, w, h.useCrc)
                                   else AckBytes(NumberAfter(h, w), h.useCrc))
  {
    hide *;
    var buf, len := w[..WordSize(w)], 4 + HdrLen(w);
    var n := NoteNumbers(h, buf[..len]);
    WordNoted(h, w);
    ConfigHandled(n, w);
    var r := Dispatch(n, buf, len);
    EndsWithAck(h, n, r, buf, len);
    CrcAskedMeans(w, h.useCrc);
    AckIfDueMeans(h, w, r.useCrc);
    Assoc(h.wire, SYNC_RESPONSE, AckIfDue(h, w, h.useCrc));
    Assoc(h.wire, CONFIG_RESPONSE, AckIfDue(h, w, h.useCrc));
    assert h.wire + [] == h.wire && SYNC_RESPONSE + [] == SYNC_RESPONSE && CONFIG_RESPONSE + [] == CONFIG_RESPONSE;
  }

  /** In CONFIG, whatever comes between two delimiters: the link goes to INIT exactly on a completed
      packet of the exchange that begins 04 7b, and the third byte of its payload, if it has one, then says
      whether check bytes are used; 01 7e and 03 fc are answered by their responses, any other packet of
      the exchange by an acknowledgement. */
  lemma ConfigExactly(s: H5, w: seq<byte>)
    requires Waiting(s) && s.host.link == Config
    ensures var h, t := s.host, Recv(s, Frame(w)).host;
            t.link == (if Says(h, w, 0x04, 0x7b) then Init else Config)
            && t.useCrc == (if Says(h, w, 0x04, 0x7b) then CrcAsked(w, h.useCrc) else h.useCrc) && !t.exited
            && (CarriesPacket(h, w) ==>
                  !t.isTxackReq
                  && t.wire == h.wire
                       + (if HdrType(w) != 0x0f || Says(h, w, 0x04, 0x7b) then AckIfDue(h, w, t.useCrc)
                          else if Says(h, w, 0x01, 0x7e) then SYNC_RESPONSE + AckIfDue(h, w, h.useCrc)
                          else if Says(h, w, 0x03, 0xfc) then CONFIG_RESPONSE + AckIfDue(h, w, h.useCrc)
                          else AckBytes(NumberAfter(h, w), h.useCrc)))
            && (!CarriesPacket(h, w) ==> t.wire == h.wire)
  {
    WaitingHost(s);
    Hunting(s);
    hide *;
    WordCases(s, w);
    SaysMeans(s.host, w, 0x04, 0x7b);
    SaysMeans(s.host, w, 0x03, 0xfc);
    SaysMeans(s.host, w, 0x01, 0x7e);
    if |w| >= 4 { RefusedKeeps(s.host, HdrSeq(w)); }
    if CarriesPacket(s.host, w) {
      CarriedWord(s.host, w);
      ConfigCompletes(s.host, w);
    }
  }

  // ----- the exchange, byte by byte

  lemma {:induction false} NothingEscaped(data: seq<byte>)
    requires Plain(data)
    ensures Encode(data) == data
  {
    if data != [] {
      var n := |data| - 1;
      NothingEscaped(data[..n]);
      assert SlipByte(data[n]) == [data[n]] && data == data[..n] + [data[n]];
    }
  }

  /** The response to CONFIG with a byte of settings; its header checksum is a delimiter and arrives
      escaped. */
  function ConfigSettings(k: byte): seq<byte> {
    [0xc0, 0x00, 0x3f, 0x00, 0xdb, 0xdc, 0x04, 0x7b] + SlipByte(k) + [0xc0]
  }

  const SYNC_WORD: seq<byte> := [0x00, 0x2f, 0x00, 0xd0, 0x02, 0x7d]
  const CONFIG_WORD: seq<byte> := [0x00, 0x2f, 0x00, 0xd0, 0x04, 0x7b]

  function SettingsWord(k: byte): seq<byte> {
    [0x00, 0x3f, 0x00, 0xc0, 0x04, 0x7b, k]
  }

  predicate Plain(data: seq<byte>) {
    forall i :: 0 <= i < |data| ==> data[i] !in {0xc0, 0xdb, 0x11, 0x13}
  }

  lemma PlainFrame(data: seq<byte>)
    requires Plain(data)
    ensures Frame(data) == [0xc0] + data + [0xc0]
  {
    NothingEscaped(data);
    hide Encode;
  }

  lemma EncodeOne(b: byte)
    ensures Encode([b]) == SlipByte(b)
  {
    EncodeFirst([b]);
    assert [b][1..] == [];
    assert SlipByte(b) + Encode([]) == SlipByte(b);
  }

  /** A delimiter between plain bytes, and any byte at the end. */
  lemma DelimiterWithin(a: seq<byte>, c: seq<byte>, k: byte)
    requires Plain(a) && Plain(c)
    ensures Frame(a + [0xc0] + c + [k]) == [0xc0] + (a + [0xdb, 0xdc] + c + SlipByte(k)) + [0xc0]
  {
    NothingEscaped(a);
    NothingEscaped(c);
    EncodeOne(0xc0);
    EncodeOne(k);
    assert SlipByte(0xc0) == [0xdb, 0xdc];
    hide Encode, SlipByte;
    EncodeConcat(a, [0xc0]);
    EncodeConcat(a + [0xc0], c);
    EncodeConcat(a + [0xc0] + c, [k]);
  }

  lemma ResponseFrames(k: byte)
    ensures SYNC_RESPONSE == Frame(SYNC_WORD) && CONFIG_RESPONSE == Frame(CONFIG_WORD)
    ensures ConfigSettings(k) == Frame(SettingsWord(k))
  {
    hide Frame, Encode, SlipByte;
    var a: seq<byte>, c: seq<byte> := [0x00, 0x3f, 0x00], [0x04, 0x7b];
    PlainFrame(SYNC_WORD);
    PlainFrame(CONFIG_WORD);
    DelimiterWithin(a, c, k);
    assert SettingsWord(k) == a + [0xc0] + c + [k];
    assert ConfigSettings(k) == [0xc0] + (a + [0xdb, 0xdc] + c + SlipByte(k)) + [0xc0];
  }

  lemma WordsSay(h: Host, k: byte)
    ensures Says(h, SYNC_WORD, 0x02, 0x7d) && Says(h, CONFIG_WORD, 0x04, 0x7b)
    ensures Says(h, SettingsWord(k), 0x04, 0x7b) && CrcAsked(SettingsWord(k), false) == (k / 0x10 % 2 == 1)
  {}

  /** From SYNC, the two responses bring the link up to INIT, with the use of check bytes as the settings
      byte says. */
  lemma LinkComesUp(s: H5, k: byte)
    requires Waiting(s) && s.host.link == Sync && !s.host.useCrc
    ensures var t := Recv(s, SYNC_RESPONSE + ConfigSettings(k));
            Waiting(t) && t.host.link == Init && t.host.useCrc == (k / 0x10 % 2 == 1)
  {
    WaitingHost(s);
    WordsSay(s.host, k);
    ResponseFrames(k);
    hide *;
    var t := Recv(s, Frame(SYNC_WORD));
    SyncExactly(s, SYNC_WORD);
    StillWaiting(s, SYNC_WORD);
    WordsSay(t.host, k);
    ConfigExactly(t, SettingsWord(k));
    StillWaiting(t, SettingsWord(k));
    RecvConcat(s, SYNC_RESPONSE, ConfigSettings(k));
  }

  lemma StillWaiting(s: H5, w: seq<byte>)
    requires Waiting(s)
    ensures var t := Recv(s, Frame(w)); !t.host.exited ==> Waiting(t)
  {
    hide Recv, Frame, AfterWord;
    FrameExactly(s, w);
  }

  /** The plain response without settings does, too, and leaves check bytes off. */
  lemma LinkComesUpPlain(s: H5)
    requires Waiting(s) && s.host.link == Sync
    ensures var t := Recv(s, SYNC_RESPONSE + CONFIG_RESPONSE);
            Waiting(t) && t.host.link == Init && t.host.useCrc == s.host.useCrc
  {
    WaitingHost(s);
    WordsSay(s.host, 0);
    NoSettings(s.host.useCrc);
    ResponseFrames(0);
    hide *;
    var t := Recv(s, Frame(SYNC_WORD));
    SyncExactly(s, SYNC_WORD);
    StillWaiting(s, SYNC_WORD);
    WordsSay(t.host, 0);
    ConfigExactly(t, CONFIG_WORD);
    StillWaiting(t, CONFIG_WORD);
    RecvConcat(s, SYNC_RESPONSE, CONFIG_RESPONSE);
  }

  lemma NoSettings(before: bool)
    ensures CrcAsked(CONFIG_WORD, before) == before
  {}

  /** So there are runs from the start that reach INIT before any download, with check bytes or
      without. */
  lemma InitReached(crc: bool) returns (up: seq<Event>)
    ensures NoDownload(up) && var t := Run(INITIAL, up); Waiting(t) && t.host.link == Init && t.host.useCrc == crc
  {
    var k: byte := if crc then 0x10 else 0x00;
    var data := SYNC_RESPONSE + ConfigSettings(k);
    up := [Received(data)];
    LinkComesUp(INITIAL, k);
    assert up[1..] == [];
    hide Recv, ConfigSettings;
    assert Run(INITIAL, up) == Run(React(INITIAL, up[0]), []);
  }
}
