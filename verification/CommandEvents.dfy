/** When a command in flight is done: the events that complete it, by their bytes. */
module CommandEvents {
  import opened DataIntegrity
  import opened Slip
  import opened Transport
  import opened Reception
  import opened Delivery
  import opened Runs
  import opened HostRuns
  import opened Acknowledgements
  import opened LinkUp

  // ----- one event

  /** The bytes of a packet and its check bytes, and zeros after them. */
  function ByteAt(w: seq<byte>, i: nat): byte
    requires |w| >= 4
  {
    if i < WordSize(w) && i < |w| then w[i] else 0
  }

  /** A packet that is passed up and completes the command with this opcode: a command complete event with
      at least 5 bytes, the opcode in the fourth and fifth, low byte first, and status 0 after them. */
  predicate Reply(w: seq<byte>, opcode: nat) {
    |w| >= 4 && HdrType(w) in {0x01, 0x02, 0x03, 0x04} && HdrLen(w) >= 5 && ByteAt(w, 4) == 0x0e
    && (ByteAt(w, 7) as int) + 0x100 * ByteAt(w, 8) == opcode && ByteAt(w, 9) == 0
  }

  /** The five commands that the padding of the download counts. */
  predicate CountedCommand(opcode: nat) {
    opcode == 0xfc17 || opcode == 0x1009 || opcode == 0x1001 || opcode == 0xfc6d || opcode == 0xfc61
  }

  /** What a completed command has told: read local version, read ROM version and read chip type. */
  predicate Told(before: Info, after: Info, opcode: nat, w: seq<byte>)
    requires |w| >= 4
  {
    if opcode == 0x1001 then
      after == before.(hciVer := ByteAt(w, 10), hciRev := (ByteAt(w, 11) as int) + 0x100 * ByteAt(w, 12),
                       lmpSubver := (ByteAt(w, 16) as int) + 0x100 * ByteAt(w, 17))
    else if opcode == 0xfc6d then after == before.(eversion := ByteAt(w, 10))
    else if opcode == 0xfc61 then after == before.(chipType := ByteAt(w, 10) % 0x10, chipVer := ByteAt(w, 11) % 0x10)
    else after == before
  }

  lemma BytesAt(w: seq<byte>, i: nat)
    requires |w| >= 4 && WordSize(w) <= |w|
    ensures At(w[..WordSize(w)], i) == ByteAt(w, i)
  {
    hide WordSize;
  }

  /** What the receiver looks at is the reply. */
  lemma ReplyRead(h: Host, w: seq<byte>)
    requires |w| >= 4 && 4 + HdrLen(w) <= WordSize(w) <= |w|
    ensures var buf, len := w[..WordSize(w)], 4 + HdrLen(w);
            PassedUp(HdrType(buf)) && At(buf, 4) == 0x0e && !PullFails(len) && CompletesCommand(h, buf)
            <==> Reply(w, h.cmdOpcode)
  {
    SameFront(w, WordSize(w));
    BytesAt(w, 4);
    BytesAt(w, 7);
    BytesAt(w, 8);
    BytesAt(w, 9);
    hide At, ByteAt, HdrType, HdrLen, WordSize;
  }

  lemma ToldRead(h: Host, w: seq<byte>)
    requires |w| >= 4 && 4 + HdrLen(w) <= WordSize(w) <= |w| && Reply(w, h.cmdOpcode)
    ensures var buf := w[..WordSize(w)];
            Told(h.info, Learned(h.info, buf), h.cmdOpcode, w) && EventOpcode(buf) == h.cmdOpcode
            && (CountedOpcode(EventOpcode(buf)) <==> CountedCommand(h.cmdOpcode))
  {
    BytesAt(w, 7);
    BytesAt(w, 8);
    BytesAt(w, 10);
    BytesAt(w, 11);
    BytesAt(w, 12);
    BytesAt(w, 16);
    BytesAt(w, 17);
    hide At, ByteAt, HdrType, HdrLen, WordSize;
  }

  // ----- INIT

  /** From h to t in INIT, on a completed packet. */
  predicate InitStep(h: Host, t: Host, w: seq<byte>) {
    |w| >= 4 && t.link == Init && t.cmdOpcode == h.cmdOpcode
    && t.cmdSuccess == (h.cmdSuccess || Reply(w, h.cmdOpcode))
    && t.numOfCmdSent == (if Reply(w, h.cmdOpcode) && CountedCommand(h.cmdOpcode) then (h.numOfCmdSent + 1) % 0x10000
                          else h.numOfCmdSent)
    && (if Reply(w, h.cmdOpcode) then Told(h.info, t.info, h.cmdOpcode, w) else t.info == h.info)
  }

  lemma InitHandled(h: Host, w: seq<byte>)
    requires HostOk(h) && h.link == Init && |w| >= 4 && 4 + HdrLen(w) <= WordSize(w) <= |w|
    ensures InitStep(h, Dispatch(h, w[..WordSize(w)], 4 + HdrLen(w)), w)
  {
    var buf, len := w[..WordSize(w)], 4 + HdrLen(w);
    ReplyRead(h, w);
    if Reply(w, h.cmdOpcode) { ToldRead(h, w); }
    hide At, HdrType, HdrLen, WordSize, Reply, Told, Learned, EventOpcode, CountedOpcode, CountedCommand,
         CompletesCommand;
  }

  /** What noting a packet and acknowledging it leave alone. */
  predicate SameCommand(h: Host, t: Host) {
    t.link == h.link && t.cmdOpcode == h.cmdOpcode && t.cmdSuccess == h.cmdSuccess && t.info == h.info
    && t.numOfCmdSent == h.numOfCmdSent
  }

  lemma NotedKeeps(h: Host, packet: seq<byte>)
    requires |packet| >= 4 && HostOk(h)
    ensures SameCommand(h, NoteNumbers(h, packet))
  {
    hide HdrSeq, HdrAck, HdrReliable;
  }

  lemma CompletesAs(h: Host, n: Host, r: Host, buf: seq<byte>, len: nat)
    requires 4 <= len <= |buf| && HostOk(h) && n == NoteNumbers(h, buf[..len]) && r == Dispatch(n, buf, len)
    ensures SameCommand(h, n) && SameCommand(r, Complete(h, buf, len))
  {
    NotedKeeps(h, buf[..len]);
    EndsWithAck(h, n, r, buf, len);
    hide NoteNumbers, Dispatch, AckBytes, Complete;
  }

  lemma InitStepSame(h: Host, n: Host, r: Host, t: Host, w: seq<byte>)
    requires SameCommand(h, n) && InitStep(n, r, w) && SameCommand(r, t)
    ensures InitStep(h, t, w)
  {
    hide Reply, Told, CountedCommand;
  }

  /** In INIT, whatever comes between two delimiters: the command in flight is done exactly by a reply to
      it, which is counted exactly if it is one of the five, and tells what it has to tell. */
  lemma InitExactly(s: H5, w: seq<byte>)
    requires Waiting(s) && s.host.link == Init
    ensures var t := Recv(s, Frame(w)).host;
            if CarriesPacket(s.host, w) then InitStep(s.host, t, w) else SameCommand(s.host, t)
  {
    WaitingHost(s);
    WordCases(s, w);
    if |w| >= 4 { RefusedSame(s.host, HdrSeq(w)); }
    hide Recv, Frame, Complete, OutOfOrder, HdrSeq, HdrLen, HdrChecksumOk, SeqExpected, CarriesPacket, WordSize, RxOk,
         InitStep;
    if CarriesPacket(s.host, w) {
      CarriedWord(s.host, w);
      InitCompletes(s.host, w);
    }
  }

  lemma InitCompletes(h: Host, w: seq<byte>)
    requires HostOk(h) && h.link == Init && |w| >= 4 && 4 + HdrLen(w) <= WordSize(w) <= |w|
    ensures InitStep(h, Complete(h, w[..WordSize(w)], 4 + HdrLen(w)), w)
  {
    var buf, len := w[..WordSize(w)], 4 + HdrLen(w);
    var n := NoteNumbers(h, buf[..len]);
    NotedKeeps(h, buf[..len]);
    hide NoteNumbers, Dispatch, Complete, InitStep, WordSize, HdrLen;
    var r := Dispatch(n, buf, len);
    CompletesAs(h, n, r, buf, len);
    InitHandled(n, w);
    InitStepSame(h, n, r, Complete(h, buf, len), w);
  }

  lemma RefusedSame(h: Host, number: nat)
    ensures SameCommand(h, OutOfOrder(h, number))
  {}

  // ----- HCI_RESET

  predicate ResetStep(h: Host, t: Host, w: seq<byte>) {
    t.cmdOpcode == h.cmdOpcode && t.info == h.info && t.numOfCmdSent == h.numOfCmdSent
    && t.cmdSuccess == (h.cmdSuccess || Reply(w, h.cmdOpcode))
    && t.link == if Reply(w, h.cmdOpcode) && h.cmdOpcode == 0x0c03 then Active else HciReset
  }

  lemma ResetHandled(h: Host, w: seq<byte>)
    requires HostOk(h) && h.link == HciReset && |w| >= 4 && 4 + HdrLen(w) <= WordSize(w) <= |w|
    ensures ResetStep(h, Dispatch(h, w[..WordSize(w)], 4 + HdrLen(w)), w)
  {
    var buf, len := w[..WordSize(w)], 4 + HdrLen(w);
    ReplyRead(h, w);
    if Reply(w, h.cmdOpcode) { ToldRead(h, w); }
    hide At, HdrType, HdrLen, WordSize, Reply, Told, Learned, EventOpcode, CountedOpcode, CountedCommand;
  }

  lemma ResetCompletes(h: Host, w: seq<byte>)
    requires HostOk(h) && h.link == HciReset && |w| >= 4 && 4 + HdrLen(w) <= WordSize(w) <= |w|
    ensures ResetStep(h, Complete(h, w[..WordSize(w)], 4 + HdrLen(w)), w)
  {
    var buf, len := w[..WordSize(w)], 4 + HdrLen(w);
    var n := NoteNumbers(h, buf[..len]);
    NotedKeeps(h, buf[..len]);
    hide NoteNumbers, Dispatch, Complete, ResetStep, WordSize, HdrLen;
    var r := Dispatch(n, buf, len);
    CompletesAs(h, n, r, buf, len);
    ResetHandled(n, w);
    ResetStepSame(h, n, r, Complete(h, buf, len), w);
  }

  lemma ResetStepSame(h: Host, n: Host, r: Host, t: Host, w: seq<byte>)
    requires SameCommand(h, n) && ResetStep(n, r, w) && SameCommand(r, t)
    ensures ResetStep(h, t, w)
  {
    hide Reply;
  }

  /** In HCI_RESET, whatever comes between two delimiters: the command in flight is done exactly by a reply
      to it, and the link becomes ACTIVE exactly if that is the reset. */
  lemma ResetExactly(s: H5, w: seq<byte>)
    requires Waiting(s) && s.host.link == HciReset
    ensures var t := Recv(s, Frame(w)).host;
            if CarriesPacket(s.host, w) then ResetStep(s.host, t, w) else SameCommand(s.host, t)
  {
    WaitingHost(s);
    WordCases(s, w);
    if |w| >= 4 { RefusedSame(s.host, HdrSeq(w)); }
    hide Recv, Frame, Complete, OutOfOrder, HdrSeq, HdrLen, HdrChecksumOk, SeqExpected, CarriesPacket, WordSize, RxOk,
         ResetStep;
    if CarriesPacket(s.host, w) {
      CarriedWord(s.host, w);
      ResetCompletes(s.host, w);
    }
  }

  // ----- PATCH and ACTIVE

  /** A command complete event, whatever it completes. */
  predicate AnyEvent(w: seq<byte>) {
    |w| >= 4 && HdrType(w) in {0x01, 0x02, 0x03, 0x04} && ByteAt(w, 4) == 0x0e
  }

  lemma EventRead(h: Host, w: seq<byte>)
    requires |w| >= 4 && 4 + HdrLen(w) <= WordSize(w) <= |w|
    ensures var buf := w[..WordSize(w)];
            (PassedUp(HdrType(buf)) && At(buf, 4) == 0x0e <==> AnyEvent(w)) && At(buf, 10) == ByteAt(w, 10)
  {
    SameFront(w, WordSize(w));
    BytesAt(w, 4);
    BytesAt(w, 10);
    hide At, ByteAt, HdrType, HdrLen, WordSize;
  }

  /** From h to t in PATCH, on a completed packet: the index of a command complete event is the seventh
      byte of its payload, and bit 7 of it ends PATCH. */
  predicate PatchStep(h: Host, t: Host, w: seq<byte>) {
    |w| >= 4 && t.cmdSuccess == h.cmdSuccess && t.info == h.info && t.numOfCmdSent == h.numOfCmdSent
    && (if AnyEvent(w) then
          t.rxIndex == ByteAt(w, 10) % 0x80 && t.link == (if ByteAt(w, 10) >= 0x80 then HciReset else Patch)
        else t.rxIndex == h.rxIndex && t.link == Patch)
  }

  lemma PatchHandled(h: Host, w: seq<byte>)
    requires HostOk(h) && h.link == Patch && |w| >= 4 && 4 + HdrLen(w) <= WordSize(w) <= |w|
    ensures PatchStep(h, Dispatch(h, w[..WordSize(w)], 4 + HdrLen(w)), w)
  {
    EventRead(h, w);
    hide At, ByteAt, HdrType, HdrLen, WordSize, AnyEvent;
  }

  lemma PatchCompletes(h: Host, w: seq<byte>)
    requires HostOk(h) && h.link == Patch && |w| >= 4 && 4 + HdrLen(w) <= WordSize(w) <= |w|
    ensures PatchStep(h, Complete(h, w[..WordSize(w)], 4 + HdrLen(w)), w)
  {
    var buf, len := w[..WordSize(w)], 4 + HdrLen(w);
    var n := NoteNumbers(h, buf[..len]);
    NotedKeeps(h, buf[..len]);
    NotedIndex(h, buf[..len]);
    hide NoteNumbers, Dispatch, Complete, PatchStep, WordSize, HdrLen;
    var r := Dispatch(n, buf, len);
    CompletesAs(h, n, r, buf, len);
    CompletesIndex(h, n, r, buf, len);
    PatchHandled(n, w);
    PatchStepSame(h, n, r, Complete(h, buf, len), w);
  }

  lemma NotedIndex(h: Host, packet: seq<byte>)
    requires |packet| >= 4 && HostOk(h)
    ensures NoteNumbers(h, packet).rxIndex == h.rxIndex
  {
    hide HdrSeq, HdrAck, HdrReliable;
  }

  lemma CompletesIndex(h: Host, n: Host, r: Host, buf: seq<byte>, len: nat)
    requires 4 <= len <= |buf| && HostOk(h) && n == NoteNumbers(h, buf[..len]) && r == Dispatch(n, buf, len)
    ensures Complete(h, buf, len).rxIndex == r.rxIndex
  {
    EndsWithAck(h, n, r, buf, len);
    hide NoteNumbers, Dispatch, AckBytes, Complete;
  }

  lemma PatchStepSame(h: Host, n: Host, r: Host, t: Host, w: seq<byte>)
    requires SameCommand(h, n) && n.rxIndex == h.rxIndex && PatchStep(n, r, w) && SameCommand(r, t)
    requires t.rxIndex == r.rxIndex
    ensures PatchStep(h, t, w)
  {
    hide AnyEvent, ByteAt;
  }

  /** In PATCH, whatever comes between two delimiters: the index moves exactly on a command complete event,
      and the link exactly on one with bit 7 set. */
  lemma PatchExactly(s: H5, w: seq<byte>)
    requires Waiting(s) && s.host.link == Patch
    ensures var t := Recv(s, Frame(w)).host;
            if CarriesPacket(s.host, w) then PatchStep(s.host, t, w)
            else SameCommand(s.host, t) && t.rxIndex == s.host.rxIndex
  {
    WaitingHost(s);
    WordCases(s, w);
    if |w| >= 4 { RefusedSame(s.host, HdrSeq(w)); }
    hide Recv, Frame, Complete, HdrSeq, HdrLen, HdrChecksumOk, SeqExpected, CarriesPacket, WordSize, PatchStep,
         RxOk;
    if CarriesPacket(s.host, w) {
      CarriedWord(s.host, w);
      PatchCompletes(s.host, w);
    }
  }

  // ----- built events

  /** The payload of a command complete event: how many commands may follow and so on, the opcode, low
      byte first, the status and the parameters. */
  function EventPayload(size: byte, credits: byte, opcode: nat, status: byte, params: seq<byte>): seq<byte>
    requires opcode < 0x10000
  {
    [0x0e, size, credits, opcode % 0x100, opcode / 0x100, status] + params
  }

  function Word(h: Host, o: Order): (w: seq<byte>)
    requires HostOk(h) && OrderOk(o)
    ensures |w| >= 4
  {
    PacketOf(h, o) + CheckOf(h, o)
  }

  lemma WordBytes(s: H5, h: Host, o: Order, i: nat)
    requires Waiting(s) && HostOk(h) && OrderOk(o) && InStep(s, h, [o]) && i < |o.payload|
    ensures ByteAt(Word(h, o), 4 + i) == o.payload[i]
  {
    BuiltWord(s, h, o);
    hide CheckOf, HdrType, HdrReliable, HdrAck, HdrSeq, HdrCrc, HdrLen, WordSize, CarriesPacket, FrameOf, Frame, InStep;
    assert Word(h, o)[4 + i] == PacketOf(h, o)[4 + i] == o.payload[i];
  }

  lemma LowByteFirst(opcode: nat)
    requires opcode < 0x10000
    ensures opcode % 0x100 + 0x100 * (opcode / 0x100) == opcode
  {}

  /** A built event is a reply to the command it names, if its status is 0, and to no other. */
  lemma EventReplies(s: H5, h: Host, o: Order, size: byte, credits: byte, opcode: nat, status: byte, params: seq<byte>,
                     inFlight: nat)
    requires Waiting(s) && HostOk(h) && OrderOk(o) && InStep(s, h, [o]) && opcode < 0x10000
    requires o.kind == 0x04 && o.payload == EventPayload(size, credits, opcode, status, params)
    ensures Reply(Word(h, o), inFlight) <==> status == 0 && opcode == inFlight
  {
    WordBytes(s, h, o, 0);
    WordBytes(s, h, o, 3);
    WordBytes(s, h, o, 4);
    WordBytes(s, h, o, 5);
    LowByteFirst(opcode);
    BuiltWord(s, h, o);
    hide PacketOf, CheckOf, HdrType, HdrReliable, HdrAck, HdrSeq, HdrCrc, HdrLen, WordSize, FrameOf, Frame,
         CarriesPacket, InStep, ByteAt;
  }

  lemma OrderInInit(s: H5, h: Host, o: Order)
    requires Waiting(s) && s.host.link == Init && HostOk(h) && OrderOk(o) && InStep(s, h, [o])
    ensures InitStep(s.host, Recv(s, FrameOf(h, o)).host, Word(h, o))
  {
    BuiltWord(s, h, o);
    hide PacketOf, CheckOf, HdrType, HdrReliable, HdrAck, HdrSeq, HdrCrc, HdrLen, WordSize, FrameOf, Frame,
         CarriesPacket, InitStep, Recv;
    InitExactly(s, Word(h, o));
  }

  /** In INIT a built command complete event with status 0 for the command in flight marks it done, and
      counts it if it is one of the five; for another command, or with another status, it does
      nothing. */
  lemma EventInInit(s: H5, h: Host, o: Order, size: byte, credits: byte, opcode: nat, status: byte, params: seq<byte>)
    requires Waiting(s) && s.host.link == Init && HostOk(h) && OrderOk(o) && InStep(s, h, [o]) && opcode < 0x10000
    requires o.kind == 0x04 && o.payload == EventPayload(size, credits, opcode, status, params)
    ensures var t := Recv(s, FrameOf(h, o)).host;
            t.link == Init && t.cmdOpcode == s.host.cmdOpcode
            && if status == 0 && opcode == s.host.cmdOpcode then
                 t.cmdSuccess
                 && t.numOfCmdSent == (if CountedCommand(opcode) then (s.host.numOfCmdSent + 1) % 0x10000
                                       else s.host.numOfCmdSent)
               else SameCommand(s.host, t)
  {
    EventReplies(s, h, o, size, credits, opcode, status, params, s.host.cmdOpcode);
    OrderInInit(s, h, o);
    hide Recv, FrameOf, Word, Reply, Told, EventPayload, CountedCommand;
  }

  /** What such an event tells: versions and chip type come from its parameters. */
  lemma EventTells(s: H5, h: Host, o: Order, size: byte, credits: byte, params: seq<byte>)
    requires Waiting(s) && s.host.link == Init && HostOk(h) && OrderOk(o) && InStep(s, h, [o]) && |params| >= 8
    requires s.host.cmdOpcode in {0x1001, 0xfc6d, 0xfc61}
    requires o.kind == 0x04 && o.payload == EventPayload(size, credits, s.host.cmdOpcode, 0, params)
    ensures var t, i := Recv(s, FrameOf(h, o)).host, s.host.info;
            match s.host.cmdOpcode
            case 0x1001 => t.info == i.(hciVer := params[0], hciRev := (params[1] as int) + 0x100 * (params[2] as int),
                                        lmpSubver := (params[6] as int) + 0x100 * (params[7] as int))
            case 0xfc6d => t.info == i.(eversion := params[0])
            case _ => t.info == i.(chipType := params[0] % 0x10, chipVer := params[1] % 0x10)
  {
    EventReplies(s, h, o, size, credits, s.host.cmdOpcode, 0, params, s.host.cmdOpcode);
    OrderInInit(s, h, o);
    ParamBytes(s, h, o, size, credits, s.host.cmdOpcode, 0, params);
    hide Recv, FrameOf, Word, Reply, EventPayload, ByteAt, InStep, Waiting;
  }

  lemma ParamBytes(s: H5, h: Host, o: Order, size: byte, credits: byte, opcode: nat, status: byte, params: seq<byte>)
    requires Waiting(s) && HostOk(h) && OrderOk(o) && InStep(s, h, [o]) && opcode < 0x10000 && |params| >= 8
    requires o.payload == EventPayload(size, credits, opcode, status, params)
    ensures var w := Word(h, o);
            ByteAt(w, 10) == params[0] && ByteAt(w, 11) == params[1] && ByteAt(w, 12) == params[2]
            && ByteAt(w, 16) == params[6] && ByteAt(w, 17) == params[7]
  {
    assert forall i :: 0 <= i < |params| ==> o.payload[6 + i] == params[i];
    hide EventPayload, ByteAt, Word, InStep, Waiting;
    WordBytes(s, h, o, 6);
    WordBytes(s, h, o, 7);
    WordBytes(s, h, o, 8);
    WordBytes(s, h, o, 12);
    WordBytes(s, h, o, 13);
  }

  /** In HCI_RESET a built command complete event with status 0 for the reset, in flight, brings the link to
      ACTIVE; for any other command, or with another status, it does not. */
  lemma EventInReset(s: H5, h: Host, o: Order, size: byte, credits: byte, opcode: nat, status: byte, params: seq<byte>)
    requires Waiting(s) && s.host.link == HciReset && HostOk(h) && OrderOk(o) && InStep(s, h, [o]) && opcode < 0x10000
    requires o.kind == 0x04 && o.payload == EventPayload(size, credits, opcode, status, params)
    ensures var t := Recv(s, FrameOf(h, o)).host;
            var done := status == 0 && opcode == s.host.cmdOpcode;
            t.cmdSuccess == (s.host.cmdSuccess || done) && t.numOfCmdSent == s.host.numOfCmdSent
            && t.info == s.host.info && t.link == if done && opcode == 0x0c03 then Active else HciReset
  {
    EventReplies(s, h, o, size, credits, opcode, status, params, s.host.cmdOpcode);
    BuiltWord(s, h, o);
    hide PacketOf, CheckOf, HdrType, HdrReliable, HdrAck, HdrSeq, HdrCrc, HdrLen, WordSize, FrameOf, Frame,
         CarriesPacket, Recv, Reply, EventPayload;
    ResetExactly(s, Word(h, o));
  }

  // ----- a stream

  /** The replies to a command among the packets of a stream. */
  function Replies(h: Host, orders: seq<Order>, opcode: nat): nat
    requires HostOk(h) && OrdersOk(orders)
    decreases orders
  {
    if orders == [] then 0
    else
      OrdersFirst(orders);
      (if Reply(Word(h, orders[0]), opcode) then 1 else 0) + Replies(AfterOrder(h, orders[0]), orders[1..], opcode)
  }

  lemma RepliesFirst(h: Host, orders: seq<Order>, opcode: nat)
    requires HostOk(h) && OrdersOk(orders) && orders != [] && OrderOk(orders[0]) && OrdersOk(orders[1..])
    ensures Replies(h, orders, opcode)
         == (if Reply(Word(h, orders[0]), opcode) then 1 else 0)
            + Replies(AfterOrder(h, orders[0]), orders[1..], opcode)
  {}

  /** From h to t the command in flight had n replies. */
  predicate Replied(h: Host, t: Host, n: nat) {
    t.link == Init && t.cmdOpcode == h.cmdOpcode && t.cmdSuccess == (h.cmdSuccess || n > 0)
    && t.numOfCmdSent == if CountedCommand(h.cmdOpcode) then (h.numOfCmdSent + n) % 0x10000 else h.numOfCmdSent
  }

  lemma RepliedMore(h: Host, m: Host, t: Host, w: seq<byte>, n: nat)
    requires |w| >= 4 && InitStep(h, m, w) && Replied(m, t, n) && h.numOfCmdSent < 0x10000
    ensures Replied(h, t, (if Reply(w, h.cmdOpcode) then 1 else 0) + n)
    ensures m.numOfCmdSent < 0x10000
  {
    hide Reply, Told, CountedCommand;
    SumOfWord(h.numOfCmdSent, n);
  }

  lemma SumOfWord(a: nat, n: nat)
    ensures ((a + 1) % 0x10000 + n) % 0x10000 == (a + (1 + n)) % 0x10000
  {}

  /** Over a stream received in INIT: the command in flight is done exactly if the stream holds a reply to
      it, and the counter goes up by the number of replies if it is one of the five. */
  lemma {:induction false} StreamReplies(s: H5, h: Host, orders: seq<Order>)
    requires Waiting(s) && s.host.link == Init && HostOk(h) && OrdersOk(orders) && InStep(s, h, orders)
    requires !Recv(s, Stream(h, orders)).host.exited && s.host.numOfCmdSent < 0x10000
    ensures Replied(s.host, Recv(s, Stream(h, orders)).host, Replies(h, orders, s.host.cmdOpcode))
    decreases orders
  {
    hide *;
    if orders == [] {
      NoReplies(s, h);
    } else {
      WaitingHost(s);
      var t := FirstReceived(s, h, orders);
      OneInStep(s, h, orders);
      OrderInInit(s, h, orders[0]);
      InitStepKeeps(s.host, t.host, Word(h, orders[0]));
      StreamReplies(t, AfterOrder(h, orders[0]), orders[1..]);
      RepliesFirst(h, orders, s.host.cmdOpcode);
      RepliedMore(s.host, t.host, Recv(s, Stream(h, orders)).host, Word(h, orders[0]),
                  Replies(AfterOrder(h, orders[0]), orders[1..], s.host.cmdOpcode));
    }
  }

  lemma OneInStep(s: H5, h: Host, orders: seq<Order>)
    requires orders != [] && InStep(s, h, orders)
    ensures InStep(s, h, [orders[0]])
  {
    InStepFirst(s, h, orders);
  }

  lemma InitStepKeeps(h: Host, t: Host, w: seq<byte>)
    requires InitStep(h, t, w) && h.numOfCmdSent < 0x10000
    ensures |w| >= 4 && t.link == Init && t.cmdOpcode == h.cmdOpcode && t.numOfCmdSent < 0x10000
  {
    hide Reply, Told, CountedCommand;
  }

  lemma NoReplies(s: H5, h: Host)
    requires Waiting(s) && s.host.link == Init && HostOk(h) && s.host.numOfCmdSent < 0x10000
    ensures Replied(s.host, Recv(s, Stream(h, [])).host, Replies(h, [], s.host.cmdOpcode))
  {
    hide RxOk;
  }

  /** A command put in flight in INIT, and any stream after it: it succeeds exactly if the stream holds a
      reply to it. */
  lemma CommandSucceeds(s: H5, opcode: nat, h: Host, orders: seq<Order>)
    requires Waiting(s) && s.host.link == Init && HostOk(h) && OrdersOk(orders) && InStep(s, h, orders)
    requires s.host.numOfCmdSent < 0x10000
    requires !Run(s, [Command(opcode), Received(Stream(h, orders))]).host.exited
    ensures Run(s, [Command(opcode), Received(Stream(h, orders))]).host.cmdSuccess <==> Replies(h, orders, opcode) > 0
  {
    var s1 := React(s, Command(opcode));
    TwoEvents(s, Command(opcode), Received(Stream(h, orders)));
    assert Waiting(s1) && s1.host.link == Init && s1.host.cmdOpcode == opcode && !s1.host.cmdSuccess;
    assert InStep(s1, h, orders);
    assert React(s1, Received(Stream(h, orders))) == Recv(s1, Stream(h, orders));
    hide Run, React, Recv, Stream, Replies, InStep, OrdersOk;
    StreamReplies(s1, h, orders);
  }

  lemma TwoEvents(s: H5, d: Event, e: Event)
    requires Ok(s)
    ensures Run(s, [d, e]) == React(React(s, d), e)
  {
    hide React, Ok;
    assert [d, e][1..] == [e] && [e][1..] == [];
    assert Run(s, [d, e]) == Run(React(s, d), [e]);
    assert Run(React(s, d), [e]) == Run(React(React(s, d), e), []);
  }
}
