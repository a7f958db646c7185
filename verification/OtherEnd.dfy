/** The other end of a download: what a controller reads from the line. */
module OtherEnd {
  import opened DataIntegrity
  import opened Slip
  import opened Transport
  import opened Reception
  import opened Delivery
  import opened Runs
  import opened Retransmission
  import opened PatchPackets
  import opened Acknowledgements
  import opened CommandEvents
  import opened Download
  import opened Options

  // ----- reading commands

  datatype Cmd = Cmd(opcode: nat, params: seq<byte>)

  /** An HCI command: its opcode, low byte first, the number of bytes of parameters, and those. */
  function ReadCommand(payload: seq<byte>): Option<Cmd> {
    if |payload| >= 3 && payload[2] == |payload| - 3 then
      Some(Cmd((payload[0] as int) + 0x100 * (payload[1] as int), payload[3..]))
    else None
  }

  /** A patch packet: the parameters of command 0xfc20, an index and the data. */
  function ReadPatch(payload: seq<byte>): Option<PatchPkt> {
    match ReadCommand(payload)
    case Some(Cmd(opcode, params)) =>
      if opcode == 0xfc20 && params != [] then Some(PatchPkt(params[0], params[1..])) else None
    case None => None
  }

  /** Every one of the commands is a patch packet. */
  function ReadPatches(cmds: seq<seq<byte>>): Option<seq<PatchPkt>> {
    if cmds == [] then Some([])
    else
      match (ReadPatches(cmds[..|cmds| - 1]), ReadPatch(cmds[|cmds| - 1]))
      case (Some(front), Some(p)) => Some(front + [p])
      case _ => None
  }

  lemma PatchRead(p: PatchPkt)
    requires |p.data| <= PATCH_DATA_FIELD_MAX_SIZE
    ensures ReadPatch(PatchCommand(p)) == Some(p)
  {
    var c := PatchCommand(p);
    assert c[3..] == [p.index] + p.data && c[3..][1..] == p.data;
  }

  lemma {:induction false} PatchesRead(sent: seq<PatchPkt>)
    requires Sendable(sent)
    ensures ReadPatches(PatchCommands(sent)) == Some(sent)
  {
    if sent != [] {
      var front, p := sent[..|sent| - 1], sent[|sent| - 1];
      PatchesRead(front);
      PatchRead(p);
      hide ReadPatch, PatchCommand;
      var cmds := PatchCommands(sent);
      assert cmds[..|cmds| - 1] == PatchCommands(front) && cmds[|cmds| - 1] == PatchCommand(p);
      assert front + [p] == sent;
    }
  }

  // ----- over H5

  /** The payloads of the command packets in a log. */
  function CommandPayloads(log: seq<seq<byte>>): seq<seq<byte>> {
    if log == [] then []
    else
      (if |log[0]| >= 4 && HdrType(log[0]) == HCI_COMMAND_PKT then [log[0][4..]] else []) + CommandPayloads(log[1..])
  }

  lemma {:induction false} PacketsCarryCommands(x: Sending, txs: seq<Tx>)
    requires x.seqno < 8 && TxsOk(txs)
    ensures CommandPayloads(PacketsOn(x, txs)) == Commands(txs)
    decreases txs
  {
    if txs != [] {
      TxsFirst(txs);
      PacketsFirst(x, txs);
      OneLine(x, txs[0]);
      hide *;
      CompletedCommand(x, txs[0]);
      CommandsConcat([txs[0]], txs[1..]);
      assert [txs[0]] + txs[1..] == txs;
      PacketsCarryCommands(Next(x, txs[0]), txs[1..]);
      PayloadsConcat(Completed(x, txs[0]), PacketsOn(Next(x, txs[0]), txs[1..]));
    }
  }

  lemma PacketsFirst(x: Sending, txs: seq<Tx>)
    requires x.seqno < 8 && TxsOk(txs) && txs != []
    ensures TxOk(txs[0]) && TxsOk(txs[1..])
    ensures PacketsOn(x, txs) == Completed(x, txs[0]) + PacketsOn(Next(x, txs[0]), txs[1..])
  {}

  lemma {:induction false} PayloadsConcat(a: seq<seq<byte>>, b: seq<seq<byte>>)
    ensures CommandPayloads(a + b) == CommandPayloads(a) + CommandPayloads(b)
  {
    hide HdrType;
    if a == [] {
      assert a + b == b;
    } else {
      assert (a + b)[0] == a[0] && (a + b)[1..] == a[1..] + b;
      PayloadsConcat(a[1..], b);
    }
  }

  lemma CompletedCommand(x: Sending, tx: Tx)
    requires x.seqno < 8 && TxOk(tx)
    ensures CommandPayloads(Completed(x, tx)) == CommandIn(tx)
  {
    if tx.First? {
      var p := PacketOf(From(x.seqno), tx.order);
      BuiltPacket(From(x.seqno), tx.order);
      var none: seq<seq<byte>> := [p][1..];
      assert p[4..] == tx.order.payload && none == [] && CommandPayloads(none) == [];
      hide PacketOf, HdrType, Intact;
    }
  }

  lemma LineCarried(g: H5, s: H5, total: nat, txs: seq<Tx>, sent: seq<PatchPkt>)
    requires HostOk(g.host) && Downloading(ThreeWire, g, s, total, txs, sent)
    ensures TxsOk(txs) && s.host.wire == g.host.wire + Line(Start(g.host), txs)
    ensures Sendable(sent) && Commands(txs) == PatchCommands(sent) && SendingOk(Start(g.host))
  {
    hide Line, Commands, PatchCommands, Tracks, Ordered;
  }

  /** A receiver in step that is fed everything a download wrote so far, acknowledgements and repeats
      included, reads from its command packets exactly the patch packets sent, indices and data. */
  lemma LineRead(c: H5, g: H5, s: H5, total: nat, txs: seq<Tx>, sent: seq<PatchPkt>) returns (line: seq<byte>)
    requires Waiting(c) && !IndexAtTotal(c.host) && HostOk(g.host) && c.host.rxseqTxack == g.host.msgqTxseq
    requires Downloading(ThreeWire, g, s, total, txs, sent)
    ensures s.host.wire == g.host.wire + line
    ensures var t := Recv(c, line);
            Waiting(t) && |c.host.log| <= |t.host.log|
            && ReadPatches(CommandPayloads(t.host.log[|c.host.log|..])) == Some(sent)
  {
    hide *;
    var x := Start(g.host);
    StartNumber(g.host);
    LineCarried(g, s, total, txs, sent);
    line := Line(x, txs);
    PacketsCarryCommands(x, txs);
    PatchesRead(sent);
    WaitingHost(c);
    LineDelivered(c, x, txs);
    LogSuffix(c.host.log, PacketsOn(x, txs));
  }

  lemma StartNumber(h: Host)
    requires HostOk(h)
    ensures Start(h).seqno == h.msgqTxseq < 8
  {}

  lemma LogSuffix(a: seq<seq<byte>>, b: seq<seq<byte>>)
    ensures (a + b)[|a|..] == b
  {}

  /** From the download to the image at the other end: from a whole download a receiver in step reads the
      packets of the image, each with its index, and their data is exactly the image. */
  lemma DownloadReceived(c: H5, g: H5, s: H5, txs: seq<Tx>, sent: seq<PatchPkt>, image: seq<byte>, cmds: nat)
    returns (line: seq<byte>)
    requires Waiting(c) && !IndexAtTotal(c.host) && HostOk(g.host) && c.host.rxseqTxack == g.host.msgqTxseq
    requires image != [] && |sent| == TotalIdx(|image|, cmds, ThreeWire) + 1
    requires Downloading(ThreeWire, g, s, TotalIdx(|image|, cmds, ThreeWire), txs, sent)
    requires SendsImage(sent, image, TotalIdx(|image|, cmds, ThreeWire))
    ensures s.host.wire == g.host.wire + line
    ensures var t := Recv(c, line);
            Waiting(t) && |c.host.log| <= |t.host.log|
            && var read := ReadPatches(CommandPayloads(t.host.log[|c.host.log|..]));
               read.Some? && DataOf(read.value) == image
               && forall i :: 0 <= i < |read.value| ==>
                    read.value[i].index == IndexByte(i, TotalIdx(|image|, cmds, ThreeWire))
  {
    hide Recv, Waiting, TotalIdx, ReadPatches, CommandPayloads, DataOf, IndexByte, Downloading, Chunk;
    ImageConserved(sent, image, cmds, ThreeWire);
    line := LineRead(c, g, s, TotalIdx(|image|, cmds, ThreeWire), txs, sent);
  }

  // ----- over H4

  /** The commands in H4 packets: type 1, and a command whose third byte tells where it ends. */
  function SplitH4(bytes: seq<byte>): Option<seq<seq<byte>>>
    decreases |bytes|
  {
    if bytes == [] then Some([])
    else if |bytes| < 4 || bytes[0] != 0x01 || |bytes| < 4 + bytes[3] as int then None
    else
      var end := 4 + bytes[3] as int;
      match SplitH4(bytes[end..])
      case Some(more) => Some([bytes[1..end]] + more)
      case None => None
  }

  lemma CommandsAssoc(a: seq<seq<byte>>, b: seq<seq<byte>>, c: seq<seq<byte>>)
    ensures a + (b + c) == (a + b) + c
  {}

  lemma SplitStep(b: seq<byte>, end: nat)
    requires |b| >= 4 && b[0] == 0x01 && end == 4 + b[3] as int <= |b| && SplitH4(b[end..]).Some?
    ensures SplitH4(b) == Some([b[1..end]] + SplitH4(b[end..]).value)
  {}

  lemma {:induction false} SplitMore(bytes: seq<byte>, p: PatchPkt)
    requires SplitH4(bytes).Some? && |p.data| <= PATCH_DATA_FIELD_MAX_SIZE
    ensures SplitH4(bytes + H4Packet(p)) == Some(SplitH4(bytes).value + [PatchCommand(p)])
    decreases |bytes|
  {
    if bytes == [] {
      SplitOne(p);
      assert bytes + H4Packet(p) == H4Packet(p) && SplitH4(bytes).value + [PatchCommand(p)] == [PatchCommand(p)];
    } else {
      var n := 4 + bytes[3] as int;
      SplitStep(bytes, n);
      SplitMore(bytes[n..], p);
      hide PatchCommand, H4Packet, SplitH4;
      var all := bytes + H4Packet(p);
      assert all[0] == bytes[0] && all[3] == bytes[3];
      assert all[1..n] == bytes[1..n] && all[n..] == bytes[n..] + H4Packet(p);
      SplitStep(all, n);
      CommandsAssoc([bytes[1..n]], SplitH4(bytes[n..]).value, [PatchCommand(p)]);
    }
  }

  lemma SplitOne(p: PatchPkt)
    requires |p.data| <= PATCH_DATA_FIELD_MAX_SIZE
    ensures SplitH4(H4Packet(p)) == Some([PatchCommand(p)])
  {
    var b := H4Packet(p);
    assert b[0] == 0x01 && b[3] == |p.data| + 1 && |b| == 4 + b[3] as int;
    assert b[1..|b|] == PatchCommand(p) && b[|b|..] == [];
    SplitStep(b, |b|);
    assert [PatchCommand(p)] + [] == [PatchCommand(p)];
  }

  lemma {:induction false} H4Split(sent: seq<PatchPkt>)
    requires Sendable(sent)
    ensures SplitH4(H4Bytes(sent)) == Some(PatchCommands(sent))
  {
    if sent != [] {
      H4Split(sent[..|sent| - 1]);
      SplitMore(H4Bytes(sent[..|sent| - 1]), sent[|sent| - 1]);
    }
  }

  /** Over H4, too, what a download wrote reads as the patch packets sent. */
  lemma H4Read(g: H5, s: H5, total: nat, txs: seq<Tx>, sent: seq<PatchPkt>) returns (bytes: seq<byte>)
    requires HostOk(g.host) && Downloading(H4, g, s, total, txs, sent)
    ensures s.host.wire == g.host.wire + bytes
    ensures SplitH4(bytes).Some? && ReadPatches(SplitH4(bytes).value) == Some(sent)
  {
    bytes := H4Bytes(sent);
    H4Split(sent);
    PatchesRead(sent);
    hide SplitH4, ReadPatches, H4Bytes;
  }

  // ----- the reset

  function ResetOrder(h: Host): (o: Order)
    requires HostOk(h)
    ensures OrderOk(o)
  {
    Order(h.rxseqTxack, h.useCrc, 0x01, [0x03, 0x0c, 0x00])
  }

  lemma ResetWritten(h: Host)
    requires HostOk(h)
    ensures var t := AfterReset(h);
            t.wire == h.wire + FrameOf(h, ResetOrder(h)) && t.link == h.link && !t.cmdSuccess && t.cmdOpcode == 0x0c03
            && t.rxseqTxack == h.rxseqTxack && t.useCrc == h.useCrc && t.exited == h.exited
  {
    assert Sender(h, ResetOrder(h)) == h;
    hide Frame, PacketBytes;
  }

  /** The reset that follows a download: a receiver in step reads a command without parameters, and its
      opcode is the one that is now in flight. */
  lemma ResetRead(c: H5, h: Host) returns (frame: seq<byte>)
    requires Waiting(c) && HostOk(h) && c.host.rxseqTxack == h.msgqTxseq
    ensures AfterReset(h).wire == h.wire + frame && !AfterReset(h).cmdSuccess
    ensures var t := Recv(c, frame);
            |t.host.log| == |c.host.log| + 1 && |t.host.log[|c.host.log|]| >= 4
            && HdrType(t.host.log[|c.host.log|]) == 0x01
            && ReadCommand(t.host.log[|c.host.log|][4..]) == Some(Cmd(AfterReset(h).cmdOpcode, []))
  {
    var o := ResetOrder(h);
    frame := FrameOf(h, o);
    ResetWritten(h);
    BuiltPacket(h, o);
    BuiltFrame(h, o);
    assert InStep(c, h, [o]);
    ResetPayload(h);
    hide PacketOf, CheckOf, Frame, Recv, Complete, AfterOrder, AfterReset, HdrType, ReadCommand, Intact;
    OrderDelivered(c, h, o);
  }

  lemma ResetPayload(h: Host)
    requires HostOk(h)
    ensures ReadCommand(PacketOf(h, ResetOrder(h))[4..]) == Some(Cmd(0x0c03, []))
  {
    var payload: seq<byte> := [0x03, 0x0c, 0x00];
    assert PacketOf(h, ResetOrder(h))[4..] == payload;
    assert payload[3..] == [];
  }

  /** Once the download has ended PATCH, the answer to the reset brings the link to ACTIVE. */
  lemma ResetAnswered(s: H5, h: Host, o: Order, size: byte, credits: byte, params: seq<byte>)
    requires Waiting(s) && s.host.link == HciReset
    requires HostOk(h) && OrderOk(o) && o.kind == 0x04 && o.payload == EventPayload(size, credits, 0x0c03, 0x00, params)
    requires s.host.rxseqTxack == h.msgqTxseq
    ensures var t := Recv(s.(host := AfterReset(s.host)), FrameOf(h, o)).host; t.link == Active && t.cmdSuccess
  {
    ResetWritten(s.host);
    var s1 := s.(host := AfterReset(s.host));
    assert InStep(s1, h, [o]);
    hide AfterReset, Recv, FrameOf, EventPayload;
    EventInReset(s1, h, o, size, credits, 0x0c03, 0x00, params);
  }
}
