/** Whole runs in which the receiver's bytes and the host's own actions alternate in any way: the
    invariant, the order of reliable packets, the command counter, and link establishment. */
module HostRuns {
  import opened DataIntegrity
  import opened Slip
  import opened Transport
  import opened Reception
  import opened Runs

  /** Bytes read from the line, a packet built, a command put in flight, the start of the download
      with its last packet index, and the index of the patch packet in flight. */
  datatype Event =
    | Received(data: seq<byte>)
    | Built(payload: seq<byte>, kind: int)
    | Command(opcode: nat)
    | DownloadBegins(total: int)
    | PatchIndex(index: int)

  function React(s: H5, e: Event): (r: H5)
    requires Ok(s)
    ensures Ok(r)
  {
    if s.host.exited then s
    else
      match e
      case Received(data) => Recv(s, data)
      case Built(payload, kind) => s.(host := Prepare(s.host, payload, kind).0)
      case Command(opcode) => s.(host := s.host.(cmdOpcode := opcode, cmdSuccess := false))
      case DownloadBegins(total) => s.(host := s.host.(link := Patch, rxIndex := -1, totalNum := total))
      case PatchIndex(index) => s.(host := s.host.(txIndex := index))
  }

  function Run(s: H5, events: seq<Event>): (r: H5)
    requires Ok(s)
    ensures Ok(r)
    decreases events
  {
    if events == [] then s else Run(React(s, events[0]), events[1..])
  }

  // ----- reachable states

  lemma {:induction false} RecvKeepsInv(s: H5, data: seq<byte>)
    requires Inv(s)
    ensures Inv(Recv(s, data))
    decreases |data|, Rank(s.rx)
  {
    if data != [] && !s.host.exited {
      PassStep(s, data[0]);
      PassProgress(s, data[0]);
      var (t, consumed) := Pass(s, data[0]);
      hide *;
      StepInv(s, t);
      RecvKeepsInv(t, if consumed then data[1..] else data);
      RecvFirst(s, data);
    }
  }

  lemma StepInv(s: H5, t: H5)
    requires Step(s, t)
    ensures Inv(t)
  {}

  /** Every reachable state satisfies the receiver's invariant: buffered and expected bytes add up
      by state, message_crc is the CRC of the buffer, an accepted header is sound and in order. */
  lemma {:induction false} Reachable(s: H5, events: seq<Event>)
    requires Inv(s)
    ensures Inv(Run(s, events))
    decreases events
  {
    if events != [] {
      if events[0].Received? { RecvKeepsInv(s, events[0].data); }
      hide Recv, Prepare, CrcTracks;
      Reachable(React(s, events[0]), events[1..]);
    }
  }

  lemma InitialInv()
    ensures Inv(INITIAL)
  {}

  // ----- order over a run

  /** tx_index does not equal total_num in the download, before any event or after the last. */
  predicate OffTotal(s: H5, events: seq<Event>)
    requires Ok(s)
    decreases events
  {
    !IndexAtTotal(s.host) && (events == [] || OffTotal(React(s, events[0]), events[1..]))
  }

  lemma ReactInOrder(s0: H5, s: H5, e: Event)
    requires Inv(s) && HostOk(s0.host) && InOrder(s0, s) && !IndexAtTotal(s.host)
    ensures Inv(React(s, e)) && InOrder(s0, React(s, e))
  {
    Reachable(s, [e]);
    assert [e][1..] == [];
    if e.Received? {
      RecvInOrder'(s0, s, e.data);
    } else {
      hide Recv, Inv, InOrder, Frame, PacketBytes;
      InOrderMore(s0, s, React(s, e));
    }
  }

  lemma {:induction false} RunInOrder'(s0: H5, s: H5, events: seq<Event>)
    requires Inv(s) && HostOk(s0.host) && InOrder(s0, s) && OffTotal(s, events)
    ensures InOrder(s0, Run(s, events))
    decreases events
  {
    if events != [] {
      ReactInOrder(s0, s, events[0]);
      hide InOrder, Inv, React;
      RunInOrder'(s0, React(s, events[0]), events[1..]);
    }
  }

  /** Over every run that keeps off the guard, the reliable packets completed are numbered
      consecutively from the number first expected. */
  lemma RunInOrder(s: H5, events: seq<Event>)
    requires Inv(s) && OffTotal(s, events)
    ensures InOrder(s, Run(s, events))
  {
    InOrderNone(s);
    RunInOrder'(s, s, events);
  }

  // ----- the command counter

  function BuiltBy(s: H5, e: Event): nat {
    if !s.host.exited && e.Built? && SentReliably(e.kind) then 1 else 0
  }

  /** The reliable packets built in a run. */
  function ReliablesBuilt(s: H5, events: seq<Event>): nat
    requires Ok(s)
    decreases events
  {
    if events == [] then 0 else BuiltBy(s, events[0]) + ReliablesBuilt(React(s, events[0]), events[1..])
  }

  /** The packet in front of the buffer completes the command in flight with status 0, in INIT, and it
      is one of the five commands that are counted. */
  predicate CompletesCounted(h: Host, buf: seq<byte>, len: nat) {
    h.link == Init && |buf| >= 2 && PassedUp(HdrType(buf)) && At(buf, 4) == 0x0e && !PullFails(len)
    && CompletesCommand(h, buf) && CountedOpcode(EventOpcode(buf))
  }

  /** Whether the pass from s to t completed a packet that completes a counted command. */
  function PassCounts(s: H5, t: H5): nat {
    var n := |s.host.log|;
    if |t.host.log| == n + 1 && CompletesCounted(s.host, s.rx.buf, |t.host.log[n]|) then 1 else 0
  }

  /** The packets completed over the data that complete a counted command. */
  function CountedIn(s: H5, data: seq<byte>): nat
    requires Ok(s)
    decreases |data|, Rank(s.rx)
  {
    if data == [] || s.host.exited then 0
    else
      var (t, consumed) := Pass(s, data[0]);
      PassCounts(s, t) + CountedIn(t, if consumed then data[1..] else data)
  }

  function CountedBy(s: H5, e: Event): nat
    requires Ok(s)
  {
    if e.Received? then CountedIn(s, e.data) else 0
  }

  /** The counted commands completed in a run. */
  function Counted(s: H5, events: seq<Event>): nat
    requires Ok(s)
    decreases events
  {
    if events == [] then 0 else CountedBy(s, events[0]) + Counted(React(s, events[0]), events[1..])
  }

  predicate Numbered(s: H5, t: H5, built: nat, counted: nat) {
    t.host.msgqTxseq == (s.host.msgqTxseq + built) % 8
    && t.host.numOfCmdSent == (s.host.numOfCmdSent + counted) % 0x10000
  }

  lemma NumberedConcat(s: H5, t: H5, u: H5, b: nat, c: nat, b': nat, c': nat)
    requires Numbered(s, t, b, c) && Numbered(t, u, b', c')
    ensures Numbered(s, u, b + b', c + c')
  {
    SumMod(s.host.msgqTxseq, b, b', 8);
    SumMod(s.host.numOfCmdSent, c, c', 0x10000);
  }

  lemma SumMod(a: nat, b: nat, c: nat, m: nat)
    requires m == 8 || m == 0x10000
    ensures ((a + b) % m + c) % m == (a + (b + c)) % m
  {}

  /** A pass that completes a packet counts it exactly if it completes a counted command; no other
      pass counts. */
  lemma PassNumbers(s: H5, b: byte)
    requires Ok(s)
    ensures var t := Pass(s, b).0;
            t.host.msgqTxseq == s.host.msgqTxseq
            && t.host.numOfCmdSent
               == if PassCounts(s, t) == 1 then (s.host.numOfCmdSent + 1) % 0x10000 else s.host.numOfCmdSent
  {
    hide Unslip, CrcMatches, HdrChecksumOk, HdrCrc, HdrReliable, HdrSeq, Complete, CompletesCounted;
    if s.rx.count == 0 && s.rx.state == W4Data { CompleteCounts(s.host, s.rx.buf, |s.rx.buf|); }
    if s.rx.count == 0 && s.rx.state == W4Crc { CompleteCounts(s.host, s.rx.buf, |s.rx.buf| - 2); }
  }

  lemma CompleteCounts(h: Host, buf: seq<byte>, len: nat)
    requires 4 <= len <= |buf| && HostOk(h)
    ensures var t := Complete(h, buf, len);
            t.msgqTxseq == h.msgqTxseq && t.log == h.log + [buf[..len]]
            && t.numOfCmdSent
               == if CompletesCounted(h, buf, len) then (h.numOfCmdSent + 1) % 0x10000 else h.numOfCmdSent
  {
    NoteCounts(h, buf, len);
    var h1 := NoteNumbers(h, buf[..len]);
    DispatchCounts(h1, buf, len);
    hide NoteNumbers, Dispatch, Frame, PacketBytes, CompletesCounted;
  }

  lemma NoteCounts(h: Host, buf: seq<byte>, len: nat)
    requires 4 <= len <= |buf| && HostOk(h)
    ensures var t := NoteNumbers(h, buf[..len]);
            t.msgqTxseq == h.msgqTxseq && t.log == h.log + [buf[..len]] && t.numOfCmdSent == h.numOfCmdSent
            && CompletesCounted(t, buf, len) == CompletesCounted(h, buf, len)
  {
    hide HdrSeq, HdrAck, HdrReliable, EventOpcode, CountedOpcode, PassedUp, HdrType, At;
  }

  lemma DispatchCounts(h: Host, buf: seq<byte>, len: nat)
    requires 4 <= len <= |buf| && HostOk(h)
    ensures Dispatch(h, buf, len).numOfCmdSent
         == if CompletesCounted(h, buf, len) then (h.numOfCmdSent + 1) % 0x10000 else h.numOfCmdSent
  {
    InternalCounts(h, buf, len);
    hide HandleInternal, HdrType, EventOpcode, CountedOpcode, Learned, At;
  }

  lemma InternalCounts(h: Host, buf: seq<byte>, len: nat)
    requires HostOk(h)
    ensures HandleInternal(h, buf, len).numOfCmdSent == h.numOfCmdSent
  {
    hide Frame, PacketBytes, At;
  }

  lemma PassNumbered(s: H5, b: byte)
    requires Ok(s) && s.host.numOfCmdSent < 0x10000
    ensures var t := Pass(s, b).0; Numbered(s, t, 0, PassCounts(s, t)) && t.host.numOfCmdSent < 0x10000
  {
    hide *;
    PassNumbers(s, b);
    NumberedOne(s, Pass(s, b).0);
  }

  lemma NumberedOne(s: H5, t: H5)
    requires Ok(s) && s.host.numOfCmdSent < 0x10000 && t.host.msgqTxseq == s.host.msgqTxseq
    requires t.host.numOfCmdSent
          == if PassCounts(s, t) == 1 then (s.host.numOfCmdSent + 1) % 0x10000 else s.host.numOfCmdSent
    ensures Numbered(s, t, 0, PassCounts(s, t)) && t.host.numOfCmdSent < 0x10000
  {
    hide RxOk, CompletesCounted;
  }

  lemma NumberedNone(s: H5)
    requires Ok(s) && s.host.numOfCmdSent < 0x10000
    ensures Numbered(s, s, 0, 0)
  {
    hide RxOk;
  }

  lemma CountedFirst(s: H5, data: seq<byte>)
    requires Ok(s) && data != [] && !s.host.exited
    ensures var (t, consumed) := Pass(s, data[0]);
            CountedIn(s, data) == PassCounts(s, t) + CountedIn(t, if consumed then data[1..] else data)
  {}

  lemma {:induction false} RecvNumbers(s: H5, data: seq<byte>)
    requires Ok(s) && s.host.numOfCmdSent < 0x10000
    ensures Numbered(s, Recv(s, data), 0, CountedIn(s, data)) && Recv(s, data).host.numOfCmdSent < 0x10000
    decreases |data|, Rank(s.rx)
  {
    hide *;
    if data == [] || s.host.exited {
      NumberedNone(s);
      RecvNothing(s, data);
    } else {
      PassNumbered(s, data[0]);
      PassProgress(s, data[0]);
      var (t, consumed) := Pass(s, data[0]);
      var rest := if consumed then data[1..] else data;
      RecvNumbers(t, rest);
      NumberedConcat(s, t, Recv(t, rest), 0, PassCounts(s, t), 0, CountedIn(t, rest));
      RecvFirst(s, data);
      CountedFirst(s, data);
    }
  }

  lemma RecvNothing(s: H5, data: seq<byte>)
    requires Ok(s) && (data == [] || s.host.exited)
    ensures Recv(s, data) == s && CountedIn(s, data) == 0
  {}

  lemma HostNumbers(s: H5, e: Event)
    requires Ok(s) && !e.Received?
    ensures var t := React(s, e).host;
            t.numOfCmdSent == s.host.numOfCmdSent
            && t.msgqTxseq == if BuiltBy(s, e) == 1 then (s.host.msgqTxseq + 1) % 8 else s.host.msgqTxseq
  {
    hide RxOk, Recv, Frame, PacketBytes;
  }

  lemma NumberedHost(s: H5, t: H5, built: nat)
    requires Ok(s) && s.host.numOfCmdSent < 0x10000 && t.host.numOfCmdSent == s.host.numOfCmdSent
    requires built <= 1 && t.host.msgqTxseq == if built == 1 then (s.host.msgqTxseq + 1) % 8 else s.host.msgqTxseq
    ensures Numbered(s, t, built, 0)
  {
    hide RxOk;
  }

  lemma ReactNumbers(s: H5, e: Event)
    requires Ok(s) && s.host.numOfCmdSent < 0x10000
    ensures Numbered(s, React(s, e), BuiltBy(s, e), CountedBy(s, e))
    ensures React(s, e).host.numOfCmdSent < 0x10000
  {
    hide Recv, CountedIn, Numbered, Ok, Prepare;
    if e.Received? {
      RecvNumbers(s, e.data);
      if s.host.exited { RecvNothing(s, e.data); }
    } else {
      HostNumbers(s, e);
      NumberedHost(s, React(s, e), BuiltBy(s, e));
    }
  }

  lemma RunNothing(s: H5)
    requires Ok(s)
    ensures Run(s, []) == s && ReliablesBuilt(s, []) == 0 && Counted(s, []) == 0
  {}

  /** msgq_txseq follows the reliable packets built modulo 8, and num_of_cmd_sent the counted commands
      completed in 16 bits, over every run. */
  lemma {:induction false} RunNumbers(s: H5, events: seq<Event>)
    requires Ok(s) && s.host.numOfCmdSent < 0x10000
    ensures Numbered(s, Run(s, events), ReliablesBuilt(s, events), Counted(s, events))
    ensures Run(s, events).host.numOfCmdSent < 0x10000
    decreases events
  {
    hide *;
    if events == [] {
      NumberedNone(s);
      RunNothing(s);
    } else {
      var e, t := events[0], React(s, events[0]);
      ReactNumbers(s, e);
      RunNumbers(t, events[1..]);
      NumberedConcat(s, t, Run(t, events[1..]), BuiltBy(s, e), CountedBy(s, e),
                     ReliablesBuilt(t, events[1..]), Counted(t, events[1..]));
      RunFirst(s, events);
    }
  }

  /** When as many counted commands are completed in a run from the start as reliable packets are built,
      the counter and the sequence number agree modulo 8. */
  lemma CountersAgree(events: seq<Event>)
    requires ReliablesBuilt(INITIAL, events) == Counted(INITIAL, events)
    ensures var h := Run(INITIAL, events).host; h.msgqTxseq == h.numOfCmdSent % 8
  {
    RunNumbers(INITIAL, events);
    hide Run, ReliablesBuilt, Counted;
    ModOfMod(ReliablesBuilt(INITIAL, events));
  }

  lemma ModOfMod(n: nat)
    ensures n % 0x10000 % 8 == n % 8
  {}

  // ----- the link state

  datatype View = View(link: Link, crc: bool)

  function ViewOf(s: H5): View {
    View(s.host.link, s.host.useCrc)
  }

  /** The one step forward from a link state. */
  function NextLink(link: Link): Link {
    match link
    case Sync => Config
    case Config => Init
    case Init => Patch
    case Patch => HciReset
    case HciReset => Active
    case Active => Active
  }

  /** The link state stays or moves one step; use_crc changes only with CONFIG to INIT. */
  predicate ViewStep(v: View, w: View) {
    (w.link == v.link || w.link == NextLink(v.link))
    && (w.crc != v.crc ==> v.link == Config && w.link == Init)
  }

  function LinkRank(link: Link): nat {
    match link
    case Sync => 0
    case Config => 1
    case Init => 2
    case Patch => 3
    case HciReset => 4
    case Active => 5
  }

  /** The views after each pass over the data. */
  function RecvTrace(s: H5, data: seq<byte>): seq<View>
    requires Ok(s)
    decreases |data|, Rank(s.rx)
  {
    if data == [] || s.host.exited then []
    else
      var (t, consumed) := Pass(s, data[0]);
      [ViewOf(t)] + RecvTrace(t, if consumed then data[1..] else data)
  }

  function Reaction(s: H5, e: Event): seq<View>
    requires Ok(s)
  {
    if e.Received? then RecvTrace(s, e.data) else [ViewOf(React(s, e))]
  }

  /** The views after each pass and each action of the host. */
  function Trace(s: H5, events: seq<Event>): seq<View>
    requires Ok(s)
    decreases events
  {
    if events == [] then []
    else
      Reaction(s, events[0]) + Trace(React(s, events[0]), events[1..])
  }

  function Last(v: View, trace: seq<View>): View {
    if trace == [] then v else trace[|trace| - 1]
  }

  predicate Path(v: View, trace: seq<View>) {
    trace != [] ==> ViewStep(v, trace[0]) && forall i :: 1 <= i < |trace| ==> ViewStep(trace[i - 1], trace[i])
  }

  lemma PathConcat(v: View, a: seq<View>, b: seq<View>)
    ensures Path(v, a + b) <==> Path(v, a) && Path(Last(v, a), b)
    ensures Last(v, a + b) == Last(Last(v, a), b)
  {
    hide ViewStep;
    var c := a + b;
    if Path(v, a) && Path(Last(v, a), b) {
      forall i | 1 <= i < |c| ensures ViewStep(c[i - 1], c[i]) {
        if |a| < i { assert ViewStep(b[i - |a| - 1], b[i - |a|]); }
      }
    }
    if Path(v, c) { PathParts(v, a, b); }
  }

  lemma PathParts(v: View, a: seq<View>, b: seq<View>)
    requires Path(v, a + b)
    ensures Path(v, a) && Path(Last(v, a), b)
  {
    hide ViewStep;
    var c := a + b;
    forall i | 1 <= i < |a| ensures ViewStep(a[i - 1], a[i]) { assert ViewStep(c[i - 1], c[i]); }
    forall i | 1 <= i < |b| ensures ViewStep(b[i - 1], b[i]) { assert ViewStep(c[|a| + i - 1], c[|a| + i]); }
    if a != [] && b != [] { assert ViewStep(c[|a| - 1], c[|a|]); }
  }

  /** The download begins only from INIT, or again in PATCH. */
  predicate BeginsInTurn(s: H5, events: seq<Event>)
    requires Ok(s)
    decreases events
  {
    events == []
    || ((events[0].DownloadBegins? && !s.host.exited ==> s.host.link in {Init, Patch})
        && BeginsInTurn(React(s, events[0]), events[1..]))
  }

  /** No download begins. */
  predicate NoDownload(events: seq<Event>) {
    forall e :: e in events ==> !e.DownloadBegins?
  }

  lemma CompleteView(s: H5, len: nat)
    requires Ok(s) && 4 <= len <= |s.rx.buf|
    ensures ViewStep(ViewOf(s), ViewOf(CompletePacket(s, len)))
  {
    DispatchView(NoteNumbers(s.host, s.rx.buf[..len]), s.rx.buf, len);
    hide Dispatch, SendAck, HdrSeq, HdrAck, HdrReliable;
  }

  lemma DispatchView(h: Host, buf: seq<byte>, len: nat)
    requires 4 <= len <= |buf| && HostOk(h)
    ensures ViewStep(View(h.link, h.useCrc), View(Dispatch(h, buf, len).link, Dispatch(h, buf, len).useCrc))
  {
    FrameView(h, buf, len);
    InternalView(h, buf, len);
    hide HdrType, HciRecvFrame, HandleInternal;
  }

  lemma FrameView(h: Host, buf: seq<byte>, len: nat)
    ensures var r := HciRecvFrame(h, buf, len); ViewStep(View(h.link, h.useCrc), View(r.link, r.useCrc))
  {
    hide EventOpcode, CountedOpcode, Learned;
  }

  lemma InternalView(h: Host, buf: seq<byte>, len: nat)
    requires HostOk(h)
    ensures var r := HandleInternal(h, buf, len); ViewStep(View(h.link, h.useCrc), View(r.link, r.useCrc))
  {
    hide SendAck, At;
  }

  lemma PassView(s: H5, b: byte)
    requires Ok(s)
    ensures ViewStep(ViewOf(s), ViewOf(Pass(s, b).0))
  {
    hide Unslip, CrcMatches, HdrChecksumOk, HdrCrc, HdrReliable, HdrSeq, Complete;
    if s.rx.count == 0 && s.rx.state == W4Data { CompleteView(s, |s.rx.buf|); }
    if s.rx.count == 0 && s.rx.state == W4Crc { CompleteView(s, |s.rx.buf| - 2); }
  }

  lemma {:induction false} RecvPath(s: H5, data: seq<byte>)
    requires Ok(s)
    ensures Path(ViewOf(s), RecvTrace(s, data)) && Last(ViewOf(s), RecvTrace(s, data)) == ViewOf(Recv(s, data))
    decreases |data|, Rank(s.rx)
  {
    if data != [] && !s.host.exited {
      PassView(s, data[0]);
      PassProgress(s, data[0]);
      var (t, consumed) := Pass(s, data[0]);
      var rest := if consumed then data[1..] else data;
      hide Pass, ViewStep, Rank;
      RecvPath(t, rest);
      PathConcat(ViewOf(s), [ViewOf(t)], RecvTrace(t, rest));
    }
  }

  /** Over a run the link state only advances, one step at a time, and use_crc changes only when the
      link goes from CONFIG to INIT, exactly if the download begins from INIT only: whatever bytes
      are received keep to it. */
  lemma {:induction false} RunPath(s: H5, events: seq<Event>)
    requires Ok(s)
    ensures Path(ViewOf(s), Trace(s, events)) <==> BeginsInTurn(s, events)
    ensures Last(ViewOf(s), Trace(s, events)) == ViewOf(Run(s, events))
    decreases events
  {
    if events != [] {
      var t, first := React(s, events[0]), Reaction(s, events[0]);
      ReactPath(s, events[0]);
      hide *;
      RunPath(t, events[1..]);
      PathConcat(ViewOf(s), first, Trace(t, events[1..]));
      RunFirst(s, events);
    }
  }

  lemma RunFirst(s: H5, events: seq<Event>)
    requires Ok(s) && events != []
    ensures BeginsInTurn(s, events)
       <==> (events[0].DownloadBegins? && !s.host.exited ==> s.host.link in {Init, Patch})
            && BeginsInTurn(React(s, events[0]), events[1..])
    ensures Run(s, events) == Run(React(s, events[0]), events[1..])
    ensures Trace(s, events) == Reaction(s, events[0]) + Trace(React(s, events[0]), events[1..])
    ensures ReliablesBuilt(s, events) == BuiltBy(s, events[0]) + ReliablesBuilt(React(s, events[0]), events[1..])
    ensures Counted(s, events) == CountedBy(s, events[0]) + Counted(React(s, events[0]), events[1..])
  {}

  lemma ReactPath(s: H5, e: Event)
    requires Ok(s)
    ensures Path(ViewOf(s), Reaction(s, e)) <==> (e.DownloadBegins? && !s.host.exited ==> s.host.link in {Init, Patch})
    ensures Last(ViewOf(s), Reaction(s, e)) == ViewOf(React(s, e))
  {
    if e.Received? { RecvPath(s, e.data); }
    hide Recv;
  }

  lemma {:induction false} PathAdvances(v: View, trace: seq<View>)
    requires Path(v, trace)
    ensures var w := Last(v, trace);
            LinkRank(v.link) <= LinkRank(w.link)
            && (w.crc != v.crc ==> LinkRank(v.link) <= 1 && LinkRank(w.link) >= 2)
    decreases trace
  {
    if trace != [] {
      var rest := trace[1..];
      assert forall i :: 1 <= i < |rest| ==> ViewStep(rest[i - 1], rest[i]) by {
        forall i | 1 <= i < |rest| ensures ViewStep(rest[i - 1], rest[i]) {
          assert ViewStep(trace[i + 1 - 1], trace[i + 1]);
        }
      }
      assert rest != [] ==> ViewStep(trace[1 - 1], trace[1]);
      PathAdvances(trace[0], rest);
    }
  }

  /** No run takes the link back, and once it is initialised the use of CRCs is settled. */
  lemma LinkAdvances(s: H5, events: seq<Event>)
    requires Ok(s) && BeginsInTurn(s, events)
    ensures LinkRank(s.host.link) <= LinkRank(Run(s, events).host.link)
    ensures LinkRank(s.host.link) >= 2 ==> Run(s, events).host.useCrc == s.host.useCrc
  {
    RunPath(s, events);
    PathAdvances(ViewOf(s), Trace(s, events));
  }

  /** Until the download begins, no run goes past INIT. */
  lemma {:induction false} InitHeld(s: H5, events: seq<Event>)
    requires Ok(s) && NoDownload(events) && LinkRank(s.host.link) <= 2
    ensures BeginsInTurn(s, events) && LinkRank(Run(s, events).host.link) <= 2
    decreases events
  {
    if events != [] {
      ReactBelow(s, events[0]);
      hide React, LinkRank, Ok;
      InitHeld(React(s, events[0]), events[1..]);
    }
  }

  lemma ReactBelow(s: H5, e: Event)
    requires Ok(s) && !e.DownloadBegins? && LinkRank(s.host.link) <= 2
    ensures LinkRank(React(s, e).host.link) <= 2
  {
    if e.Received? { RecvBelow(s, e.data); }
    hide Recv, Prepare;
  }

  lemma {:induction false} RecvBelow(s: H5, data: seq<byte>)
    requires Ok(s) && LinkRank(s.host.link) <= 2
    ensures LinkRank(Recv(s, data).host.link) <= 2
    decreases |data|, Rank(s.rx)
  {
    if data != [] && !s.host.exited {
      PassBelow(s, data[0]);
      PassProgress(s, data[0]);
      var (t, consumed) := Pass(s, data[0]);
      hide *;
      RecvBelow(t, if consumed then data[1..] else data);
      RecvFirst(s, data);
    }
  }

  lemma PassBelow(s: H5, b: byte)
    requires Ok(s) && LinkRank(s.host.link) <= 2
    ensures LinkRank(Pass(s, b).0.host.link) <= 2
  {
    hide Unslip, CrcMatches, HdrChecksumOk, HdrCrc, HdrReliable, HdrSeq, Complete;
    if s.rx.count == 0 && s.rx.state == W4Data { CompleteBelow(s.host, s.rx.buf, |s.rx.buf|); }
    if s.rx.count == 0 && s.rx.state == W4Crc { CompleteBelow(s.host, s.rx.buf, |s.rx.buf| - 2); }
  }

  lemma {:induction false} BeginsConcat(s: H5, a: seq<Event>, b: seq<Event>)
    requires Ok(s)
    ensures BeginsInTurn(s, a + b) <==> BeginsInTurn(s, a) && BeginsInTurn(Run(s, a), b)
    decreases a
  {
    if a == [] {
      assert a + b == b;
    } else {
      assert (a + b)[1..] == a[1..] + b;
      hide React, Ok;
      BeginsConcat(React(s, a[0]), a[1..], b);
    }
  }

  lemma {:induction false} NoneBegins(s: H5, events: seq<Event>)
    requires Ok(s) && NoDownload(events)
    ensures BeginsInTurn(s, events)
    decreases events
  {
    if events != [] {
      hide React, Ok;
      NoneBegins(React(s, events[0]), events[1..]);
    }
  }

  /** A run that downloads once is in turn exactly if it was in INIT when the download began, or had
      ended before. */
  lemma DownloadInTurn(s: H5, before: seq<Event>, total: int, after: seq<Event>)
    requires Ok(s) && LinkRank(s.host.link) <= 2 && NoDownload(before) && NoDownload(after)
    ensures BeginsInTurn(s, before + [DownloadBegins(total)] + after)
       <==> Run(s, before).host.exited || Run(s, before).host.link == Init
  {
    var t, begin: seq<Event> := Run(s, before), [DownloadBegins(total)];
    BeginsConcat(s, before + begin, after);
    BeginsConcat(s, before, begin);
    InitHeld(s, before);
    NoneBegins(Run(s, before + begin), after);
    assert begin[1..] == [];
    hide React, Ok, Run;
  }

  /** Once in INIT, a run stays there until the download begins. */
  lemma InitStays(s: H5, events: seq<Event>)
    requires Ok(s) && s.host.link == Init && NoDownload(events)
    ensures Run(s, events).host.link == Init
  {
    InitHeld(s, events);
    LinkAdvances(s, events);
    hide Run;
  }

  lemma {:induction false} RunConcat(s: H5, a: seq<Event>, b: seq<Event>)
    requires Ok(s)
    ensures Run(s, a + b) == Run(Run(s, a), b)
    decreases a
  {
    if a == [] {
      assert a + b == b;
    } else {
      assert (a + b)[1..] == a[1..] + b;
      hide React, Ok;
      RunConcat(React(s, a[0]), a[1..], b);
    }
  }

  /** From the start: once the link has come up, with whatever follows, the one download begins in
      turn, so that the link only advances over the whole run. */
  lemma DownloadAdvances(up: seq<Event>, between: seq<Event>, total: int, after: seq<Event>)
    requires NoDownload(up) && NoDownload(between) && NoDownload(after) && Run(INITIAL, up).host.link == Init
    ensures var events := up + between + [DownloadBegins(total)] + after;
            BeginsInTurn(INITIAL, events) && Path(ViewOf(INITIAL), Trace(INITIAL, events))
  {
    RunConcat(INITIAL, up, between);
    InitStays(Run(INITIAL, up), between);
    hide Run, Path, Trace, BeginsInTurn;
    DownloadInTurn(INITIAL, up + between, total, after);
    RunPath(INITIAL, up + between + [DownloadBegins(total)] + after);
  }

  lemma CompleteBelow(h: Host, buf: seq<byte>, len: nat)
    requires 4 <= len <= |buf| && HostOk(h) && LinkRank(h.link) <= 2
    ensures LinkRank(Complete(h, buf, len).link) <= 2
  {
    DispatchBelow(NoteNumbers(h, buf[..len]), buf, len);
    hide HdrSeq, HdrAck, HdrReliable, Dispatch, SendAck;
  }

  lemma DispatchBelow(h: Host, buf: seq<byte>, len: nat)
    requires 4 <= len <= |buf| && HostOk(h) && LinkRank(h.link) <= 2
    ensures LinkRank(Dispatch(h, buf, len).link) <= 2
  {
    FrameBelow(h, buf, len);
    InternalBelow(h, buf, len);
    hide HdrType, HciRecvFrame, HandleInternal;
  }

  lemma FrameBelow(h: Host, buf: seq<byte>, len: nat)
    requires LinkRank(h.link) <= 2
    ensures HciRecvFrame(h, buf, len).link == h.link
  {
    hide EventOpcode, CountedOpcode, Learned;
  }

  lemma InternalBelow(h: Host, buf: seq<byte>, len: nat)
    requires HostOk(h) && LinkRank(h.link) <= 2
    ensures LinkRank(HandleInternal(h, buf, len).link) <= 2
  {
    hide SendAck, At;
  }
}
