/**
 The video pipeline over a stream of packets, under every interleaving of completions, queueing, starts,
 stops and an unplug. Control calls happen one at a time; completions may come between the poison calls of a
 stop, each of which returns only once its URB is idle.
 */
module VideoSafety {
  import opened Bytes
  import opened Wrappers
  import opened VideoPipeline

  /** The video endpoint: its packet size and the packets the device sends, in order. */
  datatype Endpoint = Endpoint(maxp: nat, stream: nat -> seq<Byte>)
  {
    ghost predicate Valid() {
      maxp > HEADER_SIZE && forall i: nat :: |stream(i)| <= maxp
    }
  }

  datatype Transfer = Transfer(data: seq<Byte>, next: nat, overflow: bool)

  /** A bulk transfer ends when it is full or on a short packet; a packet too large for the rest overflows. */
  function Receive(ep: Endpoint, pos: nat, room: nat): (t: Transfer)
    requires ep.maxp > 0
    ensures t.next > pos
    decreases room
  {
    var p := ep.stream(pos);
    if |p| > room then Transfer([], pos + 1, true)
    else if |p| < ep.maxp || |p| == room then Transfer(p, pos + 1, false)
    else
      var rest := Receive(ep, pos + 1, room - |p|);
      Transfer(p + rest.data, rest.next, rest.overflow)
  }

  // All packets of a transfer but the last are full.
  lemma {:induction false} ReceivedPackets(ep: Endpoint, pos: nat, room: nat)
    requires ep.Valid() && !Receive(ep, pos, room).overflow
    ensures var t := Receive(ep, pos, room); var last := ep.stream(t.next - 1);
            && |last| <= |t.data| <= room && t.data[|t.data| - |last|..] == last
            && (|t.data| - |last|) % ep.maxp == 0
            && (forall k: nat :: pos <= k < t.next - 1 ==> |ep.stream(k)| == ep.maxp)
    decreases room
  {
    var p := ep.stream(pos);
    if |p| == ep.maxp && |p| < room {
      ReceivedPackets(ep, pos + 1, room - |p|);
      var rest := Receive(ep, pos + 1, room - |p|);
      var last := ep.stream(rest.next - 1);
      AddPeriod(|rest.data| - |last|, ep.maxp);
      assert (p + rest.data)[|p| + |rest.data| - |last|..] == rest.data[|rest.data| - |last|..];
    }
  }

  lemma AddPeriod(n: nat, m: nat)
    requires m > 0 && n % m == 0
    ensures (n + m) % m == 0
  {
    Quotient(n, m, n / m);
    Remainder(n + m, m, n / m + 1, 0);
  }

  lemma Quotient(n: nat, m: nat, q: nat)
    requires m > 0 && q == n / m
    ensures n == q * m + n % m
  {}

  lemma Remainder(n: nat, m: nat, q: nat, r: nat)
    requires m > 0 && r < m && n == q * m + r
    ensures n % m == r && n / m == q
  {
    Quotient(n, m, n / m);
    var d := n / m - q;
    assert d * m == r - n % m;
    Scale(d, m);
  }

  lemma Scale(d: int, m: nat)
    ensures d >= 1 ==> d * m >= m
    ensures d <= -1 ==> d * m + m <= 0
  {
    if d >= 1 {
      assert (d - 1) * m >= 0;
    } else if d <= -1 {
      assert (-d - 1) * m >= 0;
    }
  }

  // What counts as the header of a deliverable frame.
  predicate IsFrameHeader(p: seq<Byte>) {
    |p| == HEADER_SIZE && Magic(p) == HEADER_MAGIC && AnnouncedSize(p) == SIZEIMAGE
  }

  /** The data is one complete, error-free transfer of packets s.. directly behind a frame header. */
  predicate WholeFrame(ep: Endpoint, s: nat, data: seq<Byte>)
    requires ep.maxp > 0
  {
    && s > 0 && IsFrameHeader(ep.stream(s - 1))
    && var t := Receive(ep, s, SIZEIMAGE); !t.overflow && t.data == data && |data| == SIZEIMAGE
  }

  /** Inside a delivered frame no packet has a header's size, unless the packet size leaves just that remainder. */
  lemma NoHeaderInside(ep: Endpoint, s: nat, data: seq<Byte>, k: nat)
    requires ep.Valid() && WholeFrame(ep, s, data) && s <= k < Receive(ep, s, SIZEIMAGE).next
    ensures |ep.stream(k)| == HEADER_SIZE ==> SIZEIMAGE % ep.maxp == HEADER_SIZE
  {
    ReceivedPackets(ep, s, SIZEIMAGE);
    var t := Receive(ep, s, SIZEIMAGE);
    var last := ep.stream(t.next - 1);
    if |last| == HEADER_SIZE {
      var q := (SIZEIMAGE - |last|) / ep.maxp;
      Quotient(SIZEIMAGE - |last|, ep.maxp, q);
      Remainder(SIZEIMAGE, ep.maxp, q, |last|);
    }
  }

  /**
   Exactly when: the last packet of a frame has a header's size if and only if the packet size leaves twenty
   bytes over. For the bulk packet sizes, powers of two up to 1024, it is 0 or 256.
   */
  lemma HeaderInsideIff(ep: Endpoint, s: nat, data: seq<Byte>)
    requires ep.Valid() && WholeFrame(ep, s, data)
    ensures (exists k: nat :: s <= k < Receive(ep, s, SIZEIMAGE).next && |ep.stream(k)| == HEADER_SIZE)
            <==> SIZEIMAGE % ep.maxp == HEADER_SIZE
    ensures ep.maxp in {32, 64, 128, 256, 512, 1024} ==> SIZEIMAGE % ep.maxp != HEADER_SIZE
  {
    hide IsFrameHeader;
    if ep.maxp in {32, 64, 128, 256, 512, 1024} {
      PowersOfTwo(ep.maxp);
    }
    if k: nat :| s <= k < Receive(ep, s, SIZEIMAGE).next && |ep.stream(k)| == HEADER_SIZE {
      NoHeaderInside(ep, s, data, k);
    }
    if SIZEIMAGE % ep.maxp == HEADER_SIZE {
      LastIsRemainder(ep, s, data);
    }
  }

  lemma LastIsRemainder(ep: Endpoint, s: nat, data: seq<Byte>)
    requires ep.Valid() && WholeFrame(ep, s, data) && SIZEIMAGE % ep.maxp == HEADER_SIZE
    ensures |ep.stream(Receive(ep, s, SIZEIMAGE).next - 1)| == HEADER_SIZE
  {
    hide IsFrameHeader;
    ReceivedPackets(ep, s, SIZEIMAGE);
    var n := |ep.stream(Receive(ep, s, SIZEIMAGE).next - 1)|;
    hide Receive;
    Congruent(SIZEIMAGE, ep.maxp, n);
  }

  lemma Congruent(total: nat, m: nat, n: nat)
    requires n <= m && n <= total && m > 0 && (total - n) % m == 0 && total % m != 0
    ensures total % m == n
  {
    var q := (total - n) / m;
    Quotient(total - n, m, q);
    if n < m {
      Remainder(total, m, q, n);
    } else {
      Remainder(total, m, q + 1, 0);
    }
  }

  lemma PowersOfTwo(m: nat)
    requires m in {32, 64, 128, 256, 512, 1024}
    ensures SIZEIMAGE % m != HEADER_SIZE
  {}

  // ---- the system

  /** Where stop_streaming is: before or after it, or waiting for one of its poison calls. */
  datatype Streaming = Stopped | Running | Stopping(waiting: Which)

  /** Where the disconnect is. Nothing orders its poison calls against those of stop_streaming. */
  datatype Plug = Plugged | Unplugging(waiting: Which) | Gone

  datatype System = System(v: Video, streaming: Streaming, plug: Plug, pos: nat, queued: seq<Buffer>, session: nat)

  // Errors and cancellations may lose any number of packets.
  datatype Outcome = Killed(lost: nat) | Errored(lost: nat) | Good

  datatype Event =
    | Completed(which: Which, outcome: Outcome, accepted: bool)
    | BufferQueued(buffer: Buffer)
    | StartCalled(pipelineOk: bool, accepted: bool)
    | StopCalled
    | UnplugCalled
    | StopPoisoned    // a poison call of stop_streaming returns
    | UnplugPoisoned  // one of the disconnect does

  const IDLE_URB := Urb(1, None)

  const INITIAL :=
    System(Video.Video(IDLE_URB, IDLE_URB, IDLE_URB, [], None, 0, 0, 0, false, []), Stopped, Plugged, 0, [], 0)

  predicate Enabled(ep: Endpoint, s: System, e: Event)
    requires ep.maxp > 0
  {
    match e
    case Completed(w, out, _) =>
      && s.v.Get(w).inFlight.Some?
      && (out.Good? ==> !Receive(ep, s.pos, s.v.Get(w).inFlight.value).overflow)
    case BufferQueued(_) => true
    case StartCalled(_, _) => s.streaming.Stopped? && !s.v.disconnected
    case StopCalled => s.streaming.Running?
    case UnplugCalled => s.plug.Plugged?
    case StopPoisoned => s.streaming.Stopping? && s.v.Get(s.streaming.waiting).inFlight == None
    case UnplugPoisoned => s.plug.Unplugging? && s.v.Get(s.plug.waiting).inFlight == None
  }

  function AfterCompletion(ep: Endpoint, s: System, w: Which, out: Outcome, accepted: bool): System
    requires ep.maxp > 0 && s.v.Get(w).inFlight.Some?
  {
    match out
    case Killed(lost) => s.(v := Complete(s.v, ep.maxp, w, Dead, accepted), pos := s.pos + lost)
    case Errored(lost) => s.(v := Complete(s.v, ep.maxp, w, Failed, accepted), pos := s.pos + lost)
    case Good =>
      var t := Receive(ep, s.pos, s.v.Get(w).inFlight.value);
      s.(v := Complete(s.v, ep.maxp, w, Received(t.data), accepted), pos := t.next)
  }

  // The next poison call of stop_streaming, or its end.
  function AfterStopPoison(s: System): System
    requires s.streaming.Stopping?
  {
    match s.streaming.waiting
    case Header => s.(v := Poison(s.v, Which.Frame), streaming := Stopping(Which.Frame))
    case Frame => s.(v := Poison(s.v, Drain), streaming := Stopping(Drain))
    case Drain => s.(v := ReleaseBuffers(s.v), streaming := Stopped)
  }

  // The next poison call of the disconnect, or its end.
  function AfterUnplugPoison(s: System): System
    requires s.plug.Unplugging?
  {
    match s.plug.waiting
    case Header => s.(v := Poison(s.v, Which.Frame), plug := Unplugging(Which.Frame))
    case Frame => s.(v := Poison(s.v, Drain), plug := Unplugging(Drain))
    case Drain => s.(v := s.v.(disconnected := true), plug := Gone)
  }

  function Step(ep: Endpoint, s: System, e: Event): System
    requires ep.maxp > 0 && Enabled(ep, s, e)
  {
    match e
    case Completed(w, out, accepted) => AfterCompletion(ep, s, w, out, accepted)
    case BufferQueued(b) => s.(v := Queue(s.v, b), queued := s.queued + [b])
    case StartCalled(pipelineOk, accepted) =>
      var v := StartStreaming(s.v, ep.maxp, pipelineOk, accepted);
      s.(v := v, streaming := if v.hdr.inFlight.Some? then Running else Stopped,
          session := if pipelineOk then |v.returned| else s.session)
    case StopCalled =>
      if s.v.disconnected then s.(v := ReleaseBuffers(s.v), streaming := Stopped)
      else s.(v := Poison(s.v, Header), streaming := Stopping(Header))
    case UnplugCalled => s.(v := Poison(s.v, Header), plug := Unplugging(Header))
    case StopPoisoned => AfterStopPoison(s)
    case UnplugPoisoned => AfterUnplugPoison(s)
  }

  predicate Legal(ep: Endpoint, s: System, es: seq<Event>)
    requires ep.maxp > 0
    decreases |es|
  {
    es == [] || (Enabled(ep, s, es[0]) && Legal(ep, Step(ep, s, es[0]), es[1..]))
  }

  function After(ep: Endpoint, s: System, es: seq<Event>): System
    requires ep.maxp > 0 && Legal(ep, s, es)
    decreases |es|
  {
    if es == [] then s else After(ep, Step(ep, s, es[0]), es[1..])
  }

  // ---- what every step keeps

  // A frame transfer has a buffer to go to and starts right behind its header.
  predicate FrameReady(ep: Endpoint, s: System) {
    s.v.frame.inFlight.Some? ==>
      && s.v.frame.inFlight.value == SIZEIMAGE && s.v.curBuf.Some?
      && s.pos > 0 && IsFrameHeader(ep.stream(s.pos - 1))
  }

  predicate Lengths(ep: Endpoint, v: Video) {
    && (v.hdr.inFlight.Some? ==> v.hdr.inFlight.value == ep.maxp)
    && (v.drain.inFlight.Some? ==> v.drain.inFlight.value == DrainLength(v.drainRemaining))
  }

  predicate PoisonIs(v: Video, h: nat, f: nat, d: nat) {
    v.hdr.poison == h && v.frame.poison == f && v.drain.poison == d
  }

  // Whether a sequence of poison calls that waits for `waiting` has made the one for w.
  predicate Reached(w: Which, waiting: Which) {
    w == Header || w == waiting || waiting == Drain
  }

  // The poison counts that stop_streaming, or having been stopped, accounts for.
  function StopCount(s: Streaming, w: Which): nat {
    match s
    case Stopped => 1
    case Running => 0
    case Stopping(waiting) => if Reached(w, waiting) then 1 else 0
  }

  function UnplugCount(p: Plug, w: Which): nat {
    match p
    case Plugged => 0
    case Unplugging(waiting) => if Reached(w, waiting) then 1 else 0
    case Gone => 1
  }

  // Some poison call for w has returned.
  predicate Silenced(s: System, w: Which) {
    || s.streaming.Stopped? || s.plug.Gone?
    || (s.streaming.Stopping? && Reached(w, s.streaming.waiting) && w != s.streaming.waiting)
    || (s.plug.Unplugging? && Reached(w, s.plug.waiting) && w != s.plug.waiting)
  }

  predicate GuardedUrb(s: System, w: Which) {
    var u := s.v.Get(w);
    && (if s.plug.Gone? then u.poison > 0 else u.poison == StopCount(s.streaming, w) + UnplugCount(s.plug, w))
    && (Silenced(s, w) ==> u.inFlight == None)
  }

  /** Poison counts, and what can still be in flight, at every point of a stop and an unplug. */
  predicate Guarded(s: System) {
    s.v.disconnected == s.plug.Gone? && GuardedUrb(s, Header) && GuardedUrb(s, Which.Frame) && GuardedUrb(s, Drain)
  }

  /** Every queued buffer is returned, current, or waiting, in queue order. */
  predicate Conserved(s: System) {
    Kept(s.v, s.queued)
  }

  // How many of these were completed frames.
  function DoneCount(rs: seq<Return>): nat {
    if rs == [] then 0 else DoneCount(rs[..|rs| - 1]) + if rs[|rs| - 1].state == DONE then 1 else 0
  }

  /** Frames of one session are numbered 0, 1, 2, ... in 32 bits: those in the log from `first` on, `next` to come. */
  predicate Numbered(rs: seq<Return>, first: nat, next: uint32) {
    && first <= |rs|
    && next == DoneCount(rs[first..]) % 0x1_0000_0000
    && (forall i :: first <= i < |rs| && rs[i].state == DONE ==>
          rs[i].sequence == DoneCount(rs[first..i]) % 0x1_0000_0000)
  }

  ghost predicate AllWhole(ep: Endpoint, rs: seq<Return>)
    requires ep.maxp > 0
  {
    forall r :: r in rs && r.state == DONE ==> exists p: nat :: WholeFrame(ep, p, r.data)
  }

  // A buffer stays current only while its frame transfer runs or after that was cancelled.
  predicate BufferHeld(s: System) {
    && (s.v.curBuf.Some? ==> s.v.hdr.inFlight == None && s.v.drain.inFlight == None)
    && (s.streaming.Stopped? ==> s.v.curBuf == None)
  }

  ghost predicate Ledger(ep: Endpoint, s: System)
    requires ep.maxp > 0
  {
    Conserved(s) && Numbered(s.v.returned, s.session, s.v.sequence) && AllWhole(ep, s.v.returned)
  }

  ghost predicate Invariant(ep: Endpoint, s: System)
    requires ep.maxp > 0
  {
    && AtMostOneInFlight(s.v) && FrameReady(ep, s) && Lengths(ep, s.v)
    && Guarded(s) && BufferHeld(s) && Ledger(ep, s)
  }

  // ---- the parts, one by one

  lemma DoneCountAppend(rs: seq<Return>, r: Return)
    ensures DoneCount(rs + [r]) == DoneCount(rs) + if r.state == DONE then 1 else 0
  {
    assert (rs + [r])[..|rs|] == rs;
  }

  lemma {:induction false} DoneCountConcat(a: seq<Return>, b: seq<Return>)
    requires forall r :: r in b ==> r.state != DONE
    ensures DoneCount(a + b) == DoneCount(a)
    decreases |b|
  {
    if b == [] {
      assert a + b == a;
    } else {
      assert (a + b)[..|a + b| - 1] == a + b[..|b| - 1];
      DoneCountConcat(a, b[..|b| - 1]);
    }
  }

  lemma LogUnfinished(rs: seq<Return>, more: seq<Return>, first: nat, next: uint32)
    requires Numbered(rs, first, next)
    requires forall r :: r in more ==> r.state != DONE
    ensures Numbered(rs + more, first, next)
  {
    assert (rs + more)[first..] == rs[first..] + more;
    DoneCountConcat(rs[first..], more);
    forall i | first <= i < |rs + more| && (rs + more)[i].state == DONE
      ensures (rs + more)[i].sequence == DoneCount((rs + more)[first..i]) % 0x1_0000_0000
    {
      assert (rs + more)[i] in rs + more;
      assert i < |rs|;
      assert (rs + more)[first..i] == rs[first..i];
    }
  }

  lemma LogDone(rs: seq<Return>, r: Return, first: nat, next: uint32)
    requires Numbered(rs, first, next) && r.state == DONE && r.sequence == next
    ensures Numbered(rs + [r], first, (next + 1) % 0x1_0000_0000)
  {
    hide DoneCount;
    var log, n := rs + [r], |rs|;
    assert log[first..] == rs[first..] + [r];
    DoneCountAppend(rs[first..], r);
    NextCount(DoneCount(rs[first..]));
    forall i | first <= i < |log| && log[i].state == DONE
      ensures log[i].sequence == DoneCount(log[first..i]) % 0x1_0000_0000
    {
      EarlierLog(rs, r, first, i);
    }
  }

  lemma EarlierLog(rs: seq<Return>, r: Return, first: nat, i: nat)
    requires first <= i <= |rs|
    ensures (rs + [r])[first..i] == if i < |rs| then rs[first..i] else rs[first..]
    ensures (rs + [r])[i] == if i < |rs| then rs[i] else r
  {}

  lemma NextCount(n: nat)
    ensures (n % 0x1_0000_0000 + 1) % 0x1_0000_0000 == (n + 1) % 0x1_0000_0000
  {}

  // ---- completions: what is in flight

  // A handler starts at most one transfer, on a URB that is not poisoned, and poisons nothing.
  predicate Restarts(v: Video, v': Video) {
    && AtMostOneInFlight(v') && v'.disconnected == v.disconnected
    && PoisonIs(v', v.hdr.poison, v.frame.poison, v.drain.poison)
    && (v'.hdr.inFlight.Some? ==> v.hdr.poison == 0)
    && (v'.frame.inFlight.Some? ==> v.frame.poison == 0)
    && (v'.drain.inFlight.Some? ==> v.drain.poison == 0)
  }

  lemma HeaderRestarts(ep: Endpoint, v: Video, header: seq<Byte>, accepted: bool)
    requires NoneInFlight(v) && |header| == HEADER_SIZE
    ensures var v' := HandleHeader(v, header, accepted);
            && Restarts(v, v') && Lengths(ep, v')
            && (v'.frame.inFlight.Some? ==>
                  v'.frame.inFlight.value == SIZEIMAGE && v'.curBuf.Some? && IsFrameHeader(header))
            && (v.curBuf == None && v'.curBuf.Some? ==> v'.frame.inFlight.Some?)
  {}

  // The header a handler sees is the packet just before the next one.
  lemma HeaderIsLastPacket(ep: Endpoint, pos: nat, room: nat)
    requires ep.Valid()
    requires var t := Receive(ep, pos, room);
             !t.overflow && |t.data| >= HEADER_SIZE && (|t.data| - HEADER_SIZE) % ep.maxp == 0
    ensures var t := Receive(ep, pos, room); t.data[|t.data| - HEADER_SIZE..] == ep.stream(t.next - 1)
  {
    ReceivedPackets(ep, pos, room);
    var t := Receive(ep, pos, room);
    var last := ep.stream(t.next - 1);
    var a, b := (|t.data| - |last|) / ep.maxp, (|t.data| - HEADER_SIZE) / ep.maxp;
    Quotient(|t.data| - |last|, ep.maxp, a);
    Quotient(|t.data| - HEADER_SIZE, ep.maxp, b);
    Scale(a - b, ep.maxp);
    assert (a - b) * ep.maxp == HEADER_SIZE - |last|;
  }

  // What the restart of a transfer depends on.
  predicate Transferring(ep: Endpoint, s: System) {
    AtMostOneInFlight(s.v) && Lengths(ep, s.v) && FrameReady(ep, s)
  }

  // What an idle driver is left with by one packet that a handler takes for a header.
  lemma HeaderAtEndRestarts(ep: Endpoint, s: System, idle: Video, room: nat, accepted: bool)
    requires ep.Valid() && NoneInFlight(idle)
    requires var t := Receive(ep, s.pos, room);
             !t.overflow && |t.data| >= HEADER_SIZE && (|t.data| - HEADER_SIZE) % ep.maxp == 0
    ensures var t := Receive(ep, s.pos, room);
            var v := HandleHeader(idle, t.data[|t.data| - HEADER_SIZE..], accepted);
            Restarts(idle, v) && Lengths(ep, v) && FrameReady(ep, s.(v := v, pos := t.next))
  {
    hide Receive, HandleHeader, IsFrameHeader;
    var t := Receive(ep, s.pos, room);
    HeaderRestarts(ep, idle, t.data[|t.data| - HEADER_SIZE..], accepted);
    HeaderIsLastPacket(ep, s.pos, room);
  }

  lemma CompletionRestarts(ep: Endpoint, s: System, w: Which, out: Outcome, accepted: bool)
    requires ep.Valid() && Transferring(ep, s) && Enabled(ep, s, Completed(w, out, accepted))
    ensures var s' := AfterCompletion(ep, s, w, out, accepted);
            Restarts(s.v, s'.v) && Lengths(ep, s'.v) && FrameReady(ep, s')
  {
    hide Receive, HandleHeader, IsFrameHeader;
    var idle := s.v.Set(w, s.v.Get(w).(inFlight := None));
    assert NoneInFlight(idle);
    if out.Good? {
      GoodRestarts(ep, s, idle, w, accepted);
    }
  }

  lemma GoodRestarts(ep: Endpoint, s: System, idle: Video, w: Which, accepted: bool)
    requires ep.Valid() && NoneInFlight(idle) && s.v.Get(w).inFlight.Some?
    requires idle == s.v.Set(w, s.v.Get(w).(inFlight := None)) && Enabled(ep, s, Completed(w, Good, accepted))
    ensures var s' := AfterCompletion(ep, s, w, Good, accepted);
            Restarts(s.v, s'.v) && Lengths(ep, s'.v) && FrameReady(ep, s')
  {
    hide Receive, HandleHeader, IsFrameHeader;
    var room := s.v.Get(w).inFlight.value;
    var t := Receive(ep, s.pos, room);
    match w
    case Header =>
      if |t.data| == HEADER_SIZE {
        HeaderAtEndRestarts(ep, s, idle, room, accepted);
        assert t.data[0..] == t.data;
      }
    case Frame =>
    case Drain =>
      if s.v.drainRemaining == 0 && |t.data| >= HEADER_SIZE && (|t.data| - HEADER_SIZE) % ep.maxp == 0 {
        HeaderAtEndRestarts(ep, s, idle, room, accepted);
      }
  }

  // ---- completions: where the buffers are

  // Nothing returned and nothing moved.
  predicate SameBuffers(v: Video, v': Video) {
    v'.returned == v.returned && v'.bufList == v.bufList && v'.curBuf == v.curBuf && v'.sequence == v.sequence
  }

  lemma HeaderLedger(ep: Endpoint, s: System, header: seq<Byte>, accepted: bool)
    requires ep.maxp > 0 && |header| == HEADER_SIZE && Ledger(ep, s) && s.v.curBuf == None
    ensures Ledger(ep, s.(v := HandleHeader(s.v, header, accepted)))
  {
    hide Magic, AnnouncedSize, Numbered, WholeFrame, Kept;
    HeaderKeeps(s.v, s.queued, header, accepted);
    var v' := HandleHeader(s.v, header, accepted);
    if v'.returned != s.v.returned {
      var r := Return(s.v.bufList[0], ERROR, 0, []);
      assert v'.returned == s.v.returned + [r];
      LogUnfinished(s.v.returned, [r], s.session, s.v.sequence);
    }
  }

  lemma FrameLedger(ep: Endpoint, s: System, out: Outcome, accepted: bool)
    requires ep.Valid() && Invariant(ep, s) && Enabled(ep, s, Completed(Which.Frame, out, accepted))
    ensures Ledger(ep, AfterCompletion(ep, s, Which.Frame, out, accepted))
  {
    hide Numbered, Guarded, Lengths, IsFrameHeader;
    var s' := AfterCompletion(ep, s, Which.Frame, out, accepted);
    if !out.Killed? {
      var t := Receive(ep, s.pos, SIZEIMAGE);
      var b := s.v.curBuf.value;
      var r := if out.Good? && |t.data| == SIZEIMAGE then Return(b, DONE, s.v.sequence, t.data)
               else Return(b, ERROR, 0, []);
      assert s'.v.returned == s.v.returned + [r];
      BuffersConcat(s.v.returned, [r]);
      assert Buffers([r]) == [b];
      if r.state == DONE {
        LogDone(s.v.returned, r, s.session, s.v.sequence);
        assert WholeFrame(ep, s.pos, r.data);
      } else {
        LogUnfinished(s.v.returned, [r], s.session, s.v.sequence);
      }
    }
  }

  lemma CompletionLedger(ep: Endpoint, s: System, w: Which, out: Outcome, accepted: bool)
    requires ep.Valid() && Invariant(ep, s) && Enabled(ep, s, Completed(w, out, accepted))
    ensures Ledger(ep, AfterCompletion(ep, s, w, out, accepted))
  {
    hide Numbered, Conserved, AllWhole, Receive, HandleHeader, Guarded, IsFrameHeader;
    if w == Which.Frame {
      FrameLedger(ep, s, out, accepted);
    } else {
      var idle := s.(v := s.v.Set(w, s.v.Get(w).(inFlight := None)));
      Moved(ep, s, idle);
      var s' := AfterCompletion(ep, s, w, out, accepted);
      if out.Good? {
        var data := Receive(ep, s.pos, s.v.Get(w).inFlight.value).data;
        if w == Header && |data| == HEADER_SIZE {
          HeaderLedger(ep, idle, data, accepted);
          Moved(ep, idle.(v := HandleHeader(idle.v, data, accepted)), s');
        } else if w == Drain && s.v.drainRemaining == 0 && |data| >= HEADER_SIZE
                  && (|data| - HEADER_SIZE) % ep.maxp == 0 {
          HeaderLedger(ep, idle, data[|data| - HEADER_SIZE..], accepted);
          Moved(ep, idle.(v := HandleHeader(idle.v, data[|data| - HEADER_SIZE..], accepted)), s');
        } else {
          Moved(ep, idle, s');
        }
      } else {
        Moved(ep, idle, s');
      }
    }
  }

  lemma Moved(ep: Endpoint, s: System, s': System)
    requires ep.maxp > 0 && Ledger(ep, s) && SameBuffers(s.v, s'.v) && s'.queued == s.queued && s'.session == s.session
    ensures Ledger(ep, s')
  {}

  // ---- every event keeps the invariant

  lemma HeldAfterCompletion(ep: Endpoint, s: System, w: Which, out: Outcome, accepted: bool)
    requires ep.Valid() && Invariant(ep, s) && Enabled(ep, s, Completed(w, out, accepted))
    ensures BufferHeld(AfterCompletion(ep, s, w, out, accepted))
  {
    hide Receive, IsFrameHeader, Ledger, HandleHeader;
    if out.Good? {
      var idle := s.v.Set(w, s.v.Get(w).(inFlight := None));
      var data := Receive(ep, s.pos, s.v.Get(w).inFlight.value).data;
      if w == Header && |data| == HEADER_SIZE {
        HeaderRestarts(ep, idle, data, accepted);
      } else if w == Drain && |data| >= HEADER_SIZE {
        HeaderRestarts(ep, idle, data[|data| - HEADER_SIZE..], accepted);
      }
    }
  }

  lemma CompletionKeeps(ep: Endpoint, s: System, w: Which, out: Outcome, accepted: bool)
    requires ep.Valid() && Invariant(ep, s) && Enabled(ep, s, Completed(w, out, accepted))
    ensures Invariant(ep, AfterCompletion(ep, s, w, out, accepted))
  {
    hide AfterCompletion, FrameReady, Lengths, Ledger, BufferHeld;
    CompletionRestarts(ep, s, w, out, accepted);
    CompletionLedger(ep, s, w, out, accepted);
    HeldAfterCompletion(ep, s, w, out, accepted);
    SameControl(ep, s, w, out, accepted);
  }

  lemma SameControl(ep: Endpoint, s: System, w: Which, out: Outcome, accepted: bool)
    requires ep.maxp > 0 && Enabled(ep, s, Completed(w, out, accepted))
    ensures var s' := AfterCompletion(ep, s, w, out, accepted); s'.streaming == s.streaming && s'.plug == s.plug
  {}

  lemma RestLedger(ep: Endpoint, s: System, st: BufferState)
    requires ep.maxp > 0 && Ledger(ep, s) && st != DONE && s.v.curBuf == None
    ensures Ledger(ep, s.(v := ReturnAll(s.v, st)))
    ensures Buffers(ReturnAll(s.v, st).returned) == s.queued
  {
    hide Numbered, WholeFrame;
    var more := Returns(s.v.bufList, st);
    LogUnfinished(s.v.returned, more, s.session, s.v.sequence);
    BuffersConcat(s.v.returned, more);
    assert Buffers(more) == s.v.bufList;
  }

  /** After stop_streaming every buffer ever queued has been returned, in queue order. */
  lemma ReleaseLedger(ep: Endpoint, s: System)
    requires ep.maxp > 0 && Ledger(ep, s)
    ensures Ledger(ep, s.(v := ReleaseBuffers(s.v)))
    ensures Buffers(ReleaseBuffers(s.v).returned) == s.queued
  {
    hide Numbered, WholeFrame;
    if s.v.curBuf.Some? {
      var r := Return(s.v.curBuf.value, ERROR, 0, []);
      LogUnfinished(s.v.returned, [r], s.session, s.v.sequence);
      BuffersConcat(s.v.returned, [r]);
      assert Buffers([r]) == [r.buffer];
      RestLedger(ep, s.(v := Returned(s.v.(curBuf := None), r.buffer, ERROR, 0, [])), ERROR);
    } else {
      RestLedger(ep, s, ERROR);
    }
  }

  lemma QueueKeeps(ep: Endpoint, s: System, b: Buffer)
    requires ep.maxp > 0 && Invariant(ep, s)
    ensures Invariant(ep, s.(v := Queue(s.v, b), queued := s.queued + [b]))
  {
    hide Numbered, AllWhole, IsFrameHeader;
  }

  lemma StopPoisonKeeps(ep: Endpoint, s: System)
    requires ep.maxp > 0 && Invariant(ep, s) && Enabled(ep, s, StopPoisoned)
    ensures Invariant(ep, AfterStopPoison(s))
  {
    hide Ledger, IsFrameHeader;
    if s.streaming.waiting == Drain {
      ReleaseLedger(ep, s);
      Moved(ep, s.(v := ReleaseBuffers(s.v)), AfterStopPoison(s));
    } else {
      Moved(ep, s, AfterStopPoison(s));
    }
  }

  lemma UnplugPoisonKeeps(ep: Endpoint, s: System)
    requires ep.maxp > 0 && Invariant(ep, s) && Enabled(ep, s, UnplugPoisoned)
    ensures Invariant(ep, AfterUnplugPoison(s))
  {
    hide Ledger, IsFrameHeader;
    Moved(ep, s, AfterUnplugPoison(s));
  }

  lemma StopKeeps(ep: Endpoint, s: System)
    requires ep.maxp > 0 && Invariant(ep, s) && Enabled(ep, s, StopCalled)
    ensures Invariant(ep, Step(ep, s, StopCalled))
  {
    hide Ledger, IsFrameHeader;
    if s.v.disconnected {
      ReleaseLedger(ep, s);
      Moved(ep, s.(v := ReleaseBuffers(s.v)), Step(ep, s, StopCalled));
    } else {
      Moved(ep, s, Step(ep, s, StopCalled));
    }
  }

  lemma UnplugKeeps(ep: Endpoint, s: System)
    requires ep.maxp > 0 && Invariant(ep, s) && Enabled(ep, s, UnplugCalled)
    ensures Invariant(ep, Step(ep, s, UnplugCalled))
  {
    hide Ledger, IsFrameHeader;
    Moved(ep, s, Step(ep, s, UnplugCalled));
  }

  // A new session starts its numbering afresh behind everything returned so far.
  lemma NewSession(ep: Endpoint, s: System, v: Video)
    requires ep.maxp > 0 && Ledger(ep, s) && v.returned == s.v.returned && v.bufList == s.v.bufList
    requires v.curBuf == s.v.curBuf && v.sequence == 0
    ensures Ledger(ep, s.(v := v, session := |v.returned|))
  {
    assert v.returned[|v.returned|..] == [];
  }

  lemma StartKeeps(ep: Endpoint, s: System, pipelineOk: bool, accepted: bool)
    requires ep.maxp > 0 && Invariant(ep, s) && Enabled(ep, s, StartCalled(pipelineOk, accepted))
    ensures Invariant(ep, Step(ep, s, StartCalled(pipelineOk, accepted)))
  {
    hide Numbered, AllWhole, Conserved, IsFrameHeader;
    var s' := Step(ep, s, StartCalled(pipelineOk, accepted));
    if s'.streaming.Running? {
      NewSession(ep, s, s'.v);
      Moved(ep, s.(v := s'.v, session := |s'.v.returned|), s');
    } else {
      RestLedger(ep, s, QUEUED);
      var rest := s.(v := ReturnAll(s.v, QUEUED));
      if pipelineOk {
        NewSession(ep, rest, s'.v);
        Moved(ep, rest.(v := s'.v, session := |s'.v.returned|), s');
      } else {
        Moved(ep, rest, s');
      }
    }
  }

  lemma StepKeeps(ep: Endpoint, s: System, e: Event)
    requires ep.Valid() && Invariant(ep, s) && Enabled(ep, s, e)
    ensures Invariant(ep, Step(ep, s, e))
  {
    hide Invariant, AfterCompletion, AfterStopPoison, AfterUnplugPoison, StartStreaming, Queue, ReleaseBuffers;
    match e {
      case Completed(w, out, accepted) => CompletionKeeps(ep, s, w, out, accepted);
      case BufferQueued(b) => QueueKeeps(ep, s, b);
      case StartCalled(pipelineOk, accepted) => StartKeeps(ep, s, pipelineOk, accepted);
      case StopCalled => StopKeeps(ep, s);
      case UnplugCalled => UnplugKeeps(ep, s);
      case StopPoisoned => StopPoisonKeeps(ep, s);
      case UnplugPoisoned => UnplugPoisonKeeps(ep, s);
    }
  }

  /** Whatever the interleaving, every reachable state satisfies the invariant. */
  lemma {:induction false} RunKeeps(ep: Endpoint, s: System, es: seq<Event>)
    requires ep.Valid() && Invariant(ep, s) && Legal(ep, s, es)
    ensures Invariant(ep, After(ep, s, es))
    decreases |es|
  {
    hide Invariant, Step, Enabled;
    if es != [] {
      StepKeeps(ep, s, es[0]);
      RunKeeps(ep, Step(ep, s, es[0]), es[1..]);
    }
  }

  lemma InitialInvariant(ep: Endpoint)
    requires ep.Valid()
    ensures Invariant(ep, INITIAL)
  {}

  // ---- what the invariant means for the driver's users

  /** At most one transfer is in flight; none once streaming has stopped, and then none can be submitted. */
  lemma StopIsFinal(ep: Endpoint, es: seq<Event>, w: Which, length: nat, accepted: bool)
    requires ep.Valid() && Legal(ep, INITIAL, es)
    ensures var s := After(ep, INITIAL, es);
            && AtMostOneInFlight(s.v)
            && (s.streaming.Stopped? || s.v.disconnected ==>
                  NoneInFlight(s.v) && Submit(s.v, w, length, accepted) == s.v)
  {
    hide Ledger, IsFrameHeader, After, Legal;
    InitialInvariant(ep);
    RunKeeps(ep, INITIAL, es);
  }

  /**
   A start that comes after the unplug, which runs do not hold, still takes back one poisoning of every URB. Nothing is
   in flight after it exactly if the touch pipeline cannot be had, or the header URB is refused or was poisoned twice.
   */
  lemma StartAfterUnplug(ep: Endpoint, es: seq<Event>, pipelineOk: bool, accepted: bool)
    requires ep.Valid() && Legal(ep, INITIAL, es)
    requires After(ep, INITIAL, es).v.disconnected && After(ep, INITIAL, es).streaming.Stopped?
    ensures var v := After(ep, INITIAL, es).v;
            NoneInFlight(StartStreaming(v, ep.maxp, pipelineOk, accepted)) <==>
            !pipelineOk || !accepted || v.hdr.poison > 1
  {
    StopIsFinal(ep, es, Header, 0, accepted);
    PoisonBalanced(ep, es, Header);
    hide After, Legal;
  }

  /**
   Poison counts balance: 0 while streaming, 1 while stopped, whatever starts failed in between, and one more for
   every call that an unplug under way has made.
   */
  lemma PoisonBalanced(ep: Endpoint, es: seq<Event>, w: Which)
    requires ep.Valid() && Legal(ep, INITIAL, es)
    ensures var s := After(ep, INITIAL, es);
            && (!s.v.disconnected ==> s.v.Get(w).poison == StopCount(s.streaming, w) + UnplugCount(s.plug, w))
            && (s.v.disconnected ==> s.v.Get(w).poison > 0)
            && (s.plug.Plugged? && s.streaming.Running? ==> PoisonIs(s.v, 0, 0, 0))
            && (s.plug.Plugged? && s.streaming.Stopped? ==> PoisonIs(s.v, 1, 1, 1))
  {
    hide Ledger, IsFrameHeader, After, Legal;
    InitialInvariant(ep);
    RunKeeps(ep, INITIAL, es);
  }

  /** Each queued buffer is returned once, current, or waiting, in queue order. */
  lemma BuffersConserved(ep: Endpoint, es: seq<Event>)
    requires ep.Valid() && Legal(ep, INITIAL, es)
    ensures Conserved(After(ep, INITIAL, es))
  {
    hide Numbered, AllWhole, IsFrameHeader, After, Legal;
    InitialInvariant(ep);
    RunKeeps(ep, INITIAL, es);
  }

  /** A buffer handed back as done holds one whole transfer that directly followed a frame header. */
  lemma DoneIsWholeFrame(ep: Endpoint, es: seq<Event>, r: Return)
    requires ep.Valid() && Legal(ep, INITIAL, es)
    requires r in After(ep, INITIAL, es).v.returned && r.state == DONE
    ensures exists p: nat :: WholeFrame(ep, p, r.data)
  {
    hide Numbered, Conserved, IsFrameHeader, After, Legal;
    InitialInvariant(ep);
    RunKeeps(ep, INITIAL, es);
  }

  /** Completed frames of the current session carry 0, 1, 2, ... in order of completion. */
  lemma DoneIsNumbered(ep: Endpoint, es: seq<Event>, i: nat)
    requires ep.Valid() && Legal(ep, INITIAL, es)
    requires var s := After(ep, INITIAL, es); s.session <= i < |s.v.returned| && s.v.returned[i].state == DONE
    ensures var s := After(ep, INITIAL, es);
            s.v.returned[i].sequence == DoneCount(s.v.returned[s.session..i]) % 0x1_0000_0000
  {
    hide DoneCount, Conserved, IsFrameHeader, After, Legal, AllWhole;
    InitialInvariant(ep);
    RunKeeps(ep, INITIAL, es);
  }

  /** The step that ends stop_streaming leaves the driver with no buffer at all, whatever the disconnect does. */
  lemma StopReturnsAll(ep: Endpoint, es: seq<Event>)
    requires ep.Valid() && Legal(ep, INITIAL, es)
    requires var s := After(ep, INITIAL, es);
             || (s.streaming == Stopping(Drain) && Enabled(ep, s, StopPoisoned))
             || (s.streaming.Running? && s.v.disconnected)
    ensures var s := After(ep, INITIAL, es);
            var s' := Step(ep, s, if s.streaming.Running? then StopCalled else StopPoisoned);
            s'.streaming == Stopped && s'.v.bufList == [] && s'.v.curBuf == None && Buffers(s'.v.returned) == s'.queued
  {
    hide Ledger, IsFrameHeader, After, Legal;
    InitialInvariant(ep);
    RunKeeps(ep, INITIAL, es);
    ReleaseLedger(ep, After(ep, INITIAL, es));
  }

  // ---- going on

  /** A start that succeeds begins a session from nothing but the waiting buffers, and one that fails from none. */
  lemma SessionStarts(ep: Endpoint, es: seq<Event>, pipelineOk: bool, accepted: bool)
    requires ep.Valid() && Legal(ep, INITIAL, es)
    requires Enabled(ep, After(ep, INITIAL, es), StartCalled(pipelineOk, accepted))
    requires After(ep, INITIAL, es).plug.Plugged?
    ensures var s := After(ep, INITIAL, es);
            var s' := Step(ep, s, StartCalled(pipelineOk, accepted));
            && (s'.streaming.Running? <==> pipelineOk && accepted)
            && (s'.streaming.Running? ==>
                 && s'.v.hdr.inFlight == Some(ep.maxp) && s'.v.frame.inFlight == None && s'.v.drain.inFlight == None
                 && s'.v.sequence == 0 && s'.v.framesDropped == 0 && s'.v.drainRemaining == 0 && s'.v.curBuf == None
                 && s'.v.bufList == s.v.bufList && s'.v.returned == s.v.returned)
            && (s'.streaming.Stopped? ==> NoneInFlight(s'.v) && s'.v.bufList == [] && PoisonIs(s'.v, 1, 1, 1))
  {
    StopIsFinal(ep, es, Header, 0, accepted);
    PoisonBalanced(ep, es, Header);
    hide After, Legal, Returns;
  }

  /** After an error the driver asks for the next header, or hunts for it if it was draining; a frame is given up. */
  lemma GoesOnAfterError(ep: Endpoint, s: System, w: Which, lost: nat)
    requires ep.Valid() && Invariant(ep, s) && PoisonIs(s.v, 0, 0, 0)
    requires Enabled(ep, s, Completed(w, Errored(lost), true))
    ensures var v := AfterCompletion(ep, s, w, Errored(lost), true).v;
            && (w != Drain ==> v.hdr.inFlight == Some(ep.maxp) && v.frame.inFlight == None && v.drain.inFlight == None)
            && (w == Drain ==>
                  && v.drain.inFlight == Some(DRAIN_SIZE) && v.drainRemaining == 0
                  && v.hdr.inFlight == None && v.frame.inFlight == None)
            && v.curBuf == None && v.bufList == s.v.bufList
            && v.returned == s.v.returned + if w == Which.Frame then [Return(s.v.curBuf.value, ERROR, 0, [])] else []
  {
    hide Ledger, IsFrameHeader, Guarded;
  }

  lemma HeaderGoesOn(v: Video, header: seq<Byte>, accepted: bool)
    requires NoneInFlight(v) && PoisonIs(v, 0, 0, 0) && |header| == HEADER_SIZE
    ensures NoneInFlight(HandleHeader(v, header, accepted)) <==> !accepted
  {
    hide Magic, AnnouncedSize;
  }

  /** Every completion that is not cancelled submits one transfer, which starts if the USB core takes it. */
  lemma CompletionGoesOn(ep: Endpoint, s: System, w: Which, out: Outcome, accepted: bool)
    requires ep.Valid() && AtMostOneInFlight(s.v) && Enabled(ep, s, Completed(w, out, accepted))
    requires PoisonIs(s.v, 0, 0, 0)
    ensures NoneInFlight(AfterCompletion(ep, s, w, out, accepted).v) <==> out.Killed? || !accepted
  {
    hide Receive, HandleHeader;
    var idle := s.v.Set(w, s.v.Get(w).(inFlight := None));
    assert NoneInFlight(idle);
    if out.Good? {
      GoodGoesOn(ep, idle, s.v, w, Receive(ep, s.pos, s.v.Get(w).inFlight.value).data, accepted);
    }
  }

  lemma GoodGoesOn(ep: Endpoint, idle: Video, v: Video, w: Which, data: seq<Byte>, accepted: bool)
    requires ep.maxp > 0 && v.Get(w).inFlight.Some? && idle == v.Set(w, v.Get(w).(inFlight := None))
    requires NoneInFlight(idle) && PoisonIs(idle, 0, 0, 0)
    ensures NoneInFlight(Complete(v, ep.maxp, w, Received(data), accepted)) <==> !accepted
  {
    hide HandleHeader;
    match w
    case Header =>
      if |data| == HEADER_SIZE {
        HeaderGoesOn(idle, data, accepted);
      }
    case Frame =>
    case Drain =>
      if |data| >= HEADER_SIZE {
        HeaderGoesOn(idle, data[|data| - HEADER_SIZE..], accepted);
      }
  }

  // A count of bytes to drain is pending only for a drain.
  predicate NothingToDrain(s: System) {
    s.v.hdr.inFlight.Some? || s.v.frame.inFlight.Some? ==> s.v.drainRemaining == 0
  }

  lemma HeaderDrains(v: Video, header: seq<Byte>, accepted: bool)
    requires NoneInFlight(v) && v.drainRemaining == 0 && |header| == HEADER_SIZE
    ensures var v' := HandleHeader(v, header, accepted);
            v'.hdr.inFlight == None && (v'.frame.inFlight.Some? ==> v'.drainRemaining == 0)
  {
    hide Magic, AnnouncedSize;
  }

  lemma StepDrains(ep: Endpoint, s: System, e: Event)
    requires ep.Valid() && AtMostOneInFlight(s.v) && Enabled(ep, s, e) && NothingToDrain(s)
    requires s.streaming.Stopped? ==> NoneInFlight(s.v)
    ensures NothingToDrain(Step(ep, s, e))
  {
    hide Receive, HandleHeader, Returns;
    if e.Completed? && e.outcome.Good? {
      var data := Receive(ep, s.pos, s.v.Get(e.which).inFlight.value).data;
      var idle := s.v.Set(e.which, s.v.Get(e.which).(inFlight := None));
      if e.which == Header && |data| == HEADER_SIZE {
        HeaderDrains(idle, data, e.accepted);
      } else if e.which == Drain && s.v.drainRemaining == 0 && |data| >= HEADER_SIZE {
        HeaderDrains(idle, data[|data| - HEADER_SIZE..], e.accepted);
      }
    }
  }

  /** Over every run, a header or frame transfer in flight never has bytes left to drain. */
  lemma {:induction false} RunDrains(ep: Endpoint, s: System, es: seq<Event>)
    requires ep.Valid() && Invariant(ep, s) && Legal(ep, s, es) && NothingToDrain(s)
    ensures NothingToDrain(After(ep, s, es))
    decreases |es|
  {
    hide Step, Enabled, NothingToDrain, Ledger, IsFrameHeader;
    if es != [] {
      StepKeeps(ep, s, es[0]);
      StepDrains(ep, s, es[0]);
      RunDrains(ep, Step(ep, s, es[0]), es[1..]);
    }
  }

  // Since the last start no completion was cancelled and none had its next transfer refused.
  function Going(es: seq<Event>, going: bool): bool {
    if es == [] then going
    else
      Going(es[1..], match es[0]
                     case StartCalled(_, _) => true
                     case Completed(_, out, accepted) => going && !out.Killed? && accepted
                     case _ => going)
  }

  // One transfer is in flight exactly if nothing broke the chain.
  predicate Chained(s: System, going: bool) {
    s.streaming.Running? && s.plug.Plugged? ==> (!NoneInFlight(s.v) <==> going)
  }

  lemma StepChains(ep: Endpoint, s: System, e: Event, going: bool)
    requires ep.Valid() && Invariant(ep, s) && Enabled(ep, s, e) && Chained(s, going)
    ensures Chained(Step(ep, s, e), Going([e], going))
  {
    assert [e][1..] == [];
    if s.streaming.Running? && s.plug.Plugged? {
      assert PoisonIs(s.v, 0, 0, 0);
      if e.Completed? {
        CompletionGoesOn(ep, s, e.which, e.outcome, e.accepted);
      }
    }
    hide Ledger, IsFrameHeader, AfterCompletion, Receive, Returns;
  }

  lemma {:induction false} RunChains(ep: Endpoint, s: System, es: seq<Event>, going: bool)
    requires ep.Valid() && Invariant(ep, s) && Legal(ep, s, es) && Chained(s, going)
    ensures Chained(After(ep, s, es), Going(es, going))
    decreases |es|
  {
    hide Invariant, Step, Enabled, Chained;
    if es != [] {
      StepKeeps(ep, s, es[0]);
      StepChains(ep, s, es[0], going);
      assert [es[0]][1..] == [];
      RunChains(ep, Step(ep, s, es[0]), es[1..], Going([es[0]], going));
    }
  }

  /**
   Video never stalls by itself: while streaming and plugged in, after any run of errors, short packets and false
   headers, a transfer is in flight if and only if, since the start, none was cancelled and the USB core refused none.
   */
  lemma GoesOn(ep: Endpoint, es: seq<Event>)
    requires ep.Valid() && Legal(ep, INITIAL, es)
    ensures var s := After(ep, INITIAL, es);
            s.streaming.Running? && s.plug.Plugged? ==> (!NoneInFlight(s.v) <==> Going(es, false))
  {
    InitialInvariant(ep);
    RunChains(ep, INITIAL, es, false);
  }

  // ---- completed frames, in stream order

  // The contents of the completed frames, in order of return.
  function DoneData(rs: seq<Return>): seq<seq<Byte>> {
    if rs == [] then []
    else DoneData(rs[..|rs| - 1]) + if rs[|rs| - 1].state == DONE then [rs[|rs| - 1].data] else []
  }

  /** Each lies at its own place in the stream, behind all that came before it, and ends before `bound`. */
  ghost predicate Placed(ep: Endpoint, ds: seq<seq<Byte>>, ps: seq<nat>, bound: nat)
    requires ep.maxp > 0
  {
    && |ps| == |ds|
    && (forall i :: 0 <= i < |ps| ==> WholeFrame(ep, ps[i], ds[i]) && Receive(ep, ps[i], SIZEIMAGE).next <= bound)
    && (forall i, j :: 0 <= i < j < |ps| ==> Receive(ep, ps[i], SIZEIMAGE).next <= ps[j])
  }

  lemma DoneDataAppend(rs: seq<Return>, r: Return)
    ensures DoneData(rs + [r]) == DoneData(rs) + if r.state == DONE then [r.data] else []
  {
    assert (rs + [r])[..|rs|] == rs;
  }

  lemma {:induction false} DoneDataConcat(a: seq<Return>, b: seq<Return>)
    requires forall r :: r in b ==> r.state != DONE
    ensures DoneData(a + b) == DoneData(a)
    decreases |b|
  {
    if b == [] {
      assert a + b == a;
    } else {
      assert (a + b)[..|a + b| - 1] == a + b[..|b| - 1];
      DoneDataConcat(a, b[..|b| - 1]);
    }
  }

  // What a step appends to the log.
  predicate Logged(v: Video, v': Video, more: seq<Return>) {
    v'.returned == v.returned + more
  }

  lemma HeaderLogs(v: Video, header: seq<Byte>, accepted: bool) returns (more: seq<Return>)
    requires |header| == HEADER_SIZE
    ensures Logged(v, HandleHeader(v, header, accepted), more) && forall r :: r in more ==> r.state == ERROR
  {
    hide Magic, AnnouncedSize;
    more := if HandleHeader(v, header, accepted).returned == v.returned then []
            else [Return(v.bufList[0], ERROR, 0, [])];
  }

  lemma ReleaseLogs(v: Video) returns (more: seq<Return>)
    ensures Logged(v, ReleaseBuffers(v), more) && forall r :: r in more ==> r.state == ERROR
  {
    more := (if v.curBuf.Some? then [Return(v.curBuf.value, ERROR, 0, [])] else []) + Returns(v.bufList, ERROR);
  }

  // A completion that is no whole frame.
  lemma OtherCompletionLogs(ep: Endpoint, s: System, w: Which, out: Outcome, accepted: bool) returns (more: seq<Return>)
    requires ep.Valid() && Enabled(ep, s, Completed(w, out, accepted))
    requires w == Which.Frame && out.Good? ==>
               |Receive(ep, s.pos, s.v.frame.inFlight.value).data| != s.v.frame.inFlight.value
    ensures Logged(s.v, AfterCompletion(ep, s, w, out, accepted).v, more) && forall r :: r in more ==> r.state == ERROR
    ensures AfterCompletion(ep, s, w, out, accepted).pos >= s.pos
  {
    hide HandleHeader, Receive;
    more := [];
    match w
    case Header =>
      if out.Good? {
        var data := Receive(ep, s.pos, s.v.hdr.inFlight.value).data;
        if |data| == HEADER_SIZE {
          more := HeaderLogs(s.v.(hdr := s.v.hdr.(inFlight := None)), data, accepted);
        }
      }
    case Frame =>
      if !out.Killed? && s.v.curBuf.Some? {
        more := [Return(s.v.curBuf.value, ERROR, 0, [])];
      }
    case Drain =>
      if out.Good? && s.v.drainRemaining == 0 {
        var data := Receive(ep, s.pos, s.v.drain.inFlight.value).data;
        if |data| >= HEADER_SIZE && (|data| - HEADER_SIZE) % ep.maxp == 0 {
          more := HeaderLogs(s.v.(drain := s.v.drain.(inFlight := None)), data[|data| - HEADER_SIZE..], accepted);
        }
      }
  }

  // A whole frame is logged with the place it was received from.
  lemma FrameLogs(ep: Endpoint, s: System, accepted: bool)
    requires ep.Valid() && Invariant(ep, s) && Enabled(ep, s, Completed(Which.Frame, Good, accepted))
    requires |Receive(ep, s.pos, s.v.frame.inFlight.value).data| == s.v.frame.inFlight.value
    ensures s.v.curBuf.Some?
    ensures var s' := AfterCompletion(ep, s, Which.Frame, Good, accepted); var t := Receive(ep, s.pos, SIZEIMAGE);
            && s'.v.returned == s.v.returned + [Return(s.v.curBuf.value, DONE, s.v.sequence, t.data)]
            && WholeFrame(ep, s.pos, t.data) && s'.pos == t.next
  {
    hide Ledger, Receive, IsFrameHeader, Guarded;
  }

  lemma Unlogged(ep: Endpoint, s: System, s': System, more: seq<Return>, ps: seq<nat>)
    requires ep.maxp > 0 && Placed(ep, DoneData(s.v.returned), ps, s.pos)
    requires Logged(s.v, s'.v, more) && (forall r :: r in more ==> r.state != DONE) && s'.pos >= s.pos
    ensures Placed(ep, DoneData(s'.v.returned), ps, s'.pos)
  {
    hide WholeFrame, Receive;
    DoneDataConcat(s.v.returned, more);
  }

  lemma StepPlaces(ep: Endpoint, s: System, e: Event, ps: seq<nat>) returns (ps': seq<nat>)
    requires ep.Valid() && Invariant(ep, s) && Enabled(ep, s, e)
    requires Placed(ep, DoneData(s.v.returned), ps, s.pos)
    ensures Placed(ep, DoneData(Step(ep, s, e).v.returned), ps', Step(ep, s, e).pos)
  {
    hide Invariant, Receive, WholeFrame, Placed, DoneData, AfterCompletion, Returns;
    ps' := ps;
    var s', more := Step(ep, s, e), [];
    match e
    case Completed(w, out, accepted) =>
      if w == Which.Frame && out.Good?
         && |Receive(ep, s.pos, s.v.frame.inFlight.value).data| == s.v.frame.inFlight.value {
        FrameLogs(ep, s, accepted);
        ps' := ps + [s.pos];
        PlacedAppend(ep, s, s', s.v.curBuf.value, s.v.sequence, ps);
      } else {
        more := OtherCompletionLogs(ep, s, w, out, accepted);
        Unlogged(ep, s, s', more, ps);
      }
    case BufferQueued(b) => Unlogged(ep, s, s', more, ps);
    case StartCalled(pipelineOk, accepted) =>
      StartLogs(s.v, ep.maxp, pipelineOk, accepted);
      Unlogged(ep, s, s', StartLog(s.v, ep.maxp, pipelineOk, accepted), ps);
    case StopCalled =>
      if s.v.disconnected {
        more := ReleaseLogs(s.v);
      }
      Unlogged(ep, s, s', more, ps);
    case UnplugCalled => Unlogged(ep, s, s', more, ps);
    case StopPoisoned =>
      if s.streaming.waiting == Drain {
        more := ReleaseLogs(s.v);
      }
      Unlogged(ep, s, s', more, ps);
    case UnplugPoisoned => Unlogged(ep, s, s', more, ps);
  }

  function StartLog(v: Video, maxp: nat, pipelineOk: bool, accepted: bool): seq<Return> {
    if StartStreaming(v, maxp, pipelineOk, accepted).returned == v.returned then [] else Returns(v.bufList, QUEUED)
  }

  lemma StartLogs(v: Video, maxp: nat, pipelineOk: bool, accepted: bool)
    ensures Logged(v, StartStreaming(v, maxp, pipelineOk, accepted), StartLog(v, maxp, pipelineOk, accepted))
    ensures forall r :: r in StartLog(v, maxp, pipelineOk, accepted) ==> r.state == QUEUED
  {}

  lemma PlacedAppend(ep: Endpoint, s: System, s': System, b: Buffer, n: uint32, ps: seq<nat>)
    requires ep.maxp > 0 && Placed(ep, DoneData(s.v.returned), ps, s.pos)
    requires var t := Receive(ep, s.pos, SIZEIMAGE);
             && WholeFrame(ep, s.pos, t.data) && s'.pos == t.next && t.next > s.pos
             && s'.v.returned == s.v.returned + [Return(b, DONE, n, t.data)]
    ensures Placed(ep, DoneData(s'.v.returned), ps + [s.pos], s'.pos)
  {
    hide WholeFrame, Receive;
    var t := Receive(ep, s.pos, SIZEIMAGE);
    DoneDataAppend(s.v.returned, Return(b, DONE, n, t.data));
  }

  // The completion of a whole frame.
  predicate TakesFrame(ep: Endpoint, s: System, e: Event)
    requires ep.maxp > 0 && Enabled(ep, s, e)
  {
    && e.Completed? && e.which == Which.Frame && e.outcome.Good?
    && |Receive(ep, s.pos, s.v.frame.inFlight.value).data| == s.v.frame.inFlight.value
  }

  /**
   What a step returns: one buffer as done exactly if it completes a whole frame, buffers as queued only at a start that
   fails, which then returns all that waited, and all others as failed.
   */
  lemma StepReturns(ep: Endpoint, s: System, e: Event) returns (more: seq<Return>)
    requires ep.Valid() && Invariant(ep, s) && Enabled(ep, s, e)
    ensures Logged(s.v, Step(ep, s, e).v, more)
    ensures TakesFrame(ep, s, e) ==> |more| == 1 && more[0].state == DONE
    ensures e.StartCalled? ==>
              && (forall r :: r in more ==> r.state == QUEUED)
              && Buffers(more) == if Step(ep, s, e).streaming.Stopped? then s.v.bufList else []
    ensures !TakesFrame(ep, s, e) && !e.StartCalled? ==> forall r :: r in more ==> r.state == ERROR
  {
    hide Invariant, Receive, WholeFrame, AfterCompletion, Returns, Buffers;
    more := [];
    match e
    case Completed(w, out, accepted) =>
      if TakesFrame(ep, s, e) {
        FrameLogs(ep, s, accepted);
        more := [Return(s.v.curBuf.value, DONE, s.v.sequence, Receive(ep, s.pos, SIZEIMAGE).data)];
      } else {
        more := OtherCompletionLogs(ep, s, w, out, accepted);
      }
    case BufferQueued(b) =>
    case StartCalled(pipelineOk, accepted) =>
      StartLogs(s.v, ep.maxp, pipelineOk, accepted);
      more := StartLog(s.v, ep.maxp, pipelineOk, accepted);
      StartReturns(ep, s, pipelineOk, accepted);
    case StopCalled =>
      if s.v.disconnected {
        more := ReleaseLogs(s.v);
      }
    case UnplugCalled =>
    case StopPoisoned =>
      if s.streaming.waiting == Drain {
        more := ReleaseLogs(s.v);
      }
    case UnplugPoisoned =>
  }

  lemma StartReturns(ep: Endpoint, s: System, pipelineOk: bool, accepted: bool)
    requires ep.Valid() && Invariant(ep, s) && Enabled(ep, s, StartCalled(pipelineOk, accepted))
    ensures Buffers(StartLog(s.v, ep.maxp, pipelineOk, accepted)) ==
            if Step(ep, s, StartCalled(pipelineOk, accepted)).streaming.Stopped? then s.v.bufList else []
  {
    hide Ledger, BufferHeld, Lengths, Returns, Buffers;
    BuffersOfReturns(s.v.bufList, QUEUED);
    NoBuffers();
    if s.v.bufList == [] {
      assert Returns(s.v.bufList, QUEUED) == [];
    } else {
      assert |s.v.returned + Returns(s.v.bufList, QUEUED)| > |s.v.returned|;
    }
  }

  lemma NoBuffers()
    ensures Buffers([]) == []
  {}

  lemma {:induction false} RunPlaces(ep: Endpoint, s: System, es: seq<Event>, ps: seq<nat>) returns (ps': seq<nat>)
    requires ep.Valid() && Invariant(ep, s) && Legal(ep, s, es)
    requires Placed(ep, DoneData(s.v.returned), ps, s.pos)
    ensures Placed(ep, DoneData(After(ep, s, es).v.returned), ps', After(ep, s, es).pos)
    decreases |es|
  {
    hide Invariant, Step, Enabled, Placed, DoneData;
    ps' := ps;
    if es != [] {
      StepKeeps(ep, s, es[0]);
      ps' := StepPlaces(ep, s, es[0], ps);
      ps' := RunPlaces(ep, Step(ep, s, es[0]), es[1..], ps');
    }
  }

  /** No part of the stream is delivered twice, and frames are delivered in the order in which they were sent. */
  lemma DoneInOrder(ep: Endpoint, es: seq<Event>)
    requires ep.Valid() && Legal(ep, INITIAL, es)
    ensures var s := After(ep, INITIAL, es); exists ps :: Placed(ep, DoneData(s.v.returned), ps, s.pos)
  {
    InitialInvariant(ep);
    hide Invariant, After, Legal;
    assert Placed(ep, DoneData(INITIAL.v.returned), [], INITIAL.pos);
    hide Placed;
    var ps := RunPlaces(ep, INITIAL, es, []);
  }
}
