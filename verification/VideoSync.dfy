/**
 Staying in step with the device. On a stream of well-formed frames and without URB errors the pipeline finds
 the next header from any packet position, skipping only the rest of the frame it starts in; from then on every
 frame is delivered whole or drained by exactly the byte count its header announced.
 */
module VideoSync {
  import opened Bytes
  import opened Wrappers
  import opened VideoPipeline
  import opened VideoSafety

  /** Packets from pos on hold n bytes: full ones, then the remainder if there is one. */
  predicate Body(ep: Endpoint, pos: nat, n: nat)
    requires ep.maxp > 0
    decreases n
  {
    if n == 0 then true
    else if n >= ep.maxp then |ep.stream(pos)| == ep.maxp && Body(ep, pos + 1, n - ep.maxp)
    else |ep.stream(pos)| == n
  }

  function PacketCount(ep: Endpoint, n: nat): nat
    requires ep.maxp > 0
    decreases n
  {
    if n == 0 then 0 else if n >= ep.maxp then 1 + PacketCount(ep, n - ep.maxp) else 1
  }

  // What the handler takes for the header of a frame.
  predicate LooksLikeHeader(p: seq<Byte>) {
    |p| == HEADER_SIZE && Magic(p) == HEADER_MAGIC && 0 < AnnouncedSize(p) <= MAX_FRAME_SIZE
  }

  predicate AnnouncesFrame(p: seq<Byte>, n: nat) {
    LooksLikeHeader(p) && AnnouncedSize(p) == n
  }

  /** Frames with these announced sizes lie end to end from pos on. */
  predicate Frames(ep: Endpoint, pos: nat, sizes: seq<nat>)
    requires ep.maxp > 0
    decreases |sizes|
  {
    sizes == [] ||
    (&& AnnouncesFrame(ep.stream(pos), sizes[0]) && Body(ep, pos + 1, sizes[0])
     && Frames(ep, pos + 1 + PacketCount(ep, sizes[0]), sizes[1..]))
  }

  // The drain buffer holds whole packets, as every bulk packet size allows.
  ghost predicate Bulk(ep: Endpoint) {
    ep.Valid() && DRAIN_SIZE % ep.maxp == 0
  }

  // ---- transfers over a body

  /** A transfer of whole packets, or of the entire rest, is received in full and leaves the body behind it. */
  lemma {:induction false} ReceiveBody(ep: Endpoint, pos: nat, room: nat, n: nat)
    requires ep.Valid() && Body(ep, pos, n) && 0 < room <= n && (room % ep.maxp == 0 || room == n)
    ensures var t := Receive(ep, pos, room);
            && !t.overflow && |t.data| == room
            && Body(ep, t.next, n - room) && t.next + PacketCount(ep, n - room) == pos + PacketCount(ep, n)
    decreases room
  {
    if n < ep.maxp {
      Small(room, ep.maxp);
    } else {
      if room < ep.maxp {
        Small(room, ep.maxp);
      } else if room > ep.maxp {
        SubPeriod(room, ep.maxp);
        ReceiveBody(ep, pos + 1, room - ep.maxp, n - ep.maxp);
      }
    }
  }

  lemma Small(n: nat, m: nat)
    requires n < m
    ensures n % m == n
  {}

  lemma SubPeriod(n: nat, m: nat)
    requires n >= m > 0
    ensures (n - m) % m == n % m
  {
    Quotient(n, m, n / m);
    Remainder(n - m, m, n / m - 1, n % m);
  }

  /** A transfer with more room than a body of whole packets takes the header behind it, too, and ends there. */
  lemma {:induction false} ReceiveThroughHeader(ep: Endpoint, pos: nat, room: nat, n: nat)
    requires ep.Valid() && Body(ep, pos, n) && n % ep.maxp == 0 && n + ep.maxp <= room
    requires |ep.stream(pos + PacketCount(ep, n))| == HEADER_SIZE
    ensures var t := Receive(ep, pos, room);
            !t.overflow && |t.data| == n + HEADER_SIZE && t.next == pos + PacketCount(ep, n) + 1
    decreases n
  {
    if n > 0 {
      if n < ep.maxp {
        Small(n, ep.maxp);
      }
      SubPeriod(n, ep.maxp);
      ReceiveThroughHeader(ep, pos + 1, room - ep.maxp, n - ep.maxp);
    }
  }

  /** A transfer with more room than the body stops at the body's short last packet. */
  lemma {:induction false} ReceiveToShort(ep: Endpoint, pos: nat, room: nat, n: nat)
    requires ep.Valid() && Body(ep, pos, n) && n % ep.maxp != 0 && n < room
    ensures var t := Receive(ep, pos, room); !t.overflow && |t.data| == n && t.next == pos + PacketCount(ep, n)
    decreases n
  {
    if n == 0 {
      Small(n, ep.maxp);
    } else if n >= ep.maxp {
      SubPeriod(n, ep.maxp);
      ReceiveToShort(ep, pos + 1, room - ep.maxp, n - ep.maxp);
    }
  }

  // ---- quiet runs: nothing but queueing and error-free completions

  predicate Quiet(e: Event) {
    e.BufferQueued? || (e.Completed? && e.outcome.Good? && e.accepted)
  }

  predicate Undisturbed(s: System) {
    s.streaming.Running? && PoisonIs(s.v, 0, 0, 0) && !s.v.disconnected
  }

  function Completions(es: seq<Event>): nat {
    if es == [] then 0 else (if es[0].Completed? then 1 else 0) + Completions(es[1..])
  }

  predicate OnlyHdr(v: Video, length: nat) {
    v.hdr.inFlight == Some(length) && v.frame.inFlight == None && v.drain.inFlight == None
  }

  predicate OnlyFrame(v: Video) {
    v.hdr.inFlight == None && v.frame.inFlight == Some(SIZEIMAGE) && v.drain.inFlight == None
  }

  predicate OnlyDrain(v: Video) {
    v.hdr.inFlight == None && v.frame.inFlight == None && v.drain.inFlight == Some(DrainLength(v.drainRemaining))
  }

  // Waiting for the next frame's header, with these frames to come.
  predicate AtHeader(ep: Endpoint, s: System, sizes: seq<nat>)
    requires ep.maxp > 0
  {
    Undisturbed(s) && OnlyHdr(s.v, ep.maxp) && s.v.curBuf == None && Frames(ep, s.pos, sizes)
  }

  predicate TakingFrame(ep: Endpoint, s: System, sizes: seq<nat>)
    requires ep.maxp > 0
  {
    && Undisturbed(s) && OnlyFrame(s.v) && s.v.curBuf.Some?
    && Body(ep, s.pos, SIZEIMAGE) && Frames(ep, s.pos + PacketCount(ep, SIZEIMAGE), sizes)
  }

  /** Discarding a frame of which exactly the counted bytes are still to come. */
  predicate Draining(ep: Endpoint, s: System, sizes: seq<nat>)
    requires ep.maxp > 0
  {
    var count := s.v.drainRemaining;
    && Undisturbed(s) && OnlyDrain(s.v) && s.v.curBuf == None
    && count > 0 && Body(ep, s.pos, count) && Frames(ep, s.pos + PacketCount(ep, count), sizes)
  }

  predicate InSync(ep: Endpoint, s: System, sizes: seq<nat>)
    requires ep.maxp > 0
  {
    AtHeader(ep, s, sizes) || TakingFrame(ep, s, sizes) || Draining(ep, s, sizes)
  }

  /** A header at a frame boundary starts the transfer into a buffer, or a drain of exactly the announced count. */
  lemma HeaderHandled(ep: Endpoint, s: System, h: seq<Byte>, sizes: seq<nat>)
    requires ep.maxp > 0 && Undisturbed(s) && NoneInFlight(s.v) && s.v.curBuf == None
    requires sizes != [] && AnnouncesFrame(h, sizes[0]) && Body(ep, s.pos, sizes[0])
    requires Frames(ep, s.pos + PacketCount(ep, sizes[0]), sizes[1..])
    ensures var s' := s.(v := HandleHeader(s.v, h, true));
            if sizes[0] == SIZEIMAGE && s.v.bufList != [] then
              && TakingFrame(ep, s', sizes[1..]) && s'.v.curBuf == Some(s.v.bufList[0])
              && s'.v.framesDropped == s.v.framesDropped
              && s'.v.bufList == s.v.bufList[1..] && s'.v.returned == s.v.returned
            else
              Draining(ep, s', sizes[1..]) && s'.v.drainRemaining == sizes[0] && s'.v.bufList == s.v.bufList
              && s'.v.returned == s.v.returned
              && s'.v.framesDropped == s.v.framesDropped + if sizes[0] == SIZEIMAGE then 1 else 0
  {
    hide Body, Frames, PacketCount, Magic, AnnouncedSize;
  }

  // What one error-free completion does from each of the three situations.
  function NextState(ep: Endpoint, s: System, w: Which): System
    requires ep.maxp > 0 && s.v.Get(w).inFlight.Some?
  {
    AfterCompletion(ep, s, w, Good, true)
  }

  lemma HeaderArrives(ep: Endpoint, s: System, sizes: seq<nat>)
    requires ep.Valid() && sizes != [] && AtHeader(ep, s, sizes)
    ensures var idle := s.(v := s.v.(hdr := s.v.hdr.(inFlight := None)), pos := s.pos + 1);
            NextState(ep, s, Header) == idle.(v := HandleHeader(idle.v, ep.stream(s.pos), true))
  {
    hide Body, Frames, HandleHeader, Magic, AnnouncedSize;
    AnnouncedFirst(ep, s.pos, sizes);
    assert Receive(ep, s.pos, ep.maxp) == Transfer(ep.stream(s.pos), s.pos + 1, false);
  }

  lemma AnnouncedFirst(ep: Endpoint, pos: nat, sizes: seq<nat>)
    requires ep.maxp > 0 && sizes != [] && Frames(ep, pos, sizes)
    ensures AnnouncesFrame(ep.stream(pos), sizes[0]) && Body(ep, pos + 1, sizes[0])
    ensures Frames(ep, pos + 1 + PacketCount(ep, sizes[0]), sizes[1..])
  {}

  /** A frame with a buffer waiting is delivered whole: that buffer is the next one returned, as done. */
  lemma FrameArrives(ep: Endpoint, s: System, sizes: seq<nat>)
    requires Bulk(ep) && TakingFrame(ep, s, sizes)
    ensures var t := Receive(ep, s.pos, SIZEIMAGE); var s' := NextState(ep, s, Which.Frame);
            && AtHeader(ep, s', sizes) && |t.data| == SIZEIMAGE
            && s'.v.returned == s.v.returned + [Return(s.v.curBuf.value, DONE, s.v.sequence, t.data)]
            && s'.v.framesDropped == s.v.framesDropped
  {
    hide Body, Frames, PacketCount, Receive;
    ReceiveBody(ep, s.pos, SIZEIMAGE, SIZEIMAGE);
    EmptyBody(ep);
  }

  lemma EmptyBody(ep: Endpoint)
    requires ep.maxp > 0
    ensures PacketCount(ep, 0) == 0
  {}

  /** A counted drain takes a full buffer or all that is left, and never ends up hunting. */
  lemma DrainArrives(ep: Endpoint, s: System, sizes: seq<nat>)
    requires Bulk(ep) && Draining(ep, s, sizes)
    ensures var count := s.v.drainRemaining; var s' := NextState(ep, s, Drain);
            && s'.v.returned == s.v.returned && s'.v.framesDropped == s.v.framesDropped && s'.v.bufList == s.v.bufList
            && if count <= DRAIN_SIZE then AtHeader(ep, s', sizes)
               else Draining(ep, s', sizes) && s'.v.drainRemaining == count - DRAIN_SIZE
  {
    hide Body, Frames, PacketCount, Receive;
    var count := s.v.drainRemaining;
    ReceiveBody(ep, s.pos, DrainLength(count), count);
    EmptyBody(ep);
  }

  // ---- in step, over whole runs

  // What has been taken off the stream: frames delivered or under way, and frames dropped.
  function Taken(s: System): nat {
    DoneCount(s.v.returned) + (if s.v.frame.inFlight.Some? then 1 else 0) + s.v.framesDropped
  }

  // How many of these frames are images.
  function Images(sizes: seq<nat>): nat {
    if sizes == [] then 0 else Images(sizes[..|sizes| - 1]) + Image(sizes[|sizes| - 1])
  }

  function Image(size: nat): nat {
    if size == SIZEIMAGE then 1 else 0
  }

  lemma {:induction false} ImagesFirst(sizes: seq<nat>)
    requires sizes != []
    ensures Images(sizes) == Image(sizes[0]) + Images(sizes[1..])
  {
    var n := |sizes| - 1;
    if n == 0 {
      assert sizes[..0] == [] && sizes[1..] == [];
    } else {
      ImagesFirst(sizes[..n]);
      assert sizes[..n][1..] == sizes[1..][..n - 1];
    }
  }

  // Queueing a buffer changes no situation.
  lemma QueueStays(ep: Endpoint, s: System, b: Buffer, sizes: seq<nat>)
    requires ep.maxp > 0
    ensures var s' := Step(ep, s, BufferQueued(b));
            && (AtHeader(ep, s, sizes) ==> AtHeader(ep, s', sizes))
            && (TakingFrame(ep, s, sizes) ==> TakingFrame(ep, s', sizes))
            && (Draining(ep, s, sizes) ==> Draining(ep, s', sizes))
            && (forall r :: Skipping(ep, s, r, sizes) ==> Skipping(ep, s', r, sizes))
            && (forall r :: Anywhere(ep, s, r, sizes) ==> Anywhere(ep, s', r, sizes))
            && Taken(s') == Taken(s) && s'.v.drainRemaining == s.v.drainRemaining && s'.pos == s.pos
  {
    hide Body, Frames, PacketCount, DoneCount;
  }

  // In a state with only w in flight, a quiet completion is w's.
  lemma QuietCompletion(ep: Endpoint, s: System, e: Event, w: Which)
    requires ep.maxp > 0 && Quiet(e) && e.Completed? && Enabled(ep, s, e)
    requires forall x: Which :: s.v.Get(x).inFlight.Some? ==> x == w
    ensures e.which == w && s.v.Get(w).inFlight.Some? && Step(ep, s, e) == NextState(ep, s, w)
  {
    hide AfterCompletion, Receive;
  }

  // One quiet event: still in sync, and a header taken off the stream is accounted for.
  lemma QuietStep(ep: Endpoint, s: System, e: Event, sizes: seq<nat>)
    requires Bulk(ep) && InSync(ep, s, sizes) && sizes != [] && Quiet(e) && Enabled(ep, s, e)
    ensures var s' := Step(ep, s, e); var header := e.Completed? && e.which == Header;
            && InSync(ep, s', if header then sizes[1..] else sizes)
            && Taken(s') == Taken(s) + if header then Image(sizes[0]) else 0
  {
    hide Body, Frames, PacketCount, Receive, HandleHeader, AfterCompletion, DoneCount, AnnouncesFrame;
    match e {
      case BufferQueued(b) => QueueStays(ep, s, b, sizes);
      case Completed(w, _, _) =>
        QuietCompletion(ep, s, e, if s.v.hdr.inFlight.Some? then Header
                                  else if s.v.frame.inFlight.Some? then Which.Frame else Drain);
        if s.v.hdr.inFlight.Some? {
          HeaderArrives(ep, s, sizes);
          AnnouncedFirst(ep, s.pos, sizes);
          var idle := s.(v := s.v.(hdr := s.v.hdr.(inFlight := None)), pos := s.pos + 1);
          HeaderHandled(ep, idle, ep.stream(s.pos), sizes);
        } else if s.v.frame.inFlight.Some? {
          FrameArrives(ep, s, sizes);
          DoneCountAppend(s.v.returned,
                          Return(s.v.curBuf.value, DONE, s.v.sequence, Receive(ep, s.pos, SIZEIMAGE).data));
        } else {
          DrainArrives(ep, s, sizes);
        }
    }
  }

  function Headers(es: seq<Event>): nat {
    if es == [] then 0 else (if es[0].Completed? && es[0].which == Header then 1 else 0) + Headers(es[1..])
  }

  /**
   Once in step, always in step: after any quiet run over the frames to come, each frame whose header was taken
   off the stream, and that is an image, has been delivered, is being delivered, or has been counted as dropped.
   */
  lemma {:induction false} StaysInSync(ep: Endpoint, s: System, es: seq<Event>, sizes: seq<nat>)
    requires Bulk(ep) && InSync(ep, s, sizes) && (forall e :: e in es ==> Quiet(e)) && Legal(ep, s, es)
    requires Headers(es) < |sizes|
    ensures var s' := After(ep, s, es);
            && InSync(ep, s', sizes[Headers(es)..])
            && Taken(s') == Taken(s) + Images(sizes[..Headers(es)])
    decreases |es|
  {
    hide Body, Frames, PacketCount, InSync, Step, Enabled, Taken;
    if es != [] {
      QuietStep(ep, s, es[0], sizes);
      var header := es[0].Completed? && es[0].which == Header;
      var rest := if header then sizes[1..] else sizes;
      StaysInSync(ep, Step(ep, s, es[0]), es[1..], rest);
      assert rest[Headers(es[1..])..] == sizes[Headers(es)..];
      if header {
        ImagesFirst(sizes[..Headers(es)]);
        assert sizes[..Headers(es)][1..] == rest[..Headers(es[1..])];
      }
    }
  }

  function Chunks(count: nat): nat {
    if count <= DRAIN_SIZE then 1 else 1 + Chunks(count - DRAIN_SIZE)
  }

  lemma {:induction false} ChunksIsCeiling(count: nat)
    requires count > 0
    ensures Chunks(count) == (count + DRAIN_SIZE - 1) / DRAIN_SIZE
  {
    if count > DRAIN_SIZE {
      ChunksIsCeiling(count - DRAIN_SIZE);
    }
  }

  /** A drain of `count` bytes takes exactly ceil(count / 64K) transfers, with bytes left to count before each. */
  lemma {:induction false} DrainTakesChunks(ep: Endpoint, s: System, es: seq<Event>, sizes: seq<nat>)
    requires Bulk(ep) && Draining(ep, s, sizes) && (forall e :: e in es ==> Quiet(e)) && Legal(ep, s, es)
    requires Completions(es) <= Chunks(s.v.drainRemaining)
    ensures var s' := After(ep, s, es); var n := Completions(es);
            if n < Chunks(s.v.drainRemaining) then
              Draining(ep, s', sizes) && s'.v.drainRemaining == s.v.drainRemaining - n * DRAIN_SIZE
            else AtHeader(ep, s', sizes)
    decreases |es|
  {
    hide Body, Frames, PacketCount, Receive, AfterCompletion, Step, Enabled;
    if es != [] {
      var s' := Step(ep, s, es[0]);
      if es[0].Completed? {
        QuietCompletion(ep, s, es[0], Drain);
        DrainArrives(ep, s, sizes);
        if s.v.drainRemaining <= DRAIN_SIZE {
          NoCompletions(ep, s', es[1..], sizes);
        } else {
          DrainTakesChunks(ep, s', es[1..], sizes);
        }
      } else {
        assert Quiet(es[0]);
        QueueStays(ep, s, es[0].buffer, sizes);
        DrainTakesChunks(ep, s', es[1..], sizes);
      }
    }
  }

  lemma {:induction false} NoCompletions(ep: Endpoint, s: System, es: seq<Event>, sizes: seq<nat>)
    requires ep.maxp > 0 && AtHeader(ep, s, sizes) && (forall e :: e in es ==> Quiet(e)) && Legal(ep, s, es)
    requires Completions(es) == 0
    ensures AtHeader(ep, After(ep, s, es), sizes)
    decreases |es|
  {
    hide Body, Frames, PacketCount, AtHeader, Step, Enabled;
    if es != [] {
      assert Quiet(es[0]);
      QueueStays(ep, s, es[0].buffer, sizes);
      NoCompletions(ep, Step(ep, s, es[0]), es[1..], sizes);
    }
  }

  // ---- finding the next header

  // The last packet of r bytes.
  function LastPacket(ep: Endpoint, pos: nat, r: nat): seq<Byte>
    requires ep.maxp > 0 && r > 0
  {
    ep.stream(pos + PacketCount(ep, r) - 1)
  }

  /** The end of these r bytes is not taken for a header: only a packet of a header's size could be. */
  predicate Harmless(ep: Endpoint, pos: nat, r: nat)
    requires ep.maxp > 0
  {
    r > 0 && r % ep.maxp == HEADER_SIZE ==> !LooksLikeHeader(LastPacket(ep, pos, r))
  }

  // The last r bytes of one frame and the frames after it lie ahead.
  predicate Ahead(ep: Endpoint, s: System, r: nat, sizes: seq<nat>)
    requires ep.maxp > 0
  {
    && Undisturbed(s) && s.v.curBuf == None
    && sizes != [] && Body(ep, s.pos, r) && Frames(ep, s.pos + PacketCount(ep, r), sizes)
  }

  // Discarding those bytes without a count.
  predicate Skipping(ep: Endpoint, s: System, r: nat, sizes: seq<nat>)
    requires ep.maxp > 0
  {
    Ahead(ep, s, r, sizes) && OnlyDrain(s.v) && s.v.drainRemaining == 0
  }

  /** Hunting through them for the next header. */
  predicate Hunting(ep: Endpoint, s: System, r: nat, sizes: seq<nat>)
    requires ep.maxp > 0
  {
    Skipping(ep, s, r, sizes) && Harmless(ep, s.pos, r)
  }

  /** Waiting for a header at any packet of a frame. */
  predicate Anywhere(ep: Endpoint, s: System, r: nat, sizes: seq<nat>)
    requires ep.maxp > 0
  {
    Ahead(ep, s, r, sizes) && OnlyHdr(s.v, ep.maxp)
  }

  // Without one packet, or some periods of packets, the last packet is the same.
  lemma HarmlessRest(ep: Endpoint, pos: nat, r: nat, pos': nat, r': nat)
    requires ep.maxp > 0 && r' <= r && r' % ep.maxp == r % ep.maxp
    requires pos' + PacketCount(ep, r') == pos + PacketCount(ep, r)
    ensures Harmless(ep, pos', r') <==> Harmless(ep, pos, r)
  {
    hide LooksLikeHeader, PacketCount;
    if r' == 0 {
      Small(0, ep.maxp);
    }
  }

  // What the handler does with something that looks like no header: it hunts on.
  lemma NoHeaderHandled(v: Video, p: seq<Byte>)
    requires |p| == HEADER_SIZE && !LooksLikeHeader(p)
    ensures HandleHeader(v, p, true) == SubmitDrain(v, 0, true)
  {
    hide Magic, AnnouncedSize;
  }

  lemma LostFull(ep: Endpoint, s: System, r: nat, sizes: seq<nat>)
    requires Bulk(ep) && Anywhere(ep, s, r, sizes) && r >= ep.maxp
    ensures var s' := NextState(ep, s, Header);
            && s'.pos == s.pos + 1 && Skipping(ep, s', r - ep.maxp, sizes)
            && s'.v.returned == s.v.returned && s'.v.bufList == s.v.bufList && s'.v.framesDropped == s.v.framesDropped
  {
    hide Frames, HandleHeader;
    assert Receive(ep, s.pos, ep.maxp) == Transfer(ep.stream(s.pos), s.pos + 1, false);
  }

  /**
   Started in the middle of a frame with r > 0 bytes left, the driver hunts for the end of the frame if and only if
   that does not look like a header.
   */
  lemma LostHeader(ep: Endpoint, s: System, r: nat, sizes: seq<nat>)
    requires Bulk(ep) && Anywhere(ep, s, r, sizes) && r > 0
    ensures var s' := NextState(ep, s, Header); var r' := if r >= ep.maxp then r - ep.maxp else 0;
            && s'.pos == s.pos + 1 && s'.pos + PacketCount(ep, r') == s.pos + PacketCount(ep, r)
            && (Hunting(ep, s', r', sizes) <==> Harmless(ep, s.pos, r))
            && (r >= ep.maxp || Harmless(ep, s.pos, r) ==> Skipping(ep, s', r', sizes) && Taken(s') == Taken(s))
            && (r < ep.maxp && !Harmless(ep, s.pos, r) ==>
                 s'.v == HandleHeader(NoHeader(s.v), LastPacket(ep, s.pos, r), true))
  {
    hide Frames, HandleHeader, LooksLikeHeader, Magic, AnnouncedSize, DoneCount;
    var p := ep.stream(s.pos);
    assert Receive(ep, s.pos, ep.maxp) == Transfer(p, s.pos + 1, false);
    if r >= ep.maxp {
      LostFull(ep, s, r, sizes);
      SubPeriod(r, ep.maxp);
      HarmlessRest(ep, s.pos, r, s.pos + 1, r - ep.maxp);
    } else {
      Small(r, ep.maxp);
      Small(0, ep.maxp);
      if r == HEADER_SIZE {
        if LooksLikeHeader(p) {
          HeaderStarts(NoHeader(s.v), p);
        } else {
          NoHeaderHandled(NoHeader(s.v), p);
        }
      }
    }
  }

  function NoHeader(v: Video): Video {
    v.(hdr := v.hdr.(inFlight := None))
  }

  // How many hunting transfers it takes.
  function Hunts(ep: Endpoint, r: nat): nat
    requires ep.maxp > 0
  {
    if r >= DRAIN_SIZE then 1 + Hunts(ep, r - DRAIN_SIZE) else if r % ep.maxp == 0 then 1 else 2
  }

  lemma PeriodsOut(n: nat, k: nat, m: nat)
    requires m > 0 && k % m == 0 && n >= k
    ensures (n - k) % m == n % m
  {
    Quotient(k, m, k / m);
    Quotient(n, m, n / m);
    Scale(n / m - k / m, m);
    assert n - k == (n / m - k / m) * m + n % m;
    Remainder(n - k, m, n / m - k / m, n % m);
  }

  function Idle(v: Video): Video {
    v.(drain := v.drain.(inFlight := None))
  }

  // One transfer of an uncounted drain.
  lemma SkipStep(ep: Endpoint, s: System)
    requires Bulk(ep) && OnlyDrain(s.v) && s.v.drainRemaining == 0 && !Receive(ep, s.pos, DRAIN_SIZE).overflow
    ensures var t := Receive(ep, s.pos, DRAIN_SIZE); var len := |t.data|;
            NextState(ep, s, Drain) == s.(pos := t.next, v :=
              if len >= HEADER_SIZE && (len - HEADER_SIZE) % ep.maxp == 0
              then HandleHeader(Idle(s.v), t.data[len - HEADER_SIZE..], true) else SubmitDrain(Idle(s.v), 0, true))
  {
    hide Receive, HandleHeader, SubmitDrain;
  }

  // The next transfer of the same kind.
  lemma SkipsOn(ep: Endpoint, s: System, r: nat, sizes: seq<nat>, pos': nat, r': nat, sizes': seq<nat>)
    requires Bulk(ep) && Skipping(ep, s, r, sizes)
    requires sizes' != [] && Body(ep, pos', r') && Frames(ep, pos' + PacketCount(ep, r'), sizes')
    ensures var s' := s.(pos := pos', v := SubmitDrain(Idle(s.v), 0, true));
            Skipping(ep, s', r', sizes') && Taken(s') == Taken(s)
  {
    hide Body, Frames, PacketCount, DoneCount;
  }

  /** The next frame has just begun: it goes to a buffer, or is drained by the count that its header announced. */
  predicate Caught(ep: Endpoint, s: System, sizes: seq<nat>)
    requires ep.maxp > 0 && sizes != []
  {
    || (TakingFrame(ep, s, sizes[1..]) && sizes[0] == SIZEIMAGE)
    || (Draining(ep, s, sizes[1..]) && s.v.drainRemaining == sizes[0])
  }

  /**
   A hunting transfer eats up to 64K of the old frame and hunts on, or takes the next header behind it. It mistakes
   the end of the old frame for a header if and only if that looks like one.
   */
  lemma HuntArrives(ep: Endpoint, s: System, r: nat, sizes: seq<nat>)
    requires Bulk(ep) && Skipping(ep, s, r, sizes)
    ensures !Receive(ep, s.pos, DRAIN_SIZE).overflow
    ensures var s' := NextState(ep, s, Drain);
            if r >= DRAIN_SIZE then
              && Skipping(ep, s', r - DRAIN_SIZE, sizes) && Taken(s') == Taken(s)
              && s'.pos + PacketCount(ep, r - DRAIN_SIZE) == s.pos + PacketCount(ep, r)
              && (Hunting(ep, s', r - DRAIN_SIZE, sizes) <==> Harmless(ep, s.pos, r))
            else if r % ep.maxp == 0 then
              && Caught(ep, s', sizes) && s'.pos == s.pos + PacketCount(ep, r) + 1
              && Taken(s') == Taken(s) + Image(sizes[0])
            else
              && s'.pos == s.pos + PacketCount(ep, r) && (Hunting(ep, s', 0, sizes) <==> Harmless(ep, s.pos, r))
              && (Harmless(ep, s.pos, r) ==> Taken(s') == Taken(s))
  {
    hide Frames, HandleHeader, SubmitDrain, Body, PacketCount, Receive, DoneCount, Magic, AnnouncedSize,
         LooksLikeHeader;
    hide NextState, Harmless, Taken;
    if r >= DRAIN_SIZE {
      HuntsFull(ep, s, r, sizes);
    } else if r % ep.maxp == 0 {
      HuntEnds(ep, s, r, sizes);
    } else {
      ShortEnd(ep, s, r, sizes);
    }
  }

  lemma HuntsFull(ep: Endpoint, s: System, r: nat, sizes: seq<nat>)
    requires Bulk(ep) && Skipping(ep, s, r, sizes) && r >= DRAIN_SIZE
    ensures !Receive(ep, s.pos, DRAIN_SIZE).overflow
    ensures var s' := NextState(ep, s, Drain);
            && Skipping(ep, s', r - DRAIN_SIZE, sizes) && Taken(s') == Taken(s)
            && s'.pos + PacketCount(ep, r - DRAIN_SIZE) == s.pos + PacketCount(ep, r)
            && (Harmless(ep, s'.pos, r - DRAIN_SIZE) <==> Harmless(ep, s.pos, r))
  {
    hide Frames, HandleHeader, SubmitDrain, Body, PacketCount, Receive, DoneCount, LooksLikeHeader, NextState, Harmless;
    hide Taken, Idle;
    var t := Receive(ep, s.pos, DRAIN_SIZE);
    ReceiveBody(ep, s.pos, DRAIN_SIZE, r);
    PeriodsOut(r, DRAIN_SIZE, ep.maxp);
    NotHeaderSized(DRAIN_SIZE, ep.maxp, 0);
    HarmlessRest(ep, s.pos, r, t.next, r - DRAIN_SIZE);
    SkipStep(ep, s);
    SkipsOn(ep, s, r, sizes, t.next, r - DRAIN_SIZE, sizes);
  }

  lemma HuntEnds(ep: Endpoint, s: System, r: nat, sizes: seq<nat>)
    requires Bulk(ep) && Skipping(ep, s, r, sizes) && r < DRAIN_SIZE && r % ep.maxp == 0
    ensures !Receive(ep, s.pos, DRAIN_SIZE).overflow
    ensures var s' := NextState(ep, s, Drain);
            Caught(ep, s', sizes) && s'.pos == s.pos + PacketCount(ep, r) + 1 && Taken(s') == Taken(s) + Image(sizes[0])
  {
    hide Frames, HandleHeader, SubmitDrain, Body, PacketCount, Receive, DoneCount, Magic, AnnouncedSize, NextState;
    var t := Receive(ep, s.pos, DRAIN_SIZE);
    AnnouncedFirst(ep, s.pos + PacketCount(ep, r), sizes);
    Fits(r, DRAIN_SIZE, ep.maxp);
    ReceiveThroughHeader(ep, s.pos, DRAIN_SIZE, r);
    HeaderIsLastPacket(ep, s.pos, DRAIN_SIZE);
    SkipStep(ep, s);
    HeaderHandled(ep, s.(v := Idle(s.v), pos := t.next), ep.stream(t.next - 1), sizes);
  }

  /**
   The transfer that reaches a short last packet: the hunt goes on exactly unless that packet has a header's size
   and looks like one.
   */
  lemma ShortEnd(ep: Endpoint, s: System, r: nat, sizes: seq<nat>)
    requires Bulk(ep) && Skipping(ep, s, r, sizes) && r < DRAIN_SIZE && r % ep.maxp != 0
    ensures !Receive(ep, s.pos, DRAIN_SIZE).overflow
    ensures var s' := NextState(ep, s, Drain);
            && s'.pos == s.pos + PacketCount(ep, r)
            && (Hunting(ep, s', 0, sizes) <==> Harmless(ep, s.pos, r))
            && (Harmless(ep, s.pos, r) ==> Taken(s') == Taken(s))
            && (r > 0 && !Harmless(ep, s.pos, r) ==> s'.v == HandleHeader(Idle(s.v), LastPacket(ep, s.pos, r), true))
  {
    hide Frames, HandleHeader, SubmitDrain, Body, PacketCount, Receive, DoneCount, Magic, AnnouncedSize,
         LooksLikeHeader, NextState, Taken;
    var t := Receive(ep, s.pos, DRAIN_SIZE);
    Small(0, ep.maxp);
    ReceiveToShort(ep, s.pos, DRAIN_SIZE, r);
    EmptyBody(ep);
    EmptyBodyHolds(ep, t.next);
    SkipStep(ep, s);
    SkipsOn(ep, s, r, sizes, t.next, 0, sizes);
    if r % ep.maxp == HEADER_SIZE {
      var p := LastPacket(ep, s.pos, r);
      LastIsShort(ep, s.pos, r);
      HeaderAtEnd(r, ep.maxp);
      HeaderIsLastPacket(ep, s.pos, DRAIN_SIZE);
      if LooksLikeHeader(p) {
        HeaderStarts(Idle(s.v), p);
      } else {
        NoHeaderHandled(Idle(s.v), p);
      }
    } else if r >= HEADER_SIZE {
      NotHeaderSized(r, ep.maxp, r % ep.maxp);
    }
  }

  lemma HeaderAtEnd(r: nat, m: nat)
    requires m > HEADER_SIZE && r % m == HEADER_SIZE
    ensures r >= HEADER_SIZE && (r - HEADER_SIZE) % m == 0
  {
    Quotient(r, m, r / m);
    Remainder(r - HEADER_SIZE, m, r / m, 0);
  }

  lemma {:induction false} LastIsShort(ep: Endpoint, pos: nat, r: nat)
    requires ep.maxp > 0 && Body(ep, pos, r) && r > 0 && r % ep.maxp != 0
    ensures |LastPacket(ep, pos, r)| == r % ep.maxp
    decreases r
  {
    if r < ep.maxp {
      Small(r, ep.maxp);
    } else {
      SubPeriod(r, ep.maxp);
      if r == ep.maxp {
        Small(0, ep.maxp);
      }
      LastIsShort(ep, pos + 1, r - ep.maxp);
    }
  }

  // What looks like a header starts a frame transfer or a counted drain.
  lemma HeaderStarts(v: Video, p: seq<Byte>)
    requires LooksLikeHeader(p) && NoneInFlight(v) && PoisonIs(v, 0, 0, 0)
    ensures var v' := HandleHeader(v, p, true); v'.frame.inFlight.Some? || v'.drainRemaining > 0
  {
    hide Magic, AnnouncedSize;
  }

  lemma EmptyBodyHolds(ep: Endpoint, pos: nat)
    requires ep.maxp > 0
    ensures Body(ep, pos, 0)
  {}

  lemma NotHeaderSized(n: nat, m: nat, rem: nat)
    requires m > HEADER_SIZE && n % m == rem != HEADER_SIZE && n >= HEADER_SIZE
    ensures (n - HEADER_SIZE) % m != 0
  {
    if (n - HEADER_SIZE) % m == 0 {
      var q := (n - HEADER_SIZE) / m;
      Quotient(n - HEADER_SIZE, m, q);
      Remainder(n, m, q, HEADER_SIZE);
    }
  }

  lemma Fits(n: nat, k: nat, m: nat)
    requires m > 0 && n % m == 0 && k % m == 0 && n < k
    ensures n + m <= k
  {
    Quotient(n, m, n / m);
    Quotient(k, m, k / m);
    Scale(k / m - n / m, m);
    assert (k / m - n / m) * m == k - n;
  }

  // ---- taken in by a false header

  /** A false header has started a transfer, and the true one comes next. */
  predicate Fooled(ep: Endpoint, s: System, taken: nat) {
    && Undisturbed(s) && |ep.stream(s.pos)| == HEADER_SIZE
    && (|| (OnlyFrame(s.v) && s.v.curBuf.Some? && Taken(s) == taken + 1)
        || (OnlyDrain(s.v) && s.v.drainRemaining > 0 && (s.v.drainRemaining <= HEADER_SIZE ==> Taken(s) == taken)))
  }

  /** The true header has gone by as data: the driver waits for another one or hunts. */
  predicate Missed(ep: Endpoint, s: System, taken: nat) {
    (OnlyHdr(s.v, ep.maxp) && Taken(s) == taken) || (OnlyDrain(s.v) && s.v.drainRemaining == 0)
  }

  lemma MissedIsNotCaught(ep: Endpoint, s: System, sizes: seq<nat>, taken: nat)
    requires ep.maxp > 0 && sizes != [] && Missed(ep, s, taken)
    ensures !Caught(ep, s, sizes)
    ensures !(InSync(ep, s, sizes[1..]) && Taken(s) == taken + 1)
  {
    hide Body, Frames, PacketCount, Taken;
  }

  // The handler is taken in.
  lemma FalseHeaderFools(ep: Endpoint, s: System, v: Video, p: seq<Byte>, taken: nat)
    requires LooksLikeHeader(p) && NoneInFlight(v) && PoisonIs(v, 0, 0, 0) && v.curBuf == None && !v.disconnected
    requires s.streaming.Running? && |ep.stream(s.pos)| == HEADER_SIZE && s.v == HandleHeader(v, p, true)
    requires taken == DoneCount(v.returned) + v.framesDropped
    ensures Fooled(ep, s, taken)
  {
    hide Magic, AnnouncedSize, DoneCount;
  }

  lemma FooledStep(ep: Endpoint, s: System, taken: nat, e: Event)
    requires Bulk(ep) && Fooled(ep, s, taken) && Quiet(e) && e.Completed? && Enabled(ep, s, e)
    ensures Missed(ep, Step(ep, s, e), taken)
  {
    hide DoneCount;
    var p := ep.stream(s.pos);
    if OnlyFrame(s.v) {
      QuietCompletion(ep, s, e, Which.Frame);
      HeaderTakenAsImage(ep, s);
      DoneCountAppend(s.v.returned, Return(s.v.curBuf.value, ERROR, 0, []));
    } else {
      QuietCompletion(ep, s, e, Drain);
      var room := s.v.drain.inFlight.value;
      assert |p| <= room;
      assert Receive(ep, s.pos, room) == Transfer(p, s.pos + 1, false);
    }
  }

  lemma QueueStaysFooled(ep: Endpoint, s: System, b: Buffer, taken: nat)
    requires ep.maxp > 0
    ensures var s' := Step(ep, s, BufferQueued(b));
            (Fooled(ep, s, taken) ==> Fooled(ep, s', taken)) && (Missed(ep, s, taken) ==> Missed(ep, s', taken))
  {
    hide DoneCount;
  }

  lemma {:induction false} MissedRun(ep: Endpoint, s: System, taken: nat, es: seq<Event>)
    requires ep.maxp > 0 && Missed(ep, s, taken) && (forall e :: e in es ==> Quiet(e)) && Legal(ep, s, es)
    requires Completions(es) == 0
    ensures Missed(ep, After(ep, s, es), taken)
    decreases |es|
  {
    hide Missed, Step, Enabled;
    if es != [] {
      assert Quiet(es[0]);
      QueueStaysFooled(ep, s, es[0].buffer, taken);
      MissedRun(ep, Step(ep, s, es[0]), taken, es[1..]);
    }
  }

  lemma {:induction false} FooledRun(ep: Endpoint, s: System, taken: nat, es: seq<Event>)
    requires Bulk(ep) && Fooled(ep, s, taken) && (forall e :: e in es ==> Quiet(e)) && Legal(ep, s, es)
    requires Completions(es) == 1
    ensures Missed(ep, After(ep, s, es), taken)
    decreases |es|
  {
    hide Fooled, Missed, Step, Enabled;
    if es[0].Completed? {
      FooledStep(ep, s, taken, es[0]);
      MissedRun(ep, Step(ep, s, es[0]), taken, es[1..]);
    } else {
      assert Quiet(es[0]);
      QueueStaysFooled(ep, s, es[0].buffer, taken);
      FooledRun(ep, Step(ep, s, es[0]), taken, es[1..]);
    }
  }

  // ---- over whole runs

  // What a run to the next header leaves.
  predicate Decided(ep: Endpoint, s: System, s': System, r: nat, sizes: seq<nat>)
    requires ep.maxp > 0 && sizes != []
  {
    if Harmless(ep, s.pos, r) then
      Caught(ep, s', sizes) && s'.pos == s.pos + PacketCount(ep, r) + 1 && Taken(s') == Taken(s) + Image(sizes[0])
    else Missed(ep, s', Taken(s))
  }

  // From where the same end of the frame is ahead, the same is decided.
  lemma DecidedEarlier(ep: Endpoint, s0: System, r0: nat, s: System, r: nat, s': System, sizes: seq<nat>)
    requires ep.maxp > 0 && sizes != [] && Decided(ep, s, s', r, sizes)
    requires s.pos + PacketCount(ep, r) == s0.pos + PacketCount(ep, r0) && Taken(s) == Taken(s0)
    requires Harmless(ep, s.pos, r) <==> Harmless(ep, s0.pos, r0)
    ensures Decided(ep, s0, s', r0, sizes)
  {
    hide Harmless, Caught, Missed, Taken, PacketCount;
  }

  lemma {:induction false} CaughtRun(ep: Endpoint, s: System, es: seq<Event>, sizes: seq<nat>)
    requires ep.maxp > 0 && sizes != [] && Caught(ep, s, sizes)
    requires (forall e :: e in es ==> Quiet(e)) && Legal(ep, s, es) && Completions(es) == 0
    ensures var s' := After(ep, s, es); Caught(ep, s', sizes) && Taken(s') == Taken(s) && s'.pos == s.pos
    decreases |es|
  {
    hide Body, Frames, PacketCount, TakingFrame, Draining, Taken, Step, Enabled;
    if es != [] {
      assert Quiet(es[0]);
      QueueStays(ep, s, es[0].buffer, sizes[1..]);
      CaughtRun(ep, Step(ep, s, es[0]), es[1..], sizes);
    }
  }

  // The true header at the end of a frame.
  lemma HeaderAhead(ep: Endpoint, s: System, r: nat, sizes: seq<nat>)
    requires ep.maxp > 0 && Ahead(ep, s, r, sizes)
    ensures |ep.stream(s.pos + PacketCount(ep, r))| == HEADER_SIZE
  {
    hide Body, PacketCount;
    AnnouncedFirst(ep, s.pos + PacketCount(ep, r), sizes);
  }

  lemma ShortEndFools(ep: Endpoint, s: System, r: nat, sizes: seq<nat>)
    requires Bulk(ep) && Skipping(ep, s, r, sizes) && r < DRAIN_SIZE && !Harmless(ep, s.pos, r)
    ensures r % ep.maxp != 0 && Fooled(ep, NextState(ep, s, Drain), Taken(s))
  {
    hide Frames, Body, PacketCount, Receive, HandleHeader, DoneCount, LooksLikeHeader, NextState;
    ShortEnd(ep, s, r, sizes);
    HeaderAhead(ep, s, r, sizes);
    NextRuns(ep, s, Drain);
    FalseHeaderFools(ep, NextState(ep, s, Drain), Idle(s.v), LastPacket(ep, s.pos, r), Taken(s));
  }

  lemma NextRuns(ep: Endpoint, s: System, w: Which)
    requires ep.maxp > 0 && s.v.Get(w).inFlight.Some?
    ensures NextState(ep, s, w).streaming == s.streaming
  {
    hide Receive;
  }

  lemma QueueKeepsAhead(ep: Endpoint, s: System, e: Event, r: nat, sizes: seq<nat>)
    requires ep.maxp > 0 && Quiet(e) && !e.Completed? && Enabled(ep, s, e)
    ensures var s' := Step(ep, s, e);
            && (Skipping(ep, s, r, sizes) ==> Skipping(ep, s', r, sizes))
            && (Anywhere(ep, s, r, sizes) ==> Anywhere(ep, s', r, sizes))
            && Taken(s') == Taken(s) && s'.pos == s.pos
  {
    hide Skipping, Anywhere, Taken, Step;
    QueueStays(ep, s, e.buffer, sizes);
  }

  // What is left of the frame after an event during the hunt, while the hunt goes on.
  function Rest(r: nat, e: Event): nat {
    if !e.Completed? then r else if r >= DRAIN_SIZE then r - DRAIN_SIZE else 0
  }

  predicate HuntGoesOn(ep: Endpoint, s: System, r: nat, e: Event)
    requires ep.maxp > 0
  {
    !e.Completed? || r >= DRAIN_SIZE || (r % ep.maxp != 0 && Harmless(ep, s.pos, r))
  }

  // What one event of the hunt does.
  lemma ResyncStep(ep: Endpoint, s: System, r: nat, sizes: seq<nat>, e: Event)
    requires Bulk(ep) && Skipping(ep, s, r, sizes) && Quiet(e) && Enabled(ep, s, e)
    ensures var s' := Step(ep, s, e);
            if HuntGoesOn(ep, s, r, e) then
              && Skipping(ep, s', Rest(r, e), sizes) && Taken(s') == Taken(s)
              && s'.pos + PacketCount(ep, Rest(r, e)) == s.pos + PacketCount(ep, r)
              && (Harmless(ep, s'.pos, Rest(r, e)) <==> Harmless(ep, s.pos, r))
              && Hunts(ep, r) == Hunts(ep, Rest(r, e)) + (if e.Completed? then 1 else 0)
            else
              && e.Completed? && Hunts(ep, r) == (if r % ep.maxp == 0 then 1 else 2)
              && (r % ep.maxp == 0 ==>
                    && Caught(ep, s', sizes) && s'.pos == s.pos + PacketCount(ep, r) + 1
                    && Taken(s') == Taken(s) + Image(sizes[0]))
              && (r % ep.maxp != 0 ==> Fooled(ep, s', Taken(s)) && !Harmless(ep, s.pos, r))
  {
    hide Skipping, Frames, Body, PacketCount, Receive, AfterCompletion, NextState, Taken, Caught,
         Harmless, Step, Enabled;
    hide Fooled;
    if !e.Completed? {
      QueueKeepsAhead(ep, s, e, r, sizes);
    } else {
      OnlyDrainRuns(ep, s, r, sizes, e);
      HuntArrives(ep, s, r, sizes);
      if r >= DRAIN_SIZE {
        HuntsFull(ep, s, r, sizes);
      } else if r % ep.maxp != 0 {
        if Harmless(ep, s.pos, r) {
          NothingAhead(ep, Step(ep, s, e).pos);
        } else {
          ShortEndFools(ep, s, r, sizes);
        }
      }
    }
  }

  /**
   Resync converges if and only if the end of the frame does not look like a header: from r bytes before that end,
   after exactly `Hunts(r)` error-free drain transfers, the next frame's header is the packet just behind, and that
   frame goes to a buffer or is drained by its count; otherwise its header has been missed.
   */
  lemma {:induction false} ResyncConverges(ep: Endpoint, s: System, r: nat, sizes: seq<nat>, es: seq<Event>)
    requires Bulk(ep) && Skipping(ep, s, r, sizes) && (forall e :: e in es ==> Quiet(e)) && Legal(ep, s, es)
    requires Completions(es) == Hunts(ep, r)
    ensures Decided(ep, s, After(ep, s, es), r, sizes)
    decreases |es|
  {
    assert sizes != [];
    hide Skipping, Frames, Body, PacketCount, Receive, AfterCompletion, NextState, Taken, Caught,
         Harmless, Step, Enabled, Missed;
    hide Decided, Fooled, HuntGoesOn, Hunts;
    if es == [] {
      HuntsOn(ep, r);
    } else {
      var s', end := Step(ep, s, es[0]), After(ep, s, es);
      ResyncStep(ep, s, r, sizes, es[0]);
      if HuntGoesOn(ep, s, r, es[0]) {
        ResyncConverges(ep, s', Rest(r, es[0]), sizes, es[1..]);
        DecidedEarlier(ep, s, r, s', Rest(r, es[0]), end, sizes);
      } else if r % ep.maxp == 0 {
        CaughtRun(ep, s', es[1..], sizes);
        CaughtDecides(ep, s, r, end, sizes);
      } else {
        FooledRun(ep, s', Taken(s), es[1..]);
        MissedDecides(ep, s, r, end, sizes);
      }
    }
  }

  lemma HuntsOn(ep: Endpoint, r: nat)
    requires ep.maxp > 0
    ensures Hunts(ep, r) > 0
  {}

  lemma OnlyDrainRuns(ep: Endpoint, s: System, r: nat, sizes: seq<nat>, e: Event)
    requires ep.maxp > 0 && Skipping(ep, s, r, sizes) && Quiet(e) && e.Completed? && Enabled(ep, s, e)
    ensures s.v.drain.inFlight.Some? && Step(ep, s, e) == NextState(ep, s, Drain)
  {
    hide Frames, Body, PacketCount, Receive, AfterCompletion;
    QuietCompletion(ep, s, e, Drain);
  }

  lemma NothingAhead(ep: Endpoint, pos: nat)
    requires ep.maxp > 0
    ensures Harmless(ep, pos, 0) && PacketCount(ep, 0) == 0 && Hunts(ep, 0) == 1
  {
    Small(0, ep.maxp);
  }

  lemma WholeIsHarmless(ep: Endpoint, pos: nat, r: nat)
    requires ep.maxp > 0 && r % ep.maxp == 0
    ensures Harmless(ep, pos, r)
  {}

  lemma CaughtDecides(ep: Endpoint, s: System, r: nat, s': System, sizes: seq<nat>)
    requires ep.maxp > 0 && sizes != [] && r % ep.maxp == 0 && Caught(ep, s', sizes)
    requires s'.pos == s.pos + PacketCount(ep, r) + 1 && Taken(s') == Taken(s) + Image(sizes[0])
    ensures Decided(ep, s, s', r, sizes)
  {
    WholeIsHarmless(ep, s.pos, r);
    hide Harmless, Caught, Taken, PacketCount;
  }

  lemma MissedDecides(ep: Endpoint, s: System, r: nat, s': System, sizes: seq<nat>)
    requires ep.maxp > 0 && sizes != [] && !Harmless(ep, s.pos, r) && Missed(ep, s', Taken(s))
    ensures Decided(ep, s, s', r, sizes)
  {
    hide Harmless, Missed, Taken;
  }

  // ---- from anywhere

  // The transfers from a header URB at the last r bytes of a frame to the next frame's header.
  function Transfers(ep: Endpoint, r: nat): nat
    requires ep.maxp > 0
  {
    if r == 0 then 1 else 1 + Hunts(ep, if r >= ep.maxp then r - ep.maxp else 0)
  }

  lemma HeaderTaken(ep: Endpoint, s: System, sizes: seq<nat>)
    requires Bulk(ep) && AtHeader(ep, s, sizes) && sizes != []
    ensures var s' := NextState(ep, s, Header);
            Caught(ep, s', sizes) && s'.pos == s.pos + 1 && Taken(s') == Taken(s) + Image(sizes[0])
  {
    hide Body, Frames, PacketCount, Receive, HandleHeader, NextState, DoneCount, LooksLikeHeader, AnnouncedSize;
    HeaderArrives(ep, s, sizes);
    AnnouncedFirst(ep, s.pos, sizes);
    HeaderHandled(ep, s.(v := NoHeader(s.v), pos := s.pos + 1), ep.stream(s.pos), sizes);
  }

  lemma StartFools(ep: Endpoint, s: System, r: nat, sizes: seq<nat>)
    requires Bulk(ep) && Anywhere(ep, s, r, sizes) && 0 < r < ep.maxp && !Harmless(ep, s.pos, r)
    ensures Fooled(ep, NextState(ep, s, Header), Taken(s))
  {
    hide Frames, Body, PacketCount, Receive, HandleHeader, DoneCount, LooksLikeHeader, NextState;
    LostHeader(ep, s, r, sizes);
    HeaderAhead(ep, s, r, sizes);
    NothingAhead(ep, s.pos + 1);
    NextRuns(ep, s, Header);
    FalseHeaderFools(ep, NextState(ep, s, Header), NoHeader(s.v), LastPacket(ep, s.pos, r), Taken(s));
  }

  // What the first transfer does.
  lemma StartStep(ep: Endpoint, s: System, r: nat, sizes: seq<nat>, e: Event)
    requires Bulk(ep) && Anywhere(ep, s, r, sizes) && Quiet(e) && e.Completed? && Enabled(ep, s, e)
    ensures var s' := Step(ep, s, e); var r' := if r >= ep.maxp then r - ep.maxp else 0;
            if r == 0 then
              && Caught(ep, s', sizes) && Taken(s') == Taken(s) + Image(sizes[0])
              && s'.pos == s.pos + PacketCount(ep, r) + 1 && r % ep.maxp == 0
            else if r >= ep.maxp || Harmless(ep, s.pos, r) then
              && Skipping(ep, s', r', sizes) && Taken(s') == Taken(s)
              && s'.pos + PacketCount(ep, r') == s.pos + PacketCount(ep, r)
              && (Harmless(ep, s'.pos, r') <==> Harmless(ep, s.pos, r))
            else Fooled(ep, s', Taken(s)) && Transfers(ep, r) == 2
  {
    assert sizes != [];
    hide Anywhere, Frames, Body, PacketCount, Receive, AfterCompletion, NextState, Taken, Caught,
         Harmless, Step, Enabled;
    hide Fooled, Hunts, Skipping;
    OnlyHeaderRuns(ep, s, r, sizes, e);
    NothingAhead(ep, s.pos + 1);
    if r == 0 {
      Small(0, ep.maxp);
      HeaderTaken(ep, s, sizes);
    } else if r >= ep.maxp || Harmless(ep, s.pos, r) {
      LostHeader(ep, s, r, sizes);
      HuntingIs(ep, Step(ep, s, e), if r >= ep.maxp then r - ep.maxp else 0, sizes);
    } else {
      StartFools(ep, s, r, sizes);
    }
  }

  lemma {:induction false} DecidedFromAnywhere(ep: Endpoint, s: System, r: nat, sizes: seq<nat>, es: seq<Event>)
    requires Bulk(ep) && Anywhere(ep, s, r, sizes) && (forall e :: e in es ==> Quiet(e)) && Legal(ep, s, es)
    requires Completions(es) == Transfers(ep, r)
    ensures Decided(ep, s, After(ep, s, es), r, sizes)
    decreases |es|
  {
    assert sizes != [];
    hide Anywhere, Frames, Body, PacketCount, Receive, AfterCompletion, NextState, Taken, Caught,
         Harmless, Step, Enabled, Missed;
    hide Decided, Hunts, Skipping, Fooled;
    if es != [] {
      var s', end := Step(ep, s, es[0]), After(ep, s, es);
      if es[0].Completed? {
        StartStep(ep, s, r, sizes, es[0]);
        if r == 0 {
          CaughtRun(ep, s', es[1..], sizes);
          CaughtDecides(ep, s, r, end, sizes);
        } else if r >= ep.maxp || Harmless(ep, s.pos, r) {
          var r' := if r >= ep.maxp then r - ep.maxp else 0;
          ResyncConverges(ep, s', r', sizes, es[1..]);
          DecidedEarlier(ep, s, r, s', r', end, sizes);
        } else {
          FooledRun(ep, s', Taken(s), es[1..]);
          MissedDecides(ep, s, r, end, sizes);
        }
      } else {
        QueueKeepsAhead(ep, s, es[0], r, sizes);
        DecidedFromAnywhere(ep, s', r, sizes, es[1..]);
        DecidedEarlier(ep, s, r, s', r, end, sizes);
      }
    }
  }

  lemma HuntingIs(ep: Endpoint, s: System, r: nat, sizes: seq<nat>)
    requires ep.maxp > 0 && Skipping(ep, s, r, sizes)
    ensures Hunting(ep, s, r, sizes) <==> Harmless(ep, s.pos, r)
  {
    hide Harmless, Skipping;
  }

  lemma OnlyHeaderRuns(ep: Endpoint, s: System, r: nat, sizes: seq<nat>, e: Event)
    requires ep.maxp > 0 && Anywhere(ep, s, r, sizes) && Quiet(e) && e.Completed? && Enabled(ep, s, e)
    ensures s.v.hdr.inFlight.Some? && Step(ep, s, e) == NextState(ep, s, Header)
    ensures r == 0 ==> AtHeader(ep, s, sizes)
  {
    hide Frames, Body, Receive, AfterCompletion;
    QuietCompletion(ep, s, e, Header);
  }

  /**
   Wherever in a frame the header URB starts: after exactly the transfers that the bytes left in this frame need, the
   next frame has been caught, with nothing skipped but those bytes and its header, if and only if the end of this
   frame does not look like a header.
   */
  lemma ConvergesIff(ep: Endpoint, s: System, r: nat, sizes: seq<nat>, es: seq<Event>)
    requires Bulk(ep) && Anywhere(ep, s, r, sizes) && (forall e :: e in es ==> Quiet(e)) && Legal(ep, s, es)
    requires Completions(es) == Transfers(ep, r)
    ensures var s' := After(ep, s, es);
            && (Caught(ep, s', sizes) <==> Harmless(ep, s.pos, r))
            && (Harmless(ep, s.pos, r) ==>
                 s'.pos == s.pos + PacketCount(ep, r) + 1 && Taken(s') == Taken(s) + Image(sizes[0]))
            && (sizes[0] == SIZEIMAGE ==>
                 (InSync(ep, s', sizes[1..]) && Taken(s') == Taken(s) + 1 <==> Harmless(ep, s.pos, r)))
  {
    hide Harmless, PacketCount, Taken, Missed, TakingFrame, Draining, AtHeader, Legal, After;
    DecidedFromAnywhere(ep, s, r, sizes, es);
    if !Harmless(ep, s.pos, r) {
      MissedIsNotCaught(ep, After(ep, s, es), sizes, Taken(s));
    }
  }

  // ---- such runs exist: the next error-free completion never overflows

  // The URB in flight.
  function Current(v: Video): Which {
    if v.hdr.inFlight.Some? then Header else if v.frame.inFlight.Some? then Which.Frame else Drain
  }

  lemma HuntEnabled(ep: Endpoint, s: System, r: nat, sizes: seq<nat>)
    requires Bulk(ep) && Hunting(ep, s, r, sizes)
    ensures Enabled(ep, s, Completed(Drain, Good, true))
  {
    hide Frames, Body, PacketCount, Receive, LooksLikeHeader;
    HuntArrives(ep, s, r, sizes);
  }

  lemma WaitEnabled(ep: Endpoint, s: System)
    requires ep.Valid() && s.v.hdr.inFlight == Some(ep.maxp)
    ensures Enabled(ep, s, Completed(Header, Good, true))
  {}

  lemma InSyncEnabled(ep: Endpoint, s: System, sizes: seq<nat>)
    requires Bulk(ep) && InSync(ep, s, sizes) && sizes != []
    ensures Enabled(ep, s, Completed(Current(s.v), Good, true))
  {
    hide Frames, Body, PacketCount, Receive;
    if s.v.hdr.inFlight.Some? {
      WaitEnabled(ep, s);
    } else if s.v.frame.inFlight.Some? {
      ReceiveBody(ep, s.pos, SIZEIMAGE, SIZEIMAGE);
    } else {
      ReceiveBody(ep, s.pos, DrainLength(s.v.drainRemaining), s.v.drainRemaining);
    }
  }

  /** From every hunt there is a quiet run of the length that convergence needs. */
  lemma {:induction false} HuntRun(ep: Endpoint, s: System, r: nat, sizes: seq<nat>) returns (es: seq<Event>)
    requires Bulk(ep) && Hunting(ep, s, r, sizes)
    ensures (forall e :: e in es ==> Quiet(e)) && Legal(ep, s, es) && Completions(es) == Hunts(ep, r)
    decreases r, r % ep.maxp
  {
    hide Frames, Body, PacketCount, Receive, AfterCompletion, Enabled, Skipping, Harmless,
         NextState, Step, Taken, Caught;
    var e := Completed(Drain, Good, true);
    HuntEnabled(ep, s, r, sizes);
    StepIsNext(ep, s, Drain);
    HuntArrives(ep, s, r, sizes);
    NothingAhead(ep, s.pos);
    es := [];
    if r >= DRAIN_SIZE {
      es := HuntRun(ep, Step(ep, s, e), r - DRAIN_SIZE, sizes);
    } else if r % ep.maxp != 0 {
      Small(0, ep.maxp);
      es := HuntRun(ep, Step(ep, s, e), 0, sizes);
    }
    es := [e] + es;
  }

  lemma StepIsNext(ep: Endpoint, s: System, w: Which)
    requires ep.maxp > 0 && Enabled(ep, s, Completed(w, Good, true))
    ensures s.v.Get(w).inFlight.Some? && Step(ep, s, Completed(w, Good, true)) == NextState(ep, s, w)
  {
    hide AfterCompletion, Receive;
  }

  lemma AnywhereRun(ep: Endpoint, s: System, r: nat, sizes: seq<nat>) returns (es: seq<Event>)
    requires Bulk(ep) && Anywhere(ep, s, r, sizes) && Harmless(ep, s.pos, r)
    ensures (forall e :: e in es ==> Quiet(e)) && Legal(ep, s, es) && Completions(es) == Transfers(ep, r)
  {
    hide Frames, Body, PacketCount, Receive, AfterCompletion, Enabled, Hunts, Harmless;
    var e := Completed(Header, Good, true);
    WaitEnabled(ep, s);
    StepIsNext(ep, s, Header);
    es := [];
    if r > 0 {
      LostHeader(ep, s, r, sizes);
      es := HuntRun(ep, Step(ep, s, e), if r >= ep.maxp then r - ep.maxp else 0, sizes);
    }
    es := [e] + es;
  }

  // Transfers until the next header is waited for, counted roughly.
  function Left(v: Video): nat {
    if v.hdr.inFlight.Some? then 0 else if v.frame.inFlight.Some? then 1 else v.drainRemaining
  }

  /** In step, there is a quiet run that takes any number of headers to come. */
  lemma {:induction false} SyncRun(ep: Endpoint, s: System, sizes: seq<nat>, headers: nat) returns (es: seq<Event>)
    requires Bulk(ep) && InSync(ep, s, sizes) && headers < |sizes|
    ensures (forall e :: e in es ==> Quiet(e)) && Legal(ep, s, es) && Headers(es) == headers
    decreases headers, Left(s.v)
  {
    hide Frames, Body, PacketCount, Receive, AfterCompletion, Enabled;
    es := [];
    if headers > 0 {
      var e := Completed(Current(s.v), Good, true);
      InSyncEnabled(ep, s, sizes);
      StepIsNext(ep, s, Current(s.v));
      var s' := Step(ep, s, e);
      QuietStep(ep, s, e, sizes);
      if s.v.hdr.inFlight.Some? {
        es := SyncRun(ep, s', sizes[1..], headers - 1);
      } else {
        if s.v.frame.inFlight.Some? {
          FrameArrives(ep, s, sizes);
        } else {
          DrainArrives(ep, s, sizes);
        }
        es := SyncRun(ep, s', sizes, headers);
      }
      es := [e] + es;
    }
  }

  // ---- a false header

  /**
   Where the end of the old frame does announce an image, its would-be image takes in the next frame's header: the
   buffer comes back as failed, and that frame is neither delivered nor under way nor counted as dropped.
   */
  lemma FalseHeaderLosesFrame(ep: Endpoint, s: System, r: nat, sizes: seq<nat>)
    requires Bulk(ep) && Skipping(ep, s, r, sizes) && r < DRAIN_SIZE && r > 0 && r % ep.maxp == HEADER_SIZE
    requires AnnouncesFrame(LastPacket(ep, s.pos, r), SIZEIMAGE) && s.v.bufList != []
    ensures var s1 := NextState(ep, s, Drain);
            && OnlyFrame(s1.v) && s1.pos == s.pos + PacketCount(ep, r)
            && var s2 := NextState(ep, s1, Which.Frame);
            && OnlyHdr(s2.v, ep.maxp) && s2.pos == s.pos + PacketCount(ep, r) + 1
            && s2.v.returned == s.v.returned + [Return(s.v.bufList[0], ERROR, 0, [])]
            && Taken(s2) == Taken(s)
  {
    hide Frames, Body, PacketCount, Receive, DoneCount, NextState, Magic, AnnouncedSize, Harmless;
    assert !Harmless(ep, s.pos, r) by { FalseEnd(ep, s.pos, r); }
    ShortEnd(ep, s, r, sizes);
    var s1 := NextState(ep, s, Drain);
    assert s1.v == HandleHeader(Idle(s.v), LastPacket(ep, s.pos, r), true);
    AnnouncedFirst(ep, s1.pos, sizes);
    HeaderTakenAsImage(ep, s1);
    DoneCountAppend(s.v.returned, Return(s.v.bufList[0], ERROR, 0, []));
  }

  lemma FalseEnd(ep: Endpoint, pos: nat, r: nat)
    requires ep.maxp > 0 && r > 0 && r % ep.maxp == HEADER_SIZE && LooksLikeHeader(LastPacket(ep, pos, r))
    ensures !Harmless(ep, pos, r)
  {}

  // A header packet ends a frame transfer at once.
  lemma HeaderTakenAsImage(ep: Endpoint, s: System)
    requires Bulk(ep) && OnlyFrame(s.v) && s.v.curBuf.Some? && PoisonIs(s.v, 0, 0, 0)
    requires |ep.stream(s.pos)| == HEADER_SIZE
    ensures var s' := NextState(ep, s, Which.Frame);
            && s'.pos == s.pos + 1 && OnlyHdr(s'.v, ep.maxp)
            && s'.v.returned == s.v.returned + [Return(s.v.curBuf.value, ERROR, 0, [])]
            && s'.v.framesDropped == s.v.framesDropped
  {
    assert Receive(ep, s.pos, SIZEIMAGE) == Transfer(ep.stream(s.pos), s.pos + 1, false);
  }

  // A header that announces an image.
  function ImageHeader(): (h: seq<Byte>)
    ensures |h| == HEADER_SIZE
  {
    LE32(HEADER_MAGIC) + Zeros(4) + LE32(SIZEIMAGE) + Zeros(8)
  }

  lemma ImageHeaderAnnounces()
    ensures AnnouncesFrame(ImageHeader(), SIZEIMAGE)
  {
    hide LE32, HostUInt32;
    var h := ImageHeader();
    assert h[0..4] == LE32(HEADER_MAGIC) && h[8..12] == LE32(SIZEIMAGE);
    ReadLE32(h, 0, HEADER_MAGIC);
    ReadLE32(h, 8, SIZEIMAGE);
  }

  // The end of a frame, 532 bytes whose last packet announces an image, and then an image.
  function MisleadingPacket(k: nat): (p: seq<Byte>)
    ensures |p| == if k == 1 || k == 2 then HEADER_SIZE else if k == 1015 then 256 else 512
    ensures k == 1 || k == 2 ==> p == ImageHeader()
  {
    if k == 1 || k == 2 then ImageHeader() else if k == 1015 then Zeros(256) else Zeros(512)
  }

  function Misleading(): Endpoint {
    Endpoint(512, (k: nat) => MisleadingPacket(k))
  }

  lemma {:induction false} MisleadingBody(k: nat)
    requires 3 <= k <= 1015
    ensures var n := 512 * (1015 - k) + 256; Body(Misleading(), k, n) && PacketCount(Misleading(), n) == 1016 - k
    decreases 1015 - k
  {
    hide ImageHeader, MisleadingPacket;
    assert Misleading().stream(k) == MisleadingPacket(k);
    if k < 1015 {
      MisleadingBody(k + 1);
    }
  }

  lemma MisleadingStream()
    ensures var ep := Misleading();
            && Bulk(ep) && ep.maxp == 512 && ep.stream(1) == ep.stream(2) == ImageHeader()
            && Body(ep, 0, 532) && PacketCount(ep, 532) == 2 && PacketCount(ep, 20) == 1 && Frames(ep, 2, [SIZEIMAGE])
  {
    var ep := Misleading();
    ImageHeaderAnnounces();
    MisleadingBody(3);
    hide AnnouncesFrame, ImageHeader, MisleadingPacket;
    assert ep.stream(0) == MisleadingPacket(0) && ep.stream(1) == MisleadingPacket(1)
           && ep.stream(2) == MisleadingPacket(2);
    assert Bulk(ep);
    OneImage(ep, 2);
    OldEnd(ep);
  }

  lemma OneImage(ep: Endpoint, pos: nat)
    requires ep.maxp > 0 && AnnouncesFrame(ep.stream(pos), SIZEIMAGE) && Body(ep, pos + 1, SIZEIMAGE)
    ensures Frames(ep, pos, [SIZEIMAGE])
  {
    hide AnnouncesFrame, Body, PacketCount;
    assert [SIZEIMAGE][1..] == [];
  }

  lemma OldEnd(ep: Endpoint)
    requires ep.maxp == 512 && |ep.stream(0)| == 512 && |ep.stream(1)| == HEADER_SIZE
    ensures Body(ep, 0, 532) && PacketCount(ep, 532) == 2 && PacketCount(ep, 20) == 1
  {
    assert Body(ep, 1, 20) && PacketCount(ep, 20) == 1;
  }

  lemma Started(ep: Endpoint)
    requires ep.Valid()
    ensures var q, start := BufferQueued(7), StartCalled(true, true);
            && Enabled(ep, INITIAL, q) && Enabled(ep, Step(ep, INITIAL, q), start)
            && var s := Step(ep, Step(ep, INITIAL, q), start);
            && Undisturbed(s) && OnlyHdr(s.v, ep.maxp) && s.v.curBuf == None && s.pos == 0
            && s.v.bufList == [7] && s.v.returned == [] && Taken(s) == 0
  {}

  const LOSING :=
    [BufferQueued(7), StartCalled(true, true), Completed(Header, Good, true), Completed(Drain, Good, true),
     Completed(Which.Frame, Good, true)]

  /**
   It can happen, and without any error: the driver starts 532 bytes before the end of a frame with one buffer
   queued, the image behind it goes by, and the buffer has come back as failed.
   */
  lemma SyncIsLost()
    ensures var ep := Misleading();
            && Bulk(ep) && Body(ep, 0, 532) && Frames(ep, PacketCount(ep, 532), [SIZEIMAGE])
            && Legal(ep, INITIAL, LOSING)
            && var s := After(ep, INITIAL, LOSING);
            && s.pos == PacketCount(ep, 532) + 1 && Taken(s) == 0 && s.v.returned == [Return(7, ERROR, 0, [])]
  {
    var ep := Misleading();
    MisleadingStream();
    ImageHeaderAnnounces();
    hide Misleading, MisleadingPacket, ImageHeader, Legal, After;
    LosingRun(ep);
  }

  lemma LosingRun(ep: Endpoint)
    requires Bulk(ep) && ep.maxp == 512 && AnnouncesFrame(ep.stream(1), SIZEIMAGE) && |ep.stream(2)| == HEADER_SIZE
    requires Body(ep, 0, 532) && PacketCount(ep, 532) == 2 && PacketCount(ep, 20) == 1 && Frames(ep, 2, [SIZEIMAGE])
    ensures Legal(ep, INITIAL, LOSING)
    ensures var s := After(ep, INITIAL, LOSING);
            s.pos == 3 && Taken(s) == 0 && s.v.returned == [Return(7, ERROR, 0, [])]
  {
    hide Body, Frames, PacketCount, Receive, Taken, HandleHeader, AfterCompletion, StartStreaming,
         Enabled, Legal, After, AnnouncesFrame, Step;
    Started(ep);
    var s0 := Step(ep, INITIAL, LOSING[0]);
    var s1 := Step(ep, s0, LOSING[1]);
    WaitEnabled(ep, s1);
    StepIsNext(ep, s1, Header);
    LostFull(ep, s1, 532, [SIZEIMAGE]);
    var s2 := Step(ep, s1, LOSING[2]);
    SameTaken(s1, s2);
    Small(20, 512);
    SkipEnabled(ep, s2, 20, [SIZEIMAGE]);
    StepIsNext(ep, s2, Drain);
    FalseHeaderLosesFrame(ep, s2, 20, [SIZEIMAGE]);
    var s3 := Step(ep, s2, LOSING[3]);
    ImageEnabled(ep, s3);
    StepIsNext(ep, s3, Which.Frame);
    assert LOSING[4..] == [LOSING[4]] + [] && LOSING[3..] == [LOSING[3]] + LOSING[4..];
    assert LOSING[2..] == [LOSING[2]] + LOSING[3..] && LOSING[1..] == [LOSING[1]] + LOSING[2..];
    assert LOSING == [LOSING[0]] + LOSING[1..];
    FirstStep(ep, s3, LOSING[4], []);
    FirstStep(ep, s2, LOSING[3], LOSING[4..]);
    FirstStep(ep, s1, LOSING[2], LOSING[3..]);
    FirstStep(ep, s0, LOSING[1], LOSING[2..]);
    FirstStep(ep, INITIAL, LOSING[0], LOSING[1..]);
  }

  lemma SameTaken(s: System, s': System)
    requires s'.v.returned == s.v.returned && s'.v.framesDropped == s.v.framesDropped
    requires s.v.frame.inFlight == None && s'.v.frame.inFlight == None
    ensures Taken(s') == Taken(s)
  {}

  lemma FirstStep(ep: Endpoint, s: System, e: Event, rest: seq<Event>)
    requires ep.maxp > 0 && Enabled(ep, s, e) && (rest == [] || Legal(ep, Step(ep, s, e), rest))
    ensures Legal(ep, s, [e] + rest)
    ensures After(ep, s, [e] + rest) == if rest == [] then Step(ep, s, e) else After(ep, Step(ep, s, e), rest)
  {
    hide Step, Enabled;
    assert ([e] + rest)[1..] == rest;
  }

  lemma SkipEnabled(ep: Endpoint, s: System, r: nat, sizes: seq<nat>)
    requires Bulk(ep) && Skipping(ep, s, r, sizes) && r < DRAIN_SIZE && r % ep.maxp != 0
    ensures Enabled(ep, s, Completed(Drain, Good, true))
  {
    hide Frames, Body, PacketCount, Receive, LooksLikeHeader;
    ShortEnd(ep, s, r, sizes);
  }

  lemma ImageEnabled(ep: Endpoint, s: System)
    requires Bulk(ep) && OnlyFrame(s.v) && |ep.stream(s.pos)| == HEADER_SIZE
    ensures Enabled(ep, s, Completed(Which.Frame, Good, true))
  {}
}
