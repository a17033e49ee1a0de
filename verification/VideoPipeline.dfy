/**
 The kernel driver's video pipeline. Header, frame and drain transfers share one bulk endpoint; their
 completion handlers pass the stream from one to the next. `Video` is the driver's state with the URBs as the
 USB core sees them; the class runs the handlers on its own fields and is proved to compute these functions.
 */
module VideoPipeline {
  import opened Bytes
  import opened Wrappers

  const SIZEIMAGE := 518400        // (1920 / 2) * (1080 / 2)
  const MAX_FRAME_SIZE := 8294400  // 4 * 1920 * 1080
  const DRAIN_SIZE := 65536
  const HEADER_SIZE := 20
  const HEADER_MAGIC := 0x46425553

  type Buffer = nat

  datatype BufferState = DONE | ERROR | QUEUED

  // One vb2_buffer_done call; data and sequence number matter for DONE only.
  datatype Return = Return(buffer: Buffer, state: BufferState, sequence: uint32, data: seq<Byte>)

  /** A URB: how often it is poisoned, and its transfer length while it is in flight. */
  datatype Urb = Urb(poison: nat, inFlight: Option<nat>)

  datatype Which = Header | Frame | Drain

  datatype Video = Video(
    hdr: Urb, frame: Urb, drain: Urb,
    bufList: seq<Buffer>, curBuf: Option<Buffer>,
    drainRemaining: nat, sequence: uint32, framesDropped: nat, disconnected: bool,
    returned: seq<Return>)
  {
    function Get(w: Which): Urb {
      match w
      case Header => hdr
      case Frame => frame
      case Drain => drain
    }

    function Set(w: Which, u: Urb): Video {
      match w
      case Header => this.(hdr := u)
      case Frame => this.(frame := u)
      case Drain => this.(drain := u)
    }
  }

  // What a completion handler finds: cancelled or device gone, another error status, or data.
  datatype Completion = Dead | Failed | Received(data: seq<Byte>)

  // usb_submit_urb refuses a poisoned or busy URB; `accepted` is false for every other error.
  predicate Accepts(u: Urb, accepted: bool) {
    u.poison == 0 && u.inFlight == None && accepted
  }

  function Submit(v: Video, w: Which, length: nat, accepted: bool): Video {
    if Accepts(v.Get(w), accepted) then v.Set(w, v.Get(w).(inFlight := Some(length))) else v
  }

  function Returned(v: Video, b: Buffer, s: BufferState, sequence: uint32, data: seq<Byte>): Video {
    v.(returned := v.returned + [Return(b, s, sequence, data)])
  }

  function DrainLength(count: nat): nat {
    if count == 0 || count > DRAIN_SIZE then DRAIN_SIZE else count
  }

  // count == 0 asks to hunt for the next header.
  function SubmitDrain(v: Video, count: nat, accepted: bool): Video {
    Submit(v.(drainRemaining := count), Drain, DrainLength(count), accepted)
  }

  function Magic(header: seq<Byte>): uint32
    requires |header| == HEADER_SIZE
  {
    HostUInt32(header, 0)
  }

  function AnnouncedSize(header: seq<Byte>): uint32
    requires |header| == HEADER_SIZE
  {
    HostUInt32(header, 8)
  }

  function HandleHeader(v: Video, header: seq<Byte>, accepted: bool): Video
    requires |header| == HEADER_SIZE
  {
    var size := AnnouncedSize(header);
    if Magic(header) != HEADER_MAGIC then SubmitDrain(v, 0, accepted)
    else if size != SIZEIMAGE then SubmitDrain(v, if size <= MAX_FRAME_SIZE then size else 0, accepted)
    else if v.bufList == [] then SubmitDrain(v.(framesDropped := v.framesDropped + 1), size, accepted)
    else
      var b, popped := v.bufList[0], v.(bufList := v.bufList[1..]);
      if Accepts(v.frame, accepted) then Submit(popped.(curBuf := Some(b)), Frame, size, accepted)
      else Returned(popped.(curBuf := None), b, ERROR, 0, [])
  }

  function HdrComplete(v: Video, maxp: nat, c: Completion, accepted: bool): Video {
    var w := v.(hdr := v.hdr.(inFlight := None));
    match c
    case Dead => w
    case Failed => Submit(w, Header, maxp, accepted)
    case Received(data) =>
      if |data| != HEADER_SIZE then SubmitDrain(w, 0, accepted) else HandleHeader(w, data, accepted)
  }

  function FrameComplete(v: Video, maxp: nat, c: Completion, accepted: bool): Video
    requires v.frame.inFlight.Some?
  {
    var w := v.(frame := v.frame.(inFlight := None));
    if c.Dead? then w
    else
      var x := w.(curBuf := None);
      var y := match v.curBuf
        case None => x
        case Some(b) =>
          if c.Received? && |c.data| == v.frame.inFlight.value
          then Returned(x.(sequence := (v.sequence + 1) % 0x1_0000_0000), b, DONE, v.sequence, c.data)
          else Returned(x, b, ERROR, 0, []);
      Submit(y, Header, maxp, accepted)
  }

  function DrainComplete(v: Video, maxp: nat, c: Completion, accepted: bool): Video
    requires v.drain.inFlight.Some? && maxp > 0
  {
    var w := v.(drain := v.drain.(inFlight := None));
    match c
    case Dead => w
    case Failed => SubmitDrain(w, 0, accepted)
    case Received(data) =>
      var len := |data|;
      if v.drainRemaining == 0 then
        if len >= HEADER_SIZE && (len - HEADER_SIZE) % maxp == 0 then
          HandleHeader(w, data[len - HEADER_SIZE..], accepted)
        else SubmitDrain(w, 0, accepted)
      else if len >= v.drainRemaining then Submit(w.(drainRemaining := 0), Header, maxp, accepted)
      else if len < v.drain.inFlight.value then SubmitDrain(w, 0, accepted)
      else SubmitDrain(w, v.drainRemaining - len, accepted)
  }

  function Complete(v: Video, maxp: nat, w: Which, c: Completion, accepted: bool): Video
    requires v.Get(w).inFlight.Some? && maxp > 0
  {
    match w
    case Header => HdrComplete(v, maxp, c, accepted)
    case Frame => FrameComplete(v, maxp, c, accepted)
    case Drain => DrainComplete(v, maxp, c, accepted)
  }

  function Queue(v: Video, b: Buffer): Video {
    v.(bufList := v.bufList + [b])
  }

  function Poison(v: Video, w: Which): Video {
    v.Set(w, v.Get(w).(poison := v.Get(w).poison + 1))
  }

  function Unpoison(v: Video, w: Which): Video {
    var u := v.Get(w);
    v.Set(w, u.(poison := if u.poison > 0 then u.poison - 1 else 0))
  }

  function PoisonAll(v: Video): Video {
    Poison(Poison(Poison(v, Header), Frame), Drain)
  }

  function Returns(bs: seq<Buffer>, s: BufferState): (r: seq<Return>)
    ensures |r| == |bs|
  {
    seq(|bs|, i requires 0 <= i < |bs| => Return(bs[i], s, 0, []))
  }

  function ReturnAll(v: Video, s: BufferState): Video {
    v.(bufList := [], returned := v.returned + Returns(v.bufList, s))
  }

  /** start_streaming: `pipelineOk` is whether the touch pipeline could be had. */
  function StartStreaming(v: Video, maxp: nat, pipelineOk: bool, accepted: bool): Video {
    if !pipelineOk then ReturnAll(v, QUEUED)
    else
      var reset := v.(sequence := 0, framesDropped := 0, curBuf := None, drainRemaining := 0);
      var w := Unpoison(Unpoison(Unpoison(reset, Header), Frame), Drain);
      if Accepts(w.hdr, accepted) then Submit(w, Header, maxp, accepted)
      else ReturnAll(if w.disconnected then w else PoisonAll(w), QUEUED)
  }

  // The part of stop_streaming after the URBs are stopped.
  function ReleaseBuffers(v: Video): Video {
    var w := if v.curBuf.Some? then Returned(v.(curBuf := None), v.curBuf.value, ERROR, 0, []) else v;
    ReturnAll(w, ERROR)
  }

  // ---- what holds between the handlers, whatever the stream

  predicate AtMostOneInFlight(v: Video) {
    && (v.hdr.inFlight.Some? ==> v.frame.inFlight == None && v.drain.inFlight == None)
    && (v.frame.inFlight.Some? ==> v.drain.inFlight == None)
  }

  predicate NoneInFlight(v: Video) {
    v.hdr.inFlight == None && v.frame.inFlight == None && v.drain.inFlight == None
  }

  function Buffers(rs: seq<Return>): (bs: seq<Buffer>)
    ensures |bs| == |rs|
  {
    seq(|rs|, i requires 0 <= i < |rs| => rs[i].buffer)
  }

  // The buffers queued so far are those returned, the current one, and those waiting, in this order.
  predicate Kept(v: Video, queued: seq<Buffer>) {
    queued == Buffers(v.returned) + (if v.curBuf.Some? then [v.curBuf.value] else []) + v.bufList
  }

  predicate Sound(v: Video, maxp: nat, queued: seq<Buffer>) {
    && AtMostOneInFlight(v) && Kept(v, queued)
    && (v.hdr.inFlight.Some? ==> v.hdr.inFlight.value == maxp)
    && (v.frame.inFlight.Some? ==> v.frame.inFlight.value == SIZEIMAGE && v.curBuf.Some?)
    && (v.drain.inFlight.Some? ==> v.drain.inFlight.value == DrainLength(v.drainRemaining))
    && (v.curBuf.Some? ==> v.hdr.inFlight == None && v.drain.inFlight == None)
  }

  lemma BuffersConcat(a: seq<Return>, b: seq<Return>)
    ensures Buffers(a + b) == Buffers(a) + Buffers(b)
  {}

  lemma BuffersOfOne(r: Return)
    ensures Buffers([r]) == [r.buffer]
  {}

  lemma BuffersOfReturns(bs: seq<Buffer>, s: BufferState)
    ensures Buffers(Returns(bs, s)) == bs
  {}

  lemma HeaderKeeps(v: Video, queued: seq<Buffer>, header: seq<Byte>, accepted: bool)
    requires |header| == HEADER_SIZE && Kept(v, queued) && v.curBuf == None
    ensures Kept(HandleHeader(v, header, accepted), queued)
  {
    hide Magic, AnnouncedSize, Buffers;
    if v.bufList != [] {
      var r := Return(v.bufList[0], ERROR, 0, []);
      BuffersConcat(v.returned, [r]);
      BuffersOfOne(r);
      assert v.bufList == [r.buffer] + v.bufList[1..];
    }
  }

  lemma HeaderSound(v: Video, maxp: nat, queued: seq<Buffer>, header: seq<Byte>, accepted: bool)
    requires |header| == HEADER_SIZE && Sound(v, maxp, queued) && NoneInFlight(v) && v.curBuf == None
    ensures Sound(HandleHeader(v, header, accepted), maxp, queued)
  {
    HeaderKeeps(v, queued, header, accepted);
    hide Magic, AnnouncedSize, Kept;
  }

  lemma HdrSound(v: Video, maxp: nat, queued: seq<Buffer>, c: Completion, accepted: bool)
    requires Sound(v, maxp, queued) && v.hdr.inFlight.Some?
    ensures Sound(HdrComplete(v, maxp, c, accepted), maxp, queued)
  {
    hide HandleHeader, Buffers;
    if c.Received? && |c.data| == HEADER_SIZE {
      HeaderSound(v.(hdr := v.hdr.(inFlight := None)), maxp, queued, c.data, accepted);
    }
  }

  lemma FrameSound(v: Video, maxp: nat, queued: seq<Buffer>, c: Completion, accepted: bool)
    requires Sound(v, maxp, queued) && v.frame.inFlight.Some?
    ensures Sound(FrameComplete(v, maxp, c, accepted), maxp, queued)
  {
    hide Buffers;
    var r := if c.Received? && |c.data| == SIZEIMAGE then Return(v.curBuf.value, DONE, v.sequence, c.data)
             else Return(v.curBuf.value, ERROR, 0, []);
    BuffersConcat(v.returned, [r]);
    BuffersOfOne(r);
  }

  lemma DrainSound(v: Video, maxp: nat, queued: seq<Buffer>, c: Completion, accepted: bool)
    requires maxp > 0 && Sound(v, maxp, queued) && v.drain.inFlight.Some?
    ensures Sound(DrainComplete(v, maxp, c, accepted), maxp, queued)
  {
    hide HandleHeader, Buffers;
    if c.Received? && |c.data| >= HEADER_SIZE {
      HeaderSound(v.(drain := v.drain.(inFlight := None)), maxp, queued, c.data[|c.data| - HEADER_SIZE..], accepted);
    }
  }

  /** No completion handler starts a second transfer, loses a buffer, or leaves a frame transfer without one. */
  lemma CompleteSound(v: Video, maxp: nat, queued: seq<Buffer>, w: Which, c: Completion, accepted: bool)
    requires maxp > 0 && Sound(v, maxp, queued) && v.Get(w).inFlight.Some?
    ensures Sound(Complete(v, maxp, w, c, accepted), maxp, queued)
  {
    hide Sound, HdrComplete, FrameComplete, DrainComplete;
    match w
    case Header => HdrSound(v, maxp, queued, c, accepted);
    case Frame => FrameSound(v, maxp, queued, c, accepted);
    case Drain => DrainSound(v, maxp, queued, c, accepted);
  }

  lemma ReturnAllSound(v: Video, maxp: nat, queued: seq<Buffer>, s: BufferState)
    requires Sound(v, maxp, queued) && v.curBuf == None
    ensures Sound(ReturnAll(v, s), maxp, queued) && Buffers(ReturnAll(v, s).returned) == queued
  {
    hide Buffers, Returns;
    BuffersConcat(v.returned, Returns(v.bufList, s));
    BuffersOfReturns(v.bufList, s);
  }

  lemma StartSound(v: Video, maxp: nat, queued: seq<Buffer>, pipelineOk: bool, accepted: bool)
    requires Sound(v, maxp, queued) && NoneInFlight(v) && v.curBuf == None
    ensures Sound(StartStreaming(v, maxp, pipelineOk, accepted), maxp, queued)
  {
    hide Buffers, Returns;
    ReturnAllSound(v, maxp, queued, QUEUED);
  }

  lemma ReleaseSound(v: Video, maxp: nat, queued: seq<Buffer>)
    requires Sound(v, maxp, queued) && NoneInFlight(v)
    ensures var v' := ReleaseBuffers(v);
            Sound(v', maxp, queued) && v'.curBuf == None && v'.bufList == [] && Buffers(v'.returned) == queued
  {
    hide Buffers, Returns;
    if v.curBuf.Some? {
      var r := Return(v.curBuf.value, ERROR, 0, []);
      BuffersConcat(v.returned, [r]);
      BuffersOfOne(r);
      ReturnAllSound(Returned(v.(curBuf := None), r.buffer, ERROR, 0, []), maxp, queued, ERROR);
    } else {
      ReturnAllSound(v, maxp, queued, ERROR);
    }
  }

  /** The driver. Submitting takes the USB core's verdict as an argument, and `returned` logs vb2_buffer_done. */
  class Sur40 {
    const videoPktSize: nat
    var hdr: Urb
    var frame: Urb
    var drain: Urb
    var bufList: seq<Buffer>
    var curBuf: Option<Buffer>
    var drainRemaining: nat
    var sequence: uint32
    var framesDropped: nat
    var disconnected: bool
    var returned: seq<Return>
    ghost var queued: seq<Buffer>  // every buffer ever queued

    /** At most one transfer runs, with the right length and, for a frame, a buffer; no buffer is lost. */
    ghost predicate Valid()
      reads this
    {
      videoPktSize > 0 && Sound(State(), videoPktSize, queued)
    }

    constructor (maxp: nat)
      requires maxp > 0
      ensures Valid() && queued == []
      ensures videoPktSize == maxp
      ensures State() == Video(Urb(1, None), Urb(1, None), Urb(1, None), [], None, 0, 0, 0, false, [])
    {
      videoPktSize := maxp;
      hdr, frame, drain := Urb(1, None), Urb(1, None), Urb(1, None);
      bufList, curBuf, drainRemaining, sequence, framesDropped := [], None, 0, 0, 0;
      disconnected, returned, queued := false, [], [];
    }

    function State(): Video
      reads this
    {
      Video(hdr, frame, drain, bufList, curBuf, drainRemaining, sequence, framesDropped, disconnected, returned)
    }

    method SubmitUrb(u: Urb, length: nat, accepted: bool) returns (u': Urb, ok: bool)
      ensures ok == Accepts(u, accepted)
      ensures u' == if ok then u.(inFlight := Some(length)) else u
    {
      if u.poison > 0 || u.inFlight != None || !accepted { return u, false; }
      return u.(inFlight := Some(length)), true;
    }

    method BufferDone(b: Buffer, s: BufferState, seqNo: uint32, data: seq<Byte>)
      modifies this`returned
      ensures State() == Returned(old(State()), b, s, seqNo, data)
    {
      returned := returned + [Return(b, s, seqNo, data)];
    }

    method VideoPopBuffer() returns (b: Option<Buffer>)
      modifies this`bufList
      ensures if old(bufList) == [] then b == None && bufList == []
              else b == Some(old(bufList)[0]) && bufList == old(bufList)[1..]
    {
      if bufList == [] { return None; }
      b := Some(bufList[0]);
      bufList := bufList[1..];
    }

    method VideoSubmitHdr(accepted: bool)
      modifies this`hdr
      ensures State() == Submit(old(State()), Header, videoPktSize, accepted)
    {
      var ok;
      hdr, ok := SubmitUrb(hdr, videoPktSize, accepted);
    }

    method VideoSubmitDrain(count: nat, accepted: bool)
      modifies this`drain, this`drainRemaining
      ensures State() == SubmitDrain(old(State()), count, accepted)
    {
      drainRemaining := count;
      var length := if count != 0 then (if count < DRAIN_SIZE then count else DRAIN_SIZE) else DRAIN_SIZE;
      var ok;
      drain, ok := SubmitUrb(drain, length, accepted);
    }

    method VideoHandleHeader(img: seq<Byte>, accepted: bool)
      requires |img| == HEADER_SIZE
      modifies this
      ensures State() == HandleHeader(old(State()), img, accepted) && queued == old(queued)
    {
      var size := AnnouncedSize(img);
      if Magic(img) != HEADER_MAGIC {
        VideoSubmitDrain(0, accepted);
        return;
      }
      if size != SIZEIMAGE {
        VideoSubmitDrain(if size <= MAX_FRAME_SIZE then size else 0, accepted);
        return;
      }
      var buf := VideoPopBuffer();
      if buf == None {
        framesDropped := framesDropped + 1;
        VideoSubmitDrain(size, accepted);
        return;
      }
      curBuf := buf;
      var ok;
      frame, ok := SubmitUrb(frame, size, accepted);
      if !ok {
        curBuf := None;
        BufferDone(buf.value, ERROR, 0, []);
      }
    }

    method VideoHdrComplete(c: Completion, accepted: bool)
      requires Valid() && hdr.inFlight.Some?
      modifies this
      ensures Valid() && queued == old(queued)
      ensures State() == HdrComplete(old(State()), videoPktSize, c, accepted)
    {
      CompleteSound(State(), videoPktSize, queued, Header, c, accepted);
      hide HandleHeader, Sound;
      hdr := hdr.(inFlight := None);
      match c {
        case Dead =>
        case Failed => VideoSubmitHdr(accepted);
        case Received(data) =>
          if |data| != HEADER_SIZE {
            VideoSubmitDrain(0, accepted);
            return;
          }
          VideoHandleHeader(data, accepted);
      }
    }

    method VideoFrameComplete(c: Completion, accepted: bool)
      requires Valid() && frame.inFlight.Some?
      modifies this
      ensures Valid() && queued == old(queued)
      ensures State() == FrameComplete(old(State()), videoPktSize, c, accepted)
    {
      CompleteSound(State(), videoPktSize, queued, Which.Frame, c, accepted);
      hide Sound;
      var length := frame.inFlight.value;
      frame := frame.(inFlight := None);
      if c.Dead? { return; }
      var buf := curBuf;
      curBuf := None;
      if buf.Some? {
        if c.Failed? || |c.data| != length {
          BufferDone(buf.value, ERROR, 0, []);
        } else {
          var seqNo := sequence;
          sequence := (sequence + 1) % 0x1_0000_0000;
          BufferDone(buf.value, DONE, seqNo, c.data);
        }
      }
      VideoSubmitHdr(accepted);
    }

    method VideoDrainComplete(c: Completion, accepted: bool)
      requires Valid() && drain.inFlight.Some?
      modifies this
      ensures Valid() && queued == old(queued)
      ensures State() == DrainComplete(old(State()), videoPktSize, c, accepted)
    {
      hide HandleHeader, SubmitDrain, Submit, Sound, HdrComplete, FrameComplete;
      CompleteSound(State(), videoPktSize, queued, Drain, c, accepted);
      var length := drain.inFlight.value;
      drain := drain.(inFlight := None);
      assert State() == old(State()).(drain := old(drain).(inFlight := None));
      match c {
        case Dead =>
        case Failed => VideoSubmitDrain(0, accepted);
        case Received(data) =>
          var len := |data|;
          if drainRemaining == 0 {
            if len >= HEADER_SIZE && (len - HEADER_SIZE) % videoPktSize == 0 {
              VideoHandleHeader(data[len - HEADER_SIZE..], accepted);
              return;
            }
            VideoSubmitDrain(0, accepted);
            return;
          }
          if len >= drainRemaining {
            drainRemaining := 0;
            VideoSubmitHdr(accepted);
            return;
          }
          if len < length {
            VideoSubmitDrain(0, accepted);
            return;
          }
          VideoSubmitDrain(drainRemaining - len, accepted);
      }
    }

    method BufferQueue(b: Buffer)
      requires Valid()
      modifies this`bufList, this`queued
      ensures Valid() && queued == old(queued) + [b]
      ensures State() == Queue(old(State()), b)
    {
      queued := queued + [b];
      bufList := bufList + [b];
    }

    method ReturnAllBuffers(s: BufferState)
      modifies this`bufList, this`returned
      ensures State() == ReturnAll(old(State()), s)
    {
      ghost var before, list := returned, bufList;
      while bufList != []
        invariant |bufList| <= |list| && bufList == list[|list| - |bufList|..]
        invariant returned == before + Returns(list, s)[..|list| - |bufList|]
        decreases |bufList|
      {
        returned := returned + [Return(bufList[0], s, 0, [])];
        bufList := bufList[1..];
      }
      assert Returns(list, s)[..|list|] == Returns(list, s);
    }

    /** The poison calls of video_stop on URBs of which none is in flight. */
    method VideoStopIdle()
      modifies this`hdr, this`frame, this`drain
      ensures State() == if disconnected then old(State()) else PoisonAll(old(State()))
    {
      if disconnected { return; }
      hdr := hdr.(poison := hdr.poison + 1);
      frame := frame.(poison := frame.poison + 1);
      drain := drain.(poison := drain.poison + 1);
    }

    method VideoStart(accepted: bool) returns (ok: bool)
      modifies this`drainRemaining, this`hdr, this`frame, this`drain
      ensures var w := Unpoison(Unpoison(Unpoison(old(State()).(drainRemaining := 0), Header), Frame), Drain);
              && ok == Accepts(w.hdr, accepted)
              && State() == if ok then Submit(w, Header, videoPktSize, accepted)
                            else if w.disconnected then w else PoisonAll(w)
    {
      drainRemaining := 0;
      hdr := hdr.(poison := if hdr.poison > 0 then hdr.poison - 1 else 0);
      frame := frame.(poison := if frame.poison > 0 then frame.poison - 1 else 0);
      drain := drain.(poison := if drain.poison > 0 then drain.poison - 1 else 0);
      hdr, ok := SubmitUrb(hdr, videoPktSize, accepted);
      if !ok {
        VideoStopIdle();
      }
    }

    method Start(pipelineOk: bool, accepted: bool) returns (ok: bool)
      requires Valid() && NoneInFlight(State()) && curBuf == None
      modifies this
      ensures Valid() && queued == old(queued)
      ensures State() == StartStreaming(old(State()), videoPktSize, pipelineOk, accepted)
    {
      StartSound(State(), videoPktSize, queued, pipelineOk, accepted);
      ok := pipelineOk;
      if ok {
        sequence, framesDropped, curBuf := 0, 0, None;
        ok := VideoStart(accepted);
      }
      if !ok {
        ReturnAllBuffers(QUEUED);
      }
    }

    /** stop_streaming once the URBs are stopped. */
    method ReleaseAll()
      requires Valid() && NoneInFlight(State())
      modifies this
      ensures Valid() && queued == old(queued) && Buffers(returned) == queued
      ensures State() == ReleaseBuffers(old(State()))
    {
      ReleaseSound(State(), videoPktSize, queued);
      if curBuf.Some? {
        BufferDone(curBuf.value, ERROR, 0, []);
        curBuf := None;
      }
      ReturnAllBuffers(ERROR);
    }
  }
}
