/**
 The kernel driver's touch pipeline: reassembling frames of blobs from packets, and the use count that keeps
 the touch URBs queued while the input device or the video queue needs them.
 */
module TouchPipeline {
  type Blob = nat  // one blob record, opaque here

  datatype Packet = Packet(count: nat, blobs: seq<Blob>)

  // What the completion handler finds; BadSize is a length that is no header plus whole blobs.
  datatype Completion = Dead | Failed | BadSize | Arrived(packet: Packet)

  // What the handler tells the input device.
  datatype Report = Contact(blob: Blob) | Sync

  datatype Assembly = Assembly(needBlobs: int, reports: seq<Report>)

  function Contacts(bs: seq<Blob>): (r: seq<Report>)
    ensures |r| == |bs|
  {
    seq(|bs|, i requires 0 <= i < |bs| => Contact(bs[i]))
  }

  function Complete(a: Assembly, c: Completion): Assembly {
    match c
    case Dead => a
    case Failed => a.(needBlobs := -1)
    case BadSize => a.(needBlobs := -1)
    case Arrived(p) =>
      var need := if a.needBlobs < 0 then p.count else a.needBlobs;
      var n := if |p.blobs| > need then need else |p.blobs|;
      if need - n <= 0 then Assembly(-1, a.reports + Contacts(p.blobs[..n]) + [Sync])
      else Assembly(need - n, a.reports + Contacts(p.blobs[..n]))
  }

  function CompleteAll(a: Assembly, cs: seq<Completion>): Assembly
    decreases |cs|
  {
    if cs == [] then a else CompleteAll(Complete(a, cs[0]), cs[1..])
  }

  class Touch {
    var needBlobs: int
    var reports: seq<Report>

    function State(): Assembly
      reads this
    {
      Assembly(needBlobs, reports)
    }

    /** Between completions either no frame is under way or at least one blob is missing. */
    ghost predicate Valid()
      reads this
    {
      needBlobs == -1 || needBlobs >= 1
    }

    constructor ()
      ensures Valid() && State() == Assembly(-1, [])
    {
      needBlobs, reports := -1, [];
    }

    method TouchComplete(c: Completion)
      requires Valid()
      modifies this
      ensures Valid()
      ensures State() == Complete(old(State()), c)
    {
      match c {
        case Dead =>
        case Failed => needBlobs := -1;
        case BadSize => needBlobs := -1;
        case Arrived(p) =>
          var packetBlobs := |p.blobs|;
          if needBlobs < 0 {
            needBlobs := p.count;
          }
          if packetBlobs > needBlobs {
            packetBlobs := needBlobs;
          }
          ghost var before, need := reports, needBlobs;
          var i := 0;
          while i < packetBlobs
            invariant 0 <= i <= packetBlobs && needBlobs == need
            invariant reports == before + Contacts(p.blobs[..i])
          {
            reports := reports + [Contact(p.blobs[i])];
            i := i + 1;
          }
          needBlobs := needBlobs - packetBlobs;
          if needBlobs <= 0 {
            reports := reports + [Sync];
            needBlobs := -1;
          }
      }
    }
  }

  // ---- frames cut into packets

  function Flatten(ps: seq<Packet>): seq<Blob> {
    if ps == [] then [] else ps[0].blobs + Flatten(ps[1..])
  }

  /** Packets that carry a frame of n blobs: the last one completes it, what follows the n blobs is padding. */
  predicate CarriesFrame(ps: seq<Packet>, n: nat)
  {
    && ps != [] && ps[0].count == n
    && |Flatten(ps)| >= n
    && (|ps| > 1 ==> |Flatten(ps[..|ps| - 1])| < n)
  }

  function Arrivals(ps: seq<Packet>): (cs: seq<Completion>)
    ensures |cs| == |ps|
  {
    seq(|ps|, i requires 0 <= i < |ps| => Arrived(ps[i]))
  }

  // The rest of a frame of which `need` blobs are missing.
  lemma {:induction false} RestArrives(a: Assembly, ps: seq<Packet>, need: nat)
    requires ps != [] && a.needBlobs == need > 0
    requires |Flatten(ps)| >= need && (|ps| > 1 ==> |Flatten(ps[..|ps| - 1])| < need)
    ensures CompleteAll(a, Arrivals(ps)) == Assembly(-1, a.reports + Contacts(Flatten(ps)[..need]) + [Sync])
    decreases |ps|
  {
    hide Contacts, Flatten;
    var b, rest, a1 := ps[0].blobs, ps[1..], Complete(a, Arrived(ps[0]));
    FlattenFirst(ps);
    FirstArrival(a, ps);
    if |ps| == 1 {
      NothingArrives(a1, rest);
    } else {
      FlattenInit(ps);
      assert b[..|b|] == b;
      RestArrives(a1, rest, need - |b|);
      ContactsSplit(b, Flatten(rest), need);
    }
  }

  lemma FlattenFirst(ps: seq<Packet>)
    requires ps != []
    ensures Flatten(ps) == ps[0].blobs + Flatten(ps[1..])
    ensures |ps| == 1 ==> Flatten(ps) == ps[0].blobs
  {}

  lemma FlattenInit(ps: seq<Packet>)
    requires |ps| > 1
    ensures Flatten(ps[..|ps| - 1]) == ps[0].blobs + Flatten(ps[1..][..|ps| - 2])
  {
    assert ps[..|ps| - 1][1..] == ps[1..][..|ps| - 2];
  }

  lemma FirstArrival(a: Assembly, ps: seq<Packet>)
    requires ps != []
    ensures CompleteAll(a, Arrivals(ps)) == CompleteAll(Complete(a, Arrived(ps[0])), Arrivals(ps[1..]))
  {
    assert Arrivals(ps)[1..] == Arrivals(ps[1..]);
  }

  lemma NothingArrives(a: Assembly, ps: seq<Packet>)
    requires ps == []
    ensures CompleteAll(a, Arrivals(ps)) == a
  {}

  lemma ContactsSplit(b: seq<Blob>, rest: seq<Blob>, need: nat)
    requires |b| <= need <= |b| + |rest|
    ensures Contacts((b + rest)[..need]) == Contacts(b) + Contacts(rest[..need - |b|])
  {}

  /** However a frame of n blobs is cut into packets, exactly its n blobs are processed, in order, then one sync. */
  lemma FrameAssembled(a: Assembly, ps: seq<Packet>, n: nat)
    requires a.needBlobs == -1 && CarriesFrame(ps, n)
    ensures CompleteAll(a, Arrivals(ps)) == Assembly(-1, a.reports + Contacts(Flatten(ps)[..n]) + [Sync])
  {
    if n > 0 {
      // the first packet only sets the count the rest is measured against
      var started := a.(needBlobs := n);
      assert Complete(a, Arrived(ps[0])) == Complete(started, Arrived(ps[0]));
      RestArrives(started, ps, n);
    } else {
      assert |ps| == 1;
      assert Arrivals(ps)[1..] == [];
      assert ps[0].blobs[..0] == [];
      assert Contacts([]) == [];
    }
  }

  datatype Frame = Frame(packets: seq<Packet>, count: nat)

  function FramePackets(fs: seq<Frame>): seq<Packet> {
    if fs == [] then [] else fs[0].packets + FramePackets(fs[1..])
  }

  function Take(bs: seq<Blob>, n: nat): seq<Blob> {
    if n <= |bs| then bs[..n] else bs
  }

  // The simple per-frame view: each frame reports its blobs and then syncs.
  function FrameReports(fs: seq<Frame>): seq<Report> {
    if fs == [] then [] else Contacts(Take(Flatten(fs[0].packets), fs[0].count)) + [Sync] + FrameReports(fs[1..])
  }

  lemma {:induction false} CompleteConcat(a: Assembly, cs: seq<Completion>, ds: seq<Completion>)
    ensures CompleteAll(a, cs + ds) == CompleteAll(CompleteAll(a, cs), ds)
    decreases |cs|
  {
    if cs == [] {
      assert cs + ds == ds;
    } else {
      assert (cs + ds)[1..] == cs[1..] + ds;
      CompleteConcat(Complete(a, cs[0]), cs[1..], ds);
    }
  }

  /** Over any number of frames the pipeline computes the per-frame view. */
  lemma {:induction false} FramesAssembled(a: Assembly, fs: seq<Frame>)
    requires a.needBlobs == -1 && forall f :: f in fs ==> CarriesFrame(f.packets, f.count)
    ensures CompleteAll(a, Arrivals(FramePackets(fs))) == Assembly(-1, a.reports + FrameReports(fs))
    decreases |fs|
  {
    hide Complete, Contacts, Flatten, CarriesFrame, Take;
    if fs == [] {
      NothingArrives(a, FramePackets(fs));
      assert a.reports + [] == a.reports;
    } else {
      var f := fs[0];
      var a1 := CompleteAll(a, Arrivals(f.packets));
      FrameTaken(a, f);
      ReportsJoin(a.reports, Contacts(Take(Flatten(f.packets), f.count)), FrameReports(fs[1..]));
      ArrivalsConcat(f.packets, FramePackets(fs[1..]));
      CompleteConcat(a, Arrivals(f.packets), Arrivals(FramePackets(fs[1..])));
      FramesAssembled(a1, fs[1..]);
    }
  }

  lemma FrameTaken(a: Assembly, f: Frame)
    requires a.needBlobs == -1 && CarriesFrame(f.packets, f.count)
    ensures CompleteAll(a, Arrivals(f.packets)) ==
            Assembly(-1, a.reports + Contacts(Take(Flatten(f.packets), f.count)) + [Sync])
  {
    FrameAssembled(a, f.packets, f.count);
  }

  lemma ReportsJoin(a: seq<Report>, b: seq<Report>, c: seq<Report>)
    ensures (a + b + [Sync]) + c == a + (b + [Sync] + c)
  {}

  lemma ArrivalsConcat(ps: seq<Packet>, qs: seq<Packet>)
    ensures Arrivals(ps + qs) == Arrivals(ps) + Arrivals(qs)
  {}

  /**
   After an error, whatever came before it and however much of a frame was missing, the frames that follow are reported
   in full; of the interrupted frame nothing more is, and it gets no sync of its own.
   */
  lemma ErrorRealigns(a: Assembly, before: seq<Completion>, error: Completion, fs: seq<Frame>)
    requires error.Failed? || error.BadSize?
    requires forall f :: f in fs ==> CarriesFrame(f.packets, f.count)
    ensures CompleteAll(a, before + [error] + Arrivals(FramePackets(fs))) ==
            Assembly(-1, CompleteAll(a, before).reports + FrameReports(fs))
  {
    hide CarriesFrame, FrameReports, FramePackets;
    var b := CompleteAll(a, before);
    CompleteConcat(a, before + [error], Arrivals(FramePackets(fs)));
    CompleteConcat(a, before, [error]);
    assert [error][1..] == [];
    assert CompleteAll(b, [error]) == b.(needBlobs := -1);
    FramesAssembled(b.(needBlobs := -1), fs);
  }

  /** A cancelled completion leaves a frame under way as it was. */
  lemma CancelledIsNothing(a: Assembly, before: seq<Completion>, after: seq<Completion>)
    ensures CompleteAll(a, before + [Dead] + after) == CompleteAll(a, before + after)
  {
    var b := CompleteAll(a, before);
    CompleteConcat(a, before + [Dead], after);
    CompleteConcat(a, before, [Dead]);
    CompleteConcat(a, before, after);
    assert [Dead][1..] == [];
    assert CompleteAll(b, [Dead]) == b;
  }

  // ---- the use count

  const TOUCH_URBS := 8

  datatype Urb = Urb(poison: nat, inFlight: bool) {
    function Unpoisoned(): Urb {
      this.(poison := if poison > 0 then poison - 1 else 0)
    }

    // The USB core refuses poisoned and active URBs; otherwise it decides.
    predicate Taken(accepted: bool) {
      poison == 0 && !inFlight && accepted
    }
  }

  class Pipeline {
    const urbs: array<Urb>
    var users: nat
    var disconnected: bool

    /**
     While anyone uses the pipeline its URBs are unpoisoned; otherwise each is poisoned once and idle. After the device
     is unplugged all URBs still have the same poison count, and none is active while that is positive.
     */
    ghost predicate Valid()
      reads this, urbs
    {
      && urbs.Length == TOUCH_URBS
      && if disconnected then
           forall i :: 0 <= i < TOUCH_URBS ==>
             urbs[i].poison == urbs[0].poison && (urbs[i].poison > 0 ==> !urbs[i].inFlight)
         else if users > 0 then forall i :: 0 <= i < TOUCH_URBS ==> urbs[i].poison == 0
         else forall i :: 0 <= i < TOUCH_URBS ==> urbs[i] == Urb(1, false)
    }

    ghost predicate Idle()
      reads this, urbs
      requires urbs.Length == TOUCH_URBS
    {
      forall i :: 0 <= i < TOUCH_URBS ==> !urbs[i].inFlight
    }

    constructor ()
      ensures Valid() && users == 0 && !disconnected && fresh(urbs)
    {
      urbs := new Urb[TOUCH_URBS](_ => Urb(1, false));
      users, disconnected := 0, false;
    }

    // Each call returns once its URB is idle.
    method PoisonTouch()
      requires urbs.Length == TOUCH_URBS
      modifies urbs
      ensures forall i :: 0 <= i < TOUCH_URBS ==> urbs[i] == Urb(old(urbs[i]).poison + 1, false)
    {
      var i := 0;
      while i < TOUCH_URBS
        invariant 0 <= i <= TOUCH_URBS
        invariant forall k :: 0 <= k < i ==> urbs[k] == Urb(old(urbs[k]).poison + 1, false)
        invariant forall k :: i <= k < TOUCH_URBS ==> urbs[k] == old(urbs[k])
      {
        urbs[i] := Urb(urbs[i].poison + 1, false);
        i := i + 1;
      }
    }

    /** Poisons every URB, unless the device is gone. */
    method TouchStop()
      requires urbs.Length == TOUCH_URBS
      modifies urbs
      ensures disconnected ==> unchanged(urbs)
      ensures !disconnected ==> forall i :: 0 <= i < TOUCH_URBS ==> urbs[i] == Urb(old(urbs[i]).poison + 1, false)
    {
      if disconnected { return; }
      PoisonTouch();
    }

    /** The unplug poisons every URB once more and leaves the users to leave by themselves. */
    method Disconnect()
      requires Valid() && !disconnected
      modifies this`disconnected, urbs
      ensures Valid() && disconnected && Idle()
      ensures urbs[0].poison == if users > 0 then 1 else 2
    {
      PoisonTouch();
      disconnected := true;
    }

    // The first n URBs have been submitted, the others only unpoisoned.
    ghost predicate Partly(was: seq<Urb>, accepted: seq<bool>, n: int)
      requires urbs.Length == |was| == |accepted| == TOUCH_URBS
      reads urbs
    {
      && (forall k :: 0 <= k < TOUCH_URBS && k < n ==>
            was[k].Unpoisoned().Taken(accepted[k]) && urbs[k] == Urb(0, true))
      && (forall k :: 0 <= k < TOUCH_URBS && k >= n ==> urbs[k] == was[k].Unpoisoned())
    }

    // The USB core has refused URB n.
    ghost predicate UpTo(was: seq<Urb>, accepted: seq<bool>, n: int)
      requires urbs.Length == |was| == |accepted| == TOUCH_URBS && 0 <= n < TOUCH_URBS
      reads urbs
    {
      Partly(was, accepted, n) && !was[n].Unpoisoned().Taken(accepted[n])
    }

    /**
     Undoes one poisoning of every URB and submits them up to the first refusal. `accepted` is the USB core's verdict on
     each submission. A failure before the unplug poisons them again; a later one leaves them as they are.
     */
    method TouchStart(accepted: seq<bool>) returns (ok: bool)
      requires urbs.Length == TOUCH_URBS && |accepted| == TOUCH_URBS
      modifies urbs
      ensures ok <==> forall i :: 0 <= i < TOUCH_URBS ==> old(urbs[i]).Unpoisoned().Taken(accepted[i])
      ensures ok ==> forall i :: 0 <= i < TOUCH_URBS ==> urbs[i] == Urb(0, true)
      ensures !ok && !disconnected ==>
                forall i :: 0 <= i < TOUCH_URBS ==> urbs[i] == Urb(old(urbs[i]).Unpoisoned().poison + 1, false)
      ensures !ok && disconnected ==>
                exists n :: 0 <= n < TOUCH_URBS && UpTo(old(urbs[..]), accepted, n)
    {
      var i := 0;
      while i < TOUCH_URBS
        invariant 0 <= i <= TOUCH_URBS
        invariant forall k :: 0 <= k < i ==> urbs[k] == old(urbs[k]).Unpoisoned()
        invariant forall k :: i <= k < TOUCH_URBS ==> urbs[k] == old(urbs[k])
      {
        urbs[i] := urbs[i].Unpoisoned();
        i := i + 1;
      }
      i := 0;
      while i < TOUCH_URBS
        invariant 0 <= i <= TOUCH_URBS && Partly(old(urbs[..]), accepted, i)
      {
        if !urbs[i].Taken(accepted[i]) {
          assert UpTo(old(urbs[..]), accepted, i);
          TouchStop();
          assert disconnected ==> UpTo(old(urbs[..]), accepted, i);
          return false;
        }
        urbs[i] := urbs[i].(inFlight := true);
        i := i + 1;
      }
      return true;
    }

    /**
     The first user initialises the device and starts the URBs; a failure before the unplug leaves no trace. After the
     unplug a call still undoes one poisoning: an idle pipeline stays idle exactly if there is a user already, the
     device does not answer, or its first URB is still poisoned or refused.
     */
    method PipelineGet(initOk: bool, accepted: seq<bool>) returns (ok: bool)
      requires Valid() && |accepted| == TOUCH_URBS
      modifies this`users, urbs
      ensures Valid()
      ensures users == if ok then old(users) + 1 else old(users)
      ensures !disconnected ==>
                (ok <==> old(users) > 0 || (initOk && forall i :: 0 <= i < TOUCH_URBS ==> accepted[i]))
      ensures old(users) > 0 ==> ok
      ensures old(users) > 0 || !initOk || (!ok && !disconnected) ==> urbs[..] == old(urbs[..])
      ensures ok && old(users) == 0 ==> forall i :: 0 <= i < TOUCH_URBS ==> urbs[i] == Urb(0, true)
      ensures !ok && disconnected && initOk ==>
                exists n :: 0 <= n < TOUCH_URBS && UpTo(old(urbs[..]), accepted, n)
      ensures disconnected && old(Idle()) ==>
                (Idle() <==> old(users) > 0 || !initOk || old(urbs[0]).poison > 1 || !accepted[0])
    {
      ok := true;
      if users == 0 {
        ok := initOk;
        if ok {
          ok := TouchStart(accepted);
          assert disconnected ==> urbs[0].poison == old(urbs[..])[0].Unpoisoned().poison;
        }
      }
      if ok {
        users := users + 1;
      }
    }

    /** What a completion does to its URB: it runs on unless cancelled, poisoned or refused, also after an error. */
    method TouchCompleted(i: nat, c: Completion, accepted: bool)
      requires Valid() && i < TOUCH_URBS && urbs[i].inFlight
      modifies urbs
      ensures Valid()
      ensures urbs[i].inFlight <==> !c.Dead? && urbs[i].poison == 0 && accepted
      ensures urbs[i].poison == old(urbs[i]).poison
      ensures forall k :: 0 <= k < TOUCH_URBS && k != i ==> urbs[k] == old(urbs[k])
    {
      urbs[i] := urbs[i].(inFlight := false);
      if c.Dead? { return; }
      if urbs[i].Taken(accepted) {
        urbs[i] := urbs[i].(inFlight := true);
      }
    }

    /** The last user stops the URBs; without users the source warns and changes nothing. */
    method PipelinePut()
      requires Valid()
      modifies this`users, urbs
      ensures Valid() && users == if old(users) == 0 then 0 else old(users) - 1
      ensures users > 0 || old(users) == 0 || disconnected ==> urbs[..] == old(urbs[..])
    {
      if users == 0 { return; }
      users := users - 1;
      if users == 0 {
        TouchStop();
      }
    }
  }
}
