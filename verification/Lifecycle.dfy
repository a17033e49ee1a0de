/**
 What a frame of reports does to the lists of contacts, as functions on values. A contact is looked up by the
 session identifier that the panel gave it.
 */
module Lifecycle {
  import opened Wrappers
  import opened Motion

  datatype Report =
    | Touched(id: int, x: real, y: real)
    | Tagged(id: int, x: real, y: real, angle: real)
    | Other

  datatype Frame = Frame(time: Time, reports: seq<Report>)

  datatype Tracked<T> = Tracked(session: int, body: T)

  // The first contact of a session, or the length of the list.
  function Find<T(!new)>(v: seq<Tracked<T>>, id: int): (k: nat)
    ensures k <= |v|
    ensures k < |v| ==> v[k].session == id
    ensures forall j :: 0 <= j < k ==> v[j].session != id
  {
    if v == [] then 0 else if v[0].session == id then 0 else 1 + Find(v[1..], id)
  }

  function Lookup<T(!new)>(v: seq<Tracked<T>>, id: int): Option<T> {
    var k := Find(v, id);
    if k < |v| then Some(v[k].body) else None
  }

  predicate Sessions<T(!new)>(v: seq<Tracked<T>>) {
    forall i, j :: 0 <= i < j < |v| ==> v[i].session != v[j].session
  }

  // Reported: the contact of the session is updated, or a new one is entered at the end.
  function Put<T(!new)>(v: seq<Tracked<T>>, id: int, body: T): seq<Tracked<T>> {
    var k := Find(v, id);
    if k < |v| then v[k := Tracked(id, body)] else v + [Tracked(id, body)]
  }

  // Swept: a contact is kept, changed or not, or dropped; the order stays.
  function Swept<T(!new)>(v: seq<Tracked<T>>, keep: T -> Option<T>): seq<Tracked<T>> {
    if v == [] then []
    else
      var n := |v| - 1;
      Swept(v[..n], keep) + match keep(v[n].body) case None => [] case Some(b) => [Tracked(v[n].session, b)]
  }

  lemma {:induction false} LookupAt<T(!new)>(v: seq<Tracked<T>>, id: int, k: nat)
    requires k < |v| && v[k].session == id && Sessions(v)
    ensures Lookup(v, id) == Some(v[k].body)
  {
    assert forall j :: 0 <= j < k ==> v[j].session != v[k].session;
  }

  lemma PutKeeps<T(!new)>(v: seq<Tracked<T>>, id: int, body: T)
    requires Sessions(v)
    ensures Sessions(Put(v, id, body))
    ensures forall other :: Lookup(Put(v, id, body), other) == if other == id then Some(body) else Lookup(v, other)
  {
    var w, k := Put(v, id, body), Find(v, id);
    forall other
      ensures Lookup(w, other) == if other == id then Some(body) else Lookup(v, other)
    {
      var f, g := Find(v, other), Find(w, other);
      if other == id {
        assert w[k] == Tracked(id, body);
        LookupAt(w, id, k);
      } else if g < |w| {
        assert g < |v| && w[g] == v[g];
        LookupAt(v, other, g);
      } else {
        assert forall j :: 0 <= j < |v| && j != k ==> w[j] == v[j];
      }
    }
  }

  lemma {:induction false} SweptKeeps<T(!new)>(v: seq<Tracked<T>>, keep: T -> Option<T>)
    requires Sessions(v)
    ensures Sessions(Swept(v, keep))
    ensures forall id :: Lookup(Swept(v, keep), id) == match Lookup(v, id) case None => None case Some(b) => keep(b)
  {
    if v == [] {
    } else {
      var n := |v| - 1;
      var init, last, w := v[..n], v[n], Swept(v[..n], keep);
      SweptKeeps(init, keep);
      assert v == init + [last];
      forall id
        ensures Lookup(v, id) == if id == last.session then Some(last.body) else Lookup(init, id)
      {
        LookupExtended(init, last, id);
      }
      assert Lookup(init, last.session) == None;
      match keep(last.body)
      case None =>
        assert Swept(v, keep) == w;
      case Some(b) =>
        SessionsExtended(w, Tracked(last.session, b));
        forall id
          ensures Lookup(w + [Tracked(last.session, b)], id) == if id == last.session then Some(b) else Lookup(w, id)
        {
          LookupExtended(w, Tracked(last.session, b), id);
        }
    }
  }

  lemma LookupExtended<T(!new)>(v: seq<Tracked<T>>, t: Tracked<T>, id: int)
    requires Sessions(v + [t])
    ensures Lookup(v + [t], id) == if id == t.session then Some(t.body) else Lookup(v, id)
    ensures Lookup(v, t.session) == None
  {
    var w, f := v + [t], Find(v, id);
    assert w[|v|] == t;
    assert forall j :: 0 <= j < |v| ==> v[j] == w[j] && w[j].session != w[|v|].session;
    if id == t.session {
      LookupAt(w, id, |v|);
    } else if f < |v| {
      assert w[f] == v[f];
      LookupAt(w, id, f);
    }
  }

  lemma SessionsExtended<T(!new)>(v: seq<Tracked<T>>, t: Tracked<T>)
    requires Sessions(v) && Lookup(v, t.session) == None
    ensures Sessions(v + [t])
  {
    var w := v + [t];
    forall i, j | 0 <= i < j < |w|
      ensures w[i].session != w[j].session
    {
      if j == |v| {
        assert w[i] == v[i];
      }
    }
  }

  // ---- the order of the lists

  /** The contacts of `w` that are in `v` come first and in the order of `v`; new ones follow. */
  predicate Follows<T(!new)>(v: seq<Tracked<T>>, w: seq<Tracked<T>>) {
    forall i, j :: 0 <= i < j < |w| && Find(v, w[j].session) < |v| ==>
      Find(v, w[i].session) < Find(v, w[j].session)
  }

  ghost predicate Covers<T(!new)>(v: seq<Tracked<T>>, w: seq<Tracked<T>>) {
    forall id :: Find(v, id) < |v| ==> Find(w, id) < |w|
  }

  lemma FollowsItself<T(!new)>(v: seq<Tracked<T>>)
    requires Sessions(v)
    ensures Follows(v, v) && Covers(v, v)
  {
    forall i | 0 <= i < |v|
      ensures Find(v, v[i].session) == i
    {
      assert Find(v, v[i].session) <= i;
    }
  }

  lemma PutFollows<T(!new)>(v: seq<Tracked<T>>, w: seq<Tracked<T>>, id: int, body: T)
    requires Follows(v, w) && Covers(v, w)
    ensures Follows(v, Put(w, id, body)) && Covers(v, Put(w, id, body))
  {
    var u := Put(w, id, body);
    PutCovers(w, id, body);
    if Find(w, id) == |w| {
      assert Find(v, id) >= |v|;
      hide Find;
      forall i, j | 0 <= i < j < |u| && Find(v, u[j].session) < |v|
        ensures Find(v, u[i].session) < Find(v, u[j].session)
      {
        assert w[i] == u[i] && w[j] == u[j];
      }
    }
  }

  lemma PutCovers<T(!new)>(w: seq<Tracked<T>>, id: int, body: T)
    ensures var u := Put(w, id, body);
            && Covers(w, u)
            && (forall j :: 0 <= j < |w| ==> u[j].session == w[j].session)
            && (|u| > |w| ==> |u| == |w| + 1 && Find(w, id) == |w| && u[|w|].session == id)
  {
    var u := Put(w, id, body);
    forall other | Find(w, other) < |w|
      ensures Find(u, other) < |u|
    {
      assert u[Find(w, other)].session == other;
    }
  }

  lemma {:induction false} SweptPlaces<T(!new)>(v: seq<Tracked<T>>, keep: T -> Option<T>) returns (at: seq<nat>)
    ensures |at| == |Swept(v, keep)|
    ensures forall i, j :: 0 <= i < j < |at| ==> at[i] < at[j]
    ensures forall i :: 0 <= i < |at| ==> at[i] < |v| && Swept(v, keep)[i].session == v[at[i]].session
  {
    at := [];
    if v != [] {
      var n := |v| - 1;
      at := SweptPlaces(v[..n], keep);
      if keep(v[n].body).Some? {
        at := at + [n];
      }
    }
  }

  lemma SweptFollows<T(!new)>(v: seq<Tracked<T>>, w: seq<Tracked<T>>, keep: T -> Option<T>)
    requires Follows(v, w)
    ensures Follows(v, Swept(w, keep))
  {
    var at := SweptPlaces(w, keep);
  }

  // ---- sweeping as the loops do it

  lemma {:induction false} SweptParts<T(!new)>(a: seq<Tracked<T>>, b: seq<Tracked<T>>, keep: T -> Option<T>)
    ensures Swept(a + b, keep) == Swept(a, keep) + Swept(b, keep)
    decreases |b|
  {
    if b == [] {
      assert a + b == a;
    } else {
      var n := |b| - 1;
      assert (a + b)[..|a + b| - 1] == a + b[..n];
      SweptParts(a, b[..n], keep);
    }
  }

  lemma SweptOne<T(!new)>(t: Tracked<T>, keep: T -> Option<T>)
    requires keep(t.body) == None
    ensures Swept([t], keep) == []
  {
    assert Swept([t][..0], keep) == [];
  }

  lemma SweptWithout<T(!new)>(v: seq<Tracked<T>>, k: nat, keep: T -> Option<T>)
    requires k < |v| && keep(v[k].body) == None
    ensures Swept(v[..k] + v[k + 1..], keep) == Swept(v, keep)
  {
    hide Swept;
    SweptParts(v[..k], v[k + 1..], keep);
    SweptParts(v[..k], [v[k]], keep);
    SweptParts(v[..k] + [v[k]], v[k + 1..], keep);
    assert v == v[..k] + [v[k]] + v[k + 1..];
    SweptOne(v[k], keep);
  }

  lemma {:induction false} SweptAll<T(!new)>(v: seq<Tracked<T>>, w: seq<Tracked<T>>, keep: T -> Option<T>)
    requires |v| == |w|
    requires forall i :: 0 <= i < |v| ==> w[i].session == v[i].session && keep(v[i].body) == Some(w[i].body)
    ensures Swept(v, keep) == w
  {
    if v != [] {
      var n := |v| - 1;
      SweptAll(v[..n], w[..n], keep);
      assert w == w[..n] + [w[n]];
    }
  }

  // ---- cursors

  function TouchedBody(c: Option<Container>, time: Time, x: real, y: real, sqrt: real -> real): Container {
    match c
    case None => NewContainer(time, x, y)
    case Some(c) => c.Updated(time, x, y, sqrt)
  }

  function CursorReported(v: seq<Tracked<Container>>, r: Report, time: Time, sqrt: real -> real)
    : seq<Tracked<Container>> {
    match r
    case Touched(id, x, y) => Put(v, id, TouchedBody(Lookup(v, id), time, x, y, sqrt))
    case _ => v
  }

  function CursorsReported(v: seq<Tracked<Container>>, reports: seq<Report>, time: Time, sqrt: real -> real)
    : seq<Tracked<Container>>
  {
    if reports == [] then v
    else CursorReported(CursorsReported(v, reports[..|reports| - 1], time, sqrt), reports[|reports| - 1], time, sqrt)
  }

  function StopCursor(time: Time, sqrt: real -> real): Container -> Option<Container> {
    (c: Container) => Some(if c.at.time != time && c.Moving() then c.StoppedAt(time, sqrt) else c)
  }

  function KeepCursor(time: Time): Container -> Option<Container> {
    (c: Container) => if c.at.time != time && !c.Moving() then None else Some(c)
  }

  function CursorFrame(v: seq<Tracked<Container>>, f: Frame, sqrt: real -> real): seq<Tracked<Container>> {
    Swept(Swept(CursorsReported(v, f.reports, f.time, sqrt), StopCursor(f.time, sqrt)), KeepCursor(f.time))
  }

  function CursorRun(v: seq<Tracked<Container>>, frames: seq<Frame>, sqrt: real -> real): seq<Tracked<Container>>
    decreases |frames|
  {
    if frames == [] then v else CursorRun(CursorFrame(v, frames[0], sqrt), frames[1..], sqrt)
  }

  predicate Touches(reports: seq<Report>, id: int) {
    exists k :: 0 <= k < |reports| && reports[k].Touched? && reports[k].id == id
  }

  // One contact through the reports of a frame.
  function TouchedThrough(c: Option<Container>, id: int, reports: seq<Report>, time: Time, sqrt: real -> real)
    : Option<Container>
  {
    if reports == [] then c
    else
      var before, r := TouchedThrough(c, id, reports[..|reports| - 1], time, sqrt), reports[|reports| - 1];
      if r.Touched? && r.id == id then Some(TouchedBody(before, time, r.x, r.y, sqrt)) else before
  }

  lemma {:induction false} ReportsActAlone(v: seq<Tracked<Container>>, reports: seq<Report>,
                                            time: Time, sqrt: real -> real)
    requires Sessions(v)
    ensures var w := CursorsReported(v, reports, time, sqrt);
            && Sessions(w)
            && forall id :: Lookup(w, id) == TouchedThrough(Lookup(v, id), id, reports, time, sqrt)
  {
    if reports != [] {
      var n := |reports| - 1;
      var w, r := CursorsReported(v, reports[..n], time, sqrt), reports[n];
      ReportsActAlone(v, reports[..n], time, sqrt);
      if r.Touched? {
        PutKeeps(w, r.id, TouchedBody(Lookup(w, r.id), time, r.x, r.y, sqrt));
      }
    }
  }

  lemma {:induction false} TouchedIsCurrent(c: Option<Container>, id: int, reports: seq<Report>,
                                             time: Time, sqrt: real -> real)
    ensures var after := TouchedThrough(c, id, reports, time, sqrt);
            if Touches(reports, id) then after.Some? && after.value.at.time == time else after == c
  {
    if reports != [] {
      var n := |reports| - 1;
      TouchedIsCurrent(c, id, reports[..n], time, sqrt);
      assert Touches(reports[..n], id) ==> Touches(reports, id);
      assert reports[n].Touched? && reports[n].id == id ==> Touches(reports, id);
      if Touches(reports, id) && !(reports[n].Touched? && reports[n].id == id) {
        var k :| 0 <= k < |reports| && reports[k].Touched? && reports[k].id == id;
        assert reports[..n][k] == reports[k];
      }
    }
  }

  /**
   A frame leaves exactly the cursors it reports, each as its own reports left it, and those that already had its
   time.
   */
  lemma MissingCursorsGo(v: seq<Tracked<Container>>, f: Frame, sqrt: real -> real)
    requires Sessions(v)
    ensures var w := CursorFrame(v, f, sqrt);
            && Sessions(w)
            && forall id :: Lookup(w, id) ==
                 if Touches(f.reports, id) then TouchedThrough(Lookup(v, id), id, f.reports, f.time, sqrt)
                 else if Lookup(v, id).Some? && Lookup(v, id).value.at.time == f.time then Lookup(v, id) else None
  {
    var r := CursorsReported(v, f.reports, f.time, sqrt);
    var s := Swept(r, StopCursor(f.time, sqrt));
    ReportsActAlone(v, f.reports, f.time, sqrt);
    SweptKeeps(r, StopCursor(f.time, sqrt));
    SweptKeeps(s, KeepCursor(f.time));
    forall id
      ensures Lookup(CursorFrame(v, f, sqrt), id) ==
              if Touches(f.reports, id) then TouchedThrough(Lookup(v, id), id, f.reports, f.time, sqrt)
              else if Lookup(v, id).Some? && Lookup(v, id).value.at.time == f.time then Lookup(v, id) else None
    {
      TouchedIsCurrent(Lookup(v, id), id, f.reports, f.time, sqrt);
    }
  }

  lemma {:induction false} ReportsFollow(v: seq<Tracked<Container>>, reports: seq<Report>, time: Time,
                                          sqrt: real -> real)
    requires Sessions(v)
    ensures Follows(v, CursorsReported(v, reports, time, sqrt)) && Covers(v, CursorsReported(v, reports, time, sqrt))
  {
    if reports == [] {
      FollowsItself(v);
    } else {
      var n := |reports| - 1;
      var w, r := CursorsReported(v, reports[..n], time, sqrt), reports[n];
      ReportsFollow(v, reports[..n], time, sqrt);
      if r.Touched? {
        PutFollows(v, w, r.id, TouchedBody(Lookup(w, r.id), time, r.x, r.y, sqrt));
      }
    }
  }

  /** A frame keeps the order of the cursors that stay, and enters new ones behind them. */
  lemma CursorsInOrder(v: seq<Tracked<Container>>, f: Frame, sqrt: real -> real)
    requires Sessions(v)
    ensures Follows(v, CursorFrame(v, f, sqrt))
  {
    hide Follows, Covers;
    var r := CursorsReported(v, f.reports, f.time, sqrt);
    ReportsFollow(v, f.reports, f.time, sqrt);
    SweptFollows(v, r, StopCursor(f.time, sqrt));
    SweptFollows(v, Swept(r, StopCursor(f.time, sqrt)), KeepCursor(f.time));
  }

  predicate LastTouch(reports: seq<Report>, id: int, k: nat) {
    && k < |reports| && reports[k].Touched? && reports[k].id == id
    && forall j :: k < j < |reports| ==> !(reports[j].Touched? && reports[j].id == id)
  }

  lemma {:induction false} LastTouchCounts(c: Option<Container>, id: int, reports: seq<Report>, k: nat,
                                            time: Time, sqrt: real -> real)
    requires LastTouch(reports, id, k)
    ensures var after := TouchedThrough(c, id, reports, time, sqrt);
            after.Some? && after.value.at == Point(reports[k].x, reports[k].y, time)
  {
    var n := |reports| - 1;
    if k < n {
      assert forall j :: 0 <= j < n ==> reports[..n][j] == reports[j];
      LastTouchCounts(c, id, reports[..n], k, time, sqrt);
    }
  }

  /** After a frame, a cursor is where the last report of it says, at the frame's time; a new one is at rest there. */
  lemma CursorPlaced(v: seq<Tracked<Container>>, f: Frame, sqrt: real -> real, id: int, k: nat)
    requires Sessions(v) && LastTouch(f.reports, id, k)
    ensures var c := Lookup(CursorFrame(v, f, sqrt), id);
            && c.Some? && c.value.at == Point(f.reports[k].x, f.reports[k].y, f.time)
            && (Lookup(v, id) == None && !Touches(f.reports[..k], id) ==>
                 && c.value.speed == 0.0 && c.value.xSpeed == 0.0 && c.value.ySpeed == 0.0 && c.value.accel == 0.0
                 && c.value.state == Added && c.value.path == [c.value.at])
  {
    MissingCursorsGo(v, f, sqrt);
    assert Touches(f.reports, id);
    LastTouchCounts(Lookup(v, id), id, f.reports, k, f.time, sqrt);
    if Lookup(v, id) == None && !Touches(f.reports[..k], id) {
      OnlyTouch(id, f.reports, k, f.time, sqrt);
    }
  }

  // The one report of a new cursor enters it.
  lemma {:induction false} OnlyTouch(id: int, reports: seq<Report>, k: nat, time: Time, sqrt: real -> real)
    requires LastTouch(reports, id, k) && !Touches(reports[..k], id)
    ensures TouchedThrough(None, id, reports, time, sqrt) == Some(NewContainer(time, reports[k].x, reports[k].y))
  {
    var n := |reports| - 1;
    if k < n {
      assert forall j :: 0 <= j < n ==> reports[..n][j] == reports[j];
      assert reports[..n][..k] == reports[..k];
      OnlyTouch(id, reports[..n], k, time, sqrt);
    } else {
      TouchedIsCurrent(None, id, reports[..n], time, sqrt);
    }
  }

  // Frame i reports the cursor, and no later frame has another time.
  predicate LastSeen(frames: seq<Frame>, id: int, i: nat) {
    && i < |frames| && Touches(frames[i].reports, id)
    && forall j :: i < j < |frames| ==> frames[j].time == frames[i].time
  }

  predicate AllAt(frames: seq<Frame>, time: Time) {
    forall j :: 0 <= j < |frames| ==> frames[j].time == time
  }

  lemma LastSeenShift(frames: seq<Frame>, id: int)
    requires frames != []
    ensures (exists i :: LastSeen(frames, id, i)) <==>
            || (Touches(frames[0].reports, id) && AllAt(frames[1..], frames[0].time))
            || exists i :: LastSeen(frames[1..], id, i)
  {
    hide Touches;
    var rest := frames[1..];
    assert forall j :: 0 < j < |frames| ==> frames[j] == rest[j - 1];
    if i: nat :| LastSeen(frames, id, i) && i > 0 {
      assert forall j :: i - 1 < j < |rest| ==> rest[j] == frames[j + 1];
      assert LastSeen(rest, id, i - 1);
    } else if LastSeen(frames, id, 0) {
      assert forall j :: 0 <= j < |rest| ==> rest[j] == frames[j + 1];
    }
    if i: nat :| LastSeen(rest, id, i) {
      assert LastSeen(frames, id, i + 1);
    }
    if Touches(frames[0].reports, id) && AllAt(rest, frames[0].time) {
      assert LastSeen(frames, id, 0);
    }
  }

  /**
   Over every run, a cursor is listed exactly if some frame reported it and no later one had another time, or it was
   listed before and every frame has had its time.
   */
  lemma {:induction false} CursorsListedExactly(v: seq<Tracked<Container>>, frames: seq<Frame>,
                                                 sqrt: real -> real, id: int)
    requires Sessions(v)
    ensures Lookup(CursorRun(v, frames, sqrt), id).Some? <==>
            || (exists i :: LastSeen(frames, id, i))
            || (Lookup(v, id).Some? && AllAt(frames, Lookup(v, id).value.at.time))
    decreases |frames|
  {
    hide CursorFrame, Touches, TouchedThrough, LastSeen;
    if frames == [] {
      NothingSeen(frames, id);
    } else {
      var f, rest := frames[0], frames[1..];
      var w := CursorFrame(v, f, sqrt);
      MissingCursorsGo(v, f, sqrt);
      TouchedIsCurrent(Lookup(v, id), id, f.reports, f.time, sqrt);
      CursorsListedExactly(w, rest, sqrt, id);
      LastSeenShift(frames, id);
      if Lookup(v, id).Some? {
        AllAtFirst(frames, Lookup(v, id).value.at.time);
      }
    }
  }

  lemma NothingSeen(frames: seq<Frame>, id: int)
    requires frames == []
    ensures !exists i :: LastSeen(frames, id, i)
  {}

  lemma AllAtFirst(frames: seq<Frame>, time: Time)
    requires frames != []
    ensures AllAt(frames, time) <==> frames[0].time == time && AllAt(frames[1..], time)
  {
    assert forall j :: 0 < j < |frames| ==> frames[j] == frames[1..][j - 1];
  }

  predicate Ticking(frames: seq<Frame>) {
    forall i :: 0 < i < |frames| ==> frames[i - 1].time != frames[i].time
  }

  /**
   While no frame repeats the time of the one before, the cursors listed are the ones the last frame reported: from an
   empty list after every frame, and from any list after the second.
   */
  lemma CursorsAreTheReported(v: seq<Tracked<Container>>, frames: seq<Frame>, sqrt: real -> real, id: int)
    requires frames != [] && (|frames| > 1 || v == []) && Ticking(frames) && Sessions(v)
    ensures Lookup(CursorRun(v, frames, sqrt), id).Some? <==> Touches(frames[|frames| - 1].reports, id)
  {
    assert v == [] ==> Lookup(v, id) == None;
    hide CursorRun, Touches, Lookup;
    var n := |frames| - 1;
    CursorsListedExactly(v, frames, sqrt, id);
    assert n > 0 ==> frames[n - 1].time != frames[n].time;
    if Touches(frames[n].reports, id) {
      assert LastSeen(frames, id, n);
    }
  }

  // ---- tagged objects

  function TaggedBody(t: Option<Tag>, time: Time, x: real, y: real, a: real, sqrt: real -> real): Tag {
    match t
    case None => NewTag(time, x, y, a)
    case Some(t) => if t.body.at.time == time then t else t.Updated(time, x, y, a, sqrt)
  }

  function TagReported(v: seq<Tracked<Tag>>, r: Report, time: Time, sqrt: real -> real): seq<Tracked<Tag>> {
    match r
    case Tagged(id, x, y, a) => Put(v, id, TaggedBody(Lookup(v, id), time, x, y, a, sqrt))
    case _ => v
  }

  function TagsReported(v: seq<Tracked<Tag>>, reports: seq<Report>, time: Time, sqrt: real -> real): seq<Tracked<Tag>> {
    if reports == [] then v
    else TagReported(TagsReported(v, reports[..|reports| - 1], time, sqrt), reports[|reports| - 1], time, sqrt)
  }

  function StopTag(time: Time, sqrt: real -> real): Tag -> Option<Tag> {
    (t: Tag) => Some(if t.body.at.time != time && t.Moving() then t.StoppedAt(time, sqrt) else t)
  }

  function KeepTag(time: Time): Tag -> Option<Tag> {
    (t: Tag) => if t.body.at.time != time && !t.Moving() then None else Some(t)
  }

  function TagFrame(v: seq<Tracked<Tag>>, f: Frame, sqrt: real -> real): seq<Tracked<Tag>> {
    Swept(Swept(TagsReported(v, f.reports, f.time, sqrt), StopTag(f.time, sqrt)), KeepTag(f.time))
  }

  function TagRun(v: seq<Tracked<Tag>>, frames: seq<Frame>, sqrt: real -> real): seq<Tracked<Tag>>
    decreases |frames|
  {
    if frames == [] then v else TagRun(TagFrame(v, frames[0], sqrt), frames[1..], sqrt)
  }

  predicate Tags(reports: seq<Report>, id: int) {
    exists k :: 0 <= k < |reports| && reports[k].Tagged? && reports[k].id == id
  }

  lemma {:induction false} UnreportedUntouched(v: seq<Tracked<Tag>>, reports: seq<Report>,
                                                time: Time, sqrt: real -> real)
    requires Sessions(v)
    ensures var w := TagsReported(v, reports, time, sqrt);
            Sessions(w) && forall id :: !Tags(reports, id) ==> Lookup(w, id) == Lookup(v, id)
  {
    if reports != [] {
      var n := |reports| - 1;
      var w, r := TagsReported(v, reports[..n], time, sqrt), reports[n];
      UnreportedUntouched(v, reports[..n], time, sqrt);
      assert forall id :: Tags(reports[..n], id) ==> Tags(reports, id);
      if r.Tagged? {
        assert Tags(reports, r.id);
        PutKeeps(w, r.id, TaggedBody(Lookup(w, r.id), time, r.x, r.y, r.angle, sqrt));
      }
    }
  }

  // One object through the reports of a frame.
  function TaggedThrough(t: Option<Tag>, id: int, reports: seq<Report>, time: Time, sqrt: real -> real): Option<Tag> {
    if reports == [] then t
    else
      var before, r := TaggedThrough(t, id, reports[..|reports| - 1], time, sqrt), reports[|reports| - 1];
      if r.Tagged? && r.id == id then Some(TaggedBody(before, time, r.x, r.y, r.angle, sqrt)) else before
  }

  lemma {:induction false} TagReportsActAlone(v: seq<Tracked<Tag>>, reports: seq<Report>, time: Time,
                                               sqrt: real -> real)
    requires Sessions(v)
    ensures var w := TagsReported(v, reports, time, sqrt);
            && Sessions(w)
            && forall id :: Lookup(w, id) == TaggedThrough(Lookup(v, id), id, reports, time, sqrt)
  {
    if reports != [] {
      var n := |reports| - 1;
      var w, r := TagsReported(v, reports[..n], time, sqrt), reports[n];
      TagReportsActAlone(v, reports[..n], time, sqrt);
      if r.Tagged? {
        PutKeeps(w, r.id, TaggedBody(Lookup(w, r.id), time, r.x, r.y, r.angle, sqrt));
      }
    }
  }

  lemma {:induction false} TagReportsFollow(v: seq<Tracked<Tag>>, reports: seq<Report>, time: Time,
                                             sqrt: real -> real)
    requires Sessions(v)
    ensures Follows(v, TagsReported(v, reports, time, sqrt)) && Covers(v, TagsReported(v, reports, time, sqrt))
  {
    if reports == [] {
      FollowsItself(v);
    } else {
      var n := |reports| - 1;
      var w, r := TagsReported(v, reports[..n], time, sqrt), reports[n];
      TagReportsFollow(v, reports[..n], time, sqrt);
      if r.Tagged? {
        PutFollows(v, w, r.id, TaggedBody(Lookup(w, r.id), time, r.x, r.y, r.angle, sqrt));
      }
    }
  }

  /** The same order for objects. */
  lemma TagsInOrder(v: seq<Tracked<Tag>>, f: Frame, sqrt: real -> real)
    requires Sessions(v)
    ensures Follows(v, TagFrame(v, f, sqrt))
  {
    hide Follows, Covers;
    var r := TagsReported(v, f.reports, f.time, sqrt);
    TagReportsFollow(v, f.reports, f.time, sqrt);
    SweptFollows(v, r, StopTag(f.time, sqrt));
    SweptFollows(v, Swept(r, StopTag(f.time, sqrt)), KeepTag(f.time));
  }

  predicate FirstTag(reports: seq<Report>, id: int, k: nat) {
    && k < |reports| && reports[k].Tagged? && reports[k].id == id
    && forall j :: 0 <= j < k ==> !(reports[j].Tagged? && reports[j].id == id)
  }

  lemma {:induction false} UntaggedStays(t: Option<Tag>, id: int, reports: seq<Report>, time: Time,
                                          sqrt: real -> real)
    requires forall j :: 0 <= j < |reports| ==> !(reports[j].Tagged? && reports[j].id == id)
    ensures TaggedThrough(t, id, reports, time, sqrt) == t
  {
    if reports != [] {
      UntaggedStays(t, id, reports[..|reports| - 1], time, sqrt);
    }
  }

  lemma {:induction false} FirstTagCounts(t: Option<Tag>, id: int, reports: seq<Report>, k: nat, time: Time,
                                           sqrt: real -> real)
    requires FirstTag(reports, id, k)
    ensures var r := reports[k];
            TaggedThrough(t, id, reports, time, sqrt) == Some(TaggedBody(t, time, r.x, r.y, r.angle, sqrt))
  {
    var n := |reports| - 1;
    assert forall j :: 0 <= j < n ==> reports[..n][j] == reports[j];
    if k < n {
      FirstTagCounts(t, id, reports[..n], k, time, sqrt);
    } else {
      UntaggedStays(t, id, reports[..n], time, sqrt);
    }
  }

  /**
   After a frame with a new time, an object is where the first report of it says, turned as that says up to whole turns;
   a new one has just that angle and is at rest.
   */
  lemma TagPlaced(v: seq<Tracked<Tag>>, f: Frame, sqrt: real -> real, id: int, k: nat)
    requires Sessions(v) && FirstTag(f.reports, id, k)
    requires Lookup(v, id).Some? ==> Lookup(v, id).value.Valid() && Lookup(v, id).value.body.at.time != f.time
    ensures var r, t := f.reports[k], Lookup(TagFrame(v, f, sqrt), id);
            && t.Some? && t.value.body.at == Point(r.x, r.y, f.time)
            && (exists n :: -2 <= n <= 2 && t.value.angle == r.angle + WholeTurns(n))
            && (Lookup(v, id) == None ==>
                 && t.value.angle == r.angle && t.value.rotationSpeed == 0.0 && t.value.rotationAccel == 0.0
                 && t.value.body.speed == 0.0 && t.value.body.xSpeed == 0.0 && t.value.body.ySpeed == 0.0
                 && t.value.body.accel == 0.0 && t.value.body.state == Added && t.value.body.path == [t.value.body.at])
  {
    var r, before := f.reports[k], Lookup(v, id);
    var w := TagsReported(v, f.reports, f.time, sqrt);
    TagReportsActAlone(v, f.reports, f.time, sqrt);
    FirstTagCounts(before, id, f.reports, k, f.time, sqrt);
    SweptKeeps(w, StopTag(f.time, sqrt));
    SweptKeeps(Swept(w, StopTag(f.time, sqrt)), KeepTag(f.time));
    if before.Some? {
      AngleFollows(before.value, f.time, r.x, r.y, r.angle, sqrt);
    } else {
      assert r.angle == r.angle + WholeTurns(0);
    }
  }

  // What a frame does to an object it does not report.
  function Missed(t: Option<Tag>, time: Time, sqrt: real -> real): Option<Tag> {
    match t
    case None => None
    case Some(t) =>
      if t.body.at.time == time then Some(t) else if t.Moving() then Some(t.StoppedAt(time, sqrt)) else None
  }

  lemma UnreportedIsMissed(v: seq<Tracked<Tag>>, f: Frame, sqrt: real -> real, id: int)
    requires Sessions(v) && !Tags(f.reports, id)
    ensures Sessions(TagFrame(v, f, sqrt))
    ensures Lookup(TagFrame(v, f, sqrt), id) == Missed(Lookup(v, id), f.time, sqrt)
  {
    var r := TagsReported(v, f.reports, f.time, sqrt);
    UnreportedUntouched(v, f.reports, f.time, sqrt);
    SweptKeeps(r, StopTag(f.time, sqrt));
    SweptKeeps(Swept(r, StopTag(f.time, sqrt)), KeepTag(f.time));
  }

  predicate Unreported(frames: seq<Frame>, id: int) {
    forall i :: 0 <= i < |frames| ==> !Tags(frames[i].reports, id)
  }

  // How many stops a whole millisecond after the one before it takes to remove the object, the removal included.
  function Lives(t: Tag): nat {
    if !t.Moving() then 1 else if t.body.speed == 0.0 && t.rotationSpeed == 0.0 then 2 else 3
  }

  lemma {:induction false} AbsentStays(v: seq<Tracked<Tag>>, frames: seq<Frame>, sqrt: real -> real, id: int)
    requires Sessions(v) && Lookup(v, id) == None && Unreported(frames, id)
    ensures Lookup(TagRun(v, frames, sqrt), id) == None
    decreases |frames|
  {
    if frames != [] {
      UnreportedIsMissed(v, frames[0], sqrt, id);
      AbsentStays(TagFrame(v, frames[0], sqrt), frames[1..], sqrt, id);
    }
  }

  // The frames that come at least a whole millisecond after the one before.
  function ApartCount(last: Time, frames: seq<Frame>): nat
    decreases |frames|
  {
    if frames == [] then 0
    else (if Elapsed(last, frames[0].time) > 0.0 then 1 else 0) + ApartCount(frames[0].time, frames[1..])
  }

  function Before(last: Time, frames: seq<Frame>, i: nat): Time
    requires i < |frames|
  {
    if i == 0 then last else frames[i - 1].time
  }

  // Frame i finds the object standing still and untouched.
  predicate RemovedIn(last: Time, frames: seq<Frame>, lives: nat, i: nat)
    requires i < |frames|
  {
    frames[i].time != Before(last, frames, i) && ApartCount(last, frames[..i]) + 1 >= lives
  }

  lemma ElapsedToItself(time: Time)
    ensures Elapsed(time, time) == 0.0
  {}

  lemma RemovedLater(last: Time, frames: seq<Frame>, lives: nat, i: nat)
    requires 0 < i < |frames|
    ensures var apart := if Elapsed(last, frames[0].time) > 0.0 then 1 else 0;
            lives > apart ==>
              (RemovedIn(last, frames, lives, i) <==> RemovedIn(frames[0].time, frames[1..], lives - apart, i - 1))
  {
    hide Elapsed;
    assert frames[..i][1..] == frames[1..][..i - 1] && frames[..i][0] == frames[0];
  }

  // The same one frame later.
  lemma RemovedShift(last: Time, frames: seq<Frame>, lives: nat, lives': nat)
    requires frames != [] && !RemovedIn(last, frames, lives, 0)
    requires lives == lives' + (if Elapsed(last, frames[0].time) > 0.0 then 1 else 0) && lives' > 0
    ensures (exists i: nat :: i < |frames| && RemovedIn(last, frames, lives, i))
            <==> (exists j: nat :: j < |frames[1..]| && RemovedIn(frames[0].time, frames[1..], lives', j))
  {
    hide Elapsed, RemovedIn;
    if i: nat :| i < |frames| && RemovedIn(last, frames, lives, i) {
      RemovedLater(last, frames, lives, i);
      assert RemovedIn(frames[0].time, frames[1..], lives', i - 1);
    }
    if j: nat :| j < |frames[1..]| && RemovedIn(frames[0].time, frames[1..], lives', j) {
      RemovedLater(last, frames, lives, j + 1);
      assert RemovedIn(last, frames, lives, j + 1);
    }
  }

  // One frame on a listed, unreported object: kept as it was, gone, or stopped with as many lives as are left.
  lemma TagStep(v: seq<Tracked<Tag>>, f: Frame, sqrt: real -> real, id: int, t: Tag)
    requires Sessions(v) && Lookup(v, id) == Some(t) && t.Valid() && IsRoot(sqrt) && !Tags(f.reports, id)
    ensures var w := TagFrame(v, f, sqrt);
            && Sessions(w)
            && (f.time == t.body.at.time ==> Lookup(w, id) == Some(t))
            && (f.time != t.body.at.time && !t.Moving() ==> Lookup(w, id) == None)
            && (f.time != t.body.at.time && t.Moving() ==>
                  var s := t.StoppedAt(f.time, sqrt);
                  && Lookup(w, id) == Some(s) && s.Valid() && s.body.at.time == f.time
                  && Lives(t) == Lives(s) + if Elapsed(t.body.at.time, f.time) > 0.0 then 1 else 0)
  {
    UnreportedIsMissed(v, f, sqrt, id);
    hide Elapsed, TagFrame, Tag.Updated, Tag.Moving, Lives, Lookup, IsRoot;
    if t.Moving() {
      StoppedLives(t, f.time, sqrt);
    }
  }

  lemma StoppedLives(t: Tag, time: Time, sqrt: real -> real)
    requires t.Valid() && t.Moving() && IsRoot(sqrt)
    ensures var s := t.StoppedAt(time, sqrt);
            && s.Valid() && s.body.at.time == time
            && Lives(t) == Lives(s) + if Elapsed(t.body.at.time, time) > 0.0 then 1 else 0
  {
    hide Elapsed, IsRoot, Distance;
    StopStandsStill(t, time, sqrt);
    UpdateKeepsTag(t, time, t.body.at.x, t.body.at.y, t.angle, sqrt);
  }

  /**
   Over every run, an object that is no longer reported is listed until exactly the frame that finds it standing
   still: counting the frames a millisecond apart, that takes one, two or three, as its motion decides. Frames that
   repeat the time of the one before remove nothing.
   */
  lemma {:induction false} TagGoesExactly(v: seq<Tracked<Tag>>, frames: seq<Frame>, sqrt: real -> real, id: int, t: Tag)
    requires Sessions(v) && Lookup(v, id) == Some(t) && t.Valid() && IsRoot(sqrt)
    requires Unreported(frames, id)
    ensures Lookup(TagRun(v, frames, sqrt), id) == None <==>
            exists i: nat :: i < |frames| && RemovedIn(t.body.at.time, frames, Lives(t), i)
    decreases |frames|
  {
    hide TagFrame, Elapsed, Lives;
    if frames != [] {
      var f, rest, last := frames[0], frames[1..], t.body.at.time;
      var w := TagFrame(v, f, sqrt);
      TagStep(v, f, sqrt, id, t);
      ElapsedToItself(last);
      LivesRange(t);
      assert frames[..0] == [];
      if f.time == last {
        TagGoesExactly(w, rest, sqrt, id, t);
        RemovedShift(last, frames, Lives(t), Lives(t));
      } else if t.Moving() {
        var s := t.StoppedAt(f.time, sqrt);
        LivesRange(s);
        TagGoesExactly(w, rest, sqrt, id, s);
        RemovedShift(last, frames, Lives(t), Lives(s));
      } else {
        AbsentStays(w, rest, sqrt, id);
        assert RemovedIn(last, frames, Lives(t), 0);
      }
    }
  }

  lemma LivesRange(t: Tag)
    ensures 1 <= Lives(t) <= 3 && (Lives(t) == 1 <==> !t.Moving())
  {}

  // No frame repeats the time of the one before.
  predicate Advancing(last: Time, frames: seq<Frame>) {
    forall i: nat :: i < |frames| ==> frames[i].time != Before(last, frames, i)
  }

  lemma {:induction false} ApartCountGrows(last: Time, frames: seq<Frame>, i: nat)
    requires i <= |frames|
    ensures ApartCount(last, frames[..i]) <= ApartCount(last, frames)
    decreases |frames|
  {
    hide Elapsed;
    if i > 0 {
      assert frames[..i][1..] == frames[1..][..i - 1];
      ApartCountGrows(frames[0].time, frames[1..], i - 1);
    }
  }

  /** While no time repeats, the last frame decides: the object stays as long as it has more lives than stops. */
  lemma TagStaysWhile(v: seq<Tracked<Tag>>, frames: seq<Frame>, sqrt: real -> real, id: int, t: Tag)
    requires Sessions(v) && Lookup(v, id) == Some(t) && t.Valid() && IsRoot(sqrt)
    requires Unreported(frames, id) && Advancing(t.body.at.time, frames)
    ensures Lookup(TagRun(v, frames, sqrt), id).Some? <==>
            frames == [] || ApartCount(t.body.at.time, frames[..|frames| - 1]) + 1 < Lives(t)
  {
    TagGoesExactly(v, frames, sqrt, id, t);
    hide TagRun, Lives;
    if frames != [] {
      RemovedByLast(t.body.at.time, frames, Lives(t));
    }
  }

  lemma RemovedByLast(last: Time, frames: seq<Frame>, lives: nat)
    requires frames != [] && Advancing(last, frames)
    ensures (exists i: nat :: i < |frames| && RemovedIn(last, frames, lives, i))
            <==> ApartCount(last, frames[..|frames| - 1]) + 1 >= lives
  {
    hide ApartCount, RemovedIn, Elapsed;
    var n := |frames| - 1;
    assert frames[n].time != Before(last, frames, n);
    RemovedMeans(last, frames, lives, n);
    if i: nat :| i < |frames| && RemovedIn(last, frames, lives, i) {
      RemovedMeans(last, frames, lives, i);
      assert frames[..n][..i] == frames[..i];
      ApartCountGrows(last, frames[..n], i);
    }
  }

  lemma RemovedMeans(last: Time, frames: seq<Frame>, lives: nat, i: nat)
    requires i < |frames| && frames[i].time != Before(last, frames, i)
    ensures RemovedIn(last, frames, lives, i) <==> ApartCount(last, frames[..i]) + 1 >= lives
  {}

  // Every frame comes at least a whole millisecond after the one before.
  predicate Apart(last: Time, frames: seq<Frame>) {
    forall i: nat :: i < |frames| ==> Elapsed(Before(last, frames, i), frames[i].time) > 0.0
  }

  // No frame comes a whole millisecond after the one before.
  predicate Crowded(last: Time, frames: seq<Frame>) {
    forall i: nat :: i < |frames| ==> Elapsed(Before(last, frames, i), frames[i].time) <= 0.0
  }

  lemma {:induction false} ApartCounts(last: Time, frames: seq<Frame>)
    ensures Apart(last, frames) ==> ApartCount(last, frames) == |frames|
    ensures Crowded(last, frames) ==> ApartCount(last, frames) == 0
    decreases |frames|
  {
    hide Elapsed;
    if frames != [] {
      var rest := frames[1..];
      assert forall i: nat :: i < |rest| ==>
          Before(frames[0].time, rest, i) == Before(last, frames, i + 1) && rest[i] == frames[i + 1];
      assert Before(last, frames, 0) == last;
      ApartCounts(frames[0].time, rest);
    }
  }

  /** With every frame apart it goes in its first, second or third frame, and in no other. */
  lemma TagGoesInTime(v: seq<Tracked<Tag>>, frames: seq<Frame>, sqrt: real -> real, id: int, t: Tag)
    requires Sessions(v) && Lookup(v, id) == Some(t) && t.Valid() && IsRoot(sqrt)
    requires Unreported(frames, id) && Apart(t.body.at.time, frames)
    ensures Lookup(TagRun(v, frames, sqrt), id).Some? <==> |frames| < Lives(t)
  {
    var last := t.body.at.time;
    forall i: nat | i < |frames|
      ensures frames[i].time != Before(last, frames, i)
    {
      ElapsedToItself(frames[i].time);
    }
    TagStaysWhile(v, frames, sqrt, id, t);
    LivesRange(t);
    hide TagRun, Elapsed, Lives, ApartCount;
    if frames != [] {
      var init := frames[..|frames| - 1];
      assert forall i: nat :: i < |init| ==> Before(last, init, i) == Before(last, frames, i) && init[i] == frames[i];
      ApartCounts(last, init);
    }
  }

  /** With none apart a moving object stays for ever. */
  lemma TagLingers(v: seq<Tracked<Tag>>, frames: seq<Frame>, sqrt: real -> real, id: int, t: Tag)
    requires Sessions(v) && Lookup(v, id) == Some(t) && t.Valid() && t.Moving() && IsRoot(sqrt)
    requires Unreported(frames, id) && Crowded(t.body.at.time, frames)
    ensures Lookup(TagRun(v, frames, sqrt), id).Some?
  {
    var last := t.body.at.time;
    TagGoesExactly(v, frames, sqrt, id, t);
    LivesRange(t);
    hide TagRun, Elapsed, Lives, ApartCount;
    forall i: nat | i < |frames|
      ensures !RemovedIn(last, frames, Lives(t), i)
    {
      var init := frames[..i];
      assert forall k: nat :: k < |init| ==> Before(last, init, k) == Before(last, frames, k) && init[k] == frames[k];
      ApartCounts(last, init);
    }
  }

  // ---- a run in which that happens

  // n frames without reports, all in the same millisecond.
  function Empty(n: nat): (frames: seq<Frame>)
    ensures |frames| == n
  {
    seq(n, i => Frame(Time(0, if i % 2 == 0 then 1001 else 1000), []))
  }

  const ENTERED := Frame(Time(0, 0), [Tagged(7, 0.0, 0.0, 0.0)])
  const MOVED := Frame(Time(0, 1000), [Tagged(7, 1.0, 0.0, 0.0)])

  function MovedTag(sqrt: real -> real): Tag {
    NewTag(Time(0, 0), 0.0, 0.0, 0.0).Updated(Time(0, 1000), 1.0, 0.0, 0.0, sqrt)
  }

  /** Entered, reported a unit further on a millisecond later, and then in no frame again: it never goes. */
  lemma MovedTagStays(sqrt: real -> real, n: nat)
    requires IsRoot(sqrt)
    ensures Lookup(TagRun([], [ENTERED, MOVED] + Empty(n), sqrt), 7).Some?
  {
    MovedTagListed(sqrt);
    TwoFrames([], ENTERED, MOVED, Empty(n), sqrt);
    EmptyFrames(Time(0, 1000), n);
    hide TagFrame, TagRun, Lookup, MovedTag, Empty, Crowded, Unreported, IsRoot;
    TagLingers(TagFrame(TagFrame([], ENTERED, sqrt), MOVED, sqrt), Empty(n), sqrt, 7, MovedTag(sqrt));
  }

  lemma MovedTagListed(sqrt: real -> real)
    requires IsRoot(sqrt)
    ensures var v, t := TagFrame(TagFrame([], ENTERED, sqrt), MOVED, sqrt), MovedTag(sqrt);
            Sessions(v) && Lookup(v, 7) == Some(t) && t.Valid() && t.Moving() && t.body.at.time == Time(0, 1000)
  {
    var t := NewTag(Time(0, 0), 0.0, 0.0, 0.0);
    ReportedAlone([], ENTERED, sqrt);
    var v := TagFrame([], ENTERED, sqrt);
    assert Lookup(v, 7) == Some(t);
    MillisecondLater();
    hide TagFrame, Elapsed, IsRoot, Tag.Updated, Lookup;
    ListedMoving(v, MOVED, sqrt, t);
  }

  lemma MillisecondLater()
    ensures Elapsed(Time(0, 0), Time(0, 1000)) > 0.0
  {}

  /** A standing object that a frame reports elsewhere is listed moving after it. */
  lemma ListedMoving(v: seq<Tracked<Tag>>, f: Frame, sqrt: real -> real, t: Tag)
    requires IsRoot(sqrt) && Sessions(v) && |f.reports| == 1 && f.reports[0].Tagged?
    requires Lookup(v, f.reports[0].id) == Some(t) && t.Valid() && t.body.speed == 0.0
    requires Elapsed(t.body.at.time, f.time) > 0.0
    requires f.reports[0].x != t.body.at.x || f.reports[0].y != t.body.at.y
    ensures var w, r := TagFrame(v, f, sqrt), f.reports[0];
            var u := t.Updated(f.time, r.x, r.y, r.angle, sqrt);
            Sessions(w) && Lookup(w, r.id) == Some(u) && u.Valid() && u.Moving() && u.body.at.time == f.time
  {
    var r := f.reports[0];
    ElapsedToItself(f.time);
    UpdateKeepsTag(t, f.time, r.x, r.y, r.angle, sqrt);
    ReportedElsewhereMoves(t, f.time, r.x, r.y, r.angle, sqrt);
    hide TagFrame, Elapsed, IsRoot, Tag.Updated, Tag.Moving;
    ReportedAlone(v, f, sqrt);
  }

  lemma EmptyFrames(last: Time, n: nat)
    requires last == Time(0, 1000)
    ensures Crowded(last, Empty(n)) && Unreported(Empty(n), 7)
  {}

  lemma TwoFrames(v: seq<Tracked<Tag>>, f0: Frame, f1: Frame, rest: seq<Frame>, sqrt: real -> real)
    ensures TagRun(v, [f0, f1] + rest, sqrt) == TagRun(TagFrame(TagFrame(v, f0, sqrt), f1, sqrt), rest, sqrt)
  {
    hide TagFrame;
    assert ([f0, f1] + rest)[1..] == [f1] + rest;
    assert ([f1] + rest)[1..] == rest;
  }

  // A frame that reports one object leaves it as that report made it.
  lemma ReportedAlone(v: seq<Tracked<Tag>>, f: Frame, sqrt: real -> real)
    requires Sessions(v) && |f.reports| == 1 && f.reports[0].Tagged?
    requires var r := f.reports[0];
             TaggedBody(Lookup(v, r.id), f.time, r.x, r.y, r.angle, sqrt).body.at.time == f.time
    ensures var w, r := TagFrame(v, f, sqrt), f.reports[0];
            Sessions(w) && Lookup(w, r.id) == Some(TaggedBody(Lookup(v, r.id), f.time, r.x, r.y, r.angle, sqrt))
  {
    var r := f.reports[0];
    var body := TaggedBody(Lookup(v, r.id), f.time, r.x, r.y, r.angle, sqrt);
    assert f.reports[..0] == [];
    assert TagsReported(v, f.reports, f.time, sqrt) == Put(v, r.id, body);
    PutKeeps(v, r.id, body);
    SweptKeeps(Put(v, r.id, body), StopTag(f.time, sqrt));
    SweptKeeps(Swept(Put(v, r.id, body), StopTag(f.time, sqrt)), KeepTag(f.time));
  }
}
