/**
 The frame loop of the panel's TUIO program over the manager's lists: every frame adds and updates what is
 reported, stops what is not, and removes what stood still. Each loop is tied to the functions of Lifecycle.
 */
module FrameLoop {
  import opened Wrappers
  import opened Motion
  import opened Lifecycle
  import opened CursorIds

  class TuioObject {
    var sessionId: int
    var tag: Tag

    constructor (time: Time, sessionId: int, x: real, y: real, a: real)
      ensures this.sessionId == sessionId && tag == NewTag(time, x, y, a)
    {
      this.sessionId, this.tag := sessionId, NewTag(time, x, y, a);
    }
  }

  ghost function CursorView(cs: seq<TuioCursor>): (v: seq<Tracked<Container>>)
    reads cs
    ensures |v| == |cs| && forall i :: 0 <= i < |cs| ==> v[i] == Tracked(cs[i].sessionId, cs[i].body)
  {
    seq(|cs|, i requires 0 <= i < |cs| reads cs => Tracked(cs[i].sessionId, cs[i].body))
  }

  ghost function TagView(os: seq<TuioObject>): (v: seq<Tracked<Tag>>)
    reads os
    ensures |v| == |os| && forall i :: 0 <= i < |os| ==> v[i] == Tracked(os[i].sessionId, os[i].tag)
  {
    seq(|os|, i requires 0 <= i < |os| reads os => Tracked(os[i].sessionId, os[i].tag))
  }

  lemma DistinctFrom<T>(s: seq<T>, k: nat)
    requires Distinct(s) && k < |s|
    ensures forall j :: 0 <= j < |s| && j != k ==> s[j] != s[k]
  {
  }

  class Sur40Tuio {
    const manager: TuioManager
    const sqrt: real -> real
    var objectList: seq<TuioObject>

    ghost predicate Valid()
      reads this, manager, manager.cursorList, manager.freeCursorList
    {
      manager.Dense() && Distinct(objectList)
    }

    ghost function CursorCells(): set<object>
      reads this, manager
    {
      {manager} + (set c: TuioCursor | c in manager.cursorList)
    }

    ghost function ObjectCells(): set<object>
      reads this
    {
      {this} + (set o: TuioObject | o in objectList)
    }

    constructor (time: Time, sqrt: real -> real)
      ensures Valid() && fresh(manager) && manager.cursorList == [] && objectList == [] && this.sqrt == sqrt
    {
      manager := new TuioManager(time);
      this.sqrt, objectList := sqrt, [];
    }

    // ---- cursors

    method GetTuioCursor(id: int) returns (c: TuioCursor?)
      ensures var k := Find(CursorView(manager.cursorList), id);
              if k < |manager.cursorList| then c == manager.cursorList[k] else c == null
    {
      ghost var v := CursorView(manager.cursorList);
      var i := 0;
      while i < |manager.cursorList|
        invariant 0 <= i <= |manager.cursorList|
        invariant forall j :: 0 <= j < i ==> v[j].session != id
      {
        if manager.cursorList[i].sessionId == id {
          return manager.cursorList[i];
        }
        i := i + 1;
      }
      return null;
    }

    lemma LiveDistinct()
      requires Valid()
      ensures Distinct(manager.cursorList) && manager.Valid()
      ensures forall c :: c in manager.cursorList ==> c !in manager.deleted
    {
      var all, n := manager.Everyone(), |manager.cursorList|;
      assert forall i :: 0 <= i < n ==> manager.cursorList[i] == all[i];
      assert forall c :: c in manager.cursorList ==> c in all;
    }

    // Only the motion of one live cursor changes.
    method SetBody(c: TuioCursor, ghost k: nat, body: Container)
      requires Valid() && k < |manager.cursorList| && manager.cursorList[k] == c
      modifies c`body
      ensures Valid()
      ensures CursorView(manager.cursorList) ==
              var v := old(CursorView(manager.cursorList)); v[k := Tracked(v[k].session, body)]
    {
      hide Distinct, InRange;
      ghost var v, live, all := CursorView(manager.cursorList), Ids(manager.cursorList), Ids(manager.Everyone());
      LiveDistinct();
      DistinctFrom(manager.cursorList, k);
      c.body := body;
      assert Ids(manager.cursorList) == live && Ids(manager.Everyone()) == all;
      assert CursorView(manager.cursorList) == v[k := Tracked(v[k].session, body)];
    }

    method SetLastSession(c: TuioCursor, id: int)
      requires Valid() && manager.cursorList != [] && manager.cursorList[|manager.cursorList| - 1] == c
      modifies c`sessionId
      ensures Valid()
      ensures CursorView(manager.cursorList) ==
              var v := old(CursorView(manager.cursorList)); v[|v| - 1 := Tracked(id, v[|v| - 1].body)]
    {
      hide Distinct, InRange;
      ghost var v, live, all := CursorView(manager.cursorList), Ids(manager.cursorList), Ids(manager.Everyone());
      ghost var n := |manager.cursorList| - 1;
      LiveDistinct();
      DistinctFrom(manager.cursorList, n);
      c.sessionId := id;
      assert Ids(manager.cursorList) == live && Ids(manager.Everyone()) == all;
      assert CursorView(manager.cursorList) == v[n := Tracked(id, v[n].body)];
    }

    method AddTouch(id: int, x: real, y: real)
      requires Valid()
      modifies manager
      ensures Valid()
      ensures CursorView(manager.cursorList) ==
              old(CursorView(manager.cursorList)) + [Tracked(id, NewContainer(manager.currentFrameTime, x, y))]
      ensures manager.currentFrameTime == old(manager.currentFrameTime)
      ensures fresh(CursorCells() - old(CursorCells()))
    {
      hide Distinct, InRange, NewContainer;
      ghost var v := CursorView(manager.cursorList);
      var tcur := manager.AddTuioCursor(x, y);
      assert manager.cursorList[|v|] == tcur;
      assert CursorView(manager.cursorList) == v + [Tracked(tcur.sessionId, tcur.body)];
      SetLastSession(tcur, id);
    }

    method ReportTouch(id: int, x: real, y: real)
      requires Valid()
      modifies CursorCells()
      ensures Valid()
      ensures CursorView(manager.cursorList) ==
              old(CursorReported(CursorView(manager.cursorList), Touched(id, x, y), manager.currentFrameTime, sqrt))
      ensures manager.currentFrameTime == old(manager.currentFrameTime)
      ensures fresh(CursorCells() - old(CursorCells()))
    {
      hide Valid, NewContainer, Container.Updated;
      var tcur := GetTuioCursor(id);
      ghost var k := Find(CursorView(manager.cursorList), id);
      if tcur == null {
        AddTouch(id, x, y);
      } else {
        SetBody(tcur, k, tcur.body.Updated(manager.currentFrameTime, x, y, sqrt));
      }
    }

    method StopUntouchedMovingCursors()
      requires Valid()
      modifies CursorCells() - {manager}
      ensures Valid()
      ensures CursorView(manager.cursorList) ==
              old(Swept(CursorView(manager.cursorList), StopCursor(manager.currentFrameTime, sqrt)))
    {
      hide Valid, Container.StoppedAt, Container.Moving, Swept;
      ghost var v := CursorView(manager.cursorList);
      var time := manager.currentFrameTime;
      ghost var stop := StopCursor(time, sqrt);
      var i := 0;
      while i < |manager.cursorList|
        invariant Valid() && 0 <= i <= |v| == |manager.cursorList|
        invariant forall j :: 0 <= j < |v| ==> CursorView(manager.cursorList)[j].session == v[j].session
        invariant forall j :: i <= j < |v| ==> CursorView(manager.cursorList)[j] == v[j]
        invariant forall j :: 0 <= j < i ==> stop(v[j].body) == Some(CursorView(manager.cursorList)[j].body)
      {
        var tcur := manager.cursorList[i];
        assert CursorView(manager.cursorList)[i] == v[i];
        if tcur.body.at.time != time && tcur.body.Moving() {
          SetBody(tcur, i, tcur.body.StoppedAt(time, sqrt));
        }
        i := i + 1;
      }
      SweptAll(v, CursorView(manager.cursorList), stop);
    }

    // One cursor leaves the list, and no other changes.
    method Remove(c: TuioCursor) returns (ghost k: nat)
      requires Valid() && c in manager.cursorList
      modifies manager, c`body
      ensures Valid() && manager.currentFrameTime == old(manager.currentFrameTime)
      ensures k < old(|manager.cursorList|) && c == old(manager.cursorList)[k]
      ensures manager.cursorList == old(manager.cursorList)[..k] + old(manager.cursorList)[k + 1..]
      ensures CursorView(manager.cursorList) ==
              old(CursorView(manager.cursorList)[..k] + CursorView(manager.cursorList)[k + 1..])
    {
      hide Distinct, InRange, Ids, Above, TuioManager.Valid, TuioManager.Dense, TuioManager.Unknown,
           KeptUpTo, CursorView;
      ghost var before, v := manager.cursorList, CursorView(manager.cursorList);
      LiveDistinct();
      manager.RemoveTuioCursor(c);
      k :| 0 <= k < |before| && before[k] == c && manager.cursorList == before[..k] + before[k + 1..];
      DistinctFrom(before, k);
      ViewWithout(before, v, k, manager.cursorList);
    }

    static lemma ViewWithout(before: seq<TuioCursor>, v: seq<Tracked<Container>>, k: nat, after: seq<TuioCursor>)
      requires k < |before| == |v| && after == before[..k] + before[k + 1..]
      requires forall j :: 0 <= j < |before| && j != k ==> v[j] == Tracked(before[j].sessionId, before[j].body)
      ensures CursorView(after) == v[..k] + v[k + 1..]
    {
      hide CursorView;
      assert forall j :: 0 <= j < |after| ==> after[j] == before[if j < k then j else j + 1];
    }

    method RemoveUntouchedStoppedCursors()
      requires Valid()
      modifies CursorCells()
      ensures Valid()
      ensures CursorView(manager.cursorList) ==
              old(Swept(CursorView(manager.cursorList), KeepCursor(manager.currentFrameTime)))
      ensures manager.currentFrameTime == old(manager.currentFrameTime)
      ensures CursorCells() <= old(CursorCells())
    {
      hide Valid, Swept, Container.Moving;
      var time := manager.currentFrameTime;
      ghost var v, keep := CursorView(manager.cursorList), KeepCursor(time);
      var i := 0;
      while i < |manager.cursorList|
        invariant Valid() && manager.currentFrameTime == time
        invariant 0 <= i <= |manager.cursorList|
        invariant CursorCells() <= old(CursorCells())
        invariant Swept(CursorView(manager.cursorList), keep) == Swept(v, keep)
        invariant forall j :: 0 <= j < i ==>
          keep(CursorView(manager.cursorList)[j].body) == Some(CursorView(manager.cursorList)[j].body)
        decreases |manager.cursorList|, |manager.cursorList| - i
      {
        var tcur := manager.cursorList[i];
        ghost var before := CursorView(manager.cursorList);
        assert before[i].body == tcur.body && tcur in manager.cursorList;
        if tcur.body.at.time != time && !tcur.body.Moving() {
          ghost var k := Remove(tcur);
          SweptWithout(before, k, keep);
          i := 0;
        } else {
          i := i + 1;
        }
      }
      SweptAll(CursorView(manager.cursorList), CursorView(manager.cursorList), keep);
    }

    // ---- tagged objects

    method GetTuioObject(id: int) returns (o: TuioObject?)
      ensures var k := Find(TagView(objectList), id);
              if k < |objectList| then o == objectList[k] else o == null
    {
      ghost var v := TagView(objectList);
      var i := 0;
      while i < |objectList|
        invariant 0 <= i <= |objectList|
        invariant forall j :: 0 <= j < i ==> v[j].session != id
      {
        if objectList[i].sessionId == id {
          return objectList[i];
        }
        i := i + 1;
      }
      return null;
    }

    // Only one object changes.
    method SetTag(o: TuioObject, ghost k: nat, tag: Tag)
      requires Distinct(objectList) && k < |objectList| && objectList[k] == o
      modifies o`tag
      ensures TagView(objectList) == var v := old(TagView(objectList)); v[k := Tracked(v[k].session, tag)]
    {
      hide Distinct;
      ghost var v := TagView(objectList);
      DistinctFrom(objectList, k);
      o.tag := tag;
      assert TagView(objectList) == v[k := Tracked(v[k].session, tag)];
    }

    // The update counts once a frame: an object already updated in this one is left as it is.
    method ReportTag(id: int, x: real, y: real, a: real)
      requires Distinct(objectList)
      modifies ObjectCells()
      ensures Distinct(objectList)
      ensures TagView(objectList) ==
              old(TagReported(TagView(objectList), Tagged(id, x, y, a), manager.currentFrameTime, sqrt))
      ensures forall o :: o in objectList ==> o in old(objectList) || fresh(o)
    {
      hide NewTag, Tag.Updated;
      var tobj := GetTuioObject(id);
      ghost var k := Find(TagView(objectList), id);
      if tobj == null {
        ghost var v := TagView(objectList);
        tobj := new TuioObject(manager.currentFrameTime, id, x, y, a);
        objectList := objectList + [tobj];
        assert TagView(objectList) == v + [Tracked(id, tobj.tag)];
      } else if tobj.tag.body.at.time != manager.currentFrameTime {
        SetTag(tobj, k, tobj.tag.Updated(manager.currentFrameTime, x, y, a, sqrt));
      } else {
        assert TagView(objectList) == TagView(objectList)[k := Tracked(id, tobj.tag)];
      }
    }

    method StopUntouchedMovingObjects()
      requires Distinct(objectList)
      modifies ObjectCells() - {this}
      ensures TagView(objectList) == old(Swept(TagView(objectList), StopTag(manager.currentFrameTime, sqrt)))
    {
      hide Distinct, Tag.StoppedAt, Tag.Moving, Swept;
      ghost var v := TagView(objectList);
      var time := manager.currentFrameTime;
      ghost var stop := StopTag(time, sqrt);
      var i := 0;
      while i < |objectList|
        invariant 0 <= i <= |v| == |objectList|
        invariant forall j :: 0 <= j < |v| ==> TagView(objectList)[j].session == v[j].session
        invariant forall j :: i <= j < |v| ==> TagView(objectList)[j] == v[j]
        invariant forall j :: 0 <= j < i ==> stop(v[j].body) == Some(TagView(objectList)[j].body)
      {
        var tobj := objectList[i];
        assert TagView(objectList)[i] == v[i];
        if tobj.tag.body.at.time != time && tobj.tag.Moving() {
          SetTag(tobj, i, tobj.tag.StoppedAt(time, sqrt));
        }
        i := i + 1;
      }
      SweptAll(v, TagView(objectList), stop);
    }

    method RemoveTuioObject(o: TuioObject) returns (ghost k: nat)
      requires Distinct(objectList) && o in objectList
      modifies this`objectList, o`tag
      ensures Distinct(objectList)
      ensures k < old(|objectList|) && o == old(objectList)[k]
      ensures objectList == old(objectList)[..k] + old(objectList)[k + 1..]
      ensures TagView(objectList) == old(TagView(objectList)[..k] + TagView(objectList)[k + 1..])
      ensures o.tag == old(o.tag).(body := old(o.tag).body.RemovedAt(manager.currentFrameTime))
    {
      ghost var before, v := objectList, TagView(objectList);
      var i := 0;
      while objectList[i] != o
        invariant 0 <= i < |objectList| && o !in objectList[..i]
        decreases |objectList| - i
      {
        i := i + 1;
      }
      k := i;
      DistinctFrom(before, k);
      objectList := objectList[..i] + objectList[i + 1..];
      o.tag := o.tag.(body := o.tag.body.RemovedAt(manager.currentFrameTime));
      assert forall j :: 0 <= j < |objectList| ==> objectList[j] == before[if j < k then j else j + 1];
      assert TagView(objectList) == v[..k] + v[k + 1..];
    }

    method RemoveUntouchedStoppedObjects()
      requires Distinct(objectList)
      modifies ObjectCells()
      ensures Distinct(objectList)
      ensures TagView(objectList) == old(Swept(TagView(objectList), KeepTag(manager.currentFrameTime)))
      ensures ObjectCells() <= old(ObjectCells())
    {
      hide Distinct, Swept, Tag.Moving;
      var time := manager.currentFrameTime;
      ghost var v, keep := TagView(objectList), KeepTag(time);
      var i := 0;
      while i < |objectList|
        invariant Distinct(objectList) && 0 <= i <= |objectList|
        invariant ObjectCells() <= old(ObjectCells())
        invariant Swept(TagView(objectList), keep) == Swept(v, keep)
        invariant forall j :: 0 <= j < i ==> keep(TagView(objectList)[j].body) == Some(TagView(objectList)[j].body)
        decreases |objectList|, |objectList| - i
      {
        var tobj := objectList[i];
        ghost var before := TagView(objectList);
        assert before[i].body == tobj.tag && tobj in objectList;
        if tobj.tag.body.at.time != time && !tobj.tag.Moving() {
          ghost var k := RemoveTuioObject(tobj);
          SweptWithout(before, k, keep);
          i := 0;
        } else {
          i := i + 1;
        }
      }
      SweptAll(TagView(objectList), TagView(objectList), keep);
    }

    // ---- a frame

    method InitFrame(time: Time)
      requires Valid()
      modifies manager`currentFrameTime
      ensures Valid() && manager.currentFrameTime == time
    {
      manager.currentFrameTime := time;
    }

    method ReportOne(r: Report)
      requires Valid()
      modifies CursorCells(), ObjectCells()
      ensures Valid() && manager.currentFrameTime == old(manager.currentFrameTime)
      ensures CursorView(manager.cursorList) ==
              CursorReported(old(CursorView(manager.cursorList)), r, manager.currentFrameTime, sqrt)
      ensures TagView(objectList) == TagReported(old(TagView(objectList)), r, manager.currentFrameTime, sqrt)
      ensures fresh(CursorCells() - old(CursorCells())) && fresh(ObjectCells() - old(ObjectCells()))
    {
      hide Distinct, NewTag, NewContainer, Tag.Updated, Container.Updated, Put, Lookup, TaggedBody, TouchedBody;
      hide TuioManager.Dense;
      ghost var cs, ts := CursorView(manager.cursorList), TagView(objectList);
      match r
      case Touched(id, x, y) =>
        ReportTouch(id, x, y);
        assert TagView(objectList) == ts;
      case Tagged(id, x, y, a) =>
        ReportTag(id, x, y, a);
        assert CursorView(manager.cursorList) == cs;
      case Other =>
    }

    method ReportAll(reports: seq<Report>)
      requires Valid()
      modifies CursorCells(), ObjectCells()
      ensures Valid() && manager.currentFrameTime == old(manager.currentFrameTime)
      ensures CursorView(manager.cursorList) ==
              CursorsReported(old(CursorView(manager.cursorList)), reports, manager.currentFrameTime, sqrt)
      ensures TagView(objectList) == TagsReported(old(TagView(objectList)), reports, manager.currentFrameTime, sqrt)
      ensures fresh(CursorCells() - old(CursorCells())) && fresh(ObjectCells() - old(ObjectCells()))
    {
      hide Valid, CursorReported, TagReported;
      var time := manager.currentFrameTime;
      ghost var cs, ts := CursorView(manager.cursorList), TagView(objectList);
      for i := 0 to |reports|
        invariant Valid() && manager.currentFrameTime == time
        invariant CursorView(manager.cursorList) == CursorsReported(cs, reports[..i], time, sqrt)
        invariant TagView(objectList) == TagsReported(ts, reports[..i], time, sqrt)
        invariant fresh(CursorCells() - old(CursorCells())) && fresh(ObjectCells() - old(ObjectCells()))
      {
        assert reports[..i + 1][..i] == reports[..i];
        ReportOne(reports[i]);
      }
      assert reports[..|reports|] == reports;
    }

    method SweepCursors()
      requires Valid()
      modifies CursorCells()
      ensures Valid() && manager.currentFrameTime == old(manager.currentFrameTime)
      ensures CursorView(manager.cursorList) ==
              Swept(Swept(old(CursorView(manager.cursorList)), StopCursor(manager.currentFrameTime, sqrt)),
                    KeepCursor(manager.currentFrameTime))
      ensures fresh(CursorCells() - old(CursorCells()))
    {
      hide Valid, Swept, StopCursor, KeepCursor;
      StopUntouchedMovingCursors();
      RemoveUntouchedStoppedCursors();
    }

    method SweepObjects()
      requires Distinct(objectList)
      modifies ObjectCells()
      ensures Distinct(objectList)
      ensures TagView(objectList) ==
              Swept(Swept(old(TagView(objectList)), StopTag(manager.currentFrameTime, sqrt)),
                    KeepTag(manager.currentFrameTime))
      ensures fresh(ObjectCells() - old(ObjectCells()))
    {
      hide Swept, StopTag, KeepTag, Distinct;
      StopUntouchedMovingObjects();
      RemoveUntouchedStoppedObjects();
    }

    /** One turn of the loop does to both lists exactly what the frame functions say, and keeps identifiers dense. */
    method RunFrame(f: Frame)
      requires Valid()
      modifies CursorCells(), ObjectCells()
      ensures Valid()
      ensures CursorView(manager.cursorList) == CursorFrame(old(CursorView(manager.cursorList)), f, sqrt)
      ensures TagView(objectList) == TagFrame(old(TagView(objectList)), f, sqrt)
      ensures fresh(CursorCells() - old(CursorCells())) && fresh(ObjectCells() - old(ObjectCells()))
    {
      hide CursorView, TagView, CursorsReported, TagsReported, Swept, StopCursor, KeepCursor, StopTag, KeepTag,
           Distinct, TuioManager.Dense;
      ghost var cs, ts := CursorView(manager.cursorList), TagView(objectList);
      InitFrame(f.time);
      assert CursorView(manager.cursorList) == cs && TagView(objectList) == ts;
      ReportAll(f.reports);
      ts := TagView(objectList);
      SweepCursors();
      assert TagView(objectList) == ts;
      cs := CursorView(manager.cursorList);
      SweepObjects();
      assert CursorView(manager.cursorList) == cs;
    }

    /** The loop, frame after frame: its lists are the ones that the theorems on runs speak of. */
    method Run(frames: seq<Frame>)
      requires Valid()
      modifies CursorCells(), ObjectCells()
      ensures Valid()
      ensures CursorView(manager.cursorList) == CursorRun(old(CursorView(manager.cursorList)), frames, sqrt)
      ensures TagView(objectList) == TagRun(old(TagView(objectList)), frames, sqrt)
    {
      hide CursorView, TagView, CursorFrame, TagFrame, Valid;
      ghost var cs, ts := CursorView(manager.cursorList), TagView(objectList);
      for i := 0 to |frames|
        invariant Valid()
        invariant fresh(CursorCells() - old(CursorCells())) && fresh(ObjectCells() - old(ObjectCells()))
        invariant CursorRun(CursorView(manager.cursorList), frames[i..], sqrt) == CursorRun(cs, frames, sqrt)
        invariant TagRun(TagView(objectList), frames[i..], sqrt) == TagRun(ts, frames, sqrt)
      {
        assert frames[i..][0] == frames[i] && frames[i..][1..] == frames[i + 1..];
        RunFrame(frames[i]);
      }
    }
  }
}
