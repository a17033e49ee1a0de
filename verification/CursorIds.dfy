/**
 Cursor identifiers of the TUIO manager: a list of live cursors, a list of removed ones whose identifiers wait
 to be reused, and the largest identifier. The blob allocator is the same code.
 */
module CursorIds {
  import opened Motion

  class TuioCursor {
    var cursorId: int
    var sessionId: int
    var body: Container

    constructor (time: Time, sessionId: int, cursorId: int, x: real, y: real)
      ensures this.sessionId == sessionId && this.cursorId == cursorId && body == NewContainer(time, x, y)
    {
      this.sessionId, this.cursorId, this.body := sessionId, cursorId, NewContainer(time, x, y);
    }

    // Comparing squares orders like comparing distances.
    function DistanceSquared(x: real, y: real): real
      reads this`body
    {
      (body.at.x - x) * (body.at.x - x) + (body.at.y - y) * (body.at.y - y)
    }
  }

  ghost function Ids(cs: seq<TuioCursor>): (ids: seq<int>)
    reads cs
    ensures |ids| == |cs| && forall i :: 0 <= i < |cs| ==> ids[i] == cs[i].cursorId
  {
    seq(|cs|, i requires 0 <= i < |cs| reads cs => cs[i].cursorId)
  }

  predicate Distinct<T(==)>(s: seq<T>) {
    forall i, j :: 0 <= i < j < |s| ==> s[i] != s[j]
  }

  predicate InRange(ids: seq<int>, max: int) {
    forall i :: 0 <= i < |ids| ==> 0 <= ids[i] <= max
  }

  // ---- counting identifiers

  lemma {:induction false} Counted(ids: seq<int>, n: nat)
    requires Distinct(ids) && InRange(ids, n - 1)
    ensures |ids| <= n
    ensures |ids| == n <==> forall k :: 0 <= k < n ==> k in ids
    decreases n
  {
    ghost var first := if ids == [] then 0 else ids[0];
    if n == 0 {
    } else if n - 1 in ids {
      var i :| 0 <= i < |ids| && ids[i] == n - 1;
      var rest := ids[..i] + ids[i + 1..];
      LargestDropped(ids, rest, i, n);
      Counted(rest, n - 1);
    } else {
      forall i | 0 <= i < |ids|
        ensures ids[i] <= n - 2
      {
        assert ids[i] in ids;
      }
      Counted(ids, n - 1);
    }
  }

  lemma LargestDropped(ids: seq<int>, rest: seq<int>, i: nat, n: nat)
    requires i < |ids| && ids[i] == n - 1 && rest == ids[..i] + ids[i + 1..]
    requires Distinct(ids) && InRange(ids, n - 1)
    ensures Distinct(rest) && InRange(rest, n - 2)
    ensures forall k :: k in ids <==> k in rest || k == n - 1
  {
    assert forall j :: 0 <= j < |rest| ==> rest[j] == ids[if j < i then j else j + 1];
    assert ids == ids[..i] + [ids[i]] + ids[i + 1..];
  }

  // Dropping everything above `max` from a complete range leaves a complete range.
  lemma ShrunkRange(ids: seq<int>, kept: seq<int>, max: int, max': int)
    requires -1 <= max' <= max
    requires Distinct(ids) && InRange(ids, max) && |ids| == max + 1
    requires Distinct(kept) && InRange(kept, max')
    requires forall k :: k in ids && k <= max' ==> k in kept
    ensures |kept| == max' + 1
  {
    Counted(ids, max + 1);
    Counted(kept, max' + 1);
  }

  class TuioManager {
    var cursorList: seq<TuioCursor>
    var freeCursorList: seq<TuioCursor>
    var maxCursorId: int
    var sessionId: int
    var currentFrameTime: Time
    ghost var deleted: set<TuioCursor>
    ghost var known: set<TuioCursor>  // every cursor ever entered
    ghost var peak: nat  // the most cursors that were ever live at once

    ghost function Everyone(): seq<TuioCursor>
      reads this
    {
      cursorList + freeCursorList
    }

    /** Holds under every mix of operations: identifiers are distinct, over live and free cursors together. */
    ghost predicate Valid()
      reads this, cursorList, freeCursorList
    {
      && Distinct(Everyone()) && Distinct(Ids(Everyone())) && InRange(Ids(Everyone()), maxCursorId)
      && maxCursorId >= -1
      && (forall c :: c in Everyone() ==> c !in deleted)
      && (forall c :: c in freeCursorList ==> c.cursorId < maxCursorId)
    }

    /** Holds while no external cursor is involved: the identifiers in use or free are exactly 0..maxCursorId. */
    ghost predicate Dense()
      reads this, cursorList, freeCursorList
    {
      && Valid()
      && |cursorList| + |freeCursorList| == maxCursorId + 1
      && (maxCursorId >= 0 ==> maxCursorId in Ids(cursorList))
      && |cursorList| <= peak && maxCursorId < peak
      && known == (set c | c in Everyone()) + deleted  // live, free or deleted
    }

    constructor (time: Time)
      ensures currentFrameTime == time
      ensures Valid() && Dense() && cursorList == [] && freeCursorList == []
    {
      cursorList, freeCursorList, maxCursorId, sessionId := [], [], -1, -1;
      currentFrameTime, deleted, known, peak := time, {}, {}, 0;
    }

    /** The free cursor nearest to the new one, the earliest of them. */
    method ClosestFree(x: real, y: real) returns (closest: nat)
      requires freeCursorList != []
      ensures Nearest(freeCursorList, closest, x, y)
    {
      closest := 0;
      var i := 0;
      while i < |freeCursorList|
        invariant 0 <= i <= |freeCursorList| && closest < |freeCursorList|
        invariant i == 0 ==> closest == 0
        invariant i > 0 ==> closest < i
        invariant forall k :: 0 <= k < i ==>
                    freeCursorList[closest].DistanceSquared(x, y) <= freeCursorList[k].DistanceSquared(x, y)
        invariant forall k :: 0 <= k < closest ==>
                    freeCursorList[closest].DistanceSquared(x, y) < freeCursorList[k].DistanceSquared(x, y)
      {
        if freeCursorList[i].DistanceSquared(x, y) < freeCursorList[closest].DistanceSquared(x, y) {
          closest := i;
        }
        i := i + 1;
      }
    }

    // One element erased from a list of distinct cursors.
    static lemma ErasedAt(before: seq<TuioCursor>, after: seq<TuioCursor>, i: nat)
      requires i < |before| && after == before[..i] + before[i + 1..]
      requires Distinct(before) && Distinct(Ids(before))
      ensures Distinct(after) && Distinct(Ids(after))
      ensures before[i] !in after && before[i].cursorId !in Ids(after)
      ensures forall c :: c in before <==> c in after || c == before[i]
      ensures forall k :: k in Ids(after) ==> k in Ids(before)
    {
      assert forall k :: 0 <= k < |after| ==> after[k] == if k < i then before[k] else before[k + 1];
      assert before == before[..i] + [before[i]] + before[i + 1..];
    }

    method EraseFree(closest: nat) returns (freeCursor: TuioCursor)
      requires Valid() && closest < |freeCursorList|
      modifies this`freeCursorList, this`deleted
      ensures Valid()
      ensures freeCursor == old(freeCursorList)[closest]
      ensures freeCursorList == old(freeCursorList[..closest] + freeCursorList[closest + 1..])
      ensures deleted == old(deleted) + {freeCursor}
      ensures 0 <= freeCursor.cursorId <= maxCursorId && freeCursor.cursorId !in Ids(Everyone())
      ensures freeCursor !in Everyone() && freeCursor !in old(deleted)
      ensures (set d | d in old(freeCursorList)) + old(deleted) == (set d | d in freeCursorList) + deleted
    {
      hide Distinct;
      freeCursor := freeCursorList[closest];
      ghost var before, i := Everyone(), |cursorList| + closest;
      assert before[i] == freeCursor && Ids(before)[i] == freeCursor.cursorId;
      freeCursorList := freeCursorList[..closest] + freeCursorList[closest + 1..];
      deleted := deleted + {freeCursor};
      assert Everyone() == before[..i] + before[i + 1..];
      ErasedAt(before, Everyone(), i);
    }

    /** Picks the identifier for a new cursor, reusing a free one where the code looks for one. */
    method TakeId(x: real, y: real) returns (cursorId: int)
      requires Valid()
      modifies this`freeCursorList, this`maxCursorId, this`deleted
      ensures Valid() && 0 <= cursorId <= maxCursorId
      ensures cursorId !in Ids(Everyone())
      ensures old(deleted) <= deleted
      ensures (set d | d in old(freeCursorList)) + old(deleted) == (set d | d in freeCursorList) + deleted
      ensures Assigned(old(|cursorList|), old(maxCursorId), old(freeCursorList), x, y, cursorId,
                       maxCursorId, freeCursorList)
      ensures old(Dense()) ==>
        // the branch that invents an identifier is dead
        && (old(|cursorList| <= maxCursorId) ==> old(freeCursorList) != [])
        && |cursorList| + 1 + |freeCursorList| == maxCursorId + 1
        && (maxCursorId == cursorId || maxCursorId in Ids(cursorList))
        && (maxCursorId == old(maxCursorId) || maxCursorId == |cursorList|)
    {
      cursorId := |cursorList|;
      if |cursorList| <= maxCursorId {
        if freeCursorList != [] {
          var closest := ClosestFree(x, y);
          var freeCursor := EraseFree(closest);
          cursorId := freeCursor.cursorId;
        } else {
          cursorId := maxCursorId + 1;
          maxCursorId := cursorId;
        }
      } else {
        maxCursorId := cursorId;
      }
    }

    // One cursor put among distinct ones.
    static lemma InsertedAt(before: seq<TuioCursor>, after: seq<TuioCursor>, i: nat, c: TuioCursor)
      requires i <= |before| && after == before[..i] + [c] + before[i..]
      requires Distinct(before) && Distinct(Ids(before)) && c !in before && c.cursorId !in Ids(before)
      ensures Distinct(after) && Distinct(Ids(after))
      ensures forall d :: d in after <==> d in before || d == c
      ensures forall k :: k in Ids(after) <==> k in Ids(before) || k == c.cursorId
    {
      InsertedInto(before, after, i, c);
      assert Ids(after) == Ids(before)[..i] + [c.cursorId] + Ids(before)[i..];
      InsertedInto(Ids(before), Ids(after), i, c.cursorId);
    }

    static lemma InsertedInto<T>(before: seq<T>, after: seq<T>, i: nat, c: T)
      requires i <= |before| && after == before[..i] + [c] + before[i..]
      requires Distinct(before) && c !in before
      ensures Distinct(after)
      ensures forall d :: d in after <==> d in before || d == c
    {
      assert forall d :: d in before <==> d in before[..i] || d in before[i..] by {
        assert before == before[..i] + before[i..];
      }
      forall j, k | 0 <= j < k < |after|
        ensures after[j] != after[k]
      {
        assert j != i ==> after[j] == before[if j < i then j else j - 1];
        assert k != i ==> after[k] == before[if k < i then k else k - 1];
      }
    }

    static lemma RangeInserted(before: seq<int>, after: seq<int>, id: int, max: int)
      requires InRange(before, max) && 0 <= id <= max
      requires forall k :: k in after ==> k in before || k == id
      ensures InRange(after, max)
    {
      assert forall i :: 0 <= i < |after| ==> after[i] in after;
    }

    /** Enters a cursor under an identifier nobody has. */
    method Enter(c: TuioCursor)
      requires Valid() && c !in Everyone() && c !in deleted
      requires 0 <= c.cursorId <= maxCursorId && c.cursorId !in Ids(Everyone())
      modifies this`cursorList, this`peak, this`known
      ensures Valid()
      ensures cursorList == old(cursorList) + [c]
      ensures Ids(cursorList) == old(Ids(cursorList)) + [c.cursorId]
      ensures peak == if |cursorList| > old(peak) then |cursorList| else old(peak)
      ensures known == old(known) + {c}
    {
      hide Distinct, InRange;
      ghost var before, n := Everyone(), |cursorList|;
      cursorList := cursorList + [c];
      known := known + {c};
      peak := if |cursorList| > peak then |cursorList| else peak;
      assert Everyone() == before[..n] + [c] + before[n..];
      InsertedAt(before, Everyone(), n, c);
      RangeInserted(Ids(before), Ids(Everyone()), c.cursorId, maxCursorId);
    }

    method AddTuioCursor(x: real, y: real) returns (c: TuioCursor)
      requires Valid()
      modifies this`cursorList, this`freeCursorList, this`maxCursorId, this`sessionId, this`deleted,
               this`known, this`peak
      ensures Valid() && fresh(c) && c.body == NewContainer(currentFrameTime, x, y)
      ensures old(Dense()) ==> Dense() && c.cursorId < peak
      ensures cursorList == old(cursorList) + [c] && sessionId == old(sessionId) + 1 && c.sessionId == sessionId
      ensures peak == if |cursorList| > old(peak) then |cursorList| else old(peak)
      ensures Assigned(old(|cursorList|), old(maxCursorId), old(freeCursorList), x, y, c.cursorId,
                       maxCursorId, freeCursorList)
    {
      hide Distinct, InRange, Assigned, Ids;
      sessionId := sessionId + 1;
      var cursorId := TakeId(x, y);
      ghost var ids, live := Ids(Everyone()), Ids(cursorList);
      c := new TuioCursor(currentFrameTime, sessionId, cursorId, x, y);
      assert Ids(Everyone()) == ids && Ids(cursorList) == live;
      Enter(c);
    }

    /** The same for a cursor the caller owns: it gets the identifier and the session here. */
    method AddExternalTuioCursor(c: TuioCursor)
      requires Valid() && c !in Everyone() && c !in deleted
      modifies this`cursorList, this`freeCursorList, this`maxCursorId, this`sessionId, this`deleted,
               this`known, this`peak, c`cursorId, c`sessionId
      ensures Valid()
      ensures old(Dense()) ==> Dense() && c.cursorId < peak
      ensures peak == if |cursorList| > old(peak) then |cursorList| else old(peak)
      ensures cursorList == old(cursorList) + [c] && sessionId == old(sessionId) + 1 && c.sessionId == sessionId
      ensures Assigned(old(|cursorList|), old(maxCursorId), old(freeCursorList), c.body.at.x, c.body.at.y, c.cursorId,
                       maxCursorId, freeCursorList)
    {
      hide Distinct, InRange, Assigned, Ids;
      var cursorId := TakeId(c.body.at.x, c.body.at.y);
      ghost var ids, live := Ids(Everyone()), Ids(cursorList);
      assert c !in Everyone();
      sessionId := sessionId + 1;
      c.sessionId := sessionId;
      c.cursorId := cursorId;
      SameIds(Everyone(), ids);
      SameIds(cursorList, live);
      Enter(c);
    }

    // list::remove on the live cursors.
    method Unlist(c: TuioCursor)
      requires Valid() && c in cursorList
      modifies this`cursorList
      ensures Valid() && c !in Everyone() && c.cursorId !in Ids(Everyone())
      ensures Without(old(cursorList), cursorList, c)
      ensures 0 <= c.cursorId <= maxCursorId
      ensures |cursorList| == old(|cursorList|) - 1
      ensures forall d :: d in old(Everyone()) <==> d in Everyone() || d == c
      ensures forall k :: k in old(Ids(Everyone())) <==> k in Ids(Everyone()) || k == c.cursorId
      ensures forall k :: k in old(Ids(cursorList)) <==> k in Ids(cursorList) || k == c.cursorId
    {
      var i := 0;
      while cursorList[i] != c
        invariant 0 <= i < |cursorList| && c !in cursorList[..i]
        decreases |cursorList| - i
      {
        i := i + 1;
      }
      ghost var before := Everyone();
      cursorList := cursorList[..i] + cursorList[i + 1..];
      assert Everyone() == before[..i] + before[i + 1..];
      assert before[i] == c && Ids(before)[i] == c.cursorId;
      ErasedAt(before, Everyone(), i);
      IdsErased(before, Everyone(), i);
      IdsErased(old(cursorList), cursorList, i);
      assert forall k :: k in Ids(before) ==> 0 <= k <= maxCursorId;
      assert forall k :: 0 <= k < |Ids(Everyone())| ==> Ids(Everyone())[k] in Ids(Everyone());
    }

    static lemma IdsErased(before: seq<TuioCursor>, after: seq<TuioCursor>, i: nat)
      requires i < |before| && after == before[..i] + before[i + 1..]
      ensures forall k :: k in Ids(before) <==> k in Ids(after) || k == before[i].cursorId
    {
      assert forall k :: 0 <= k < |after| ==> after[k] == if k < i then before[k] else before[k + 1];
      assert forall k :: 0 <= k < |before| && k != i ==> before[k] == after[if k < i then k else k - 1];
      assert forall k :: 0 <= k < |before| ==> Ids(before)[k] == before[k].cursorId;
    }

    method LargestLiveId() returns (max: int)
      requires forall c :: c in cursorList ==> c.cursorId >= 0
      ensures max >= -1
      ensures if cursorList == [] then max == -1 else max in Ids(cursorList)
      ensures forall c :: c in cursorList ==> c.cursorId <= max
    {
      max := -1;
      var i := 0;
      while i < |cursorList|
        invariant 0 <= i <= |cursorList| && max >= -1
        invariant if i == 0 then max == -1 else max in Ids(cursorList)
        invariant forall k :: 0 <= k < i ==> cursorList[k].cursorId <= max
      {
        var cursorId := cursorList[i].cursorId;
        assert cursorList[i] in cursorList;
        if cursorId > max {
          max := cursorId;
          assert Ids(cursorList)[i] == max;
        }
        i := i + 1;
      }
    }

    /** Deletes the free cursors above the maximum and keeps the others in order. */
    method DropFreeAbove(max: int)
      modifies this`freeCursorList, this`deleted
      ensures freeCursorList == KeptUpTo(old(freeCursorList), max)
      ensures deleted == old(deleted) + Above(old(freeCursorList), max)
    {
      hide KeptUpTo, Above;
      var freeCursorBuffer := [];
      var i := 0;
      NothingKept(max);
      while i < |freeCursorList|
        invariant 0 <= i <= |freeCursorList|
        invariant freeCursorList == old(freeCursorList)
        invariant freeCursorBuffer == KeptUpTo(freeCursorList[..i], max)
        invariant deleted == old(deleted) + Above(freeCursorList[..i], max)
      {
        var freeCursor := freeCursorList[i];
        KeptStep(freeCursorList, i, max);
        if freeCursor.cursorId > max {
          deleted := deleted + {freeCursor};
        } else {
          freeCursorBuffer := freeCursorBuffer + [freeCursor];
        }
        i := i + 1;
      }
      assert freeCursorList[..i] == freeCursorList;
      freeCursorList := freeCursorBuffer;
    }

    static lemma NothingKept(max: int)
      ensures KeptUpTo([], max) == [] && Above([], max) == {}
    {
    }

    static lemma KeptStep(free: seq<TuioCursor>, i: nat, max: int)
      requires i < |free|
      ensures KeptUpTo(free[..i + 1], max) ==
              KeptUpTo(free[..i], max) + if free[i].cursorId <= max then [free[i]] else []
      ensures Above(free[..i + 1], max) == Above(free[..i], max) + if free[i].cursorId <= max then {} else {free[i]}
    {
      var before, after := free[..i], free[..i + 1];
      assert after == before + [free[i]];
      assert after[..|after| - 1] == before;
    }

    // The largest live identifier becomes the maximum, and the cursor that had it is deleted.
    method Shrink(c: TuioCursor)
      requires Valid() && c.cursorId == maxCursorId && c !in cursorList
      modifies this`freeCursorList, this`deleted, this`maxCursorId
      ensures Valid()
      ensures if cursorList == [] then maxCursorId == -1 else maxCursorId in Ids(cursorList)
      ensures freeCursorList == KeptUpTo(old(freeCursorList), maxCursorId)
      ensures deleted == old(deleted) + {c} + Above(old(freeCursorList), maxCursorId)
      ensures forall d :: d in old(Everyone()) <==> d in Everyone() || d in Above(old(freeCursorList), maxCursorId)
      ensures maxCursorId <= old(maxCursorId)
      ensures old(maxCursorId >= 0 && maxCursorId !in Ids(Everyone())) ==> maxCursorId < old(maxCursorId)
      ensures forall k :: k in old(Ids(Everyone())) && k <= maxCursorId ==> k in Ids(Everyone())
    {
      ghost var before, free := Everyone(), freeCursorList;
      hide Distinct, KeptUpTo, Above, Ids, InRange;
      LiveInRange();
      var max := LargestLiveId();
      LargestBounds(max, c);
      KeptBelow(max);
      assert c !in before;
      DropFreeAbove(max);
      maxCursorId := max;
      Shrunk(cursorList, free, freeCursorList, max, old(maxCursorId));
      deleted := deleted + {c};
      KeptMembers(free, max);
    }

    // What the largest live identifier is to the maximum.
    lemma LargestBounds(max: int, c: TuioCursor)
      requires Valid() && c.cursorId == maxCursorId
      requires if cursorList == [] then max == -1 else max in Ids(cursorList)
      requires forall d :: d in cursorList ==> d.cursorId <= maxCursorId
      ensures max <= maxCursorId
      ensures maxCursorId >= 0 && maxCursorId !in Ids(Everyone()) ==> max < maxCursorId
    {
      hide Distinct, InRange;
      if cursorList != [] {
        LiveAmongAll(max);
        var i :| 0 <= i < |cursorList| && Ids(cursorList)[i] == max;
        assert cursorList[i] in cursorList;
      }
    }

    lemma LiveAmongAll(k: int)
      requires k in Ids(cursorList)
      ensures k in Ids(Everyone())
    {
      var i :| 0 <= i < |cursorList| && Ids(cursorList)[i] == k;
      assert Ids(Everyone())[i] == k;
    }

    // A free cursor shares its identifier with no live one.
    lemma NotBoth(c: TuioCursor)
      requires Valid() && c in freeCursorList
      ensures c.cursorId !in Ids(cursorList)
    {
      var j :| 0 <= j < |freeCursorList| && freeCursorList[j] == c;
      assert Everyone()[|cursorList| + j] == c && Ids(Everyone())[|cursorList| + j] == c.cursorId;
      forall i | 0 <= i < |cursorList|
        ensures Ids(cursorList)[i] != c.cursorId
      {
        assert Everyone()[i] == cursorList[i] && Ids(Everyone())[i] != Ids(Everyone())[|cursorList| + j];
      }
    }

    // Free cursors up to a live identifier, or to -1, are below it.
    lemma KeptBelow(max: int)
      requires Valid() && if cursorList == [] then max == -1 else max in Ids(cursorList)
      ensures forall c :: c in freeCursorList && c.cursorId <= max ==> c.cursorId < max
    {
      forall c | c in freeCursorList && c.cursorId <= max
        ensures c.cursorId < max
      {
        NotBoth(c);
        var j :| 0 <= j < |freeCursorList| && freeCursorList[j] == c;
        assert Ids(Everyone())[|cursorList| + j] == c.cursorId;
      }
    }

    lemma LiveInRange()
      requires Valid()
      ensures forall c :: c in cursorList ==> 0 <= c.cursorId <= maxCursorId
    {
      forall c | c in cursorList
        ensures 0 <= c.cursorId <= maxCursorId
      {
        var i :| 0 <= i < |cursorList| && cursorList[i] == c;
        assert Everyone()[i] == c && Ids(Everyone())[i] == c.cursorId;
      }
    }

    // ---- what keeping the lower free cursors leaves

    static lemma {:induction false} KeptMembers(free: seq<TuioCursor>, max: int)
      ensures forall c :: c in KeptUpTo(free, max) <==> c in free && c.cursorId <= max
    {
      if free != [] {
        var n := |free| - 1;
        assert free == free[..n] + [free[n]];
        KeptMembers(free[..n], max);
      }
    }

    static lemma {:induction false} KeptParts(live: seq<TuioCursor>, free: seq<TuioCursor>,
                                                kept: seq<TuioCursor>, max: int)
      requires Distinct(live + free) && Distinct(Ids(live + free)) && kept == KeptUpTo(free, max)
      ensures Distinct(live + kept) && Distinct(Ids(live + kept))
    {
      hide Distinct;
      if free != [] {
        var n := |free| - 1;
        var init, last, all := free[..n], free[n], live + free;
        assert all[..n + |live|] + all[n + |live| + 1..] == live + init;
        ErasedAt(all, live + init, n + |live|);
        var kept' := KeptUpTo(init, max);
        KeptParts(live, init, kept', max);
        assert kept == kept' + if last.cursorId <= max then [last] else [];
        if last.cursorId <= max {
          KeptAppended(live, init, last, kept', max);
          assert live + kept == live + kept' + [last];
        } else {
          assert kept == kept';
        }
      }
    }

    static lemma Shrunk(live: seq<TuioCursor>, free: seq<TuioCursor>, kept: seq<TuioCursor>, max: int, max': int)
      requires Distinct(live + free) && Distinct(Ids(live + free)) && InRange(Ids(live + free), max')
      requires kept == KeptUpTo(free, max)
      requires forall c :: c in live ==> c.cursorId <= max
      ensures Distinct(live + kept) && Distinct(Ids(live + kept)) && InRange(Ids(live + kept), max)
      ensures forall c :: c in live + free <==> c in live + kept || c in Above(free, max)
      ensures forall c :: c in live + kept ==> c !in Above(free, max)
      ensures forall k :: k in Ids(live + free) && k <= max ==> k in Ids(live + kept)
    {
      hide Distinct;
      KeptParts(live, free, kept, max);
      KeptMembers(free, max);
      KeptIds(live, free, max);
      AllInRange(live, kept, live + free, max);
    }

    static lemma KeptAppended(live: seq<TuioCursor>, init: seq<TuioCursor>, last: TuioCursor,
                              kept: seq<TuioCursor>, max: int)
      requires kept == KeptUpTo(init, max)
      requires last !in live + init && last.cursorId !in Ids(live + init)
      requires Distinct(live + kept) && Distinct(Ids(live + kept))
      ensures Distinct(live + kept + [last]) && Distinct(Ids(live + kept + [last]))
    {
      hide Distinct;
      KeptMembers(init, max);
      FreshAmong(live + kept, live + init, last);
      var before := live + kept;
      assert before[..|before|] + [last] + before[|before|..] == before + [last];
      InsertedAt(before, before + [last], |before|, last);
    }

    static lemma FreshAmong(part: seq<TuioCursor>, whole: seq<TuioCursor>, c: TuioCursor)
      requires forall d :: d in part ==> d in whole
      requires c.cursorId !in Ids(whole)
      ensures c.cursorId !in Ids(part)
    {
      forall i | 0 <= i < |part|
        ensures part[i].cursorId != c.cursorId
      {
        assert part[i] in whole;
        var j :| 0 <= j < |whole| && whole[j] == part[i];
        assert Ids(whole)[j] == part[i].cursorId;
      }
    }

    static lemma KeptIds(live: seq<TuioCursor>, free: seq<TuioCursor>, max: int)
      ensures forall k :: k in Ids(live + free) && k <= max ==> k in Ids(live + KeptUpTo(free, max))
    {
      KeptMembers(free, max);
      var kept := live + KeptUpTo(free, max);
      forall k | k in Ids(live + free) && k <= max
        ensures k in Ids(kept)
      {
        var i :| 0 <= i < |live + free| && Ids(live + free)[i] == k;
        assert (live + free)[i] in kept;
        var j :| 0 <= j < |kept| && kept[j] == (live + free)[i];
        assert Ids(kept)[j] == k;
      }
    }

    static lemma AllInRange(live: seq<TuioCursor>, free: seq<TuioCursor>, all: seq<TuioCursor>, max: int)
      requires forall c :: c in live || c in free ==> c.cursorId <= max && c in all
      requires forall k :: 0 <= k < |all| ==> 0 <= Ids(all)[k]
      ensures InRange(Ids(live + free), max)
    {
      forall i | 0 <= i < |live + free|
        ensures 0 <= Ids(live + free)[i] <= max
      {
        var c := (live + free)[i];
        assert c in live || c in free;
        var k :| 0 <= k < |all| && all[k] == c;
        assert Ids(all)[k] == c.cursorId;
      }
    }

    // Nobody has this cursor or its identifier.
    ghost predicate Unknown(c: TuioCursor)
      reads this, cursorList, freeCursorList, c
    {
      c !in Everyone() && c !in deleted && c.cursorId >= 0 && c.cursorId !in Ids(Everyone())
    }

    /**
     A cursor that is not listed is treated like a listed one. That keeps the identifiers valid exactly if it is
     not put among the free ones while somebody has it or its identifier.
     */
    method RemoveTuioCursor(c: TuioCursor)
      requires Valid() && c !in deleted
      modifies this`cursorList, this`freeCursorList, this`maxCursorId, this`deleted, c`body
      ensures Valid() <==> old(c in cursorList || c.cursorId >= maxCursorId || Unknown(c))
      ensures old(Dense() && c in cursorList) ==> Dense()
      ensures if c in old(cursorList) then Without(old(cursorList), cursorList, c) else cursorList == old(cursorList)
      ensures c.body == old(c.body).RemovedAt(currentFrameTime)
      ensures if c.cursorId < old(maxCursorId) then
                && freeCursorList == old(freeCursorList) + [c]
                && maxCursorId == old(maxCursorId) && deleted == old(deleted)
              else if c.cursorId == old(maxCursorId) then
                && freeCursorList == KeptUpTo(old(freeCursorList), maxCursorId)
                && (if cursorList == [] then maxCursorId == -1 else maxCursorId in Ids(cursorList))
                && deleted == old(deleted) + {c} + Above(old(freeCursorList), maxCursorId)
              else freeCursorList == old(freeCursorList) && maxCursorId == old(maxCursorId) && deleted == old(deleted)
    {
      hide Distinct, InRange, Ids, KeptUpTo, Above, Without, Container.RemovedAt;
      ghost var all, n := Ids(Everyone()), maxCursorId;
      if c in cursorList {
        Unlist(c);
      }
      ghost var ids, live := Ids(Everyone()), Ids(cursorList);
      c.body := c.body.RemovedAt(currentFrameTime);
      SameIds(Everyone(), ids);
      SameIds(cursorList, live);
      if c.cursorId == maxCursorId {
        Shrink(c);
        if old(Dense() && c in cursorList) {
          ShrunkRange(all, Ids(Everyone()), n, maxCursorId);
        }
      } else if c.cursorId < maxCursorId {
        Release(c);
      }
    }

    static lemma SameIds(cs: seq<TuioCursor>, ids: seq<int>)
      requires |ids| == |cs| && forall i :: 0 <= i < |cs| ==> ids[i] == cs[i].cursorId
      ensures Ids(cs) == ids
    {}

    // A cursor waits among the free ones: that is sound exactly for one that nobody has.
    method Release(c: TuioCursor)
      requires Valid() && c.cursorId < maxCursorId
      modifies this`freeCursorList
      ensures Valid() <==> old(Unknown(c))
      ensures freeCursorList == old(freeCursorList) + [c]
    {
      hide Distinct, InRange;
      ghost var before := Everyone();
      freeCursorList := freeCursorList + [c];
      assert Everyone() == before[..|before|] + [c] + before[|before|..];
      if old(Unknown(c)) {
        InsertedAt(before, Everyone(), |before|, c);
        RangeInserted(Ids(before), Ids(Everyone()), c.cursorId, maxCursorId);
      } else {
        if c !in deleted {
          LastClashes(before, c, maxCursorId);
        }
        assert Everyone() == before + [c] && c in Everyone();
      }
    }

    static lemma LastClashes(before: seq<TuioCursor>, c: TuioCursor, max: int)
      requires c in before || c.cursorId < 0 || c.cursorId in Ids(before)
      ensures !Distinct(before + [c]) || !Distinct(Ids(before + [c])) || !InRange(Ids(before + [c]), max)
    {
      var all, n := before + [c], |before|;
      assert all[n] == c && Ids(all)[n] == c.cursorId;
      if c in before {
        var i :| 0 <= i < n && before[i] == c;
        assert all[i] == all[n];
      } else if c.cursorId in Ids(before) {
        var i :| 0 <= i < n && Ids(before)[i] == c.cursorId;
        assert Ids(all)[i] == Ids(all)[n];
      }
    }

    /** The caller keeps the cursor, its identifier is not reused, and a cursor that is not listed changes nothing. */
    method RemoveExternalTuioCursor(c: TuioCursor)
      requires Valid()
      modifies this`cursorList
      ensures Valid()
      ensures if c in old(cursorList) then Without(old(cursorList), cursorList, c) else cursorList == old(cursorList)
      ensures old(Dense()) ==> (Dense() <==> c !in old(cursorList))
    {
      if c in cursorList {
        Unlist(c);
      }
    }
  }

  // The first of the nearest.
  ghost predicate Nearest(free: seq<TuioCursor>, i: nat, x: real, y: real)
    reads free`body
  {
    && i < |free|
    && (forall k :: 0 <= k < |free| ==> free[i].DistanceSquared(x, y) <= free[k].DistanceSquared(x, y))
    && (forall k :: 0 <= k < i ==> free[i].DistanceSquared(x, y) < free[k].DistanceSquared(x, y))
  }

  lemma DistanceSquaredIs(c: TuioCursor, x: real, y: real, sqrt: real -> real)
    requires IsRoot(sqrt)
    ensures Distance(c.body.at, x, y, sqrt) >= 0.0
    ensures c.DistanceSquared(x, y) == Distance(c.body.at, x, y, sqrt) * Distance(c.body.at, x, y, sqrt)
  {
    DistanceIsLength(c.body.at, x, y, sqrt);
    var dx, dy := x - c.body.at.x, y - c.body.at.y;
    assert (c.body.at.x - x) * (c.body.at.x - x) == dx * dx && (c.body.at.y - y) * (c.body.at.y - y) == dy * dy;
  }

  lemma SquaresOrder(a: real, b: real)
    requires a >= 0.0 && b >= 0.0
    ensures a < b <==> a * a < b * b
  {
    if a < b {
      Product(b - a, b + a, (b - a) * (b + a));
      assert (b - a) * (b + a) == b * b - a * a;
    } else {
      assert b * b <= a * b && a * b <= a * a;
    }
  }

  /** Comparing squares finds the same cursor as comparing the distances themselves. */
  lemma NearestByDistance(free: seq<TuioCursor>, i: nat, x: real, y: real, sqrt: real -> real)
    requires IsRoot(sqrt) && i < |free|
    ensures Nearest(free, i, x, y) <==>
            && (forall k :: 0 <= k < |free| ==>
                  Distance(free[i].body.at, x, y, sqrt) <= Distance(free[k].body.at, x, y, sqrt))
            && (forall k :: 0 <= k < i ==>
                  Distance(free[i].body.at, x, y, sqrt) < Distance(free[k].body.at, x, y, sqrt))
  {
    forall k | 0 <= k < |free|
      ensures var near, other := Distance(free[i].body.at, x, y, sqrt), Distance(free[k].body.at, x, y, sqrt);
              && (near < other <==> free[i].DistanceSquared(x, y) < free[k].DistanceSquared(x, y))
              && (near <= other <==> free[i].DistanceSquared(x, y) <= free[k].DistanceSquared(x, y))
    {
      var near, other := Distance(free[i].body.at, x, y, sqrt), Distance(free[k].body.at, x, y, sqrt);
      DistanceSquaredIs(free[i], x, y, sqrt);
      DistanceSquaredIs(free[k], x, y, sqrt);
      SquaresOrder(near, other);
      SquaresOrder(other, near);
    }
  }

  /** What a cursor at (x, y) is given, with this many live cursors, this maximum and these free ones before it. */
  ghost predicate Assigned(live: nat, max: int, free: seq<TuioCursor>, x: real, y: real,
                           id: int, max': int, free': seq<TuioCursor>)
    reads free
  {
    if live > max then id == live && max' == live && free' == free
    else if free == [] then id == max + 1 && max' == max + 1 && free' == []
    else
      && max' == max
      && exists i: nat :: Nearest(free, i, x, y) && id == free[i].cursorId && free' == free[..i] + free[i + 1..]
  }

  // `after` is `before` with its one occurrence of `c` taken out.
  ghost predicate Without(before: seq<TuioCursor>, after: seq<TuioCursor>, c: TuioCursor) {
    exists i :: 0 <= i < |before| && before[i] == c && after == before[..i] + before[i + 1..]
  }

  ghost function Above(cs: seq<TuioCursor>, max: int): set<TuioCursor>
    reads cs`cursorId
  {
    set c | c in cs && c.cursorId > max
  }

  // The free cursors whose identifiers do not exceed the maximum.
  function KeptUpTo(cs: seq<TuioCursor>, max: int): seq<TuioCursor>
    reads cs`cursorId
  {
    if cs == [] then []
    else KeptUpTo(cs[..|cs| - 1], max) + if cs[|cs| - 1].cursorId <= max then [cs[|cs| - 1]] else []
  }

  /** They are those at certain increasing places: the places of all that do not exceed it. */
  lemma {:induction false} KeptPlaces(cs: seq<TuioCursor>, max: int) returns (at: seq<nat>)
    ensures |at| == |KeptUpTo(cs, max)|
    ensures forall i, j :: 0 <= i < j < |at| ==> at[i] < at[j]
    ensures forall i :: 0 <= i < |at| ==> at[i] < |cs| && KeptUpTo(cs, max)[i] == cs[at[i]]
    ensures forall k :: 0 <= k < |cs| ==> (k in at <==> cs[k].cursorId <= max)
  {
    at := [];
    if cs != [] {
      var n := |cs| - 1;
      at := KeptPlaces(cs[..n], max);
      if cs[n].cursorId <= max {
        at := at + [n];
      }
    }
  }

  /**
   External removals do leave holes: two cursors are entered, the newer one is taken out by its owner, and its
   identifier is neither live nor free. The next cursor then takes the branch that invents an identifier.
   */
  method ExternalRemovalLosesDensity(x: real, y: real) returns (manager: TuioManager, last: TuioCursor)
    ensures fresh(manager) && manager.Valid() && !manager.Dense()
    ensures |manager.cursorList| == 2 && last in manager.cursorList && last.cursorId == 2
  {
    manager := new TuioManager(Time(0, 0));
    var first := manager.AddTuioCursor(x, y);
    var second := manager.AddTuioCursor(x, y);
    assert manager.cursorList == [first, second] && manager.maxCursorId == 1 && manager.freeCursorList == [];
    manager.RemoveExternalTuioCursor(second);
    last := manager.AddTuioCursor(x, y);
    assert last == manager.cursorList[|manager.cursorList| - 1];
  }
}
