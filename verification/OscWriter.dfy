/**
 The outbound packet stream: one fixed buffer in which arguments grow upwards, type tags grow downwards in
 reverse order from the end, and each open element's size slot holds the offset of the slot around it.
 Every operation is proved against `OscDocument`: it throws exactly as `Verdict` says, and otherwise leaves
 the buffer laid out as the document `Apply` gives.
 */
module OscWriter {
  import opened Bytes
  import opened Wrappers
  import opened OscFormat
  import opened OscDocument

  /** The buffer and the three cursors hold document d. */
  ghost predicate Laid(d: Doc, buf: seq<Byte>, capacity: nat, typeTags: nat, cursor: nat, argument: nat) {
    && capacity <= |buf|
    && capacity <= 0x7FFF_FFFF
    && Size(d) <= capacity
    && cursor == |Head(d)|
    && buf[..cursor] == Head(d)
    && (d.message.NoMessage? ==> argument == cursor + d.loose.bytes && typeTags == capacity - d.loose.tags)
    && (d.message.Open? ==>
          && argument == cursor + |Payloads(d.message.args)|
          && typeTags == capacity - |d.message.args|
          && buf[cursor..argument] == Payloads(d.message.args)
          && buf[typeTags..capacity] == Reverse(Tags(d.message.args)))
  }

  // ---- what each low-level write does to the layout

  // The buffer once an element has been opened at `at`, inside d.
  ghost function Opened(d: Doc, buf: seq<Byte>, at: nat): (r: seq<Byte>)
    requires at + SlotSize(d) <= |buf|
    ensures |r| == |buf|
  {
    Splice(buf, at, Link(d.roots, d.frames))
  }

  lemma OpenedBytes(d: Doc, buf: seq<Byte>, at: nat, b: seq<Byte>)
    requires at + SlotSize(d) + |b| <= |buf|
    requires buf[..at] == Closed(d.roots, d.frames)
    ensures var p := at + SlotSize(d);
            Splice(Opened(d, buf, at), p, b)[..p + |b|] == Closed(d.roots, d.frames) + Link(d.roots, d.frames) + b
  {
    SplicePrefix(buf, at, Link(d.roots, d.frames));
    SplicePrefix(Opened(d, buf, at), at + SlotSize(d), b);
  }

  lemma BundleLaid(d: Doc, buf: seq<Byte>, capacity: nat, typeTags: nat, cursor: nat, argument: nat, t: uint64)
    requires d.message.NoMessage? && Laid(d, buf, capacity, typeTags, cursor, argument)
    requires Size(d) + SlotSize(d) + 16 <= capacity
    ensures var p := cursor + SlotSize(d);
            Laid(Apply(d, BeginBundle(t)), Splice(Opened(d, buf, cursor), p, BundleHead(t)),
                 capacity, typeTags, p + 16, p + 16)
    ensures OpenSlot(Apply(d, BeginBundle(t))) == Some(if d.frames == [] then 0 else cursor)
  {
    BeginBundleSize(d, t);
    OpenedBytes(d, buf, cursor, BundleHead(t));
    assert Apply(d, BeginBundle(t)).frames[..|d.frames|] == d.frames;
    assert EncodeSized([]) == [];
  }

  lemma MessageLaid(d: Doc, buf: seq<Byte>, capacity: nat, typeTags: nat, cursor: nat, argument: nat, address: CString)
    requires d.message.NoMessage? && Laid(d, buf, capacity, typeTags, cursor, argument)
    requires Size(d) + SlotSize(d) + |Str4(address)| + 4 <= capacity
    ensures var p := cursor + SlotSize(d); var after := p + |Str4(address)|;
            Laid(Apply(d, BeginMessage(address)), Splice(Opened(d, buf, cursor), p, Str4(address)),
                 capacity, capacity, after, after)
    ensures OpenSlot(Apply(d, BeginMessage(address))) == Some(if d.frames == [] then 0 else cursor)
  {
    var p := cursor + SlotSize(d);
    OpenedBytes(d, buf, cursor, Str4(address));
    Assoc(Closed(d.roots, d.frames), Link(d.roots, d.frames), Str4(address));
  }

  // While element e stands behind its unfilled slot, that slot leads back to the one around it.
  lemma SlotHoldsLink(buf: seq<Byte>, endPtr: nat, outer: Doc, e: Element)
    requires outer.message.NoMessage? && outer.frames != []
    requires endPtr <= |buf| && endPtr <= 0x7FFF_FFFF
    requires buf[..endPtr] == Closed(outer.roots, outer.frames) + Link(outer.roots, outer.frames) + Encode(e)
    ensures Some(HostUInt32(buf, |Closed(outer.roots, outer.frames)|)) == OpenSlot(Add(outer, e))
  {
    hide Closed, Encode, HostUInt32, Slot, Splice, LE32;
    SlotBefore(outer, e);
    ReadLink(buf, endPtr, Closed(outer.roots, outer.frames), Slot(outer.roots, outer.frames), Encode(e));
  }

  // Filling the slot turns the bytes into those of the document with e in it.
  lemma FilledSlot(buf: seq<Byte>, endPtr: nat, outer: Doc, e: Element)
    requires outer.message.NoMessage? && outer.frames != []
    requires endPtr <= |buf| && endPtr <= 0x7FFF_FFFF
    requires buf[..endPtr] == Closed(outer.roots, outer.frames) + Link(outer.roots, outer.frames) + Encode(e)
    ensures var slot := |Closed(outer.roots, outer.frames)|;
            Splice(buf, slot, BE32(Low32(endPtr - slot - 4)))[..endPtr] ==
            Closed(Add(outer, e).roots, Add(outer, e).frames)
  {
    var before, link, b := Closed(outer.roots, outer.frames), Link(outer.roots, outer.frames), Encode(e);
    AddBytes(outer, e);
    assert endPtr - |before| - 4 == |b|;
    Refill(buf, endPtr, before, link, b, BE32(Low32(|b|)));
  }

  // Closing an element inside bundles moves no slot of those bundles.
  lemma SlotBefore(outer: Doc, e: Element)
    requires outer.frames != []
    requires outer.message.NoMessage?
    ensures OpenSlot(Add(outer, e)) == Some(Slot(outer.roots, outer.frames))
    ensures Slot(outer.roots, outer.frames) <= |Closed(outer.roots, outer.frames)|
  {
    var n := |outer.frames| - 1;
    assert Add(outer, e).frames[..n] == outer.frames[..n];
  }

  // The buffer once the element whose slot is at `slot` has been closed.
  ghost function Filled(buf: seq<Byte>, slot: nat, endPtr: nat): (r: seq<Byte>)
    requires slot != 0 ==> slot + 4 <= endPtr <= |buf|
    ensures |r| == |buf|
  {
    if slot == 0 then buf else Splice(buf, slot, BE32(Low32(endPtr - slot - 4)))
  }

  /** What closing e leaves, in terms of the document around it. */
  lemma ElementClosed(buf: seq<Byte>, capacity: nat, typeTags: nat, endPtr: nat, argument: nat, outer: Doc, e: Element)
    requires outer.message.NoMessage?
    requires argument == endPtr + outer.loose.bytes && typeTags == capacity - outer.loose.tags
    requires argument <= capacity <= |buf| && capacity <= 0x7FFF_FFFF
    requires buf[..endPtr] == Closed(outer.roots, outer.frames) + Link(outer.roots, outer.frames) + Encode(e)
    ensures var c, slot := Add(outer, e), if outer.frames == [] then 0 else |Closed(outer.roots, outer.frames)|;
            && (slot != 0 ==> slot + 4 <= endPtr)
            && OpenSlot(c) == (if slot == 0 then None else Some(HostUInt32(buf, slot)))
            && Laid(c, Filled(buf, slot, endPtr), capacity, typeTags, endPtr, argument)
  {
    hide Closed, Encode, HostUInt32, Slot, Splice, LE32, BE32;
    AddBytes(outer, e);
    AddSize(outer, e);
    if outer.frames != [] {
      SlotHoldsLink(buf, endPtr, outer, e);
      FilledSlot(buf, endPtr, outer, e);
    }
  }

  // The buffer with the arguments moved up, the stored tags put before them in reverse, and the gap zeroed.
  ghost function Tagged(buf: seq<Byte>, at: nat, payloads: seq<Byte>, stored: seq<Byte>): (r: seq<Byte>)
    requires at + RoundUp4(|stored| + 2) + |payloads| <= |buf|
    ensures |r| == |buf|
  {
    var n, slot := |stored|, RoundUp4(|stored| + 2);
    var moved := Splice(buf, at + slot, payloads);
    var tagged := Splice(moved, at, [COMMA] + Reverse(stored));
    Splice(tagged, at + n + 1, Zeros(slot - (n + 1)))
  }

  // Without tags nothing has to move: an argument always has a tag.
  lemma NoTags(buf: seq<Byte>, at: nat, payloads: seq<Byte>)
    requires payloads == [] && at + 4 <= |buf|
    ensures Tagged(buf, at, payloads, []) == Splice(buf, at, [COMMA, 0, 0, 0])
  {
    assert Reverse<Byte>([]) == [];
    assert Splice(buf, at + 4, payloads) == buf;
  }

  lemma ThreeParts(buf: seq<Byte>, at: nat, p: nat, q: nat, a: seq<Byte>, b: seq<Byte>, c: seq<Byte>)
    requires p == at + |a| && q == p + |b| && q + |c| <= |buf|
    ensures Splice(Splice(Splice(buf, q, c), at, a), p, b)[..q + |c|] == buf[..at] + (a + b) + c
  {}

  lemma StringParts(tags: seq<Byte>, n: nat)
    requires n == |tags|
    ensures Str4([COMMA] + tags) == [COMMA] + tags + Zeros(RoundUp4(n + 2) - (n + 1))
  {}

  lemma TaggedBytes(buf: seq<Byte>, at: nat, stored: seq<Byte>, payloads: seq<Byte>)
    requires at + RoundUp4(|stored| + 2) + |payloads| <= |buf|
    ensures Tagged(buf, at, payloads, stored)[..at + RoundUp4(|stored| + 2) + |payloads|] ==
            buf[..at] + Str4([COMMA] + Reverse(stored)) + payloads
  {
    var n, slot := |stored|, RoundUp4(|stored| + 2);
    StringParts(Reverse(stored), n);
    ThreeParts(buf, at, at + n + 1, at + slot, [COMMA] + Reverse(stored), Zeros(slot - (n + 1)), payloads);
  }

  lemma MessageBytes(d: Doc)
    requires d.message.Open?
    ensures Head(d) + TagString(d.message.args) + Payloads(d.message.args) ==
            Closed(d.roots, d.frames) + Link(d.roots, d.frames)
            + Encode(Element.Message(d.message.address, d.message.args))
  {
    var a, l, s := Closed(d.roots, d.frames), Link(d.roots, d.frames), Str4(d.message.address);
    var t, p := TagString(d.message.args), Payloads(d.message.args);
    assert a + (l + s) + t + p == a + l + (s + t + p);
  }

  lemma MessageTagged(d: Doc, buf: seq<Byte>, capacity: nat, typeTags: nat, cursor: nat, argument: nat)
    requires d.message.Open? && Laid(d, buf, capacity, typeTags, cursor, argument)
    ensures var after := argument + RoundUp4(capacity - typeTags + 2);
            after == Size(d) &&
            Tagged(buf, cursor, buf[cursor..argument], buf[typeTags..capacity])[..after] ==
            Closed(d.roots, d.frames) + Link(d.roots, d.frames)
            + Encode(Element.Message(d.message.address, d.message.args))
  {
    var stored, payloads := buf[typeTags..capacity], buf[cursor..argument];
    var after := argument + RoundUp4(capacity - typeTags + 2);
    assert |stored| == capacity - typeTags;
    assert after == cursor + RoundUp4(|stored| + 2) + |payloads|;
    TaggedBytes(buf, cursor, stored, payloads);
    ReverseTwice(Tags(d.message.args));
    MessageBytes(d);
  }

  lemma ReverseTwice<T>(s: seq<T>)
    ensures Reverse(Reverse(s)) == s
  {}

  /** The whole of closing a message: tags spliced in, then its slot filled. */
  lemma MessageClosed(d: Doc, buf: seq<Byte>, capacity: nat, typeTags: nat, cursor: nat, argument: nat)
    requires d.message.Open? && Laid(d, buf, capacity, typeTags, cursor, argument)
    ensures var after := argument + RoundUp4(capacity - typeTags + 2);
            var tagged := Tagged(buf, cursor, buf[cursor..argument], buf[typeTags..capacity]);
            var c, slot := Apply(d, EndMessage), OpenSlot(d).value;
            && (slot != 0 ==> slot + 4 <= after)
            && OpenSlot(c) == (if slot == 0 then None else Some(HostUInt32(tagged, slot)))
            && Laid(c, Filled(tagged, slot, after), capacity, capacity, after, after)
  {
    hide Encode, Tagged, Filled, Head, Closed, Link, Splice, HostUInt32, Tags, Payloads, Size;
    MessageTagged(d, buf, capacity, typeTags, cursor, argument);
    var after := argument + RoundUp4(capacity - typeTags + 2);
    var tagged := Tagged(buf, cursor, buf[cursor..argument], buf[typeTags..capacity]);
    ElementClosed(tagged, capacity, capacity, after, after, d.(message := NoMessage, loose := NONE),
                  Element.Message(d.message.address, d.message.args));
  }

  lemma BundleClosed(d: Doc, buf: seq<Byte>, capacity: nat, typeTags: nat, cursor: nat, argument: nat)
    requires d.message.NoMessage? && d.frames != [] && Laid(d, buf, capacity, typeTags, cursor, argument)
    ensures var c, slot := Apply(d, EndBundle), OpenSlot(d).value;
            && (slot != 0 ==> slot + 4 <= cursor)
            && OpenSlot(c) == (if slot == 0 then None else Some(HostUInt32(buf, slot)))
            && Laid(c, Filled(buf, slot, cursor), capacity, typeTags, cursor, argument)
  {
    var n := |d.frames| - 1;
    EndBundleBytes(d);
    ElementClosed(buf, capacity, typeTags, cursor, argument, d.(frames := d.frames[..n]),
                  Element.Bundle(d.frames[n].timeTag, d.frames[n].elements));
  }

  lemma NoPayloads(args: seq<Arg>)
    ensures args == [] ==> Payloads(args) == []
  {}

  // A tag below the stored ones and a payload above the arguments leave everything else alone.
  lemma TagAndPayload(buf: seq<Byte>, cursor: nat, argument: nat, typeTags: nat, capacity: nat,
                      tag: Byte, payload: seq<Byte>)
    requires cursor <= argument && argument + |payload| + 1 <= typeTags <= capacity <= |buf|
    ensures var r := Splice(Splice(buf, typeTags - 1, [tag]), argument, payload);
            && r[..cursor] == buf[..cursor]
            && r[cursor..argument + |payload|] == buf[cursor..argument] + payload
            && r[typeTags - 1..capacity] == [tag] + buf[typeTags..capacity]
  {
    var r := Splice(Splice(buf, typeTags - 1, [tag]), argument, payload);
    assert r[cursor..argument] == buf[cursor..argument];
    assert r[argument..argument + |payload|] == payload;
  }

  lemma ReverseTagsAppend(args: seq<Arg>, a: Arg)
    ensures Reverse(Tags(args + [a])) == [a.Tag()] + Reverse(Tags(args))
  {}

  lemma ArgumentLaid(d: Doc, buf: seq<Byte>, capacity: nat, typeTags: nat, cursor: nat, argument: nat, a: Arg)
    requires Laid(d, buf, capacity, typeTags, cursor, argument) && Needed(d, Append(a)) <= capacity
    ensures argument + |a.Payload()| + 1 <= typeTags
    ensures Laid(Apply(d, Append(a)), Splice(Splice(buf, typeTags - 1, [a.Tag()]), argument, a.Payload()),
                 capacity, typeTags - 1, cursor, argument + |a.Payload()|)
    ensures OpenSlot(Apply(d, Append(a))) == OpenSlot(d)
  {
    NeededIsSize(d, Append(a));
    TagAndPayload(buf, cursor, argument, typeTags, capacity, a.Tag(), a.Payload());
    if d.message.Open? {
      PayloadsAppend(d.message.args, a);
      ReverseTagsAppend(d.message.args, a);
    }
  }

  class OutboundPacketStream {
    const data: array<Byte>
    const capacity: nat  // end_ - data_; the buffer may be longer
    var typeTagsCurrent: nat
    var messageCursor: nat
    var argumentCurrent: nat
    var elementSizePtr: Option<nat>
    var messageIsInProgress: bool
    ghost var doc: Doc

    ghost predicate Valid()
      reads this, data
    {
      && Laid(doc, data[..], capacity, typeTagsCurrent, messageCursor, argumentCurrent)
      && elementSizePtr == OpenSlot(doc)
      && messageIsInProgress == doc.message.Open?
    }

    constructor (buffer: array<Byte>, capacity: nat)
      requires capacity <= buffer.Length && capacity <= 0x7FFF_FFFF
      ensures Valid() && doc == EMPTY && data == buffer && this.capacity == capacity
    {
      data := buffer;
      this.capacity := capacity;
      typeTagsCurrent := capacity;
      messageCursor, argumentCurrent := 0, 0;
      elementSizePtr := None;
      messageIsInProgress := false;
      doc := EMPTY;
    }

    method Clear()
      requires Valid()
      modifies this
      ensures Valid() && doc == EMPTY
    {
      typeTagsCurrent := capacity;
      messageCursor, argumentCurrent := 0, 0;
      elementSizePtr := None;
      messageIsInProgress := false;
      doc := EMPTY;
    }

    /** Valid even while a message is being built; arguments and stored tags never overlap. */
    function Size(): (n: nat)
      requires Valid()
      reads this, data
      ensures n == OscDocument.Size(doc) <= capacity
      ensures doc.message.Open? ==> argumentCurrent <= typeTagsCurrent <= capacity
    {
      argumentCurrent + if messageIsInProgress then RoundUp4(capacity - typeTagsCurrent + 2) else 0
    }

    predicate IsReady()
      requires Valid()
      reads this, data
      ensures IsReady() <==> doc.frames == [] && doc.message.NoMessage?
    {
      !messageIsInProgress && elementSizePtr == None
    }

    /**
     The packet a sender transmits once everything is closed: the encoding of what was written, followed by the
     bytes of arguments streamed outside a message since.
     */
    function Packet(): (p: seq<Byte>)
      requires Valid() && IsReady()
      reads this, data
      ensures EncodeAll(doc.roots) <= p && |p| == |EncodeAll(doc.roots)| + doc.loose.bytes <= capacity
      ensures doc.loose.bytes == 0 ==> p == EncodeAll(doc.roots)
    {
      data[..Size()]
    }

    // ---- writing into the buffer

    method Put(at: nat, b: seq<Byte>)
      requires at + |b| <= data.Length
      modifies data
      ensures data[..] == Splice(old(data[..]), at, b)
    {
      forall i | 0 <= i < |b| {
        data[at + i] := b[i];
      }
    }

    /** Zero-pads to a four-byte boundary; i counts what has been written. */
    method Pad(at: nat, count: nat) returns (after: nat)
      requires at + RoundUp4(count) - count <= data.Length
      modifies data
      ensures after == at + RoundUp4(count) - count
      ensures data[..] == Splice(old(data[..]), at, Zeros(RoundUp4(count) - count))
    {
      after := at;
      var i := count;
      while i % 4 != 0
        invariant count <= i <= RoundUp4(count)
        invariant after == at + i - count
        invariant data[..] == Splice(old(data[..]), at, Zeros(i - count))
        decreases RoundUp4(count) - i
      {
        data[after] := 0;
        after, i := after + 1, i + 1;
      }
    }

    method PutZeroPadded(at: nat, s: CString) returns (after: nat)
      requires at + |Str4(s)| <= data.Length
      modifies data
      ensures after == at + |Str4(s)|
      ensures data[..] == Splice(old(data[..]), at, Str4(s))
    {
      hide Splice;
      SpliceTwice(data[..], at, s + [0], Zeros(RoundUp4(|s| + 1) - (|s| + 1)));
      Put(at, s + [0]);
      after := Pad(at + |s| + 1, |s| + 1);
      assert s + [0] + Zeros(RoundUp4(|s| + 1) - (|s| + 1)) == Str4(s);
    }

    method PutBlob(at: nat, b: seq<Byte>) returns (after: nat)
      requires at + |Blob(b).Payload()| <= data.Length
      modifies data
      ensures after == at + |Blob(b).Payload()|
      ensures data[..] == Splice(old(data[..]), at, Blob(b).Payload())
    {
      hide Splice, BE32, Low32, RoundUp4;
      ghost var buf := data[..];
      var size := BE32(Low32(|b|));
      Put(at, size);
      Put(at + 4, b);
      after := Pad(at + 4 + |b|, |b|);
      SpliceTwice(buf, at, size, b);
      SpliceTwice(buf, at, size + b, Zeros(RoundUp4(|b|) - |b|));
    }

    method MoveUp(at: nat, shift: nat, n: nat)
      requires at + shift + n <= data.Length
      modifies data
      ensures data[..] == Splice(old(data[..]), at + shift, old(data[at..at + n]))
    {
      forall i | 0 <= i < n {
        data[at + shift + i] := data[at + i];
      }
    }

    /** Copies the stored tags out in reverse, which is forwards, order after a comma. */
    method PutTypeTags(at: nat, stored: seq<Byte>)
      requires at + 1 + |stored| <= data.Length
      modifies data
      ensures data[..] == Splice(old(data[..]), at, [COMMA] + Reverse(stored))
    {
      data[at] := COMMA;
      var i := 0;
      while i < |stored|
        invariant 0 <= i <= |stored|
        invariant data[..] == Splice(old(data[..]), at, [COMMA] + Reverse(stored)[..i])
      {
        data[at + i + 1] := stored[|stored| - 1 - i];
        i := i + 1;
      }
      assert Reverse(stored)[..i] == Reverse(stored);
    }

    method PutZeros(at: nat, n: nat)
      requires at + n <= data.Length
      modifies data
      ensures data[..] == Splice(old(data[..]), at, Zeros(n))
    {
      var p, i := at, 0;
      while i < n
        invariant 0 <= i <= n && p == at + i
        invariant data[..] == Splice(old(data[..]), at, Zeros(i))
      {
        data[p] := 0;
        p, i := p + 1, i + 1;
      }
    }

    // ---- size slots

    /** Opens an element: outside everything it has no slot, otherwise its slot keeps the way back. */
    method BeginElement(beginPtr: nat) returns (p: nat)
      requires Valid() && doc.message.NoMessage?
      requires beginPtr + SlotSize(doc) <= data.Length
      modifies this`elementSizePtr, data
      ensures elementSizePtr == Some(if doc.frames == [] then 0 else beginPtr)
      ensures p == beginPtr + SlotSize(doc)
      ensures data[..] == Opened(doc, old(data[..]), beginPtr)
    {
      match elementSizePtr {
        case None =>
          elementSizePtr := Some(0);
          p := beginPtr;
        case Some(slot) =>
          Put(beginPtr, LE32(Low32(slot)));
          elementSizePtr := Some(beginPtr);
          p := beginPtr + 4;
      }
    }

    /** Closes the innermost open element at endPtr: fills its slot and follows the link the slot held. */
    method EndElement(endPtr: nat)
      requires elementSizePtr.Some?
      requires elementSizePtr.value != 0 ==> elementSizePtr.value + 4 <= endPtr <= data.Length
      modifies this`elementSizePtr, data
      ensures var slot := old(elementSizePtr.value);
              && elementSizePtr == (if slot == 0 then None else Some(HostUInt32(old(data[..]), slot)))
              && data[..] == Filled(old(data[..]), slot, endPtr)
    {
      hide HostUInt32, BE32, Splice;
      var slot := elementSizePtr.value;
      if slot == 0 {
        elementSizePtr := None;
      } else {
        var previousElementSizePtr := HostUInt32(data[..], slot);
        Put(slot, BE32(Low32(endPtr - slot - 4)));
        elementSizePtr := Some(previousElementSizePtr);
      }
    }

    // ---- space checks

    method CheckForAvailableBundleSpace(ghost t: uint64) returns (fits: bool)
      requires Valid() && doc.message.NoMessage?
      ensures fits == (Needed(doc, Op.BeginBundle(t)) <= capacity)
    {
      var required := Size() + (if elementSizePtr != None then 4 else 0) + 16;
      return required <= capacity;
    }

    method CheckForAvailableMessageSpace(addressPattern: CString) returns (fits: bool)
      requires Valid() && doc.message.NoMessage?
      ensures fits == (Needed(doc, Op.BeginMessage(addressPattern)) <= capacity)
    {
      var required := Size() + (if elementSizePtr != None then 4 else 0) + RoundUp4(|addressPattern| + 1) + 4;
      return required <= capacity;
    }

    method CheckForAvailableArgumentSpace(argumentLength: nat, ghost a: Arg) returns (fits: bool)
      requires Valid() && |a.Payload()| == argumentLength
      ensures fits == (Needed(doc, Op.Append(a)) <= capacity)
      ensures doc.message.Open? ==> fits == (OscDocument.Size(Apply(doc, Op.Append(a))) <= capacity)
    {
      var required := argumentCurrent + argumentLength + RoundUp4(capacity - typeTagsCurrent + 3);
      NeededIsSize(doc, Op.Append(a));
      return required <= capacity;
    }

    // ---- bundles and messages

    method BeginBundle(timeTag: uint64) returns (st: Status)
      requires Valid()
      modifies this, data
      ensures Valid()
      ensures st == Verdict(old(doc), capacity, Op.BeginBundle(timeTag))
      ensures st == MessageInProgress <==> old(doc.message.Open?)
      ensures st == Done ==> doc == Apply(old(doc), Op.BeginBundle(timeTag))
      ensures st != Done ==> unchanged(this) && unchanged(data)
    {
      hide Closed, EncodeAll, Encode, HostUInt32, Slot, Splice, LE32, BE64, EncodeSized;
      if messageIsInProgress { return MessageInProgress; }
      var fits := CheckForAvailableBundleSpace(timeTag);
      if !fits { return OutOfBufferMemory; }
      BundleLaid(doc, data[..], capacity, typeTagsCurrent, messageCursor, argumentCurrent, timeTag);
      messageCursor := BeginElement(messageCursor);
      Put(messageCursor, BundleHead(timeTag));
      messageCursor := messageCursor + 16;
      argumentCurrent := messageCursor;
      doc := Apply(doc, Op.BeginBundle(timeTag));
      return Done;
    }

    method EndBundle() returns (st: Status)
      requires Valid()
      modifies this, data
      ensures Valid()
      ensures st == Verdict(old(doc), capacity, Op.EndBundle)
      ensures st == MessageInProgress <==> old(doc.message.Open?)
      ensures st == BundleNotInProgress <==> old(doc.message.NoMessage? && doc.frames == [])
      ensures st == Done ==> doc == Apply(old(doc), Op.EndBundle) && Size() == old(Size())
      ensures st != Done ==> unchanged(this) && unchanged(data)
    {
      if elementSizePtr == None { return BundleNotInProgress; }
      if messageIsInProgress { return MessageInProgress; }
      EndKeepsSize(doc, Op.EndBundle);
      BundleClosed(doc, data[..], capacity, typeTagsCurrent, messageCursor, argumentCurrent);
      EndElement(messageCursor);
      doc := Apply(doc, Op.EndBundle);
      return Done;
    }

    method BeginMessage(addressPattern: CString) returns (st: Status)
      requires Valid()
      modifies this, data
      ensures Valid()
      ensures st == Verdict(old(doc), capacity, Op.BeginMessage(addressPattern))
      ensures st == MessageInProgress <==> old(doc.message.Open?)
      ensures st == Done ==> doc == Apply(old(doc), Op.BeginMessage(addressPattern))
      ensures st != Done ==> unchanged(this) && unchanged(data)
    {
      hide Closed, EncodeAll, Encode, HostUInt32, Slot, Splice, LE32, BE64, EncodeSized,
           Opened, Link, Payloads, Reverse, Tags, Head;
      if messageIsInProgress { return MessageInProgress; }
      var fits := CheckForAvailableMessageSpace(addressPattern);
      if !fits { return OutOfBufferMemory; }
      MessageLaid(doc, data[..], capacity, typeTagsCurrent, messageCursor, argumentCurrent, addressPattern);
      messageCursor := BeginElement(messageCursor);
      messageCursor := PutZeroPadded(messageCursor, addressPattern);
      argumentCurrent := messageCursor;
      typeTagsCurrent := capacity;
      messageIsInProgress := true;
      doc := Apply(doc, Op.BeginMessage(addressPattern));
      return Done;
    }

    /** Moves the arguments up by the size of the tag string and puts that string before them. */
    method SpliceTypeTags() returns (after: nat)
      requires messageCursor <= argumentCurrent <= typeTagsCurrent <= capacity <= data.Length
      requires argumentCurrent + RoundUp4(capacity - typeTagsCurrent + 2) <= capacity
      requires typeTagsCurrent == capacity ==> argumentCurrent == messageCursor
      modifies data
      ensures after == argumentCurrent + RoundUp4(capacity - typeTagsCurrent + 2)
      ensures data[..] == Tagged(old(data[..]), messageCursor, old(data[..][messageCursor..argumentCurrent]),
                                 old(data[..][typeTagsCurrent..capacity]))
    {
      hide Splice, Reverse;
      var typeTagsCount := capacity - typeTagsCurrent;
      ghost var buf := data[..];
      assert data[messageCursor..argumentCurrent] == buf[messageCursor..argumentCurrent];
      assert data[typeTagsCurrent..capacity] == buf[typeTagsCurrent..capacity];
      if typeTagsCount != 0 {
        var tempTypeTags := data[typeTagsCurrent..capacity];
        var typeTagSlotSize := RoundUp4(typeTagsCount + 2);
        var argumentsSize := argumentCurrent - messageCursor;
        MoveUp(messageCursor, typeTagSlotSize, argumentsSize);
        PutTypeTags(messageCursor, tempTypeTags);
        PutZeros(messageCursor + typeTagsCount + 1, typeTagSlotSize - (typeTagsCount + 1));
        after := messageCursor + typeTagSlotSize + argumentsSize;
      } else {
        NoTags(buf, messageCursor, buf[messageCursor..argumentCurrent]);
        Put(messageCursor, [COMMA, 0, 0, 0]);
        after := messageCursor + 4;
      }
    }

    method EndMessage() returns (st: Status)
      requires Valid()
      modifies this, data
      ensures Valid()
      ensures st == Verdict(old(doc), capacity, Op.EndMessage)
      ensures st == MessageNotInProgress <==> old(doc.message.NoMessage?)
      ensures st == Done ==> doc == Apply(old(doc), Op.EndMessage) && Size() == old(Size())
      ensures st != Done ==> unchanged(this) && unchanged(data)
    {
      hide Closed, Encode, HostUInt32, Slot, Splice, Tagged, Filled, Tags, Link, Add, Head, Reverse, Payloads;
      if !messageIsInProgress { return MessageNotInProgress; }
      EndKeepsSize(doc, Op.EndMessage);
      NoPayloads(doc.message.args);
      MessageClosed(doc, data[..], capacity, typeTagsCurrent, messageCursor, argumentCurrent);
      messageCursor := SpliceTypeTags();
      typeTagsCurrent := capacity;
      argumentCurrent := messageCursor;
      EndElement(messageCursor);
      messageIsInProgress := false;
      doc := Apply(doc, Op.EndMessage);
      return Done;
    }

    // ---- arguments: one method per payload shape, the tag picks the overload

    // Every overload first makes room, then stores its tag below the others, then its payload.
    method PushTypeTag(tag: Byte)
      requires 0 < typeTagsCurrent <= data.Length
      modifies this`typeTagsCurrent, data
      ensures typeTagsCurrent == old(typeTagsCurrent) - 1
      ensures data[..] == Splice(old(data[..]), typeTagsCurrent, [tag])
    {
      typeTagsCurrent := typeTagsCurrent - 1;
      data[typeTagsCurrent] := tag;
    }

    method AppendFlag(tag: FlagTag) returns (st: Status)
      requires Valid()
      modifies this, data
      ensures Valid()
      ensures st == Verdict(old(doc), capacity, Op.Append(Flag(tag)))
      ensures st == Done ==> doc == Apply(old(doc), Op.Append(Flag(tag)))
      ensures st != Done ==> unchanged(this) && unchanged(data)
    {
      hide Splice, Closed, Link, Head, Payloads, Tags, Reverse, OpenSlot, Slot;
      var fits := CheckForAvailableArgumentSpace(0, Flag(tag));
      if !fits { return OutOfBufferMemory; }
      ArgumentLaid(doc, data[..], capacity, typeTagsCurrent, messageCursor, argumentCurrent, Flag(tag));
      PushTypeTag(tag);
      SpliceNothing(data[..], argumentCurrent);
      doc := Apply(doc, Op.Append(Flag(tag)));
      return Done;
    }

    method AppendWord(tag: WordTag, v: uint32) returns (st: Status)
      requires Valid()
      modifies this, data
      ensures Valid()
      ensures st == Verdict(old(doc), capacity, Op.Append(Word(tag, v)))
      ensures st == Done ==> doc == Apply(old(doc), Op.Append(Word(tag, v)))
      ensures st != Done ==> unchanged(this) && unchanged(data)
    {
      hide Splice, Closed, Link, Head, Payloads, Tags, Reverse, OpenSlot, Slot, BE32;
      var fits := CheckForAvailableArgumentSpace(4, Word(tag, v));
      if !fits { return OutOfBufferMemory; }
      ArgumentLaid(doc, data[..], capacity, typeTagsCurrent, messageCursor, argumentCurrent, Word(tag, v));
      PushTypeTag(tag);
      Put(argumentCurrent, BE32(v));
      argumentCurrent := argumentCurrent + 4;
      doc := Apply(doc, Op.Append(Word(tag, v)));
      return Done;
    }

    method AppendLong(tag: LongTag, v: uint64) returns (st: Status)
      requires Valid()
      modifies this, data
      ensures Valid()
      ensures st == Verdict(old(doc), capacity, Op.Append(Long(tag, v)))
      ensures st == Done ==> doc == Apply(old(doc), Op.Append(Long(tag, v)))
      ensures st != Done ==> unchanged(this) && unchanged(data)
    {
      hide Splice, Closed, Link, Head, Payloads, Tags, Reverse, OpenSlot, Slot, BE64;
      var fits := CheckForAvailableArgumentSpace(8, Long(tag, v));
      if !fits { return OutOfBufferMemory; }
      ArgumentLaid(doc, data[..], capacity, typeTagsCurrent, messageCursor, argumentCurrent, Long(tag, v));
      PushTypeTag(tag);
      Put(argumentCurrent, BE64(v));
      argumentCurrent := argumentCurrent + 8;
      doc := Apply(doc, Op.Append(Long(tag, v)));
      return Done;
    }

    method AppendText(tag: TextTag, s: CString) returns (st: Status)
      requires Valid()
      modifies this, data
      ensures Valid()
      ensures st == Verdict(old(doc), capacity, Op.Append(Text(tag, s)))
      ensures st == Done ==> doc == Apply(old(doc), Op.Append(Text(tag, s)))
      ensures st != Done ==> unchanged(this) && unchanged(data)
    {
      hide Splice, Closed, Link, Head, Payloads, Tags, Reverse, OpenSlot, Slot, Str4;
      var fits := CheckForAvailableArgumentSpace(RoundUp4(|s| + 1), Text(tag, s));
      if !fits { return OutOfBufferMemory; }
      ArgumentLaid(doc, data[..], capacity, typeTagsCurrent, messageCursor, argumentCurrent, Text(tag, s));
      PushTypeTag(tag);
      argumentCurrent := PutZeroPadded(argumentCurrent, s);
      doc := Apply(doc, Op.Append(Text(tag, s)));
      return Done;
    }

    method AppendBlob(b: seq<Byte>) returns (st: Status)
      requires Valid()
      modifies this, data
      ensures Valid()
      ensures st == Verdict(old(doc), capacity, Op.Append(Blob(b)))
      ensures st == Done ==> doc == Apply(old(doc), Op.Append(Blob(b)))
      ensures st != Done ==> unchanged(this) && unchanged(data)
    {
      hide Splice, Closed, Link, Head, Payloads, Tags, Reverse, OpenSlot, Slot, BE32, RoundUp4, Low32;
      var fits := CheckForAvailableArgumentSpace(4 + RoundUp4(|b|), Blob(b));
      if !fits { return OutOfBufferMemory; }
      ArgumentLaid(doc, data[..], capacity, typeTagsCurrent, messageCursor, argumentCurrent, Blob(b));
      PushTypeTag(BLOB_TAG);
      argumentCurrent := PutBlob(argumentCurrent, b);
      doc := Apply(doc, Op.Append(Blob(b)));
      return Done;
    }

    // ---- driving the stream

    method Append(a: Arg) returns (st: Status)
      requires Valid()
      modifies this, data
      ensures Valid()
      ensures st == Verdict(old(doc), capacity, Op.Append(a))
      ensures st == Done ==> doc == Apply(old(doc), Op.Append(a))
      ensures st != Done ==> unchanged(this) && unchanged(data)
    {
      match a {
        case Flag(t) => st := AppendFlag(t);
        case Word(t, v) => st := AppendWord(t, v);
        case Long(t, v) => st := AppendLong(t, v);
        case Text(t, s) => st := AppendText(t, s);
        case Blob(b) => st := AppendBlob(b);
      }
    }

    method Perform(op: Op) returns (st: Status)
      requires Valid()
      modifies this, data
      ensures Valid()
      ensures st == Verdict(old(doc), capacity, op)
      ensures st == Done ==> doc == Apply(old(doc), op)
      ensures st != Done ==> unchanged(this) && unchanged(data)
    {
      match op {
        case BeginBundle(t) => st := BeginBundle(t);
        case EndBundle => st := EndBundle();
        case BeginMessage(address) => st := BeginMessage(address);
        case EndMessage => st := EndMessage();
        case Append(a) => st := Append(a);
      }
    }

    /** Streams operations in order until one throws, as a chain of `<<` does. */
    method Stream(ops: seq<Op>) returns (st: Status)
      requires Valid()
      modifies this, data
      ensures Valid()
      ensures Run(doc, st) == RunOps(old(doc), capacity, ops)
    {
      hide Apply, Laid, OpenSlot;
      var i := 0;
      while i < |ops|
        invariant 0 <= i <= |ops|
        invariant Valid() && RunOps(doc, capacity, ops[i..]) == RunOps(old(doc), capacity, ops)
      {
        assert ops[i..][0] == ops[i] && ops[i..][1..] == ops[i + 1..];
        st := Perform(ops[i]);
        if st != Done { return; }
        i := i + 1;
      }
      return Done;
    }

    /** Streams one tree into whatever is open: it fits exactly when the finished document does. */
    method Write(e: Element) returns (st: Status)
      requires Valid() && doc.message.NoMessage? && doc.loose == NONE
      modifies this, data
      ensures Valid()
      ensures st == if OscDocument.Size(old(doc)) + SlotSize(old(doc)) + |Encode(e)| <= capacity then Done
                    else OutOfBufferMemory
      ensures st == Done ==> doc == Add(old(doc), e)
    {
      hide Encode, Add, OpenSlot, RunOps;
      RunTree(doc, capacity, e);
      st := Stream(Ops(e));
    }

    /** On a cleared stream the packet is the encoding of the tree. */
    method WriteAlone(e: Element) returns (st: Status)
      requires Valid()
      modifies this, data
      ensures Valid()
      ensures st == if |Encode(e)| <= capacity then Done else OutOfBufferMemory
      ensures st == Done ==> IsReady() && Packet() == Encode(e)
    {
      hide Encode, Laid;
      Clear();
      assert OscDocument.Size(EMPTY) == 0;
      st := Write(e);
      if st == Done {
        assert doc.roots == [e] && [e][1..] == [];
        assert EncodeAll([e]) == Encode(e) + EncodeAll([]);
      }
    }
  }

  lemma SpliceNothing(s: seq<Byte>, at: nat)
    requires at <= |s|
    ensures Splice(s, at, []) == s
  {}
}
