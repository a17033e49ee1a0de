/**
 What a stream of writer operations means, without a buffer: finished top-level elements, the bundles
 still open, and the message being built. `Head` lays such a document out as bytes, with the link to the
 enclosing slot standing in each size slot that is not filled yet.
 */
module OscDocument {
  import opened Bytes
  import opened Wrappers
  import opened OscFormat

  datatype Frame = Frame(timeTag: uint64, elements: seq<Element>)

  datatype Message = NoMessage | Open(address: CString, args: seq<Arg>)

  // Arguments streamed while no message is open: their bytes behind the cursor, their tags at the buffer's end.
  datatype Loose = Loose(bytes: nat, tags: nat)

  const NONE := Loose(0, 0)

  datatype Doc = Doc(roots: seq<Element>, frames: seq<Frame>, message: Message, loose: Loose)

  const EMPTY := Doc([], [], NoMessage, NONE)

  datatype Op =
    | BeginBundle(timeTag: uint64)
    | EndBundle
    | BeginMessage(address: CString)
    | EndMessage
    | Append(arg: Arg)

  // The stream's exceptions.
  datatype Status =
    | Done | OutOfBufferMemory | BundleNotInProgress | MessageInProgress | MessageNotInProgress

  function Add(d: Doc, e: Element): Doc {
    if d.frames == [] then d.(roots := d.roots + [e])
    else
      var n := |d.frames| - 1;
      d.(frames := d.frames[..n] + [d.frames[n].(elements := d.frames[n].elements + [e])])
  }

  function AddAll(d: Doc, es: seq<Element>): Doc
    decreases |es|
  {
    if es == [] then d else AddAll(Add(d, es[0]), es[1..])
  }

  /**
   The document after an operation that does not throw. Nothing keeps an argument from being streamed outside a
   message; it belongs to no element, and the next element drops it.
   */
  function Apply(d: Doc, op: Op): Doc
    requires op.EndBundle? ==> d.frames != []
    requires op.EndMessage? ==> d.message.Open?
  {
    match op
    case BeginBundle(t) => d.(frames := d.frames + [Frame(t, [])], loose := Loose(0, d.loose.tags))
    case EndBundle =>
      var f := d.frames[|d.frames| - 1];
      Add(d.(frames := d.frames[..|d.frames| - 1]), Element.Bundle(f.timeTag, f.elements))
    case BeginMessage(address) => d.(message := Open(address, []), loose := NONE)
    case EndMessage => Add(d.(message := NoMessage, loose := NONE), Element.Message(d.message.address, d.message.args))
    case Append(a) =>
      if d.message.Open? then d.(message := d.message.(args := d.message.args + [a]))
      else d.(loose := Loose(d.loose.bytes + |a.Payload()|, d.loose.tags + 1))
  }

  // Whether the operation is refused because of what is open.
  function Refusal(d: Doc, op: Op): Status {
    match op
    case BeginBundle(_) => if d.message.Open? then MessageInProgress else Done
    case EndBundle =>
      if d.message.Open? then MessageInProgress else if d.frames == [] then BundleNotInProgress else Done
    case BeginMessage(_) => if d.message.Open? then MessageInProgress else Done
    case EndMessage => if d.message.Open? then Done else MessageNotInProgress
    case Append(_) => Done
  }

  // The space that the stream's checks ask for.
  function Needed(d: Doc, op: Op): nat {
    match op
    case BeginBundle(_) => Size(d) + SlotSize(d) + 16
    case BeginMessage(address) => Size(d) + SlotSize(d) + |Str4(address)| + 4
    case Append(a) =>
      |Head(d)| + |a.Payload()| +
      if d.message.Open? then |Payloads(d.message.args)| + RoundUp4(|d.message.args| + 3)
      else d.loose.bytes + RoundUp4(d.loose.tags + 3)
    case _ => Size(d)
  }

  function Verdict(d: Doc, capacity: nat, op: Op): Status {
    if Refusal(d, op) != Done then Refusal(d, op)
    else if Needed(d, op) > capacity then OutOfBufferMemory
    else Done
  }

  // No loose argument is there or comes.
  predicate Tidy(d: Doc, op: Op) {
    match op
    case Append(_) => d.message.Open?
    case BeginBundle(_) => d.loose.bytes == 0
    case BeginMessage(_) => d.loose.bytes == 0
    case _ => true
  }

  /**
   Out of memory means exactly that the document afterwards would be larger than the capacity, exactly as long as
   no argument is streamed outside a message. Such an argument makes the checks ask for more.
   */
  lemma NeededIsSize(d: Doc, op: Op)
    requires Refusal(d, op) == Done
    ensures Needed(d, op) >= Size(Apply(d, op))
    ensures Needed(d, op) == Size(Apply(d, op)) <==> Tidy(d, op)
  {
    match op {
      case BeginBundle(t) => BeginBundleSize(d, t);
      case BeginMessage(address) =>
      case Append(a) =>
        if d.message.Open? {
          PayloadsAppend(d.message.args, a);
        }
      case _ => EndKeepsSize(d, op);
    }
  }

  /**
   A number streamed into an empty packet is taken, counts four bytes that belong to no element, and is refused in
   seven bytes although four would do.
   */
  lemma LooseArgument(v: uint32)
    ensures var op := Append(Word('i' as Byte, v)); var d := Apply(EMPTY, op);
            && Verdict(EMPTY, 8, op) == Done && Size(d) == 4 && d.roots == [] && d.frames == []
            && Verdict(EMPTY, 7, op) == OutOfBufferMemory
  {
    assert Head(EMPTY) == [];
    assert |Word('i' as Byte, v).Payload()| == 4;
  }

  /** Offset of the innermost open bundle's size slot; the outermost bundle has none and uses 0. */
  function Slot(roots: seq<Element>, frames: seq<Frame>): nat
    requires frames != []
    decreases |frames|, 0
  {
    if |frames| == 1 then 0 else |Closed(roots, frames[..|frames| - 1])|
  }

  // The slot the next element to close will fill, if anything is open.
  function OpenSlot(d: Doc): Option<nat> {
    if d.message.Open? then Some(if d.frames == [] then 0 else |Closed(d.roots, d.frames)|)
    else if d.frames == [] then None
    else Some(Slot(d.roots, d.frames))
  }

  // What an element opened inside `frames` puts into its own size slot until it is closed.
  function Link(roots: seq<Element>, frames: seq<Frame>): (b: seq<Byte>)
    ensures |b| == if frames == [] then 0 else 4
    decreases |frames|, 1
  {
    if frames == [] then [] else LE32(Low32(Slot(roots, frames)))
  }

  /** Bytes of everything up to the message in progress. */
  function Closed(roots: seq<Element>, frames: seq<Frame>): (b: seq<Byte>)
    ensures frames != [] ==> |b| >= 16
    decreases |frames|, 2
  {
    if frames == [] then EncodeAll(roots)
    else
      var n := |frames| - 1;
      Closed(roots, frames[..n]) + Link(roots, frames[..n])
      + BundleHead(frames[n].timeTag) + EncodeSized(frames[n].elements)
  }

  /** Bytes up to the message cursor: arguments and tags of an open message lie elsewhere. */
  function Head(d: Doc): (b: seq<Byte>)
  {
    Closed(d.roots, d.frames) +
    (if d.message.Open? then Link(d.roots, d.frames) + Str4(d.message.address) else [])
  }

  function Size(d: Doc): nat {
    |Head(d)| + if d.message.Open? then RoundUp4(|d.message.args| + 2) + |Payloads(d.message.args)| else d.loose.bytes
  }

  // ---- how closing an element changes the bytes

  // Four bytes for the size slot, unless the element is at top level.
  function SlotSize(d: Doc): nat {
    if d.frames == [] then 0 else 4
  }

  // A finished element follows everything before it, with its length in the slot.
  lemma AddBytes(d: Doc, e: Element)
    ensures var c := Add(d, e);
            Closed(c.roots, c.frames) ==
            Closed(d.roots, d.frames) + (if d.frames == [] then Encode(e) else Sized(Encode(e)))
  {
    var c := Add(d, e);
    if d.frames == [] {
      EncodeAllAppend(d.roots, e);
    } else {
      var n := |d.frames| - 1;
      assert c.frames[..n] == d.frames[..n];
      EncodeSizedAppend(d.frames[n].elements, e);
    }
  }

  // Closing the innermost bundle only fills its slot: bytes after the slot stay.
  lemma EndBundleBytes(d: Doc)
    requires d.frames != [] && d.message.NoMessage?
    ensures var n := |d.frames| - 1; var f := d.frames[n]; var e := Element.Bundle(f.timeTag, f.elements);
            Closed(d.roots, d.frames) == Closed(d.roots, d.frames[..n]) + Link(d.roots, d.frames[..n]) + Encode(e)
  {
    var n := |d.frames| - 1;
    var f := d.frames[n];
    var a, l := Closed(d.roots, d.frames[..n]), Link(d.roots, d.frames[..n]);
    assert a + l + BundleHead(f.timeTag) + EncodeSized(f.elements) ==
           a + l + (BundleHead(f.timeTag) + EncodeSized(f.elements));
  }

  lemma AddSize(d: Doc, e: Element)
    requires d.message.NoMessage?
    ensures Size(Add(d, e)) == Size(d) + SlotSize(d) + |Encode(e)|
  {
    AddBytes(d, e);
  }

  // Neither terminator changes the size.
  lemma EndKeepsSize(d: Doc, op: Op)
    requires op.EndBundle? || op.EndMessage?
    requires Refusal(d, op) == Done
    ensures Size(Apply(d, op)) == Size(d)
  {
    if op.EndBundle? {
      var n := |d.frames| - 1;
      var outer := d.(frames := d.frames[..n]);
      EndBundleBytes(d);
      AddSize(outer, Element.Bundle(d.frames[n].timeTag, d.frames[n].elements));
    } else {
      AddSize(d.(message := NoMessage, loose := NONE), Element.Message(d.message.address, d.message.args));
    }
  }

  // No operation shrinks the packet by more than the loose bytes it drops.
  lemma SizeNeverShrinks(d: Doc, op: Op)
    requires Refusal(d, op) == Done
    ensures Size(d) <= Size(Apply(d, op)) + if op.BeginBundle? || op.BeginMessage? then d.loose.bytes else 0
  {
    match op {
      case BeginBundle(t) => BeginBundleSize(d, t);
      case Append(a) =>
        if d.message.Open? {
          PayloadsAppend(d.message.args, a);
        }
      case BeginMessage(_) =>
      case _ => EndKeepsSize(d, op);
    }
  }

  lemma BeginBundleSize(d: Doc, t: uint64)
    requires d.message.NoMessage?
    ensures Size(Apply(d, BeginBundle(t))) + d.loose.bytes == Size(d) + SlotSize(d) + 16
  {
    var c := Apply(d, BeginBundle(t));
    assert c.frames[..|d.frames|] == d.frames;
    assert EncodeSized([]) == [];
  }

  // ---- driving the operations over a tree

  function Ops(e: Element): seq<Op>
    decreases e, 1
  {
    match e
    case Message(address, args) => [BeginMessage(address)] + Appends(args) + [EndMessage]
    case Bundle(timeTag, elements) => [BeginBundle(timeTag)] + OpsAll(elements) + [EndBundle]
  }

  function OpsAll(es: seq<Element>): seq<Op>
    decreases es, 0
  {
    if es == [] then [] else Ops(es[0]) + OpsAll(es[1..])
  }

  function Appends(args: seq<Arg>): (ops: seq<Op>)
    ensures |ops| == |args|
  {
    seq(|args|, i requires 0 <= i < |args| => Append(args[i]))
  }

  /** A run stops at the first operation that throws. */
  datatype Run = Run(doc: Doc, status: Status)

  function RunOps(d: Doc, capacity: nat, ops: seq<Op>): Run
    decreases |ops|
  {
    if ops == [] then Run(d, Done)
    else if Verdict(d, capacity, ops[0]) != Done then Run(d, Verdict(d, capacity, ops[0]))
    else RunOps(Apply(d, ops[0]), capacity, ops[1..])
  }

  lemma {:induction false} RunConcat(d: Doc, capacity: nat, a: seq<Op>, b: seq<Op>)
    ensures RunOps(d, capacity, a + b) ==
            var r := RunOps(d, capacity, a); if r.status != Done then r else RunOps(r.doc, capacity, b)
    decreases |a|
  {
    if a == [] {
      assert a + b == b;
    } else {
      assert (a + b)[1..] == a[1..] + b;
      if Verdict(d, capacity, a[0]) == Done {
        RunConcat(Apply(d, a[0]), capacity, a[1..], b);
      }
    }
  }

  // Appending arguments to an open message succeeds exactly when all of them fit.
  lemma {:induction false} RunAppends(d: Doc, capacity: nat, args: seq<Arg>)
    requires d.message.Open? && Size(d) <= capacity
    ensures var c := d.(message := d.message.(args := d.message.args + args));
            var r := RunOps(d, capacity, Appends(args));
            if Size(c) <= capacity then r == Run(c, Done) else r.status == OutOfBufferMemory
    decreases |args|
  {
    hide Size, Head, Needed;
    var c := d.(message := d.message.(args := d.message.args + args));
    if args == [] {
      assert d.message.args + args == d.message.args;
    } else {
      var d1 := Apply(d, Append(args[0]));
      assert Appends(args)[1..] == Appends(args[1..]);
      assert d.message.args + args == d1.message.args + args[1..];
      assert c == d1.(message := d1.message.(args := d1.message.args + args[1..]));
      SizeGrows(d1, args[1..]);
      NeededIsSize(d, Append(args[0]));
      if Size(d1) <= capacity {
        RunAppends(d1, capacity, args[1..]);
      }
    }
  }

  lemma SizeGrows(d: Doc, more: seq<Arg>)
    requires d.message.Open?
    ensures Size(d) <= Size(d.(message := d.message.(args := d.message.args + more)))
  {
    PayloadsPrefix(d.message.args, more);
  }

  lemma {:induction false} PayloadsPrefix(a: seq<Arg>, b: seq<Arg>)
    ensures |Payloads(a)| <= |Payloads(a + b)|
  {
    if a != [] {
      assert (a + b)[1..] == a[1..] + b;
      PayloadsPrefix(a[1..], b);
    }
  }

  /**
   Driving the operations over any tree adds exactly that tree, and runs out of memory exactly when the
   finished document would exceed the capacity; no other exception is possible.
   */
  lemma {:induction false} RunTree(d: Doc, capacity: nat, e: Element)
    requires d.message.NoMessage? && d.loose == NONE && Size(d) <= capacity
    ensures var r := RunOps(d, capacity, Ops(e));
            if Size(d) + SlotSize(d) + |Encode(e)| <= capacity then r == Run(Add(d, e), Done)
            else r.status == OutOfBufferMemory
    decreases e, 1
  {
    match e {
      case Message(address, args) => RunMessage(d, capacity, address, args);
      case Bundle(timeTag, elements) =>
        var d1 := Apply(d, BeginBundle(timeTag));
        if Size(d1) <= capacity {
          RunForest(d1, capacity, elements);
        }
        RunBundle(d, capacity, timeTag, elements);
    }
  }

  lemma RunMessage(d: Doc, capacity: nat, address: CString, args: seq<Arg>)
    requires d.message.NoMessage? && d.loose == NONE && Size(d) <= capacity
    ensures var e := Element.Message(address, args);
            var r := RunOps(d, capacity, Ops(e));
            if Size(d) + SlotSize(d) + |Encode(e)| <= capacity then r == Run(Add(d, e), Done)
            else r.status == OutOfBufferMemory
  {
    var e := Element.Message(address, args);
    var d1 := Apply(d, BeginMessage(address));
    assert Ops(e) == [BeginMessage(address)] + (Appends(args) + [EndMessage]);
    NeededIsSize(d, BeginMessage(address));
    RunFirst(d, capacity, BeginMessage(address), Appends(args) + [EndMessage]);
    var d2 := d1.(message := Open(address, args));
    assert Size(d2) == Size(d) + SlotSize(d) + |Encode(e)|;
    if Size(d1) <= capacity {
      assert d1.message.args + args == args;
      RunAppends(d1, capacity, args);
      RunConcat(d1, capacity, Appends(args), [EndMessage]);
      if Size(d2) <= capacity {
        RunLast(d2, capacity, EndMessage);
      }
    }
  }

  lemma RunBundle(d: Doc, capacity: nat, timeTag: uint64, elements: seq<Element>)
    requires d.message.NoMessage? && d.loose == NONE && Size(d) <= capacity
    requires var d1 := Apply(d, BeginBundle(timeTag));
             Size(d1) <= capacity ==>
               var r := RunOps(d1, capacity, OpsAll(elements));
               if Size(d1) + |EncodeSized(elements)| <= capacity then r == Run(AddAll(d1, elements), Done)
               else r.status == OutOfBufferMemory
    ensures var e := Element.Bundle(timeTag, elements);
            var r := RunOps(d, capacity, Ops(e));
            if Size(d) + SlotSize(d) + |Encode(e)| <= capacity then r == Run(Add(d, e), Done)
            else r.status == OutOfBufferMemory
  {
    var e := Element.Bundle(timeTag, elements);
    var d1 := Apply(d, BeginBundle(timeTag));
    BeginBundleSize(d, timeTag);
    assert Ops(e) == [BeginBundle(timeTag)] + (OpsAll(elements) + [EndBundle]);
    NeededIsSize(d, BeginBundle(timeTag));
    RunFirst(d, capacity, BeginBundle(timeTag), OpsAll(elements) + [EndBundle]);
    if Size(d1) <= capacity {
      RunConcat(d1, capacity, OpsAll(elements), [EndBundle]);
      AddAllToFrame(d1, elements);
      var d2 := AddAll(d1, elements);
      assert d2.frames[|d.frames|] == Frame(timeTag, [] + elements) == Frame(timeTag, elements);
      assert d2.frames[..|d.frames|] == d.frames;
      if Size(d2) <= capacity {
        RunLast(d2, capacity, EndBundle);
      }
    }
  }

  lemma RunFirst(d: Doc, capacity: nat, op: Op, rest: seq<Op>)
    ensures RunOps(d, capacity, [op] + rest) ==
            var v := Verdict(d, capacity, op); if v != Done then Run(d, v) else RunOps(Apply(d, op), capacity, rest)
  {
    assert ([op] + rest)[1..] == rest;
  }

  lemma RunLast(d: Doc, capacity: nat, op: Op)
    requires op.EndBundle? || op.EndMessage?
    requires Refusal(d, op) == Done && Size(d) <= capacity
    ensures RunOps(d, capacity, [op]) == Run(Apply(d, op), Done)
  {
    EndKeepsSize(d, op);
    RunFirst(d, capacity, op, []);
    assert [op] + [] == [op];
  }

  lemma {:induction false} AddAllToFrame(d: Doc, es: seq<Element>)
    requires d.frames != [] && d.message.NoMessage?
    ensures var n := |d.frames| - 1;
            AddAll(d, es) == d.(frames := d.frames[..n] + [d.frames[n].(elements := d.frames[n].elements + es)])
    ensures Size(AddAll(d, es)) == Size(d) + |EncodeSized(es)|
    decreases |es|
  {
    hide Closed, Encode, Head;
    var n := |d.frames| - 1;
    if es == [] {
      assert d.frames[n].elements + es == d.frames[n].elements;
      assert d.frames[..n] + [d.frames[n]] == d.frames;
    } else {
      var c := Add(d, es[0]);
      AddSize(d, es[0]);
      AddAllToFrame(c, es[1..]);
      assert c.frames[..n] == d.frames[..n];
      assert c.frames[n].elements + es[1..] == d.frames[n].elements + es;
    }
  }

  lemma {:induction false} RunForest(d: Doc, capacity: nat, es: seq<Element>)
    requires d.frames != [] && d.message.NoMessage? && d.loose == NONE && Size(d) <= capacity
    ensures var r := RunOps(d, capacity, OpsAll(es));
            if Size(d) + |EncodeSized(es)| <= capacity then r == Run(AddAll(d, es), Done)
            else r.status == OutOfBufferMemory
    decreases es, 0
  {
    if es != [] {
      RunTree(d, capacity, es[0]);
      RunConcat(d, capacity, Ops(es[0]), OpsAll(es[1..]));
      if Size(d) + SlotSize(d) + |Encode(es[0])| <= capacity {
        AddSize(d, es[0]);
        RunForest(Add(d, es[0]), capacity, es[1..]);
      }
    }
  }

  // ---- what a run has written

  // The operations that lead to the closed elements and open bundles.
  function RecordedFrames(roots: seq<Element>, frames: seq<Frame>): seq<Op> {
    if frames == [] then OpsAll(roots)
    else
      var f := frames[|frames| - 1];
      RecordedFrames(roots, frames[..|frames| - 1]) + [BeginBundle(f.timeTag)] + OpsAll(f.elements)
  }

  // The operations that lead to a document without stray arguments.
  function Recorded(d: Doc): seq<Op> {
    RecordedFrames(d.roots, d.frames) +
    match d.message
    case NoMessage => []
    case Open(address, args) => [BeginMessage(address)] + Appends(args)
  }

  lemma {:induction false} OpsAllAppend(es: seq<Element>, e: Element)
    ensures OpsAll(es + [e]) == OpsAll(es) + Ops(e)
  {
    if es == [] {
      assert [e][1..] == [];
      assert OpsAll([e]) == Ops(e) + OpsAll([e][1..]);
      assert [] + [e] == [e];
    } else {
      assert (es + [e])[1..] == es[1..] + [e];
      OpsAllAppend(es[1..], e);
      OpsAssoc(Ops(es[0]), OpsAll(es[1..]), Ops(e));
    }
  }

  lemma OpsAssoc(a: seq<Op>, b: seq<Op>, c: seq<Op>)
    ensures (a + b) + c == a + (b + c)
  {}

  lemma AddRecorded(d: Doc, e: Element)
    ensures var c := Add(d, e); RecordedFrames(c.roots, c.frames) == RecordedFrames(d.roots, d.frames) + Ops(e)
  {
    hide Ops;
    if d.frames == [] {
      OpsAllAppend(d.roots, e);
    } else {
      var n := |d.frames| - 1;
      var c, f := Add(d, e), d.frames[n];
      OpsAllAppend(f.elements, e);
      assert c.frames[..n] == d.frames[..n];
      assert c.frames[n] == f.(elements := f.elements + [e]);
      OpsAssoc(RecordedFrames(d.roots, d.frames[..n]) + [BeginBundle(f.timeTag)], OpsAll(f.elements), Ops(e));
    }
  }

  /** An accepted operation is recorded behind the others: nothing is lost, added or reordered. */
  lemma StepRecorded(d: Doc, op: Op)
    requires Refusal(d, op) == Done && (op.Append? ==> d.message.Open?)
    ensures Recorded(Apply(d, op)) == Recorded(d) + [op]
  {
    var before := RecordedFrames(d.roots, d.frames);
    match op
    case BeginBundle(t) =>
      assert Apply(d, op).frames[..|d.frames|] == d.frames;
      assert OpsAll([]) == [];
    case EndBundle =>
      var n := |d.frames| - 1;
      var f, rest := d.frames[n], d.(frames := d.frames[..n]);
      AddRecorded(rest, Element.Bundle(f.timeTag, f.elements));
      assert Ops(Element.Bundle(f.timeTag, f.elements)) == [BeginBundle(f.timeTag)] + OpsAll(f.elements) + [EndBundle];
      var outer := RecordedFrames(d.roots, d.frames[..n]);
      OpsAssoc(outer, [BeginBundle(f.timeTag)] + OpsAll(f.elements), [EndBundle]);
      OpsAssoc(outer, [BeginBundle(f.timeTag)], OpsAll(f.elements));
    case BeginMessage(address) =>
      assert Appends([]) == [];
    case EndMessage =>
      AddRecorded(d.(message := NoMessage, loose := NONE), Element.Message(d.message.address, d.message.args));
      OpsAssoc(before, [BeginMessage(d.message.address)] + Appends(d.message.args), [EndMessage]);
    case Append(a) =>
      var args := d.message.args;
      assert Appends(args + [a]) == Appends(args) + [Append(a)];
      OpsAssoc([BeginMessage(d.message.address)], Appends(args), [Append(a)]);
      OpsAssoc(before, [BeginMessage(d.message.address)] + Appends(args), [Append(a)]);
  }

  // No argument is streamed outside a message.
  predicate ArgumentsInside(d: Doc, capacity: nat, ops: seq<Op>)
    decreases |ops|
  {
    ops == [] || Verdict(d, capacity, ops[0]) != Done
    || ((ops[0].Append? ==> d.message.Open?) && ArgumentsInside(Apply(d, ops[0]), capacity, ops[1..]))
  }

  /**
   A run that succeeds has written exactly its operations. If nothing is open at its end, they are those that stream
   the elements of the document one after the other: only well-nested runs succeed.
   */
  lemma {:induction false} RunRecorded(d: Doc, capacity: nat, ops: seq<Op>)
    requires RunOps(d, capacity, ops).status == Done && ArgumentsInside(d, capacity, ops)
    ensures Recorded(RunOps(d, capacity, ops).doc) == Recorded(d) + ops
    decreases |ops|
  {
    hide Recorded, Apply, Needed;
    if ops == [] {
      assert Recorded(d) + [] == Recorded(d);
    } else {
      assert Refusal(d, ops[0]) == Done;
      StepRecorded(d, ops[0]);
      RunRecorded(Apply(d, ops[0]), capacity, ops[1..]);
      assert Recorded(d) + [ops[0]] + ops[1..] == Recorded(d) + ops;
    }
  }

  lemma OnlyTreesSucceed(capacity: nat, ops: seq<Op>)
    requires RunOps(EMPTY, capacity, ops).status == Done && ArgumentsInside(EMPTY, capacity, ops)
    requires var d := RunOps(EMPTY, capacity, ops).doc; d.frames == [] && d.message.NoMessage?
    ensures ops == OpsAll(RunOps(EMPTY, capacity, ops).doc.roots)
  {
    RunRecorded(EMPTY, capacity, ops);
    var d := RunOps(EMPTY, capacity, ops).doc;
    assert Recorded(EMPTY) + ops == ops && Recorded(d) == OpsAll(d.roots);
  }
}
