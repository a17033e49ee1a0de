/**
 Splitting one frame into packets: every packet repeats the source and alive messages, then takes set messages
 until fewer bytes are left than one set and one fseq message need.
 */
module TuioServer {
  import opened Bytes
  import opened Wrappers
  import opened OscFormat
  import opened OscDocument
  import opened OscRoundTrip
  import opened OscWriter
  import Motion

  datatype Kind = Object | Cursor | Blob

  // A tracked contact as the server streams it; `selected` if this frame has to report it.
  datatype Contact = Contact(sessionId: uint32, symbolId: uint32, values: seq<uint32>, selected: bool)

  const TUIO_2D: seq<Byte> :=
    ['/' as Byte, 't' as Byte, 'u' as Byte, 'i' as Byte, 'o' as Byte, '/' as Byte, '2' as Byte, 'D' as Byte]
  const SET: seq<Byte> := ['s' as Byte, 'e' as Byte, 't' as Byte]
  const ALIVE: seq<Byte> := ['a' as Byte, 'l' as Byte, 'i' as Byte, 'v' as Byte, 'e' as Byte]
  const FSEQ: seq<Byte> := ['f' as Byte, 's' as Byte, 'e' as Byte, 'q' as Byte]
  const SOURCE: seq<Byte> := ['s' as Byte, 'o' as Byte, 'u' as Byte, 'r' as Byte, 'c' as Byte, 'e' as Byte]

  function Suffix(kind: Kind): seq<Byte> {
    match kind
    case Object => ['o' as Byte, 'b' as Byte, 'j' as Byte]
    case Cursor => ['c' as Byte, 'u' as Byte, 'r' as Byte]
    case Blob => ['b' as Byte, 'l' as Byte, 'b' as Byte]
  }

  function Address(kind: Kind): (a: CString)
    ensures |a| == 11 && a[0] != HASH
  {
    TUIO_2D + Suffix(kind)
  }

  // OBJ_MESSAGE_SIZE, CUR_MESSAGE_SIZE and BLB_MESSAGE_SIZE.
  function MessageSize(kind: Kind): nat {
    match kind
    case Object => 108
    case Cursor => 88
    case Blob => 116
  }

  function ValueCount(kind: Kind): nat {
    match kind
    case Object => 8
    case Cursor => 5
    case Blob => 11
  }

  function Words(tag: WordTag, vs: seq<uint32>): (args: seq<Arg>)
    ensures |args| == |vs|
  {
    seq(|vs|, i requires 0 <= i < |vs| => Word(tag, vs[i]))
  }

  function Ids(kind: Kind, c: Contact): seq<uint32> {
    if kind == Object then [c.sessionId, c.symbolId] else [c.sessionId]
  }

  function SetMessage(kind: Kind, c: Contact): Element {
    Element.Message(Address(kind),
                    [Text('s' as Byte, SET)] + Words('i' as Byte, Ids(kind, c)) + Words('f' as Byte, c.values))
  }

  function FseqMessage(kind: Kind, fseq: uint32): Element {
    Element.Message(Address(kind), [Text('s' as Byte, FSEQ), Word('i' as Byte, fseq)])
  }

  function SessionIds(live: seq<Contact>): (ids: seq<uint32>)
    ensures |ids| == |live|
  {
    seq(|live|, i requires 0 <= i < |live| => live[i].sessionId)
  }

  function AliveMessage(kind: Kind, live: seq<Contact>): Element {
    Element.Message(Address(kind), [Text('s' as Byte, ALIVE)] + Words('i' as Byte, SessionIds(live)))
  }

  function SourceMessage(kind: Kind, source: CString): Element {
    Element.Message(Address(kind), [Text('s' as Byte, SOURCE), Text('s' as Byte, source)])
  }

  // ---- what the messages say

  /** The alive message: the session of every live contact, in list order. */
  predicate SaysAlive(m: Element, kind: Kind, live: seq<Contact>) {
    && m.Message? && m.address == Address(kind)
    && |m.args| == |live| + 1 && m.args[0] == Text('s' as Byte, ALIVE)
    && forall k :: 0 <= k < |live| ==> m.args[k + 1] == Word('i' as Byte, live[k].sessionId)
  }

  /** A set message: the session, the symbol of an object, and the values in their order. */
  predicate SaysSet(m: Element, kind: Kind, c: Contact) {
    && m.Message? && m.address == Address(kind)
    && var n := if kind == Object then 3 else 2;
    && |m.args| == n + |c.values|
    && m.args[0] == Text('s' as Byte, SET) && m.args[1] == Word('i' as Byte, c.sessionId)
    && (kind == Object ==> m.args[2] == Word('i' as Byte, c.symbolId))
    && forall k :: 0 <= k < |c.values| ==> m.args[n + k] == Word('f' as Byte, c.values[k])
  }

  predicate Spells(b: seq<Byte>, s: string) {
    |b| == |s| && forall i :: 0 <= i < |b| ==> b[i] as int == s[i] as int
  }

  /** The names of the protocol. */
  lemma NamesSpelled()
    ensures Spells(Address(Object), "/tuio/2Dobj") && Spells(Address(Cursor), "/tuio/2Dcur")
    ensures Spells(Address(Kind.Blob), "/tuio/2Dblb")
    ensures Spells(SOURCE, "source") && Spells(ALIVE, "alive") && Spells(SET, "set") && Spells(FSEQ, "fseq")
  {}

  lemma AliveSays(kind: Kind, live: seq<Contact>)
    ensures SaysAlive(AliveMessage(kind, live), kind, live)
  {}

  lemma SetSays(kind: Kind, c: Contact)
    ensures SaysSet(SetMessage(kind, c), kind, c)
  {}

  // ---- the message sizes behind the constants

  lemma {:induction false} WordsPayload(tag: WordTag, vs: seq<uint32>)
    ensures |Payloads(Words(tag, vs))| == 4 * |vs|
  {
    if vs != [] {
      assert Words(tag, vs)[1..] == Words(tag, vs[1..]);
      WordsPayload(tag, vs[1..]);
    }
  }

  lemma {:induction false} PayloadsConcat(a: seq<Arg>, b: seq<Arg>)
    ensures |Payloads(a + b)| == |Payloads(a)| + |Payloads(b)|
  {
    if a == [] {
      assert a + b == b;
    } else {
      assert (a + b)[1..] == a[1..] + b;
      PayloadsConcat(a[1..], b);
    }
  }

  lemma TextPayload(t: TextTag, s: CString)
    ensures |Payloads([Text(t, s)])| == |Str4(s)|
  {
    assert [Text(t, s)][1..] == [];
  }

  // The bytes a set message takes inside the bundle, its size slot included.
  function SetSize(kind: Kind): nat {
    match kind
    case Object => 76
    case Cursor => 56
    case Blob => 84
  }

  const FSEQ_SIZE := 32

  lemma SetSizeExact(kind: Kind, c: Contact)
    requires |c.values| == ValueCount(kind)
    ensures |Sized(Encode(SetMessage(kind, c)))| == SetSize(kind)
  {
    var name, ids, vs := [Text('s' as Byte, SET)], Words('i' as Byte, Ids(kind, c)), Words('f' as Byte, c.values);
    TextPayload('s' as Byte, SET);
    WordsPayload('i' as Byte, Ids(kind, c));
    WordsPayload('f' as Byte, c.values);
    PayloadsConcat(name, ids);
    PayloadsConcat(name + ids, vs);
  }

  lemma FseqSizeExact(kind: Kind, fseq: uint32)
    ensures |Sized(Encode(FseqMessage(kind, fseq)))| == FSEQ_SIZE
  {
    var a: seq<Arg> := [Text('s' as Byte, FSEQ)];
    TextPayload('s' as Byte, FSEQ);
    PayloadsAppend(a, Word('i' as Byte, fseq));
    assert a + [Word('i' as Byte, fseq)] == [Text('s' as Byte, FSEQ), Word('i' as Byte, fseq)];
  }

  /** The three byte constants are exactly one set message and one fseq message. */
  lemma MessageSizesExact(kind: Kind, c: Contact, fseq: uint32)
    requires |c.values| == ValueCount(kind)
    ensures |EncodeSized([SetMessage(kind, c), FseqMessage(kind, fseq)])| == MessageSize(kind)
  {
    hide Encode;
    SetSizeExact(kind, c);
    FseqSizeExact(kind, fseq);
    var es := [SetMessage(kind, c), FseqMessage(kind, fseq)];
    assert es[1..] == [FseqMessage(kind, fseq)] && es[1..][1..] == [];
    assert EncodeSized(es) == Sized(Encode(es[0])) + EncodeSized(es[1..]);
    assert EncodeSized(es[1..]) == Sized(Encode(es[1..][0])) + EncodeSized(es[1..][1..]);
  }

  // ---- how a frame is split

  /** What stays the same while one profile of one frame is sent. */
  datatype Frame = Frame(kind: Kind, source: CString, live: seq<Contact>, capacity: nat, fseq: uint32)
  {
    function Header(): seq<Element> {
      (if source != [] then [SourceMessage(kind, source)] else []) + [AliveMessage(kind, live)]
    }

    function Body(group: seq<Contact>): seq<Element> {
      Header() + Sets(kind, group)
    }

    // Bytes in the stream before the fseq message.
    function Used(group: seq<Contact>): nat {
      16 + |EncodeSized(Body(group))|
    }

    function Packet(group: seq<Contact>): Element {
      Element.Bundle(1, Body(group) + [FseqMessage(kind, fseq)])
    }
  }

  function Sets(kind: Kind, group: seq<Contact>): (es: seq<Element>)
    ensures |es| == |group|
  {
    seq(|group|, i requires 0 <= i < |group| => SetMessage(kind, group[i]))
  }

  predicate WellFormed(kind: Kind, cs: seq<Contact>) {
    forall c :: c in cs ==> |c.values| == ValueCount(kind)
  }

  function Selected(cs: seq<Contact>): seq<Contact> {
    if cs == [] then [] else (if cs[0].selected then [cs[0]] else []) + Selected(cs[1..])
  }

  function Concat(groups: seq<seq<Contact>>): seq<Contact> {
    if groups == [] then [] else Concat(groups[..|groups| - 1]) + groups[|groups| - 1]
  }

  // The groups of contacts the packets of a frame carry: those sent so far, the one being filled, and the walk left.
  function Split(f: Frame, sent: seq<seq<Contact>>, filling: seq<Contact>, walk: seq<Contact>): seq<seq<Contact>>
    decreases |walk|
  {
    if walk == [] then sent + [filling]
    else
      Split(f, if Full(f, filling) then sent + [filling] else sent, Filling(f, filling, walk[0]), walk[1..])
  }

  /** Over all packets, the set messages are the selected contacts, each once and in list order. */
  lemma {:induction false} SplitCovers(f: Frame, sent: seq<seq<Contact>>, filling: seq<Contact>, walk: seq<Contact>)
    ensures Concat(Split(f, sent, filling, walk)) == Concat(sent) + filling + Selected(walk)
    decreases |walk|
  {
    hide Full;
    ConcatAppend(sent, filling);
    if walk == [] {
      assert Concat(sent) + filling + [] == Concat(sent) + filling;
    } else {
      var c := if walk[0].selected then [walk[0]] else [];
      var rest := Selected(walk[1..]);
      if Full(f, filling) {
        SplitCovers(f, sent + [filling], [] + c, walk[1..]);
        assert Concat(sent) + filling + ([] + c) + rest == Concat(sent) + filling + (c + rest);
      } else {
        SplitCovers(f, sent, filling + c, walk[1..]);
        assert Concat(sent) + (filling + c) + rest == Concat(sent) + filling + (c + rest);
      }
    }
  }

  lemma ConcatAppend(groups: seq<seq<Contact>>, g: seq<Contact>)
    ensures Concat(groups + [g]) == Concat(groups) + g
  {
    assert (groups + [g])[..|groups|] == groups;
  }

  /** Whether a frame can be sent: decided by the empty bundle alone. */
  predicate Fits(f: Frame, walk: seq<Contact>) {
    && f.Used([]) + FSEQ_SIZE <= f.capacity
    && (Selected(walk) != [] ==> f.Used([]) + MessageSize(f.kind) <= f.capacity)
  }

  lemma UsedAppend(f: Frame, group: seq<Contact>, c: Contact)
    requires |c.values| == ValueCount(f.kind)
    ensures f.Body(group + [c]) == f.Body(group) + [SetMessage(f.kind, c)]
    ensures f.Used(group + [c]) == f.Used(group) + SetSize(f.kind)
  {
    hide Encode, SetMessage;
    assert Sets(f.kind, group + [c]) == Sets(f.kind, group) + [SetMessage(f.kind, c)];
    assert f.Body(group + [c]) == f.Body(group) + [SetMessage(f.kind, c)];
    EncodeSizedAppend(f.Body(group), SetMessage(f.kind, c));
    SetSizeExact(f.kind, c);
  }

  lemma PacketSize(f: Frame, group: seq<Contact>)
    ensures |Encode(f.Packet(group))| == f.Used(group) + FSEQ_SIZE
  {
    EncodeSizedAppend(f.Body(group), FseqMessage(f.kind, f.fseq));
    FseqSizeExact(f.kind, f.fseq);
  }

  /** No packet of a frame that fits is larger than the buffer. */
  lemma {:induction false} SplitFits(f: Frame, sent: seq<seq<Contact>>, filling: seq<Contact>, walk: seq<Contact>)
    requires Fits(f, walk) && WellFormed(f.kind, walk)
    requires forall g :: g in sent + [filling] ==> f.Used(g) + FSEQ_SIZE <= f.capacity
    ensures forall g :: g in Split(f, sent, filling, walk) ==> |Encode(f.Packet(g))| <= f.capacity
    decreases |walk|
  {
    hide Frame.Used, Encode, Frame.Packet;
    if walk == [] {
      forall g | g in sent + [filling]
        ensures |Encode(f.Packet(g))| <= f.capacity
      {
        PacketSize(f, g);
      }
    } else {
      var sent' := if Full(f, filling) then sent + [filling] else sent;
      var filling' := if Full(f, filling) then [] else filling;
      UsedAppend(f, filling', walk[0]);
      assert filling' + [] == filling';
      SplitFits(f, sent', Filling(f, filling, walk[0]), walk[1..]);
    }
  }

  function Packets(f: Frame, groups: seq<seq<Contact>>): (ps: seq<seq<Byte>>)
    ensures |ps| == |groups|
  {
    seq(|groups|, i requires 0 <= i < |groups| => Encode(f.Packet(groups[i])))
  }

  // ---- what a receiver sees

  lemma {:induction false} WordsLevel(tag: WordTag, vs: seq<uint32>)
    ensures Level(Words(tag, vs)) == 0
  {
    if vs != [] {
      assert Words(tag, vs)[1..] == Words(tag, vs[1..]);
      WordsLevel(tag, vs[1..]);
    }
  }

  lemma {:induction false} LevelConcat(a: seq<Arg>, b: seq<Arg>)
    ensures Level(a + b) == Level(a) + Level(b)
  {
    if a == [] {
      assert a + b == b;
    } else {
      assert (a + b)[1..] == a[1..] + b;
      LevelConcat(a[1..], b);
    }
  }

  lemma TextLevel(t: TextTag, s: CString)
    ensures Level([Text(t, s)]) == 0
  {
    var a := [Text(t, s)];
    assert a[0].Tag() == t && IsTextTag(t);
    assert a[1..] == [];
  }

  lemma SetReadable(kind: Kind, c: Contact)
    ensures Readable(SetMessage(kind, c))
  {
    var name, ids, vs := [Text('s' as Byte, SET)], Words('i' as Byte, Ids(kind, c)), Words('f' as Byte, c.values);
    TextLevel('s' as Byte, SET);
    WordsLevel('i' as Byte, Ids(kind, c));
    WordsLevel('f' as Byte, c.values);
    LevelConcat(name, ids);
    LevelConcat(name + ids, vs);
  }

  lemma OthersReadable(f: Frame)
    ensures Readable(SourceMessage(f.kind, f.source)) && Readable(AliveMessage(f.kind, f.live))
    ensures Readable(FseqMessage(f.kind, f.fseq))
  {
    TextLevel('s' as Byte, SOURCE);
    TextLevel('s' as Byte, f.source);
    LevelConcat([Text('s' as Byte, SOURCE)], [Text('s' as Byte, f.source)]);
    assert [Text('s' as Byte, SOURCE)] + [Text('s' as Byte, f.source)] ==
           [Text('s' as Byte, SOURCE), Text('s' as Byte, f.source)];
    TextLevel('s' as Byte, ALIVE);
    WordsLevel('i' as Byte, SessionIds(f.live));
    LevelConcat([Text('s' as Byte, ALIVE)], Words('i' as Byte, SessionIds(f.live)));
    TextLevel('s' as Byte, FSEQ);
    var w: seq<Arg> := [Word('i' as Byte, f.fseq)];
    assert w[1..] == [];
    LevelConcat([Text('s' as Byte, FSEQ)], w);
    assert [Text('s' as Byte, FSEQ)] + w == [Text('s' as Byte, FSEQ), Word('i' as Byte, f.fseq)];
  }

  /** A receiver decodes every packet to the bundle of source, alive list, its group of set messages, and fseq. */
  lemma PacketReadBack(f: Frame, group: seq<Contact>)
    requires |Encode(f.Packet(group))| <= MAX_ELEMENT_SIZE
    ensures var b := Encode(f.Packet(group)); Read(b, 0, |b|) == Some(f.Packet(group))
  {
    hide Encode, Read, SetMessage, FseqMessage, AliveMessage, SourceMessage;
    OthersReadable(f);
    forall e | e in f.Packet(group).elements
      ensures Readable(e)
    {
      if e in Sets(f.kind, group) {
        var i :| 0 <= i < |group| && e == SetMessage(f.kind, group[i]);
        SetReadable(f.kind, group[i]);
      }
    }
    var b := Encode(f.Packet(group));
    assert b[0..|b|] == b;
    ReadBack(b, 0, f.Packet(group));
  }

  /**
   A bundle for now with the source if there is one, the sessions of all live contacts, one set message for each contact
   of a group, and the frame's number.
   */
  predicate Reports(f: Frame, group: seq<Contact>, e: Element) {
    && e.Bundle? && e.timeTag == 1
    && var n := if f.source == [] then 1 else 2;
    && |e.elements| == n + |group| + 1
    && (f.source != [] ==>
          e.elements[0] == Element.Message(Address(f.kind), [Text('s' as Byte, SOURCE), Text('s' as Byte, f.source)]))
    && SaysAlive(e.elements[n - 1], f.kind, f.live)
    && (forall k :: 0 <= k < |group| ==> SaysSet(e.elements[n + k], f.kind, group[k]))
    && e.elements[n + |group|] ==
       Element.Message(Address(f.kind), [Text('s' as Byte, FSEQ), Word('i' as Byte, f.fseq)])
  }

  lemma PacketReports(f: Frame, group: seq<Contact>)
    ensures Reports(f, group, f.Packet(group))
  {
    var es := f.Packet(group).elements;
    var n := if f.source == [] then 1 else 2;
    AliveSays(f.kind, f.live);
    forall k | 0 <= k < |group|
      ensures SaysSet(es[n + k], f.kind, group[k])
    {
      assert es[n + k] == Sets(f.kind, group)[k];
      SetSays(f.kind, group[k]);
    }
  }

  /**
   A frame that fits arrives: every packet is within the smallest buffer, and the bundle a receiver reads from it has
   all live sessions; the set messages of all packets together are the selected contacts, once each and in order.
   */
  lemma FrameReceived(f: Frame, walk: seq<Contact>)
    requires Fits(f, walk) && WellFormed(f.kind, walk) && f.capacity <= MAX_ELEMENT_SIZE
    ensures var groups := Split(f, [], [], walk);
            && Concat(groups) == Selected(walk)
            && forall i :: 0 <= i < |groups| ==>
                 var b := Packets(f, groups)[i];
                 && |b| <= f.capacity
                 && Read(b, 0, |b|).Some? && Reports(f, groups[i], Read(b, 0, |b|).value)
  {
    hide Split, Encode, Read, Frame.Used, Reports;
    var groups := Split(f, [], [], walk);
    SplitCovers(f, [], [], walk);
    SplitFits(f, [], [], walk);
    assert Concat([]) + [] + Selected(walk) == Selected(walk);
    forall i | 0 <= i < |groups|
      ensures var b := Packets(f, groups)[i];
              && |b| <= f.capacity
              && Read(b, 0, |b|).Some? && Reports(f, groups[i], Read(b, 0, |b|).value)
    {
      var b := Packets(f, groups)[i];
      assert groups[i] in groups && b == Encode(f.Packet(groups[i]));
      PacketReadBack(f, groups[i]);
      PacketReports(f, groups[i]);
    }
  }

  /** The selected contacts are those of the list at certain increasing places: the places of the selected ones. */
  lemma {:induction false} SelectedPlaces(cs: seq<Contact>) returns (at: seq<nat>)
    ensures |at| == |Selected(cs)|
    ensures forall i, j :: 0 <= i < j < |at| ==> at[i] < at[j]
    ensures forall i :: 0 <= i < |at| ==> at[i] < |cs| && Selected(cs)[i] == cs[at[i]]
    ensures forall k :: 0 <= k < |cs| ==> (k in at <==> cs[k].selected)
  {
    at := [];
    if cs != [] {
      var n := |cs| - 1;
      assert cs == cs[..n] + [cs[n]];
      SelectedAppend(cs[..n], cs[n]);
      at := SelectedPlaces(cs[..n]);
      if cs[n].selected {
        at := at + [n];
      }
    }
  }

  // ---- the server

  lemma {:induction false} SelectedAppend(cs: seq<Contact>, c: Contact)
    ensures Selected(cs + [c]) == Selected(cs) + (if c.selected then [c] else [])
  {
    var last := if c.selected then [c] else [];
    if cs == [] {
      assert [c][1..] == [] && [] + [c] == [c];
      assert Selected([c]) == last + Selected([c][1..]);
    } else {
      var first := if cs[0].selected then [cs[0]] else [];
      assert (cs + [c])[1..] == cs[1..] + [c] && (cs + [c])[0] == cs[0];
      SelectedAppend(cs[1..], c);
      ContactsAssoc(first, Selected(cs[1..]), last);
    }
  }

  lemma ContactsAssoc(a: seq<Contact>, b: seq<Contact>, c: seq<Contact>)
    ensures a + (b + c) == (a + b) + c
  {}

  // The packet is closed before the next contact is looked at.
  predicate Full(f: Frame, filling: seq<Contact>) {
    f.capacity - f.Used(filling) < MessageSize(f.kind)
  }

  // The group being filled after one more contact.
  function Filling(f: Frame, filling: seq<Contact>, c: Contact): seq<Contact> {
    (if Full(f, filling) then [] else filling) + if c.selected then [c] else []
  }

  predicate TurnFits(f: Frame, filling: seq<Contact>, c: Contact) {
    && (Full(f, filling) ==> f.Used(filling) + FSEQ_SIZE <= f.capacity && f.Used([]) <= f.capacity)
    && (c.selected ==> f.Used(if Full(f, filling) then [] else filling) + SetSize(f.kind) <= f.capacity)
  }

  /** After i contacts without running out of memory: what is known of the group being filled. */
  ghost predicate Progress(f: Frame, walk: seq<Contact>, i: nat, filling: seq<Contact>)
    requires i <= |walk|
  {
    && f.Used([]) <= f.Used(filling) <= f.capacity
    && (filling == [] ==> f.Used(filling) == f.Used([]))
    && (filling != [] ==> Selected(walk[..i]) != [] && f.Used(filling) >= f.Used([]) + SetSize(f.kind))
    && (Fits(f, walk) ==> f.Used(filling) + FSEQ_SIZE <= f.capacity)
    && (f.Used([]) + MessageSize(f.kind) > f.capacity && Selected(walk[..i]) != [] ==> filling != [])
  }

  lemma ProgressStarts(f: Frame, walk: seq<Contact>)
    ensures f.Used([]) <= f.capacity ==> Progress(f, walk, 0, [])
    ensures f.Used([]) > f.capacity ==> !Fits(f, walk)
  {
    hide Frame.Used;
    assert walk[..0] == [];
  }

  // A turn that fits keeps the progress; one that does not fit shows that the frame does not.
  lemma ProgressTurn(f: Frame, walk: seq<Contact>, i: nat, filling: seq<Contact>)
    requires i < |walk| && WellFormed(f.kind, walk) && Progress(f, walk, i, filling)
    ensures TurnFits(f, filling, walk[i]) ==> Progress(f, walk, i + 1, Filling(f, filling, walk[i]))
    ensures !TurnFits(f, filling, walk[i]) ==> !Fits(f, walk)
  {
    hide Frame.Used;
    var c := walk[i];
    assert walk[..i + 1] == walk[..i] + [c] && walk == walk[..i + 1] + walk[i + 1..];
    SelectedAppend(walk[..i], c);
    SelectedPrefix(walk[..i + 1], walk[i + 1..]);
    var group := if Full(f, filling) then [] else filling;
    UsedAppend(f, group, c);
    assert group + [] == group;
  }

  // The last packet can be closed exactly when the frame fits.
  lemma ProgressEnds(f: Frame, walk: seq<Contact>, filling: seq<Contact>)
    requires Progress(f, walk, |walk|, filling)
    ensures f.Used(filling) + FSEQ_SIZE <= f.capacity <==> Fits(f, walk)
  {
    hide Frame.Used;
    assert walk[..|walk|] == walk;
  }

  lemma {:induction false} SelectedPrefix(a: seq<Contact>, b: seq<Contact>)
    ensures Selected(a) != [] ==> Selected(a + b) != []
  {
    if a != [] {
      assert (a + b)[1..] == a[1..] + b;
      SelectedPrefix(a[1..], b);
    }
  }

  // What a frame reports of the contacts: everything on a full update, else what this frame touched.
  function Reported(cs: seq<Contact>, everything: bool): (r: seq<Contact>)
    ensures |r| == |cs|
  {
    seq(|cs|, i requires 0 <= i < |cs| => cs[i].(selected := everything || cs[i].selected))
  }

  // The contacts commitFrame walks over for one profile, if it sends anything for it.
  function Walk(cs: seq<Contact>, update: bool, due: bool, fullUpdate: bool): Option<seq<Contact>> {
    if update then Some(Reported(cs, fullUpdate))
    else if due then Some(if fullUpdate then Reported(cs, true) else [])
    else None
  }

  /** What the server keeps per profile. */
  datatype Profile = Profile(contacts: seq<Contact>, enabled: bool, update: bool, updateTime: Motion.Time)

  const NEW_PROFILE := Profile([], true, false, Motion.Time(0, 0))

  /** When a profile is streamed although nothing changed, and whether with all its contacts. */
  datatype Settings = Settings(periodic: bool, interval: int, full: bool)

  predicate Due(p: Profile, now: Motion.Time, st: Settings) {
    p.enabled && st.periodic && now.Minus(p.updateTime).seconds >= st.interval
  }

  // The frame one profile sends at this time, if any.
  function ProfileWalk(p: Profile, now: Motion.Time, st: Settings): Option<seq<Contact>> {
    Walk(p.contacts, p.update, Due(p, now, st), st.full)
  }

  predicate ProfileFits(f: Frame, p: Profile, now: Motion.Time, st: Settings) {
    match ProfileWalk(p, now, st)
    case None => true
    case Some(walk) => Fits(f, walk)
  }

  function ProfilePackets(f: Frame, p: Profile, now: Motion.Time, st: Settings): seq<seq<Byte>> {
    match ProfileWalk(p, now, st)
    case None => []
    case Some(walk) => Packets(f, Split(f, [], [], walk))
  }

  // A profile after its part of the frame: nothing is pending, and what was sent is on time.
  function Committed(p: Profile, now: Motion.Time, st: Settings): Profile {
    p.(update := false, updateTime := if ProfileWalk(p, now, st).Some? then now else p.updateTime)
  }

  /** Whether this commit sends anything for the profile. */
  predicate Sends(p: Profile, now: Motion.Time, st: Settings) {
    || p.update
    || (p.enabled && st.periodic
        && now.TotalMicroseconds() - p.updateTime.TotalMicroseconds() >= st.interval * 1_000_000)
  }

  lemma SendsWhenDue(p: Profile, now: Motion.Time, st: Settings)
    requires now.Normal() && p.updateTime.Normal()
    ensures ProfileWalk(p, now, st).Some? <==> Sends(p, now, st)
  {
    Motion.ElapsedIsFloor(p.updateTime, now);
  }

  /**
   What a commit tells a receiver about one profile: nothing exactly if nothing changed and nothing is due; else all
   live sessions, and the state of the contacts this frame touched if something changed, of all on full updates, of none
   on a mere reminder. Every session with a state is also listed as alive.
   */
  lemma ProfileReceived(f: Frame, p: Profile, now: Motion.Time, st: Settings)
    returns (groups: seq<seq<Contact>>, at: seq<nat>)
    requires now.Normal() && p.updateTime.Normal()
    requires f.live == p.contacts && WellFormed(f.kind, p.contacts) && f.capacity <= MAX_ELEMENT_SIZE
    requires ProfileFits(f, p, now, st)
    ensures ProfilePackets(f, p, now, st) == [] <==> !Sends(p, now, st)
    ensures |groups| == |ProfilePackets(f, p, now, st)|
    ensures forall i :: 0 <= i < |groups| ==>
              var b := ProfilePackets(f, p, now, st)[i];
              && |b| <= f.capacity
              && Read(b, 0, |b|).Some? && Reports(f, groups[i], Read(b, 0, |b|).value)
    ensures |at| == |Concat(groups)|
    ensures forall i, j :: 0 <= i < j < |at| ==> at[i] < at[j]
    ensures forall i :: 0 <= i < |at| ==>
              at[i] < |p.contacts| && Concat(groups)[i] == p.contacts[at[i]].(selected := true)
    ensures Sends(p, now, st) ==>
              forall k :: 0 <= k < |p.contacts| ==> (k in at <==> st.full || (p.update && p.contacts[k].selected))
  {
    hide Split, Read, Reports, Fits;
    SendsWhenDue(p, now, st);
    groups, at := [], [];
    match ProfileWalk(p, now, st)
    case None =>
    case Some(walk) =>
      groups := Split(f, [], [], walk);
      SplitSome(f, [], [], walk);
      FrameReceived(f, walk);
      at := SelectedPlaces(walk);
      assert forall i :: 0 <= i < |at| ==> walk[at[i]].selected by {
        assert forall i :: 0 <= i < |at| ==> at[i] in at;
      }
  }

  // The packets sent so far are the first of all.
  lemma {:induction false} SplitBegins(f: Frame, sent: seq<seq<Contact>>, filling: seq<Contact>, walk: seq<Contact>)
    ensures var groups := Split(f, sent, filling, walk);
            && sent <= groups && (walk != [] && Full(f, filling) ==> sent + [filling] <= groups)
    decreases |walk|
  {
    hide Full, Filling;
    if walk != [] {
      SplitBegins(f, if Full(f, filling) then sent + [filling] else sent, Filling(f, filling, walk[0]), walk[1..]);
    }
  }

  // `now` is `before` and the first packets of `all`.
  predicate Begun(before: seq<seq<Byte>>, now: seq<seq<Byte>>, all: seq<seq<Byte>>) {
    before <= now <= before + all
  }

  lemma BegunMore(before: seq<seq<Byte>>, now: seq<seq<Byte>>, a: seq<seq<Byte>>, b: seq<seq<Byte>>)
    requires Begun(before, now, a)
    ensures Begun(before, now, a + b)
  {
    assert before + (a + b) == (before + a) + b;
  }

  lemma BegunThen(before: seq<seq<Byte>>, now: seq<seq<Byte>>, a: seq<seq<Byte>>, b: seq<seq<Byte>>)
    requires Begun(before + a, now, b)
    ensures Begun(before, now, a + b)
  {
    assert before + (a + b) == (before + a) + b;
  }

  lemma PacketsBegin(f: Frame, sent: seq<seq<Contact>>, groups: seq<seq<Contact>>, before: seq<seq<Byte>>)
    requires sent <= groups
    ensures Begun(before, before + Packets(f, sent), Packets(f, groups))
  {
    assert Packets(f, groups)[..|sent|] == Packets(f, sent);
  }

  lemma {:induction false} SplitSome(f: Frame, sent: seq<seq<Contact>>, filling: seq<Contact>, walk: seq<Contact>)
    ensures Split(f, sent, filling, walk) != []
    decreases |walk|
  {
    hide Full, Filling;
    if walk != [] {
      SplitSome(f, if Full(f, filling) then sent + [filling] else sent, Filling(f, filling, walk[0]), walk[1..]);
    }
  }

  /**
   After a commit nothing is pending, and the profile stays silent until the interval has passed since the last time it
   was sent.
   */
  lemma SilentUntilDue(p: Profile, now: Motion.Time, later: Motion.Time, st: Settings)
    requires now.Normal() && later.Normal() && p.updateTime.Normal()
    ensures var last := if Sends(p, now, st) then now else p.updateTime;
            var p' := Committed(p, now, st);
            && p'.contacts == p.contacts && p'.enabled == p.enabled && !p'.update && p'.updateTime == last
            && (ProfileWalk(p', later, st).Some? <==>
                  p.enabled && st.periodic
                  && later.TotalMicroseconds() - last.TotalMicroseconds() >= st.interval * 1_000_000)
  {
    SendsWhenDue(p, now, st);
    SendsWhenDue(Committed(p, now, st), later, st);
  }

  class Server {
    const oscBuffer: array<Byte>
    var oscPacket: OutboundPacketStream
    var senderList: seq<nat>         // the senders' buffer sizes
    var sourceName: CString
    var delivered: seq<seq<Byte>>    // every packet handed to the senders, in order
    var objects: Profile
    var cursors: Profile
    var blobs: Profile
    var settings: Settings

    // The packet capacity is the smallest sender's buffer, so no sender refuses a packet for its size.
    ghost predicate Valid()
      reads this`oscPacket, this`senderList, oscPacket, oscPacket.data
    {
      && oscPacket.Valid() && oscPacket.data == oscBuffer
      && (forall s :: s in senderList ==> oscPacket.capacity <= s)
      && oscPacket.capacity in senderList
    }

    constructor (bufferSize: nat, source: CString)
      requires bufferSize <= 0x7FFF_FFFF
      ensures Valid() && fresh(oscPacket) && fresh(oscBuffer)
      ensures senderList == [bufferSize] && sourceName == source && delivered == []
      ensures forall p :: p in [objects, cursors, blobs] ==> p.contacts == [] && p.enabled && !p.update
      ensures !settings.periodic && !settings.full && settings.interval == 1
    {
      senderList := [bufferSize];
      var buffer := new Byte[bufferSize];
      oscBuffer := buffer;
      oscPacket := new OutboundPacketStream(buffer, bufferSize);
      sourceName := source;
      delivered := [];
      objects, cursors, blobs := NEW_PROFILE, NEW_PROFILE, NEW_PROFILE;
      settings := Settings(false, 1, false);
    }

    /** A smaller sender shrinks the packet: a new stream over the same buffer. */
    method AddOscSender(size: nat)
      requires Valid()
      modifies this`oscPacket, this`senderList
      ensures Valid()
      ensures senderList == old(senderList) + [size]
      ensures oscPacket.capacity == if size < old(oscPacket.capacity) then size else old(oscPacket.capacity)
    {
      if size < oscPacket.capacity {
        oscPacket := new OutboundPacketStream(oscBuffer, size);
      }
      senderList := senderList + [size];
    }

    ghost predicate Holds(f: Frame, group: seq<Contact>)
      reads this, oscPacket
    {
      oscPacket.doc == Doc([], [OscDocument.Frame(1, f.Body(group))], NoMessage, NONE)
    }

    ghost predicate ForThis(f: Frame)
      reads this, oscPacket
    {
      f.capacity == oscPacket.capacity && f.source == sourceName
    }

    static lemma DocSize(es: seq<Element>)
      ensures OscDocument.Size(Doc([], [OscDocument.Frame(1, es)], NoMessage, NONE)) == 16 + |EncodeSized(es)|
    {
      var fs := [OscDocument.Frame(1, es)];
      assert fs[..0] == [];
      assert Closed([], fs[..0]) == EncodeAll([]) == [];
    }

    // What the stream has left is what the split reckons with.
    static lemma UsedIsSize(f: Frame, group: seq<Contact>)
      ensures OscDocument.Size(Doc([], [OscDocument.Frame(1, f.Body(group))], NoMessage, NONE)) == f.Used(group)
    {
      DocSize(f.Body(group));
    }

    /** Opens the bundle with the source and alive messages. */
    method StartBundle(f: Frame) returns (st: Status)
      requires Valid() && ForThis(f)
      modifies oscPacket, oscBuffer
      ensures Valid()
      ensures st == if f.Used([]) <= f.capacity then Done else OutOfBufferMemory
      ensures st == Done ==> Holds(f, [])
    {
      hide Encode, RunOps, SourceMessage, AliveMessage, Closed, Head, OscDocument.Size;
      oscPacket.Clear();
      EmptyHeader(f);
      EmptySize();
      BeginBundleSize(EMPTY, 1);
      NeededIsSize(EMPTY, Op.BeginBundle(1));
      st := oscPacket.BeginBundle(1);
      if st != Done { return; }
      DocSize([]);
      assert oscPacket.doc == Doc([], [OscDocument.Frame(1, [])], NoMessage, NONE);
      if sourceName != [] {
        st := oscPacket.Write(SourceMessage(f.kind, sourceName));
        if st != Done { return; }
        DocSize([SourceMessage(f.kind, sourceName)]);
        assert oscPacket.doc == Doc([], [OscDocument.Frame(1, [SourceMessage(f.kind, sourceName)])], NoMessage, NONE);
      }
      st := oscPacket.Write(AliveMessage(f.kind, f.live));
    }

    static lemma EmptySize()
      ensures OscDocument.Size(EMPTY) == 0
    {}

    // How the header grows out of nothing.
    static lemma EmptyHeader(f: Frame)
      ensures EncodeSized([]) == []
      ensures [] + [SourceMessage(f.kind, f.source)] == [SourceMessage(f.kind, f.source)]
      ensures [] + [AliveMessage(f.kind, f.live)] == [AliveMessage(f.kind, f.live)]
      ensures f.Body([]) == f.Header()
      ensures |EncodeSized([SourceMessage(f.kind, f.source)])| == 4 + |Encode(SourceMessage(f.kind, f.source))|
      ensures |EncodeSized(f.Header())| ==
              (if f.source != [] then 4 + |Encode(SourceMessage(f.kind, f.source))| else 0)
              + 4 + |Encode(AliveMessage(f.kind, f.live))|
    {
      hide Encode, SourceMessage, AliveMessage;
      var s, a := SourceMessage(f.kind, f.source), AliveMessage(f.kind, f.live);
      assert Sets(f.kind, []) == [];
      EncodeSizedAppend([], s);
      EncodeSizedAppend([], a);
      EncodeSizedAppend([s], a);
      assert [] + [s] == [s] && [] + [a] == [a] && [s] + [a] == [s, a];
    }

    method AddMessage(f: Frame, ghost group: seq<Contact>, c: Contact) returns (st: Status)
      requires Valid() && ForThis(f) && Holds(f, group) && |c.values| == ValueCount(f.kind)
      modifies oscPacket, oscBuffer
      ensures Valid()
      ensures st == if f.Used(group) + SetSize(f.kind) <= f.capacity then Done else OutOfBufferMemory
      ensures st == Done ==> Holds(f, group + [c])
    {
      hide Encode, RunOps, SetMessage, Closed;
      DocSize(f.Body(group));
      SetSizeExact(f.kind, c);
      UsedAppend(f, group, c);
      st := oscPacket.Write(SetMessage(f.kind, c));
    }

    /** Adds the fseq message, closes the bundle and hands it to every sender. */
    method SendBundle(f: Frame, ghost group: seq<Contact>) returns (st: Status)
      requires Valid() && ForThis(f) && Holds(f, group)
      modifies this`delivered, oscPacket, oscBuffer
      ensures Valid()
      ensures st == if f.Used(group) + FSEQ_SIZE <= f.capacity then Done else OutOfBufferMemory
      ensures delivered == if st == Done then old(delivered) + [Encode(f.Packet(group))] else old(delivered)
    {
      hide Encode, RunOps, FseqMessage, Closed;
      DocSize(f.Body(group));
      FseqSizeExact(f.kind, f.fseq);
      st := oscPacket.Write(FseqMessage(f.kind, f.fseq));
      if st != Done { return; }
      ghost var closing := oscPacket.doc;
      EndKeepsSize(closing, Op.EndBundle);
      var closed := oscPacket.EndBundle();
      EncodeOne(f.Packet(group));
      delivered := delivered + [oscPacket.Packet()];
    }

    static lemma EncodeOne(e: Element)
      ensures EncodeAll([e]) == Encode(e)
      ensures [] + [e] == [e]
    {
      assert [e][1..] == [];
      assert EncodeAll([e]) == Encode(e) + EncodeAll([e][1..]);
    }

    /** One turn of the loop: a new packet if this one may not hold another set message, then a selected contact. */
    method VisitContact(f: Frame, ghost filling: seq<Contact>, c: Contact) returns (st: Status)
      requires Valid() && ForThis(f) && Holds(f, filling) && |c.values| == ValueCount(f.kind)
      modifies this`delivered, oscPacket, oscBuffer
      ensures Valid()
      ensures st == Done <==> TurnFits(f, filling, c)
      ensures st == Done ==> Holds(f, Filling(f, filling, c))
      ensures st == Done ==> delivered == old(delivered) + if Full(f, filling) then [Encode(f.Packet(filling))] else []
      ensures || delivered == old(delivered)
              || (Full(f, filling) && delivered == old(delivered) + [Encode(f.Packet(filling))])
    {
      hide Encode, Frame.Used, Frame.Packet, Frame.Body, SetMessage;
      UsedIsSize(f, filling);
      ghost var group := filling;
      if oscPacket.capacity - oscPacket.Size() < MessageSize(f.kind) {
        st := SendBundle(f, filling);
        if st != Done { return; }
        st := StartBundle(f);
        if st != Done { return; }
        group := [];
      }
      if c.selected {
        st := AddMessage(f, group, c);
      } else {
        st := Done;
      }
      assert Filling(f, filling, c) == if c.selected then group + [c] else group;
    }

    /**
     One profile of a frame. It completes exactly when the frame fits, and then has delivered the packets of
     the split; else it has delivered some first ones of them and nothing else.
     */
    method SendFrame(f: Frame, walk: seq<Contact>) returns (ok: bool)
      requires Valid() && ForThis(f) && WellFormed(f.kind, walk)
      modifies this`delivered, oscPacket, oscBuffer
      ensures Valid()
      ensures ok <==> Fits(f, walk)
      ensures ok ==> delivered == old(delivered) + Packets(f, Split(f, [], [], walk))
      ensures Begun(old(delivered), delivered, Packets(f, Split(f, [], [], walk)))
    {
      hide Encode, Frame.Used, Frame.Packet, Frame.Body, SetMessage, TurnFits, Progress, Fits, Valid, Holds, Packets;
      var st := StartBundle(f);
      ProgressStarts(f, walk);
      if st != Done { return false; }
      ghost var sent: seq<seq<Contact>> := [];
      ghost var filling: seq<Contact> := [];
      var i := 0;
      while i < |walk|
        invariant 0 <= i <= |walk|
        invariant Valid() && ForThis(f) && Holds(f, filling)
        invariant oscPacket == old(oscPacket)
        invariant Split(f, sent, filling, walk[i..]) == Split(f, [], [], walk)
        invariant delivered == old(delivered) + Packets(f, sent)
        invariant Progress(f, walk, i, filling)
      {
        assert walk[i..][0] == walk[i] && walk[i..][1..] == walk[i + 1..];
        ProgressTurn(f, walk, i, filling);
        SplitBegins(f, sent, filling, walk[i..]);
        PacketsAppend(f, sent, filling);
        PacketsBegin(f, sent, Split(f, [], [], walk), old(delivered));
        if Full(f, filling) {
          PacketsBegin(f, sent + [filling], Split(f, [], [], walk), old(delivered));
        }
        st := VisitContact(f, filling, walk[i]);
        if st != Done { return false; }
        sent, filling := if Full(f, filling) then sent + [filling] else sent, Filling(f, filling, walk[i]);
        i := i + 1;
      }
      assert walk[i..] == [];
      ProgressEnds(f, walk, filling);
      PacketsBegin(f, sent, Split(f, [], [], walk), old(delivered));
      st := SendBundle(f, filling);
      if st != Done { return false; }
      PacketsAppend(f, sent, filling);
      return true;
    }

    // The part of commitFrame for one profile; in `selected` its contacts say whether this frame touched them.
    method CommitProfile(kind: Kind, p: Profile, now: Motion.Time, currentFrame: uint32) returns (ok: bool, p': Profile)
      requires Valid() && WellFormed(kind, p.contacts)
      modifies this`delivered, oscPacket, oscBuffer
      ensures Valid()
      ensures var f := Frame.Frame(kind, sourceName, p.contacts, oscPacket.capacity, currentFrame);
              && (ok <==> ProfileFits(f, p, now, settings))
              && (ok ==>
                   && delivered == old(delivered) + ProfilePackets(f, p, now, settings)
                   && p' == Committed(p, now, settings))
              && Begun(old(delivered), delivered, ProfilePackets(f, p, now, settings))
    {
      hide Fits, Split, Packets;
      p' := p;
      var f := Frame.Frame(kind, sourceName, p.contacts, oscPacket.capacity, currentFrame);
      if p.update {
        p' := p'.(updateTime := now);
        ok := SendFrame(f, Reported(p.contacts, settings.full));
      } else if p.enabled && settings.periodic {
        var timeCheck := now.Minus(p.updateTime);
        if timeCheck.seconds >= settings.interval {
          p' := p'.(updateTime := now);
          ok := SendFrame(f, if settings.full then Reported(p.contacts, true) else []);
        } else {
          ok := true;
        }
      } else {
        ok := true;
      }
      p' := p'.(update := false);
    }

    /**
     commitFrame: objects, cursors, blobs, in this order. It fails exactly if one of them does not fit, having delivered
     some first ones of the packets due; otherwise it has delivered all of them, nothing is pending, and their clocks
     are set.
     */
    method CommitFrame(now: Motion.Time, currentFrame: uint32) returns (ok: bool)
      requires Valid()
      requires WellFormed(Object, objects.contacts) && WellFormed(Cursor, cursors.contacts)
      requires WellFormed(Kind.Blob, blobs.contacts)
      modifies this`delivered, this`objects, this`cursors, this`blobs, oscPacket, oscBuffer
      ensures Valid()
      ensures var o, c, b := old(objects), old(cursors), old(blobs);
              var fo := Frame.Frame(Object, sourceName, o.contacts, oscPacket.capacity, currentFrame);
              var fc := Frame.Frame(Cursor, sourceName, c.contacts, oscPacket.capacity, currentFrame);
              var fb := Frame.Frame(Kind.Blob, sourceName, b.contacts, oscPacket.capacity, currentFrame);
              && (ok <==>
                    && ProfileFits(fo, o, now, settings) && ProfileFits(fc, c, now, settings)
                    && ProfileFits(fb, b, now, settings))
              && var all := ProfilePackets(fo, o, now, settings) + ProfilePackets(fc, c, now, settings)
                            + ProfilePackets(fb, b, now, settings);
              && Begun(old(delivered), delivered, all)
              && (ok ==>
                   && delivered == old(delivered) + all
                   && objects == Committed(o, now, settings) && cursors == Committed(c, now, settings)
                   && blobs == Committed(b, now, settings))
    {
      hide ProfileFits, ProfilePackets, Committed, Begun, WellFormed, Valid, OutboundPacketStream.Valid;
      ghost var before := delivered;
      ghost var f := Frame.Frame(Object, sourceName, objects.contacts, oscPacket.capacity, currentFrame);
      ghost var a := ProfilePackets(f, objects, now, settings);
      f := Frame.Frame(Cursor, sourceName, cursors.contacts, oscPacket.capacity, currentFrame);
      ghost var b := ProfilePackets(f, cursors, now, settings);
      f := Frame.Frame(Kind.Blob, sourceName, blobs.contacts, oscPacket.capacity, currentFrame);
      ghost var c := ProfilePackets(f, blobs, now, settings);
      var p;
      ok, p := CommitProfile(Object, objects, now, currentFrame);
      if !ok {
        BegunMore(before, delivered, a, b);
        BegunMore(before, delivered, a + b, c);
        return;
      }
      objects := p;
      ok, p := CommitProfile(Cursor, cursors, now, currentFrame);
      if !ok {
        BegunThen(before, delivered, a, b);
        BegunMore(before, delivered, a + b, c);
        return;
      }
      cursors := p;
      assert before + a + b == before + (a + b);
      ok, p := CommitProfile(Kind.Blob, blobs, now, currentFrame);
      BegunThen(before, delivered, a + b, c);
      if !ok { return; }
      blobs := p;
      assert before + (a + b) + c == before + (a + b + c);
    }

    static lemma PacketsAppend(f: Frame, groups: seq<seq<Contact>>, g: seq<Contact>)
      ensures Packets(f, groups + [g]) == Packets(f, groups) + [Encode(f.Packet(g))]
    {}
  }
}
