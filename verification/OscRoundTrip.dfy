/**
 Reading a packet through the parser, element by element and argument by argument, and the law that ties it
 to the encoding: what was written comes back, exactly on the trees the parser can tell apart.
 */
module OscRoundTrip {
  import opened Bytes
  import opened Wrappers
  import opened OscFormat
  import opened OscReceived

  // ---- reading with the parser

  // The C string at p.
  function CStringAt(m: seq<Byte>, p: nat): (s: CString)
    requires p <= |m|
    decreases |m| - p
  {
    if p == |m| || m[p] == 0 then [] else [m[p]] + CStringAt(m, p + 1)
  }

  // The argument under the iterator, through the accessor its tag asks for.
  function ArgumentAt(m: seq<Byte>, at: Position): Option<Arg> {
    if at.typeTagPtr >= |m| then None
    else
      var tag, p := m[at.typeTagPtr], at.argumentPtr;
      if IsFlagTag(tag) then Some(Flag(tag))
      else if IsWordTag(tag) then if p + 4 <= |m| then Some(Word(tag, ToUInt32(m, p))) else None
      else if IsLongTag(tag) then if p + 8 <= |m| then Some(Long(tag, ToUInt64(m, p))) else None
      else if IsTextTag(tag) then if p <= |m| then Some(Text(tag, CStringAt(m, p))) else None
      else if tag == BLOB_TAG && p + 4 <= |m| then
        var size := ToUInt32(m, p);
        if size <= MAX_ELEMENT_SIZE && p + 4 + size <= |m| then Some(Blob(m[p + 4..p + 4 + size])) else None
      else None
  }

  function ReadArguments(m: seq<Byte>, at: Position, typeTagsEnd: nat, end: nat): Option<seq<Arg>>
    requires end <= |m| && Aligned(at.argumentPtr, end)
    decreases typeTagsEnd - at.typeTagPtr
  {
    if at.typeTagPtr >= typeTagsEnd then Some([])
    else match ArgumentAt(m, at)
      case None => None
      case Some(a) =>
        match Advanced(m, at, end)
        case None => None
        case Some(next) =>
          if next.typeTagPtr <= at.typeTagPtr then None
          else match ReadArguments(m, next, typeTagsEnd, end)
            case None => None
            case Some(rest) => Some([a] + rest)
  }

  function ReadMessage(m: seq<Byte>, p: nat, size: nat): Option<Element>
    requires p + size <= |m|
  {
    match MessageInit(m, p, size)
    case Ok(NoTypeTags) => Some(Element.Message(CStringAt(m, p), []))
    case Ok(TypeTags(begin, end, arguments)) =>
      if Aligned(arguments, p + size) then
        match ReadArguments(m, Position(begin, arguments), end, p + size)
        case None => None
        case Some(args) => Some(Element.Message(CStringAt(m, p), args))
      else None
    case _ => None
  }

  /** An element read the way a packet listener does: bundles recurse over the element iterator. */
  function Read(m: seq<Byte>, p: nat, size: nat): Option<Element>
    requires p + size <= |m|
    decreases size, 1
  {
    if !IsBundle(m, p, size) then ReadMessage(m, p, size)
    else if !BundleInit(m, p, size).Ok? then None
    else match ReadElements(m, p + 16, p + size)
      case None => None
      case Some(es) => Some(Element.Bundle(ToUInt64(m, p + 8), es))
  }

  function ReadElements(m: seq<Byte>, sizePtr: nat, end: nat): Option<seq<Element>>
    requires sizePtr <= end <= |m|
    decreases end - sizePtr, 0
  {
    if sizePtr == end then Some([])
    else if sizePtr + 4 > end || ElementSize(m, sizePtr) < 0 || sizePtr + 4 + ElementSize(m, sizePtr) > end then None
    else
      var size := ElementSize(m, sizePtr);
      match Read(m, sizePtr + 4, size)
      case None => None
      case Some(e) =>
        match ReadElements(m, sizePtr + 4 + size, end)
        case None => None
        case Some(rest) => Some([e] + rest)
  }

  // ---- what can be told apart

  // Opening minus closing brackets; the parser counts them and does not look at nesting.
  function Level(args: seq<Arg>): int {
    if args == [] then 0
    else (if args[0].Tag() == ARRAY_BEGIN then 1 else if args[0].Tag() == ARRAY_END then -1 else 0) + Level(args[1..])
  }

  predicate Readable(e: Element) {
    match e
    case Message(address, args) => (address == [] || address[0] != HASH) && Level(args) == 0
    case Bundle(_, elements) => forall c :: c in elements ==> Readable(c)
  }

  // ---- strings

  lemma {:induction false} GroupEndOfString(m: seq<Byte>, p: nat, end: nat, s: CString)
    requires s != [] && p + |Str4(s)| <= end <= |m| && Aligned(p, end)
    requires m[p..p + |Str4(s)|] == Str4(s)
    ensures GroupEnd(m, p, end) == Some(p + |Str4(s)|)
    decreases |s|
  {
    Gap(p, end);
    assert m[p + 3] == m[p..p + |Str4(s)|][3];
    if |s| >= 4 {
      assert m[p + 3] == s[3] && s[3] in s;
      assert RoundUp4(|s| + 1) == 4 + RoundUp4(|s[4..]| + 1);
      assert Str4(s)[4..] == Str4(s[4..]);
      assert m[p + 4..p + 4 + |Str4(s[4..])|] == m[p..p + |Str4(s)|][4..];
      Step(p, 4, end);
      if s[4..] == [] {
        assert Str4([]) == [0, 0, 0, 0];
        assert m[p + 7] == m[p + 4..p + 4 + |Str4(s[4..])|][3];
      } else {
        GroupEndOfString(m, p + 4, end, s[4..]);
      }
    }
  }

  /** The scanner finds the end of every string as it is written, the empty one included. */
  lemma EndOfString(m: seq<Byte>, p: nat, end: nat, s: CString)
    requires p + |Str4(s)| <= end <= |m| && Aligned(p, end)
    requires m[p..p + |Str4(s)|] == Str4(s)
    ensures Str4End(m, p, end) == Some(p + |Str4(s)|)
  {
    assert m[p] == m[p..p + |Str4(s)|][0];
    if s != [] {
      assert m[p] == s[0] && s[0] in s;
      GroupEndOfString(m, p, end, s);
    }
  }

  lemma {:induction false} ReadString(m: seq<Byte>, p: nat, s: CString)
    requires p + |s| < |m| && m[p..p + |s|] == s && m[p + |s|] == 0
    ensures CStringAt(m, p) == s
    decreases |s|
  {
    if s != [] {
      assert m[p] == s[0] && s[0] in s;
      assert m[p + 1..p + 1 + |s[1..]|] == s[1..];
      ReadString(m, p + 1, s[1..]);
    }
  }

  lemma ReadStr4(m: seq<Byte>, p: nat, s: CString)
    requires p + |Str4(s)| <= |m| && m[p..p + |Str4(s)|] == Str4(s)
    ensures CStringAt(m, p) == s
  {
    var b := m[p..p + |Str4(s)|];
    assert m[p..p + |s|] == b[..|s|];
    assert m[p + |s|] == b[|s|] == 0;
    ReadString(m, p, s);
  }

  // ---- arguments

  /** One written argument: the constructor, the iterator and the accessor all agree with what was written. */
  lemma ArgumentReadBack(m: seq<Byte>, tag: nat, p: nat, end: nat, a: Arg)
    requires tag < |m| && m[tag] == a.Tag()
    requires p + |a.Payload()| <= end <= |m| && Aligned(p, end) && end <= p + MAX_ELEMENT_SIZE
    requires m[p..p + |a.Payload()|] == a.Payload()
    ensures ArgumentEnd(m, m[tag], p, end) == Ok(p + |a.Payload()|)
    ensures Advanced(m, Position(tag, p), end) == Some(Position(tag + 1, p + |a.Payload()|))
    ensures ArgumentAt(m, Position(tag, p)) == Some(a)
  {
    hide ToUInt32, ToUInt64, BE32, BE64, CStringAt, Str4End, Str4, RoundUp4In32, RoundUp4;
    match a {
      case Flag(_) =>
      case Word(_, v) => ReadBE32(m, p, v);
      case Long(_, v) => ReadBE64(m, p, v);
      case Text(_, s) =>
        EndOfString(m, p, end, s);
        ReadStr4(m, p, s);
      case Blob(s) => BlobReadBack(m, p, s);
    }
  }

  lemma BlobReadBack(m: seq<Byte>, p: nat, s: seq<Byte>)
    requires p + |Blob(s).Payload()| <= |m| && |Blob(s).Payload()| <= MAX_ELEMENT_SIZE
    requires m[p..p + |Blob(s).Payload()|] == Blob(s).Payload()
    ensures ToUInt32(m, p) == |s| && RoundUp4In32(|s|) == RoundUp4(|s|)
    ensures m[p + 4..p + 4 + |s|] == s
  {
    hide BE32, ToUInt32, RoundUp4;
    var head, zeros := BE32(|s|), Zeros(RoundUp4(|s|) - |s|);
    Part(m, p, Blob(s).Payload(), head + s, zeros);
    Part(m, p, head + s, head, s);
    ReadBE32(m, p, |s|);
    NoWrap(|s|);
  }

  lemma NoWrap(n: uint32)
    requires n <= MAX_ELEMENT_SIZE
    ensures RoundUp4In32(n) == RoundUp4(n)
  {}

  lemma PayloadAligned(a: Arg)
    ensures |a.Payload()| % 4 == 0
  {
    hide RoundUp4, BE32, BE64, Str4, Zeros;
    match a {
      case Text(_, s) => RoundUp4Multiple(|s| + 1);
      case Blob(b) =>
        RoundUp4Multiple(|b|);
        Sum4(4, RoundUp4(|b|));
      case _ =>
    }
  }

  lemma {:induction false} PayloadsAligned(args: seq<Arg>)
    ensures |Payloads(args)| % 4 == 0
  {
    if args != [] {
      PayloadAligned(args[0]);
      PayloadsAligned(args[1..]);
      Sum4(|args[0].Payload()|, |Payloads(args[1..])|);
    }
  }

  lemma PayloadsSplit(args: seq<Arg>)
    requires args != []
    ensures Payloads(args) == args[0].Payload() + Payloads(args[1..])
  {}

  // A slice of a slice, for walking along an encoding.
  lemma Part(m: seq<Byte>, p: nat, whole: seq<Byte>, a: seq<Byte>, b: seq<Byte>)
    requires p + |whole| <= |m| && m[p..p + |whole|] == whole && whole == a + b
    ensures m[p..p + |a|] == a
    ensures m[p + |a|..p + |whole|] == b
  {
    assert m[p..p + |a|] == m[p..p + |whole|][..|a|];
    assert m[p + |a|..p + |whole|] == m[p..p + |whole|][|a|..];
  }

  lemma FirstTag(m: seq<Byte>, tag: nat, args: seq<Arg>)
    requires args != [] && tag + |args| <= |m| && m[tag..tag + |args|] == Tags(args)
    ensures m[tag] == args[0].Tag()
    ensures m[tag + 1..tag + |args|] == Tags(args[1..])
  {
    assert m[tag] == m[tag..tag + |args|][0];
    assert m[tag + 1..tag + |args|] == m[tag..tag + |args|][1..];
  }

  lemma LevelStep(level: int, args: seq<Arg>)
    requires args != []
    ensures level + Level(args) == LevelAfter(args[0].Tag(), level) + Level(args[1..])
  {}

  // The step every argument takes, and where it leaves the rest.
  lemma FirstArgument(m: seq<Byte>, tag: nat, p: nat, end: nat, args: seq<Arg>)
    requires args != [] && tag + |args| <= |m| && m[tag..tag + |args|] == Tags(args)
    requires p + |Payloads(args)| == end <= |m| && m[p..end] == Payloads(args)
    requires Aligned(p, end) && end <= p + MAX_ELEMENT_SIZE
    ensures var next := p + |args[0].Payload()|;
            && m[tag] == args[0].Tag() && m[tag + 1..tag + |args|] == Tags(args[1..])
            && next + |Payloads(args[1..])| == end && m[next..end] == Payloads(args[1..]) && Aligned(next, end)
            && ArgumentEnd(m, m[tag], p, end) == Ok(next)
            && Advanced(m, Position(tag, p), end) == Some(Position(tag + 1, next))
            && ArgumentAt(m, Position(tag, p)) == Some(args[0])
  {
    hide ArgumentEnd, Tags, Payloads, Advanced, ArgumentAt, Arg.Payload, Arg.Tag, Aligned;
    FirstTag(m, tag, args);
    PayloadsSplit(args);
    PayloadAligned(args[0]);
    Step(p, |args[0].Payload()|, end);
    Part(m, p, Payloads(args), args[0].Payload(), Payloads(args[1..]));
    ArgumentReadBack(m, tag, p, end, args[0]);
  }

  lemma {:induction false} ArgumentsScanned(m: seq<Byte>, tag: nat, p: nat, end: nat, level: int, args: seq<Arg>)
    requires args != [] && tag + |args| < |m| && m[tag..tag + |args|] == Tags(args) && m[tag + |args|] == 0
    requires p + |Payloads(args)| == end <= |m| && m[p..end] == Payloads(args)
    requires Aligned(p, end) && end <= p + MAX_ELEMENT_SIZE
    ensures ScanArguments(m, tag, p, end, level) == Ok(Scan(tag + |args|, end, level + Level(args)))
    decreases |args|
  {
    hide ArgumentEnd, Aligned, Tags, Payloads, Level, LevelAfter, Advanced, ArgumentAt, Arg.Payload, Arg.Tag;
    FirstArgument(m, tag, p, end, args);
    LevelStep(level, args);
    var next := p + |args[0].Payload()|;
    if |args| == 1 {
      NothingLeft(args[1..]);
    } else {
      FirstTag(m, tag + 1, args[1..]);
      ArgumentsScanned(m, tag + 1, next, end, LevelAfter(m[tag], level), args[1..]);
    }
  }

  lemma NothingLeft(args: seq<Arg>)
    requires args == []
    ensures Payloads(args) == [] && Level(args) == 0
  {}

  lemma {:induction false} ArgumentsReadBack(m: seq<Byte>, tag: nat, p: nat, end: nat, args: seq<Arg>)
    requires tag + |args| < |m| && m[tag..tag + |args|] == Tags(args)
    requires p + |Payloads(args)| == end <= |m| && m[p..end] == Payloads(args)
    requires Aligned(p, end) && end <= p + MAX_ELEMENT_SIZE
    ensures ReadArguments(m, Position(tag, p), tag + |args|, end) == Some(args)
    decreases |args|
  {
    hide ArgumentEnd, Aligned, Tags, Payloads, Advanced, ArgumentAt;
    if args != [] {
      FirstArgument(m, tag, p, end, args);
      ArgumentsReadBack(m, tag + 1, p + |args[0].Payload()|, end, args[1..]);
      assert args == [args[0]] + args[1..];
    }
  }

  lemma {:induction false} LevelBound(args: seq<Arg>)
    ensures -|args| <= Level(args) <= |args|
  {
    if args != [] {
      LevelBound(args[1..]);
    }
  }

  lemma {:induction false} TagsNoNul(args: seq<Arg>)
    ensures NoNul([COMMA] + Tags(args))
  {
    forall i | 0 <= i < |args|
      ensures Tags(args)[i] != 0
    {
      assert Tags(args)[i] == args[i].Tag();
    }
  }

  // ---- messages

  // The three parts of a message and where they stand.
  lemma MessageParts(m: seq<Byte>, p: nat, address: CString, args: seq<Arg>)
    requires var b := Encode(Element.Message(address, args)); p + |b| <= |m| && m[p..p + |b|] == b
    ensures var t := p + |Str4(address)|; var a := t + |TagString(args)|; var end := a + |Payloads(args)|;
            && end == p + |Encode(Element.Message(address, args))|
            && m[p..t] == Str4(address) && m[t..a] == TagString(args) && m[a..end] == Payloads(args)
            && Aligned(p, end) && Aligned(t, end) && Aligned(a, end)
  {
    hide Str4, TagString, Payloads, Aligned;
    var b, x, y, z := Encode(Element.Message(address, args)), Str4(address), TagString(args), Payloads(args);
    Assoc(x, y, z);
    Part(m, p, b, x, y + z);
    Part(m, p + |x|, y + z, y, z);
    PayloadsAligned(args);
    RoundUp4Multiple(|address| + 1);
    RoundUp4Multiple(|args| + 2);
    Sum4(|y|, |z|);
    Sum4(|x|, |y| + |z|);
    AlignedSpan(p + |x| + |y|, |z|);
    AlignedSpan(p + |x|, |y| + |z|);
    AlignedSpan(p, |x| + (|y| + |z|));
  }

  lemma AlignedSpan(p: nat, d: nat)
    requires d % 4 == 0
    ensures Aligned(p, p + d)
  {}

  lemma TagStringParts(m: seq<Byte>, t: nat, args: seq<Arg>)
    requires t + |TagString(args)| <= |m| && m[t..t + |TagString(args)|] == TagString(args)
    ensures m[t] == COMMA
    ensures m[t + 1..t + 1 + |args|] == Tags(args) && m[t + 1 + |args|] == 0
  {
    var b := TagString(args);
    assert m[t] == m[t..t + |b|][0];
    assert m[t + 1..t + 1 + |args|] == m[t..t + |b|][1..1 + |args|] == Tags(args);
    assert m[t + 1 + |args|] == m[t..t + |b|][1 + |args|];
  }

  // The constructor on a written message.
  lemma MessageAccepted(m: seq<Byte>, p: nat, address: CString, args: seq<Arg>)
    requires var b := Encode(Element.Message(address, args));
             p + |b| <= |m| && m[p..p + |b|] == b && |b| <= MAX_ELEMENT_SIZE
    ensures var size := |Encode(Element.Message(address, args))|; var t := p + |Str4(address)|;
            MessageInit(m, p, size) ==
            if args == [] then Ok(NoTypeTags)
            else if Level(args) == 0 then Ok(TypeTags(t + 1, t + 1 + |args|, t + |TagString(args)|)) else Malformed
  {
    hide ScanArguments, Str4End, Encode, Str4, TagString, Aligned, Tags, Payloads;
    var size := |Encode(Element.Message(address, args))|;
    var t := p + |Str4(address)|;
    var a, end := t + |TagString(args)|, p + size;
    MessageParts(m, p, address, args);
    EndOfString(m, p, end, address);
    TagStringParts(m, t, args);
    MessageLength(address, args);
    LevelBound(args);
    if args == [] {
      assert m[t + 1] == 0;
    } else {
      FirstTag(m, t + 1, args);
      TagsNoNul(args);
      assert TagString(args) == Str4([COMMA] + Tags(args)) by { TagStringIs(args); }
      EndOfString(m, t, end, [COMMA] + Tags(args));
      ArgumentsScanned(m, t + 1, a, end, 0, args);
    }
  }

  /** A written message comes back exactly when its brackets are equal in number; otherwise it is refused. */
  lemma MessageReadBack(m: seq<Byte>, p: nat, address: CString, args: seq<Arg>)
    requires var b := Encode(Element.Message(address, args));
             p + |b| <= |m| && m[p..p + |b|] == b && |b| <= MAX_ELEMENT_SIZE
    ensures ReadMessage(m, p, |Encode(Element.Message(address, args))|) ==
            if Level(args) == 0 then Some(Element.Message(address, args)) else None
  {
    hide MessageInit, Encode, Str4, TagString, Aligned, CStringAt, ReadArguments, Tags, Payloads;
    var t := p + |Str4(address)|;
    MessageAccepted(m, p, address, args);
    MessageParts(m, p, address, args);
    ReadStr4(m, p, address);
    if args != [] {
      TagStringParts(m, t, args);
      MessageLength(address, args);
      ArgumentsReadBack(m, t + 1, t + |TagString(args)|, p + |Encode(Element.Message(address, args))|, args);
    }
  }

  /** Brackets in the wrong order are accepted: this message comes back as it was written. */
  lemma ReversedBracketsAccepted(address: CString)
    requires |address| < 0x1000_0000
    ensures var e := Element.Message(address, [Flag(ARRAY_END), Flag(ARRAY_BEGIN)]); var b := Encode(e);
            ReadMessage(b, 0, |b|) == Some(e)
  {
    hide Encode, ReadMessage;
    var args := [Flag(ARRAY_END), Flag(ARRAY_BEGIN)];
    MessageLength(address, args);
    var b := Encode(Element.Message(address, args));
    assert b[0..|b|] == b;
    BracketsSize(address);
    MessageReadBack(b, 0, address, args);
  }

  lemma BracketsSize(address: CString)
    requires |address| < 0x1000_0000
    ensures var args := [Flag(ARRAY_END), Flag(ARRAY_BEGIN)];
            |Str4(address)| + |TagString(args)| + |Payloads(args)| <= MAX_ELEMENT_SIZE && Level(args) == 0
  {
    var close, open: Arg := Flag(ARRAY_END), Flag(ARRAY_BEGIN);
    var last, args := [open], [close, open];
    assert last[1..] == [] && args[1..] == last;
    assert close.Tag() == ARRAY_END && open.Tag() == ARRAY_BEGIN;
    assert Level(last) == 1 && Payloads(last) == open.Payload() + Payloads([]) == [];
    assert Payloads(args) == close.Payload() + Payloads(last) == [];
  }

  lemma TagStringIs(args: seq<Arg>)
    ensures TagString(args) == Str4([COMMA] + Tags(args))
  {}

  lemma MessageLength(address: CString, args: seq<Arg>)
    ensures |Encode(Element.Message(address, args))| == |Str4(address)| + |TagString(args)| + |Payloads(args)|
    ensures |Encode(Element.Message(address, args))| % 4 == 0
    ensures |TagString(args)| >= 4 && |args| <= |TagString(args)|
  {
    hide RoundUp4, Payloads;
    RoundUp4Multiple(|address| + 1);
    RoundUp4Multiple(|args| + 2);
    PayloadsAligned(args);
    Sum4(|Str4(address)|, |TagString(args)|);
    Sum4(|Str4(address)| + |TagString(args)|, |Payloads(args)|);
  }

  // ---- bundles

  lemma {:induction false} EncodeAligned(e: Element)
    ensures |Encode(e)| % 4 == 0
    decreases e, 1
  {
    hide EncodeSized, Str4, TagString, Payloads;
    match e {
      case Message(address, args) => MessageLength(address, args);
      case Bundle(_, elements) => EncodeSizedAligned(elements);
    }
  }

  lemma {:induction false} EncodeSizedAligned(es: seq<Element>)
    ensures |EncodeSized(es)| % 4 == 0
    decreases es, 0
  {
    hide Encode, EncodeSized, Sized;
    if es == [] {
      NoElements(es);
    } else {
      EncodeAligned(es[0]);
      EncodeSizedAligned(es[1..]);
      SizedLength(es);
      Sum4(4, |Encode(es[0])|);
      Sum4(4 + |Encode(es[0])|, |EncodeSized(es[1..])|);
    }
  }

  lemma NoElements(es: seq<Element>)
    requires es == []
    ensures EncodeSized(es) == []
  {}

  lemma SizedLength(es: seq<Element>)
    requires es != []
    ensures |EncodeSized(es)| == 4 + |Encode(es[0])| + |EncodeSized(es[1..])|
  {
    hide Encode, BE32;
  }

  // The first element of a bundle's body: its size word, its bytes, and the rest.
  lemma SizedParts(m: seq<Byte>, q: nat, end: nat, es: seq<Element>)
    requires es != [] && q + |EncodeSized(es)| == end <= |m| && m[q..end] == EncodeSized(es)
    requires end - q <= MAX_ELEMENT_SIZE
    ensures var n := |Encode(es[0])|;
            && ToUInt32(m, q) == n == ElementSize(m, q) && n % 4 == 0
            && q + 4 + n + |EncodeSized(es[1..])| == end
            && m[q + 4..q + 4 + n] == Encode(es[0])
            && m[q + 4 + n..end] == EncodeSized(es[1..])
  {
    hide Encode, BE32, ToUInt32;
    var b, rest := Encode(es[0]), EncodeSized(es[1..]);
    Part(m, q, EncodeSized(es), Sized(b), rest);
    Part(m, q, Sized(b), BE32(|b|), b);
    ReadBE32(m, q, |b|);
    EncodeAligned(es[0]);
  }

  lemma {:induction false} ElementsScanned(m: seq<Byte>, q: nat, end: nat, es: seq<Element>, count: nat)
    requires q + |EncodeSized(es)| == end <= |m| && m[q..end] == EncodeSized(es)
    requires end - q <= MAX_ELEMENT_SIZE
    ensures ScanElements(m, q, end, count) == Ok(count + |es|)
    decreases |es|
  {
    hide Encode, ToUInt32, Sized, BE32;
    if es != [] {
      SizedParts(m, q, end, es);
      ElementsScanned(m, q + 4 + |Encode(es[0])|, end, es[1..], count + 1);
    }
  }

  lemma BundleAccepted(m: seq<Byte>, p: nat, timeTag: uint64, elements: seq<Element>)
    requires var b := Encode(Element.Bundle(timeTag, elements));
             p + |b| <= |m| && m[p..p + |b|] == b && |b| <= MAX_ELEMENT_SIZE
    ensures var size := |Encode(Element.Bundle(timeTag, elements))|;
            && IsBundle(m, p, size)
            && BundleInit(m, p, size) == Ok(|elements|)
            && ToUInt64(m, p + 8) == timeTag
            && size == 16 + |EncodeSized(elements)|
            && m[p + 16..p + size] == EncodeSized(elements)
  {
    hide EncodeSized, BE64, ToUInt64, ScanElements;
    var b, head, body := Encode(Element.Bundle(timeTag, elements)), BundleHead(timeTag), EncodeSized(elements);
    Part(m, p, b, head, body);
    Part(m, p, head, BUNDLE_HEAD, BE64(timeTag));
    ReadBE64(m, p + 8, timeTag);
    assert m[p] == m[p..p + 8][0] == HASH;
    EncodeAligned(Element.Bundle(timeTag, elements));
    ElementsScanned(m, p + 16, p + |b|, elements, 0);
  }

  // ---- the law

  /**
   Any tree within the size limit, written anywhere in memory, is read back as itself exactly when no address
   starts with '#' and every message has as many closing as opening brackets.
   */
  lemma {:induction false} ReadBack(m: seq<Byte>, p: nat, e: Element)
    requires p + |Encode(e)| <= |m| && m[p..p + |Encode(e)|] == Encode(e) && |Encode(e)| <= MAX_ELEMENT_SIZE
    ensures Read(m, p, |Encode(e)|) == Some(e) <==> Readable(e)
    decreases e, 1
  {
    hide Encode, Read, ReadElements;
    match e {
      case Message(address, args) => ReadMessageBack(m, p, address, args);
      case Bundle(timeTag, elements) =>
        BundleAccepted(m, p, timeTag, elements);
        ElementsReadBack(m, p + 16, p + |Encode(e)|, elements);
        ReadBundleBack(m, p, timeTag, elements);
    }
  }

  lemma ReadMessageBack(m: seq<Byte>, p: nat, address: CString, args: seq<Arg>)
    requires var b := Encode(Element.Message(address, args));
             p + |b| <= |m| && m[p..p + |b|] == b && |b| <= MAX_ELEMENT_SIZE
    ensures var e := Element.Message(address, args); Read(m, p, |Encode(e)|) == Some(e) <==> Readable(e)
  {
    hide Encode, ReadMessage, Str4, TagString, Payloads, Aligned;
    MessageParts(m, p, address, args);
    MessageReadBack(m, p, address, args);
    MessageLength(address, args);
    FirstByte(m, p, address);
  }

  lemma FirstByte(m: seq<Byte>, p: nat, s: CString)
    requires p + |Str4(s)| <= |m| && m[p..p + |Str4(s)|] == Str4(s)
    ensures m[p] == if s == [] then 0 else s[0]
  {
    assert m[p] == m[p..p + |Str4(s)|][0];
  }

  lemma ReadBundleBack(m: seq<Byte>, p: nat, timeTag: uint64, elements: seq<Element>)
    requires var size := |Encode(Element.Bundle(timeTag, elements))|;
             && p + size <= |m| && IsBundle(m, p, size) && BundleInit(m, p, size) == Ok(|elements|)
             && ToUInt64(m, p + 8) == timeTag && size == 16 + |EncodeSized(elements)|
             && (ReadElements(m, p + 16, p + size) == Some(elements) <==> forall c :: c in elements ==> Readable(c))
    ensures var e := Element.Bundle(timeTag, elements); Read(m, p, |Encode(e)|) == Some(e) <==> Readable(e)
  {
    hide Encode, EncodeSized, BundleInit, ReadElements, ToUInt64;
  }

  lemma {:induction false} ElementsReadBack(m: seq<Byte>, q: nat, end: nat, es: seq<Element>)
    requires q + |EncodeSized(es)| == end <= |m| && m[q..end] == EncodeSized(es)
    requires end - q <= MAX_ELEMENT_SIZE
    ensures ReadElements(m, q, end) == Some(es) <==> forall c :: c in es ==> Readable(c)
    decreases es, 0
  {
    hide Encode, EncodeSized, ToUInt32, Read, Readable, ElementSize, ReadElements;
    if es == [] {
      NoElements(es);
      ReadNoElements(m, end);
    } else {
      SizedParts(m, q, end, es);
      ReadBack(m, q + 4, es[0]);
      ElementsReadBack(m, q + 4 + |Encode(es[0])|, end, es[1..]);
      assert es == [es[0]] + es[1..];
      ReadFirstElement(m, q, end, |Encode(es[0])|);
    }
  }

  lemma ReadNoElements(m: seq<Byte>, end: nat)
    requires end <= |m|
    ensures ReadElements(m, end, end) == Some([])
  {}

  lemma ReadFirstElement(m: seq<Byte>, q: nat, end: nat, n: nat)
    requires q + 4 + n <= end <= |m| && ElementSize(m, q) == n
    ensures ReadElements(m, q, end) ==
            match (Read(m, q + 4, n), ReadElements(m, q + 4 + n, end))
            case (Some(e), Some(rest)) => Some([e] + rest)
            case _ => None
  {
    hide Read, ElementSize;
  }

  /** Distinct readable trees have distinct packets. */
  lemma EncodeInjective(d: Element, e: Element)
    requires Readable(d) && Readable(e) && |Encode(d)| <= MAX_ELEMENT_SIZE
    requires Encode(d) == Encode(e)
    ensures d == e
  {
    var b := Encode(d);
    assert b[0..|b|] == b;
    ReadBack(b, 0, d);
    ReadBack(b, 0, e);
  }

  // ---- signed values: the stream writes two's complement words and the accessors sign them again

  function SignedWord(v: int): uint32
    requires -0x8000_0000 <= v < 0x8000_0000
  {
    v % 0x1_0000_0000
  }

  lemma Int32ReadBack(m: seq<Byte>, p: nat, v: int)
    requires -0x8000_0000 <= v < 0x8000_0000
    requires p + 4 <= |m| && m[p..p + 4] == BE32(SignedWord(v))
    ensures ElementSize(m, p) == v
  {
    hide BE32, ToUInt32;
    ReadBE32(m, p, SignedWord(v));
  }
}
