/**
 The parser: its own scanner for padded strings, the validating constructors of messages and bundles, and
 the iterators that walk what those constructors accepted. A position is an offset into the memory `m` that
 holds the packet; `OutOfBounds` marks a read past that memory and `Diverges` a loop that makes no progress.
 */
module OscReceived {
  import opened Bytes
  import opened Wrappers
  import opened OscFormat

  datatype Outcome<+T> = Ok(value: T) | Malformed | OutOfBounds | Diverges

  // Offsets that differ from the end by a multiple of four.
  predicate Aligned(p: nat, end: nat) {
    p % 4 == end % 4
  }

  lemma Step(p: nat, d: nat, end: nat)
    requires Aligned(p, end) && d % 4 == 0
    ensures Aligned(p + d, end)
  {}

  lemma Gap(p: nat, end: nat)
    requires Aligned(p, end) && p < end
    ensures p + 4 <= end
  {}

  // ---- padded strings

  // The boundary after the first four-byte group from p whose last byte is NUL.
  function GroupEnd(m: seq<Byte>, p: nat, end: nat): (r: Option<nat>)
    requires p < end <= |m| && Aligned(p, end)
    ensures r.Some? ==> p + 4 <= r.value <= end && Aligned(r.value, end)
    decreases end - p
  {
    Gap(p, end);
    if m[p + 3] == 0 then Some(p + 4) else if p + 4 == end then None else GroupEnd(m, p + 4, end)
  }

  // Where a padded string at p ends; a leading NUL always takes one group.
  function Str4End(m: seq<Byte>, p: nat, end: nat): (r: Option<nat>)
    requires end <= |m|
    requires Aligned(p, end)
    ensures r.Some? ==> p + 4 <= r.value <= end && Aligned(r.value, end)
  {
    if p >= end then None else if m[p] == 0 then Some(p + 4) else GroupEnd(m, p, end)
  }

  // One group of the scan.
  lemma GroupStep(m: seq<Byte>, q: nat, end: nat)
    requires q < end <= |m| && Aligned(q, end)
    ensures q + 4 <= end
    ensures if m[q + 3] == 0 then GroupEnd(m, q, end) == Some(q + 4)
            else if q + 4 == end then GroupEnd(m, q, end) == None
            else Aligned(q + 4, end) && GroupEnd(m, q, end) == GroupEnd(m, q + 4, end)
  {
    Gap(q, end);
    Step(q, 4, end);
  }

  method FindStr4End(m: seq<Byte>, begin: nat, limit: nat) returns (r: Option<nat>)
    requires limit <= |m|
    requires Aligned(begin, limit)
    ensures r == Str4End(m, begin, limit)
  {
    if begin >= limit { return None; }
    if m[begin] == 0 { return Some(begin + 4); }
    hide GroupEnd, Aligned;
    var p, end := begin + 3, limit - 1;
    GroupStep(m, begin, limit);
    while p < end && m[p] != 0
      invariant begin + 3 <= p <= end && Aligned(p - 3, limit)
      invariant GroupEnd(m, p - 3, limit) == GroupEnd(m, begin, limit)
    {
      GroupStep(m, p - 3, limit);
      p := p + 4;
      GroupStep(m, p - 3, limit);
    }
    GroupStep(m, p - 3, limit);
    if m[p] != 0 { return None; } else { return Some(p + 1); }
  }

  /** The scan without a limit stops where the bounded one does, provided that one succeeds. */
  method FindStr4EndUnchecked(m: seq<Byte>, begin: nat, ghost limit: nat) returns (r: nat)
    requires limit <= |m| && begin < limit && Aligned(begin, limit)
    requires Str4End(m, begin, limit).Some?
    ensures Some(r) == Str4End(m, begin, limit)
  {
    if m[begin] == 0 { return begin + 4; }
    hide GroupEnd, Aligned;
    var p := begin + 3;
    GroupStep(m, begin, limit);
    while m[p] != 0
      invariant begin + 3 <= p < limit && Aligned(p - 3, limit)
      invariant GroupEnd(m, p - 3, limit) == GroupEnd(m, begin, limit)
      decreases limit - p
    {
      GroupStep(m, p - 3, limit);
      p := p + 4;
      GroupStep(m, p - 3, limit);
    }
    GroupStep(m, p - 3, limit);
    return p + 1;
  }

  // ---- message arguments

  // Rounding up in 32-bit arithmetic wraps for the three largest values.
  function RoundUp4In32(n: uint32): (r: uint32)
    ensures r % 4 == 0
  {
    Low32(n + 3) / 4 * 4
  }

  /** Where the argument with this tag ends, as the validating constructor computes it. */
  function ArgumentEnd(m: seq<Byte>, tag: Byte, argument: nat, end: nat): (r: Outcome<nat>)
    requires end <= |m|
    requires Aligned(argument, end)
    ensures r.Ok? ==> argument <= r.value && Aligned(r.value, end)
    ensures r.Ok? && tag != BLOB_TAG && argument <= end ==> r.value <= end
  {
    Step(argument, 4, end);
    Step(argument, 8, end);
    if IsFlagTag(tag) then Ok(argument)
    else if IsWordTag(tag) then if argument + 4 > end then Malformed else Ok(argument + 4)
    else if IsLongTag(tag) then if argument == end || argument + 8 > end then Malformed else Ok(argument + 8)
    else if IsTextTag(tag) then
      match Str4End(m, argument, end)
      case None => Malformed
      case Some(q) => Ok(q)
    else if tag == BLOB_TAG then
      // the two bound checks here build an exception without throwing it
      if argument + 4 > |m| then OutOfBounds
      else
        var blob := RoundUp4In32(ToUInt32(m, argument));
        Step(argument + 4, blob, end);
        Ok(argument + 4 + blob)
    else Malformed
  }

  // Brackets are counted; the constructor keeps this count in an unsigned int.
  function LevelAfter(tag: Byte, level: int): int {
    if tag == ARRAY_BEGIN then level + 1 else if tag == ARRAY_END then level - 1 else level
  }

  lemma WrappingLevel(tag: Byte, level: int)
    ensures LevelAfter(tag, level) % 0x1_0000_0000 ==
            if tag == ARRAY_BEGIN then (level % 0x1_0000_0000 + 1) % 0x1_0000_0000
            else if tag == ARRAY_END then (level % 0x1_0000_0000 - 1) % 0x1_0000_0000
            else level % 0x1_0000_0000
  {}

  datatype Scan = Scan(typeTagsEnd: nat, argumentsEnd: nat, arrayLevel: int)

  // The tags from `tag` up to the first NUL, the argument offset moving along.
  function ScanArguments(m: seq<Byte>, tag: nat, argument: nat, end: nat, level: int): (r: Outcome<Scan>)
    requires tag < |m| && end <= |m| && Aligned(argument, end)
    ensures r.Ok? ==> tag < r.value.typeTagsEnd < |m| && m[r.value.typeTagsEnd] == 0
    decreases |m| - tag
  {
    match ArgumentEnd(m, m[tag], argument, end)
    case Ok(next) =>
      if tag + 1 >= |m| then OutOfBounds
      else if m[tag + 1] == 0 then Ok(Scan(tag + 1, next, LevelAfter(m[tag], level)))
      else ScanArguments(m, tag + 1, next, end, LevelAfter(m[tag], level))
    case Malformed => Malformed
    case OutOfBounds => OutOfBounds
    case Diverges => Diverges
  }

  /** Pointers into the message; without type tags all three are null. */
  datatype TypeTags = NoTypeTags | TypeTags(begin: nat, end: nat, arguments: nat)

  function MessageInit(m: seq<Byte>, message: nat, size: nat): Outcome<TypeTags>
    requires message + size <= |m|
  {
    var end := message + size;
    if size > MAX_ELEMENT_SIZE || size == 0 || size % 4 != 0 then Malformed
    else match Str4End(m, message, end)
      case None => Malformed
      case Some(begin) =>
        if begin == end then Ok(NoTypeTags)
        else if m[begin] != COMMA then Malformed
        else if m[begin + 1] == 0 then Ok(NoTypeTags)
        else match Str4End(m, begin, end)
          case None => Malformed
          case Some(arguments) =>
            match ScanArguments(m, begin + 1, arguments, end, 0)
            case Ok(s) =>
              if s.arrayLevel % 0x1_0000_0000 != 0 then Malformed else Ok(TypeTags(begin + 1, s.typeTagsEnd, arguments))
            case Malformed => Malformed
            case OutOfBounds => OutOfBounds
            case Diverges => Diverges
  }

  /** The constructor's loop over tags and arguments computes `MessageInit`. */
  method InitMessage(m: seq<Byte>, message: nat, size: nat) returns (r: Outcome<TypeTags>)
    requires message + size <= |m|
    ensures r == MessageInit(m, message, size)
  {
    hide LevelAfter, ToUInt32, RoundUp4In32, Str4End;
    if size > MAX_ELEMENT_SIZE || size == 0 || size % 4 != 0 { return Malformed; }
    var end := message + size;
    var afterAddress := FindStr4End(m, message, end);
    if afterAddress == None { return Malformed; }
    var typeTagsBegin := afterAddress.value;
    if typeTagsBegin == end { return Ok(NoTypeTags); }
    if m[typeTagsBegin] != COMMA { return Malformed; }
    if m[typeTagsBegin + 1] == 0 { return Ok(NoTypeTags); }
    var afterTags := FindStr4End(m, typeTagsBegin, end);
    if afterTags == None { return Malformed; }
    var arguments := afterTags.value;
    typeTagsBegin := typeTagsBegin + 1;

    var typeTag, argument, arrayLevel: nat := typeTagsBegin, arguments, 0;
    ghost var level := 0;
    ghost var whole := ScanArguments(m, typeTag, argument, end, 0);
    while true
      invariant typeTag < |m| && 0 <= argument && Aligned(argument, end)
      invariant arrayLevel == level % 0x1_0000_0000
      invariant whole == ScanArguments(m, typeTag, argument, end, level)
      decreases |m| - typeTag
    {
      var tag := m[typeTag];
      WrappingLevel(tag, level);
      level := LevelAfter(tag, level);
      if tag == ARRAY_BEGIN {
        arrayLevel := (arrayLevel + 1) % 0x1_0000_0000;
      } else if tag == ARRAY_END {
        arrayLevel := (arrayLevel - 1) % 0x1_0000_0000;
      } else if IsFlagTag(tag) {
      } else if IsWordTag(tag) {
        if argument == end { return Malformed; }
        argument := argument + 4;
        if argument > end { return Malformed; }
      } else if IsLongTag(tag) {
        if argument == end { return Malformed; }
        argument := argument + 8;
        if argument > end { return Malformed; }
      } else if IsTextTag(tag) {
        if argument == end { return Malformed; }
        var next := FindStr4End(m, argument, end);
        if next == None { return Malformed; }
        argument := next.value;
      } else if tag == BLOB_TAG {
        if argument + 4 > |m| { return OutOfBounds; }
        argument := argument + 4 + RoundUp4In32(ToUInt32(m, argument));
      } else {
        return Malformed;
      }
      typeTag := typeTag + 1;
      if typeTag >= |m| { return OutOfBounds; }
      if m[typeTag] == 0 { break; }
    }
    if arrayLevel != 0 { return Malformed; }
    return Ok(TypeTags(typeTagsBegin, typeTag, arguments));
  }

  // ---- what the counter stands for

  function Count(tags: seq<Byte>, tag: Byte): (n: nat)
    ensures n <= |tags|
  {
    if tags == [] then 0 else (if tags[0] == tag then 1 else 0) + Count(tags[1..], tag)
  }

  lemma {:induction false} LevelIsBalance(m: seq<Byte>, tag: nat, argument: nat, end: nat, level: int)
    requires tag < |m| && end <= |m| && Aligned(argument, end) && ScanArguments(m, tag, argument, end, level).Ok?
    ensures var s := ScanArguments(m, tag, argument, end, level).value; var tags := m[tag..s.typeTagsEnd];
            s.arrayLevel == level + Count(tags, ARRAY_BEGIN) - Count(tags, ARRAY_END)
    decreases |m| - tag
  {
    hide ArgumentEnd, Aligned;
    var s, next := ScanArguments(m, tag, argument, end, level).value, ArgumentEnd(m, m[tag], argument, end).value;
    if m[tag + 1] != 0 {
      LevelIsBalance(m, tag + 1, next, end, LevelAfter(m[tag], level));
    }
    assert m[tag..s.typeTagsEnd][1..] == m[tag + 1..s.typeTagsEnd];
  }

  // The tags end at the first NUL.
  lemma {:induction false} TagsEndByNul(m: seq<Byte>, tag: nat, argument: nat, end: nat, level: int, nul: nat)
    requires tag < nul < |m| && m[nul] == 0
    requires end <= |m| && Aligned(argument, end) && ScanArguments(m, tag, argument, end, level).Ok?
    ensures ScanArguments(m, tag, argument, end, level).value.typeTagsEnd <= nul
    decreases |m| - tag
  {
    hide ArgumentEnd, Aligned;
    if m[tag + 1] != 0 {
      TagsEndByNul(m, tag + 1, ArgumentEnd(m, m[tag], argument, end).value, end, LevelAfter(m[tag], level), nul);
    }
  }

  lemma {:induction false} GroupEndsInNul(m: seq<Byte>, p: nat, end: nat)
    requires p < end <= |m| && Aligned(p, end) && GroupEnd(m, p, end).Some?
    ensures m[GroupEnd(m, p, end).value - 1] == 0
    decreases end - p
  {
    GroupStep(m, p, end);
    hide GroupEnd;
    if m[p + 3] != 0 {
      GroupEndsInNul(m, p + 4, end);
    }
  }

  /** The unsigned counter is zero exactly if the tags hold as many opening as closing brackets. */
  lemma CounterZero(m: seq<Byte>, tag: nat, argument: nat, end: nat)
    requires tag < |m| && end <= |m| && Aligned(argument, end) && ScanArguments(m, tag, argument, end, 0).Ok?
    requires ScanArguments(m, tag, argument, end, 0).value.typeTagsEnd - tag < 0x1_0000_0000
    ensures var s := ScanArguments(m, tag, argument, end, 0).value; var tags := m[tag..s.typeTagsEnd];
            s.arrayLevel % 0x1_0000_0000 == 0 <==> Count(tags, ARRAY_BEGIN) == Count(tags, ARRAY_END)
  {
    hide ScanArguments, Aligned;
    LevelIsBalance(m, tag, argument, end, 0);
  }

  /** Every accepted message has as many opening as closing brackets, in any order. */
  lemma AcceptedBalances(m: seq<Byte>, message: nat, size: nat)
    requires message + size <= |m|
    requires MessageInit(m, message, size).Ok? && MessageInit(m, message, size).value.TypeTags?
    ensures var t := MessageInit(m, message, size).value; var tags := m[t.begin..t.end];
            Count(tags, ARRAY_BEGIN) == Count(tags, ARRAY_END)
  {
    hide ScanArguments, Count;
    var end := message + size;
    var begin := Str4End(m, message, end).value;
    var arguments := Str4End(m, begin, end).value;
    GroupEndsInNul(m, begin, end);
    TagsEndByNul(m, begin + 1, arguments, end, 0, arguments - 1);
    CounterZero(m, begin + 1, arguments, end);
  }

  // ---- argument iteration

  datatype Position = Position(typeTagPtr: nat, argumentPtr: nat)

  /** One step of the argument iterator, which trusts the constructor and uses the scan without a limit. */
  function Advanced(m: seq<Byte>, at: Position, end: nat): (r: Option<Position>)
    requires end <= |m| && Aligned(at.argumentPtr, end)
    ensures r.Some? ==> Aligned(r.value.argumentPtr, end)
  {
    if at.typeTagPtr >= |m| then None
    else
      var tag := m[at.typeTagPtr];
      Step(at.argumentPtr, 4, end);
      Step(at.argumentPtr, 8, end);
      if IsFlagTag(tag) then Some(at.(typeTagPtr := at.typeTagPtr + 1))
      else if IsWordTag(tag) then Some(Position(at.typeTagPtr + 1, at.argumentPtr + 4))
      else if IsLongTag(tag) then Some(Position(at.typeTagPtr + 1, at.argumentPtr + 8))
      else if IsTextTag(tag) then
        match Str4End(m, at.argumentPtr, end)
        case None => None  // would run on past the limit
        case Some(q) => Some(Position(at.typeTagPtr + 1, q))
      else if tag == BLOB_TAG then
        if at.argumentPtr + 4 > |m| then None
        else
          var blob := RoundUp4In32(ToUInt32(m, at.argumentPtr));
          Step(at.argumentPtr + 4, blob, end);
          Some(Position(at.typeTagPtr + 1, at.argumentPtr + 4 + blob))
      else Some(at)
  }

  class ArgumentIterator {
    const m: seq<Byte>
    const tagged: bool  // false for the null pointer of a message without type tags
    var typeTagPtr: nat
    var argumentPtr: nat

    // ArgumentsBegin of a message.
    constructor (m: seq<Byte>, t: TypeTags)
      ensures this.m == m && tagged == t.TypeTags?
      ensures tagged ==> At() == Position(t.begin, t.arguments)
    {
      this.m, tagged := m, t.TypeTags?;
      typeTagPtr, argumentPtr := 0, 0;
      if t.TypeTags? {
        typeTagPtr, argumentPtr := t.begin, t.arguments;
      }
    }

    function At(): Position
      reads this
    {
      Position(typeTagPtr, argumentPtr)
    }

    method Advance(ghost end: nat)
      requires tagged ==> end <= |m| && Aligned(argumentPtr, end) && Advanced(m, At(), end).Some?
      modifies this
      ensures if tagged then Some(At()) == old(Advanced(m, At(), end)) else At() == old(At())
    {
      if !tagged { return; }
      var tag := m[typeTagPtr];
      typeTagPtr := typeTagPtr + 1;
      if IsFlagTag(tag) {
      } else if IsWordTag(tag) {
        argumentPtr := argumentPtr + 4;
      } else if IsLongTag(tag) {
        argumentPtr := argumentPtr + 8;
      } else if IsTextTag(tag) {
        argumentPtr := FindStr4EndUnchecked(m, argumentPtr, end);
      } else if tag == BLOB_TAG {
        argumentPtr := argumentPtr + 4 + RoundUp4In32(ToUInt32(m, argumentPtr));
      } else {
        typeTagPtr := typeTagPtr - 1;
      }
    }
  }

  // k steps of the iterator.
  function AdvancedBy(m: seq<Byte>, at: Position, end: nat, k: nat): (r: Option<Position>)
    requires end <= |m| && Aligned(at.argumentPtr, end)
    ensures r.Some? ==> Aligned(r.value.argumentPtr, end)
    decreases k
  {
    if k == 0 then Some(at)
    else match Advanced(m, at, end)
      case None => None
      case Some(next) => AdvancedBy(m, next, end, k - 1)
  }

  // The offset the constructor has reached after k tags.
  function OffsetAfter(m: seq<Byte>, tag: nat, argument: nat, end: nat, k: nat): (r: Outcome<nat>)
    requires end <= |m| && Aligned(argument, end) && tag + k <= |m|
    ensures r.Ok? ==> Aligned(r.value, end)
    decreases k
  {
    if k == 0 then Ok(argument)
    else match ArgumentEnd(m, m[tag], argument, end)
      case Ok(next) => OffsetAfter(m, tag + 1, next, end, k - 1)
      case other => other
  }

  // Blob data the constructor lets reach past the end of the message.
  predicate BlobOverruns(m: seq<Byte>, tag: nat, argument: nat, end: nat)
    requires tag < |m|
  {
    m[tag] == BLOB_TAG && argument + 4 <= |m| && argument + 4 + RoundUp4In32(ToUInt32(m, argument)) > end
  }

  /**
   For every accepted run of tags, stepping the iterator visits exactly the offsets the constructor computed,
   stays four-byte aligned, and stands on the end of the tags after as many steps as there are tags.
   */
  lemma {:induction false} IterationFollowsInit(m: seq<Byte>, tag: nat, argument: nat, end: nat, level: int, k: nat)
    requires tag < |m| && end <= |m| && Aligned(argument, end)
    requires ScanArguments(m, tag, argument, end, level).Ok?
    requires tag + k <= ScanArguments(m, tag, argument, end, level).value.typeTagsEnd
    ensures var s := ScanArguments(m, tag, argument, end, level).value;
            && OffsetAfter(m, tag, argument, end, k).Ok?
            && AdvancedBy(m, Position(tag, argument), end, k) ==
               Some(Position(tag + k, OffsetAfter(m, tag, argument, end, k).value))
            && (tag + k == s.typeTagsEnd ==> OffsetAfter(m, tag, argument, end, k).value == s.argumentsEnd)
    decreases k
  {
    if k > 0 {
      var next := ArgumentEnd(m, m[tag], argument, end).value;
      assert Advanced(m, Position(tag, argument), end) == Some(Position(tag + 1, next));
      if m[tag + 1] != 0 {
        IterationFollowsInit(m, tag + 1, next, end, LevelAfter(m[tag], level), k - 1);
      }
    }
  }

  // Tags at which an accepted message could overrun.
  predicate AnyBlobOverruns(m: seq<Byte>, tag: nat, argument: nat, end: nat, tagsEnd: nat)
    requires end <= |m| && Aligned(argument, end) && tag <= tagsEnd <= |m|
  {
    exists k: nat :: k < tagsEnd - tag && OffsetAfter(m, tag, argument, end, k).Ok? &&
      BlobOverruns(m, tag + k, OffsetAfter(m, tag, argument, end, k).value, end)
  }

  /**
   Arguments of an accepted message may reach past its end, because a blob's length is never enforced.
   They all stay inside exactly when no blob overruns.
   */
  lemma {:induction false} InsideUnlessBlobOverruns(m: seq<Byte>, tag: nat, argument: nat, end: nat, level: int)
    requires tag < |m| && end <= |m| && Aligned(argument, end) && argument <= end
    requires ScanArguments(m, tag, argument, end, level).Ok?
    ensures var s := ScanArguments(m, tag, argument, end, level).value;
            (forall k: nat {:trigger OffsetAfter(m, tag, argument, end, k)} :: tag + k <= s.typeTagsEnd ==>
               OffsetAfter(m, tag, argument, end, k).Ok? && OffsetAfter(m, tag, argument, end, k).value <= end)
            <==> !AnyBlobOverruns(m, tag, argument, end, s.typeTagsEnd)
  {
    var s := ScanArguments(m, tag, argument, end, level).value;
    forall k: nat | tag + k <= s.typeTagsEnd
      ensures OffsetAfter(m, tag, argument, end, k).Ok?
    {
      IterationFollowsInit(m, tag, argument, end, level, k);
    }
    if AnyBlobOverruns(m, tag, argument, end, s.typeTagsEnd) {
      var k: nat :| k < s.typeTagsEnd - tag && OffsetAfter(m, tag, argument, end, k).Ok? &&
        BlobOverruns(m, tag + k, OffsetAfter(m, tag, argument, end, k).value, end);
      OffsetStep(m, tag, argument, end, k);
      assert OffsetAfter(m, tag, argument, end, k + 1).value > end;
    } else {
      forall k: nat | tag + k <= s.typeTagsEnd
        ensures OffsetAfter(m, tag, argument, end, k).value <= end
      {
        OffsetsInside(m, tag, argument, end, s.typeTagsEnd, k);
      }
    }
  }

  lemma {:induction false} OffsetStep(m: seq<Byte>, tag: nat, argument: nat, end: nat, k: nat)
    requires end <= |m| && Aligned(argument, end) && tag + k < |m|
    requires OffsetAfter(m, tag, argument, end, k).Ok?
    ensures OffsetAfter(m, tag, argument, end, k + 1) ==
            ArgumentEnd(m, m[tag + k], OffsetAfter(m, tag, argument, end, k).value, end)
    decreases k
  {
    if k > 0 {
      OffsetStep(m, tag + 1, ArgumentEnd(m, m[tag], argument, end).value, end, k - 1);
    }
  }

  lemma {:induction false} OffsetsInside(m: seq<Byte>, tag: nat, argument: nat, end: nat, tagsEnd: nat, k: nat)
    requires end <= |m| && Aligned(argument, end) && argument <= end && tag + k <= tagsEnd < |m|
    requires forall j: nat {:trigger OffsetAfter(m, tag, argument, end, j)} ::
               tag + j <= tagsEnd ==> OffsetAfter(m, tag, argument, end, j).Ok?
    requires !AnyBlobOverruns(m, tag, argument, end, tagsEnd)
    ensures OffsetAfter(m, tag, argument, end, k).value <= end
    decreases k
  {
    if k > 0 {
      OffsetsInside(m, tag, argument, end, tagsEnd, k - 1);
      OffsetStep(m, tag, argument, end, k - 1);
      assert OffsetAfter(m, tag, argument, end, k).Ok?;
      assert !BlobOverruns(m, tag + k - 1, OffsetAfter(m, tag, argument, end, k - 1).value, end);
    }
  }

  // ---- bundles

  function IsBundle(m: seq<Byte>, p: nat, size: nat): bool
    requires p + size <= |m|
  {
    size > 0 && m[p] == HASH
  }

  // The constructor's loop: `p += 4 + elementSize` is 32-bit arithmetic.
  function ScanElements(m: seq<Byte>, p: nat, end: nat, count: nat): (r: Outcome<nat>)
    requires p <= end <= |m|
    decreases end - p
  {
    if p == end then Ok(count)
    else if p + 4 > end then Malformed
    else
      var elementSize := ToUInt32(m, p);
      var step := Low32(4 + elementSize);
      if elementSize % 4 != 0 then Malformed
      else if p + step > end then Malformed
      else if step == 0 then Diverges
      else ScanElements(m, p + step, end, count + 1)
  }

  function BundleInit(m: seq<Byte>, bundle: nat, size: nat): Outcome<nat>
    requires bundle + size <= |m|
  {
    if size > MAX_ELEMENT_SIZE || size < 16 || size % 4 != 0 then Malformed
    else if m[bundle..bundle + 8] != BUNDLE_HEAD then Malformed
    else ScanElements(m, bundle + 16, bundle + size, 0)
  }

  /** The constructor's loop; an iteration that leaves p where it is repeats for ever. */
  method InitBundle(m: seq<Byte>, bundle: nat, size: nat) returns (r: Outcome<nat>)
    requires bundle + size <= |m|
    ensures r == BundleInit(m, bundle, size)
  {
    if size > MAX_ELEMENT_SIZE || size < 16 || size % 4 != 0 { return Malformed; }
    if m[bundle..bundle + 8] != BUNDLE_HEAD { return Malformed; }
    var end := bundle + size;
    var p, elementCount := bundle + 16, 0;
    while p < end
      invariant p <= end
      invariant ScanElements(m, p, end, elementCount) == BundleInit(m, bundle, size)
      decreases end - p
    {
      if p + 4 > end { return Malformed; }
      var elementSize: uint32 := ToUInt32(m, p);
      if elementSize % 4 != 0 { return Malformed; }
      var before := p;
      p := p + Low32(4 + elementSize);
      if p > end { return Malformed; }
      if p == before { return Diverges; }
      elementCount := elementCount + 1;
    }
    return Ok(elementCount);
  }

  // The element positions the loop visits, each once.
  function Visited(m: seq<Byte>, p: nat, end: nat): (v: seq<nat>)
    requires p <= end <= |m|
    ensures forall q :: q in v ==> q + 4 <= end
    decreases end - p
  {
    if p + 4 > end then []
    else
      var step := Low32(4 + ToUInt32(m, p));
      if ToUInt32(m, p) % 4 != 0 || p + step > end || step == 0 then [p] else [p] + Visited(m, p + step, end)
  }

  const STUCK_SIZE: uint32 := 0xFFFF_FFFC

  /** The constructor's loop terminates unless it meets the one size whose 32-bit step is zero. */
  lemma {:induction false} DivergesOnlyOnStuckSize(m: seq<Byte>, p: nat, end: nat, count: nat)
    requires p <= end <= |m|
    ensures ScanElements(m, p, end, count) == Diverges <==>
            exists q :: q in Visited(m, p, end) && ToUInt32(m, q) == STUCK_SIZE
    decreases end - p
  {
    hide ToUInt32;
    if p + 4 <= end {
      var size: int := ToUInt32(m, p);
      var step: int := Low32(4 + size);
      StuckStep(size);
      hide Low32;
      if size % 4 == 0 && p + step <= end && step != 0 {
        DivergesOnlyOnStuckSize(m, p + step, end, count + 1);
        var rest := Visited(m, p + step, end);
        assert Visited(m, p, end) == [p] + rest;
        assert forall q :: q in [p] + rest <==> q == p || q in rest;
      } else {
        assert Visited(m, p, end) == [p];
        assert p in [p];
      }
    }
  }

  lemma StuckStep(size: int)
    requires 0 <= size < 0x1_0000_0000
    ensures Low32(4 + size) == 0 <==> size == STUCK_SIZE
  {
  }

  // A twenty-byte bundle on which the constructor never returns.
  lemma StuckBundle()
    ensures exists m: seq<Byte> :: |m| == 20 && BundleInit(m, 0, 20) == Diverges
  {
    var word: seq<Byte> := [255, 255, 255, 252];
    var m := BUNDLE_HEAD + Zeros(8) + word;
    assert m[0..8] == BUNDLE_HEAD;
    assert m[16] == 255 && m[17] == 255 && m[18] == 255 && m[19] == 252;
    assert ToUInt32(m, 16) == STUCK_SIZE;
    assert BundleInit(m, 0, 20) == ScanElements(m, 16, 20, 0);
  }

  // A message whose only blob claims more bytes than there are is accepted all the same.
  lemma OverrunAccepted()
    ensures exists m: seq<Byte> ::
              |m| == 12 && MessageInit(m, 0, 12) == Ok(TypeTags(5, 6, 8)) && BlobOverruns(m, 5, 8, 12)
  {
    var m: seq<Byte> := ['/' as Byte, 0, 0, 0, COMMA, BLOB_TAG, 0, 0, 0, 0, 0, 4];
    assert ToUInt32(m, 8) == 4;
    assert GroupEnd(m, 0, 12) == Some(4);
    assert GroupEnd(m, 4, 12) == Some(8);
    assert ArgumentEnd(m, BLOB_TAG, 8, 12) == Ok(16);
    assert ScanArguments(m, 5, 8, 12, 0) == Ok(Scan(6, 16, 0));
    assert BlobOverruns(m, 5, 8, 12);
  }

  // ---- element iteration

  // A bundle element's size is read as a signed word.
  function ElementSize(m: seq<Byte>, sizePtr: nat): int
    requires sizePtr + 4 <= |m|
  {
    var u := ToUInt32(m, sizePtr);
    if u < 0x8000_0000 then u else u - 0x1_0000_0000
  }

  class ElementIterator {
    const m: seq<Byte>
    var sizePtr: int

    constructor (m: seq<Byte>, sizePtr: nat)
      ensures this.m == m && this.sizePtr == sizePtr
    {
      this.m := m;
      this.sizePtr := sizePtr;
    }

    method Advance()
      requires 0 <= sizePtr && sizePtr + 4 <= |m|
      modifies this
      ensures sizePtr == old(sizePtr) + 4 + ElementSize(m, old(sizePtr))
    {
      sizePtr := sizePtr + 4 + ElementSize(m, sizePtr);
    }
  }

  // Where k steps of the element iterator lead.
  function SteppedBy(m: seq<Byte>, sizePtr: nat, k: nat): Option<nat>
    decreases k
  {
    if k == 0 then Some(sizePtr)
    else if sizePtr + 4 > |m| || ElementSize(m, sizePtr) < 0 then None
    else SteppedBy(m, sizePtr + 4 + ElementSize(m, sizePtr), k - 1)
  }

  /**
   In an accepted bundle the elements lie end to end: the iterator starts where the constructor counted each
   one, never passes the end, and stands on it after exactly `elementCount` steps.
   */
  lemma {:induction false} ElementsTile(m: seq<Byte>, p: nat, end: nat, count: nat, k: nat)
    requires p <= end <= |m| && end - p <= MAX_ELEMENT_SIZE
    requires ScanElements(m, p, end, count).Ok? && count + k <= ScanElements(m, p, end, count).value
    ensures SteppedBy(m, p, k).Some? && p <= SteppedBy(m, p, k).value <= end
    ensures SteppedBy(m, p, k).value == end <==> count + k == ScanElements(m, p, end, count).value
    decreases end - p
  {
    hide Low32, ToUInt32, ElementSize;
    if p < end {
      ScanCounts(m, p, end, count);
      if k > 0 {
        PlainStep(m, p, end);
        ElementsTile(m, p + 4 + ElementSize(m, p), end, count + 1, k - 1);
      }
    }
  }

  // Inside a bundle of permitted size the 32-bit step and the signed size agree.
  lemma PlainStep(m: seq<Byte>, p: nat, end: nat)
    requires p + 4 <= end <= |m| && end - p <= MAX_ELEMENT_SIZE
    requires ToUInt32(m, p) % 4 == 0 && p + Low32(4 + ToUInt32(m, p)) <= end && Low32(4 + ToUInt32(m, p)) != 0
    ensures ElementSize(m, p) >= 0 && Low32(4 + ToUInt32(m, p)) == 4 + ElementSize(m, p)
  {
    hide ToUInt32;
  }

  lemma {:induction false} ScanCounts(m: seq<Byte>, p: nat, end: nat, count: nat)
    requires p <= end <= |m|
    requires ScanElements(m, p, end, count).Ok?
    ensures ScanElements(m, p, end, count).value >= count + if p < end then 1 else 0
    decreases end - p
  {
    if p < end {
      ScanCounts(m, p + Low32(4 + ToUInt32(m, p)), end, count + 1);
    }
  }
}
