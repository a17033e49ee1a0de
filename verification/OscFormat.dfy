/**
 The byte format of Open Sound Control 1.0 as a recursive encoding of trees: messages with tagged
 arguments, and bundles of size-prefixed elements. Nothing here mentions buffers or cursors.
 */
module OscFormat {
  import opened Bytes

  const COMMA: Byte := ',' as Byte
  const HASH: Byte := '#' as Byte
  const ARRAY_BEGIN: Byte := '[' as Byte
  const ARRAY_END: Byte := ']' as Byte
  const BLOB_TAG: Byte := 'b' as Byte

  predicate IsFlagTag(t: Byte) {
    t == 'T' as Byte || t == 'F' as Byte || t == 'N' as Byte || t == 'I' as Byte || t == ARRAY_BEGIN || t == ARRAY_END
  }

  predicate IsWordTag(t: Byte) {
    t == 'i' as Byte || t == 'f' as Byte || t == 'c' as Byte || t == 'r' as Byte || t == 'm' as Byte
  }

  predicate IsLongTag(t: Byte) {
    t == 'h' as Byte || t == 't' as Byte || t == 'd' as Byte
  }

  predicate IsTextTag(t: Byte) {
    t == 's' as Byte || t == 'S' as Byte
  }

  type FlagTag = t: Byte | IsFlagTag(t) witness 'T' as Byte
  type WordTag = t: Byte | IsWordTag(t) witness 'i' as Byte
  type LongTag = t: Byte | IsLongTag(t) witness 'h' as Byte
  type TextTag = t: Byte | IsTextTag(t) witness 's' as Byte
  type CString = s: seq<Byte> | NoNul(s)

  const MAX_ELEMENT_SIZE := 0x7FFF_FFFC

  /** One message argument, by the shape of its payload. Numbers are their raw big-endian words. */
  datatype Arg =
    | Flag(flagTag: FlagTag)
    | Word(wordTag: WordTag, word: uint32)
    | Long(longTag: LongTag, long: uint64)
    | Text(textTag: TextTag, text: CString)
    | Blob(blob: seq<Byte>)
  {
    function Tag(): (t: Byte)
      ensures t != 0
    {
      match this
      case Flag(t) => t
      case Word(t, _) => t
      case Long(t, _) => t
      case Text(t, _) => t
      case Blob(_) => BLOB_TAG
    }

    function Payload(): (b: seq<Byte>) {
      match this
      case Flag(_) => []
      case Word(_, v) => BE32(v)
      case Long(_, v) => BE64(v)
      case Text(_, s) => Str4(s)
      case Blob(s) => BE32(Low32(|s|)) + s + Zeros(RoundUp4(|s|) - |s|)
    }
  }

  datatype Element =
    | Message(address: CString, args: seq<Arg>)
    | Bundle(timeTag: uint64, elements: seq<Element>)

  function Tags(args: seq<Arg>): (t: seq<Byte>)
    ensures |t| == |args|
  {
    seq(|args|, i requires 0 <= i < |args| => args[i].Tag())
  }

  function TagString(args: seq<Arg>): (b: seq<Byte>)
    ensures |b| == RoundUp4(|args| + 2)
  {
    Str4([COMMA] + Tags(args))
  }

  function Payloads(args: seq<Arg>): (b: seq<Byte>) {
    if args == [] then [] else args[0].Payload() + Payloads(args[1..])
  }

  const BUNDLE_HEAD: seq<Byte> :=
    ['#' as Byte, 'b' as Byte, 'u' as Byte, 'n' as Byte, 'd' as Byte, 'l' as Byte, 'e' as Byte, 0]

  function BundleHead(timeTag: uint64): (b: seq<Byte>)
    ensures |b| == 16
  {
    BUNDLE_HEAD + BE64(timeTag)
  }

  function Encode(e: Element): (b: seq<Byte>)
    ensures |b| >= 8
    decreases e, 1
  {
    match e
    case Message(address, args) => Str4(address) + TagString(args) + Payloads(args)
    case Bundle(timeTag, elements) => BundleHead(timeTag) + EncodeSized(elements)
  }

  function Sized(b: seq<Byte>): (s: seq<Byte>)
    ensures |s| == 4 + |b|
  {
    BE32(Low32(|b|)) + b
  }

  function EncodeSized(elements: seq<Element>): (b: seq<Byte>)
    decreases elements, 0
  {
    if elements == [] then [] else Sized(Encode(elements[0])) + EncodeSized(elements[1..])
  }

  // Top-level elements carry no size slot.
  function EncodeAll(elements: seq<Element>): (b: seq<Byte>) {
    if elements == [] then [] else Encode(elements[0]) + EncodeAll(elements[1..])
  }

  lemma {:induction false} PayloadsAppend(args: seq<Arg>, a: Arg)
    ensures Payloads(args + [a]) == Payloads(args) + a.Payload()
  {
    if args == [] {
      assert ([a])[1..] == [];
    } else {
      PayloadsAppend(args[1..], a);
      assert (args + [a])[1..] == args[1..] + [a];
      Assoc(args[0].Payload(), Payloads(args[1..]), a.Payload());
    }
  }

  lemma {:induction false} EncodeSizedAppend(es: seq<Element>, e: Element)
    ensures EncodeSized(es + [e]) == EncodeSized(es) + Sized(Encode(e))
  {
    if es == [] {
      assert ([e])[1..] == [];
    } else {
      EncodeSizedAppend(es[1..], e);
      assert (es + [e])[1..] == es[1..] + [e];
      Assoc(Sized(Encode(es[0])), EncodeSized(es[1..]), Sized(Encode(e)));
    }
  }

  lemma {:induction false} EncodeAllAppend(es: seq<Element>, e: Element)
    ensures EncodeAll(es + [e]) == EncodeAll(es) + Encode(e)
  {
    if es == [] {
      assert ([e])[1..] == [];
    } else {
      EncodeAllAppend(es[1..], e);
      assert (es + [e])[1..] == es[1..] + [e];
      Assoc(Encode(es[0]), EncodeAll(es[1..]), Encode(e));
    }
  }

  // ---- the type tags of the specification

  /** By their codes: T F N I and the brackets, i f c r m, h t d, s S, and b. */
  lemma TagCodes(t: Byte)
    ensures IsFlagTag(t) <==> t in {0x54, 0x46, 0x4e, 0x49, 0x5b, 0x5d}
    ensures IsWordTag(t) <==> t in {0x69, 0x66, 0x63, 0x72, 0x6d}
    ensures IsLongTag(t) <==> t in {0x68, 0x74, 0x64}
    ensures IsTextTag(t) <==> t in {0x73, 0x53}
    ensures ARRAY_BEGIN == 0x5b && ARRAY_END == 0x5d && BLOB_TAG == 0x62
  {}

  // ---- the examples of the specification

  const FREQUENCY: seq<Byte> :=
    [0x2f, 0x6f, 0x73, 0x63, 0x69, 0x6c, 0x6c, 0x61, 0x74, 0x6f, 0x72, 0x2f, 0x34, 0x2f, 0x66, 0x72,
     0x65, 0x71, 0x75, 0x65, 0x6e, 0x63, 0x79]
  const FOO: seq<Byte> := [0x2f, 0x66, 0x6f, 0x6f]
  const HELLO: seq<Byte> := [0x68, 0x65, 0x6c, 0x6c, 0x6f]

  // "/oscillator/4/frequency" with the float 440.0.
  const FREQUENCY_EXAMPLE: seq<Byte> :=
    FREQUENCY + [0, 0x2c, 0x66, 0, 0, 0x43, 0xdc, 0, 0]

  // "/foo" with 1000, -1, "hello", 1.234 and 5.678.
  const FOO_ARGS: seq<Arg> :=
    [Word('i' as Byte, 1000), Word('i' as Byte, 0xffff_ffff), Text('s' as Byte, HELLO),
     Word('f' as Byte, 0x3f9df3b6), Word('f' as Byte, 0x40b5b22d)]
  const FOO_EXAMPLE: seq<Byte> :=
    [0x2f, 0x66, 0x6f, 0x6f, 0, 0, 0, 0] + [0x2c, 0x69, 0x69, 0x73, 0x66, 0x66, 0, 0]
    + ([0, 0, 3, 0xe8] + [0xff, 0xff, 0xff, 0xff] + [0x68, 0x65, 0x6c, 0x6c, 0x6f, 0, 0, 0]
       + [0x3f, 0x9d, 0xf3, 0xb6] + [0x40, 0xb5, 0xb2, 0x2d])

  lemma LastDigit(q: nat, d: nat)
    requires d < 0x100
    ensures (q * 0x100 + d) / 0x100 == q && (q * 0x100 + d) % 0x100 == d
  {}

  lemma NextByte(q: nat, d: Byte, n: nat)
    ensures BigEndian(q * 0x100 + d as int, n + 1) == BigEndian(q, n) + [d]
  {
    LastDigit(q, d as int);
  }

  lemma WordBytes(v: uint32, a: Byte, b: Byte, c: Byte, d: Byte)
    requires v == ((a as int * 0x100 + b as int) * 0x100 + c as int) * 0x100 + d as int
    ensures BE32(v) == [a, b, c, d]
  {
    var ab := a as int * 0x100 + b as int;
    NextByte(0, a, 0);
    NextByte(a as int, b, 1);
    NextByte(ab, c, 2);
    NextByte(ab * 0x100 + c as int, d, 3);
    assert BigEndian(0, 0) + [a] + [b] + [c] + [d] == [a, b, c, d];
  }

  /** Both example messages of Open Sound Control 1.0, byte by byte. */
  lemma ExampleFrequency()
    ensures NoNul(FREQUENCY)
    ensures Encode(Message(FREQUENCY, [Word('f' as Byte, 0x43dc0000)])) == FREQUENCY_EXAMPLE
  {
    var args := [Word('f' as Byte, 0x43dc0000)];
    WordBytes(0x43dc0000, 0x43, 0xdc, 0, 0);
    assert args[1..] == [];
    assert Tags(args) == [0x66];
    assert Payloads(args) == [0x43, 0xdc, 0, 0];
    assert Str4(FREQUENCY) == FREQUENCY + [0];
  }

  lemma FooNumbers()
    ensures BE32(1000) == [0, 0, 3, 0xe8] && BE32(0xffff_ffff) == [0xff, 0xff, 0xff, 0xff]
    ensures BE32(0x3f9df3b6) == [0x3f, 0x9d, 0xf3, 0xb6] && BE32(0x40b5b22d) == [0x40, 0xb5, 0xb2, 0x2d]
  {
    WordBytes(1000, 0, 0, 3, 0xe8);
    WordBytes(0xffff_ffff, 0xff, 0xff, 0xff, 0xff);
    WordBytes(0x3f9df3b6, 0x3f, 0x9d, 0xf3, 0xb6);
    WordBytes(0x40b5b22d, 0x40, 0xb5, 0xb2, 0x2d);
  }

  lemma FooTexts()
    ensures NoNul(HELLO) && NoNul(FOO)
    ensures Str4(HELLO) == [0x68, 0x65, 0x6c, 0x6c, 0x6f, 0, 0, 0] && Str4(FOO) == [0x2f, 0x66, 0x6f, 0x6f, 0, 0, 0, 0]
    ensures TagString(FOO_ARGS) == [0x2c, 0x69, 0x69, 0x73, 0x66, 0x66, 0, 0]
  {
    assert Tags(FOO_ARGS) == [0x69, 0x69, 0x73, 0x66, 0x66];
    hide Tags;
  }

  lemma ExampleFoo()
    ensures NoNul(HELLO) && NoNul(FOO) && Encode(Message(FOO, FOO_ARGS)) == FOO_EXAMPLE
  {
    FooNumbers();
    FooTexts();
    hide Payloads, Str4, BE32, Tags, TagString;
    FivePayloads(FOO_ARGS[0], FOO_ARGS[1], FOO_ARGS[2], FOO_ARGS[3], FOO_ARGS[4]);
  }

  lemma FivePayloads(a: Arg, b: Arg, c: Arg, d: Arg, e: Arg)
    ensures Payloads([a, b, c, d, e]) == a.Payload() + b.Payload() + c.Payload() + d.Payload() + e.Payload()
  {
    hide Arg.Payload;
    PayloadsAppend([], a);
    PayloadsAppend([a], b);
    PayloadsAppend([a, b], c);
    PayloadsAppend([a, b, c], d);
    PayloadsAppend([a, b, c, d], e);
    assert [] + [a] == [a] && [a] + [b] == [a, b] && [a, b] + [c] == [a, b, c] && [a, b, c] + [d] == [a, b, c, d];
    assert [a, b, c, d] + [e] == [a, b, c, d, e];
  }

  /** A bundle for now around the first one: the mark, the time tag, and the element behind its size. */
  lemma ExampleBundle()
    ensures Encode(Bundle(1, [Message(FREQUENCY, [Word('f' as Byte, 0x43dc0000)])])) ==
            [0x23, 0x62, 0x75, 0x6e, 0x64, 0x6c, 0x65, 0, 0, 0, 0, 0, 0, 0, 0, 1] + ([0, 0, 0, 32] + FREQUENCY_EXAMPLE)
  {
    ExampleFrequency();
    ExampleHead();
    WordBytes(32, 0, 0, 0, 32);
    OneElement(1, Message(FREQUENCY, [Word('f' as Byte, 0x43dc0000)]));
    hide Encode, BE32, BundleHead;
  }

  lemma ExampleHead()
    ensures BundleHead(1) == [0x23, 0x62, 0x75, 0x6e, 0x64, 0x6c, 0x65, 0, 0, 0, 0, 0, 0, 0, 0, 1]
  {
    WordBytes(0, 0, 0, 0, 0);
    WordBytes(1, 0, 0, 0, 1);
    hide BE32;
  }

  lemma OneElement(timeTag: uint64, e: Element)
    ensures Encode(Bundle(timeTag, [e])) == BundleHead(timeTag) + (BE32(Low32(|Encode(e)|)) + Encode(e))
  {
    EncodeSizedAppend([], e);
    assert [] + [e] == [e];
    hide BE32, BundleHead;
  }

  lemma ExampleBlob()
    ensures Blob([1, 2, 3]).Payload() == [0, 0, 0, 3, 1, 2, 3, 0]
  {
    WordBytes(3, 0, 0, 0, 3);
  }
}
