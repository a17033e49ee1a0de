/** The base64 encoder of the WebSocket handshake, against the decoder of section 4 of RFC 4648. */
module Base64 {
  import opened Wrappers
  import opened Bytes

  function EncodeLookup(): string {
    "ABCDEFGHIJKLMNOPQRSTUVWXYZ" + "abcdefghijklmnopqrstuvwxyz" + "0123456789+/"
  }
  const PAD_CHARACTER := '='

  function Symbol(v: int): char
    requires 0 <= v < 64
  {
    EncodeLookup()[v]
  }

  // The value of a character by Table 1 of the standard; the pad and all others have none.
  function Value(c: char): (v: Option<int>)
    ensures v.Some? ==> 0 <= v.value < 64
  {
    if 'A' <= c <= 'Z' then Some(c as int - 'A' as int)
    else if 'a' <= c <= 'z' then Some(26 + (c as int - 'a' as int))
    else if '0' <= c <= '9' then Some(52 + (c as int - '0' as int))
    else if c == '+' then Some(62)
    else if c == '/' then Some(63)
    else None
  }

  // ---- the encoder's result: three octets are four sextets, most significant bits first

  function Group(a: Byte, b: Byte, c: Byte): (g: string)
    ensures |g| == 4
  {
    [Symbol(a as int / 4), Symbol(a as int % 4 * 16 + b as int / 16),
     Symbol(b as int % 16 * 4 + c as int / 64), Symbol(c as int % 64)]
  }

  function Tail(s: seq<Byte>): string
    requires |s| < 3
  {
    if |s| == 0 then []
    else if |s| == 1 then Group(s[0], 0, 0)[..2] + [PAD_CHARACTER, PAD_CHARACTER]
    else Group(s[0], s[1], 0)[..3] + [PAD_CHARACTER]
  }

  function Encode(s: seq<Byte>): string {
    if |s| < 3 then Tail(s) else Group(s[0], s[1], s[2]) + Encode(s[3..])
  }

  // ---- the standard's decoder: whole quartets, padding at the end alone, no stray bits under it

  function Ungroup(a: int, b: int, c: int, d: int): (s: seq<Byte>)
    requires 0 <= a < 64 && 0 <= b < 64 && 0 <= c < 64 && 0 <= d < 64
    ensures |s| == 3
  {
    [(a * 4 + b / 16) as Byte, (b % 16 * 16 + c / 4) as Byte, (c % 4 * 64 + d) as Byte]
  }

  function DecodeTail(a: int, b: int, c: char, d: char): Option<seq<Byte>>
    requires 0 <= a < 64 && 0 <= b < 64
  {
    if c == PAD_CHARACTER && d == PAD_CHARACTER then
      if b % 16 == 0 then Some([(a * 4 + b / 16) as Byte]) else None
    else if d == PAD_CHARACTER && Value(c).Some? then
      var v := Value(c).value;
      if v % 4 == 0 then Some([(a * 4 + b / 16) as Byte, (b % 16 * 16 + v / 4) as Byte]) else None
    else None
  }

  function Decode(t: string): Option<seq<Byte>> {
    if t == [] then Some([])
    else if |t| < 4 then None
    else
      match (Value(t[0]), Value(t[1]), Value(t[2]), Value(t[3]))
      case (Some(a), Some(b), Some(c), Some(d)) =>
        (match Decode(t[4..])
         case Some(rest) => Some(Ungroup(a, b, c, d) + rest)
         case None => None)
      case (Some(a), Some(b), _, _) => if |t| == 4 then DecodeTail(a, b, t[2], t[3]) else None
      case _ => None
  }

  lemma SymbolCode(v: int)
    requires 0 <= v < 64
    ensures Symbol(v) as int ==
            if v < 26 then 65 + v else if v < 52 then 71 + v else if v < 62 then v - 4 else if v == 62 then 43 else 47
  {
  }

  lemma SymbolHasValue(v: int)
    requires 0 <= v < 64
    ensures Value(Symbol(v)) == Some(v)
  {
    SymbolCode(v);
    hide Symbol;
  }

  lemma ValueHasSymbol(c: char)
    requires Value(c).Some?
    ensures Symbol(Value(c).value) == c
  {
    SymbolCode(Value(c).value);
    hide Symbol;
  }

  lemma UngroupsGroup(a: Byte, b: Byte, c: Byte)
    ensures Ungroup(a as int / 4, a as int % 4 * 16 + b as int / 16,
                    b as int % 16 * 4 + c as int / 64, c as int % 64) == [a, b, c]
  {
  }

  lemma GroupsUngroup(a: int, b: int, c: int, d: int)
    requires 0 <= a < 64 && 0 <= b < 64 && 0 <= c < 64 && 0 <= d < 64
    ensures var s := Ungroup(a, b, c, d); Group(s[0], s[1], s[2]) == [Symbol(a), Symbol(b), Symbol(c), Symbol(d)]
  {
    hide Symbol;
    var s := Ungroup(a, b, c, d);
    Halves(a, b / 16, 4, s[0] as int);
    Halves(b % 16, c / 4, 16, s[1] as int);
    Halves(c % 4, d, 64, s[2] as int);
  }

  lemma Halves(high: int, low: int, n: int, whole: int)
    requires (n == 4 || n == 16 || n == 64) && 0 <= low < n && whole == high * n + low
    ensures whole / n == high && whole % n == low
  {
  }

  /** Decoding undoes encoding. */
  lemma {:induction false} DecodesEncoded(s: seq<Byte>)
    ensures Decode(Encode(s)) == Some(s)
    decreases |s|
  {
    hide Symbol, Value, Ungroup, DecodeTail;
    if |s| == 0 {
    } else if |s| < 3 {
      TailDecodes(s);
    } else {
      var a, b, c := s[0] as int, s[1] as int, s[2] as int;
      SymbolHasValue(a / 4);
      SymbolHasValue(a % 4 * 16 + b / 16);
      SymbolHasValue(b % 16 * 4 + c / 64);
      SymbolHasValue(c % 64);
      UngroupsGroup(s[0], s[1], s[2]);
      DecodesEncoded(s[3..]);
      assert Encode(s)[4..] == Encode(s[3..]);
      assert s == [s[0], s[1], s[2]] + s[3..];
    }
  }

  lemma TailDecodes(s: seq<Byte>)
    requires 0 < |s| < 3
    ensures Decode(Tail(s)) == Some(s)
  {
    hide Symbol, Value, Ungroup;
    PadHasNoValue();
    var a, b := s[0] as int, if |s| > 1 then s[1] as int else 0;
    SymbolHasValue(a / 4);
    SymbolHasValue(a % 4 * 16 + b / 16);
    SymbolHasValue(b % 16 * 4);
    PadIsNoSymbol(b % 16 * 4);
    var t := Tail(s);
    assert |t| == 4 && t[0] == Symbol(a / 4) && t[1] == Symbol(a % 4 * 16 + b / 16);
    assert Decode(t) == DecodeTail(a / 4, a % 4 * 16 + b / 16, t[2], t[3]);
    var d := DecodeTail(a / 4, a % 4 * 16 + b / 16, t[2], t[3]).value;
    assert d == s;
  }

  lemma PadIsNoSymbol(v: int)
    requires 0 <= v < 64
    ensures Symbol(v) != PAD_CHARACTER
  {
    SymbolHasValue(v);
    PadHasNoValue();
  }

  lemma PadHasNoValue()
    ensures Value(PAD_CHARACTER) == None
  {
  }

  /** Nothing else decodes to the same bytes: the encoding is the only accepted form. */
  lemma {:induction false} EncodesDecoded(t: string)
    requires Decode(t).Some?
    ensures Encode(Decode(t).value) == t
    decreases |t|
  {
    hide Symbol, Value, Ungroup, DecodeTail, Group;
    if t != [] {
      var s := Decode(t).value;
      ValueHasSymbol(t[0]);
      ValueHasSymbol(t[1]);
      var a, b := Value(t[0]).value, Value(t[1]).value;
      if Value(t[2]).Some? && Value(t[3]).Some? {
        var c, d := Value(t[2]).value, Value(t[3]).value;
        ValueHasSymbol(t[2]);
        ValueHasSymbol(t[3]);
        GroupsUngroup(a, b, c, d);
        EncodesDecoded(t[4..]);
        assert s == Ungroup(a, b, c, d) + Decode(t[4..]).value;
        assert s[3..] == Decode(t[4..]).value;
        assert t == [t[0], t[1], t[2], t[3]] + t[4..];
      } else {
        assert Decode(t) == DecodeTail(a, b, t[2], t[3]);
        TailEncodes(a, b, t[2], t[3]);
        assert t == [t[0], t[1], t[2], t[3]];
      }
    }
  }

  lemma TailEncodes(a: int, b: int, c: char, d: char)
    requires 0 <= a < 64 && 0 <= b < 64 && DecodeTail(a, b, c, d).Some?
    ensures Encode(DecodeTail(a, b, c, d).value) == [Symbol(a), Symbol(b), c, d]
  {
    hide Symbol, Value;
    if c != PAD_CHARACTER {
      ValueHasSymbol(c);
    } else {
      PadHasNoValue();
    }
  }

  lemma {:induction false} EncodedLength(s: seq<Byte>)
    ensures |Encode(s)| == 4 * ((|s| + 2) / 3)
    decreases |s|
  {
    hide Symbol;
    if |s| >= 3 {
      EncodedLength(s[3..]);
    }
  }

  lemma {:induction false} EncodeParts(a: seq<Byte>, b: seq<Byte>)
    requires |a| % 3 == 0
    ensures Encode(a + b) == Encode(a) + Encode(b)
    decreases |a|
  {
    hide Group, Tail;
    NoTail();
    if a == [] {
      assert a + b == b;
    } else {
      assert (a + b)[3..] == a[3..] + b;
      EncodeParts(a[3..], b);
    }
  }

  lemma NoTail()
    ensures Tail([]) == []
  {
  }

  // The 24 bits that the encoder gathers, taken six at a time.
  lemma Sextets(a: int, b: int, c: int, temp: int)
    requires 0 <= a < 256 && 0 <= b < 256 && 0 <= c < 256 && temp == a * 0x1_0000 + b * 0x100 + c
    ensures temp / 0x4_0000 % 0x40 == a / 4
    ensures temp / 0x1000 % 0x40 == a % 4 * 16 + b / 16
    ensures temp / 0x40 % 0x40 == b % 16 * 4 + c / 64
    ensures temp % 0x40 == c % 64
  {
    SixBits(a / 4, a % 4 * 16 + b / 16, b % 16 * 4 + c / 64, c % 64, temp);
  }

  lemma SixBits(p: int, q: int, r: int, s: int, temp: int)
    requires 0 <= p < 64 && 0 <= q < 64 && 0 <= r < 64 && 0 <= s < 64
    requires temp == p * 0x4_0000 + q * 0x1000 + r * 0x40 + s
    ensures temp / 0x4_0000 % 0x40 == p && temp / 0x1000 % 0x40 == q && temp / 0x40 % 0x40 == r && temp % 0x40 == s
  {
    assert temp / 0x40 == p * 0x1000 + q * 0x40 + r;
    assert temp / 0x1000 == p * 0x40 + q;
    assert temp / 0x4_0000 == p;
  }

  /** The encoder's loop: three bytes a turn, then what is left over. */
  method Base64(data: seq<Byte>) returns (encoded: string)
    ensures encoded == Encode(data)
  {
    hide Symbol;
    encoded := [];
    var cursor := 0;
    NoTail();
    for idx := 0 to |data| / 3
      invariant cursor == 3 * idx
      invariant encoded == Encode(data[..cursor])
    {
      var temp := data[cursor] as int * 0x1_0000;
      temp := temp + data[cursor + 1] as int * 0x100;
      temp := temp + data[cursor + 2] as int;
      Sextets(data[cursor] as int, data[cursor + 1] as int, data[cursor + 2] as int, temp);
      encoded := encoded + [Symbol(temp / 0x4_0000 % 0x40)];
      encoded := encoded + [Symbol(temp / 0x1000 % 0x40)];
      encoded := encoded + [Symbol(temp / 0x40 % 0x40)];
      encoded := encoded + [Symbol(temp % 0x40)];
      NextGroup(data, cursor);
      cursor := cursor + 3;
    }
    EncodeParts(data[..cursor], data[cursor..]);
    assert data == data[..cursor] + data[cursor..];
    ghost var done := encoded;
    if |data| % 3 == 1 {
      var temp := data[cursor] as int * 0x1_0000;
      Sextets(data[cursor] as int, 0, 0, temp);
      encoded := encoded + [Symbol(temp / 0x4_0000 % 0x40)];
      encoded := encoded + [Symbol(temp / 0x1000 % 0x40)];
      encoded := encoded + [PAD_CHARACTER, PAD_CHARACTER];
      assert encoded == done + Tail(data[cursor..]);
    } else if |data| % 3 == 2 {
      var temp := data[cursor] as int * 0x1_0000;
      temp := temp + data[cursor + 1] as int * 0x100;
      Sextets(data[cursor] as int, data[cursor + 1] as int, 0, temp);
      encoded := encoded + [Symbol(temp / 0x4_0000 % 0x40)];
      encoded := encoded + [Symbol(temp / 0x1000 % 0x40)];
      encoded := encoded + [Symbol(temp / 0x40 % 0x40)];
      encoded := encoded + [PAD_CHARACTER];
      assert encoded == done + Tail(data[cursor..]);
    }
  }

  lemma NextGroup(data: seq<Byte>, cursor: nat)
    requires cursor + 3 <= |data| && cursor % 3 == 0
    ensures Encode(data[..cursor + 3]) ==
            Encode(data[..cursor]) + Group(data[cursor], data[cursor + 1], data[cursor + 2])
  {
    var g := [data[cursor], data[cursor + 1], data[cursor + 2]];
    assert data[..cursor + 3] == data[..cursor] + g;
    EncodeParts(data[..cursor], g);
    hide Group;
    NoTail();
    assert g[3..] == [];
  }

  /** The test vectors of section 10 of the standard. */
  lemma TestVectors()
    ensures Encode([]) == "" && Encode([0x66]) == "Zg==" && Encode([0x66, 0x6f]) == "Zm8="
    ensures Encode([0x66, 0x6f, 0x6f]) == "Zm9v" && Encode([0x66, 0x6f, 0x6f, 0x62]) == "Zm9vYg=="
    ensures Encode([0x66, 0x6f, 0x6f, 0x62, 0x61]) == "Zm9vYmE="
    ensures Encode([0x66, 0x6f, 0x6f, 0x62, 0x61, 0x72]) == "Zm9vYmFy"
  {
    VectorGroups();
    VectorTails();
    hide Group, Encode;
    AfterGroup([0x66, 0x6f, 0x6f], []);
    AfterGroup([0x66, 0x6f, 0x6f, 0x62], [0x62]);
    AfterGroup([0x66, 0x6f, 0x6f, 0x62, 0x61], [0x62, 0x61]);
    AfterGroup([0x62, 0x61, 0x72], []);
    AfterGroup([0x66, 0x6f, 0x6f, 0x62, 0x61, 0x72], [0x62, 0x61, 0x72]);
    assert "Zm9v" + "" == "Zm9v" && "YmFy" + "" == "YmFy";
  }

  lemma VectorTails()
    ensures Encode([]) == "" && Encode([0x66]) == "Zg==" && Encode([0x66, 0x6f]) == "Zm8="
    ensures Encode([0x62]) == "Yg==" && Encode([0x62, 0x61]) == "YmE="
  {
    VectorGroups();
    hide Group;
  }

  lemma VectorGroups()
    ensures Group(0x66, 0x6f, 0x6f) == "Zm9v" && Group(0x62, 0x61, 0x72) == "YmFy"
    ensures Group(0x66, 0, 0)[..2] == "Zg" && Group(0x66, 0x6f, 0)[..3] == "Zm8"
    ensures Group(0x62, 0, 0)[..2] == "Yg" && Group(0x62, 0x61, 0)[..3] == "YmE"
  {
    SymbolCodes();
    hide Symbol;
  }

  lemma SymbolCodes()
    ensures forall v :: 0 <= v < 64 ==>
              Symbol(v) as int ==
              if v < 26 then 65 + v else if v < 52 then 71 + v else if v < 62 then v - 4 else if v == 62 then 43 else 47
  {
    forall v | 0 <= v < 64
      ensures Symbol(v) as int ==
              if v < 26 then 65 + v else if v < 52 then 71 + v else if v < 62 then v - 4 else if v == 62 then 43 else 47
    {
      SymbolCode(v);
    }
  }

  lemma AfterGroup(s: seq<Byte>, rest: seq<Byte>)
    requires |s| >= 3 && s[3..] == rest
    ensures Encode(s) == Group(s[0], s[1], s[2]) + Encode(rest)
  {
  }
}
