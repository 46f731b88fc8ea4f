/** The part of encoding/json that the GraphQL response envelope relies on:
    the JSON grammar (RFC 8259) a json.RawMessage must match to be embedded,
    the escaping `json.Marshal` applies to a Go string, and a decoder that
    reads such a string back. It follows encoding/json as released in 2019
    (Go 1.13): U+0008 and U+000C are written as `\u0008` and `\u000c`, and
    the grammar sets no limit on how deeply values nest. */
module Json {
  import opened Go

  /** The byte of an ASCII character. */
  function Byte(c: char): byte
    requires c as int < 0x80
  {
    c as int as byte
  }

  /** The bytes of an ASCII string. */
  function Ascii(s: string): (r: seq<byte>)
    requires forall i | 0 <= i < |s| :: s[i] as int < 0x80
    ensures |r| == |s|
  {
    seq(|s|, i requires 0 <= i < |s| => Byte(s[i]))
  }

  predicate StartsWith(s: seq<byte>, prefix: seq<byte>) {
    |prefix| <= |s| && s[..|prefix|] == prefix
  }

  // ---------------------------------------------------------------------
  // The JSON grammar of RFC 8259, as a recogniser. Each function consumes
  // one construct from the front of its input and returns what follows it.
  // ---------------------------------------------------------------------

  predicate IsWs(b: byte) {
    b == 0x20 || b == 0x09 || b == 0x0A || b == 0x0D
  }

  predicate IsDigit(b: byte) {
    Byte('0') <= b <= Byte('9')
  }

  predicate IsHex(b: byte) {
    IsDigit(b) || Byte('a') <= b <= Byte('f') || Byte('A') <= b <= Byte('F')
  }

  /** Drops leading insignificant whitespace. */
  function SkipWs(s: seq<byte>): (r: seq<byte>)
    ensures |r| <= |s|
    ensures r == s[|s| - |r|..]
    ensures r != [] ==> !IsWs(r[0])
  {
    if s != [] && IsWs(s[0]) then SkipWs(s[1..]) else s
  }

  /** Drops a run of decimal digits. */
  function Digits(s: seq<byte>): (r: seq<byte>)
    ensures |r| <= |s|
    ensures s != [] && IsDigit(s[0]) ==> |r| < |s|
  {
    if s != [] && IsDigit(s[0]) then Digits(s[1..]) else s
  }

  /** The optional fraction `.` digits of a number. */
  function Fraction(b: seq<byte>): (r: Option<seq<byte>>)
    ensures r.Some? ==> |r.value| <= |b|
  {
    if b != [] && b[0] == Byte('.') then
      if |b| > 1 && IsDigit(b[1]) then Some(Digits(b[1..])) else None
    else Some(b)
  }

  /** The optional exponent `e`/`E`, sign, digits of a number. */
  function Exponent(d: seq<byte>): (r: Option<seq<byte>>)
    ensures r.Some? ==> |r.value| <= |d|
  {
    if d != [] && (d[0] == Byte('e') || d[0] == Byte('E')) then
      var f := if |d| > 1 && (d[1] == Byte('+') || d[1] == Byte('-')) then d[2..] else d[1..];
      if f != [] && IsDigit(f[0]) then Some(Digits(f)) else None
    else Some(d)
  }

  /** A number: `-`? int frac? exp?, where int has no leading zero. */
  function Number(s: seq<byte>): (r: Option<seq<byte>>)
    ensures r.Some? ==> |r.value| < |s|
  {
    var a := if s != [] && s[0] == Byte('-') then s[1..] else s;
    if a == [] || !IsDigit(a[0]) then None
    else
      var b := if a[0] == Byte('0') then a[1..] else Digits(a);
      match Fraction(b)
      case None => None
      case Some(d) => Exponent(d)
  }

  /** One of the literal names `true`, `false`, `null`. */
  function Keyword(s: seq<byte>, word: string): (r: Option<seq<byte>>)
    requires word == "true" || word == "false" || word == "null"
    ensures r.Some? ==> |r.value| < |s|
  {
    if StartsWith(s, Ascii(word)) then Some(s[|word|..]) else None
  }

  predicate IsSimpleEscape(b: byte) {
    b == Byte('"') || b == Byte('\\') || b == Byte('/') || b == Byte('b')
    || b == Byte('f') || b == Byte('n') || b == Byte('r') || b == Byte('t')
  }

  /** The rest of a string after its opening quote, up to and including the
      closing quote. Raw control characters are refused; bytes from 0x80 on
      are taken as they are (the grammar is about bytes, not UTF-8). */
  function StringTail(s: seq<byte>): (r: Option<seq<byte>>)
    ensures r.Some? ==> |r.value| < |s|
  {
    if s == [] then None
    else if s[0] == Byte('"') then Some(s[1..])
    else if s[0] < 0x20 then None
    else if s[0] == Byte('\\') then
      if |s| >= 2 && IsSimpleEscape(s[1]) then StringTail(s[2..])
      else if |s| >= 6 && s[1] == Byte('u') && IsHex(s[2]) && IsHex(s[3]) && IsHex(s[4]) && IsHex(s[5])
      then StringTail(s[6..])
      else None
    else StringTail(s[1..])
  }

  /** One value, after optional leading whitespace. */
  function Value(s: seq<byte>): (r: Option<seq<byte>>)
    ensures r.Some? ==> |r.value| < |s|
    decreases |s|, 0
  {
    var t := SkipWs(s);
    if t == [] then None
    else if t[0] == Byte('{') then Object(t[1..])
    else if t[0] == Byte('[') then Array(t[1..])
    else if t[0] == Byte('"') then StringTail(t[1..])
    else if t[0] == Byte('t') then Keyword(t, "true")
    else if t[0] == Byte('f') then Keyword(t, "false")
    else if t[0] == Byte('n') then Keyword(t, "null")
    else if t[0] == Byte('-') || IsDigit(t[0]) then Number(t)
    else None
  }

  /** An object after its `{`. */
  function Object(s: seq<byte>): (r: Option<seq<byte>>)
    ensures r.Some? ==> |r.value| < |s|
    decreases |s|, 2
  {
    var t := SkipWs(s);
    if t != [] && t[0] == Byte('}') then Some(t[1..]) else MemberList(t)
  }

  /** `"key" : value` pairs separated by commas, then the closing `}`. */
  function MemberList(s: seq<byte>): (r: Option<seq<byte>>)
    ensures r.Some? ==> |r.value| < |s|
    decreases |s|, 1
  {
    if s == [] || s[0] != Byte('"') then None
    else match StringTail(s[1..])
      case None => None
      case Some(a) =>
        var b := SkipWs(a);
        if b == [] || b[0] != Byte(':') then None
        else match Value(b[1..])
          case None => None
          case Some(c) =>
            var d := SkipWs(c);
            if d != [] && d[0] == Byte(',') then MemberList(SkipWs(d[1..]))
            else if d != [] && d[0] == Byte('}') then Some(d[1..])
            else None
  }

  /** An array after its `[`. */
  function Array(s: seq<byte>): (r: Option<seq<byte>>)
    ensures r.Some? ==> |r.value| < |s|
    decreases |s|, 2
  {
    var t := SkipWs(s);
    if t != [] && t[0] == Byte(']') then Some(t[1..]) else ElementList(t)
  }

  /** Values separated by commas, then the closing `]`. */
  function ElementList(s: seq<byte>): (r: Option<seq<byte>>)
    ensures r.Some? ==> |r.value| < |s|
    decreases |s|, 1
  {
    match Value(s)
    case None => None
    case Some(c) =>
      var d := SkipWs(c);
      if d != [] && d[0] == Byte(',') then ElementList(d[1..])
      else if d != [] && d[0] == Byte(']') then Some(d[1..])
      else None
  }

  /** `s` is one JSON text: a value with optional whitespace around it. This is
      what encoding/json demands of the bytes a json.RawMessage holds. */
  predicate ValidJson(s: seq<byte>): (r: bool)
    ensures r ==> SkipWs(s) != []
  {
    match Value(s)
    case None => false
    case Some(rest) => SkipWs(rest) == []
  }

  /** The bytes `null`. */
  const Null: seq<byte> := Ascii("null")

  lemma NullIsValid()
    ensures ValidJson(Null)
  {
    NullIsKeyword();
  }

  /** `null` is read as the keyword, with nothing left over. */
  lemma NullIsKeyword()
    ensures SkipWs(Null) == Null && Null[0] == Byte('n') && Keyword(Null, "null") == Some([])
  {
    assert |Null| == 4 && Null[0] == Byte('n');
    NoLeadingWs(Null);
    assert Null[..4] == Null && Null[4..] == [];
  }

  // ---------------------------------------------------------------------
  // A value is recognised the same way whatever follows it, provided what
  // follows cannot continue a number. This is what lets a json.RawMessage
  // be embedded inside a larger text.
  // ---------------------------------------------------------------------

  lemma DropAppend(x: seq<byte>, t: seq<byte>, k: nat)
    requires k <= |x|
    ensures (x + t)[k..] == x[k..] + t
  {
  }

  /** `t` begins with a byte that cannot continue a number. */
  predicate Delimits(t: seq<byte>) {
    t != [] && !IsDigit(t[0]) && t[0] != Byte('.') && t[0] != Byte('e') && t[0] != Byte('E')
  }

  lemma {:induction false} SkipWsAppend(s: seq<byte>, t: seq<byte>)
    ensures SkipWs(s + t) == if SkipWs(s) == [] then SkipWs(t) else SkipWs(s) + t
  {
    if s == [] {
      assert s + t == t;
    } else if IsWs(s[0]) {
      assert (s + t)[1..] == s[1..] + t;
      SkipWsAppend(s[1..], t);
    }
  }

  lemma {:induction false} DigitsAppend(s: seq<byte>, t: seq<byte>)
    ensures Digits(s + t) == if Digits(s) == [] then Digits(t) else Digits(s) + t
  {
    if s == [] {
      assert s + t == t;
    } else if IsDigit(s[0]) {
      assert (s + t)[1..] == s[1..] + t;
      DigitsAppend(s[1..], t);
    }
  }

  lemma FractionAppend(b: seq<byte>, t: seq<byte>, d: seq<byte>)
    requires Fraction(b) == Some(d)
    requires d != [] || Delimits(t)
    ensures Fraction(b + t) == Some(d + t)
  {
    if b == [] {
      assert b + t == t;
    } else if b[0] == Byte('.') {
      assert |b| > 1 && (b + t)[0] == b[0] && (b + t)[1] == b[1];
      assert (b + t)[1..] == b[1..] + t;
      assert d == Digits(b[1..]);
      DigitsAppend(b[1..], t);
      if d == [] {
        assert Digits(t) == t;
      }
      assert Digits((b + t)[1..]) == d + t;
    }
  }

  lemma ExponentAppend(d: seq<byte>, t: seq<byte>, r: seq<byte>)
    requires Exponent(d) == Some(r)
    requires r != [] || Delimits(t)
    ensures Exponent(d + t) == Some(r + t)
  {
    if d == [] {
      assert d + t == t;
    } else if d[0] == Byte('e') || d[0] == Byte('E') {
      assert |d| > 1 && (d + t)[0] == d[0] && (d + t)[1] == d[1];
      var f := if |d| > 1 && (d[1] == Byte('+') || d[1] == Byte('-')) then d[2..] else d[1..];
      var f' := if |d + t| > 1 && ((d + t)[1] == Byte('+') || (d + t)[1] == Byte('-')) then (d + t)[2..] else (d + t)[1..];
      assert |d| > 1;
      assert f' == f + t;
      assert r == Digits(f);
      DigitsAppend(f, t);
      if r == [] {
        assert Digits(t) == t;
      }
      assert Digits(f') == r + t;
    }
  }

  lemma NumberAppend(s: seq<byte>, t: seq<byte>, r: seq<byte>)
    requires Number(s) == Some(r)
    requires r != [] || Delimits(t)
    ensures Number(s + t) == Some(r + t)
  {
    var a := if s[0] == Byte('-') then s[1..] else s;
    SignAppend(s, t);
    var b := if a[0] == Byte('0') then a[1..] else Digits(a);
    var d := Fraction(b).value;
    IntegerAppend(a, t);
    FractionAppend(b, t, d);
    ExponentAppend(d, t, r);
  }

  /** The optional minus sign of a number is read the same way whatever follows. */
  lemma SignAppend(s: seq<byte>, t: seq<byte>)
    requires s != []
    ensures var a := if s[0] == Byte('-') then s[1..] else s;
            (if (s + t)[0] == Byte('-') then (s + t)[1..] else s + t) == a + t
  {
    DropAppend(s, t, 1);
  }

  /** The integer part of a number is read the same way whatever follows. */
  lemma IntegerAppend(a: seq<byte>, t: seq<byte>)
    requires a != [] && IsDigit(a[0])
    requires (if a[0] == Byte('0') then a[1..] else Digits(a)) != [] || Delimits(t)
    ensures (a + t)[0] == a[0]
    ensures (if (a + t)[0] == Byte('0') then (a + t)[1..] else Digits(a + t)) ==
            (if a[0] == Byte('0') then a[1..] else Digits(a)) + t
  {
    DropAppend(a, t, 1);
    DigitsAppend(a, t);
  }

  lemma {:induction false} StringTailAppend(s: seq<byte>, t: seq<byte>, r: seq<byte>)
    requires StringTail(s) == Some(r)
    ensures StringTail(s + t) == Some(r + t)
  {
    if s[0] == Byte('"') {
      assert (s + t)[1..] == s[1..] + t;
    } else if s[0] == Byte('\\') {
      if |s| >= 2 && IsSimpleEscape(s[1]) {
        assert (s + t)[2..] == s[2..] + t;
        StringTailAppend(s[2..], t, r);
      } else {
        assert (s + t)[6..] == s[6..] + t;
        StringTailAppend(s[6..], t, r);
      }
    } else {
      assert (s + t)[1..] == s[1..] + t;
      StringTailAppend(s[1..], t, r);
    }
  }

  lemma KeywordAppend(s: seq<byte>, word: string, t: seq<byte>, r: seq<byte>)
    requires word == "true" || word == "false" || word == "null"
    requires Keyword(s, word) == Some(r)
    ensures Keyword(s + t, word) == Some(r + t)
  {
    assert (s + t)[..|word|] == s[..|word|];
    assert (s + t)[|word|..] == s[|word|..] + t;
  }

  /** A value starts with a byte that is not whitespace. */
  lemma ValueStart(s: seq<byte>)
    requires Value(s).Some?
    ensures SkipWs(s) != []
  {
  }

  lemma {:induction false} ValueAppend(s: seq<byte>, t: seq<byte>, r: seq<byte>)
    requires Value(s) == Some(r)
    requires r != [] || Delimits(t)
    ensures Value(s + t) == Some(r + t)
    decreases |s|, 0
  {
    var u := SkipWs(s);
    ValueStart(s);
    SkipWsAppend(s, t);
    DropAppend(u, t, 1);
    if u[0] == Byte('{') {
      ObjectAppend(u[1..], t, r);
    } else if u[0] == Byte('[') {
      ArrayAppend(u[1..], t, r);
    } else if u[0] == Byte('"') {
      StringTailAppend(u[1..], t, r);
    } else if u[0] == Byte('t') {
      KeywordAppend(u, "true", t, r);
    } else if u[0] == Byte('f') {
      KeywordAppend(u, "false", t, r);
    } else if u[0] == Byte('n') {
      KeywordAppend(u, "null", t, r);
    } else {
      NumberAppend(u, t, r);
    }
  }

  lemma {:induction false} ObjectAppend(s: seq<byte>, t: seq<byte>, r: seq<byte>)
    requires Object(s) == Some(r)
    ensures Object(s + t) == Some(r + t)
    decreases |s|, 4
  {
    var v := SkipWs(s);
    assert v != [];
    assert SkipWs(s + t) == v + t by {
      SkipWsAppend(s, t);
    }
    if v[0] == Byte('}') {
      assert (v + t)[1..] == v[1..] + t;
    } else {
      assert MemberList(v) == Some(r);
      MemberListAppend(v, t, r);
    }
  }

  lemma {:induction false} MemberListAppend(s: seq<byte>, t: seq<byte>, r: seq<byte>)
    requires MemberList(s) == Some(r)
    ensures MemberList(s + t) == Some(r + t)
    decreases |s|, 3
  {
    var a := StringTail(s[1..]).value;
    var b := SkipWs(a);
    var c := Value(b[1..]).value;
    var d := SkipWs(c);
    MemberAppend(s, t, a, b, c, d);
    if d[0] == Byte(',') {
      var e := SkipWs(d[1..]);
      assert SkipWs(d[1..] + t) == e + t by {
        SkipWsAppend(d[1..], t);
      }
      MemberListAppend(e, t, r);
    }
  }

  /** One member of an object, the step MemberListAppend repeats: what
      follows the member's value decides the rest in the same way. */
  lemma MemberAppend(s: seq<byte>, t: seq<byte>, a: seq<byte>, b: seq<byte>, c: seq<byte>, d: seq<byte>)
    requires s != [] && s[0] == Byte('"') && StringTail(s[1..]) == Some(a)
    requires b == SkipWs(a) && b != [] && b[0] == Byte(':')
    requires Value(b[1..]) == Some(c) && d == SkipWs(c)
    requires MemberList(s).Some?
    ensures d != []
    ensures d[0] == Byte(',') ==> SkipWs(d[1..]) != [] && MemberList(s) == MemberList(SkipWs(d[1..]))
                                  && MemberList(s + t) == MemberList(SkipWs(d[1..] + t))
    ensures d[0] != Byte(',') ==> d[0] == Byte('}') && MemberList(s) == Some(d[1..])
                                  && MemberList(s + t) == Some(d[1..] + t)
    decreases |s|, 2
  {
    MemberUnfold(s, a, b, c, d);
    assert d != [];
    MemberSteps(s, t, a, b, c, d);
    MemberUnfold(s + t, a + t, b + t, c + t, d + t);
  }

  lemma MemberUnfold(s: seq<byte>, a: seq<byte>, b: seq<byte>, c: seq<byte>, d: seq<byte>)
    requires s != [] && s[0] == Byte('"') && StringTail(s[1..]) == Some(a)
    requires b == SkipWs(a) && b != [] && b[0] == Byte(':')
    requires Value(b[1..]) == Some(c) && d == SkipWs(c)
    ensures MemberList(s) == if d != [] && d[0] == Byte(',') then MemberList(SkipWs(d[1..]))
                             else if d != [] && d[0] == Byte('}') then Some(d[1..])
                             else None
  {
  }

  lemma {:induction false} MemberSteps(s: seq<byte>, t: seq<byte>, a: seq<byte>, b: seq<byte>, c: seq<byte>, d: seq<byte>)
    requires s != [] && StringTail(s[1..]) == Some(a)
    requires b == SkipWs(a) && b != []
    requires Value(b[1..]) == Some(c) && d == SkipWs(c) && d != []
    ensures (s + t)[0] == s[0] && StringTail((s + t)[1..]) == Some(a + t)
    ensures SkipWs(a + t) == b + t && (b + t)[0] == b[0] && (b + t)[1..] == b[1..] + t
    ensures Value(b[1..] + t) == Some(c + t)
    ensures SkipWs(c + t) == d + t && (d + t)[0] == d[0] && (d + t)[1..] == d[1..] + t
    decreases |s|, 1
  {
    assert StringTail((s + t)[1..]) == Some(a + t) by {
      DropAppend(s, t, 1);
      StringTailAppend(s[1..], t, a);
    }
    assert SkipWs(a + t) == b + t by {
      SkipWsAppend(a, t);
    }
    DropAppend(b, t, 1);
    assert Value(b[1..] + t) == Some(c + t) by {
      ValueAppend(b[1..], t, c);
    }
    assert SkipWs(c + t) == d + t by {
      SkipWsAppend(c, t);
    }
    DropAppend(d, t, 1);
  }

  lemma {:induction false} ArrayAppend(s: seq<byte>, t: seq<byte>, r: seq<byte>)
    requires Array(s) == Some(r)
    ensures Array(s + t) == Some(r + t)
    decreases |s|, 4
  {
    var v := SkipWs(s);
    assert v != [];
    assert SkipWs(s + t) == v + t by {
      SkipWsAppend(s, t);
    }
    if v[0] == Byte(']') {
      assert (v + t)[1..] == v[1..] + t;
    } else {
      assert ElementList(v) == Some(r);
      ElementListAppend(v, t, r);
    }
  }

  lemma {:induction false} ElementListAppend(s: seq<byte>, t: seq<byte>, r: seq<byte>)
    requires ElementList(s) == Some(r)
    ensures ElementList(s + t) == Some(r + t)
    decreases |s|, 3
  {
    var c := Value(s).value;
    var d := SkipWs(c);
    ElementUnfold(s, c, d);
    assert d != [];
    ValueAppend(s, t, c);
    SkipWsAppend(c, t);
    ElementUnfold(s + t, c + t, d + t);
    DropAppend(d, t, 1);
    if d[0] == Byte(',') {
      ElementListAppend(d[1..], t, r);
    }
  }

  /** One element of an array: what follows its value decides the rest. */
  lemma ElementUnfold(s: seq<byte>, c: seq<byte>, d: seq<byte>)
    requires Value(s) == Some(c) && d == SkipWs(c)
    ensures ElementList(s) == if d != [] && d[0] == Byte(',') then ElementList(d[1..])
                              else if d != [] && d[0] == Byte(']') then Some(d[1..])
                              else None
  {
  }

  /** A JSON text followed by a byte that ends a value is recognised as
      that value, its trailing whitespace, and then that byte. */
  lemma Embedded(s: seq<byte>, t: seq<byte>)
    requires ValidJson(s)
    requires Delimits(t) && !IsWs(t[0])
    ensures Value(s + t).Some? && SkipWs(Value(s + t).value) == t
  {
    var r := Value(s).value;
    ValueAppend(s, t, r);
    SkipWsAppend(r, t);
  }

  // ---------------------------------------------------------------------
  // Encoding a Go string as json.Marshal does (HTML escaping on).
  // ---------------------------------------------------------------------

  /** The lower-case hexadecimal digit for `d`. */
  function HexDigit(d: nat): (b: byte)
    requires d < 16
    ensures IsHex(b)
  {
    if d < 10 then Byte('0') + d as byte else Byte('a') + (d - 10) as byte
  }

  /** The UTF-8 encoding of one Unicode scalar value. */
  function Utf8(c: char): (r: seq<byte>)
    ensures 1 <= |r| <= 4
    ensures c as int >= 0x20 ==> r[0] >= 0x20
  {
    var v := c as int;
    if v < 0x80 then [v as byte]
    else if v < 0x800 then [(0xC0 + v / 0x40) as byte, (0x80 + v % 0x40) as byte]
    else if v < 0x1_0000 then
      [(0xE0 + v / 0x1000) as byte, (0x80 + v / 0x40 % 0x40) as byte, (0x80 + v % 0x40) as byte]
    else
      [(0xF0 + v / 0x4_0000) as byte, (0x80 + v / 0x1000 % 0x40) as byte,
       (0x80 + v / 0x40 % 0x40) as byte, (0x80 + v % 0x40) as byte]
  }

  /** How json.Marshal writes one character of a string: `"` and `\` are
      backslashed; newline, carriage return and tab get their short escapes;
      other control characters and the HTML-sensitive `<`, `>`, `&` become
      `\u00XX`; U+2028 and U+2029 become
      `\u2028` and `\u2029`; anything
      else is written as its UTF-8 bytes. */
  function EscapeChar(c: char): (r: seq<byte>)
    ensures 1 <= |r| <= 6
    ensures r[0] >= 0x20 && r[0] != Byte('"')
    ensures c as int < 0x80 && c !in "\"\\<>&" && c as int >= 0x20 ==> r == [Byte(c)]
  {
    var v := c as int;
    if c == '"' then Ascii("\\\"")
    else if c == '\\' then Ascii("\\\\")
    else if c == '\n' then Ascii("\\n")
    else if c == '\r' then Ascii("\\r")
    else if c == '\t' then Ascii("\\t")
    else if v < 0x20 || c == '<' || c == '>' || c == '&' then
      Ascii("\\u00") + [HexDigit(v / 16), HexDigit(v % 16)]
    else if v == 0x2028 || v == 0x2029 then Ascii("\\u202") + [HexDigit(v % 16)]
    else Utf8(c)
  }

  function Escape(m: string): (r: seq<byte>)
    ensures |r| >= |m|
  {
    if m == "" then [] else EscapeChar(m[0]) + Escape(m[1..])
  }

  /** A Go string as a JSON string. */
  function Quote(m: string): (r: seq<byte>)
    ensures |r| >= 2 && r[0] == r[|r| - 1] == Byte('"')
  {
    [Byte('"')] + Escape(m) + [Byte('"')]
  }

  // ---------------------------------------------------------------------
  // Decoding a JSON string back to characters.
  // ---------------------------------------------------------------------

  function HexValue(b: byte): (d: nat)
    requires IsHex(b)
    ensures d < 16
  {
    if IsDigit(b) then (b - Byte('0')) as nat
    else if Byte('a') <= b then (b - Byte('a')) as nat + 10
    else (b - Byte('A')) as nat + 10
  }

  predicate IsScalar(v: int) {
    0 <= v < 0xD800 || 0xE000 <= v < 0x11_0000
  }

  predicate IsCont(b: byte) {
    0x80 <= b < 0xC0
  }

  /** One UTF-8 encoded scalar value from the front of `s`; overlong forms,
      surrogates and values past U+10FFFF are refused. */
  function Utf8Decode(s: seq<byte>): (r: Option<(char, seq<byte>)>)
    ensures r.Some? ==> |r.value.1| < |s|
  {
    if s == [] then None
    else
      var b0 := s[0] as int;
      if b0 < 0x80 then Some((b0 as char, s[1..]))
      else if 0xC0 <= b0 < 0xE0 && |s| >= 2 && IsCont(s[1]) then
        var v := (b0 - 0xC0) * 0x40 + (s[1] as int - 0x80);
        if 0x80 <= v then Some((v as char, s[2..])) else None
      else if 0xE0 <= b0 < 0xF0 && |s| >= 3 && IsCont(s[1]) && IsCont(s[2]) then
        var v := (b0 - 0xE0) * 0x1000 + (s[1] as int - 0x80) * 0x40 + (s[2] as int - 0x80);
        if 0x800 <= v && IsScalar(v) then Some((v as char, s[3..])) else None
      else if 0xF0 <= b0 < 0xF8 && |s| >= 4 && IsCont(s[1]) && IsCont(s[2]) && IsCont(s[3]) then
        var v := (b0 - 0xF0) * 0x4_0000 + (s[1] as int - 0x80) * 0x1000
                 + (s[2] as int - 0x80) * 0x40 + (s[3] as int - 0x80);
        if 0x1_0000 <= v && IsScalar(v) then Some((v as char, s[4..])) else None
      else None
  }

  /** One character of a string body: an escape sequence or a UTF-8 scalar. */
  function DecodeUnit(s: seq<byte>): (r: Option<(char, seq<byte>)>)
    ensures r.Some? ==> |r.value.1| < |s|
  {
    if s == [] then None
    else if s[0] == Byte('\\') then
      if |s| < 2 then None
      else if s[1] == Byte('"') then Some(('"', s[2..]))
      else if s[1] == Byte('\\') then Some(('\\', s[2..]))
      else if s[1] == Byte('/') then Some(('/', s[2..]))
      else if s[1] == Byte('b') then Some((8 as char, s[2..]))
      else if s[1] == Byte('f') then Some((12 as char, s[2..]))
      else if s[1] == Byte('n') then Some(('\n', s[2..]))
      else if s[1] == Byte('r') then Some(('\r', s[2..]))
      else if s[1] == Byte('t') then Some(('\t', s[2..]))
      else if s[1] == Byte('u') && |s| >= 6 && IsHex(s[2]) && IsHex(s[3]) && IsHex(s[4]) && IsHex(s[5]) then
        var v := HexValue(s[2]) * 0x1000 + HexValue(s[3]) * 0x100 + HexValue(s[4]) * 0x10 + HexValue(s[5]);
        if IsScalar(v) then Some((v as char, s[6..])) else None
      else None
    else if s[0] < 0x20 then None
    else Utf8Decode(s)
  }

  /** The characters of a string body up to its closing quote, and what
      follows that quote. */
  function DecodeString(s: seq<byte>): (r: Option<(string, seq<byte>)>)
    ensures r.Some? ==> |r.value.1| < |s|
  {
    if s == [] then None
    else if s[0] == Byte('"') then Some(("", s[1..]))
    else match DecodeUnit(s)
      case None => None
      case Some((c, rest)) =>
        match DecodeString(rest)
        case None => None
        case Some((m, after)) => Some(([c] + m, after))
  }

  /** A JSON string from the front of `s`, and what follows it. */
  function Unquote(s: seq<byte>): (r: Option<(string, seq<byte>)>)
    ensures r.Some? ==> |r.value.1| < |s|
  {
    if s != [] && s[0] == Byte('"') then DecodeString(s[1..]) else None
  }

  // ---------------------------------------------------------------------
  // Encoding and decoding agree.
  // ---------------------------------------------------------------------

  lemma HexRoundTrip(d: nat)
    requires d < 16
    ensures HexValue(HexDigit(d)) == d
  {
  }

  lemma Utf8TwoBytes(c: char, t: seq<byte>)
    requires 0x80 <= c as int < 0x800
    ensures Utf8Decode(Utf8(c) + t) == Some((c, t))
  {
    var v := c as int;
    var s := Utf8(c) + t;
    assert s[2..] == t;
    assert (s[0] as int - 0xC0) * 0x40 + (s[1] as int - 0x80) == v;
  }

  lemma Utf8ThreeBytes(c: char, t: seq<byte>)
    requires 0x800 <= c as int < 0x1_0000
    ensures Utf8Decode(Utf8(c) + t) == Some((c, t))
  {
    var v := c as int;
    var s := Utf8(c) + t;
    assert s[3..] == t;
    assert (s[0] as int - 0xE0) * 0x1000 + (s[1] as int - 0x80) * 0x40 + (s[2] as int - 0x80) == v;
  }

  lemma Utf8FourBytes(c: char, t: seq<byte>)
    requires 0x1_0000 <= c as int
    ensures Utf8Decode(Utf8(c) + t) == Some((c, t))
  {
    var v := c as int;
    var s := Utf8(c) + t;
    assert s[4..] == t;
    var q := v / 0x40;
    assert v == q * 0x40 + v % 0x40;
    assert v / 0x1000 == q / 0x40;
    assert q == q / 0x40 * 0x40 + q % 0x40;
    assert v / 0x4_0000 == q / 0x40 / 0x40;
    assert (s[0] as int - 0xF0) * 0x4_0000 + (s[1] as int - 0x80) * 0x1000
           + (s[2] as int - 0x80) * 0x40 + (s[3] as int - 0x80) == v;
  }

  /** UTF-8 decoding undoes UTF-8 encoding, for every scalar value that is
      not a control character. */
  lemma Utf8RoundTrip(c: char, t: seq<byte>)
    requires c as int >= 0x20
    ensures Utf8(c)[0] >= 0x20
    ensures Utf8Decode(Utf8(c) + t) == Some((c, t))
  {
    var v := c as int;
    if v < 0x80 {
      assert (Utf8(c) + t)[1..] == t;
    } else if v < 0x800 {
      Utf8TwoBytes(c, t);
    } else if v < 0x1_0000 {
      Utf8ThreeBytes(c, t);
    } else {
      Utf8FourBytes(c, t);
    }
  }

  lemma DivMod64(v: int, q: int, r: int)
    requires 0 <= r < 0x40 && v == q * 0x40 + r
    ensures v / 0x40 == q && v % 0x40 == r
  {
  }

  lemma Utf8DecodeTwo(s: seq<byte>, c: char, t: seq<byte>)
    requires |s| >= 2 && 0xC0 <= s[0] < 0xE0 && Utf8Decode(s) == Some((c, t))
    ensures s == Utf8(c) + t
  {
    var x, y := s[0] as int - 0xC0, s[1] as int - 0x80;
    var v := c as int;
    assert v == x * 0x40 + y && 0x80 <= v < 0x800;
    DivMod64(v, x, y);
    assert s[..2] == Utf8(c);
    assert s == s[..2] + s[2..];
  }

  lemma Utf8DecodeThree(s: seq<byte>, c: char, t: seq<byte>)
    requires |s| >= 3 && 0xE0 <= s[0] < 0xF0 && Utf8Decode(s) == Some((c, t))
    ensures s == Utf8(c) + t
  {
    var x, y, z := s[0] as int - 0xE0, s[1] as int - 0x80, s[2] as int - 0x80;
    var v := c as int;
    var q := x * 0x40 + y;
    assert v == q * 0x40 + z && 0x800 <= v < 0x1_0000;
    DivMod64(v, q, z);
    DivMod64(q, x, y);
    assert v / 0x1000 == q / 0x40;
    assert s[..3] == Utf8(c);
    assert s == s[..3] + s[3..];
  }

  lemma Utf8DecodeFour(s: seq<byte>, c: char, t: seq<byte>)
    requires |s| >= 4 && 0xF0 <= s[0] < 0xF8 && Utf8Decode(s) == Some((c, t))
    ensures s == Utf8(c) + t
  {
    var w, x, y, z := s[0] as int - 0xF0, s[1] as int - 0x80, s[2] as int - 0x80, s[3] as int - 0x80;
    var v := c as int;
    var p := w * 0x40 + x;
    var q := p * 0x40 + y;
    assert v == q * 0x40 + z && 0x1_0000 <= v;
    DivMod64(v, q, z);
    DivMod64(q, p, y);
    DivMod64(p, w, x);
    assert v / 0x1000 == q / 0x40;
    assert v / 0x4_0000 == p / 0x40;
    assert s[..4] == Utf8(c);
    assert s == s[..4] + s[4..];
  }

  /** UTF-8 decoding accepts nothing but the encoding itself: whatever it
      decodes is the one UTF-8 form of the value it returns, so overlong
      forms, surrogates and values past U+10FFFF are refused. */
  lemma Utf8Canonical(s: seq<byte>, c: char, t: seq<byte>)
    requires Utf8Decode(s) == Some((c, t))
    ensures s == Utf8(c) + t
  {
    if s[0] < 0x80 {
      assert s == [s[0]] + s[1..];
    } else if s[0] < 0xE0 {
      Utf8DecodeTwo(s, c, t);
    } else if s[0] < 0xF0 {
      Utf8DecodeThree(s, c, t);
    } else {
      Utf8DecodeFour(s, c, t);
    }
  }

  /** A `\u00XX` escape decodes back to its character. */
  lemma HexEscapeRoundTrip(c: char, t: seq<byte>)
    requires c as int < 0x20 || c == '<' || c == '>' || c == '&'
    requires c != '"' && c != '\\' && c != '\n' && c != '\r' && c != '\t'
    ensures DecodeUnit(EscapeChar(c) + t) == Some((c, t))
  {
    var v := c as int;
    var s := EscapeChar(c) + t;
    assert s[6..] == t;
    HexRoundTrip(v / 16);
    HexRoundTrip(v % 16);
    assert HexValue(s[2]) == 0 && HexValue(s[3]) == 0;
  }

  lemma EscapeCharRoundTrip(c: char, t: seq<byte>)
    ensures EscapeChar(c)[0] != Byte('"')
    ensures DecodeUnit(EscapeChar(c) + t) == Some((c, t))
  {
    var v := c as int;
    var e := EscapeChar(c);
    var s := e + t;
    if c == '"' || c == '\\' || c == '\n' || c == '\r' || c == '\t' {
      assert s[2..] == t;
    } else if v < 0x20 || c == '<' || c == '>' || c == '&' {
      HexEscapeRoundTrip(c, t);
    } else if v == 0x2028 || v == 0x2029 {
      assert s[6..] == t;
      HexRoundTrip(v % 16);
      assert HexValue(s[2]) == 2 && HexValue(s[3]) == 0 && HexValue(s[4]) == 2;
    } else {
      Utf8RoundTrip(c, t);
    }
  }

  lemma {:induction false} EscapeRoundTrip(m: string, t: seq<byte>)
    ensures DecodeString(Escape(m) + [Byte('"')] + t) == Some((m, t))
  {
    if m == "" {
      assert Escape(m) + [Byte('"')] + t == [Byte('"')] + t;
    } else {
      var rest := Escape(m[1..]) + [Byte('"')] + t;
      assert Escape(m) + [Byte('"')] + t == EscapeChar(m[0]) + rest;
      EscapeCharRoundTrip(m[0], rest);
      EscapeRoundTrip(m[1..], t);
      assert [m[0]] + m[1..] == m;
    }
  }

  /** Decoding a quoted string gives back the string and leaves what followed. */
  lemma UnquoteQuote(m: string, t: seq<byte>)
    ensures Unquote(Quote(m) + t) == Some((m, t))
  {
    assert (Quote(m) + t)[1..] == Escape(m) + [Byte('"')] + t;
    EscapeRoundTrip(m, t);
  }
  // ---------------------------------------------------------------------
  // What json.Marshal writes for a string is a JSON string.
  // ---------------------------------------------------------------------

  /** A byte the string grammar takes as it is: no control character, no
      quote, no backslash. */
  predicate IsPlain(b: byte) {
    0x20 <= b && b != Byte('"') && b != Byte('\\')
  }

  lemma {:induction false} PlainTail(p: seq<byte>, t: seq<byte>)
    requires forall i | 0 <= i < |p| :: IsPlain(p[i])
    ensures StringTail(p + t) == StringTail(t)
  {
    if p == [] {
      assert p + t == t;
    } else {
      DropAppend(p, t, 1);
      assert (p + t)[0] == p[0];
      PlainTail(p[1..], t);
    }
  }

  lemma Utf8Plain(c: char)
    requires c as int >= 0x20 && c != '"' && c != '\\'
    ensures forall i | 0 <= i < |Utf8(c)| :: IsPlain(Utf8(c)[i])
  {
    if c as int >= 0x80 {
      assert forall i | 0 <= i < |Utf8(c)| :: Utf8(c)[i] >= 0x80;
    }
  }

  /** Each escaped character is one step of the string grammar. */
  lemma EscapeCharTail(c: char, t: seq<byte>)
    ensures StringTail(EscapeChar(c) + t) == StringTail(t)
  {
    var v := c as int;
    var s := EscapeChar(c) + t;
    if c == '"' || c == '\\' || c == '\n' || c == '\r' || c == '\t' {
      assert s[0] == Byte('\\') && IsSimpleEscape(s[1]);
      DropAppend(EscapeChar(c), t, 2);
    } else if v < 0x20 || c == '<' || c == '>' || c == '&' || v == 0x2028 || v == 0x2029 {
      assert s[0] == Byte('\\') && s[1] == Byte('u') && !IsSimpleEscape(s[1]);
      assert IsHex(s[2]) && IsHex(s[3]) && IsHex(s[4]) && IsHex(s[5]);
      DropAppend(EscapeChar(c), t, 6);
    } else {
      Utf8Plain(c);
      PlainTail(Utf8(c), t);
    }
  }

  lemma {:induction false} EscapeTail(m: string, t: seq<byte>)
    ensures StringTail(Escape(m) + ([Byte('"')] + t)) == Some(t)
  {
    if m == "" {
      assert Escape(m) + ([Byte('"')] + t) == [Byte('"')] + t;
    } else {
      var rest := Escape(m[1..]) + ([Byte('"')] + t);
      assert Escape(m) + ([Byte('"')] + t) == EscapeChar(m[0]) + rest;
      EscapeCharTail(m[0], rest);
      EscapeTail(m[1..], t);
    }
  }

  /** A string that json.Marshal writes as it is, with nothing escaped. */
  predicate Verbatim(m: string) {
    forall i | 0 <= i < |m| :: 0x20 <= m[i] as int < 0x80 && m[i] !in "\"\\<>&"
  }

  lemma {:induction false} EscapeVerbatim(m: string)
    requires Verbatim(m)
    ensures Escape(m) == Ascii(m)
  {
    if m != "" {
      VerbatimTail(m);
      EscapeVerbatim(m[1..]);
      AsciiCons(m);
    }
  }

  /** What follows the first character of a verbatim string is verbatim, and
      that character is written as its own byte. */
  lemma VerbatimTail(m: string)
    requires m != "" && Verbatim(m)
    ensures Verbatim(m[1..]) && EscapeChar(m[0]) == [Byte(m[0])]
  {
    assert forall i | 0 <= i < |m| - 1 :: m[1..][i] == m[i + 1];
  }

  /** Ascii works byte by byte from the front. */
  lemma AsciiCons(m: string)
    requires m != "" && forall i | 0 <= i < |m| :: m[i] as int < 0x80
    ensures Ascii(m) == [Byte(m[0])] + Ascii(m[1..])
  {
  }

  lemma {:induction false} EscapeAppend(a: string, b: string)
    ensures Escape(a + b) == Escape(a) + Escape(b)
  {
    if a == "" {
      assert a + b == b;
    } else {
      assert (a + b)[0] == a[0] && (a + b)[1..] == a[1..] + b;
      EscapeAppend(a[1..], b);
    }
  }

  /** A quoted string, then `t`: the opening quote and what follows it. */
  lemma QuoteSplit(m: string, t: seq<byte>)
    ensures var s := Quote(m) + t; s[0] == Byte('"') && s[1..] == Escape(m) + ([Byte('"')] + t)
  {
    Enclosed(Byte('"'), Escape(m), Byte('"'), t);
    Behind(Byte('"'), Escape(m) + ([Byte('"')] + t));
  }

  /** Only regroups a concatenation, so that no proof about the bytes pays for it. */
  lemma Enclosed(a: byte, x: seq<byte>, b: byte, t: seq<byte>)
    ensures [a] + x + [b] + t == [a] + (x + ([b] + t))
  {
  }

  /** A quoted Go string is one JSON value, whatever follows it. */
  lemma QuoteIsValue(m: string, t: seq<byte>)
    ensures Value(Quote(m) + t) == Some(t)
  {
    QuoteSplit(m, t);
    NoLeadingWs(Quote(m) + t);
    EscapeTail(m, t);
  }

  /** A member name that is written as it is. */
  predicate PlainName(name: string) {
    forall i | 0 <= i < |name| :: 0x20 <= name[i] as int < 0x80 && name[i] != '"' && name[i] != '\\'
  }

  /** The bytes `"name":` that open an object member. */
  function Key(name: string): (r: seq<byte>)
    requires PlainName(name)
    ensures |r| == |name| + 3 && r[0] == Byte('"')
  {
    [Byte('"')] + (Ascii(name) + [Byte('"'), Byte(':')])
  }

  /** A member `"name":` v, then the rest of the object: after a member
      whose value is followed by `}` the object ends, and after one
      followed by `,` the next member starts. */
  lemma MemberThen(name: string, v: seq<byte>, u: seq<byte>)
    requires PlainName(name)
    requires u != [] && Value(v + u).Some? && SkipWs(Value(v + u).value) == u
    ensures u[0] == Byte('}') ==> MemberList(Key(name) + (v + u)) == Some(u[1..])
    ensures u[0] == Byte(',') ==> MemberList(Key(name) + (v + u)) == MemberList(SkipWs(u[1..]))
  {
    var a := [Byte(':')] + (v + u);
    KeyTail(name, v + u);
    assert SkipWs(a) == a && a[0] == Byte(':') && a[1..] == v + u;
    MemberUnfold(Key(name) + (v + u), a, a, Value(v + u).value, u);
  }

  /** The name of a member is one JSON string, followed by its colon. */
  lemma KeyTail(name: string, x: seq<byte>)
    requires PlainName(name)
    ensures var s := Key(name) + x;
            s[0] == Byte('"') && StringTail(s[1..]) == Some([Byte(':')] + x)
  {
    var n := Ascii(name);
    var y := [Byte('"')] + ([Byte(':')] + x);
    var s := Key(name) + x;
    assert s == [Byte('"')] + (n + y);
    assert s[1..] == n + y;
    assert forall i | 0 <= i < |n| :: IsPlain(n[i]);
    PlainTail(n, y);
  }
  /** Input that starts with a non-blank byte has no whitespace to skip. */
  lemma NoLeadingWs(s: seq<byte>)
    requires s != [] && !IsWs(s[0])
    ensures SkipWs(s) == s
  {
  }

  /** A byte put in front of `x`, and what follows it. */
  lemma Behind(b: byte, x: seq<byte>)
    ensures ([b] + x)[0] == b && ([b] + x)[1..] == x
  {
  }

  /** An object, seen from its opening brace. */
  lemma ObjectOf(x: seq<byte>)
    requires x != [] && !IsWs(x[0])
    ensures Value([Byte('{')] + x) == if x[0] == Byte('}') then Some(x[1..]) else MemberList(x)
  {
    Behind(Byte('{'), x);
    NoLeadingWs([Byte('{')] + x);
    NoLeadingWs(x);
  }

  /** An array, seen from its opening bracket. */
  lemma ArrayOf(x: seq<byte>)
    requires x != [] && !IsWs(x[0])
    ensures Value([Byte('[')] + x) == if x[0] == Byte(']') then Some(x[1..]) else ElementList(x)
  {
    Behind(Byte('['), x);
    NoLeadingWs([Byte('[')] + x);
    NoLeadingWs(x);
  }

  /** One element of an array, then the rest of the array. */
  lemma ElementThen(v: seq<byte>, u: seq<byte>)
    requires u != [] && !IsWs(u[0]) && Value(v + u) == Some(u)
    ensures u[0] == Byte(']') ==> ElementList(v + u) == Some(u[1..])
    ensures u[0] == Byte(',') ==> ElementList(v + u) == ElementList(u[1..])
  {
    assert SkipWs(u) == u;
  }
  /** A closing brace, then `t`. */
  lemma BraceBefore(t: seq<byte>)
    ensures var u := [Byte('}')] + t; SkipWs(u) == u && u[0] == Byte('}') && u[1..] == t
  {
    var u := [Byte('}')] + t;
    assert u[1..] == t;
  }

  /** An object with the one member `"name":` v, then `t`. */
  lemma ObjectWithOne(name: string, v: seq<byte>, t: seq<byte>)
    requires PlainName(name)
    requires Value(v + ([Byte('}')] + t)) == Some([Byte('}')] + t)
    ensures Value([Byte('{')] + (Key(name) + (v + ([Byte('}')] + t)))) == Some(t)
  {
    var u := [Byte('}')] + t;
    BraceBefore(t);
    MemberThen(name, v, u);
    ObjectOf(Key(name) + (v + u));
  }

  /** An object whose only member is `"name":` v is a JSON text. */
  lemma ObjectWithLast(name: string, v: seq<byte>)
    requires PlainName(name)
    requires Value(v + [Byte('}')]).Some? && SkipWs(Value(v + [Byte('}')]).value) == [Byte('}')]
    ensures ValidJson([Byte('{')] + (Key(name) + (v + [Byte('}')])))
  {
    var u := [Byte('}')];
    MemberThen(name, v, u);
    ObjectOf(Key(name) + (v + u));
  }

  /** The member `"name":` v closing an object. */
  lemma MemberLast(name: string, v: seq<byte>)
    requires PlainName(name)
    requires Value(v + [Byte('}')]).Some? && SkipWs(Value(v + [Byte('}')]).value) == [Byte('}')]
    ensures MemberList(Key(name) + (v + [Byte('}')])) == Some([])
  {
    MemberThen(name, v, [Byte('}')]);
  }

  /** An object whose members run to its closing brace is a JSON text. */
  lemma ObjectClosed(x: seq<byte>)
    requires x != [] && x[0] == Byte('"') && MemberList(x) == Some([])
    ensures ValidJson([Byte('{')] + x)
  {
    ObjectOf(x);
    assert Value([Byte('{')] + x) == Some([]);
  }

  /** A comma before a member leaves the member as it is. */
  lemma CommaBefore(y: seq<byte>)
    requires y != [] && y[0] == Byte('"')
    ensures var u := [Byte(',')] + y; SkipWs(u) == u && u[0] == Byte(',') && SkipWs(u[1..]) == y
  {
    var u := [Byte(',')] + y;
    assert u[1..] == y;
  }

  /** The members `"n1":` v1 and `"n2":` v2, up to the closing brace. */
  lemma TwoMembers(n1: string, v1: seq<byte>, n2: string, v2: seq<byte>)
    requires PlainName(n1) && PlainName(n2)
    requires Value(v1 + ([Byte(',')] + (Key(n2) + (v2 + [Byte('}')])))) ==
             Some([Byte(',')] + (Key(n2) + (v2 + [Byte('}')])))
    requires Value(v2 + [Byte('}')]).Some? && SkipWs(Value(v2 + [Byte('}')]).value) == [Byte('}')]
    ensures MemberList(Key(n1) + (v1 + ([Byte(',')] + (Key(n2) + (v2 + [Byte('}')]))))) == Some([])
  {
    var y := Key(n2) + (v2 + [Byte('}')]);
    MemberLast(n2, v2);
    CommaBefore(y);
    MemberThen(n1, v1, [Byte(',')] + y);
  }

  /** An object with two members, `"n1":` v1 and `"n2":` v2, is a JSON text. */
  lemma ObjectWithTwo(n1: string, v1: seq<byte>, n2: string, v2: seq<byte>)
    requires PlainName(n1) && PlainName(n2)
    requires Value(v1 + ([Byte(',')] + (Key(n2) + (v2 + [Byte('}')])))) ==
             Some([Byte(',')] + (Key(n2) + (v2 + [Byte('}')])))
    requires Value(v2 + [Byte('}')]).Some? && SkipWs(Value(v2 + [Byte('}')]).value) == [Byte('}')]
    ensures ValidJson([Byte('{')] + (Key(n1) + (v1 + ([Byte(',')] + (Key(n2) + (v2 + [Byte('}')]))))))
  {
    TwoMembers(n1, v1, n2, v2);
    ObjectClosed(Key(n1) + (v1 + ([Byte(',')] + (Key(n2) + (v2 + [Byte('}')])))));
  }
}
