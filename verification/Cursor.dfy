/** The opaque pagination cursor of src/willow_mcp/db.py: UTF-8, then base64url (section 5 of
    RFC 4648) with its padding stripped. A Dafny char is a Unicode scalar value, so a string here
    is exactly a string Python can encode as UTF-8. */
module Cursor {
  import opened Wrappers

  type Byte = n: nat | n < 256
  type Sextet = n: nat | n < 64

  function Utf8Char(c: char): seq<Byte> {
    var n := c as int;
    if n < 0x80 then [n]
    else if n < 0x800 then [0xC0 + n / 64, 0x80 + n % 64]
    else if n < 0x10000 then [0xE0 + n / 4096, 0x80 + n / 64 % 64, 0x80 + n % 64]
    else [0xF0 + n / 262144, 0x80 + n / 4096 % 64, 0x80 + n / 64 % 64, 0x80 + n % 64]
  }

  function Utf8Encode(s: string): seq<Byte> {
    if s == "" then [] else Utf8Char(s[0]) + Utf8Encode(s[1..])
  }

  predicate Continues(b: Byte) {
    0x80 <= b < 0xC0
  }

  function Push(high: nat, b: Byte): nat
    requires Continues(b)
  {
    high * 64 + (b - 0x80)
  }

  predicate IsScalar(n: nat) {
    n < 0xD800 || 0xE000 <= n < 0x110000
  }

  /** The first character of a byte sequence and the bytes it takes. The decoder is strict: overlong
      forms, surrogates and truncated sequences fail. */
  function Utf8Head(bs: seq<Byte>): Option<(nat, nat)>
    requires bs != []
    ensures Utf8Head(bs).Some? ==> IsScalar(Utf8Head(bs).value.0) && 1 <= Utf8Head(bs).value.1 <= |bs|
  {
    if bs[0] < 0x80 then Some((bs[0], 1))
    else if 0xC2 <= bs[0] < 0xE0 && |bs| >= 2 && Continues(bs[1]) then
      Some((Push(bs[0] - 0xC0, bs[1]), 2))
    else if 0xE0 <= bs[0] < 0xF0 && |bs| >= 3 && Continues(bs[1]) && Continues(bs[2]) then
      var n := Push(Push(bs[0] - 0xE0, bs[1]), bs[2]);
      if n < 0x800 || !IsScalar(n) then None else Some((n, 3))
    else if 0xF0 <= bs[0] < 0xF5 && |bs| >= 4 && Continues(bs[1]) && Continues(bs[2]) && Continues(bs[3]) then
      var n := Push(Push(Push(bs[0] - 0xF0, bs[1]), bs[2]), bs[3]);
      if n < 0x10000 || !IsScalar(n) then None else Some((n, 4))
    else None
  }

  function Utf8Decode(bs: seq<Byte>): Option<string> {
    if bs == [] then Some("")
    else
      var head := Utf8Head(bs);
      if head.None? then None else Prepend(head.value.0, Utf8Decode(bs[head.value.1..]))
  }

  function Prepend(n: nat, rest: Option<string>): Option<string>
    requires IsScalar(n)
  {
    if rest.None? then None else Some([n as char] + rest.value)
  }

  lemma Utf8HeadOf(c: char, rest: seq<Byte>)
    ensures Utf8Head(Utf8Char(c) + rest) == Some((c as int, |Utf8Char(c)|))
  {
    var n := c as int;
    assert n == n / 64 * 64 + n % 64;
    assert n / 64 == n / 4096 * 64 + n / 64 % 64;
    assert n / 4096 == n / 262144 * 64 + n / 4096 % 64;
  }

  lemma LastDigit(high: nat, b: Byte)
    requires Continues(b)
    ensures 0x80 <= b < 0xC0
    ensures Push(high, b) / 64 == high && 0x80 + Push(high, b) % 64 == b
  {
  }

  lemma TwoDigits(a: nat, b: Byte, c: Byte)
    requires Continues(b) && Continues(c)
    ensures var n := Push(Push(a, b), c);
      n / 4096 == a && 0x80 + n / 64 % 64 == b && 0x80 + n % 64 == c
  {
    LastDigit(a, b);
    LastDigit(Push(a, b), c);
    var n := Push(Push(a, b), c);
    assert n / 4096 == n / 64 / 64;
    hide Push, Continues;
  }

  lemma ThreeDigits(a: nat, b: Byte, c: Byte, d: Byte)
    requires Continues(b) && Continues(c) && Continues(d)
    ensures var n := Push(Push(Push(a, b), c), d);
      n / 262144 == a && 0x80 + n / 4096 % 64 == b && 0x80 + n / 64 % 64 == c && 0x80 + n % 64 == d
  {
    TwoDigits(a, b, c);
    LastDigit(Push(Push(a, b), c), d);
    var n := Push(Push(Push(a, b), c), d);
    assert n / 4096 == n / 64 / 64 && n / 262144 == n / 64 / 4096;
    hide Push, Continues;
  }

  /** The head is the character's own encoding. */
  lemma Utf8HeadIs(bs: seq<Byte>)
    requires bs != [] && Utf8Head(bs).Some?
    ensures var head := Utf8Head(bs).value; Utf8Char(head.0 as char) == bs[..head.1]
  {
    var k := Utf8Head(bs).value.1;
    hide Push, Continues;
    if k == 2 {
      LastDigit(bs[0] - 0xC0, bs[1]);
    } else if k == 3 {
      TwoDigits(bs[0] - 0xE0, bs[1], bs[2]);
    } else if k == 4 {
      ThreeDigits(bs[0] - 0xF0, bs[1], bs[2], bs[3]);
    }
  }

  /** Only encodings decode. */
  lemma {:induction false} Utf8DecodesEncodings(bs: seq<Byte>)
    requires Utf8Decode(bs).Some?
    ensures Utf8Encode(Utf8Decode(bs).value) == bs
    decreases |bs|
  {
    hide Utf8Head, Utf8Char;
    if bs != [] {
      var head := Utf8Head(bs).value;
      var s := Utf8Decode(bs).value;
      Utf8HeadIs(bs);
      Utf8DecodesEncodings(bs[head.1..]);
      assert s[1..] == Utf8Decode(bs[head.1..]).value;
      assert bs == bs[..head.1] + bs[head.1..];
    }
  }

  lemma Utf8CharDecodes(c: char, rest: seq<Byte>)
    ensures Utf8Decode(Utf8Char(c) + rest) == Prepend(c as int, Utf8Decode(rest))
  {
    hide Utf8Head, Utf8Char;
    Utf8HeadOf(c, rest);
    assert (Utf8Char(c) + rest)[|Utf8Char(c)|..] == rest;
  }

  lemma {:induction false} Utf8RoundTrip(s: string)
    ensures Utf8Decode(Utf8Encode(s)) == Some(s)
  {
    if s != "" {
      Utf8RoundTrip(s[1..]);
      Utf8CharDecodes(s[0], Utf8Encode(s[1..]));
      assert s == [s[0]] + s[1..];
    }
  }

  function Symbol(v: Sextet): char {
    if v < 26 then 'A' + v as char
    else if v < 52 then 'a' + (v - 26) as char
    else if v < 62 then '0' + (v - 52) as char
    else if v == 62 then '-' else '_'
  }

  /** Both alphabets decode: the url-safe characters are translated to '+' and '/' first. */
  function Value(c: char): Option<Sextet> {
    if 'A' <= c <= 'Z' then Some((c - 'A') as int)
    else if 'a' <= c <= 'z' then Some(26 + (c - 'a') as int)
    else if '0' <= c <= '9' then Some(52 + (c - '0') as int)
    else if c == '-' || c == '+' then Some(62)
    else if c == '_' || c == '/' then Some(63)
    else None
  }

  /** The characters of the base64url alphabet of section 5 of RFC 4648. */
  predicate IsUrlSafe(c: char) {
    'A' <= c <= 'Z' || 'a' <= c <= 'z' || '0' <= c <= '9' || c == '-' || c == '_'
  }

  lemma SymbolValue(v: Sextet)
    ensures Value(Symbol(v)) == Some(v) && IsUrlSafe(Symbol(v))
  {
  }

  /** Padded base64url. */
  function Base64(bs: seq<Byte>): string {
    if bs == [] then ""
    else if |bs| == 1 then [Symbol(bs[0] / 4), Symbol(bs[0] % 4 * 16), '=', '=']
    else if |bs| == 2 then [Symbol(bs[0] / 4), Symbol(bs[0] % 4 * 16 + bs[1] / 16), Symbol(bs[1] % 16 * 4), '=']
    else Quad(bs[0], bs[1], bs[2]) + Base64(bs[3..])
  }

  function Quad(a: Byte, b: Byte, c: Byte): string {
    [Symbol(a / 4), Symbol(a % 4 * 16 + b / 16), Symbol(b % 16 * 4 + c / 64), Symbol(c % 64)]
  }

  /** The lenient decoder: unknown characters are skipped, a completed padding ends the scan, and a
      quad left open at the end of the text is an error. */
  function Scan(s: string, quad: nat, left: nat, pads: nat): Option<seq<Byte>>
    requires quad < 4 && left < 64
    requires quad == 2 ==> left < 16
    requires quad == 3 ==> left < 4
  {
    if s == "" then
      if quad == 0 then Some([]) else None
    else if s[0] == '=' then
      if quad >= 2 && quad + pads + 1 >= 4 then Some([])
      else Scan(s[1..], quad, left, if quad >= 2 then pads + 1 else pads)
    else
      var v := Value(s[0]);
      if v.None? then Scan(s[1..], quad, left, pads)
      else if quad == 0 then Scan(s[1..], 1, v.value, 0)
      else if quad == 1 then Emit(left * 4 + v.value / 16, Scan(s[1..], 2, v.value % 16, 0))
      else if quad == 2 then Emit(left * 16 + v.value / 4, Scan(s[1..], 3, v.value % 4, 0))
      else Emit(left * 64 + v.value, Scan(s[1..], 0, 0, 0))
  }

  function Emit(b: Byte, rest: Option<seq<Byte>>): Option<seq<Byte>> {
    if rest.None? then None else Some([b] + rest.value)
  }

  lemma ScanSymbol(v: Sextet, rest: string, quad: nat, left: nat, pads: nat)
    requires quad < 4 && left < 64
    requires quad == 2 ==> left < 16
    requires quad == 3 ==> left < 4
    ensures Scan([Symbol(v)] + rest, quad, left, pads) ==
            if quad == 0 then Scan(rest, 1, v, 0)
            else if quad == 1 then Emit(left * 4 + v / 16, Scan(rest, 2, v % 16, 0))
            else if quad == 2 then Emit(left * 16 + v / 4, Scan(rest, 3, v % 4, 0))
            else Emit(left * 64 + v, Scan(rest, 0, 0, 0))
  {
    SymbolValue(v);
    assert ([Symbol(v)] + rest)[1..] == rest;
  }

  lemma ScanPads(quad: nat, left: nat)
    requires (quad == 2 && left < 16) || (quad == 3 && left < 4)
    ensures Scan(if quad == 2 then "==" else "=", quad, left, 0) == Some([])
  {
    assert "=="[1..] == "=";
  }

  lemma ScanOne(a: Byte)
    ensures Scan(Base64([a]), 0, 0, 0) == Some([a])
  {
    hide Scan, Symbol;
    var v := a % 4 * 16;
    ScanPads(2, v % 16);
    ScanSymbol(v, "==", 1, a / 4, 0);
    ScanSymbol(a / 4, [Symbol(v)] + "==", 0, 0, 0);
    assert Base64([a]) == [Symbol(a / 4)] + ([Symbol(v)] + "==");
    assert a / 4 * 4 + v / 16 == a;
    assert [a] + [] == [a];
  }

  lemma ScanTwo(a: Byte, b: Byte)
    ensures Scan(Base64([a, b]), 0, 0, 0) == Some([a, b])
  {
    hide Scan, Symbol;
    var v, w := a % 4 * 16 + b / 16, b % 16 * 4;
    ScanPads(3, w % 4);
    ScanSymbol(w, "=", 2, v % 16, 0);
    ScanSymbol(v, [Symbol(w)] + "=", 1, a / 4, 0);
    ScanSymbol(a / 4, [Symbol(v)] + ([Symbol(w)] + "="), 0, 0, 0);
    assert Base64([a, b]) == [Symbol(a / 4)] + ([Symbol(v)] + ([Symbol(w)] + "="));
    assert a / 4 * 4 + v / 16 == a && v % 16 * 16 + w / 4 == b;
    assert [a] + ([b] + []) == [a, b];
  }

  lemma ScanQuad(a: Byte, b: Byte, c: Byte, rest: string)
    ensures Scan(Quad(a, b, c) + rest, 0, 0, 0) == Emit(a, Emit(b, Emit(c, Scan(rest, 0, 0, 0))))
  {
    hide Scan, Symbol;
    var v, w, x := a % 4 * 16 + b / 16, b % 16 * 4 + c / 64, c % 64;
    ScanSymbol(x, rest, 3, w % 4, 0);
    ScanSymbol(w, [Symbol(x)] + rest, 2, v % 16, 0);
    ScanSymbol(v, [Symbol(w)] + ([Symbol(x)] + rest), 1, a / 4, 0);
    ScanSymbol(a / 4, [Symbol(v)] + ([Symbol(w)] + ([Symbol(x)] + rest)), 0, 0, 0);
    assert Quad(a, b, c) + rest == [Symbol(a / 4)] + ([Symbol(v)] + ([Symbol(w)] + ([Symbol(x)] + rest)));
    assert a / 4 * 4 + v / 16 == a && v % 16 * 16 + w / 4 == b && w % 4 * 64 + x == c;
  }

  lemma {:induction false} ScanBase64(bs: seq<Byte>)
    ensures Scan(Base64(bs), 0, 0, 0) == Some(bs)
  {
    if bs == [] {
    } else if |bs| == 1 {
      assert bs == [bs[0]];
      ScanOne(bs[0]);
    } else if |bs| == 2 {
      assert bs == [bs[0], bs[1]];
      ScanTwo(bs[0], bs[1]);
    } else {
      hide Scan, Quad;
      ScanQuad(bs[0], bs[1], bs[2], Base64(bs[3..]));
      ScanBase64(bs[3..]);
      assert [bs[0]] + ([bs[1]] + ([bs[2]] + bs[3..])) == bs;
    }
  }

  function StripPadding(s: string): string {
    if s != "" && s[|s| - 1] == '=' then StripPadding(s[..|s| - 1]) else s
  }

  function Pads(n: nat): string {
    if n == 0 then "" else Pads(n - 1) + "="
  }

  lemma {:induction false} StripPads(body: string, n: nat)
    requires '=' !in body
    ensures StripPadding(body + Pads(n)) == body
  {
    if n == 0 {
      assert body + Pads(0) == body;
    } else {
      assert (body + Pads(n))[..|body + Pads(n)| - 1] == body + Pads(n - 1);
      StripPads(body, n - 1);
    }
  }

  lemma Base64More(bs: seq<Byte>)
    requires |bs| >= 3
    ensures Base64(bs) == Quad(bs[0], bs[1], bs[2]) + Base64(bs[3..])
  {
  }

  lemma FourMore(n: int)
    ensures -(n + 4) % 4 == -n % 4
  {
  }

  /** Padded base64 is pad-free symbols followed by the padding its length calls for. */
  lemma {:induction false} Base64Shape(bs: seq<Byte>) returns (body: string)
    ensures Base64(bs) == body + Pads(-|body| % 4)
    ensures forall c | c in body :: IsUrlSafe(c)
    ensures body == "" <==> bs == []
  {
    hide Symbol, Base64, Quad, Pads, IsUrlSafe;
    if |bs| < 3 {
      body := Base64Small(bs);
    } else {
      var rest := Base64Shape(bs[3..]);
      var quad := Quad(bs[0], bs[1], bs[2]);
      body := quad + rest;
      Base64More(bs);
      QuadShape(bs[0], bs[1], bs[2]);
      FourMore(|rest|);
      assert quad + (rest + Pads(-|rest| % 4)) == body + Pads(-|rest| % 4);
    }
  }

  lemma SmallPads()
    ensures Pads(0) == "" && Pads(1) == "=" && Pads(2) == "=="
  {
  }

  lemma Base64Small(bs: seq<Byte>) returns (body: string)
    requires |bs| < 3
    ensures Base64(bs) == body + Pads(-|body| % 4)
    ensures forall c | c in body :: IsUrlSafe(c)
    ensures body == "" <==> bs == []
  {
    hide Symbol, Pads, IsUrlSafe;
    SmallPads();
    if bs == [] {
      body := "";
    } else if |bs| == 1 {
      SymbolValue(bs[0] / 4);
      SymbolValue(bs[0] % 4 * 16);
      body := [Symbol(bs[0] / 4), Symbol(bs[0] % 4 * 16)];
    } else {
      SymbolValue(bs[0] / 4);
      SymbolValue(bs[0] % 4 * 16 + bs[1] / 16);
      SymbolValue(bs[1] % 16 * 4);
      body := [Symbol(bs[0] / 4), Symbol(bs[0] % 4 * 16 + bs[1] / 16), Symbol(bs[1] % 16 * 4)];
    }
  }

  lemma QuadShape(a: Byte, b: Byte, c: Byte)
    ensures |Quad(a, b, c)| == 4
    ensures forall x | x in Quad(a, b, c) :: IsUrlSafe(x)
  {
    forall v: Sextet ensures IsUrlSafe(Symbol(v)) {
      SymbolValue(v);
    }
  }

  function Encode(key: string): string {
    StripPadding(Base64(Utf8Encode(key)))
  }

  /** None stands for the exceptions of the original: a cursor that is not ASCII, not base64, or
      not UTF-8 underneath. */
  function Decode(cursor: string): Option<string> {
    if exists c | c in cursor :: c >= 128 as char then None
    else
      var bytes := Scan(cursor + Pads(-|cursor| % 4), 0, 0, 0);
      if bytes.None? then None else Utf8Decode(bytes.value)
  }

  lemma RoundTrip(key: string)
    ensures Decode(Encode(key)) == Some(key)
    ensures Encode(key) == "" <==> key == ""
  {
    hide Utf8Encode, Utf8Decode, Base64, Scan, StripPadding, Pads;
    var body := Base64Shape(Utf8Encode(key));
    StripPads(body, -|body| % 4);
    ScanBase64(Utf8Encode(key));
    Utf8RoundTrip(key);
    Utf8Empty(key);
  }

  lemma Utf8Empty(s: string)
    ensures Utf8Encode(s) == [] <==> s == ""
  {
  }

  /** A cursor is safe in a URL as it stands, without padding, and as long as four symbols for three bytes. */
  lemma EncodeIsUrlSafe(key: string)
    ensures forall c | c in Encode(key) :: IsUrlSafe(c)
  {
    hide Utf8Encode, Base64, StripPadding, Pads;
    var body := Base64Shape(Utf8Encode(key));
    StripPads(body, -|body| % 4);
  }

  /** The cursor of the text of one, two or three given bytes. */
  lemma EncodeIs(key: string, bytes: seq<Byte>, body: string, pads: nat)
    requires Utf8Encode(key) == bytes && Base64(bytes) == body + Pads(pads)
    requires forall x | x in body :: x != '='
    ensures Encode(key) == body
  {
    hide Utf8Encode, Base64, StripPadding, Pads;
    StripPads(body, pads);
  }

  lemma Utf8Three(a: char, b: char, c: char)
    requires a < 128 as char && b < 128 as char && c < 128 as char
    ensures Utf8Encode([a, b, c]) == [a as int, b as int, c as int]
  {
    assert [a, b, c][1..] == [b, c] && [b, c][1..] == [c] && [c][1..] == [];
    assert Utf8Encode([c]) == [c as int];
    assert Utf8Encode([b, c]) == [b as int, c as int];
  }

  lemma Base64Three(a: Byte, b: Byte, c: Byte)
    ensures Base64([a, b, c]) == Quad(a, b, c)
  {
    assert [a, b, c][3..] == [];
  }

  /** Padding is dropped, and the two symbols that differ from plain base64 are '-' and '_'. */
  lemma EncodeExamples()
    ensures Encode("f") == "Zg" && Encode("foo") == "Zm9v" && Encode("??>") == "Pz8-" && Encode("???") == "Pz8_"
  {
    hide Encode, Pads;
    assert Utf8Encode("f") == [0x66] by { assert "f"[1..] == []; }
    assert Base64([0x66]) == "Zg" + Pads(2) by { SmallPads(); }
    hide Utf8Encode, Base64;
    SmallPads();
    EncodeIs("f", [0x66], "Zg", 2);
    Utf8Three('f', 'o', 'o');
    Base64Three(0x66, 0x6f, 0x6f);
    EncodeIs("foo", [0x66, 0x6f, 0x6f], "Zm9v", 0);
    Utf8Three('?', '?', '>');
    Base64Three(0x3f, 0x3f, 0x3e);
    EncodeIs("??>", [0x3f, 0x3f, 0x3e], "Pz8-", 0);
    Utf8Three('?', '?', '?');
    Base64Three(0x3f, 0x3f, 0x3f);
    EncodeIs("???", [0x3f, 0x3f, 0x3f], "Pz8_", 0);
  }

  /** Plain base64 decodes too; a lone symbol and text outside ASCII do not. */
  lemma DecodeExamples()
    ensures Decode("Pz8/") == Some("???") && Decode("Z") == None && Decode("\U{e9}") == None
    ensures Decode("Zg=v") == None
  {
    hide Decode;
    PlainDecodes();
    LoneSymbol();
    OnlyAsciiDecodes("\U{e9}", 0);
    PaddingEndsNothing();
  }

  lemma PlainDecodes()
    ensures Decode("Pz8/") == Some("???")
  {
    hide Utf8Decode, Utf8Encode;
    Utf8RoundTrip("???");
    Utf8Three('?', '?', '?');
    assert "Pz8/"[1..] == "z8/" && "z8/"[1..] == "8/" && "8/"[1..] == "/" && "/"[1..] == "";
    var a: seq<Byte>, b: seq<Byte>, c: seq<Byte> := [0x3f], [0x3f, 0x3f], [0x3f, 0x3f, 0x3f];
    assert [0x3f] + [] == a && [0x3f] + a == b && [0x3f] + b == c;
    assert Scan("", 0, 0, 0) == Some([]);
    assert Scan("/", 3, 0, 0) == Some(a);
    assert Scan("8/", 2, 3, 0) == Some(b);
    assert Scan("z8/", 1, 15, 0) == Some(c);
    assert Scan("Pz8/", 0, 0, 0) == Some(c);
    assert "Pz8/" + Pads(0) == "Pz8/";
  }

  lemma LoneSymbol()
    ensures Decode("Z") == None
  {
    hide Utf8Decode;
    assert Pads(3) == "===" && "Z" + "===" == "Z===";
    assert "Z==="[1..] == "===" && "==="[1..] == "==" && "=="[1..] == "=" && "="[1..] == "";
    assert Scan("===", 1, 25, 0) == None;
    assert Scan("Z===", 0, 0, 0) == None;
  }

  /** A cursor with any character outside ASCII does not decode. */
  lemma OnlyAsciiDecodes(cursor: string, i: nat)
    requires i < |cursor| && cursor[i] as int > 0x7f
    ensures Decode(cursor) == None
  {
    assert cursor[i] in cursor;
  }

  /** One padding character after two symbols is not enough to end the text. */
  lemma PaddingEndsNothing()
    ensures Decode("Zg=v") == None
  {
    assert "Zg=v"[1..] == "g=v" && "g=v"[1..] == "=v" && "=v"[1..] == "v" && "v"[1..] == "";
    assert Scan("v", 2, 0, 1) == None;
    assert Scan("=v", 2, 0, 0) == None;
    assert Scan("g=v", 1, 25, 0) == None;
    assert Scan("Zg=v", 0, 0, 0) == None;
    assert "Zg=v" + Pads(0) == "Zg=v";
  }
}
