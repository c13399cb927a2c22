/** Strings and string arrays as compact JSON that keeps non-ASCII characters (section 7 of RFC 8259). */
module JsonText {
  import opened Wrappers

  const LOW_HEX := "0123456789abcdef"

  function HexValue(c: char): Option<nat> {
    if '0' <= c <= '9' then Some(c as nat - '0' as nat)
    else if 'a' <= c <= 'f' then Some(c as nat - 'a' as nat + 10)
    else if 'A' <= c <= 'F' then Some(c as nat - 'A' as nat + 10)
    else None
  }

  /** The two-character escapes, then `\u00XX` for the other control characters. */
  function Escape(c: char): (e: string)
    ensures e != ""
  {
    if c == '"' then "\\\""
    else if c == '\\' then "\\\\"
    else if c == '\n' then "\\n"
    else if c == '\r' then "\\r"
    else if c == '\t' then "\\t"
    else if c == 8 as char then "\\b"
    else if c == 12 as char then "\\f"
    else if c < ' ' then "\\u00" + [LOW_HEX[c as int / 16], LOW_HEX[c as int % 16]]
    else [c]
  }

  function EscapeAll(s: string): string
    decreases |s|
  {
    if s == "" then "" else Escape(s[0]) + EscapeAll(s[1..])
  }

  function Quote(s: string): string { "\"" + EscapeAll(s) + "\"" }

  function Elements(xs: seq<string>): string
    requires xs != []
    decreases |xs|
  {
    if |xs| == 1 then Quote(xs[0]) else Quote(xs[0]) + "," + Elements(xs[1..])
  }

  function Array(xs: seq<string>): string {
    if xs == [] then "[]" else "[" + Elements(xs) + "]"
  }

  // ---- Reading back ----------------------------------------------------------------------------

  datatype Read<T> = Read(value: T, rest: string)

  /** One character of a string body: itself, or an escape. */
  function ReadChar(t: string): Option<Read<char>> {
    if t == "" || t[0] == '"' || t[0] < ' ' then None
    else if t[0] != '\\' then Some(Read(t[0], t[1..]))
    else if |t| < 2 then None
    else if t[1] == '"' || t[1] == '\\' then Some(Read(t[1], t[2..]))
    else if t[1] == 'n' then Some(Read('\n', t[2..]))
    else if t[1] == 'r' then Some(Read('\r', t[2..]))
    else if t[1] == 't' then Some(Read('\t', t[2..]))
    else if t[1] == 'b' then Some(Read(8 as char, t[2..]))
    else if t[1] == 'f' then Some(Read(12 as char, t[2..]))
    else if t[1] == 'u' && |t| >= 6 && t[2] == '0' && t[3] == '0' && HexValue(t[4]).Some? && HexValue(t[5]).Some? then
      Some(Read((HexValue(t[4]).value * 16 + HexValue(t[5]).value) as char, t[6..]))
    else None
  }

  /** The body of a string up to its closing quote. */
  function ReadBody(t: string): Option<Read<string>>
    decreases |t|
  {
    if t == "" then None
    else if t[0] == '"' then Some(Read("", t[1..]))
    else
      var c := ReadChar(t);
      if c.None? || |c.value.rest| >= |t| then None
      else
        var rest := ReadBody(c.value.rest);
        if rest.None? then None else Some(Read([c.value.value] + rest.value.value, rest.value.rest))
  }

  lemma HexDigits(n: nat)
    requires n < 16
    ensures HexValue(LOW_HEX[n]) == Some(n)
  {
  }

  lemma ReadControl(c: char, t: string)
    requires c < ' ' && |Escape(c)| == 6
    ensures ReadChar(Escape(c) + t) == Some(Read(c, t))
  {
    var e := Escape(c);
    HexDigits(c as int / 16);
    HexDigits(c as int % 16);
    var hi, lo := LOW_HEX[c as int / 16], LOW_HEX[c as int % 16];
    assert e == ['\\', 'u', '0', '0', hi, lo];
    hide HexValue, Escape;
    assert (e + t)[4] == hi && (e + t)[5] == lo && (e + t)[6..] == t;
  }

  lemma ReadEscape(c: char, t: string)
    ensures ReadChar(Escape(c) + t) == Some(Read(c, t))
  {
    hide HexValue;
    var e := Escape(c);
    if |e| == 6 {
      ReadControl(c, t);
    } else if |e| == 2 {
      assert (e + t)[1] == e[1] && (e + t)[2..] == t;
    } else {
      assert (e + t)[1..] == t;
    }
  }

  lemma {:induction false} ReadBack(s: string, t: string)
    ensures ReadBody(EscapeAll(s) + "\"" + t) == Some(Read(s, t))
    decreases |s|
  {
    if s == "" {
      assert EscapeAll(s) + "\"" + t == "\"" + t && ("\"" + t)[1..] == t;
    } else {
      var rest := EscapeAll(s[1..]) + "\"" + t;
      var all := Escape(s[0]) + rest;
      assert EscapeAll(s) + "\"" + t == all;
      ReadEscape(s[0], rest);
      EscapeStarts(s[0], rest);
      ReadBack(s[1..], t);
      hide Escape, ReadChar;
      assert [s[0]] + s[1..] == s;
    }
  }

  lemma EscapeStarts(c: char, t: string)
    ensures Escape(c)[0] != '"' && (Escape(c) + t)[0] == Escape(c)[0]
  {
  }

  function ReadElements(t: string): Option<Read<seq<string>>>
    decreases |t|
  {
    if t == "" || t[0] != '"' then None
    else
      var first := ReadBody(t[1..]);
      if first.None? || first.value.rest == "" || |first.value.rest| >= |t| then None
      else if first.value.rest[0] == ']' then Some(Read([first.value.value], first.value.rest[1..]))
      else if first.value.rest[0] != ',' then None
      else
        var more := ReadElements(first.value.rest[1..]);
        if more.None? then None else Some(Read([first.value.value] + more.value.value, more.value.rest))
  }

  function ReadArray(t: string): Option<seq<string>> {
    if t == "[]" then Some([])
    else if t == "" || t[0] != '[' then None
    else
      var read := ReadElements(t[1..]);
      if read.Some? && read.value.rest == "" then Some(read.value.value) else None
  }

  lemma ReadOne(t: string, first: string, after: string)
    requires t != "" && t[0] == '"' && ReadBody(t[1..]) == Some(Read(first, after)) && after != "" && |after| < |t|
    ensures ReadElements(t) ==
            if after[0] == ']' then Some(Read([first], after[1..]))
            else if after[0] != ',' then None
            else
              var more := ReadElements(after[1..]);
              if more.None? then None else Some(Read([first] + more.value.value, more.value.rest))
  {
    hide ReadBody;
  }

  lemma QuoteSplit(x: string, after: string)
    ensures Quote(x) + after == "\"" + (EscapeAll(x) + "\"" + after)
  {
    hide EscapeAll;
    var e := EscapeAll(x);
    assert "\"" + e + "\"" + after == "\"" + (e + "\"" + after);
  }

  /** One element and what follows it. */
  lemma ElementBack(x: string, after: string)
    requires after != ""
    ensures ReadElements(Quote(x) + after) ==
            if after[0] == ']' then Some(Read([x], after[1..]))
            else if after[0] != ',' then None
            else
              var more := ReadElements(after[1..]);
              if more.None? then None else Some(Read([x] + more.value.value, more.value.rest))
  {
    hide EscapeAll, ReadBody, Quote, ReadElements;
    QuoteSplit(x, after);
    var t := Quote(x) + after;
    var inner := EscapeAll(x) + "\"" + after;
    assert t[1..] == inner && t[0] == '"';
    ReadBack(x, after);
    ReadOne(t, x, after);
  }

  lemma {:induction false} ElementsBack(xs: seq<string>)
    requires xs != []
    ensures ReadElements(Elements(xs) + "]") == Some(Read(xs, ""))
    decreases |xs|
  {
    hide Quote, ReadElements;
    if |xs| > 1 {
      var after := "," + (Elements(xs[1..]) + "]");
      Associate(Quote(xs[0]), Elements(xs[1..]));
      hide Elements;
      assert after[1..] == Elements(xs[1..]) + "]";
      ElementBack(xs[0], after);
      ElementsBack(xs[1..]);
      assert [xs[0]] + xs[1..] == xs;
    } else {
      ElementBack(xs[0], "]");
      assert "]"[1..] == "" && [xs[0]] == xs;
    }
  }

  lemma Associate(a: string, b: string)
    ensures a + "," + b + "]" == a + ("," + (b + "]"))
  {
  }

  /** Reading an encoded array gives back its strings. */
  lemma ArrayBack(xs: seq<string>)
    ensures ReadArray(Array(xs)) == Some(xs)
  {
    if xs != [] {
      ElementsBack(xs);
      assert Array(xs)[1..] == Elements(xs) + "]";
      assert Elements(xs)[0] == '"' && Array(xs)[1] == '"';
    }
  }

  /** So the encoding is injective. */
  lemma ArrayInjective(xs: seq<string>, ys: seq<string>)
    requires Array(xs) == Array(ys)
    ensures xs == ys
  {
    ArrayBack(xs);
    ArrayBack(ys);
  }

  /** Ordinary text is its own encoding. */
  lemma {:induction false} PlainWord(s: string)
    requires forall i :: 0 <= i < |s| ==> '#' <= s[i] && s[i] != '\\'
    ensures EscapeAll(s) == s && Quote(s) == "\"" + s + "\""
    decreases |s|
  {
    if s != "" {
      PlainWord(s[1..]);
      assert [s[0]] + s[1..] == s;
    }
  }

  /** Nothing below a space survives unescaped. */
  lemma {:induction false} QuoteHasNoControl(s: string, c: char)
    requires c in EscapeAll(s)
    ensures c >= ' ' && (c in s || c <= 'u')
    decreases |s|
  {
    if c in Escape(s[0]) {
      EscapeHasNoControl(s[0], c);
    } else {
      QuoteHasNoControl(s[1..], c);
    }
  }

  lemma EscapeHasNoControl(a: char, c: char)
    requires c in Escape(a)
    ensures c >= ' ' && (c == a || c <= 'u')
  {
  }

  /** A character the encoder leaves alone is in the text whenever it is in the string. */
  lemma {:induction false} QuoteKeepsPlain(s: string, c: char)
    requires c in s && c > 127 as char
    ensures c in EscapeAll(s)
    decreases |s|
  {
    if s[0] == c {
      assert Escape(s[0]) == [c];
      assert c in Escape(s[0]);
    } else {
      QuoteKeepsPlain(s[1..], c);
    }
  }
}
