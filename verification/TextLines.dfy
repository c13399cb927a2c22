/** Text as lines, the way str.splitlines and str.strip see it. */
module TextLines {
  /** Where str.splitlines breaks (text read from a file holds no carriage return). */
  predicate IsBreak(c: char) {
    '\n' <= c <= '\r' || 28 as char <= c <= 30 as char || c == '\U{0085}' || c == '\U{2028}' || c == '\U{2029}'
  }

  /** What str.strip removes. */
  predicate IsSpace(c: char) {
    || '\t' <= c <= '\r' || 28 as char <= c <= ' ' || c == '\U{0085}' || c == '\U{00a0}' || c == '\U{1680}'
    || '\U{2000}' <= c <= '\U{200a}' || c == '\U{2028}' || c == '\U{2029}' || c == '\U{202f}' || c == '\U{205f}' ||
        c == '\U{3000}'
  }

  predicate Unbroken(s: string) { forall c | c in s :: !IsBreak(c) }

  predicate Blank(s: string) { forall c | c in s :: IsSpace(c) }

  function Strip(s: string): (r: string)
    ensures r != "" ==> !IsSpace(r[0]) && !IsSpace(r[|r| - 1])
    ensures forall c | c in r :: c in s
    decreases |s|
  {
    if s != "" && IsSpace(s[0]) then Strip(s[1..])
    else if s != "" && IsSpace(s[|s| - 1]) then Strip(s[..|s| - 1])
    else s
  }

  /** The pieces between line breaks, a trailing empty one included. */
  function Pieces(text: string): (p: seq<string>)
    ensures p != []
    decreases |text|
  {
    if text == "" then [""]
    else
      Lead(text[0], Pieces(text[1..]))
  }

  /** One more character in front: a break starts a new piece. */
  function Lead(c: char, pieces: seq<string>): (p: seq<string>)
    requires pieces != []
    ensures p != []
  {
    if IsBreak(c) then [""] + pieces else [[c] + pieces[0]] + pieces[1..]
  }

  /** The last piece of one text runs on into the first of the next. */
  function Glue(p: seq<string>, q: seq<string>): (r: seq<string>)
    requires p != [] && q != []
    ensures |r| == |p| + |q| - 1
  {
    p[..|p| - 1] + [p[|p| - 1] + q[0]] + q[1..]
  }

  lemma {:induction false} StripBlank(s: string)
    ensures Strip(s) == "" <==> Blank(s)
    decreases |s|
  {
    if s != "" && IsSpace(s[0]) {
      StripBlank(s[1..]);
      assert s == [s[0]] + s[1..];
    } else if s != "" && IsSpace(s[|s| - 1]) {
      StripBlank(s[..|s| - 1]);
      assert s == s[..|s| - 1] + [s[|s| - 1]];
    } else if s != "" {
      assert s[0] in s;
    }
  }

  /** Leading blanks do not change a line that starts and ends with ink. */
  lemma {:induction false} StripLead(pad: string, s: string)
    requires Blank(pad) && s != "" && !IsSpace(s[0]) && !IsSpace(s[|s| - 1])
    ensures Strip(pad + s) == s
    decreases |pad|
  {
    if pad == "" {
      assert pad + s == s;
    } else {
      assert (pad + s)[1..] == pad[1..] + s;
      StripLead(pad[1..], s);
    }
  }

  lemma {:induction false} UnbrokenIsOnePiece(s: string)
    requires Unbroken(s)
    ensures Pieces(s) == [s]
    decreases |s|
  {
    if s != "" {
      UnbrokenIsOnePiece(s[1..]);
      assert [s[0]] + s[1..] == s;
    }
  }

  /** Joining two texts joins the last piece of one with the first piece of the other. */
  lemma {:induction false} PiecesJoin(a: string, b: string)
    ensures Pieces(a + b) == Glue(Pieces(a), Pieces(b))
    decreases |a|
  {
    if a == "" {
      assert a + b == b && Glue([""], Pieces(b)) == Pieces(b) by { GlueEmpty(Pieces(b)); }
    } else {
      assert (a + b)[1..] == a[1..] + b && (a + b)[0] == a[0];
      PiecesJoin(a[1..], b);
      LeadGlue(a[0], Pieces(a[1..]), Pieces(b));
    }
  }

  lemma GlueEmpty(q: seq<string>)
    requires q != []
    ensures Glue([""], q) == q
  {
    assert "" + q[0] == q[0];
    assert [""][..0] == [];
  }

  lemma LeadGlue(c: char, p: seq<string>, q: seq<string>)
    requires p != [] && q != []
    ensures Lead(c, Glue(p, q)) == Glue(Lead(c, p), q)
  {
    var l, r := Lead(c, Glue(p, q)), Glue(Lead(c, p), q);
    if IsBreak(c) {
      assert ([""] + p)[..|p|] == [""] + p[..|p| - 1];
    } else if |p| == 1 {
      assert [c] + (p[0] + q[0]) == ([c] + p[0]) + q[0];
      assert p[..0] == [] && Glue(p, q)[1..] == q[1..];
    } else {
      assert Glue(p, q)[1..] == p[1..|p| - 1] + [p[|p| - 1] + q[0]] + q[1..];
      assert Lead(c, p)[..|p| - 1] == [[c] + p[0]] + p[1..|p| - 1];
    }
  }

  lemma BreakEnds(line: string)
    requires Unbroken(line)
    ensures Pieces(line + "\n") == [line, ""]
  {
    UnbrokenIsOnePiece(line);
    PiecesJoin(line, "\n");
    assert "\n"[1..] == "";
    assert Pieces("\n") == ["", ""];
    assert line + "" == line;
    assert [line][..0] == [];
  }

  lemma {:induction false} PiecesUnbroken(text: string)
    ensures forall p | p in Pieces(text) :: Unbroken(p)
    decreases |text|
  {
    if text != "" {
      PiecesUnbroken(text[1..]);
      var rest := Pieces(text[1..]);
      assert rest[0] in rest;
      forall p | p in Pieces(text) ensures Unbroken(p) {
        if p in rest {} else if p == "" {} else { assert p == [text[0]] + rest[0]; }
      }
    }
  }

  lemma UnbrokenJoin(a: string, b: string)
    ensures Unbroken(a + b) <==> Unbroken(a) && Unbroken(b)
  {
    forall c | c in a || c in b ensures c in a + b {}
  }

  lemma PiecesFeed(a: string)
    ensures Pieces(a + "\n") == Pieces(a) + [""]
  {
    PiecesJoin(a, "\n");
    assert "\n"[1..] == "" && Pieces("\n") == ["", ""];
    var p := Pieces(a);
    assert p[|p| - 1] + "" == p[|p| - 1];
    assert p == p[..|p| - 1] + [p[|p| - 1]];
  }
}
