/** The hash-chained attestation ledger, as lines of text and as a file. */
module LedgerModel {
  import opened Wrappers
  import opened TextLines
  import opened JsonText

  function Inked(pieces: seq<string>): seq<string>
    decreases |pieces|
  {
    if pieces == [] then []
    else (if Strip(pieces[0]) == "" then [] else [Strip(pieces[0])]) + Inked(pieces[1..])
  }

  /** The stripped non-blank lines every reader walks; the empty piece after a final break is blank. */
  function Lines(text: string): seq<string> { Inked(Pieces(text)) }

  function LinesOf(file: Option<string>): seq<string> { if file.None? then [] else Lines(file.value) }

  /** What json.loads and `.get("prev")` say of a line: no JSON, not an object, no string there, a string. */
  datatype Parsed = NoJson | NoObject | NoPrev | Prev(prev: string)

  datatype Entry = Entry(session: string, verifier: string, attestedAt: string, digest: string, prev: string)

  function Field(key: string, value: string): string { key + Quote(value) }

  function EntryFields(e: Entry): string {
    Field("\"kind\":\"session_attestation\",\"session_id\":", e.session) + Field(",\"verifier\":", e.verifier) +
    Field(",\"attested_at\":", e.attestedAt) + Field(",\"sig_digest\":", e.digest) + Field(",\"prev\":", e.prev)
  }

  /** One entry as a line of compact JSON. */
  function EntryLine(e: Entry): string { "{" + EntryFields(e) + "}" }

  const GENESIS := "genesis"

  /** The hash of a line, and the reader of a line. */
  datatype Tools = Tools(hash: string -> string, parse: string -> Parsed)

  /** Collision-free, never "genesis", and the reader reads back what the writer wrote. */
  ghost predicate Sound(t: Tools) {
    && (forall a, b :: t.hash(a) == t.hash(b) ==> a == b)
    && (forall a :: t.hash(a) != GENESIS && Unbroken(t.hash(a)))
    && (forall e :: t.parse(EntryLine(e)) == Prev(e.prev))
  }

  function Tip(t: Tools, lines: seq<string>): string {
    if lines == [] then GENESIS else t.hash(lines[|lines| - 1])
  }

  /** Every line names the hash of the line before it. */
  ghost predicate Chained(t: Tools, lines: seq<string>) {
    forall i :: 0 <= i < |lines| ==> t.parse(lines[i]) == Prev(Tip(t, lines[..i]))
  }

  datatype Verdict = NoLedger | Intact(count: nat) | NotJson | Raised | Broken | WrongHead | Missing

  predicate Passed(v: Verdict) { v.NoLedger? || v.Intact? }

  /** What a verified file and its expected head mean. */
  ghost predicate Verified(t: Tools, file: Option<string>, expected: string) {
    Chained(t, LinesOf(file)) && (expected == "" || expected == Tip(t, LinesOf(file)))
  }

  // ---- The head determines the file ------------------------------------------------------------

  lemma ChainedPrefix(t: Tools, lines: seq<string>, n: nat)
    requires Chained(t, lines) && n <= |lines|
    ensures Chained(t, lines[..n])
  {
    forall i | 0 <= i < n ensures t.parse(lines[..n][i]) == Prev(Tip(t, lines[..n][..i])) {
      assert lines[..n][..i] == lines[..i];
    }
  }

  lemma LastLink(t: Tools, lines: seq<string>)
    requires Chained(t, lines) && lines != []
    ensures var n := |lines| - 1; Chained(t, lines[..n]) && t.parse(lines[n]) == Prev(Tip(t, lines[..n]))
  {
    ChainedPrefix(t, lines, |lines| - 1);
  }

  lemma SameTip(t: Tools, a: seq<string>, b: seq<string>)
    requires Sound(t) && Tip(t, a) == Tip(t, b)
    ensures if a == [] || b == [] then a == b else a[|a| - 1] == b[|b| - 1]
  {
  }

  lemma {:induction false} TipDetermines(t: Tools, a: seq<string>, b: seq<string>)
    requires Sound(t) && Chained(t, a) && Chained(t, b) && Tip(t, a) == Tip(t, b)
    ensures a == b
    decreases |a|
  {
    hide Sound, Chained, Tip;
    SameTip(t, a, b);
    if a != [] && b != [] {
      var m, n := |a| - 1, |b| - 1;
      LastLink(t, a);
      LastLink(t, b);
      TipDetermines(t, a[..m], b[..n]);
      assert a == a[..m] + [a[m]] && b == b[..n] + [b[n]];
    }
  }

  /** Two ledgers that verify against the same expected head have the same non-blank lines. */
  lemma HeadDetermines(t: Tools, a: Option<string>, b: Option<string>, expected: string)
    requires Sound(t) && expected != "" && Verified(t, a, expected) && Verified(t, b, expected)
    ensures LinesOf(a) == LinesOf(b)
  {
    hide Lines, Sound, Chained;
    TipDetermines(t, LinesOf(a), LinesOf(b));
  }

  // ---- Appending -------------------------------------------------------------------------------

  /** The text after the last line break is blank. */
  predicate EndsClean(text: string) { var p := Pieces(text); Blank(p[|p| - 1]) }

  lemma {:induction false} InkedJoin(a: seq<string>, b: seq<string>)
    ensures Inked(a + b) == Inked(a) + Inked(b)
    decreases |a|
  {
    hide Strip;
    if a == [] {
      assert a + b == b;
    } else {
      assert (a + b)[1..] == a[1..] + b && (a + b)[0] == a[0];
      InkedJoin(a[1..], b);
      var head := if Strip(a[0]) == "" then [] else [Strip(a[0])];
      assert Inked(a + b) == head + Inked(a[1..] + b);
      assert Inked(a) == head + Inked(a[1..]);
    }
  }

  lemma InkedOne(s: string)
    ensures Inked([s]) == if Strip(s) == "" then [] else [Strip(s)]
  {
    assert [s][1..] == [];
  }

  lemma InkedTwo(a: string, b: string)
    ensures Inked([a, b]) == Inked([a]) + Inked([b])
  {
    InkedJoin([a], [b]);
    assert [a, b] == [a] + [b];
  }

  /** What one more line, ended by a line feed, adds to a text. */
  lemma LinesAfter(text: string, line: string)
    requires Unbroken(line)
    ensures var p := Pieces(text);
      Lines(text + line + "\n") == Inked(p[..|p| - 1]) + Inked([p[|p| - 1] + line])
    ensures var p := Pieces(text); Lines(text) == Inked(p[..|p| - 1]) + Inked([p[|p| - 1]])
    ensures EndsClean(text + line + "\n")
  {
    hide Inked, Strip, Pieces, Blank;
    var p := Pieces(text);
    PiecesAfter(text, line);
    var last := p[|p| - 1] + line;
    InkedJoin(p[..|p| - 1], [last, ""]);
    InkedTwo(last, "");
    InkedNone();
    InkedJoin(p[..|p| - 1], [p[|p| - 1]]);
    assert p == p[..|p| - 1] + [p[|p| - 1]];
  }

  lemma PiecesAfter(text: string, line: string)
    requires Unbroken(line)
    ensures var p := Pieces(text); Pieces(text + line + "\n") == p[..|p| - 1] + [p[|p| - 1] + line, ""]
    ensures EndsClean(text + line + "\n")
  {
    hide Pieces, Unbroken;
    var p := Pieces(text);
    BreakEnds(line);
    PiecesJoin(text, line + "\n");
    assert text + line + "\n" == text + (line + "\n");
    assert [line, ""][1..] == [""];
    assert Pieces(text + line + "\n") == p[..|p| - 1] + [p[|p| - 1] + line, ""];
  }

  lemma InkedNone()
    ensures Inked([""]) == []
  {
    InkedOne("");
  }

  lemma {:induction false} LinesUnbroken(pieces: seq<string>, line: string)
    requires (forall p | p in pieces :: Unbroken(p)) && line in Inked(pieces)
    ensures Unbroken(line)
    decreases |pieces|
  {
    if line == Strip(pieces[0]) {
      assert pieces[0] in pieces;
    } else {
      LinesUnbroken(pieces[1..], line);
    }
  }

  /** A written line starts and ends with ink. */
  predicate IsLine(line: string) { line != "" && !IsSpace(line[0]) && !IsSpace(line[|line| - 1]) }

  lemma EntryIsLine(e: Entry)
    ensures IsLine(EntryLine(e))
  {
    hide EntryFields;
    var line := EntryLine(e);
    assert line[0] == '{' && line[|line| - 1] == '}';
  }

  /** The appended line becomes one more line of the ledger exactly when it holds no line break and the
      file ends on a line of its own. */
  lemma AppendIffClean(text: string, line: string)
    requires IsLine(line)
    ensures Lines(text + line + "\n") == Lines(text) + [line] <==> Unbroken(line) && EndsClean(text)
  {
    hide Pieces, Inked, Strip;
    if Unbroken(line) {
      var p := Pieces(text);
      LinesAfter(text, line);
      var last := p[|p| - 1];
      InkedOne(last);
      InkedOne(last + line);
      StripBlank(last);
      if Blank(last) {
        StripLead(last, line);
      } else {
        InkInside(last, line);
        assert |Lines(text + line + "\n")| == |Lines(text)|;
      }
    } else if Lines(text + line + "\n") == Lines(text) + [line] {
      assert (Lines(text) + [line])[|Lines(text)|] == line;
      assert line in Lines(text + line + "\n");
      PiecesUnbroken(text + line + "\n");
      LinesUnbroken(Pieces(text + line + "\n"), line);
    }
  }

  lemma InkInside(a: string, b: string)
    requires !Blank(a)
    ensures Strip(a + b) != ""
  {
    hide Strip;
    StripBlank(a + b);
    var i :| 0 <= i < |a| && !IsSpace(a[i]);
    assert (a + b)[i] == a[i];
  }

  /** An entry after a file that holds "x" and no line feed runs into it. */
  lemma UnfinishedFileSpoilsLine(e: Entry)
    ensures Lines("x" + EntryLine(e) + "\n") != Lines("x") + [EntryLine(e)]
  {
    hide EntryLine;
    EntryIsLine(e);
    UnbrokenIsOnePiece("x");
    AppendIffClean("x", EntryLine(e));
    assert 'x' in "x";
  }

  /** A session id that is U+2028 breaks its entry in two, also in an empty file. */
  lemma SeparatorSpoilsLine()
    ensures var e := Entry("\U{2028}", "v", "t", "d", GENESIS);
            Lines("" + EntryLine(e) + "\n") != Lines("") + [EntryLine(e)]
  {
    hide EntryLine, Lines;
    var e := Entry("\U{2028}", "v", "t", "d", GENESIS);
    EntryIsLine(e);
    EntryUnbroken(e);
    assert '\U{2028}' in e.session;
    AppendIffClean("", EntryLine(e));
  }

  /** The line of an entry holds a line break exactly when one of its strings holds one JSON leaves alone. */
  predicate FieldsUnbroken(e: Entry) {
    Plain(e.session) && Plain(e.verifier) && Plain(e.attestedAt) && Plain(e.digest) && Plain(e.prev)
  }

  /** No U+0085, U+2028 or U+2029; JSON escapes the other line breaks. */
  predicate Plain(s: string) { forall c | c in s :: IsBreak(c) ==> c < ' ' }

  lemma QuoteUnbroken(s: string)
    ensures Unbroken(Quote(s)) <==> Plain(s)
  {
    if Plain(s) {
      forall c | c in Quote(s) ensures !IsBreak(c) {
        if c != '"' {
          assert c in EscapeAll(s);
          QuoteHasNoControl(s, c);
        }
      }
    } else {
      var c :| c in s && IsBreak(c) && c >= ' ';
      QuoteKeepsPlain(s, c);
      assert c in Quote(s);
    }
  }

  lemma EntryUnbroken(e: Entry)
    ensures Unbroken(EntryLine(e)) <==> FieldsUnbroken(e)
  {
    hide Quote, Plain, Unbroken, Field;
    var a, b, c, d := Field("\"kind\":\"session_attestation\",\"session_id\":", e.session),
        Field(",\"verifier\":", e.verifier),
      Field(",\"attested_at\":", e.attestedAt), Field(",\"sig_digest\":", e.digest);
    var f := Field(",\"prev\":", e.prev);
    FieldUnbroken("\"kind\":\"session_attestation\",\"session_id\":", e.session);
    FieldUnbroken(",\"verifier\":", e.verifier);
    FieldUnbroken(",\"attested_at\":", e.attestedAt);
    FieldUnbroken(",\"sig_digest\":", e.digest);
    FieldUnbroken(",\"prev\":", e.prev);
    UnbrokenJoin(a, b);
    UnbrokenJoin(a + b, c);
    UnbrokenJoin(a + b + c, d);
    UnbrokenJoin(a + b + c + d, f);
    assert EntryFields(e) == a + b + c + d + f;
    UnbrokenJoin("{", EntryFields(e));
    UnbrokenJoin("{" + EntryFields(e), "}");
    Braces();
    KeysUnbroken();
  }

  lemma KeysUnbroken()
    ensures Unbroken("\"kind\":\"session_attestation\",\"session_id\":") && Unbroken(",\"verifier\":")
    ensures Unbroken(",\"attested_at\":") && Unbroken(",\"sig_digest\":") && Unbroken(",\"prev\":")
  {
    hide Unbroken;
    PrintedUnbroken("\"kind\":\"session_attestation\",\"session_id\":");
    PrintedUnbroken(",\"verifier\":");
    PrintedUnbroken(",\"attested_at\":");
    PrintedUnbroken(",\"sig_digest\":");
    PrintedUnbroken(",\"prev\":");
  }

  /** Printable ASCII holds no break. */
  lemma PrintedUnbroken(s: string)
    requires forall i :: 0 <= i < |s| ==> ' ' <= s[i] <= '~'
    ensures Unbroken(s)
  {
  }

  lemma Braces()
    ensures Unbroken("{") && Unbroken("}")
  {
  }

  /** A field with an ordinary key. */
  lemma FieldUnbroken(key: string, value: string)
    ensures Unbroken(key) ==> (Unbroken(Field(key, value)) <==> Plain(value))
  {
    hide Unbroken, Plain, Quote;
    UnbrokenJoin(key, Quote(value));
    QuoteUnbroken(value);
  }

  /** The text of a file to append to; an absent file is created empty. */
  function TextOf(file: Option<string>): string { if file.None? then "" else file.value }

  lemma LinesOfText(file: Option<string>)
    ensures LinesOf(file) == Lines(TextOf(file)) && (file.None? ==> EndsClean(TextOf(file)))
  {
    InkedNone();
    assert Pieces("") == [""];
  }

  /** What append writes: an entry that names the current tip. */
  function NewEntry(t: Tools, file: Option<string>, session: string, verifier: string, attestedAt: string,
                    digest: string): Entry {
    Entry(session, verifier, attestedAt, digest, Tip(t, LinesOf(file)))
  }

  lemma {:induction false} ChainGrows(t: Tools, lines: seq<string>, line: string)
    requires Chained(t, lines)
    ensures Chained(t, lines + [line]) <==> t.parse(line) == Prev(Tip(t, lines))
    ensures Tip(t, lines + [line]) == t.hash(line)
  {
    var all := lines + [line];
    assert all[..|lines|] == lines && all[|lines|] == line;
    if t.parse(line) == Prev(Tip(t, lines)) {
      forall i | 0 <= i < |all| ensures t.parse(all[i]) == Prev(Tip(t, all[..i])) {
        if i < |lines| { assert all[..i] == lines[..i] && all[i] == lines[i]; }
      }
    }
  }

  lemma TipIsPlain(t: Tools, lines: seq<string>)
    requires Sound(t)
    ensures Plain(Tip(t, lines))
  {
    if lines != [] {
      assert Unbroken(t.hash(lines[|lines| - 1]));
    }
  }

  /** Append takes a verifying ledger to a verifying one whose head is the hash it returns. */
  lemma AppendVerifies(t: Tools, file: Option<string>, session: string, verifier: string, attestedAt: string,
                       digest: string)
    requires Sound(t) && Chained(t, LinesOf(file)) && EndsClean(TextOf(file))
    requires Plain(session) && Plain(verifier) && Plain(attestedAt) && Plain(digest)
    ensures var line := EntryLine(NewEntry(t, file, session, verifier, attestedAt, digest));
      var after := Some(TextOf(file) + line + "\n");
      && LinesOf(after) == LinesOf(file) + [line] && EndsClean(after.value)
      && Verified(t, after, t.hash(line))
  {
    var e := NewEntry(t, file, session, verifier, attestedAt, digest);
    TipIsPlain(t, LinesOf(file));
    hide Plain, EntryLine, Pieces, Inked, Chained;
    EntryUnbroken(e);
    EntryIsLine(e);
    LinesOfText(file);
    AppendIffClean(TextOf(file), EntryLine(e));
    LinesAfter(TextOf(file), EntryLine(e));
    ChainGrows(t, LinesOf(file), EntryLine(e));
  }

  /** A chained ledger never holds a line that names its own hash as the tip before it. */
  lemma {:induction false} NoSelfLink(t: Tools, lines: seq<string>, line: string)
    requires Sound(t) && Chained(t, lines) && t.parse(line) == Prev(Tip(t, lines))
    ensures t.hash(line) != Tip(t, lines)
    decreases |lines|
  {
    if lines != [] && t.hash(line) == Tip(t, lines) {
      var n := |lines| - 1;
      ChainedPrefix(t, lines, n);
      assert t.parse(lines[n]) == Prev(Tip(t, lines[..n]));
      NoSelfLink(t, lines[..n], line);
    }
  }

  /** Two appends that read the same head leave a ledger that never verifies, whatever follows. */
  lemma SameHeadTwiceFails(t: Tools, lines: seq<string>, first: string, second: string, rest: seq<string>)
    requires Sound(t)
    requires t.parse(first) == Prev(Tip(t, lines)) && t.parse(second) == Prev(Tip(t, lines))
    ensures !Chained(t, lines + [first, second] + rest)
  {
    var all := lines + [first, second] + rest;
    if Chained(t, all) {
      var n := |lines|;
      ChainedPrefix(t, all, n);
      assert all[..n] == lines && all[n + 1] == second;
      assert all[..n + 1] == lines + [first];
      assert (lines + [first])[n] == first;
      assert t.parse(all[n + 1]) == Prev(Tip(t, all[..n + 1]));
      NoSelfLink(t, lines, first);
    }
  }

  /** The same on the file: both lines land, in either order, and every later walk fails. */
  lemma ConcurrentAppendsFail(t: Tools, file: Option<string>, e1: Entry, e2: Entry, more: string, expected: string)
    requires Sound(t) && EndsClean(TextOf(file)) && FieldsUnbroken(e1) && FieldsUnbroken(e2)
    requires e1.prev == e2.prev == Tip(t, LinesOf(file))
    ensures !Verified(t, Some(TextOf(file) + EntryLine(e1) + "\n" + EntryLine(e2) + "\n" + more), expected)
  {
    hide EntryLine, Pieces, Inked, FieldsUnbroken, Chained, Lines;
    var a := TextOf(file) + EntryLine(e1) + "\n";
    var b := a + EntryLine(e2) + "\n";
    LinesOfText(file);
    EntryUnbroken(e1);
    EntryIsLine(e1);
    EntryUnbroken(e2);
    EntryIsLine(e2);
    AppendIffClean(TextOf(file), EntryLine(e1));
    LinesAfter(TextOf(file), EntryLine(e1));
    AppendIffClean(a, EntryLine(e2));
    LinesAfter(a, EntryLine(e2));
    var rest := AfterBreak(a + EntryLine(e2), more);
    SameHeadTwiceFails(t, LinesOf(file), EntryLine(e1), EntryLine(e2), rest);
    assert Lines(b) == LinesOf(file) + [EntryLine(e1), EntryLine(e2)];
    assert b + more == a + EntryLine(e2) + "\n" + more;
  }

  /** Text after a line feed only adds lines. */
  lemma AfterBreak(a: string, more: string) returns (rest: seq<string>)
    ensures Lines(a + "\n" + more) == Lines(a + "\n") + rest
  {
    hide Inked, Pieces;
    var p, q := Pieces(a), Pieces(more);
    PiecesFeed(a);
    PiecesJoin(a + "\n", more);
    assert (p + [""])[..|p|] == p && "" + q[0] == q[0];
    assert Pieces(a + "\n" + more) == p + q;
    InkedJoin(p, q);
    InkedJoin(p, [""]);
    InkedNone();
    rest := Inked(q);
  }
}
