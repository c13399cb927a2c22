/** Splitting a shell command at its unquoted separators. */
module ShellSplit {
  datatype Mode = Bare | Single | Double | Escaped

  /** Quoting as the splitter sees it: a backslash counts only inside double quotes. */
  function After(m: Mode, c: char): Mode {
    match m
    case Bare => if c == '\'' then Single else if c == '"' then Double else Bare
    case Single => if c == '\'' then Bare else Single
    case Double => if c == '\\' then Escaped else if c == '"' then Bare else Double
    case Escaped => Double
  }

  function ModeAt(s: string, i: nat): Mode
    requires i <= |s|
    decreases i
  {
    if i == 0 then Bare else After(ModeAt(s, i - 1), s[i - 1])
  }

  /** The length of the separator that starts at `i`: zero when none does. */
  function CutAt(s: string, i: nat): (n: nat)
    ensures n <= 2 && (i <= |s| ==> i + n <= |s|)
  {
    if i >= |s| || ModeAt(s, i) != Bare then 0
    else if s[i] == '\n' || s[i] == ';' then 1
    else if s[i] == '&' && i + 1 < |s| && s[i + 1] == '&' then 2
    else if s[i] == '|' then (if i + 1 < |s| && s[i + 1] == '|' then 2 else 1)
    else 0
  }

  const SEPARATORS: set<string> := {";", "\n", "|", "||", "&&"}

  /** A separator is one of five strings, outside quotes, and a `|` is never half of a `||`. */
  lemma CutIsSeparator(s: string, i: nat)
    requires CutAt(s, i) > 0
    ensures i + CutAt(s, i) <= |s| && s[i..i + CutAt(s, i)] in SEPARATORS
    ensures ModeAt(s, i) == Bare && ModeAt(s, i + CutAt(s, i)) == Bare
    ensures s[i..i + CutAt(s, i)] == "|" && i + 1 < |s| ==> s[i + 1] != '|'
  {
    var n := CutAt(s, i);
    if n == 1 {
      assert s[i..i + 1] == [s[i]];
    } else {
      assert s[i..i + 2] == [s[i], s[i + 1]];
      assert ModeAt(s, i + 1) == Bare;
    }
  }

  datatype Span = Span(lo: nat, hi: nat)

  predicate Uncut(s: string, lo: nat, hi: nat) { forall i :: lo <= i < hi ==> CutAt(s, i) == 0 }

  /** The spans of a command: in order, no separator inside one, exactly one separator between two. */
  predicate IsSplit(s: string, spans: seq<Span>) {
    && spans != [] && spans[0].lo == 0 && spans[|spans| - 1].hi == |s|
    && (forall k :: 0 <= k < |spans| ==> spans[k].lo <= spans[k].hi <= |s| && Uncut(s, spans[k].lo, spans[k].hi))
    && (forall k :: 0 < k < |spans| ==> Follows(s, spans[k - 1], spans[k]))
  }

  predicate Follows(s: string, a: Span, b: Span) {
    CutAt(s, a.hi) > 0 && b.lo == a.hi + CutAt(s, a.hi)
  }

  lemma {:induction false} SamePrefix(s: string, a: seq<Span>, b: seq<Span>, n: nat)
    requires IsSplit(s, a) && IsSplit(s, b) && n <= |a| <= |b|
    ensures a[..n] == b[..n]
  {
    if n > 0 {
      SamePrefix(s, a, b, n - 1);
      var k := n - 1;
      if k > 0 {
        assert a[..k][k - 1] == b[..k][k - 1];
        assert Follows(s, a[k - 1], a[k]) && Follows(s, b[k - 1], b[k]);
      }
      assert a[k].lo == b[k].lo;
      SpanEnds(s, a, k);
      SpanEnds(s, b, k);
      SameEnd(s, a[k], b[k]);
      assert a[..n] == a[..k] + [a[k]] && b[..n] == b[..k] + [b[k]];
    }
  }

  /** A span ends at a separator or at the end of the command. */
  lemma SpanEnds(s: string, a: seq<Span>, k: nat)
    requires IsSplit(s, a) && k < |a|
    ensures a[k].lo <= a[k].hi <= |s| && Uncut(s, a[k].lo, a[k].hi) && (a[k].hi == |s| || CutAt(s, a[k].hi) > 0)
  {
    if k + 1 < |a| { assert Follows(s, a[k + 1 - 1], a[k + 1]); }
  }

  lemma SameEnd(s: string, x: Span, y: Span)
    requires x.lo == y.lo && x.lo <= x.hi <= |s| && y.lo <= y.hi <= |s|
    requires Uncut(s, x.lo, x.hi) && Uncut(s, y.lo, y.hi)
    requires (x.hi == |s| || CutAt(s, x.hi) > 0) && (y.hi == |s| || CutAt(s, y.hi) > 0)
    ensures x == y
  {
  }

  /** Neighbouring spans are ordered and disjoint, and one unquoted separator stands between them. */
  lemma BetweenSpans(s: string, spans: seq<Span>, k: nat)
    requires IsSplit(s, spans) && 0 < k < |spans|
    ensures spans[k - 1].hi < spans[k].lo <= |s|
    ensures s[spans[k - 1].hi..spans[k].lo] in SEPARATORS
    ensures ModeAt(s, spans[k - 1].hi) == Bare && ModeAt(s, spans[k].lo) == Bare
  {
    assert Follows(s, spans[k - 1], spans[k]);
    CutIsSeparator(s, spans[k - 1].hi);
  }

  /** A command has one split only. */
  lemma SplitUnique(s: string, a: seq<Span>, b: seq<Span>)
    requires IsSplit(s, a) && IsSplit(s, b)
    ensures a == b
  {
    if |a| <= |b| {
      SamePrefix(s, a, b, |a|);
      LastEnds(s, b, |a| - 1, a[|a| - 1]);
    } else {
      SamePrefix(s, b, a, |b|);
      LastEnds(s, a, |b| - 1, b[|b| - 1]);
    }
  }

  lemma LastEnds(s: string, spans: seq<Span>, k: nat, last: Span)
    requires IsSplit(s, spans) && k < |spans| && last.hi == |s|
    ensures spans[k] == last ==> k == |spans| - 1
  {
    if k + 1 < |spans| { BetweenSpans(s, spans, k + 1); }
  }

  /** The splitter's loop. */
  method Split(s: string) returns (spans: seq<Span>)
    ensures IsSplit(s, spans)
  {
    spans := [];
    var quote: Mode := Bare;
    var i, start := 0, 0;
    while i < |s|
      invariant 0 <= start <= i <= |s|
      invariant quote in {Bare, Single, Double} && (i < |s| ==> ModeAt(s, i) == quote)
      invariant Uncut(s, start, i)
      invariant Started(s, spans, start)
      decreases |s| - i
    {
      hide Started, ModeAt;
      var c := s[i];
      ModeNext(s, i);
      if quote != Bare {
        if c == '\\' && quote == Double && i + 1 < |s| {
          ModeNext(s, i + 1);
          i := i + 2;
          continue;
        }
        if c == (if quote == Single then '\'' else '"') { quote := Bare; }
        i := i + 1;
        continue;
      }
      if c == '\'' || c == '"' {
        quote := if c == '\'' then Single else Double;
        i := i + 1;
        continue;
      }
      var n := if c == '\n' || c == ';' then 1
               else if c == '&' && i + 1 < |s| && s[i + 1] == '&' then 2
               else if c == '|' then (if i + 1 < |s| && s[i + 1] == '|' then 2 else 1)
               else 0;
      assert n == CutAt(s, i);
      if n > 0 {
        CutIsSeparator(s, i);
        StartNext(s, spans, start, i);
        spans := spans + [Span(start, i)];
        i := i + n;
        start := i;
      } else {
        i := i + 1;
      }
    }
    Finished(s, spans, start);
    spans := spans + [Span(start, |s|)];
  }

  /** The spans cut so far; the next one starts at `start`. */
  predicate Started(s: string, spans: seq<Span>, start: nat) {
    && (forall k :: 0 <= k < |spans| ==> spans[k].lo <= spans[k].hi <= |s| && Uncut(s, spans[k].lo, spans[k].hi))
    && (forall k :: 0 < k < |spans| ==> Follows(s, spans[k - 1], spans[k]))
    && (if spans == [] then start == 0 else spans[0].lo == 0 && Follows(s, spans[|spans| - 1], Span(start, start)))
  }

  lemma StartNext(s: string, spans: seq<Span>, start: nat, i: nat)
    requires Started(s, spans, start) && start <= i <= |s| && Uncut(s, start, i) && CutAt(s, i) > 0
    ensures Started(s, spans + [Span(start, i)], i + CutAt(s, i))
  {
  }

  lemma Finished(s: string, spans: seq<Span>, start: nat)
    requires Started(s, spans, start) && start <= |s| && Uncut(s, start, |s|)
    ensures IsSplit(s, spans + [Span(start, |s|)])
  {
  }

  lemma ModeNext(s: string, i: nat)
    requires i < |s|
    ensures ModeAt(s, i + 1) == After(ModeAt(s, i), s[i])
  {
  }
}
