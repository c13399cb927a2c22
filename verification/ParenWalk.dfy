/** The parenthesis walk: where a call that was just opened closes, and blanking the arguments of calls. */
module ParenWalk {
  import opened ShellSplit

  function Step(c: char): int { if c == '(' then 1 else if c == ')' then -1 else 0 }

  /** The depth after reading `s[from..k]` from inside one open parenthesis. */
  function Depth(s: string, from: nat, k: nat): int
    requires from <= k <= |s|
    decreases k
  {
    if k == from then 1 else Depth(s, from, k - 1) + Step(s[k - 1])
  }

  /** The first place at or after `from` where the parenthesis is closed, or the end of the text. */
  predicate ClosesAt(s: string, from: nat, j: nat) {
    && from <= j <= |s|
    && (forall k :: from <= k < j ==> Depth(s, from, k) > 0)
    && (j == |s| || Depth(s, from, j) == 0)
  }

  method FindClose(s: string, from: nat) returns (j: nat, closed: bool)
    requires from <= |s|
    ensures ClosesAt(s, from, j)
    ensures closed <==> Depth(s, from, j) == 0
  {
    var depth := 1;
    j := from;
    while j < |s| && depth != 0
      invariant from <= j <= |s| && depth == Depth(s, from, j) && depth >= 0
      invariant forall k :: from <= k < j ==> Depth(s, from, k) > 0
    {
      if s[j] == '(' {
        depth := depth + 1;
      } else if s[j] == ')' {
        depth := depth - 1;
      }
      j := j + 1;
    }
    closed := depth == 0;
  }

  /** Depths counted from two places differ by a constant. */
  lemma {:induction false} DepthShift(s: string, a: nat, b: nat, k: nat)
    requires a <= b <= k <= |s|
    ensures Depth(s, a, k) == Depth(s, a, b) - 1 + Depth(s, b, k)
    decreases k
  {
    if k > b { DepthShift(s, a, b, k - 1); }
  }

  /** A call opened inside the arguments of another closes no later. */
  lemma NestedCloses(s: string, a: nat, i: nat, b: nat, j: nat)
    requires a < b <= i && ClosesAt(s, a, i) && ClosesAt(s, b, j) && s[b - 1] == '('
    ensures j <= i
  {
    DepthInside(s, a, i, b);
  }

  /** A closed walk ends right after a `)`. */
  lemma CloseIsParen(s: string, from: nat, j: nat)
    requires ClosesAt(s, from, j) && j < |s|
    ensures j > from && s[j - 1] == ')'
  {
    assert Depth(s, from, j - 1) > 0;
  }

  /** Calls as a pattern finds them: in order, apart, each ending with its `(` and holding no `)`. */
  predicate AreCalls(s: string, calls: seq<Span>) {
    && (forall k :: 0 <= k < |calls| ==> IsCall(s, calls[k]))
    && (forall j, k :: 0 <= j < k < |calls| ==> calls[j].hi <= calls[k].lo)
  }

  predicate IsCall(s: string, c: Span) {
    c.lo < c.hi <= |s| && s[c.hi - 1] == '(' && ')' !in s[c.lo..c.hi]
  }

  /** Some call has `i` among its arguments, its closing parenthesis included. */
  predicate InArguments(s: string, calls: seq<Span>, i: nat) {
    exists k :: 0 <= k < |calls| && Within(s, calls[k], i)
  }

  /** The walk from the call's opening parenthesis has not closed before `i`. */
  predicate Within(s: string, c: Span, i: nat) {
    c.hi <= i < |s| && forall k :: c.hi <= k <= i ==> Depth(s, c.hi, k) > 0
  }

  lemma WithinClose(s: string, c: Span, j: nat, i: nat)
    requires c.hi <= |s| && ClosesAt(s, c.hi, j)
    ensures Within(s, c, i) <==> c.hi <= i < j
  {
    if c.hi <= j <= i < |s| { assert Depth(s, c.hi, j) <= 0; }
  }

  /** What the loop has built when it has seen `m` calls and copied or blanked the text up to `pos`. */
  ghost predicate MaskedTo(s: string, calls: seq<Span>, m: nat, pos: nat, out: string) {
    && m <= |calls| && |out| == pos <= |s|
    && (forall k: nat, i: nat :: k < m && Within(s, calls[k], i) ==> i < pos)
    && (forall i: nat :: i < pos ==> out[i] == if InArguments(s, calls[..m], i) then ' ' else s[i])
  }

  /** Every call's arguments are blanked and nothing else, also those of calls found inside another
      call's arguments, which the loop skips. */
  method MaskCalls(s: string, calls: seq<Span>) returns (out: string)
    requires AreCalls(s, calls)
    ensures |out| == |s|
    ensures forall i: nat :: i < |s| ==> out[i] == if InArguments(s, calls, i) then ' ' else s[i]
  {
    hide AreCalls, InArguments, Within;
    out := "";
    var pos: nat := 0;
    ghost var last := -1;
    for m := 0 to |calls|
      invariant pos == 0 || (-1 < last < m && ClosesAt(s, calls[last].hi, pos))
      invariant MaskedTo(s, calls, m, pos, out)
    {
      if calls[m].lo < pos {
        Skipped(s, calls, last, pos, m);
        SkipStep(s, calls, m, pos, out);
      } else {
        CallAt(s, calls, m);
        var j, closed := FindClose(s, calls[m].hi);
        TakeStep(s, calls, m, pos, out, j);
        out := out + s[pos..calls[m].hi] + seq(j - calls[m].hi, _ => ' ');
        pos := j;
        last := m;
      }
    }
    TailStep(s, calls, pos, out);
    out := out + s[pos..];
  }

  lemma CallAt(s: string, calls: seq<Span>, m: nat)
    requires AreCalls(s, calls) && m < |calls|
    ensures IsCall(s, calls[m])
  {
  }

  lemma SkipStep(s: string, calls: seq<Span>, m: nat, pos: nat, out: string)
    requires MaskedTo(s, calls, m, pos, out) && m < |calls|
    requires forall i: nat :: Within(s, calls[m], i) ==> i < pos && InArguments(s, calls[..m], i)
    ensures MaskedTo(s, calls, m + 1, pos, out)
  {
    hide Within, InArguments;
    forall i: nat | i < pos ensures out[i] == if InArguments(s, calls[..m + 1], i) then ' ' else s[i] {
      OneMoreCall(s, calls, m, i);
    }
  }

  lemma TakeStep(s: string, calls: seq<Span>, m: nat, pos: nat, out: string, j: nat)
    requires MaskedTo(s, calls, m, pos, out) && m < |calls| && IsCall(s, calls[m])
    requires pos <= calls[m].lo && ClosesAt(s, calls[m].hi, j)
    ensures MaskedTo(s, calls, m + 1, j, out + s[pos..calls[m].hi] + seq(j - calls[m].hi, _ => ' '))
  {
    var c := calls[m];
    var next := out + s[pos..c.hi] + seq(j - c.hi, _ => ' ');
    forall i: nat ensures Within(s, c, i) <==> c.hi <= i < j { WithinClose(s, c, j, i); }
    hide Within;
    forall i: nat | i < j ensures next[i] == if InArguments(s, calls[..m + 1], i) then ' ' else s[i] {
      OneMoreCall(s, calls, m, i);
      if i >= pos { NotBefore(s, calls, m, i); }
    }
    forall k: nat, i: nat | k < m + 1 && Within(s, calls[k], i) ensures i < j {
      if k < m { assert i < pos; }
    }
  }

  lemma NotBefore(s: string, calls: seq<Span>, m: nat, i: nat)
    requires m <= |calls| && forall k: nat :: k < m ==> !Within(s, calls[k], i)
    ensures !InArguments(s, calls[..m], i)
  {
  }

  lemma TailStep(s: string, calls: seq<Span>, pos: nat, out: string)
    requires MaskedTo(s, calls, |calls|, pos, out)
    ensures |out + s[pos..]| == |s|
    ensures forall i: nat :: i < |s| ==> (out + s[pos..])[i] == if InArguments(s, calls, i) then ' ' else s[i]
  {
    hide Within;
    assert calls[..|calls|] == calls;
    forall i: nat | pos <= i < |s| ensures !InArguments(s, calls, i) {
      NotBefore(s, calls, |calls|, i);
    }
  }

  lemma OneMoreCall(s: string, calls: seq<Span>, m: nat, i: nat)
    requires m < |calls|
    ensures InArguments(s, calls[..m + 1], i) <==> InArguments(s, calls[..m], i) || Within(s, calls[m], i)
  {
    if InArguments(s, calls[..m], i) {
      var k :| 0 <= k < m && Within(s, calls[..m][k], i);
      assert calls[..m + 1][k] == calls[k];
    }
    if Within(s, calls[m], i) { assert calls[..m + 1][m] == calls[m]; }
  }

  lemma NoParenInside(s: string, c: Span, p: nat)
    requires IsCall(s, c) && c.lo <= p < c.hi
    ensures s[p] != ')'
  {
    assert s[c.lo..c.hi][p - c.lo] == s[p];
  }

  /** A call that starts before the end of the blanked region lies in it with all its arguments. */
  lemma Skipped(s: string, calls: seq<Span>, last: int, pos: nat, m: nat)
    requires AreCalls(s, calls) && m < |calls| && -1 < last < m && ClosesAt(s, calls[last].hi, pos)
    requires calls[m].lo < pos
    ensures forall i: nat :: Within(s, calls[m], i) ==> i < pos && InArguments(s, calls[..m], i)
  {
    var a, c := calls[last], calls[m];
    assert IsCall(s, c) && IsCall(s, a);
    if pos < |s| {
      CloseIsParen(s, a.hi, pos);
      if pos - 1 < c.hi { NoParenInside(s, c, pos - 1); }
    }
    forall i: nat | Within(s, c, i) ensures i < pos && InArguments(s, calls[..m], i) {
      if i >= pos {
        DepthInside(s, a.hi, pos, c.hi);
      }
      WithinClose(s, a, pos, i);
      assert calls[..m][last] == a;
    }
  }

  /** Inside a call opened later the walk is always at least one level less deep. */
  lemma DepthInside(s: string, a: nat, pos: nat, b: nat)
    requires a < b <= pos && ClosesAt(s, a, pos) && s[b - 1] == '('
    ensures Depth(s, b, pos) <= Depth(s, a, pos) - 1
  {
    DepthShift(s, a, b, pos);
    assert Depth(s, a, b) == Depth(s, a, b - 1) + 1;
    assert Depth(s, a, b - 1) > 0;
  }
}
