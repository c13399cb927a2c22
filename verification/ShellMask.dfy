/** Blanking the two recognised shapes of text that is data, not code. */
module ShellMask {
  import opened Wrappers
  import opened ShellSplit

  const UNSAFE := {'$', '`', '(', ')', '{', '}', '<', '>', '|', ';', '&', '\\', '\n'}

  const READERS := {"grep", "egrep", "fgrep", "rg", "cat", "less", "more", "head", "tail", "zcat", "zless", "bat"}

  const TAKES_ARG := {"-C", "-c", "--git-dir", "--work-tree", "--namespace"}

  predicate IsReader(head: string) { head in READERS }

  predicate Inert(s: string) { forall c | c in s :: c !in UNSAFE }

  /** The tokenizer (None on a parse error) and the message regions a pattern finds in a subcommand. */
  datatype Tools = Tools(tokens: string -> Option<seq<string>>, messages: string -> seq<Span>)

  /** Matches come in order, without overlap, inside the text. */
  predicate WellPlaced(n: nat, spans: seq<Span>) {
    && (forall k :: 0 <= k < |spans| ==> spans[k].lo <= spans[k].hi <= n)
    && (forall j, k :: 0 <= j < k < |spans| ==> spans[j].hi <= spans[k].lo)
  }

  ghost predicate Sound(t: Tools) { forall s :: WellPlaced(|s|, t.messages(s)) }

  function Basename(path: string): string
    decreases |path|
  {
    if '/' !in path then path
    else Basename(path[1..])
  }

  // ---- The commit token ------------------------------------------------------------------------

  predicate StartsWith(s: string, p: string) { p <= s }

  /** How many tokens one leading global option takes; zero when the token is none. */
  function OptionWidth(tok: string): nat {
    if StartsWith(tok, "--") && '=' in tok then 1
    else if tok in TAKES_ARG then 2
    else if StartsWith(tok, "-") && tok != "-" then 1
    else 0
  }

  /** The tokens from `i` up to `j` are global options with their arguments, none of them `commit` in
      option position. */
  predicate OptionsOnly(tokens: seq<string>, i: nat, j: nat)
    decreases if i < j then j - i else 0
  {
    i == j || (i < j && i < |tokens| && tokens[i] != "commit" && OptionWidth(tokens[i]) > 0
               && OptionsOnly(tokens, i + OptionWidth(tokens[i]), j))
  }

  /** `git`, then only global options, then `commit` at `j`. */
  predicate CommitsAt(tokens: seq<string>, j: nat) {
    && tokens != [] && Basename(tokens[0]) == "git"
    && 1 <= j < |tokens| && tokens[j] == "commit" && OptionsOnly(tokens, 1, j)
  }

  lemma {:induction false} OptionsMeet(tokens: seq<string>, i: nat, j: nat, k: nat)
    requires OptionsOnly(tokens, i, j) && OptionsOnly(tokens, i, k)
    requires j < |tokens| && tokens[j] == "commit" && k < |tokens| && tokens[k] == "commit"
    ensures j == k
    decreases if i < j then j - i else 0
  {
    if i != j && i != k {
      OptionsMeet(tokens, i + OptionWidth(tokens[i]), j, k);
    }
  }

  lemma {:induction false} OptionsExtend(tokens: seq<string>, i: nat, j: nat)
    requires OptionsOnly(tokens, i, j) && j < |tokens| && tokens[j] != "commit" && OptionWidth(tokens[j]) > 0
    ensures OptionsOnly(tokens, i, j + OptionWidth(tokens[j]))
    decreases if i < j then j - i else 0
  {
    if i != j { OptionsExtend(tokens, i + OptionWidth(tokens[i]), j); }
  }

  /** An options walk that reaches `j` passes through every stop before it. */
  lemma {:induction false} OptionsSuffix(tokens: seq<string>, i: nat, j: nat, k: nat)
    requires OptionsOnly(tokens, i, j) && OptionsOnly(tokens, i, k) && j <= k
    requires k < |tokens| && tokens[k] == "commit"
    ensures OptionsOnly(tokens, j, k)
    decreases if i < j then j - i else 0
  {
    if i != j { OptionsSuffix(tokens, i + OptionWidth(tokens[i]), j, k); }
  }

  lemma {:induction false} OptionsOvershoot(tokens: seq<string>, i: nat, j: nat, k: nat)
    requires OptionsOnly(tokens, i, j) && OptionsOnly(tokens, i, k)
    requires k < |tokens| && tokens[k] == "commit"
    ensures j <= k
    decreases if i < j then j - i else 0
  {
    if i != j && i != k { OptionsOvershoot(tokens, i + OptionWidth(tokens[i]), j, k); }
  }

  /** The walk over leading options: it finds the one place where the invocation is a `git commit`. */
  method FindCommit(tokens: seq<string>) returns (found: Option<nat>)
    ensures found.Some? ==> CommitsAt(tokens, found.value)
    ensures found.None? ==> forall j :: !CommitsAt(tokens, j)
  {
    if tokens == [] || Basename(tokens[0]) != "git" { return None; }
    var i := 1;
    while i < |tokens|
      invariant 1 <= i && OptionsOnly(tokens, 1, i)
      decreases |tokens| - i
    {
      if tokens[i] == "commit" { return Some(i); }
      var width := OptionWidth(tokens[i]);
      if width == 0 {
        forall j ensures !CommitsAt(tokens, j) { Stuck(tokens, i, j); }
        return None;
      }
      OptionsExtend(tokens, 1, i);
      i := i + width;
    }
    forall j ensures !CommitsAt(tokens, j) { Stuck(tokens, i, j); }
    return None;
  }

  lemma Stuck(tokens: seq<string>, i: nat, j: nat)
    requires OptionsOnly(tokens, 1, i)
    requires i >= |tokens| || (tokens[i] != "commit" && OptionWidth(tokens[i]) == 0)
    ensures !CommitsAt(tokens, j)
  {
    if CommitsAt(tokens, j) {
      OptionsOvershoot(tokens, 1, i, j);
      OptionsSuffix(tokens, 1, i, j);
    }
  }

  // ---- One subcommand --------------------------------------------------------------------------

  function Spaces(n: nat): (s: string)
    ensures |s| == n && forall c | c in s :: c == ' '
  {
    seq(n, _ => ' ')
  }

  /** A position inside an inert region. */
  predicate Covered(s: string, spans: seq<Span>, i: nat) {
    exists k :: 0 <= k < |spans| && spans[k].lo <= i < spans[k].hi <= |s| && Inert(s[spans[k].lo..spans[k].hi])
  }

  function Blanked(s: string, spans: seq<Span>): (r: string)
    ensures |r| == |s|
  {
    seq(|s|, i requires 0 <= i < |s| => if Covered(s, spans, i) then ' ' else s[i])
  }

  ghost predicate IsCommit(tokens: seq<string>) { exists j :: CommitsAt(tokens, j) }

  /** The subcommand with what is data in it blanked. */
  ghost function MaskSub(t: Tools, sub: string): (r: string)
    ensures |r| == |sub|
  {
    var tokens := t.tokens(sub);
    if tokens.None? || tokens.value == [] then sub
    else if IsReader(Basename(tokens.value[0])) then (if Inert(sub) then Spaces(|sub|) else sub)
    else if IsCommit(tokens.value) then Blanked(sub, t.messages(sub))
    else sub
  }

  /** The substitution: match by match, what lies between them is copied. */
  method BlankMessages(s: string, spans: seq<Span>) returns (out: string)
    requires WellPlaced(|s|, spans)
    ensures out == Blanked(s, spans)
  {
    hide Blanked, Inert, WellPlaced;
    out := "";
    var prev := 0;
    for k := 0 to |spans|
      invariant prev == (if k == 0 then 0 else spans[k - 1].hi) <= |s|
      invariant out == Blanked(s, spans)[..prev]
    {
      var lo, hi := spans[k].lo, spans[k].hi;
      BetweenMatches(s, spans, k);
      AtMatch(s, spans, k);
      out := out + s[prev..lo] + if Inert(s[lo..hi]) then Spaces(hi - lo) else s[lo..hi];
      assert Blanked(s, spans)[..hi] == Blanked(s, spans)[..prev] + Blanked(s, spans)[prev..lo] +
          Blanked(s, spans)[lo..hi];
      prev := hi;
    }
    AfterMatches(s, spans);
    assert Blanked(s, spans) == Blanked(s, spans)[..prev] + Blanked(s, spans)[prev..];
    out := out + s[prev..];
  }

  lemma BetweenMatches(s: string, spans: seq<Span>, k: nat)
    requires WellPlaced(|s|, spans) && k < |spans|
    ensures var prev := if k == 0 then 0 else spans[k - 1].hi;
      prev <= spans[k].lo <= spans[k].hi <= |s| && Blanked(s, spans)[prev..spans[k].lo] == s[prev..spans[k].lo]
  {
    var prev := if k == 0 then 0 else spans[k - 1].hi;
    forall i | prev <= i < spans[k].lo ensures !Covered(s, spans, i) {
      forall j | 0 <= j < |spans| ensures !(spans[j].lo <= i < spans[j].hi) {
        if j < k - 1 { assert spans[j].hi <= spans[k - 1].lo; }
        if j > k { assert spans[k].hi <= spans[j].lo; }
      }
    }
  }

  lemma AfterMatches(s: string, spans: seq<Span>)
    requires WellPlaced(|s|, spans)
    ensures var prev := if spans == [] then 0 else spans[|spans| - 1].hi;
      prev <= |s| && Blanked(s, spans)[prev..] == s[prev..]
  {
    var prev := if spans == [] then 0 else spans[|spans| - 1].hi;
    forall i | prev <= i < |s| ensures !Covered(s, spans, i) {
      forall j | 0 <= j < |spans| ensures !(spans[j].lo <= i < spans[j].hi) {
        if j < |spans| - 1 { assert spans[j].hi <= spans[|spans| - 1].lo; }
      }
    }
  }

  lemma SameMatch(n: nat, spans: seq<Span>, i: nat, j: nat, k: nat)
    requires WellPlaced(n, spans) && j < |spans| && k < |spans|
    requires spans[j].lo <= i < spans[j].hi && spans[k].lo <= i < spans[k].hi
    ensures j == k
  {
  }

  lemma AtMatch(s: string, spans: seq<Span>, k: nat)
    requires WellPlaced(|s|, spans) && k < |spans|
    ensures var lo, hi := spans[k].lo, spans[k].hi;
      Blanked(s, spans)[lo..hi] == if Inert(s[lo..hi]) then Spaces(hi - lo) else s[lo..hi]
  {
    var lo, hi := spans[k].lo, spans[k].hi;
    forall i | lo <= i < hi ensures Covered(s, spans, i) <==> Inert(s[lo..hi]) {
      if Covered(s, spans, i) {
        var j :| 0 <= j < |spans| && spans[j].lo <= i < spans[j].hi <= |s| && Inert(s[spans[j].lo..spans[j].hi]);
        SameMatch(|s|, spans, i, j, k);
      }
    }
  }

  method MaskSubcommand(t: Tools, sub: string) returns (out: string)
    requires Sound(t)
    ensures out == MaskSub(t, sub)
  {
    hide OptionsOnly, Blanked, Basename, IsReader, Inert, WellPlaced;
    var tokens := t.tokens(sub);
    if tokens.None? || tokens.value == [] { return sub; }
    if IsReader(Basename(tokens.value[0])) {
      return if Inert(sub) then Spaces(|sub|) else sub;
    }
    var commit := FindCommit(tokens.value);
    if commit.Some? {
      assert CommitsAt(tokens.value, commit.value);
      out := BlankMessages(sub, t.messages(sub));
    } else {
      out := sub;
    }
  }

  /** Only inert characters are ever changed, and only to spaces. */
  lemma SubFrame(t: Tools, sub: string, i: nat)
    requires i < |sub|
    ensures MaskSub(t, sub)[i] == sub[i] || (MaskSub(t, sub)[i] == ' ' && sub[i] !in UNSAFE)
  {
    var out := MaskSub(t, sub);
    var tokens := t.tokens(sub);
    if tokens.Some? && tokens.value != [] && IsReader(Basename(tokens.value[0])) {
      if Inert(sub) { assert sub[i] in sub && out[i] in out; }
    } else if tokens.Some? && tokens.value != [] && IsCommit(tokens.value) {
      var spans := t.messages(sub);
      if Covered(sub, spans, i) {
        var k :| 0 <= k < |spans| && spans[k].lo <= i < spans[k].hi <= |sub| && Inert(sub[spans[k].lo..spans[k].hi]);
        assert sub[spans[k].lo..spans[k].hi][i - spans[k].lo] == sub[i];
      }
    }
  }

  /** A subcommand is recognised when it is a reader's or a commit's. */
  ghost predicate Recognised(t: Tools, sub: string) {
    var tokens := t.tokens(sub);
    tokens.Some? && tokens.value != [] && (IsReader(Basename(tokens.value[0])) || IsCommit(tokens.value))
  }

  // ---- The whole command -----------------------------------------------------------------------

  /** The first `n` spans masked, with the separators between them. */
  ghost function Built(t: Tools, s: string, spans: seq<Span>, n: nat): string
    requires IsSplit(s, spans) && n <= |spans|
    decreases n
  {
    if n == 0 then ""
    else
      SpansInOrder(s, spans, n - 1);
      Built(t, s, spans, n - 1) + s[EndOf(spans, n - 1)..spans[n - 1].lo] +
          MaskSub(t, s[spans[n - 1].lo..spans[n - 1].hi])
  }

  function EndOf(spans: seq<Span>, n: nat): nat
    requires n <= |spans|
  {
    if n == 0 then 0 else spans[n - 1].hi
  }

  lemma SpansInOrder(s: string, spans: seq<Span>, n: nat)
    requires IsSplit(s, spans) && n < |spans|
    ensures EndOf(spans, n) <= spans[n].lo <= spans[n].hi <= |s|
  {
    if n > 0 { BetweenSpans(s, spans, n); }
  }

  lemma SplitEnds(s: string, spans: seq<Span>)
    requires IsSplit(s, spans)
    ensures spans != [] && EndOf(spans, |spans|) == |s|
  {
  }

  lemma {:induction false} BuiltLength(t: Tools, s: string, spans: seq<Span>, n: nat)
    requires IsSplit(s, spans) && n <= |spans|
    ensures |Built(t, s, spans, n)| == EndOf(spans, n) <= |s|
  {
    hide MaskSub;
    if n > 0 {
      SpansInOrder(s, spans, n - 1);
      BuiltLength(t, s, spans, n - 1);
    }
  }

  /** A character of three pieces put together. */
  lemma InThree(a: string, b: string, c: string, i: nat)
    requires i < |a| + |b| + |c|
    ensures (a + b + c)[i] ==
            if i < |a| then a[i] else if i < |a| + |b| then b[i - |a|] else c[i - |a| - |b|]
  {
  }

  lemma {:induction false} BuiltFrame(t: Tools, s: string, spans: seq<Span>, n: nat, i: nat)
    requires IsSplit(s, spans) && n <= |spans| && i < EndOf(spans, n)
    ensures i < |Built(t, s, spans, n)| && i < |s|
    ensures var out := Built(t, s, spans, n); out[i] == s[i] || (out[i] == ' ' && s[i] !in UNSAFE)
  {
    hide MaskSub, IsSplit;
    BuiltLength(t, s, spans, n);
    SpansInOrder(s, spans, n - 1);
    BuiltLength(t, s, spans, n - 1);
    var lo, hi, prev := spans[n - 1].lo, spans[n - 1].hi, EndOf(spans, n - 1);
    var before, gap, piece := Built(t, s, spans, n - 1), s[prev..lo], MaskSub(t, s[lo..hi]);
    assert Built(t, s, spans, n) == before + gap + piece;
    hide Built;
    InThree(before, gap, piece, i);
    if i < prev {
      BuiltFrame(t, s, spans, n - 1, i);
    } else if i >= lo {
      SubFrame(t, s[lo..hi], i - lo);
    }
  }

  /** Masking keeps the length and changes characters only to spaces, never one the shell evaluates. */
  lemma MaskFrame(t: Tools, s: string, spans: seq<Span>)
    requires IsSplit(s, spans)
    ensures var out := Built(t, s, spans, |spans|);
      && |out| == |s|
      && forall i :: 0 <= i < |s| ==> out[i] == s[i] || (out[i] == ' ' && s[i] !in UNSAFE)
  {
    BuiltLength(t, s, spans, |spans|);
    forall i | 0 <= i < |s|
      ensures var out := Built(t, s, spans, |spans|); out[i] == s[i] || (out[i] == ' ' && s[i] !in UNSAFE)
    {
      BuiltFrame(t, s, spans, |spans|, i);
    }
  }

  /** The loop over the spans of the command. */
  method Mask(t: Tools, s: string) returns (out: string)
    requires Sound(t)
    ensures |out| == |s|
    ensures forall i :: 0 <= i < |s| ==> out[i] == s[i] || (out[i] == ' ' && s[i] !in UNSAFE)
    ensures forall spans | IsSplit(s, spans) :: out == Built(t, s, spans, |spans|)
  {
    hide MaskSub, IsSplit;
    var cuts := Split(s);
    SplitEnds(s, cuts);
    out := "";
    var prev := 0;
    for k := 0 to |cuts|
      invariant prev == EndOf(cuts, k) <= |s|
      invariant out == Built(t, s, cuts, k)
    {
      SpansInOrder(s, cuts, k);
      var piece := MaskSubcommand(t, s[cuts[k].lo..cuts[k].hi]);
      out := out + s[prev..cuts[k].lo] + piece;
      prev := cuts[k].hi;
    }
    assert s[prev..] == "";
    out := out + s[prev..];
    hide Built;
    MaskFrame(t, s, cuts);
    forall spans | IsSplit(s, spans) ensures out == Built(t, s, spans, |spans|) {
      SplitUnique(s, spans, cuts);
    }
  }

  lemma EndsInOrder(s: string, spans: seq<Span>, k: nat, n: nat)
    requires IsSplit(s, spans) && k < n <= |spans|
    ensures spans[k].hi <= EndOf(spans, n)
  {
    if k + 1 < n {
      SpansInOrder(s, spans, n - 1);
      EndsInOrder(s, spans, k, n - 1);
    }
  }

  lemma {:induction false} BuiltSlice(t: Tools, s: string, spans: seq<Span>, n: nat, k: nat)
    requires IsSplit(s, spans) && k < n <= |spans|
    ensures spans[k].lo <= spans[k].hi <= |Built(t, s, spans, n)| && spans[k].hi <= |s|
    ensures Built(t, s, spans, n)[spans[k].lo..spans[k].hi] == MaskSub(t, s[spans[k].lo..spans[k].hi])
    ensures EndOf(spans, k) <= spans[k].lo && Built(t, s, spans, n)[EndOf(spans, k)..spans[k].lo] ==
            s[EndOf(spans, k)..spans[k].lo]
  {
    hide MaskSub, IsSplit;
    SpansInOrder(s, spans, k);
    SpansInOrder(s, spans, n - 1);
    BuiltLength(t, s, spans, n);
    BuiltLength(t, s, spans, n - 1);
    var before := Built(t, s, spans, n - 1);
    var gap, piece := s[EndOf(spans, n - 1)..spans[n - 1].lo], MaskSub(t, s[spans[n - 1].lo..spans[n - 1].hi]);
    assert Built(t, s, spans, n) == before + gap + piece;
    hide Built;
    if k < n - 1 {
      BuiltSlice(t, s, spans, n - 1, k);
      EndsInOrder(s, spans, k, n - 1);
    }
  }

  /** Every subcommand is masked on its own and the separators are copied: one that is not recognised
      stays exactly as written. */
  lemma MaskBySpan(t: Tools, s: string, spans: seq<Span>, k: nat)
    requires IsSplit(s, spans) && k < |spans|
    ensures var out := Built(t, s, spans, |spans|); var sub := s[spans[k].lo..spans[k].hi];
      && |out| == |s| && out[spans[k].lo..spans[k].hi] == MaskSub(t, sub)
      && (!Recognised(t, sub) ==> out[spans[k].lo..spans[k].hi] == sub)
      && (EndOf(spans, k) <= spans[k].lo && out[EndOf(spans, k)..spans[k].lo] == s[EndOf(spans, k)..spans[k].lo])
  {
    hide Built;
    BuiltLength(t, s, spans, |spans|);
    BuiltSlice(t, s, spans, |spans|, k);
  }
}
