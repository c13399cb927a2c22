/** The shell masks in plain terms: which characters stay, which subcommands are blanked, where quoting hides a
    separator and where a call closes. */
module ShellLaws {
  import opened Wrappers
  import opened ShellSplit
  import opened ShellMask
  import ParenWalk

  // ---- Quoting ---------------------------------------------------------------------------------

  predicate Unquoted(s: string) { '\'' !in s && '"' !in s }

  lemma {:induction false} BareThrough(s: string, i: nat)
    requires i <= |s| && Unquoted(s[..i])
    ensures ModeAt(s, i) == Bare
    decreases i
  {
    if i > 0 {
      assert s[..i] == s[..i - 1] + [s[i - 1]];
      BareThrough(s, i - 1);
    }
  }

  /** Where nothing before it is a quote, a command is cut at each line feed, semicolon and bar, at each pair of bars
      and of ampersands, and nowhere else; a backslash does not protect them. */
  lemma BareIsCut(s: string, i: nat)
    requires i < |s| && Unquoted(s[..i])
    ensures CutAt(s, i) ==
            if "||" <= s[i..] || "&&" <= s[i..] then 2
            else if s[i] in {'\n', ';', '|'} then 1
            else 0
  {
    BareThrough(s, i);
    assert s[i..][0] == s[i];
    if i + 1 < |s| { assert s[i..][1] == s[i + 1] && s[i..][..2] == [s[i], s[i + 1]]; }
  }

  lemma {:induction false} InsideQuotes(s: string, start: nat, i: nat, quote: char)
    requires 0 < start <= i <= |s| && quote in {'\'', '"'} && ModeAt(s, start - 1) == Bare && s[start - 1] == quote
    requires forall k :: start <= k < i ==> s[k] != quote && (quote == '"' ==> s[k] != '\\')
    ensures ModeAt(s, i) == if quote == '"' then Double else Single
    decreases i
  {
    if i > start { InsideQuotes(s, start, i - 1, quote); }
  }

  /** From a quote to the next of its kind nothing is cut, and after it the command is bare again; single quotes
      protect a backslash too. */
  lemma QuotedIsWhole(s: string, open: nat, close: nat, quote: char)
    requires open < close < |s| && quote in {'\'', '"'} && Unquoted(s[..open])
    requires s[open] == quote && s[close] == quote
    requires forall k :: open < k < close ==> s[k] != quote && (quote == '"' ==> s[k] != '\\')
    ensures forall i :: open <= i <= close ==> CutAt(s, i) == 0
    ensures ModeAt(s, close + 1) == Bare
  {
    BareThrough(s, open);
    forall i | open < i <= close ensures CutAt(s, i) == 0 {
      InsideQuotes(s, open + 1, i, quote);
    }
    InsideQuotes(s, open + 1, close, quote);
  }

  /** In double quotes a backslash protects a quote; in single quotes and outside it does not. */
  lemma BackslashExamples()
    ensures CutAt("\"\\\";\"", 3) == 0
    ensures CutAt("'\\';", 3) == 1
    ensures CutAt("\\;", 1) == 1
  {
    var s, r := "\"\\\";\"", "'\\';";
    assert ModeAt(s, 1) == Double;
    assert ModeAt(s, 2) == Escaped;
    assert ModeAt(s, 3) == Double;
    assert ModeAt(r, 1) == Single;
    assert ModeAt(r, 2) == Single;
    assert ModeAt(r, 3) == Bare;
    assert ModeAt("\\;", 1) == Bare;
  }

  // ---- Tools -----------------------------------------------------------------------------------

  /** The path ends with this name. */
  predicate Runs(path: string, name: string) {
    '/' !in name && (path == name || (|path| > |name| && path[|path| - |name| - 1..] == "/" + name))
  }

  lemma {:induction false} BasenameRuns(path: string)
    ensures Runs(path, Basename(path))
    decreases |path|
  {
    if '/' in path {
      var name := Basename(path[1..]);
      BasenameRuns(path[1..]);
      if path[1..] == name {
        assert path == [path[0]] + name;
        assert path[0] == '/';
        assert path[|path| - |name| - 1..] == path;
      } else {
        assert path[1..][|path[1..]| - |name| - 1..] == path[|path| - |name| - 1..];
      }
    }
  }

  /** A name a path runs is its tail. */
  lemma RunsTail(path: string, name: string)
    requires Runs(path, name)
    ensures |name| <= |path| && path[|path| - |name|..] == name
    ensures |name| < |path| ==> path[|path| - |name| - 1] == '/'
  {
    if path == name {
      assert path[0..] == path;
    } else {
      var tail := path[|path| - |name| - 1..];
      assert tail[0] == path[|path| - |name| - 1];
      assert tail[1..] == path[|path| - |name|..] && ("/" + name)[1..] == name;
    }
  }

  lemma ShorterRuns(path: string, a: string, b: string)
    requires Runs(path, a) && |a| < |b|
    ensures !Runs(path, b)
  {
    RunsTail(path, a);
    if |b| <= |path| {
      var tail := path[|path| - |b|..];
      assert tail[|b| - |a| - 1] == path[|path| - |a| - 1];
      assert '/' in tail;
      if Runs(path, b) { RunsTail(path, b); }
    }
  }

  lemma OneName(path: string, a: string, b: string)
    requires Runs(path, a) && Runs(path, b)
    ensures a == b
  {
    RunsTail(path, a);
    RunsTail(path, b);
    if |a| < |b| {
      ShorterRuns(path, a, b);
    } else if |b| < |a| {
      ShorterRuns(path, b, a);
    }
  }

  lemma BasenameIs(path: string, name: string)
    ensures Basename(path) == name <==> Runs(path, name)
  {
    BasenameRuns(path);
    if Runs(path, name) { OneName(path, name, Basename(path)); }
  }

  predicate ReadsOnly(path: string) {
    || Runs(path, "grep") || Runs(path, "egrep") || Runs(path, "fgrep") || Runs(path, "rg") || Runs(path, "cat")
    || Runs(path, "less") || Runs(path, "more") || Runs(path, "head") || Runs(path, "tail") || Runs(path, "zcat")
    || Runs(path, "zless") || Runs(path, "bat")
  }

  lemma ReaderIff(path: string)
    ensures IsReader(Basename(path)) <==> ReadsOnly(path)
  {
    hide Basename, Runs;
    BasenameIs(path, "grep");
    BasenameIs(path, "egrep");
    BasenameIs(path, "fgrep");
    BasenameIs(path, "rg");
    BasenameIs(path, "cat");
    BasenameIs(path, "less");
    BasenameIs(path, "more");
    BasenameIs(path, "head");
    BasenameIs(path, "tail");
    BasenameIs(path, "zcat");
    BasenameIs(path, "zless");
    BasenameIs(path, "bat");
  }

  /** A global option of git on its own, or one of five with its argument. */
  predicate IsOption(group: seq<string>) {
    || (|group| == 1 && "-" < group[0] && (("--" <= group[0] && '=' in group[0]) || !TakesArgument(group[0])))
    || (|group| == 2 && TakesArgument(group[0]))
  }

  predicate TakesArgument(option: string) {
    option == "-C" || option == "-c" || option == "--git-dir" || option == "--work-tree" || option == "--namespace"
  }

  function Joined(groups: seq<seq<string>>): seq<string>
    decreases |groups|
  {
    if groups == [] then [] else groups[0] + Joined(groups[1..])
  }

  lemma WidthIs(token: string)
    ensures OptionWidth(token) == 2 <==> TakesArgument(token)
    ensures OptionWidth(token) == 1 <==> IsOption([token])
    ensures OptionWidth(token) > 0 ==> token != "commit"
  {
    assert '=' !in "--git-dir" && '=' !in "--work-tree" && '=' !in "--namespace";
    assert "commit"[0] != '-';
    if "--" <= token { assert token[..1] == "-"; }
    if "-" <= token { assert token[0] == '-'; }
    if "-" <= token && |token| == 1 { assert token == "-"; }
  }

  lemma {:induction false} OptionsAre(tokens: seq<string>, i: nat, j: nat) returns (groups: seq<seq<string>>)
    requires OptionsOnly(tokens, i, j) && j <= |tokens|
    ensures i <= j && tokens[i..j] == Joined(groups)
    ensures forall g | g in groups :: IsOption(g)
    decreases if i < j then j - i else 0
  {
    hide OptionWidth;
    if i == j {
      groups := [];
    } else {
      var width := OptionWidth(tokens[i]);
      WidthIs(tokens[i]);
      WidthBound(tokens[i]);
      StopsInOrder(tokens, i + width, j);
      var rest := OptionsAre(tokens, i + width, j);
      groups := [tokens[i..i + width]] + rest;
      assert tokens[i..j] == tokens[i..i + width] + tokens[i + width..j];
      assert groups[1..] == rest;
      assert width == 1 ==> tokens[i..i + 1] == [tokens[i]];
    }
  }

  lemma WidthBound(token: string)
    ensures OptionWidth(token) <= 2
  {
  }

  lemma StopsInOrder(tokens: seq<string>, i: nat, j: nat)
    requires OptionsOnly(tokens, i, j)
    ensures i <= j
  {
  }

  lemma {:induction false} OptionsFrom(tokens: seq<string>, i: nat, j: nat, groups: seq<seq<string>>)
    requires i <= j <= |tokens| && tokens[i..j] == Joined(groups)
    requires forall g | g in groups :: IsOption(g)
    ensures OptionsOnly(tokens, i, j)
    decreases |groups|
  {
    hide OptionWidth;
    if groups != [] {
      var g := groups[0];
      assert IsOption(g);
      assert tokens[i..j][..|g|] == g && tokens[i..j][|g|..] == Joined(groups[1..]);
      assert tokens[i..j][0] == tokens[i] && g[0] == tokens[i];
      assert tokens[i + |g|..j] == tokens[i..j][|g|..];
      OptionsFrom(tokens, i + |g|, j, groups[1..]);
      WidthIs(tokens[i]);
      assert |g| == 1 ==> g == [tokens[i]];
    }
  }

  /** The token at `j` is the commit of a git invocation exactly when nothing but global options stands between. */
  lemma CommitIff(tokens: seq<string>, j: nat)
    ensures CommitsAt(tokens, j) <==>
            && 1 <= j < |tokens| && Runs(tokens[0], "git") && tokens[j] == "commit"
            && exists groups :: tokens[1..j] == Joined(groups) && forall g | g in groups :: IsOption(g)
  {
    hide OptionsOnly, Basename, Runs, IsOption, Joined;
    if tokens != [] { BasenameIs(tokens[0], "git"); }
    if CommitsAt(tokens, j) { var groups := OptionsAre(tokens, 1, j); }
    if 1 <= j < |tokens| {
      if groups :| tokens[1..j] == Joined(groups) && forall g | g in groups :: IsOption(g) {
        OptionsFrom(tokens, 1, j, groups);
      }
    }
  }

  // ---- Masking ---------------------------------------------------------------------------------

  /** A character the shell gives meaning to. */
  predicate Evaluated(c: char) {
    || c == '$' || c == '`' || c == '(' || c == ')' || c == '{' || c == '}' || c == '<' || c == '>' || c == '|'
    || c == ';' || c == '&' || c == '\\' || c == '\n'
  }

  predicate Plain(s: string) { forall i :: 0 <= i < |s| ==> !Evaluated(s[i]) }

  lemma InertIff(s: string)
    ensures Inert(s) <==> Plain(s)
  {
    forall c: char ensures c in UNSAFE <==> Evaluated(c) {
    }
    if Plain(s) {
      forall c | c in s ensures c !in UNSAFE {
        var i :| 0 <= i < |s| && s[i] == c;
        assert !Evaluated(s[i]);
      }
    }
  }

  ghost predicate Commits(tokens: seq<string>) { exists j :: CommitsAt(tokens, j) }

  /** The position lies in a message without any such character. */
  predicate InMessage(sub: string, messages: seq<Span>, i: nat) {
    exists k :: 0 <= k < |messages| && messages[k].lo <= i < messages[k].hi <= |sub|
                && Plain(sub[messages[k].lo..messages[k].hi])
  }

  /** What masking makes of a subcommand: all of a plain reader's blanked, the plain messages of a commit blanked,
      anything else as written. */
  lemma SubMasked(t: Tools, sub: string, i: nat)
    requires i < |sub|
    ensures var tokens := t.tokens(sub);
      var reader := tokens.Some? && tokens.value != [] && ReadsOnly(tokens.value[0]);
      var commits := tokens.Some? && tokens.value != [] && !reader && Commits(tokens.value);
      MaskSub(t, sub)[i] ==
      if (reader && Plain(sub)) || (commits && InMessage(sub, t.messages(sub), i)) then ' ' else sub[i]
  {
    var tokens := t.tokens(sub);
    InertIff(sub);
    if tokens.Some? && tokens.value != [] { ReaderIff(tokens.value[0]); }
    var spans := t.messages(sub);
    CoveredIff(sub, spans, i);
    hide CommitsAt, Basename, IsReader, Inert, ReadsOnly, Covered, InMessage;
  }

  lemma CoveredIff(sub: string, spans: seq<Span>, i: nat)
    ensures Covered(sub, spans, i) <==> InMessage(sub, spans, i)
  {
    hide Inert, Plain;
    if Covered(sub, spans, i) {
      var k :| 0 <= k < |spans| && spans[k].lo <= i < spans[k].hi <= |sub| && Inert(sub[spans[k].lo..spans[k].hi]);
      InertIff(sub[spans[k].lo..spans[k].hi]);
    }
    if InMessage(sub, spans, i) {
      var k :| 0 <= k < |spans| && spans[k].lo <= i < spans[k].hi <= |sub| && Plain(sub[spans[k].lo..spans[k].hi]);
      InertIff(sub[spans[k].lo..spans[k].hi]);
    }
  }

  /** The whole mask, for the one split there is: an evaluated character is never changed. */
  method Masking(t: Tools, s: string) returns (out: string, ghost spans: seq<Span>)
    requires Sound(t)
    ensures |out| == |s| && IsSplit(s, spans)
    ensures forall i :: 0 <= i < |s| && Evaluated(s[i]) ==> out[i] == s[i]
    ensures forall k :: 0 <= k < |spans| ==>
              spans[k].lo <= spans[k].hi <= |s| &&
              out[spans[k].lo..spans[k].hi] == MaskSub(t, s[spans[k].lo..spans[k].hi])
  {
    hide MaskSub, IsSplit, Built, Evaluated;
    out := Mask(t, s);
    spans := Split(s);
    SpansMasked(t, s, spans);
    forall i | 0 <= i < |s| && Evaluated(s[i]) ensures out[i] == s[i] {
      EvaluatedIsUnsafe(s[i]);
    }
  }

  lemma EvaluatedIsUnsafe(c: char)
    ensures Evaluated(c) <==> c in UNSAFE
  {
  }

  lemma SpansMasked(t: Tools, s: string, spans: seq<Span>)
    requires IsSplit(s, spans)
    ensures var out := Built(t, s, spans, |spans|);
      && |out| == |s|
      && forall k :: 0 <= k < |spans| ==>
           spans[k].lo <= spans[k].hi <= |s| &&
           out[spans[k].lo..spans[k].hi] == MaskSub(t, s[spans[k].lo..spans[k].hi])
  {
    hide MaskSub, IsSplit, Built;
    var out := Built(t, s, spans, |spans|);
    BuiltLength(t, s, spans, |spans|);
    SplitEnds(s, spans);
    forall k | 0 <= k < |spans|
      ensures spans[k].lo <= spans[k].hi <= |s|
      ensures out[spans[k].lo..spans[k].hi] == MaskSub(t, s[spans[k].lo..spans[k].hi])
    {
      SpansInOrder(s, spans, k);
      BuiltSlice(t, s, spans, |spans|, k);
    }
  }

  // ---- Calls -----------------------------------------------------------------------------------

  predicate NoParens(s: string) { '(' !in s && ')' !in s }

  lemma {:induction false} FlatDepth(s: string, from: nat, start: nat, k: nat)
    requires from <= start <= k <= |s| && NoParens(s[start..k])
    ensures ParenWalk.Depth(s, from, k) == ParenWalk.Depth(s, from, start)
    decreases k
  {
    if k > start {
      assert s[start..k] == s[start..k - 1] + [s[k - 1]];
      assert s[k - 1] in s[start..k];
      FlatDepth(s, from, start, k - 1);
    }
  }

  lemma FlatAll(s: string, from: nat, start: nat, end: nat)
    requires from <= start <= end <= |s| && NoParens(s[start..end])
    ensures forall k :: start <= k <= end ==> ParenWalk.Depth(s, from, k) == ParenWalk.Depth(s, from, start)
  {
    hide ParenWalk.Depth;
    forall k | start <= k <= end ensures ParenWalk.Depth(s, from, k) == ParenWalk.Depth(s, from, start) {
      assert s[start..end][..k - start] == s[start..k];
      FlatDepth(s, from, start, k);
    }
  }

  /** A call closes at its own parenthesis: past a call among its arguments, and at the end of the text when it has
      none. */
  method Closing(s: string, from: nat, open: nat, close: nat, end: nat) returns (j: nat, closed: bool)
    requires from <= open < close < end <= |s| && s[open] == '(' && s[close] == ')'
    requires NoParens(s[from..open]) && NoParens(s[open + 1..close]) && NoParens(s[close + 1..end])
    requires end < |s| ==> s[end] == ')'
    ensures closed == (end < |s|) && j == if closed then end + 1 else |s|
  {
    FlatAll(s, from, from, open);
    FlatAll(s, from, open + 1, close);
    FlatAll(s, from, close + 1, end);
    assert ParenWalk.Depth(s, from, open + 1) == 2;
    assert ParenWalk.Depth(s, from, close + 1) == 1;
    assert end < |s| ==> ParenWalk.Depth(s, from, end + 1) == 0;
    j, closed := ParenWalk.FindClose(s, from);
  }

  /** The arguments of one call without parentheses are blanked with its closing one, and nothing else is. */
  method Blanking(s: string, lo: nat, open: nat, close: nat) returns (out: string)
    requires lo <= open < close < |s| && s[open] == '(' && s[close] == ')'
    requires NoParens(s[open + 1..close]) && ')' !in s[lo..open]
    ensures |out| == |s|
    ensures forall i :: 0 <= i < |s| ==> out[i] == if open < i <= close then ' ' else s[i]
  {
    var calls := [Span(lo, open + 1)];
    OneCall(s, calls, open, close);
    out := ParenWalk.MaskCalls(s, calls);
    hide ParenWalk.InArguments;
  }

  lemma OneCall(s: string, calls: seq<Span>, open: nat, close: nat)
    requires |calls| == 1 && calls[0].hi == open + 1
    requires calls[0].lo <= open < close < |s| && s[open] == '(' && s[close] == ')'
    requires NoParens(s[open + 1..close]) && ')' !in s[calls[0].lo..open]
    ensures ParenWalk.AreCalls(s, calls)
    ensures forall i: nat :: i < |s| ==> (ParenWalk.InArguments(s, calls, i) <==> open < i <= close)
  {
    assert s[calls[0].lo..open + 1] == s[calls[0].lo..open] + [s[open]];
    FlatAll(s, open + 1, open + 1, close);
    assert ParenWalk.Depth(s, open + 1, close + 1) == 0;
    assert ParenWalk.ClosesAt(s, open + 1, close + 1);
    hide ParenWalk.ClosesAt, ParenWalk.Depth;
    forall i: nat | i < |s| ensures ParenWalk.InArguments(s, calls, i) <==> open < i <= close {
      ParenWalk.WithinClose(s, calls[0], close + 1, i);
      hide ParenWalk.Within;
    }
  }

  /** A call that never closes is blanked to the end of the text. */
  method Unclosed(s: string, lo: nat, open: nat) returns (out: string)
    requires lo <= open < |s| && s[open] == '(' && NoParens(s[open + 1..]) && ')' !in s[lo..open]
    ensures |out| == |s|
    ensures forall i :: 0 <= i < |s| ==> out[i] == if open < i then ' ' else s[i]
  {
    var calls := [Span(lo, open + 1)];
    OpenCall(s, calls, open);
    out := ParenWalk.MaskCalls(s, calls);
    hide ParenWalk.InArguments;
  }

  lemma OpenCall(s: string, calls: seq<Span>, open: nat)
    requires |calls| == 1 && calls[0].hi == open + 1 && calls[0].lo <= open < |s|
    requires s[open] == '(' && NoParens(s[open + 1..]) && ')' !in s[calls[0].lo..open]
    ensures ParenWalk.AreCalls(s, calls)
    ensures forall i: nat :: i < |s| ==> (ParenWalk.InArguments(s, calls, i) <==> open < i)
  {
    assert s[calls[0].lo..open + 1] == s[calls[0].lo..open] + [s[open]];
    assert s[open + 1..|s|] == s[open + 1..];
    FlatAll(s, open + 1, open + 1, |s|);
    assert ParenWalk.ClosesAt(s, open + 1, |s|);
    hide ParenWalk.ClosesAt, ParenWalk.Depth;
    forall i: nat | i < |s| ensures ParenWalk.InArguments(s, calls, i) <==> open < i {
      ParenWalk.WithinClose(s, calls[0], |s|, i);
      hide ParenWalk.Within;
    }
  }

  /** One call may begin where another's opening parenthesis ends. */
  lemma CallsMayTouch(s: string, a: Span, b: Span)
    requires a.lo < a.hi == b.lo < b.hi <= |s| && s[a.hi - 1] == '(' && s[b.hi - 1] == '('
    requires ')' !in s[a.lo..a.hi] && ')' !in s[b.lo..b.hi]
    ensures ParenWalk.AreCalls(s, [a, b])
  {
  }
}
