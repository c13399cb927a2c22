/** Flat arrays of strings, integers and nulls: what the digests of a receipt are taken over. */
module JsonItems {
  import opened Wrappers
  import opened JsonText
  import opened Decimal

  datatype Item = Str(s: string) | Num(n: int) | Null

  function Encode(x: Item): (e: string)
    ensures e != ""
  {
    match x
    case Str(s) => Quote(s)
    case Num(n) => OfInt(n)
    case Null => "null"
  }

  /** The elements, each ended by `,` or by the closing bracket. */
  function Tail(xs: seq<Item>): string
    requires xs != []
    decreases |xs|
  {
    if |xs| == 1 then Encode(xs[0]) + "]" else Encode(xs[0]) + ("," + Tail(xs[1..]))
  }

  function List(xs: seq<Item>): string
    requires xs != []
  {
    "[" + Tail(xs)
  }

  predicate Ends(t: string) { t != "" && (t[0] == ',' || t[0] == ']') }

  /** What follows an element never runs into it, so an element and its rest are determined. */
  lemma SplitUnique(x: Item, t: string, y: Item, u: string)
    requires Ends(t) && Ends(u) && Encode(x) + t == Encode(y) + u
    ensures x == y && t == u
  {
    FirstChar(x, t);
    FirstChar(y, u);
    match x
    case Str(a) =>
      StrUnique(a, t, y, u);
    case Num(a) =>
      if y.Num? { NumUnique(a, t, y.n, u); }
    case Null =>
      assert (Encode(x) + t)[4..] == t && (Encode(y) + u)[4..] == u;
  }

  predicate IsSign(c: char) { c == '-' || IsDigit(c) }

  lemma FirstChar(x: Item, t: string)
    ensures match x
      case Str(_) => (Encode(x) + t)[0] == '"'
      case Num(_) => IsSign((Encode(x) + t)[0])
      case Null => (Encode(x) + t)[0] == 'n'
  {
    if x.Num? {
      assert (Encode(x) + t)[0] == Encode(x)[0];
      if x.n >= 0 { assert OfNat(x.n)[0] in OfNat(x.n); }
    }
  }

  lemma QuoteBody(a: string, t: string)
    ensures (Quote(a) + t)[1..] == EscapeAll(a) + "\"" + t
  {
    hide EscapeAll;
  }

  lemma StrUnique(a: string, t: string, y: Item, u: string)
    requires y.Str? && Quote(a) + t == Quote(y.s) + u
    ensures a == y.s && t == u
  {
    QuoteBody(a, t);
    QuoteBody(y.s, u);
    hide Quote, EscapeAll, ReadBody;
    ReadBack(a, t);
    ReadBack(y.s, u);
  }

  lemma DigitsEnd(a: string, t: string)
    requires AllDigits(a) && Ends(t)
    ensures IsDigit((a + t)[0]) <==> a != ""
  {
    if a != "" {
      assert a[0] in a && (a + t)[0] == a[0];
    } else {
      assert a + t == t;
    }
  }

  lemma {:induction false} DigitsUnique(a: string, t: string, b: string, u: string)
    requires AllDigits(a) && AllDigits(b) && Ends(t) && Ends(u) && a + t == b + u
    ensures a == b && t == u
    decreases |a|
  {
    DigitsEnd(a, t);
    DigitsEnd(b, u);
    if a == "" || b == "" {
      assert "" + t == t && "" + u == u;
    } else {
      assert (a + t)[0] == a[0] && (b + u)[0] == b[0];
      assert (a + t)[1..] == a[1..] + t && (b + u)[1..] == b[1..] + u;
      DigitsUnique(a[1..], t, b[1..], u);
      assert a == [a[0]] + a[1..] && b == [b[0]] + b[1..];
    }
  }

  lemma NumUnique(a: int, t: string, b: int, u: string)
    requires Ends(t) && Ends(u) && OfInt(a) + t == OfInt(b) + u
    ensures a == b && t == u
  {
    NumHead(a, t);
    NumHead(b, u);
    var p, q: nat := if a < 0 then -a else a, if b < 0 then -b else b;
    hide OfNat;
    DigitsUnique(OfNat(p), t, OfNat(q), u);
    RoundTrip(p);
    RoundTrip(q);
  }

  lemma NumHead(a: int, t: string)
    ensures (OfInt(a) + t)[0] == '-' <==> a < 0
    ensures a < 0 ==> (OfInt(a) + t)[1..] == OfNat(-a) + t
  {
    hide OfNat;
    if a >= 0 {
      assert OfNat(a)[0] in OfNat(a);
      assert (OfInt(a) + t)[0] == OfNat(a)[0];
    } else {
      assert (OfInt(a) + t)[0] == '-';
    }
  }

  /** Different arrays are encoded differently. */
  lemma {:induction false} TailInjective(xs: seq<Item>, ys: seq<Item>)
    requires xs != [] && ys != [] && Tail(xs) == Tail(ys)
    ensures xs == ys
    decreases |xs|
  {
    hide Encode;
    var t := if |xs| == 1 then "]" else "," + Tail(xs[1..]);
    var u := if |ys| == 1 then "]" else "," + Tail(ys[1..]);
    SplitUnique(xs[0], t, ys[0], u);
    if |xs| > 1 && |ys| > 1 {
      assert t[1..] == Tail(xs[1..]) && u[1..] == Tail(ys[1..]);
      TailInjective(xs[1..], ys[1..]);
      assert xs == [xs[0]] + xs[1..] && ys == [ys[0]] + ys[1..];
    } else {
      assert t[0] == u[0];
    }
  }

  lemma ListInjective(xs: seq<Item>, ys: seq<Item>)
    requires xs != [] && ys != [] && List(xs) == List(ys)
    ensures xs == ys
  {
    assert List(xs)[1..] == Tail(xs) && List(ys)[1..] == Tail(ys);
    TailInjective(xs, ys);
  }
}
