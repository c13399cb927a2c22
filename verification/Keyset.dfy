/** Keyset pagination in the abstract: a page is the first rows of an ordered selection strictly
    beyond a cursor key, and a walk reads one page after another while the selection changes. */
module Keyset {
  import opened Wrappers

  ghost predicate StrictTotal<K(!new)>(less: (K, K) -> bool) {
    && (forall a :: !less(a, a))
    && (forall a, b, c :: less(a, b) && less(b, c) ==> less(a, c))
    && (forall a, b :: a == b || less(a, b) || less(b, a))
  }

  ghost predicate Ascending<K(!new)>(less: (K, K) -> bool, keys: seq<K>) {
    forall i, j :: 0 <= i < j < |keys| ==> less(keys[i], keys[j])
  }

  lemma AscendingDistinct<K(!new)>(less: (K, K) -> bool, keys: seq<K>)
    requires StrictTotal(less) && Ascending(less, keys)
    ensures forall i, j | 0 <= i < |keys| && 0 <= j < |keys| && keys[i] == keys[j] :: i == j
  {
    forall i, j | 0 <= i < j < |keys| ensures keys[i] != keys[j] {
      assert less(keys[i], keys[j]);
    }
  }

  lemma {:induction false} LeastExists<K(!new)>(less: (K, K) -> bool, s: set<K>) returns (m: K)
    requires StrictTotal(less) && s != {}
    ensures m in s && forall k | k in s :: k == m || less(m, k)
  {
    var k :| k in s;
    var rest := s - {k};
    if rest == {} {
      assert s == {k};
      m := k;
    } else {
      m := LeastExists(less, rest);
      if less(k, m) {
        m := k;
      }
      assert s == rest + {k};
    }
  }

  /** SELECT ... ORDER BY: the keys of s in ascending order. */
  function Sort<K(!new, ==)>(less: (K, K) -> bool, s: set<K>): (r: seq<K>)
    requires StrictTotal(less)
    ensures |r| == |s|
    ensures forall k :: k in r <==> k in s
    ensures Ascending(less, r)
  {
    if s == {} then []
    else
      assert exists m :: m in s && forall k | k in s :: k == m || less(m, k) by {
        var m := LeastExists(less, s);
      }
      var m :| m in s && forall k | k in s :: k == m || less(m, k);
      [m] + Sort(less, s - {m})
  }

  lemma SameContentsNonempty<K>(a: seq<K>, b: seq<K>)
    requires a != [] && forall k :: k in a <==> k in b
    ensures b != []
  {
    assert a[0] in b;
  }

  /** Order and contents determine the sequence. */
  lemma {:induction false} AscendingUnique<K(!new)>(less: (K, K) -> bool, a: seq<K>, b: seq<K>)
    requires StrictTotal(less) && Ascending(less, a) && Ascending(less, b)
    requires forall k :: k in a <==> k in b
    ensures a == b
  {
    if b != [] {
      SameContentsNonempty(b, a);
    }
    if a != [] {
      SameContentsNonempty(a, b);
      assert a[0] in b && b[0] in a;
      var i :| 0 <= i < |b| && b[i] == a[0];
      var j :| 0 <= j < |a| && a[j] == b[0];
      assert a[0] == b[0];
      forall k ensures k in a[1..] <==> k in b[1..] {
        assert k in a <==> k == a[0] || k in a[1..];
        assert k in b <==> k == b[0] || k in b[1..];
        assert a[0] !in a[1..] && b[0] !in b[1..];
      }
      AscendingUnique(less, a[1..], b[1..]);
      assert a == [a[0]] + a[1..] && b == [b[0]] + b[1..];
    }
  }

  /** The keys strictly beyond a cursor; no cursor means all of them. */
  function Beyond<K(!new, ==)>(less: (K, K) -> bool, s: set<K>, after: Option<K>): set<K> {
    set k | k in s && (after.None? || less(after.value, k))
  }

  function Take<T>(n: nat, s: seq<T>): seq<T> {
    if |s| > n then s[..n] else s
  }

  datatype Page<K> = Page(items: seq<K>, more: bool)

  function PageOf<K(!new, ==)>(less: (K, K) -> bool, s: set<K>, after: Option<K>, limit: nat): Page<K>
    requires StrictTotal(less)
  {
    var rows := Sort(less, Beyond(less, s, after));
    Page(Take(limit, rows), |rows| > limit)
  }

  /** Fetching one row more than the limit and cutting it off is the page. */
  lemma FetchIsPage<K(!new)>(rows: seq<K>, limit: nat)
    ensures (|Take(limit + 1, rows)| > limit) == (|rows| > limit)
    ensures Take(limit, Take(limit + 1, rows)) == Take(limit, rows)
  {
  }

  /** What one page request finds: the selection as it is at that moment, and the limit asked for. */
  datatype Visit<K> = Visit(live: set<K>, limit: nat)

  datatype Trail<K> = Trail(out: seq<K>, done: bool)

  /** One page request: what is stored at that moment, and the limit asked for. */
  datatype Ask<T> = Ask(at: T, limit: int)

  /** Requests while nobody writes. */
  function On<T>(at: T, limits: seq<int>): (asks: seq<Ask<T>>)
    ensures |asks| == |limits| && forall i | 0 <= i < |limits| :: asks[i] == Ask(at, limits[i])
  {
    seq(|limits|, i requires 0 <= i < |limits| => Ask(at, limits[i]))
  }

  /** Follow the cursor through the visits until a page says there is nothing more. */
  function Walk<K(!new, ==)>(less: (K, K) -> bool, visits: seq<Visit<K>>, after: Option<K>): Trail<K>
    requires StrictTotal(less) && forall v | v in visits :: v.limit >= 1
    decreases |visits|
  {
    if visits == [] then Trail([], false)
    else
      var p := PageOf(less, visits[0].live, after, visits[0].limit);
      if !p.more then Trail(p.items, true)
      else
        var rest := Walk(less, visits[1..], Some(p.items[|p.items| - 1]));
        Trail(p.items + rest.out, rest.done)
  }

  lemma PageSound<K(!new)>(less: (K, K) -> bool, s: set<K>, after: Option<K>, limit: nat)
    requires StrictTotal(less) && limit >= 1
    ensures var page := PageOf(less, s, after, limit);
      && Ascending(less, page.items)
      && (forall k | k in page.items :: k in s && (after.Some? ==> less(after.value, k)))
      && (page.more ==> page.items != [])
  {
    var rows := Sort(less, Beyond(less, s, after));
    forall k | k in PageOf(less, s, after, limit).items ensures k in Beyond(less, s, after) {
      assert k in rows;
    }
  }

  lemma JoinAscending<K(!new)>(less: (K, K) -> bool, a: seq<K>, b: seq<K>)
    requires StrictTotal(less) && Ascending(less, a) && Ascending(less, b)
    requires a != [] && forall k | k in b :: less(a[|a| - 1], k)
    ensures Ascending(less, a + b)
  {
    var last := a[|a| - 1];
    forall i, j | 0 <= i < j < |a + b| ensures less((a + b)[i], (a + b)[j]) {
      if i < |a| <= j {
        assert a[i] == last || less(a[i], last);
        assert b[j - |a|] in b;
      }
    }
  }

  /** Nothing comes twice, nothing comes out of order, and nothing comes that was not there. */
  lemma {:induction false} WalkSound<K(!new)>(less: (K, K) -> bool, visits: seq<Visit<K>>, after: Option<K>)
    requires StrictTotal(less) && forall v | v in visits :: v.limit >= 1
    ensures Ascending(less, Walk(less, visits, after).out)
    ensures forall k | k in Walk(less, visits, after).out ::
              (after.Some? ==> less(after.value, k)) && exists v :: v in visits && k in v.live
    decreases |visits|
  {
    hide PageOf;
    if visits != [] {
      assert visits[0] in visits;
      PageSound(less, visits[0].live, after, visits[0].limit);
      var p := PageOf(less, visits[0].live, after, visits[0].limit);
      if p.more {
        var last := p.items[|p.items| - 1];
        assert last in p.items;
        WalkSound(less, visits[1..], Some(last));
        JoinAscending(less, p.items, Walk(less, visits[1..], Some(last)).out);
      }
    }
  }

  /** A key present at every visit of a finished walk is returned. */
  lemma {:induction false} WalkComplete<K(!new)>(less: (K, K) -> bool, visits: seq<Visit<K>>, after: Option<K>, k: K)
    requires StrictTotal(less) && forall v | v in visits :: v.limit >= 1
    requires Walk(less, visits, after).done
    requires forall v | v in visits :: k in v.live
    requires after.Some? ==> less(after.value, k)
    ensures k in Walk(less, visits, after).out
    decreases |visits|
  {
    var rows := Sort(less, Beyond(less, visits[0].live, after));
    assert visits[0] in visits;
    assert k in rows;
    var i :| 0 <= i < |rows| && rows[i] == k;
    var p := PageOf(less, visits[0].live, after, visits[0].limit);
    if i < |p.items| {
      assert p.items[i] == k;
    } else {
      WalkComplete(less, visits[1..], Some(p.items[|p.items| - 1]), k);
    }
  }

  /** With no writer in between, the pages concatenate to the whole ordered selection. */
  lemma WalkFixed<K(!new)>(less: (K, K) -> bool, visits: seq<Visit<K>>, after: Option<K>, s: set<K>)
    requires StrictTotal(less) && forall v | v in visits :: v.limit >= 1 && v.live == s
    requires Walk(less, visits, after).done
    ensures Walk(less, visits, after).out == Sort(less, Beyond(less, s, after))
  {
    var out, all := Walk(less, visits, after).out, Sort(less, Beyond(less, s, after));
    WalkSound(less, visits, after);
    forall k ensures k in out <==> k in all {
      if k in all {
        WalkComplete(less, visits, after, k);
      }
    }
    AscendingUnique(less, out, all);
  }

  /** One page per remaining row is always enough to finish. */
  lemma {:induction false} WalkFinishes<K(!new)>(less: (K, K) -> bool, visits: seq<Visit<K>>, after: Option<K>,
                                          s: set<K>)
    requires StrictTotal(less) && forall v | v in visits :: v.limit >= 1 && v.live == s
    requires visits != [] && |visits| >= |Beyond(less, s, after)|
    ensures Walk(less, visits, after).done
    decreases |visits|
  {
    var p := PageOf(less, s, after, visits[0].limit);
    assert visits[0] in visits;
    if p.more {
      var last := p.items[|p.items| - 1];
      assert last in Sort(less, Beyond(less, s, after));
      assert Beyond(less, s, Some(last)) <= Beyond(less, s, after) - {last};
      SubsetSize(Beyond(less, s, Some(last)), Beyond(less, s, after) - {last});
      WalkFinishes(less, visits[1..], Some(last), s);
    }
  }

  lemma {:induction false} SubsetSize<T>(a: set<T>, b: set<T>)
    requires a <= b
    ensures |a| <= |b|
  {
    if a != {} {
      var x :| x in a;
      SubsetSize(a - {x}, b - {x});
    }
  }
}
