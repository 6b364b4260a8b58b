/**
 * Frequency tables over names: one row per distinct name with the number of
 * times it occurs, most frequent first, as `value_counts` orders them. This
 * model's sort is stable, so here rows with equal counts keep the order in
 * which their names first occur; the tie order of `value_counts` itself is
 * not claimed.
 */
module Frequency {
  import opened Wrappers

  /** One row of a frequency table. */
  datatype Count = Count(name: string, count: nat)

  function Names(t: seq<Count>): set<string>
  {
    if t == [] then {} else {t[0].name} + Names(t[1..])
  }

  /** No name has two rows. */
  predicate NamesDistinct(t: seq<Count>)
  {
    forall a, b :: 0 <= a < b < |t| ==> t[a].name != t[b].name
  }

  /** The count of the first row named x, 0 when there is none. */
  function CountOf(t: seq<Count>, x: string): nat
  {
    if t == [] then 0 else if t[0].name == x then t[0].count else CountOf(t[1..], x)
  }

  function Sum(t: seq<Count>): nat
  {
    if t == [] then 0 else t[0].count + Sum(t[1..])
  }

  predicate Positive(t: seq<Count>)
  {
    forall c :: c in t ==> c.count > 0
  }

  predicate NonIncreasing(t: seq<Count>)
  {
    forall a, b :: 0 <= a < b < |t| ==> t[a].count >= t[b].count
  }

  /** Counts one more occurrence of x. */
  function Bump(t: seq<Count>, x: string): seq<Count>
  {
    if t == [] then [Count(x, 1)]
    else if t[0].name == x then [Count(x, t[0].count + 1)] + t[1..]
    else [t[0]] + Bump(t[1..], x)
  }

  /** The counts of the names of s, in order of first occurrence. */
  function Tally(s: seq<string>): seq<Count>
  {
    if s == [] then [] else Bump(Tally(s[..|s| - 1]), s[|s| - 1])
  }

  /** Puts c before the first row whose count is not larger than its own. */
  function Insert(c: Count, t: seq<Count>): seq<Count>
  {
    if t == [] || c.count >= t[0].count then [c] + t else [t[0]] + Insert(c, t[1..])
  }

  /** Stable sort by non-increasing count. */
  function SortByCount(t: seq<Count>): seq<Count>
  {
    if t == [] then [] else Insert(t[0], SortByCount(t[1..]))
  }

  /** The present values of s, in order. */
  function Present<T>(s: seq<Option<T>>): seq<T>
  {
    if s == [] then []
    else Present(s[..|s| - 1]) + (if s[|s| - 1].Some? then [s[|s| - 1].value] else [])
  }

  /** The positions of s that hold x. */
  ghost function IndicesOf<T>(s: seq<Option<T>>, x: T): set<nat>
  {
    set i: nat | i < |s| && s[i] == Some(x)
  }

  /** The positions of s that hold a value. */
  ghost function PresentIndices<T>(s: seq<Option<T>>): set<nat>
  {
    set i: nat | i < |s| && s[i].Some?
  }

  /** Appending one position adds it to the indices of x exactly when it holds x. */
  lemma IndicesOfSnoc<T>(s: seq<Option<T>>, x: T)
    requires s != []
    ensures |s| - 1 !in IndicesOf(s[..|s| - 1], x)
    ensures IndicesOf(s, x) ==
      IndicesOf(s[..|s| - 1], x) + (if s[|s| - 1] == Some(x) then {|s| - 1} else {})
  {
    var init := s[..|s| - 1];
    forall i | i in IndicesOf(s, x) && i < |s| - 1 ensures i in IndicesOf(init, x) {
      assert s[i] == init[i];
    }
  }

  lemma {:induction false} PresentCount<T>(s: seq<Option<T>>, x: T)
    ensures multiset(Present(s))[x] == |IndicesOf(s, x)|
  {
    if s != [] {
      var init, last := s[..|s| - 1], s[|s| - 1];
      PresentCount(init, x);
      IndicesOfSnoc(s, x);
      var tail := if last.Some? then [last.value] else [];
      assert Present(s) == Present(init) + tail;
      assert multiset(Present(s))[x] == multiset(Present(init))[x] + multiset(tail)[x];
      if last == Some(x) {
        assert |IndicesOf(s, x)| == |IndicesOf(init, x)| + 1;
      } else {
        assert multiset(tail)[x] == 0;
      }
    } else {
      assert IndicesOf(s, x) == {};
    }
  }

  lemma {:induction false} PresentLength<T>(s: seq<Option<T>>)
    ensures |Present(s)| == |PresentIndices(s)|
  {
    if s != [] {
      var init := s[..|s| - 1];
      PresentLength(init);
      assert PresentIndices(s) == PresentIndices(init) + (if s[|s| - 1].Some? then {|s| - 1} else {});
    } else {
      assert PresentIndices(s) == {};
    }
  }

  /** The frequency table of s. */
  function ValueCounts(s: seq<string>): seq<Count>
  {
    SortByCount(Tally(s))
  }

  lemma {:induction false} NamesMembership(t: seq<Count>)
    ensures forall k :: 0 <= k < |t| ==> t[k].name in Names(t)
    ensures forall x :: x in Names(t) ==> exists k :: 0 <= k < |t| && t[k].name == x
  {
    if t != [] {
      NamesMembership(t[1..]);
      forall k | 0 <= k < |t| ensures t[k].name in Names(t) {
        if k > 0 { assert t[k] == t[1..][k - 1]; }
      }
      forall x | x in Names(t) ensures exists k :: 0 <= k < |t| && t[k].name == x {
        if x != t[0].name {
          var k :| 0 <= k < |t[1..]| && t[1..][k].name == x;
          assert t[k + 1].name == x;
        }
      }
    }
  }

  /** A table has no repeated name exactly when its head's name is new and its tail has none. */
  lemma DistinctCons(t: seq<Count>)
    requires t != []
    ensures NamesDistinct(t) <==> t[0].name !in Names(t[1..]) && NamesDistinct(t[1..])
  {
    NamesMembership(t[1..]);
    if NamesDistinct(t) {
      forall a, b | 0 <= a < b < |t[1..]| ensures t[1..][a].name != t[1..][b].name {
        assert t[1..][a] == t[a + 1] && t[1..][b] == t[b + 1];
      }
      forall k | 0 <= k < |t[1..]| ensures t[1..][k].name != t[0].name {
        assert t[1..][k] == t[k + 1];
      }
    }
    if t[0].name !in Names(t[1..]) && NamesDistinct(t[1..]) {
      forall a, b | 0 <= a < b < |t| ensures t[a].name != t[b].name {
        assert t[b] == t[1..][b - 1];
        if a > 0 { assert t[a] == t[1..][a - 1]; }
      }
    }
  }

  /** In a table without repeated names, every row holds its name's count. */
  lemma {:induction false} CountOfRow(t: seq<Count>, c: Count)
    requires NamesDistinct(t) && c in t
    ensures CountOf(t, c.name) == c.count
  {
    if t[0] != c {
      assert c in t[1..];
      NamesMembership(t[1..]);
      DistinctCons(t);
      CountOfRow(t[1..], c);
    }
  }

  lemma {:induction false} BumpFacts(t: seq<Count>, x: string)
    ensures forall y :: CountOf(Bump(t, x), y) == CountOf(t, y) + (if y == x then 1 else 0)
    ensures Names(Bump(t, x)) == Names(t) + {x}
    ensures NamesDistinct(t) ==> NamesDistinct(Bump(t, x))
    ensures Positive(t) ==> Positive(Bump(t, x))
    ensures Sum(Bump(t, x)) == Sum(t) + 1
  {
    if t != [] && t[0].name != x {
      BumpFacts(t[1..], x);
      assert Bump(t, x)[1..] == Bump(t[1..], x);
      DistinctCons(t);
      DistinctCons(Bump(t, x));
    }
    if t != [] && t[0].name == x {
      assert Bump(t, x)[1..] == t[1..];
      DistinctCons(t);
      DistinctCons(Bump(t, x));
    }
  }

  lemma {:induction false} TallyCounts(s: seq<string>)
    ensures forall y :: CountOf(Tally(s), y) == multiset(s)[y]
  {
    if s != [] {
      var init, x := s[..|s| - 1], s[|s| - 1];
      assert s == init + [x];
      TallyCounts(init);
      BumpFacts(Tally(init), x);
      assert multiset(s) == multiset(init) + multiset{x};
    }
  }

  lemma {:induction false} TallyShape(s: seq<string>)
    ensures forall y :: y in Names(Tally(s)) <==> y in s
    ensures NamesDistinct(Tally(s)) && Positive(Tally(s))
    ensures Sum(Tally(s)) == |s|
  {
    if s != [] {
      var init, x := s[..|s| - 1], s[|s| - 1];
      assert s == init + [x];
      TallyShape(init);
      BumpFacts(Tally(init), x);
      forall y ensures y in s <==> y in init || y == x {
        assert y in s <==> y in multiset(s);
        assert multiset(s) == multiset(init) + multiset{x};
      }
    }
  }

  lemma {:induction false} InsertFacts(c: Count, t: seq<Count>)
    ensures forall d :: d in Insert(c, t) <==> d == c || d in t
    ensures Names(Insert(c, t)) == Names(t) + {c.name}
    ensures NamesDistinct(t) && c.name !in Names(t) ==> NamesDistinct(Insert(c, t))
    ensures Sum(Insert(c, t)) == Sum(t) + c.count
  {
    if t != [] && c.count < t[0].count {
      InsertFacts(c, t[1..]);
      assert Insert(c, t)[1..] == Insert(c, t[1..]);
      forall d ensures d in t <==> d == t[0] || d in t[1..] {
        assert t == [t[0]] + t[1..];
      }
      DistinctCons(t);
      DistinctCons(Insert(c, t));
    } else {
      assert Insert(c, t)[1..] == t;
      DistinctCons(Insert(c, t));
    }
  }

  /** The tail of a non-increasing table is non-increasing and bounded by its head. */
  lemma NonIncreasingTail(t: seq<Count>)
    requires t != [] && NonIncreasing(t)
    ensures NonIncreasing(t[1..])
    ensures forall d :: d in t[1..] ==> d.count <= t[0].count
  {
    forall a, b | 0 <= a < b < |t[1..]| ensures t[1..][a].count >= t[1..][b].count {
      assert t[1..][a] == t[a + 1] && t[1..][b] == t[b + 1];
    }
    forall d | d in t[1..] ensures d.count <= t[0].count {
      var k :| 0 <= k < |t[1..]| && t[1..][k] == d;
      assert t[k + 1] == d;
    }
  }

  /** A head no smaller than every row keeps a non-increasing table non-increasing. */
  lemma NonIncreasingCons(h: Count, r: seq<Count>)
    requires NonIncreasing(r)
    requires forall d :: d in r ==> d.count <= h.count
    ensures NonIncreasing([h] + r)
  {
    forall a, b | 0 <= a < b < |[h] + r| ensures ([h] + r)[a].count >= ([h] + r)[b].count {
      assert ([h] + r)[b] == r[b - 1] && r[b - 1] in r;
      if a > 0 { assert ([h] + r)[a] == r[a - 1]; }
    }
  }

  lemma {:induction false} InsertKeepsOrder(c: Count, t: seq<Count>)
    requires NonIncreasing(t)
    ensures NonIncreasing(Insert(c, t))
  {
    if t != [] && c.count < t[0].count {
      NonIncreasingTail(t);
      InsertKeepsOrder(c, t[1..]);
      InsertFacts(c, t[1..]);
      NonIncreasingCons(t[0], Insert(c, t[1..]));
    }
  }

  lemma {:induction false} SortFacts(t: seq<Count>)
    ensures forall d :: d in SortByCount(t) <==> d in t
    ensures Names(SortByCount(t)) == Names(t)
    ensures NamesDistinct(t) ==> NamesDistinct(SortByCount(t))
    ensures NonIncreasing(SortByCount(t))
    ensures Sum(SortByCount(t)) == Sum(t)
  {
    if t != [] {
      SortFacts(t[1..]);
      DistinctCons(t);
      InsertFacts(t[0], SortByCount(t[1..]));
      InsertKeepsOrder(t[0], SortByCount(t[1..]));
      forall d ensures d in t <==> d == t[0] || d in t[1..] {
        assert t == [t[0]] + t[1..];
      }
    }
  }

  /**
   * The frequency table of s lists every name of s once, with its number of
   * occurrences, most frequent first; the counts add up to the length of s.
   */
  lemma ValueCountsFacts(s: seq<string>)
    ensures forall a, b :: 0 <= a < b < |ValueCounts(s)| ==>
      ValueCounts(s)[a].name != ValueCounts(s)[b].name
    ensures forall a, b :: 0 <= a < b < |ValueCounts(s)| ==>
      ValueCounts(s)[a].count >= ValueCounts(s)[b].count
    ensures forall k :: 0 <= k < |ValueCounts(s)| ==>
      ValueCounts(s)[k].count == multiset(s)[ValueCounts(s)[k].name] > 0
    ensures forall x :: x in s ==> exists k :: 0 <= k < |ValueCounts(s)| && ValueCounts(s)[k].name == x
    ensures Sum(ValueCounts(s)) == |s|
  {
    var tally := Tally(s);
    var t := ValueCounts(s);
    TallyCounts(s);
    TallyShape(s);
    SortFacts(tally);
    NamesMembership(t);
    forall k | 0 <= k < |t| ensures t[k].count == multiset(s)[t[k].name] > 0 {
      assert t[k] in t;
      CountOfRow(tally, t[k]);
    }
    forall x | x in s ensures exists k :: 0 <= k < |t| && t[k].name == x {
      assert x in Names(t);
    }
  }
}
