/** Keeping the entries that pass a test and pairing each with its score, as the
    loop of `score_recipes` does, over any kind of entry. */
module Selection {
  import opened Sorting

  /** The entries of `s` that satisfy `p`, in their order. */
  function Filter<T>(s: seq<T>, p: T -> bool): (r: seq<T>)
    ensures |r| <= |s|
    ensures forall j | 0 <= j < |r| :: p(r[j])
  {
    if s == [] then []
    else (if p(s[0]) then [s[0]] else []) + Filter(s[1..], p)
  }

  /** The filter keeps every passing entry as often as it occurs and drops the rest. */
  lemma {:induction false} FilterCounts<T>(s: seq<T>, p: T -> bool)
    ensures forall x :: multiset(Filter(s, p))[x] == if p(x) then multiset(s)[x] else 0
    ensures forall x :: x in Filter(s, p) <==> x in s && p(x)
  {
    if s != [] {
      FilterCounts(s[1..], p);
      assert s == [s[0]] + s[1..];
      forall x ensures x in Filter(s, p) <==> x in s && p(x) {
        assert x in Filter(s, p) <==> x in multiset(Filter(s, p));
        assert x in s <==> x in multiset(s);
      }
    }
  }

  /** When every entry passes, the filter changes nothing. */
  lemma {:induction false} FilterKeepsAll<T>(s: seq<T>, p: T -> bool)
    requires forall j | 0 <= j < |s| :: p(s[j])
    ensures Filter(s, p) == s
  {
    if s != [] {
      FilterKeepsAll(s[1..], p);
      assert s == [s[0]] + s[1..];
    }
  }

  /** Filtering keeps the order: the result is a subsequence of the input. */
  lemma {:induction false} FilterIsSubsequence<T>(s: seq<T>, p: T -> bool)
    ensures IsSubsequence(Filter(s, p), s)
  {
    if s != [] {
      FilterIsSubsequence(s[1..], p);
      var rest := Filter(s[1..], p);
      if p(s[0]) {
        assert ([s[0]] + rest)[0] == s[0];
        assert ([s[0]] + rest)[1..] == rest;
      } else {
        assert Filter(s, p) == rest;
        if rest != [] {
          assert rest[0] != s[0];
        }
      }
    }
  }

  /** `a` is `b` with some entries left out, the rest in their order. */
  predicate IsSubsequence<T(==)>(a: seq<T>, b: seq<T>)
    decreases |b|
  {
    a == [] || (b != [] && (if a[0] == b[0] then IsSubsequence(a[1..], b[1..]) else IsSubsequence(a, b[1..])))
  }

  /** Pairs every entry with its score under `f`, keeping the order. */
  function ScoreEach<T>(s: seq<T>, f: T -> real): (r: seq<Scored<T>>)
    ensures ItemsOf(r) == s
    ensures forall j | 0 <= j < |r| :: r[j].score == f(r[j].item)
  {
    seq(|s|, j requires 0 <= j < |s| => Scored(f(s[j]), s[j]))
  }

  /** The scored entries that tie at `v` are the filtered entries that both pass
      and score `v`, in input order. */
  lemma {:induction false} ScoreEachTies<T>(s: seq<T>, p: T -> bool, f: T -> real, v: real, tied: T -> bool)
    requires forall x :: tied(x) <==> p(x) && f(x) == v
    ensures ItemsOf(WithScore(ScoreEach(Filter(s, p), f), v)) == Filter(s, tied)
  {
    if s != [] {
      var head := if p(s[0]) then [s[0]] else [];
      var rest := Filter(s[1..], p);
      var sh, sr := ScoreEach(head, f), ScoreEach(rest, f);
      assert ScoreEach(Filter(s, p), f) == sh + sr by {
        ScoreEachAppend(head, rest, f);
      }
      assert ItemsOf(WithScore(sh + sr, v)) == ItemsOf(WithScore(sh, v)) + ItemsOf(WithScore(sr, v)) by {
        WithScoreAppend(sh, sr, v);
        ItemsOfAppend(WithScore(sh, v), WithScore(sr, v));
      }
      ScoreEachTies(s[1..], p, f, v, tied);
      TiesOfOne(s[0], p, f, v, tied);
    }
  }

  lemma ScoreEachAppend<T>(a: seq<T>, b: seq<T>, f: T -> real)
    ensures ScoreEach(a + b, f) == ScoreEach(a, f) + ScoreEach(b, f)
  {
  }

  lemma TiesOfOne<T>(x: T, p: T -> bool, f: T -> real, v: real, tied: T -> bool)
    requires forall y :: tied(y) <==> p(y) && f(y) == v
    ensures ItemsOf(WithScore(ScoreEach(if p(x) then [x] else [], f), v)) == if tied(x) then [x] else []
  {
    if p(x) {
      assert ScoreEach([x], f) == [Scored(f(x), x)];
    }
  }

  /** Sorting the scored selection keeps every passing entry, as often as it
      occurs, with its own score, and nothing else. */
  lemma RankedSelection<T>(s: seq<T>, p: T -> bool, f: T -> real)
    ensures var r := SortDescending(ScoreEach(Filter(s, p), f));
            && (forall j | 0 <= j < |r| :: p(r[j].item) && r[j].score == f(r[j].item))
            && (forall x :: multiset(ItemsOf(r))[x] == if p(x) then multiset(s)[x] else 0)
            && (forall x :: x in ItemsOf(r) <==> x in s && p(x))
  {
    var scored := ScoreEach(Filter(s, p), f);
    var r := SortDescending(scored);
    ItemsOfPermutation(r, scored);
    FilterCounts(s, p);
    forall j | 0 <= j < |r| ensures p(r[j].item) && r[j].score == f(r[j].item) {
      assert r[j] in multiset(scored);
    }
    forall x ensures x in ItemsOf(r) <==> x in s && p(x) {
      assert x in ItemsOf(r) <==> x in multiset(ItemsOf(r));
    }
  }
}
