/** A stable sort on descending scores, as Python's `list.sort(key=..., reverse=True)`
    performs it, over entries that pair a score with any item. */
module Sorting {

  /** An item together with the score it is ranked by. */
  datatype Scored<T> = Scored(score: real, item: T)

  function ItemsOf<T>(s: seq<Scored<T>>): (r: seq<T>)
    ensures |r| == |s|
    ensures forall j | 0 <= j < |s| :: r[j] == s[j].item
  {
    seq(|s|, j requires 0 <= j < |s| => s[j].item)
  }

  lemma ItemsOfAppend<T>(a: seq<Scored<T>>, b: seq<Scored<T>>)
    ensures ItemsOf(a + b) == ItemsOf(a) + ItemsOf(b)
  {
  }

  /** Scores never increase along the sequence. */
  predicate SortedDescending<T>(s: seq<Scored<T>>) {
    forall i, j | 0 <= i < j < |s| :: s[i].score >= s[j].score
  }

  /** Puts `x` before the first entry whose score is not above its own. */
  function Insert<T>(x: Scored<T>, s: seq<Scored<T>>): seq<Scored<T>> {
    if s == [] || x.score >= s[0].score then [x] + s
    else [s[0]] + Insert(x, s[1..])
  }

  /** Inserting adds `x` and nothing else. */
  lemma {:induction false} InsertAddsOne<T>(x: Scored<T>, s: seq<Scored<T>>)
    ensures multiset(Insert(x, s)) == multiset(s) + multiset{x}
  {
    if s != [] && x.score < s[0].score {
      InsertAddsOne(x, s[1..]);
      assert s == [s[0]] + s[1..];
    }
  }

  /** Inserting into a sorted sequence keeps it sorted. */
  lemma {:induction false} InsertKeepsSorted<T>(x: Scored<T>, s: seq<Scored<T>>)
    requires SortedDescending(s)
    ensures SortedDescending(Insert(x, s))
  {
    if s == [] || x.score >= s[0].score {
      assert forall j | 0 <= j < |s| :: x.score >= s[j].score by {
        forall j | 0 <= j < |s| ensures x.score >= s[j].score {
          if j > 0 {
            assert s[0].score >= s[j].score;
          }
        }
      }
      SortedCons(x, s);
    } else {
      SortedTail(s);
      InsertKeepsSorted(x, s[1..]);
      InsertAddsOne(x, s[1..]);
      InsertBelowHead(x, s, Insert(x, s[1..]));
    }
  }

  lemma SortedTail<T>(s: seq<Scored<T>>)
    requires s != [] && SortedDescending(s)
    ensures SortedDescending(s[1..])
  {
    forall i, j | 0 <= i < j < |s[1..]| ensures s[1..][i].score >= s[1..][j].score {
      assert s[1..][i] == s[i + 1] && s[1..][j] == s[j + 1];
    }
  }

  lemma InsertBelowHead<T>(x: Scored<T>, s: seq<Scored<T>>, rest: seq<Scored<T>>)
    requires SortedDescending(s) && s != [] && x.score <= s[0].score
    requires multiset(rest) == multiset(s[1..]) + multiset{x}
    requires SortedDescending(rest)
    ensures SortedDescending([s[0]] + rest)
  {
    assert forall j | 0 <= j < |rest| :: s[0].score >= rest[j].score by {
      forall j | 0 <= j < |rest| ensures s[0].score >= rest[j].score {
        assert rest[j] in multiset(s[1..]) + multiset{x};
        if rest[j] != x {
          var k :| 0 <= k < |s[1..]| && s[1..][k] == rest[j];
          assert s[k + 1] == rest[j];
        }
      }
    }
    SortedCons(s[0], rest);
  }

  lemma SortedCons<T>(h: Scored<T>, t: seq<Scored<T>>)
    requires SortedDescending(t)
    requires forall j | 0 <= j < |t| :: h.score >= t[j].score
    ensures SortedDescending([h] + t)
  {
    var r := [h] + t;
    forall i, j | 0 <= i < j < |r| ensures r[i].score >= r[j].score {
      assert r[j] == t[j - 1];
      if i > 0 {
        assert r[i] == t[i - 1];
      }
    }
  }

  /** The sort: working from the back of the list, put each entry before the
      entries already placed whose score is not above its own. Entries of equal
      score therefore stay in input order, as in Python's stable
      `sort(reverse=True)`. */
  function SortDescending<T>(s: seq<Scored<T>>): (r: seq<Scored<T>>)
    ensures SortedDescending(r)
    ensures multiset(r) == multiset(s)
  {
    if s == [] then []
    else
      var rest := SortDescending(s[1..]);
      InsertAddsOne(s[0], rest);
      InsertKeepsSorted(s[0], rest);
      assert s == [s[0]] + s[1..];
      Insert(s[0], rest)
  }

  /** Equal multisets of entries give equal multisets of items. */
  lemma {:induction false} ItemsOfPermutation<T>(a: seq<Scored<T>>, b: seq<Scored<T>>)
    requires multiset(a) == multiset(b)
    ensures multiset(ItemsOf(a)) == multiset(ItemsOf(b))
    decreases |a|
  {
    if a == [] {
      assert |b| == |multiset(b)| == 0;
    } else {
      var x := a[0];
      assert x in multiset(b);
      var k :| 0 <= k < |b| && b[k] == x;
      var b' := b[..k] + b[k + 1..];
      assert b == b[..k] + [x] + b[k + 1..];
      assert a == [x] + a[1..];
      assert multiset(b) == multiset(b[..k]) + multiset{x} + multiset(b[k + 1..]);
      assert multiset(b') == multiset(b[..k]) + multiset(b[k + 1..]);
      assert multiset(a) == multiset{x} + multiset(a[1..]);
      assert multiset(a[1..]) == multiset(a) - multiset{x};
      assert multiset(b') == multiset(b) - multiset{x};
      ItemsOfPermutation(a[1..], b');
      ItemsOfAppend([x], a[1..]);
      ItemsOfAppend(b[..k] + [x], b[k + 1..]);
      ItemsOfAppend(b[..k], [x]);
      ItemsOfAppend(b[..k], b[k + 1..]);
    }
  }

  // ---------------------------------------------------------------------------
  // Stability
  // ---------------------------------------------------------------------------

  /** The entries scoring exactly `v`, in order. */
  function WithScore<T>(s: seq<Scored<T>>, v: real): (r: seq<Scored<T>>)
  {
    if s == [] then []
    else (if s[0].score == v then [s[0]] else []) + WithScore(s[1..], v)
  }

  lemma {:induction false} WithScoreAppend<T>(a: seq<Scored<T>>, b: seq<Scored<T>>, v: real)
    ensures WithScore(a + b, v) == WithScore(a, v) + WithScore(b, v)
    decreases |a|
  {
    if a == [] {
      assert a + b == b;
    } else {
      var ab := a + b;
      assert ab[0] == a[0] && ab[1..] == a[1..] + b;
      WithScoreAppend(a[1..], b, v);
      var head := if a[0].score == v then [a[0]] else [];
      assert WithScore(ab, v) == head + (WithScore(a[1..], v) + WithScore(b, v));
      assert WithScore(a, v) == head + WithScore(a[1..], v);
    }
  }

  /** Inserting `x` places it before the entries of its own score already there,
      which all come later in the input. */
  lemma {:induction false} InsertKeepsTiesInOrder<T>(x: Scored<T>, s: seq<Scored<T>>, v: real)
    ensures WithScore(Insert(x, s), v) == (if x.score == v then [x] else []) + WithScore(s, v)
    decreases |s|
  {
    if s == [] || x.score >= s[0].score {
      TiesAtFront(x, s, v);
    } else {
      InsertKeepsTiesInOrder(x, s[1..], v);
      TiesBehindHead(x, s, v);
    }
  }

  lemma TiesAtFront<T>(x: Scored<T>, s: seq<Scored<T>>, v: real)
    requires s == [] || x.score >= s[0].score
    ensures WithScore(Insert(x, s), v) == (if x.score == v then [x] else []) + WithScore(s, v)
  {
    var r := [x] + s;
    assert Insert(x, s) == r;
    assert r[0] == x && r[1..] == s;
  }

  lemma TiesBehindHead<T>(x: Scored<T>, s: seq<Scored<T>>, v: real)
    requires s != [] && x.score < s[0].score
    requires WithScore(Insert(x, s[1..]), v) == (if x.score == v then [x] else []) + WithScore(s[1..], v)
    ensures WithScore(Insert(x, s), v) == (if x.score == v then [x] else []) + WithScore(s, v)
  {
    var rest := Insert(x, s[1..]);
    var r := [s[0]] + rest;
    assert Insert(x, s) == r;
    assert r[0] == s[0] && r[1..] == rest;
    var mine := if x.score == v then [x] else [];
    var head := if s[0].score == v then [s[0]] else [];
    assert WithScore(r, v) == head + (mine + WithScore(s[1..], v));
    assert WithScore(s, v) == head + WithScore(s[1..], v);
    if head == [] {
      assert WithScore(r, v) == mine + WithScore(s[1..], v);
    } else {
      assert mine == [];
    }
  }

  /** The sort is stable: the entries of any one score keep their input order. */
  lemma {:induction false} SortIsStable<T>(s: seq<Scored<T>>, v: real)
    ensures WithScore(SortDescending(s), v) == WithScore(s, v)
    decreases |s|
  {
    if s != [] {
      SortIsStable(s[1..], v);
      InsertKeepsTiesInOrder(s[0], SortDescending(s[1..]), v);
    }
  }
}
