/** Career recommendations and their ordering. The ranking step sorts
    (career, score) pairs by score, highest first, with Python's stable `list.sort`:
    pairs with equal scores keep the order they had before the sort. */
module Ranking {

  /** A career of the catalog: its name and the skills it requires. */
  datatype Career = Career(name: string, requiredSkills: seq<string>)

  /** One entry of the ranking: a career and its similarity score. */
  datatype Recommendation = Recommendation(career: Career, score: real)

  /** Scores never increase along the sequence. */
  predicate Descending(s: seq<Recommendation>)
  {
    forall i, j :: 0 <= i < j < |s| ==> s[i].score >= s[j].score
  }

  /** The entries of `s` whose score is `v`, in their order in `s`. */
  function WithScore(s: seq<Recommendation>, v: real): seq<Recommendation>
  {
    if s == [] then []
    else (if s[0].score == v then [s[0]] else []) + WithScore(s[1..], v)
  }

  /** Inserts `x` into a descending sequence just before the first entry whose
      score is not above `x`'s: `x` goes before entries it ties with that were
      originally after it. */
  function Insert(x: Recommendation, t: seq<Recommendation>): (r: seq<Recommendation>)
    ensures |r| == |t| + 1
    ensures multiset(r) == multiset(t) + multiset{x}
  {
    if t == [] || t[0].score <= x.score then [x] + t
    else
      assert t == [t[0]] + t[1..];
      [t[0]] + Insert(x, t[1..])
  }

  /** `recommendations.sort(key=score, reverse=True)`: a stable sort, highest score first. */
  function SortByScore(s: seq<Recommendation>): (r: seq<Recommendation>)
    ensures |r| == |s|
    ensures multiset(r) == multiset(s)
  {
    if s == [] then []
    else
      assert s == [s[0]] + s[1..];
      Insert(s[0], SortByScore(s[1..]))
  }

  // ---------------------------------------------------------------------------
  // Filtering by score

  lemma {:induction false} WithScoreAppend(a: seq<Recommendation>, b: seq<Recommendation>, v: real)
    ensures WithScore(a + b, v) == WithScore(a, v) + WithScore(b, v)
  {
    if a != [] {
      var head := if a[0].score == v then [a[0]] else [];
      assert (a + b)[0] == a[0];
      assert (a + b)[1..] == a[1..] + b;
      calc {
        WithScore(a + b, v);
        head + WithScore(a[1..] + b, v);
        { WithScoreAppend(a[1..], b, v); }
        head + (WithScore(a[1..], v) + WithScore(b, v));
        (head + WithScore(a[1..], v)) + WithScore(b, v);
        WithScore(a, v) + WithScore(b, v);
      }
    } else {
      assert a + b == b;
    }
  }

  /** The filter keeps exactly the entries with score `v`. */
  lemma {:induction false} WithScoreMembers(s: seq<Recommendation>, v: real)
    ensures forall x :: x in WithScore(s, v) <==> x in s && x.score == v
  {
    if s != [] {
      WithScoreMembers(s[1..], v);
      assert s == [s[0]] + s[1..];
    }
  }

  // ---------------------------------------------------------------------------
  // The sort is descending and stable

  /** Inserting into a descending sequence keeps it descending; the new first entry
      is `x` or the old first entry. */
  lemma {:induction false} InsertDescending(x: Recommendation, t: seq<Recommendation>)
    requires Descending(t)
    ensures Descending(Insert(x, t))
    ensures Insert(x, t)[0] == x || (t != [] && Insert(x, t)[0] == t[0])
  {
    if t != [] && t[0].score > x.score {
      var r := Insert(x, t[1..]);
      InsertDescending(x, t[1..]);
      assert t[0].score >= r[0].score;
      var full := [t[0]] + r;
      forall i, j | 0 <= i < j < |full|
        ensures full[i].score >= full[j].score
      {
        if i == 0 {
          assert full[j] == r[j - 1];
          assert j - 1 == 0 || r[0].score >= r[j - 1].score;
        } else {
          assert full[i] == r[i - 1] && full[j] == r[j - 1];
        }
      }
      assert Insert(x, t) == full;
    }
  }

  /** Insertion keeps, for every score, the relative order of the tied entries,
      `x` first among them. */
  lemma {:induction false} InsertWithScore(x: Recommendation, t: seq<Recommendation>, v: real)
    requires Descending(t)
    ensures WithScore(Insert(x, t), v) == WithScore([x] + t, v)
  {
    if t != [] && t[0].score > x.score {
      InsertWithScore(x, t[1..], v);
      calc {
        WithScore(Insert(x, t), v);
        { WithScoreAppend([t[0]], Insert(x, t[1..]), v); }
        WithScore([t[0]], v) + WithScore(Insert(x, t[1..]), v);
        WithScore([t[0]], v) + WithScore([x] + t[1..], v);
        { WithScoreAppend([x], t[1..], v); }
        WithScore([t[0]], v) + WithScore([x], v) + WithScore(t[1..], v);
        // at most one of t[0] and x has score v, since t[0] scores strictly higher
        WithScore([x], v) + WithScore([t[0]], v) + WithScore(t[1..], v);
        { WithScoreAppend([t[0]], t[1..], v); assert [t[0]] + t[1..] == t; }
        WithScore([x], v) + WithScore(t, v);
        { WithScoreAppend([x], t, v); }
        WithScore([x] + t, v);
      }
    }
  }

  /** The sorted sequence has non-increasing scores. */
  lemma {:induction false} SortByScoreDescending(s: seq<Recommendation>)
    ensures Descending(SortByScore(s))
  {
    if s != [] {
      SortByScoreDescending(s[1..]);
      InsertDescending(s[0], SortByScore(s[1..]));
    }
  }

  /** Stability: for every score, the entries with that score appear in the sorted
      sequence in the order they had in the input. */
  lemma {:induction false} SortByScoreStable(s: seq<Recommendation>, v: real)
    ensures WithScore(SortByScore(s), v) == WithScore(s, v)
  {
    if s != [] {
      var sortedTail := SortByScore(s[1..]);
      calc {
        WithScore(SortByScore(s), v);
        WithScore(Insert(s[0], sortedTail), v);
        { SortByScoreDescending(s[1..]); InsertWithScore(s[0], sortedTail, v); }
        WithScore([s[0]] + sortedTail, v);
        { WithScoreAppend([s[0]], sortedTail, v); }
        WithScore([s[0]], v) + WithScore(sortedTail, v);
        { SortByScoreStable(s[1..], v); }
        WithScore([s[0]], v) + WithScore(s[1..], v);
        { WithScoreAppend([s[0]], s[1..], v); }
        WithScore([s[0]] + s[1..], v);
        { assert [s[0]] + s[1..] == s; }
        WithScore(s, v);
      }
    }
  }

  /** In a descending sequence, every score that occurs is at most the first entry's. */
  lemma ScoreAtMostFirst(s: seq<Recommendation>, v: real)
    requires Descending(s) && WithScore(s, v) != []
    ensures s != [] && v <= s[0].score
  {
    WithScoreMembers(s, v);
    var y := WithScore(s, v)[0];
    assert y in WithScore(s, v);
    var j :| 0 <= j < |s| && s[j] == y;
  }

  /** A descending sequence that keeps the order of tied entries is unique: any two
      such orderings of the same entries are equal. So the ranking does not depend on
      the sorting algorithm, only on the sort being stable, and it is deterministic. */
  lemma {:induction false} StableOrderUnique(a: seq<Recommendation>, b: seq<Recommendation>)
    requires Descending(a) && Descending(b)
    requires forall v :: WithScore(a, v) == WithScore(b, v)
    ensures a == b
    decreases |a|
  {
    if a != [] {
      var m := a[0].score;
      assert WithScore(a, m) != [];
      ScoreAtMostFirst(b, m);
      var n := b[0].score;
      assert WithScore(b, n) != [];
      ScoreAtMostFirst(a, n);
      assert a[0] == WithScore(a, m)[0] == WithScore(b, m)[0] == b[0];
      forall v
        ensures WithScore(a[1..], v) == WithScore(b[1..], v)
      {
        var head := if v == m then [a[0]] else [];
        assert WithScore(a, v) == head + WithScore(a[1..], v);
        assert WithScore(b, v) == head + WithScore(b[1..], v);
        assert (head + WithScore(a[1..], v))[|head|..] == WithScore(a[1..], v);
        assert (head + WithScore(b[1..], v))[|head|..] == WithScore(b[1..], v);
      }
      StableOrderUnique(a[1..], b[1..]);
      assert a == [a[0]] + a[1..] && b == [b[0]] + b[1..];
    }
  }

  /** The sorted sequence is the only descending, order-of-ties-preserving arrangement of its input. */
  lemma SortByScoreCharacterized(s: seq<Recommendation>, r: seq<Recommendation>)
    requires Descending(r) && forall v :: WithScore(r, v) == WithScore(s, v)
    ensures r == SortByScore(s)
  {
    SortByScoreDescending(s);
    forall v
      ensures WithScore(r, v) == WithScore(SortByScore(s), v)
    {
      SortByScoreStable(s, v);
    }
    StableOrderUnique(r, SortByScore(s));
  }
}
