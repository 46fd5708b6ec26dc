/** The ranking of the present class ids by pixel count (`sorted_label_indices`).
    The input is the ascending distinct ids, and Python's sort is stable even
    in reverse, so ids with equal counts keep their ascending order: the
    result is ordered by count, largest first, then by class id. */
module Ranking {
  import opened UniqueValues

  /** `a` comes before `b` in the ranking: more pixels, or as many and a
      smaller class id. */
  predicate RankedBefore(a: nat, b: nat, countOf: map<nat, nat>) {
    && a in countOf
    && b in countOf
    && (countOf[a] > countOf[b] || (countOf[a] == countOf[b] && a < b))
  }

  /** No id occurs twice. */
  predicate NoDuplicates(s: seq<nat>) {
    forall i, j :: 0 <= i < j < |s| ==> s[i] != s[j]
  }

  predicate Ranked(r: seq<nat>, countOf: map<nat, nat>) {
    forall i, j :: 0 <= i < j < |r| ==> RankedBefore(r[i], r[j], countOf)
  }

  /** One step of the stable sort: `x`, smaller than every id already placed,
      goes in front of the first id whose count does not exceed its own. */
  function InsertByCount(x: nat, t: seq<nat>, countOf: map<nat, nat>): (r: seq<nat>)
    requires x in countOf
    requires forall v :: v in t ==> v in countOf
    requires forall v :: v in t ==> x < v
    requires Ranked(t, countOf)
    ensures forall v :: v in r <==> v == x || v in t
    ensures Ranked(r, countOf)
  {
    if t == [] then [x]
    else if countOf[x] >= countOf[t[0]] then
      assert forall j :: 0 <= j < |t| ==> RankedBefore(x, t[j], countOf) by {
        forall j | 0 <= j < |t| ensures RankedBefore(x, t[j], countOf) {
          assert t[j] in t;
          if j > 0 {
            assert RankedBefore(t[0], t[j], countOf);
          }
        }
      }
      [x] + t
    else
      assert forall v :: v in t[1..] ==> v in t;
      var rest := InsertByCount(x, t[1..], countOf);
      assert forall j :: 0 <= j < |rest| ==> RankedBefore(t[0], rest[j], countOf) by {
        forall j | 0 <= j < |rest| ensures RankedBefore(t[0], rest[j], countOf) {
          assert rest[j] in rest;
          if rest[j] != x {
            var k :| 0 <= k < |t[1..]| && t[1..][k] == rest[j];
            assert RankedBefore(t[0], t[k + 1], countOf);
          }
        }
      }
      [t[0]] + rest
  }

  /** Stable sort of ascending distinct ids by count, largest first. */
  function RankByCount(u: seq<nat>, countOf: map<nat, nat>): (r: seq<nat>)
    requires StrictlyIncreasing(u)
    requires forall v :: v in u ==> v in countOf
    ensures forall v :: v in r <==> v in u
    ensures Ranked(r, countOf)
  {
    if u == [] then []
    else
      var rest := RankByCount(u[1..], countOf);
      assert forall v :: v in rest ==> u[0] < v by {
        forall v | v in rest ensures u[0] < v {
          var k :| 0 <= k < |u[1..]| && u[1..][k] == v;
          assert u[k + 1] == v;
        }
      }
      InsertByCount(u[0], rest, countOf)
  }

  /** Ranking is a strict order, so a ranked sequence never repeats an id. */
  lemma RankedIsDistinct(r: seq<nat>, countOf: map<nat, nat>)
    requires Ranked(r, countOf)
    ensures NoDuplicates(r)
  {
  }

  /** At most one ordering of a set of ids is ranked: whatever stable sort
      produced it, the ranking is determined by the counts alone. */
  lemma {:induction false} RankedUnique(a: seq<nat>, b: seq<nat>, countOf: map<nat, nat>)
    requires Ranked(a, countOf)
    requires Ranked(b, countOf)
    requires forall v :: v in a <==> v in b
    ensures a == b
  {
    if b != [] {
      assert b[0] in b;
    }
    if a != [] {
      assert a[0] in a;
      assert b != [];
      var m :| 0 <= m < |b| && b[m] == a[0];
      var k :| 0 <= k < |a| && a[k] == b[0];
      if m != 0 {
        assert false;
      }
      forall v
        ensures v in a[1..] <==> v in b[1..]
      {
        if v in a[1..] {
          var i :| 0 <= i < |a[1..]| && a[1..][i] == v;
          assert RankedBefore(a[0], a[i + 1], countOf);
          assert v in b;
        }
        if v in b[1..] {
          var i :| 0 <= i < |b[1..]| && b[1..][i] == v;
          assert RankedBefore(b[0], b[i + 1], countOf);
          assert v in a;
        }
      }
      RankedUnique(a[1..], b[1..], countOf);
      assert a == [a[0]] + a[1..];
      assert b == [b[0]] + b[1..];
    }
  }

  /** Two repetition-free sequences with the same elements have the same
      length. */
  lemma DistinctSameElementsSameLength(a: seq<nat>, b: seq<nat>)
    requires NoDuplicates(a)
    requires NoDuplicates(b)
    requires forall v :: v in a <==> v in b
    ensures |a| == |b|
  {
    DistinctSubsetNoLonger(a, b);
    DistinctSubsetNoLonger(b, a);
  }

  /** A repetition-free sequence is no longer than any sequence holding all
      its elements. */
  lemma {:induction false} DistinctSubsetNoLonger(a: seq<nat>, b: seq<nat>)
    requires NoDuplicates(a)
    requires forall v :: v in a ==> v in b
    ensures |a| <= |b|
    decreases |a|
  {
    if a != [] {
      assert a[0] in a;
      var k :| 0 <= k < |b| && b[k] == a[0];
      var b' := b[..k] + b[k + 1..];
      forall v | v in a[1..]
        ensures v in b'
      {
        var i :| 0 <= i < |a[1..]| && a[1..][i] == v;
        assert a[i + 1] != a[0];
        assert a[i + 1] in a;
        var m :| 0 <= m < |b| && b[m] == v;
        if m < k {
          assert b'[m] == v;
        } else {
          assert b'[m - 1] == v;
        }
      }
      DistinctSubsetNoLonger(a[1..], b');
    }
  }
}
