/** np.unique with inverse and counts over a flat category mask: the
    ascending distinct values, for every pixel the position
    of its value among them, and for every distinct value its pixel count. */
module UniqueValues {

  /** Ascending without repeats: the shape of np.unique's first result. */
  predicate StrictlyIncreasing(u: seq<nat>) {
    forall i, j :: 0 <= i < j < |u| ==> u[i] < u[j]
  }

  /** Adds `x` to an ascending sequence of distinct values, keeping it so. */
  function InsertSorted(x: nat, u: seq<nat>): (r: seq<nat>)
    requires StrictlyIncreasing(u)
    ensures StrictlyIncreasing(r)
    ensures forall v :: v in r <==> v == x || v in u
  {
    if u == [] then [x]
    else if x < u[0] then [x] + u
    else if x == u[0] then u
    else
      var rest := InsertSorted(x, u[1..]);
      assert forall j :: 0 <= j < |rest| ==> u[0] < rest[j] by {
        forall j | 0 <= j < |rest| ensures u[0] < rest[j] {
          assert rest[j] in rest;
        }
      }
      [u[0]] + rest
  }

  /** The distinct values of `s`, ascending. */
  function SortedDistinct(s: seq<nat>): (u: seq<nat>)
    ensures StrictlyIncreasing(u)
    ensures forall v :: v in u <==> v in s
  {
    if s == [] then [] else InsertSorted(s[0], SortedDistinct(s[1..]))
  }

  /** Where `v` sits in `u`. */
  function IndexOf(u: seq<nat>, v: nat): (i: nat)
    requires v in u
    ensures i < |u| && u[i] == v
  {
    if u[0] == v then 0 else 1 + IndexOf(u[1..], v)
  }

  /** The number of pixels of `s` carrying `v`. */
  function Count(s: seq<nat>, v: nat): (n: nat)
    ensures n == multiset(s)[v]
  {
    if s == [] then 0
    else
      assert s == [s[0]] + s[1..];
      (if s[0] == v then 1 else 0) + Count(s[1..], v)
  }

  /** The pixel count of every value of `d`, in the order of `d`. */
  function CountsOf(s: seq<nat>, d: seq<nat>): (c: seq<nat>)
    ensures |c| == |d|
    ensures forall i :: 0 <= i < |d| ==> c[i] == multiset(s)[d[i]]
  {
    if d == [] then [] else [Count(s, d[0])] + CountsOf(s, d[1..])
  }

  function Sum(xs: seq<nat>): nat {
    if xs == [] then 0 else xs[0] + Sum(xs[1..])
  }

  datatype UniqueResult = UniqueResult(values: seq<nat>, inverse: seq<nat>, counts: seq<nat>)

  /** The three results of np.unique: `values` ascending and distinct holding
      exactly the values present, `inverse` with `values[inverse[p]] == mask[p]`,
      and `counts` aligned with `values`. */
  function Unique(mask: seq<nat>): (r: UniqueResult)
    ensures StrictlyIncreasing(r.values)
    ensures forall v :: v in r.values <==> v in mask
    ensures |r.inverse| == |mask|
    ensures forall p :: 0 <= p < |mask| ==>
              r.inverse[p] < |r.values| && r.values[r.inverse[p]] == mask[p]
    ensures |r.counts| == |r.values|
    ensures forall i :: 0 <= i < |r.values| ==> r.counts[i] == multiset(mask)[r.values[i]]
  {
    var u := SortedDistinct(mask);
    UniqueResult(
      u,
      seq(|mask|, p requires 0 <= p < |mask| => IndexOf(u, mask[p])),
      CountsOf(mask, u))
  }

  /** Each value occurs at most once in an ascending sequence. */
  lemma {:induction false} CountInIncreasing(u: seq<nat>, v: nat)
    requires StrictlyIncreasing(u)
    ensures Count(u, v) == if v in u then 1 else 0
  {
    if u != [] {
      CountInIncreasing(u[1..], v);
      assert v in u <==> v == u[0] || v in u[1..];
      if v == u[0] {
        assert v !in u[1..];
      }
    }
  }

  /** Prepending one pixel `x` adds, summed over `d`, the number of times `x`
      occurs in `d`. */
  lemma {:induction false} SumCountsCons(x: nat, t: seq<nat>, d: seq<nat>)
    ensures Sum(CountsOf([x] + t, d)) == Sum(CountsOf(t, d)) + Count(d, x)
  {
    if d != [] {
      SumCountsCons(x, t, d[1..]);
      assert ([x] + t)[1..] == t;
      assert Count([x] + t, d[0]) == (if x == d[0] then 1 else 0) + Count(t, d[0]);
    }
  }

  lemma {:induction false} SumCountsEmpty(d: seq<nat>)
    ensures Sum(CountsOf([], d)) == 0
  {
    if d != [] {
      SumCountsEmpty(d[1..]);
    }
  }

  /** Summing the counts over distinct values covering every pixel gives the
      number of pixels. */
  lemma {:induction false} SumCountsCovering(s: seq<nat>, d: seq<nat>)
    requires StrictlyIncreasing(d)
    requires forall v :: v in s ==> v in d
    ensures Sum(CountsOf(s, d)) == |s|
  {
    if s == [] {
      SumCountsEmpty(d);
    } else {
      assert s == [s[0]] + s[1..];
      SumCountsCovering(s[1..], d);
      SumCountsCons(s[0], s[1..], d);
      CountInIncreasing(d, s[0]);
    }
  }

  /** The counts np.unique reports add up to the number of pixels. */
  lemma CountsSumToPixels(mask: seq<nat>)
    ensures Sum(Unique(mask).counts) == |mask|
  {
    SumCountsCovering(mask, Unique(mask).values);
  }

  /** The inverse map is the only one that indexes the values back to the mask:
      every pixel's position among the distinct values is forced. */
  lemma InverseIsForced(mask: seq<nat>, inv: seq<nat>)
    requires |inv| == |mask|
    requires forall p :: 0 <= p < |mask| ==>
               inv[p] < |Unique(mask).values| && Unique(mask).values[inv[p]] == mask[p]
    ensures inv == Unique(mask).inverse
  {
    var r := Unique(mask);
    forall p | 0 <= p < |mask|
      ensures inv[p] == r.inverse[p]
    {
      assert r.values[inv[p]] == r.values[r.inverse[p]];
    }
  }
}
