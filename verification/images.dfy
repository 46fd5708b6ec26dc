/** The numpy array operations the renderer relies on, for an image held as
    rows of RGB pixels: `reshape` of a flat pixel list into `d0` rows of `d1`
    pixels (refused unless the sizes agree), and `flatten` back to the
    row-major list of channel bytes. */
module Images {
  import opened Segmentations

  /** The rows laid end to end. */
  function Concat<T>(rows: seq<seq<T>>): seq<T> {
    if rows == [] then [] else rows[0] + Concat(rows[1..])
  }

  /** Cuts `px` into `d0` consecutive rows of `d1` elements. */
  function Rows<T>(px: seq<T>, d0: nat, d1: nat): (r: seq<seq<T>>)
    requires |px| == d0 * d1
    ensures |r| == d0
    ensures forall i :: 0 <= i < d0 ==> |r[i]| == d1
    ensures Concat(r) == px
    decreases d0
  {
    if d0 == 0 then []
    else
      assert d0 * d1 == (d0 - 1) * d1 + d1;
      var rest := Rows(px[d1..], d0 - 1, d1);
      assert ([px[..d1]] + rest)[1..] == rest;
      [px[..d1]] + rest
  }

  /** One more row of `d` elements: the step the row arithmetic needs. */
  lemma MulSucc(n: nat, d: nat)
    ensures (n + 1) * d == n * d + d
    ensures n * d >= 0
  {
  }

  /** Row `i`, column `j` of the cut holds element `i * d1 + j`. */
  lemma {:induction false} RowsAt<T>(px: seq<T>, d0: nat, d1: nat, i: nat, j: nat)
    requires |px| == d0 * d1
    requires i < d0 && j < d1
    ensures 0 <= i * d1 + j < |px|
    ensures Rows(px, d0, d1)[i][j] == px[i * d1 + j]
    decreases i
  {
    MulSucc(d0 - 1, d1);
    if i == 0 {
      assert Rows(px, d0, d1)[0] == px[..d1];
    } else {
      var tail := px[d1..];
      RowsAt(tail, d0 - 1, d1, i - 1, j);
      MulSucc(i - 1, d1);
      assert Rows(px, d0, d1)[i] == Rows(tail, d0 - 1, d1)[i - 1];
    }
  }

  /** numpy's `reshape` to `(d0, d1)` pixels: it succeeds exactly when the
      element count matches, and it never reorders the elements. */
  function Reshape<T>(px: seq<T>, d0: nat, d1: nat): (r: Option<seq<seq<T>>>)
    ensures r.Some? <==> |px| == d0 * d1
    ensures r.Some? ==> |r.value| == d0
    ensures r.Some? ==> forall i :: 0 <= i < d0 ==> |r.value[i]| == d1
    ensures r.Some? ==> Concat(r.value) == px
  {
    if |px| == d0 * d1 then Some(Rows(px, d0, d1)) else None
  }

  /** The channel bytes of pixels in row-major order: the flat form of an
      `(n, 3)` uint8 array. */
  function Channels(px: seq<Color>): (r: seq<byte>)
    ensures |r| == 3 * |px|
    ensures forall p :: 0 <= p < |px| ==>
              r[3 * p] == px[p].r && r[3 * p + 1] == px[p].g && r[3 * p + 2] == px[p].b
  {
    if px == [] then []
    else
      var rest := Channels(px[1..]);
      var r := [px[0].r, px[0].g, px[0].b] + rest;
      assert forall p :: 1 <= p < |px| ==> r[3 * p] == rest[3 * (p - 1)];
      r
  }

  /** numpy's `flatten` of an image array: all channel bytes, row by row, so
      pixel `p` of the rows laid end to end owns bytes `3p` to `3p + 2`. */
  function Flatten(image: seq<seq<Color>>): (r: seq<byte>)
    ensures |r| == 3 * |Concat(image)|
    ensures forall p :: 0 <= p < |Concat(image)| ==>
              && r[3 * p] == Concat(image)[p].r
              && r[3 * p + 1] == Concat(image)[p].g
              && r[3 * p + 2] == Concat(image)[p].b
  {
    Channels(Concat(image))
  }

  /** Reshaping then flattening gives back the flat channel bytes, whatever
      the row length chosen. */
  lemma FlattenReshape(px: seq<Color>, d0: nat, d1: nat)
    requires |px| == d0 * d1
    ensures Reshape(px, d0, d1).Some?
    ensures Flatten(Reshape(px, d0, d1).value) == Channels(px)
  {
  }
}
