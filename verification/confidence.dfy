/** The cross-check between the two output kinds. An argmax across the
    classes turns one score list per class into one class id per pixel: the
    first class with the highest score. A consistent segmenter's category mask
    equals that list. */
module CategoryFromConfidence {
  import opened Segmentations
  import opened MaskRenderer

  /** Among the first `n` scores, `k` holds a maximum and every score before
      it is strictly lower. */
  predicate IsFirstMaxWithin(col: seq<real>, n: nat, k: nat) {
    && k < n <= |col|
    && (forall i :: 0 <= i < n ==> col[i] <= col[k])
    && (forall i :: 0 <= i < k ==> col[i] < col[k])
  }

  /** `k` is where np.argmax stops: the lowest index of a maximal score. */
  predicate IsFirstMax(col: seq<real>, k: nat) {
    IsFirstMaxWithin(col, |col|, k)
  }

  /** The argmax scan from index `i` on, `best` being the first maximum of the
      scores before `i`; it moves only on a strictly greater score. */
  function ArgMaxFrom(col: seq<real>, best: nat, i: nat): (k: nat)
    requires IsFirstMaxWithin(col, i, best)
    ensures IsFirstMax(col, k)
    decreases |col| - i
  {
    if i == |col| then best
    else ArgMaxFrom(col, if col[i] > col[best] then i else best, i + 1)
  }

  /** np.argmax over one pixel's scores: the lowest index holding the maximum,
      and no other index qualifies. */
  function ArgMax(col: seq<real>): (k: nat)
    requires |col| > 0
    ensures IsFirstMax(col, k)
    ensures forall j :: IsFirstMax(col, j) <==> j == k
  {
    ArgMaxFrom(col, 0, 1)
  }

  /** All class score lists have the length of the first one. */
  predicate Rectangular(scores: seq<seq<real>>) {
    && |scores| > 0
    && forall k :: 0 <= k < |scores| ==> |scores[k]| == |scores[0]|
  }

  /** The scores of every class at pixel `p`. */
  function Column(scores: seq<seq<real>>, p: nat): (col: seq<real>)
    requires forall k :: 0 <= k < |scores| ==> p < |scores[k]|
    ensures |col| == |scores|
    ensures forall k :: 0 <= k < |scores| ==> col[k] == scores[k][p]
  {
    seq(|scores|, k requires 0 <= k < |scores| => scores[k][p])
  }

  /** The category mask implied by a confidence-mask result. The number of
      confidence masks must equal the number of colour-table entries; building
      the numpy array refuses lists of unequal lengths, and the argmax refuses
      an empty class axis. */
  function DeriveCategoryMask(seg: Segmentation): (r: Result<seq<nat>>)
    ensures seg.masks.CategoryMask? ==> r == Failure(NotAConfidenceMask)
    ensures seg.masks.ConfidenceMasks? && |seg.masks.scores| != |seg.coloredLabels| ==>
              r == Failure(InconsistentClassCount)
    ensures seg.masks.ConfidenceMasks? && |seg.masks.scores| == |seg.coloredLabels| == 0 ==>
              r == Failure(EmptyConfidenceMasks)
    ensures seg.masks.ConfidenceMasks? && |seg.masks.scores| == |seg.coloredLabels| > 0 &&
            !Rectangular(seg.masks.scores) ==>
              r == Failure(RaggedConfidenceMasks)
    ensures r.Success? <==>
              && seg.masks.ConfidenceMasks?
              && |seg.masks.scores| == |seg.coloredLabels|
              && Rectangular(seg.masks.scores)
    ensures r.Success? ==>
              && |r.value| == |seg.masks.scores[0]|
              && forall p :: 0 <= p < |r.value| ==>
                   && r.value[p] < |seg.coloredLabels|
                   && IsFirstMax(Column(seg.masks.scores, p), r.value[p])
  {
    match seg.masks
    case CategoryMask(_) => Failure(NotAConfidenceMask)
    case ConfidenceMasks(scores) =>
      if |scores| != |seg.coloredLabels| then Failure(InconsistentClassCount)
      else if |scores| == 0 then Failure(EmptyConfidenceMasks)
      else if !Rectangular(scores) then Failure(RaggedConfidenceMasks)
      else
        Success(seq(|scores[0]|, p requires 0 <= p < |scores[0]| => ArgMax(Column(scores, p))))
  }

  /** The test's final assertion: the category mask equals the mask derived
      from the confidence masks. Every id of a consistent category mask then
      names an entry of the confidence result's colour table. */
  predicate Consistent(category: Segmentation, confidence: Segmentation): (b: bool)
    ensures b ==> && category.masks.CategoryMask?
                  && forall p :: 0 <= p < |category.masks.categories| ==>
                       category.masks.categories[p] < |confidence.coloredLabels|
  {
    && category.masks.CategoryMask?
    && DeriveCategoryMask(confidence) == Success(category.masks.categories)
  }

  /** Consistency, pixel by pixel: the two results agree exactly when the
      confidence side is well formed, the masks have the same number of
      pixels, and every category id is the first maximum of its pixel's
      scores. */
  lemma ConsistentIff(category: Segmentation, confidence: Segmentation)
    ensures Consistent(category, confidence) <==>
              && category.masks.CategoryMask?
              && confidence.masks.ConfidenceMasks?
              && |confidence.masks.scores| == |confidence.coloredLabels|
              && Rectangular(confidence.masks.scores)
              && |category.masks.categories| == |confidence.masks.scores[0]|
              && forall p :: 0 <= p < |category.masks.categories| ==>
                   IsFirstMax(Column(confidence.masks.scores, p), category.masks.categories[p])
  {
    var d := DeriveCategoryMask(confidence);
    if && category.masks.CategoryMask?
       && confidence.masks.ConfidenceMasks?
       && |confidence.masks.scores| == |confidence.coloredLabels|
       && Rectangular(confidence.masks.scores)
       && |category.masks.categories| == |confidence.masks.scores[0]|
       && forall p :: 0 <= p < |category.masks.categories| ==>
            IsFirstMax(Column(confidence.masks.scores, p), category.masks.categories[p])
    {
      var c := category.masks.categories;
      var scores := confidence.masks.scores;
      forall p | 0 <= p < |c|
        ensures d.value[p] == c[p]
      {
        var col := Column(scores, p);
        assert d.value[p] == ArgMax(col);
        assert IsFirstMax(col, c[p]);
      }
      assert d.value == c;
    }
  }

  /** A consistent category mask only holds ids the colour table covers, so
      rendering it with the same table can fail only on the image size. */
  lemma ConsistentMaskRenders(category: Segmentation, confidence: Segmentation)
    requires Consistent(category, confidence)
    requires category.coloredLabels == confidence.coloredLabels
    ensures Render(category).Success? <==>
              |category.masks.categories| == category.width * category.height
    ensures Render(category) != Failure(LabelIndexOutOfRange)
  {
  }
}
