/** `segmentation_map_to_image`: turns a category mask into an RGB image, one
    pixel per mask entry coloured from the colour table, and lists the names of
    the classes present, most frequent first. The colours are looked up once
    per distinct class id and spread to the pixels through np.unique's inverse
    map. */
module MaskRenderer {
  import opened Segmentations
  import opened UniqueValues
  import opened Ranking
  import opened Images

  /** Every class id of the mask has an entry in the colour table. */
  predicate IndicesInTable(mask: seq<nat>, table: seq<ColoredLabel>) {
    forall p :: 0 <= p < |mask| ==> mask[p] < |table|
  }

  /** The dictionary from each distinct id to the count at its position
      (`count_dict`). */
  function CountDict(values: seq<nat>, counts: seq<nat>): (d: map<nat, nat>)
    requires |values| == |counts|
    requires StrictlyIncreasing(values)
    ensures forall v :: v in d <==> v in values
    ensures forall i :: 0 <= i < |values| ==> d[values[i]] == counts[i]
  {
    if values == [] then map[]
    else CountDict(values[1..], counts[1..])[values[0] := counts[0]]
  }

  /** The class ids present in the mask, ranked by pixel count. */
  function RankedIndices(mask: seq<nat>): (r: seq<nat>)
    ensures forall v :: v in r <==> v in mask
    ensures NoDuplicates(r)
    ensures forall i, j :: 0 <= i < j < |r| ==> multiset(mask)[r[i]] >= multiset(mask)[r[j]]
    ensures forall i, j :: 0 <= i < j < |r| && multiset(mask)[r[i]] == multiset(mask)[r[j]] ==>
              r[i] < r[j]
  {
    var u := Unique(mask);
    var countOf := CountDict(u.values, u.counts);
    CountDictIsPixelCount(mask);
    var r := RankByCount(u.values, countOf);
    RankedIsDistinct(r, countOf);
    r
  }

  /** The count dictionary built from np.unique holds each present id's pixel
      count. */
  lemma CountDictIsPixelCount(mask: seq<nat>)
    ensures forall v :: v in mask ==>
              v in CountDict(Unique(mask).values, Unique(mask).counts) &&
              CountDict(Unique(mask).values, Unique(mask).counts)[v] == multiset(mask)[v]
  {
  }

  /** No other list of ids meets the ranking's contract: exactly the present
      ids, each once, by pixel count with ties in ascending id order. */
  lemma RankedIndicesUnique(mask: seq<nat>, r: seq<nat>)
    requires forall v :: v in r <==> v in mask
    requires NoDuplicates(r)
    requires forall i, j :: 0 <= i < j < |r| ==> multiset(mask)[r[i]] >= multiset(mask)[r[j]]
    requires forall i, j :: 0 <= i < j < |r| && multiset(mask)[r[i]] == multiset(mask)[r[j]] ==>
               r[i] < r[j]
    ensures r == RankedIndices(mask)
  {
    var u := Unique(mask);
    var countOf := CountDict(u.values, u.counts);
    CountDictIsPixelCount(mask);
    var q := RankByCount(u.values, countOf);
    assert q == RankedIndices(mask);
    assert Ranked(r, countOf) by {
      forall i, j | 0 <= i < j < |r|
        ensures RankedBefore(r[i], r[j], countOf)
      {
        assert r[i] in mask && r[j] in mask;
      }
    }
    RankedUnique(r, q, countOf);
  }

  /** The names of the given class ids, in order (`found_colored_labels`
      when the ids are the ranking). */
  function LabelsOf(ids: seq<nat>, table: seq<ColoredLabel>): (names: seq<string>)
    requires forall i :: 0 <= i < |ids| ==> ids[i] < |table|
    ensures |names| == |ids|
    ensures forall i :: 0 <= i < |ids| ==> names[i] == table[ids[i]].name
  {
    seq(|ids|, i requires 0 <= i < |ids| => table[ids[i]].name)
  }

  /** Every ranked id has a row in a table that covers the mask. */
  lemma RankedInTable(mask: seq<nat>, table: seq<ColoredLabel>)
    requires IndicesInTable(mask, table)
    ensures forall i :: 0 <= i < |RankedIndices(mask)| ==> RankedIndices(mask)[i] < |table|
  {
  }

  /** There are as many ranked ids as distinct ids. */
  lemma RankedLengthIsDistinctCount(mask: seq<nat>)
    ensures |RankedIndices(mask)| == |Unique(mask).values|
  {
    var u := Unique(mask);
    var countOf := CountDict(u.values, u.counts);
    CountDictIsPixelCount(mask);
    DistinctSameElementsSameLength(RankByCount(u.values, countOf), u.values);
  }

  /** The colour of each distinct id, in the order of `values`
      (`found_colors`). */
  function FoundColors(values: seq<nat>, table: seq<ColoredLabel>): (colors: seq<Color>)
    requires forall i :: 0 <= i < |values| ==> values[i] < |table|
    ensures |colors| == |values|
    ensures forall i :: 0 <= i < |values| ==> colors[i] == table[values[i]].color
  {
    seq(|values|, i requires 0 <= i < |values| => table[values[i]].color)
  }

  /** For every pixel, the colour at that pixel's position in the inverse
      map: numpy's fancy indexing of the colours by the inverse map. */
  function Gather(colors: seq<Color>, inverse: seq<nat>): (px: seq<Color>)
    requires forall p :: 0 <= p < |inverse| ==> inverse[p] < |colors|
    ensures |px| == |inverse|
    ensures forall p :: 0 <= p < |inverse| ==> px[p] == colors[inverse[p]]
  {
    seq(|inverse|, p requires 0 <= p < |inverse| => colors[inverse[p]])
  }

  /** Looking a pixel's colour up through the distinct ids and the inverse map
      gives the colour of the pixel's own class, for any `values`/`inverse`
      pair that indexes back to the mask. */
  lemma IndirectLookupIsDirect(mask: seq<nat>, table: seq<ColoredLabel>, values: seq<nat>, inverse: seq<nat>)
    requires IndicesInTable(mask, table)
    requires forall v :: v in values ==> v in mask
    requires |inverse| == |mask|
    requires forall p :: 0 <= p < |mask| ==> inverse[p] < |values| && values[inverse[p]] == mask[p]
    ensures forall i :: 0 <= i < |values| ==> values[i] < |table|
    ensures Gather(FoundColors(values, table), inverse) ==
            seq(|mask|, p requires 0 <= p < |mask| => table[mask[p]].color)
  {
    forall i | 0 <= i < |values| ensures values[i] < |table| {
      assert values[i] in values;
      var p :| 0 <= p < |mask| && mask[p] == values[i];
    }
  }

  /** The colour of each pixel, looked up once per distinct id and spread to
      the pixels through np.unique's inverse map. */
  function PixelColors(mask: seq<nat>, table: seq<ColoredLabel>): (px: seq<Color>)
    requires IndicesInTable(mask, table)
    ensures |px| == |mask|
    ensures forall p :: 0 <= p < |mask| ==> px[p] == table[mask[p]].color
  {
    var u := Unique(mask);
    IndirectLookupIsDirect(mask, table, u.values, u.inverse);
    Gather(FoundColors(u.values, table), u.inverse)
  }

  datatype Rendering = Rendering(image: seq<seq<Color>>, foundLabels: seq<string>)

  /** What a successful rendering needs: a category mask whose ids all have a
      table entry, with one entry per pixel of a `width` by `height` image. */
  predicate Renderable(seg: Segmentation) {
    && seg.masks.CategoryMask?
    && IndicesInTable(seg.masks.categories, seg.coloredLabels)
    && |seg.masks.categories| == seg.width * seg.height
  }

  /** The rendering steps with the reshape target `(rows, cols)` left open.
      A class id missing from the table fails before the reshape is tried;
      the reshape fails unless there are `rows * cols` pixels. */
  function RenderShaped(seg: Segmentation, rows: nat, cols: nat): (r: Result<Rendering>)
    ensures seg.masks.ConfidenceMasks? ==> r == Failure(NotACategoryMask)
    ensures seg.masks.CategoryMask? && !IndicesInTable(seg.masks.categories, seg.coloredLabels) ==>
              r == Failure(LabelIndexOutOfRange)
    ensures seg.masks.CategoryMask? && IndicesInTable(seg.masks.categories, seg.coloredLabels) &&
            |seg.masks.categories| != rows * cols ==>
              r == Failure(InvalidMaskSize)
    ensures r.Success? ==>
              && seg.masks.CategoryMask?
              && IndicesInTable(seg.masks.categories, seg.coloredLabels)
              && |seg.masks.categories| == rows * cols
    ensures r.Success? ==>
              r.value.image == Rows(PixelColors(seg.masks.categories, seg.coloredLabels), rows, cols)
    ensures r.Success? ==>
              && (forall i :: 0 <= i < |RankedIndices(seg.masks.categories)| ==>
                    RankedIndices(seg.masks.categories)[i] < |seg.coloredLabels|)
              && r.value.foundLabels == LabelsOf(RankedIndices(seg.masks.categories), seg.coloredLabels)
  {
    match seg.masks
    case ConfidenceMasks(_) => Failure(NotACategoryMask)
    case CategoryMask(mask) =>
      if !IndicesInTable(mask, seg.coloredLabels) then Failure(LabelIndexOutOfRange)
      else
        match Reshape(PixelColors(mask, seg.coloredLabels), rows, cols)
        case None => Failure(InvalidMaskSize)
        case Some(image) =>
          RankedInTable(mask, seg.coloredLabels);
          Success(Rendering(image, LabelsOf(RankedIndices(mask), seg.coloredLabels)))
  }

  /** The image is `height` rows of `width` pixels, each pixel coloured after
      its class, and the labels are those of the ranked present classes. */
  function Render(seg: Segmentation): (r: Result<Rendering>)
    ensures seg.masks.ConfidenceMasks? ==> r == Failure(NotACategoryMask)
    ensures seg.masks.CategoryMask? && !IndicesInTable(seg.masks.categories, seg.coloredLabels) ==>
              r == Failure(LabelIndexOutOfRange)
    ensures seg.masks.CategoryMask? && IndicesInTable(seg.masks.categories, seg.coloredLabels) &&
            |seg.masks.categories| != seg.width * seg.height ==>
              r == Failure(InvalidMaskSize)
    ensures r.Success? <==> Renderable(seg)
    ensures r.Success? ==>
              && |r.value.image| == seg.height
              && (forall y :: 0 <= y < seg.height ==> |r.value.image[y]| == seg.width)
              && |Concat(r.value.image)| == |seg.masks.categories|
              && (forall p :: 0 <= p < |seg.masks.categories| ==>
                    Concat(r.value.image)[p] == seg.coloredLabels[seg.masks.categories[p]].color)
    ensures r.Success? ==>
              && (forall i :: 0 <= i < |RankedIndices(seg.masks.categories)| ==>
                    RankedIndices(seg.masks.categories)[i] < |seg.coloredLabels|)
              && r.value.foundLabels == LabelsOf(RankedIndices(seg.masks.categories), seg.coloredLabels)
  {
    assert seg.height * seg.width == seg.width * seg.height;
    RenderShaped(seg, seg.height, seg.width)
  }

  /** The reshape exactly as written, to `(width, height)`: `width` rows of
      `height` pixels, the transpose of the image's own shape. */
  function RenderAsWritten(seg: Segmentation): (r: Result<Rendering>)
    ensures r.Success? <==> Renderable(seg)
    ensures !r.Success? ==> r == Render(seg)
    ensures r.Success? ==>
              && |r.value.image| == seg.width
              && (forall x :: 0 <= x < seg.width ==> |r.value.image[x]| == seg.height)
              && r.value.foundLabels == Render(seg).value.foundLabels
  {
    assert seg.height * seg.width == seg.width * seg.height;
    RenderShaped(seg, seg.width, seg.height)
  }

  /** `found_colored_labels`: one name per distinct class present, the name
      of the class ranked at that position. */
  lemma RenderLabels(seg: Segmentation)
    requires Renderable(seg)
    ensures |Render(seg).value.foundLabels| == |Unique(seg.masks.categories).values|
    ensures forall i :: 0 <= i < |Render(seg).value.foundLabels| ==>
              RankedIndices(seg.masks.categories)[i] < |seg.coloredLabels| &&
              Render(seg).value.foundLabels[i] ==
              seg.coloredLabels[RankedIndices(seg.masks.categories)[i]].name
  {
    RankedLengthIsDistinctCount(seg.masks.categories);
  }

  /** A successful rendering cuts the pixel colours into `height` rows. */
  lemma RenderIsRows(seg: Segmentation)
    requires Renderable(seg)
    ensures |seg.masks.categories| == seg.height * seg.width
    ensures Render(seg).value.image ==
            Rows(PixelColors(seg.masks.categories, seg.coloredLabels), seg.height, seg.width)
  {
  }

  /** Pixel `(y, x)` of the rendered image is coloured after mask entry
      `y * width + x`, the row-major position of that pixel. */
  lemma RenderPixelAt(seg: Segmentation, y: nat, x: nat)
    requires Renderable(seg)
    requires y < seg.height && x < seg.width
    ensures 0 <= y * seg.width + x < |seg.masks.categories|
    ensures Render(seg).value.image[y][x] ==
            seg.coloredLabels[seg.masks.categories[y * seg.width + x]].color
  {
    RenderIsRows(seg);
    var px := PixelColors(seg.masks.categories, seg.coloredLabels);
    RowsAt(px, seg.height, seg.width, y, x);
  }

  /** The flattened image is three channel bytes per pixel, in mask order,
      each the channel of that pixel's class colour. */
  lemma RenderFlattened(seg: Segmentation)
    requires Renderable(seg)
    ensures |Flatten(Render(seg).value.image)| == 3 * (seg.width * seg.height)
    ensures forall p :: 0 <= p < |seg.masks.categories| ==>
              var c := seg.coloredLabels[seg.masks.categories[p]].color;
              && Flatten(Render(seg).value.image)[3 * p] == c.r
              && Flatten(Render(seg).value.image)[3 * p + 1] == c.g
              && Flatten(Render(seg).value.image)[3 * p + 2] == c.b
  {
  }

  /** Flattened, the as-written image and the row-major image are the same
      bytes, so a flattened comparison cannot tell the two shapes apart. */
  lemma AsWrittenFlattensAlike(seg: Segmentation)
    requires Renderable(seg)
    ensures Flatten(RenderAsWritten(seg).value.image) == Flatten(Render(seg).value.image)
  {
    var mask := seg.masks.categories;
    var px := PixelColors(mask, seg.coloredLabels);
    assert Concat(RenderAsWritten(seg).value.image) == px;
    assert Concat(Render(seg).value.image) == px;
  }

  /** A 2-wide, 1-high image whose right pixel is class 1: the as-written
      array has two rows, and the right pixel lands in the second row. */
  lemma AsWrittenShapeIsTransposed()
    ensures
      var table := [ColoredLabel(Color(0, 0, 0), "background"), ColoredLabel(Color(128, 0, 0), "person")];
      var seg := Segmentation(2, 1, table, CategoryMask([0, 1]));
      && RenderAsWritten(seg).Success?
      && |RenderAsWritten(seg).value.image| == 2
      && RenderAsWritten(seg).value.image[1][0] == Color(128, 0, 0)
      && |Render(seg).value.image| == 1
      && Render(seg).value.image[0][1] == Color(128, 0, 0)
  {
    var table := [ColoredLabel(Color(0, 0, 0), "background"), ColoredLabel(Color(128, 0, 0), "person")];
    var seg := Segmentation(2, 1, table, CategoryMask([0, 1]));
    var px := PixelColors([0, 1], table);
    assert RenderAsWritten(seg).value.image == Rows(px, 2, 1);
    RowsAt(px, 2, 1, 1, 0);
    RenderPixelAt(seg, 0, 1);
  }
}
