# Image segmenter post-processing, modelled in Dafny

This project models the only computation in the TensorFlow Lite Support
image-segmenter Python test: turning a segmentation result into something a
person or a test can compare.

- **Rendering a category mask** (`segmentation_map_to_image`). The input is a
  flat category mask, one class id per pixel, plus the colour table
  `colored_labels` of `(color, label)` pairs indexed by class id. The code
  calls `np.unique` to get the ascending distinct ids, the inverse map and the
  pixel counts. It builds `count_dict`, then ranks the present ids by pixel
  count with Python's stable `sorted(..., reverse=True)`. It looks each
  distinct id's colour up once and spreads the colours over the pixels through
  the inverse map. Finally it reshapes the result into an RGB image.
- **Cross-checking the two output modes.** `np.argmax(confidence_masks,
  axis=0)` turns one score list per class into one class id per pixel. A
  consistent segmenter's category mask must equal that list. The number of
  confidence masks must equal the number of colour-table entries.

Modules, one per concern:

- `segmentation.dfy`, module `Segmentations`: colours, `ColoredLabel`, the category/confidence sum type, the result, and the typed errors.
- `unique.dfy`, module `UniqueValues`: `np.unique(..., return_inverse=True, return_counts=True)`.
- `ranking.dfy`, module `Ranking`: the stable sort by count, largest first, and the facts about lists without repeated ids.
- `images.dfy`, module `Images`: numpy `reshape` into rows, and `flatten` back to channel bytes.
- `render.dfy`, module `MaskRenderer`: `segmentation_map_to_image`.
- `confidence.dfy`, module `CategoryFromConfidence`: the argmax derivation and the consistency check.

Conventions:

- Channel values are the `byte` newtype (0..255), so `astype(np.uint8)` is
  the identity here.
- Scores are exact `real`s.
- Label names are `string`s. The record field is called `name` because
  `label` is a Dafny keyword.
- Each Python exception becomes a `Failure` of the `Error` datatype.
  `colored_labels[idx]` with a missing id gives `LabelIndexOutOfRange`. A
  failed `reshape` gives `InvalidMaskSize`. The test's `assertEqual` on the
  class count gives `InconsistentClassCount`. `argmax` refusing an empty class axis
  gives `EmptyConfidenceMasks`. `np.array` refusing score lists of unequal
  lengths gives `RaggedConfidenceMasks`.

In three places the code behaves in a way a reader might not expect; the
model follows the code:

- **Error order.** `colored_labels[idx]` (line 135) runs before the reshape
  (line 147). So a mask that has both an unknown class id and the wrong size
  fails with `LabelIndexOutOfRange`, not `InvalidMaskSize`.
- **Ranking ties.** Ties keep ascending class-id order, not first-appearance
  order in the mask. `np.unique` returns ascending ids and the sort is stable
  (`Ranking.RankedUnique`, `MaskRenderer.RankedIndicesUnique`).
- **Confidence-mask length.** The test never checks the confidence-mask length
  against `width * height`. The derivation only needs a non-empty,
  rectangular set of score lists whose count equals the colour-table length.

## Model

| member | source | states |
|---|---|---|
| UniqueValues.Unique | tensorflow_lite_support/python/test/task/vision/image_segmenter_test.py:126-127 | the values are ascending and distinct and are exactly the ids present in the mask; the inverse has one entry per pixel, and `values[inverse[p]]` is pixel `p`'s id; each count is the number of pixels carrying that value |
| UniqueValues.CountsSumToPixels | tensorflow_lite_support/python/test/task/vision/image_segmenter_test.py:126-127 | the per-id counts add up to the number of pixels |
| UniqueValues.InverseIsForced | tensorflow_lite_support/python/test/task/vision/image_segmenter_test.py:126-127 | any map whose entries index the distinct values back to the mask equals np.unique's inverse map |
| Ranking.RankByCount | tensorflow_lite_support/python/test/task/vision/image_segmenter_test.py:132-133 | the sorted list holds exactly the ids it was given; each id comes before every later one by larger count, or by equal count and smaller id |
| Ranking.InsertByCount | tensorflow_lite_support/python/test/task/vision/image_segmenter_test.py:132-133 | inserting an id smaller than all placed ones keeps the list ranked and adds exactly that id |
| Ranking.RankedUnique | tensorflow_lite_support/python/test/task/vision/image_segmenter_test.py:132-133 | two ranked lists with the same ids are equal, so the stable sort's output is fixed by the counts alone |
| MaskRenderer.CountDict | tensorflow_lite_support/python/test/task/vision/image_segmenter_test.py:128 | the dictionary's keys are exactly the distinct ids, and each maps to the count at its own position |
| MaskRenderer.CountDictIsPixelCount | tensorflow_lite_support/python/test/task/vision/image_segmenter_test.py:126-128 | every id present in the mask is a key, mapped to its pixel count |
| MaskRenderer.RankedIndices | tensorflow_lite_support/python/test/task/vision/image_segmenter_test.py:126-133 | the ranked ids are exactly the ids present, each once; pixel counts never increase along the list; equal counts appear in ascending id order |
| MaskRenderer.RankedIndicesUnique | tensorflow_lite_support/python/test/task/vision/image_segmenter_test.py:130-133 | every list with those four properties is the ranking |
| MaskRenderer.RankedLengthIsDistinctCount | tensorflow_lite_support/python/test/task/vision/image_segmenter_test.py:126-133 | the ranking has one entry per distinct id that np.unique reports |
| Ranking.DistinctSameElementsSameLength | tensorflow_lite_support/python/test/task/vision/image_segmenter_test.py:132-133 | two lists without repeats that hold the same ids have the same length, so the sort neither adds nor drops entries |
| MaskRenderer.RankedInTable | tensorflow_lite_support/python/test/task/vision/image_segmenter_test.py:134-136 | when the table covers every pixel's id, every ranked id has a table entry, so the label lookup cannot fail |
| MaskRenderer.LabelsOf | tensorflow_lite_support/python/test/task/vision/image_segmenter_test.py:134-136 | one name per given id, the table name of that id; the claim about the rendered labels is in `RenderLabels` and `RankedInTable` |
| MaskRenderer.IndirectLookupIsDirect | tensorflow_lite_support/python/test/task/vision/image_segmenter_test.py:142-146 | going through `found_colors[inverse[p]]` gives `colored_labels[mask[p]].color` for every pixel, for any values/inverse pair that indexes back to the mask |
| MaskRenderer.FoundColors | tensorflow_lite_support/python/test/task/vision/image_segmenter_test.py:142-144 | one colour per distinct id, the table colour of that id; what it contributes to the pixels is stated in `IndirectLookupIsDirect` |
| MaskRenderer.Gather | tensorflow_lite_support/python/test/task/vision/image_segmenter_test.py:146 | one colour per inverse-map entry, taken at the position that entry names; `IndirectLookupIsDirect` shows this gives each pixel its own class colour |
| MaskRenderer.PixelColors | tensorflow_lite_support/python/test/task/vision/image_segmenter_test.py:142-146 | one colour per pixel, and pixel `p`'s colour is the table colour of its class |
| MaskRenderer.RenderShaped | tensorflow_lite_support/python/test/task/vision/image_segmenter_test.py:122-150 | confidence masks fail; an id with no table entry fails before the reshape; otherwise the reshape fails unless there are `rows * cols` pixels; on success the image is the pixel colours cut into rows, and the labels are those of the ranked ids |
| MaskRenderer.Render | tensorflow_lite_support/python/test/task/vision/image_segmenter_test.py:112-150 | succeeds exactly when it gets a category mask whose ids all have table entries and which has `width * height` pixels, and names the error otherwise; the image is `height` rows of `width` pixels, and laid end to end its pixels are the class colours of the mask entries in order |
| MaskRenderer.RenderAsWritten | tensorflow_lite_support/python/test/task/vision/image_segmenter_test.py:145-148 | the reshape as written succeeds and fails exactly as `Render`; it has `width` rows of `height` pixels and the same labels |
| MaskRenderer.RenderIsRows | tensorflow_lite_support/python/test/task/vision/image_segmenter_test.py:145-148 | a successful rendering is the per-pixel colours cut into `height` rows of `width` |
| MaskRenderer.RenderPixelAt | tensorflow_lite_support/python/test/task/vision/image_segmenter_test.py:145-148 | image pixel `(y, x)` has the colour of mask entry `y * width + x` |
| MaskRenderer.RenderLabels | tensorflow_lite_support/python/test/task/vision/image_segmenter_test.py:134-136 | `found_colored_labels` has one name per distinct id present, and entry `i` is the name of the id ranked `i`-th |
| MaskRenderer.RenderFlattened | tensorflow_lite_support/python/test/task/vision/image_segmenter_test.py:200 | the flattened image has `3 * width * height` bytes; bytes `3p`, `3p+1` and `3p+2` are the channels of pixel `p`'s class colour |
| MaskRenderer.AsWrittenFlattensAlike | tensorflow_lite_support/python/test/task/vision/image_segmenter_test.py:199-200 | flattened, the as-written image and the row-major image are the same bytes |
| MaskRenderer.AsWrittenShapeIsTransposed | tensorflow_lite_support/python/test/task/vision/image_segmenter_test.py:145 | for a 2-wide, 1-high mask `[0, 1]`, the as-written array has 2 rows and its second row holds the right-hand pixel; the corrected image has 1 row whose second pixel is that pixel |
| Images.Rows | tensorflow_lite_support/python/test/task/vision/image_segmenter_test.py:146-147 | cutting `d0 * d1` elements gives `d0` rows of `d1`, and laying them end to end gives back the elements |
| Images.RowsAt | tensorflow_lite_support/python/test/task/vision/image_segmenter_test.py:146-147 | row `i`, column `j` of the cut is element `i * d1 + j` |
| Images.Reshape | tensorflow_lite_support/python/test/task/vision/image_segmenter_test.py:146-147 | the reshape succeeds exactly when the element count is `d0 * d1`; the result has that shape and keeps the element order |
| Images.Channels | tensorflow_lite_support/python/test/task/vision/image_segmenter_test.py:146-148 | three bytes per pixel, and bytes `3p`, `3p+1` and `3p+2` are pixel `p`'s red, green and blue |
| Images.Flatten | tensorflow_lite_support/python/test/task/vision/image_segmenter_test.py:200 | the flattened image has three bytes per pixel of the rows laid end to end, and bytes `3p` to `3p+2` are that pixel's channels; `FlattenReshape` and `RenderFlattened` relate this to the mask |
| Images.FlattenReshape | tensorflow_lite_support/python/test/task/vision/image_segmenter_test.py:200 | reshaping and then flattening gives back the channel bytes in pixel order |
| CategoryFromConfidence.ArgMaxFrom | tensorflow_lite_support/python/test/task/vision/image_segmenter_test.py:261 | continuing the scan from a first maximum of a prefix ends at a first maximum of the whole list |
| CategoryFromConfidence.ArgMax | tensorflow_lite_support/python/test/task/vision/image_segmenter_test.py:261 | the result holds a maximal score and every earlier score is strictly lower; no other index has both properties |
| CategoryFromConfidence.Column | tensorflow_lite_support/python/test/task/vision/image_segmenter_test.py:261 | the scores of every class at one pixel, the list `argmax` along axis 0 ranges over; used by `ConsistentIff` to characterise the derived mask |
| CategoryFromConfidence.DeriveCategoryMask | tensorflow_lite_support/python/test/task/vision/image_segmenter_test.py:249-261 | fails when the mask count differs from the table length, when there are no classes, or when the lists have unequal lengths, and names each error; otherwise it gives one id per pixel, a valid table index that is the first maximum of that pixel's scores |
| CategoryFromConfidence.ConsistentIff | tensorflow_lite_support/python/test/task/vision/image_segmenter_test.py:261-263 | the category mask equals the derived mask exactly when the confidence result is well formed, the pixel counts agree, and every category id is the first maximum of its pixel's scores |
| CategoryFromConfidence.Consistent | tensorflow_lite_support/python/test/task/vision/image_segmenter_test.py:262-263 | the assertion holds only for a category mask, and then every category id names an entry of the confidence result's colour table; `ConsistentIff` gives both directions |
| CategoryFromConfidence.ConsistentMaskRenders | tensorflow_lite_support/python/test/task/vision/image_segmenter_test.py:249-251 | a category mask consistent with the confidence masks, rendered with the same table, never fails on a missing id; it renders exactly when it has `width * height` pixels |

## Findings

| source | as written | input that shows it | evidently intended | confidence | as-written member | corrected member |
|---|---|---|---|---|---|---|
| tensorflow_lite_support/python/test/task/vision/image_segmenter_test.py:145 | `output_shape = [segmentation.width, segmentation.height, 3]` reshapes the row-major mask into `width` rows of `height` pixels | `width = 2`, `height = 1`, mask `[0, 1]`: the array has 2 rows, and the right-hand pixel ends up in row 1, column 0 | `[height, width, 3]`: `height` rows of `width` pixels, so pixel `(y, x)` is mask entry `y * width + x` | low, not executed; the test only compares flattened bytes, which are identical for both shapes | MaskRenderer.RenderAsWritten, MaskRenderer.AsWrittenShapeIsTransposed | MaskRenderer.Render, MaskRenderer.RenderPixelAt |

## Left out

- `ImageSegmenter` and `ImageSegmenterOptions` (tensorflow_lite_support/python/task/vision/image_segmenter.py). They forward to the native segmenter and hold no logic of their own.
- The pybind11 embedder glue (tensorflow_lite_support/python/task/vision/pybinds/_pywrap_image_embedder.cc). It copies options into protos and calls opaque native code.
- The Objective-C audio-format header (tensorflow_lite_support/ios/task/audio/core/sources/TFLAudioFormat.h). It only has declarations.
- Model loading, reading the model file, and decoding the input and ground-truth images. These are I/O against test fixtures. The category and confidence masks are therefore inputs to the model.
- The ground-truth mismatch ratio (at most 0.01) and the top-left confidence scores compared within 1e-6. These are floating-point comparisons against model output.
- CategoryFromConfidence.ArgMax: scores are exact reals. NaN, which np.argmax treats as the maximum, is not modelled.
- CategoryFromConfidence.DeriveCategoryMask: lists of unequal length are an error, because `np.array` refuses them from numpy 1.24 on. Older numpy built an object array from them instead.
- CategoryFromConfidence.DeriveCategoryMask: handed a category mask, it fails with `NotAConfidenceMask`. The source has no such branch. It would compare the pixel count with the label count at line 249, and with equal counts it would index a scalar pixel at line 256 (`confidence_mask[0]`). The model does not follow a category mask down that path.
- MaskRenderer.Render: colour components are bytes, so `astype(np.uint8)` at line 148 is the identity. Components outside 0..255 in a colour table, which that cast would wrap modulo 256, are not modelled.
- MaskRenderer.Render: mask ids are natural numbers, because the native category mask is unsigned. Python's wrap-around for negative list indices is not modelled.
- MaskRenderer.Render: given confidence masks, the renderer always fails with `NotACategoryMask`. Python differs in three ways, none of them modelled:
  - np.unique yields float scores, and using one as a list index raises `TypeError`.
  - With ragged confidence masks, np.unique raises `ValueError` first.
  - When there are no scores at all (no classes, or every confidence mask empty), no lookup runs. The source then returns an empty image and no labels whenever `width * height == 0`.
