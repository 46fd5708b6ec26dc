/** The data a segmenter hands back: image size, the colour/label table indexed by
    class id, and either a category mask (one class id per pixel) or one
    confidence mask per class (one score per pixel). Failures of the rendering
    and cross-checking code are typed errors carried in a `Result`. */
module Segmentations {

  /** An 8-bit channel value, as in a `uint8` array. */
  newtype byte = x: int | 0 <= x < 256

  datatype Color = Color(r: byte, g: byte, b: byte)

  /** The display colour and class name (`label` in the Python record) of
      one class; the class id is its position in the table. */
  datatype ColoredLabel = ColoredLabel(color: Color, name: string)

  /** Exactly one of the two output kinds is present in a result. Both are
      flattened in row-major order. Scores are exact reals. */
  datatype Masks =
    | CategoryMask(categories: seq<nat>)
    | ConfidenceMasks(scores: seq<seq<real>>)

  datatype Segmentation = Segmentation(
    width: nat,
    height: nat,
    coloredLabels: seq<ColoredLabel>,
    masks: Masks)

  datatype Error =
    | NotACategoryMask        // the renderer was handed confidence masks
    | NotAConfidenceMask      // the argmax was handed a category mask
    | LabelIndexOutOfRange    // a class id with no entry in the colour table
    | InvalidMaskSize         // the pixel count is not width * height
    | InconsistentClassCount  // confidence masks and colour table disagree in length
    | EmptyConfidenceMasks    // argmax over zero classes
    | RaggedConfidenceMasks   // confidence masks of different lengths, refused by np.array

  datatype Result<+T> = Success(value: T) | Failure(error: Error)

  datatype Option<+T> = None | Some(value: T)
}
