/** Values shared by every stage of the loot-detection pipeline. */
module LootTypes {

  /** Every screenshot is rescaled to this width before matching. */
  const TARGET_WIDTH: nat := 1920
  /** Only the leftmost CROP_WIDTH columns of the rescaled frame are searched. */
  const CROP_WIDTH: nat := 352
  /**
   * Correlation scores are integers on an order-preserving scale on which 700
   * stands for 0.7: a score is at least THRESHOLD exactly when it is at least 0.7.
   */
  const THRESHOLD: int := 700
  /** Two accepted matches of one template are at least this many pixels apart. */
  const NMS_DISTANCE: nat := 20

  datatype Option<T> = None | Some(value: T)

  /** Why a request fails as a whole. */
  datatype Error =
    | InvalidImage   // the image bytes did not decode
    | ResizeFailed   // the rescaled height came out as 0, which the resize call rejects

  datatype Result<T> = Ok(value: T) | Err(error: Error)

  /** The shape of a frame: rows and columns; pixels are not modelled. */
  datatype Dims = Dims(height: nat, width: nat)

  /** The top-left corner of a match, in frame coordinates. */
  datatype Point = Point(x: int, y: int)

  /** One thresholded match offset, as the tuple (score, x, y) that is sorted. */
  datatype Candidate = Candidate(score: int, x: int, y: int)

  /** One reference image of the catalog: its category folder, its file name and its size. */
  datatype Template = Template(category: string, filename: string, height: nat, width: nat)

  function Pos(c: Candidate): Point {
    Point(c.x, c.y)
  }
}
