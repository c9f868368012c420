/** Frame-size normalisation: the dimension arithmetic of the resize and crop steps. */
module Preprocess {
  import opened LootTypes

  /**
   * Rescales a frame to TARGET_WIDTH columns unless it already has that width.
   * The new height is the truncated product height * (TARGET_WIDTH / width),
   * taken here in exact arithmetic; a height of 0 makes the resize call fail.
   */
  function Resize(d: Dims): (r: Result<Dims>)
    requires d.width > 0
    ensures d.width == TARGET_WIDTH ==> r == Ok(d)
    ensures r.Err? ==> r.error == ResizeFailed
    ensures r.Ok? ==> r.value.width == TARGET_WIDTH
  {
    if d.width == TARGET_WIDTH then Ok(d)
    else
      var newHeight := d.height * TARGET_WIDTH / d.width;
      if newHeight == 0 then Err(ResizeFailed) else Ok(Dims(newHeight, TARGET_WIDTH))
  }

  /**
   * The resize fails exactly when the rescaled height truncates to 0; otherwise
   * the new height is height * TARGET_WIDTH / width rounded down, so the aspect
   * ratio is kept to within one row.
   */
  lemma ResizeHeight(d: Dims)
    requires d.width > 0
    ensures Resize(d).Err? <==> d.width != TARGET_WIDTH && d.height * TARGET_WIDTH < d.width
    ensures Resize(d).Ok? ==>
              Resize(d).value.height * d.width <= d.height * TARGET_WIDTH < (Resize(d).value.height + 1) * d.width
  {
  }

  /** Keeps the leftmost CROP_WIDTH columns when the frame is at least that wide. */
  function Crop(d: Dims): Dims {
    if d.width >= CROP_WIDTH then Dims(d.height, CROP_WIDTH) else d
  }

  /**
   * The whole preprocessing step: a frame that failed to decode is an error,
   * otherwise resize, then crop.
   */
  function Normalize(decoded: Option<Dims>): (r: Result<Dims>)
    requires decoded.Some? ==> decoded.value.width > 0
    ensures decoded.None? ==> r == Err(InvalidImage)
    ensures r.Ok? ==> r.value.width == CROP_WIDTH
  {
    match decoded
    case None => Err(InvalidImage)
    case Some(d) =>
      match Resize(d)
      case Err(e) => Err(e)
      case Ok(resized) => Ok(Crop(resized))
  }

  /**
   * Because every decoded frame is first brought to width 1920 >= 352, the crop
   * always applies: the analysis frame is exactly CROP_WIDTH wide and keeps the
   * rescaled height, which is the original height when the width was already 1920.
   */
  lemma AnalysisFrame(d: Dims)
    requires d.width > 0
    ensures d.width == TARGET_WIDTH ==> Normalize(Some(d)) == Ok(Dims(d.height, CROP_WIDTH))
    ensures d.width != TARGET_WIDTH && d.height * TARGET_WIDTH >= d.width ==>
              Normalize(Some(d)) == Ok(Dims(d.height * TARGET_WIDTH / d.width, CROP_WIDTH))
    ensures Normalize(Some(d)).Ok? ==> Normalize(Some(d)).value.width == CROP_WIDTH
  {
  }
}
