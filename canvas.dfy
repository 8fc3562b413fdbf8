/** `CanvasManager` of the table-plan editor (admin/js/table-plan-editor.js): the
    room size in metres, the zoom factor and the conversion between metres and
    canvas pixels. Numbers are exact reals; the scroll re-centring that follows a
    zoom change depends on the page layout and is not part of this model. */
module Canvas {
  const PixelsPerMeter: real := 50.0
  const MinZoom: real := 0.2
  const MaxZoom: real := 3.0
  /** The factor of one `zoomIn` / `zoomOut` step. */
  const ZoomStep: real := 1.2

  /** `Math.max(minZoom, Math.min(maxZoom, z))`. */
  function ClampZoom(z: real): (r: real)
    ensures MinZoom <= r <= MaxZoom
    ensures MinZoom <= z <= MaxZoom ==> r == z
    ensures z < MinZoom ==> r == MinZoom
    ensures z > MaxZoom ==> r == MaxZoom
  {
    var m := if MaxZoom < z then MaxZoom else z;
    if MinZoom < m then m else MinZoom
  }

  /** `Math.max(1, Math.min(100, v))`: a room side between 1 and 100 metres. */
  function ClampRoom(v: real): (r: real)
    ensures 1.0 <= r <= 100.0
    ensures 1.0 <= v <= 100.0 ==> r == v
    ensures v < 1.0 ==> r == 1.0
    ensures v > 100.0 ==> r == 100.0
  {
    var m := if 100.0 < v then 100.0 else v;
    if 1.0 < m then m else 1.0
  }

  function Min(a: real, b: real): real {
    if a <= b then a else b
  }

  /** The zoom `fitToView` chooses for a canvas of `cw × ch` pixels in a viewport of
      `vw × vh`: the largest zoom (up to the maximum) that leaves a 40-pixel margin
      on each side, but never below the minimum. Whenever the margins can be kept
      at a zoom of at least the minimum, the scaled canvas fits inside them. */
  function FitZoom(cw: real, ch: real, vw: real, vh: real): (z: real)
    requires cw > 0.0 && ch > 0.0
    ensures MinZoom <= z <= MaxZoom
    ensures MinZoom <= (vw - 80.0) / cw ==> z * cw <= vw - 80.0
    ensures MinZoom <= (vh - 80.0) / ch ==> z * ch <= vh - 80.0
    ensures MinZoom <= (vw - 80.0) / cw && MinZoom <= (vh - 80.0) / ch && (vw - 80.0) / cw <= MaxZoom ==>
      z == (vw - 80.0) / cw || z == (vh - 80.0) / ch
  {
    var scaleX := (vw - 80.0) / cw;
    var scaleY := (vh - 80.0) / ch;
    var scale := Min(Min(scaleX, scaleY), MaxZoom);
    var z := ClampZoom(if scale < MinZoom then MinZoom else scale);
    FitBound(z, scaleX, cw, vw - 80.0);
    FitBound(z, scaleY, ch, vh - 80.0);
    z
  }

  /** `z <= avail / c` means the scaled side `z * c` fits in `avail`. */
  lemma FitBound(z: real, scale: real, c: real, avail: real)
    requires c > 0.0 && scale == avail / c
    ensures z <= scale ==> z * c <= avail
  {
    if z <= scale {
      assert z * c <= scale * c;
    }
  }

  class CanvasManager {
    var zoom: real
    var roomWidth: real
    var roomHeight: real

    predicate Valid()
      reads this
    {
      MinZoom <= zoom <= MaxZoom && 1.0 <= roomWidth <= 100.0 && 1.0 <= roomHeight <= 100.0
    }

    /** A 10 m × 8 m room at zoom 1. */
    constructor ()
      ensures Valid()
      ensures zoom == 1.0 && roomWidth == 10.0 && roomHeight == 8.0
    {
      zoom := 1.0;
      roomWidth := 10.0;
      roomHeight := 8.0;
    }

    /** The canvas size in (unzoomed) pixels. */
    function CanvasWidthPx(): real
      reads this
    {
      roomWidth * PixelsPerMeter
    }

    function CanvasHeightPx(): real
      reads this
    {
      roomHeight * PixelsPerMeter
    }

    /** `metersToPixels`. */
    function MetersToPixels(meters: real): (px: real)
      reads this
      requires Valid()
      ensures meters >= 0.0 ==> px >= 0.0
      ensures meters > 0.0 ==> px > 0.0
    {
      meters * PixelsPerMeter * zoom
    }

    /** `pixelsToMeters`. */
    function PixelsToMeters(pixels: real): (m: real)
      reads this
      requires Valid()
      ensures pixels >= 0.0 ==> m >= 0.0
    {
      pixels / (PixelsPerMeter * zoom)
    }

    /** The two conversions are inverse to each other at every zoom. */
    lemma ConversionRoundTrip(meters: real, pixels: real)
      requires Valid()
      ensures PixelsToMeters(MetersToPixels(meters)) == meters
      ensures MetersToPixels(PixelsToMeters(pixels)) == pixels
    {
      var k := PixelsPerMeter * zoom;
      assert k > 0.0;
      assert MetersToPixels(meters) == meters * k;
      assert PixelsToMeters(pixels) * k == pixels;
    }

    /** `setRoomSize`: each side clamped to `[1, 100]` metres. */
    method SetRoomSize(width: real, height: real)
      requires Valid()
      modifies this`roomWidth, this`roomHeight
      ensures Valid()
      ensures roomWidth == ClampRoom(width) && roomHeight == ClampRoom(height)
    {
      roomWidth := ClampRoom(width);
      roomHeight := ClampRoom(height);
    }

    /** `setZoom`: the zoom clamped to `[0.2, 3]`. */
    method SetZoom(newZoom: real)
      requires Valid()
      modifies this`zoom
      ensures Valid()
      ensures zoom == ClampZoom(newZoom)
    {
      zoom := ClampZoom(newZoom);
    }

    /** `zoomIn`: one step of 1.2 up, stopping at the maximum. */
    method ZoomIn()
      requires Valid()
      modifies this`zoom
      ensures Valid()
      ensures zoom == ClampZoom(old(zoom) * ZoomStep)
      ensures old(zoom) * ZoomStep <= MaxZoom ==> zoom == old(zoom) * ZoomStep
      ensures old(zoom) == MaxZoom ==> zoom == MaxZoom
    {
      SetZoom(zoom * ZoomStep);
    }

    /** `zoomOut`: one step of 1.2 down, stopping at the minimum. */
    method ZoomOut()
      requires Valid()
      modifies this`zoom
      ensures Valid()
      ensures zoom == ClampZoom(old(zoom) / ZoomStep)
      ensures MinZoom <= old(zoom) / ZoomStep ==> zoom == old(zoom) / ZoomStep
      ensures old(zoom) == MinZoom ==> zoom == MinZoom
    {
      SetZoom(zoom / ZoomStep);
    }

    /** `fitToView` for a viewport of `viewWidth × viewHeight` pixels. */
    method FitToView(viewWidth: real, viewHeight: real)
      requires Valid()
      modifies this`zoom
      ensures Valid()
      ensures zoom == FitZoom(CanvasWidthPx(), CanvasHeightPx(), viewWidth, viewHeight)
    {
      SetZoom(FitZoom(CanvasWidthPx(), CanvasHeightPx(), viewWidth, viewHeight));
    }
  }

  /** A zoom step in and a step out return to the starting zoom whenever the step
      in did not hit the maximum. */
  lemma ZoomInThenOut(z: real)
    requires MinZoom <= z && z * ZoomStep <= MaxZoom
    ensures ClampZoom(ClampZoom(z * ZoomStep) / ZoomStep) == z
  {
    assert ClampZoom(z * ZoomStep) == z * ZoomStep;
    assert z * ZoomStep / ZoomStep == z;
  }
}
