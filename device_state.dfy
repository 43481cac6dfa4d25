/** The movie-overlay globals that `m_IDirect3DDevice8::Reset` clears. The
    overlay code that otherwise reads and writes them is not part of this
    model; their types follow how `Reset` and `Present` use them. */
module DeviceState {
  import opened Common
  import opened Display

  /** A crop rectangle in source-frame pixels; `{}` value-initialises it to zeros. */
  datatype CropBox = CropBox(x: int, y: int, w: int, h: int)

  const EmptyCrop := CropBox(0, 0, 0, 0)

  class OverlayGlobals {
    var hasTexture: bool          // gOverlayTex != nullptr
    var textureWidth: uint32      // gOverlayTexW
    var textureHeight: uint32     // gOverlayTexH
    var frame: seq<byte>          // gOverlayFrame
    var dirty: bool               // gOverlayDirty
    var activeFrames: uint32      // gOverlayActiveFrames
    var cropLocked: bool          // gCropLocked
    var hasRectHint: bool         // gHasRectHint
    var lockSourceWidth: int      // gLockSrcW
    var lockSourceHeight: int     // gLockSrcH
    var stable: CropBox           // gStable
    var previousStable: CropBox   // gPrevStable
    var detected: CropBox         // gDetected
    var targetWidth: uint32       // gTargetW
    var targetHeight: uint32      // gTargetH

    /** A missing texture has no size. */
    ghost predicate Valid()
      reads this
    {
      !hasTexture ==> textureWidth == 0 && textureHeight == 0
    }

    /** The state before any device exists. */
    constructor ()
      ensures Valid() && !hasTexture && frame == [] && activeFrames == 0
    {
      hasTexture, textureWidth, textureHeight := false, 0, 0;
      frame, dirty, activeFrames := [], false, 0;
      cropLocked, hasRectHint := false, false;
      lockSourceWidth, lockSourceHeight := 0, 0;
      stable, previousStable, detected := EmptyCrop, EmptyCrop, EmptyCrop;
      targetWidth, targetHeight := 0, 0;
    }

    /** The overlay is idle: no texture, nothing captured, nothing to draw, nothing locked. */
    ghost predicate Idle()
      reads this
    {
      && !hasTexture && frame == [] && !dirty && activeFrames == 0
      && !cropLocked && !hasRectHint && lockSourceWidth == 0 && lockSourceHeight == 0
      && stable == EmptyCrop && previousStable == EmptyCrop && detected == EmptyCrop
    }

    /** Idle, and the texture size is 0x0 as well. */
    ghost predicate Cleared()
      reads this
    {
      Idle() && textureWidth == 0 && textureHeight == 0
    }

    /** The rules `CreateDevice` and `Reset` both apply to the presentation
        parameters: forced windowed mode, the new back-buffer size as the
        overlay target, and the forced refresh rate (`requested` of 0 means none). */
    method ApplyPresentParameters(p: PresentParameters, forceWindowedMode: bool, requested: int32, rates: seq<int32>)
      modifies this`targetWidth, this`targetHeight
      modifies p`windowed, p`fullScreenRefreshRateInHz, p`fullScreenPresentationInterval
      ensures targetWidth == p.backBufferWidth && targetHeight == p.backBufferHeight
      ensures p.windowed == (old(p.windowed) || forceWindowedMode)
      ensures var base := if forceWindowedMode then RateDefault else old(p.fullScreenRefreshRateInHz);
        p.fullScreenRefreshRateInHz == if requested == 0 then base else RefreshRateAfter(p.windowed, base, rates, requested)
      ensures forceWindowedMode ==> p.fullScreenRefreshRateInHz == RateDefault
      ensures p.fullScreenPresentationInterval == if forceWindowedMode then IntervalDefault else old(p.fullScreenPresentationInterval)
    {
      if forceWindowedMode {
        ForceWindowedParameters(p);
      }
      if requested != 0 {
        ForceFullScreenRefreshRateInHz(p, rates, requested);
      }
      targetWidth := p.backBufferWidth;
      targetHeight := p.backBufferHeight;
    }

    /** `m_IDirect3D8::CreateDevice` before it forwards to the real interface:
        the parameter rules alone, with the overlay state untouched. */
    method CreateDevice(p: PresentParameters, forceWindowedMode: bool, requested: int32, rates: seq<int32>)
      modifies this`targetWidth, this`targetHeight
      modifies p`windowed, p`fullScreenRefreshRateInHz, p`fullScreenPresentationInterval
      ensures targetWidth == p.backBufferWidth && targetHeight == p.backBufferHeight
      ensures p.windowed == (old(p.windowed) || forceWindowedMode)
      ensures var base := if forceWindowedMode then RateDefault else old(p.fullScreenRefreshRateInHz);
        p.fullScreenRefreshRateInHz == if requested == 0 then base else RefreshRateAfter(p.windowed, base, rates, requested)
      ensures p.fullScreenPresentationInterval == if forceWindowedMode then IntervalDefault else old(p.fullScreenPresentationInterval)
    {
      ApplyPresentParameters(p, forceWindowedMode, requested, rates);
    }

    /** Release the overlay texture and clear the capture and crop state. The
        texture size is cleared together with the texture, so a size left over
        without a texture survives. */
    method ClearOverlay()
      modifies this`hasTexture, this`textureWidth, this`textureHeight, this`frame, this`dirty, this`activeFrames
      modifies this`cropLocked, this`hasRectHint, this`lockSourceWidth, this`lockSourceHeight
      modifies this`stable, this`previousStable, this`detected
      ensures Idle()
      ensures old(hasTexture) ==> textureWidth == 0 && textureHeight == 0
      ensures !old(hasTexture) ==> textureWidth == old(textureWidth) && textureHeight == old(textureHeight)
    {
      var width, height := textureWidth, textureHeight;
      if hasTexture {
        width, height := 0, 0;
      }
      hasTexture, textureWidth, textureHeight := false, width, height;
      frame, dirty, activeFrames := [], false, 0;
      cropLocked, hasRectHint, lockSourceWidth, lockSourceHeight := false, false, 0, 0;
      stable, previousStable, detected := EmptyCrop, EmptyCrop, EmptyCrop;
    }

    /** `m_IDirect3DDevice8::Reset` before it forwards to the real device: the
        overlay is cleared, then the parameter rules are applied. */
    method Reset(p: PresentParameters, forceWindowedMode: bool, requested: int32, rates: seq<int32>)
      modifies this, p`windowed, p`fullScreenRefreshRateInHz, p`fullScreenPresentationInterval
      ensures Idle()
      ensures old(hasTexture) ==> textureWidth == 0 && textureHeight == 0
      ensures !old(hasTexture) ==> textureWidth == old(textureWidth) && textureHeight == old(textureHeight)
      ensures old(Valid()) ==> Valid() && Cleared()
      ensures targetWidth == p.backBufferWidth && targetHeight == p.backBufferHeight
      ensures p.windowed == (old(p.windowed) || forceWindowedMode)
      ensures var base := if forceWindowedMode then RateDefault else old(p.fullScreenRefreshRateInHz);
        p.fullScreenRefreshRateInHz == if requested == 0 then base else RefreshRateAfter(p.windowed, base, rates, requested)
      ensures forceWindowedMode ==> p.fullScreenRefreshRateInHz == RateDefault
      ensures p.fullScreenPresentationInterval == if forceWindowedMode then IntervalDefault else old(p.fullScreenPresentationInterval)
    {
      ClearOverlay();
      ApplyPresentParameters(p, forceWindowedMode, requested, rates);
    }
  }
}
