/** Presentation-parameter rules of the Direct3D 8 wrapper: the forced
    full-screen refresh rate, the parameter writes of forced windowed mode,
    and the argument overrides of the two `Present` entry points. */
module Display {
  import opened Common

  /** `D3DPRESENT_RATE_DEFAULT` and `D3DPRESENT_INTERVAL_DEFAULT`. */
  const RateDefault: uint32 := 0
  const IntervalDefault: uint32 := 0

  /** The fields of `D3DPRESENT_PARAMETERS` these rules read or write. */
  class PresentParameters {
    var backBufferWidth: uint32
    var backBufferHeight: uint32
    var windowed: bool
    var fullScreenRefreshRateInHz: uint32
    var fullScreenPresentationInterval: uint32

    constructor (width: uint32, height: uint32, windowed: bool, rate: uint32, interval: uint32)
      ensures backBufferWidth == width && backBufferHeight == height && this.windowed == windowed
      ensures fullScreenRefreshRateInHz == rate && fullScreenPresentationInterval == interval
    {
      backBufferWidth, backBufferHeight := width, height;
      this.windowed := windowed;
      fullScreenRefreshRateInHz, fullScreenPresentationInterval := rate, interval;
    }
  }

  // ---------------------------------------------------------------------------
  // Full-screen refresh rate
  // ---------------------------------------------------------------------------

  /** The first element of the sorted list: the smallest enumerated rate. */
  function LowestRate(rates: seq<int32>): (m: int32)
    requires rates != []
    ensures m in rates && forall r :: r in rates ==> m <= r
  {
    if |rates| == 1 then rates[0]
    else
      var rest := LowestRate(rates[1..]);
      assert forall r :: r in rates ==> r == rates[0] || r in rates[1..];
      if rates[0] <= rest then rates[0] else rest
  }

  /** The last element of the sorted list: the largest enumerated rate. */
  function HighestRate(rates: seq<int32>): (m: int32)
    requires rates != []
    ensures m in rates && forall r :: r in rates ==> r <= m
  {
    if |rates| == 1 then rates[0]
    else
      var rest := HighestRate(rates[1..]);
      assert forall r :: r in rates ==> r == rates[0] || r in rates[1..];
      if rates[0] >= rest then rates[0] else rest
  }

  /** The requested rate when it lies within the enumerated range and is not
      negative, the highest enumerated rate otherwise. */
  function ChooseRefreshRate(requested: int32, lowest: int32, highest: int32): (r: int32)
    ensures r == requested || r == highest
    ensures lowest <= highest ==> lowest <= r <= highest
    ensures lowest <= highest && requested >= 0 ==> (r == requested <==> lowest <= requested <= highest)
    ensures requested < 0 ==> r == highest
  {
    if requested > highest || requested < lowest || requested < 0 then highest else requested
  }

  /** The refresh rate left in the parameters: unchanged for a windowed device
      or an empty mode list, otherwise the choice above stored as a `UINT`. */
  function RefreshRateAfter(windowed: bool, current: uint32, rates: seq<int32>, requested: int32): uint32
  {
    if windowed || rates == [] then current
    else ToUint32(ChooseRefreshRate(requested, LowestRate(rates), HighestRate(rates)))
  }

  /** A full-screen device always ends up with a rate inside the range of the
      enumerated display modes, and with the requested one exactly when it is
      inside that range, as long as the highest enumerated rate is not negative
      (a display frequency is a `DWORD`). */
  lemma ChosenRateInEnumeratedRange(current: uint32, rates: seq<int32>, requested: int32)
    requires rates != [] && HighestRate(rates) >= 0
    ensures var r := RefreshRateAfter(false, current, rates, requested) as int;
      && LowestRate(rates) as int <= r <= HighestRate(rates) as int
      && (requested >= 0 ==> (r == requested as int <==> LowestRate(rates) <= requested <= HighestRate(rates)))
  {
    var c := ChooseRefreshRate(requested, LowestRate(rates), HighestRate(rates));
    assert c >= 0;
    assert ToUint32(c) as int == c as int;
  }

  /** Only the range is checked, not membership: a rate between two supported
      ones is passed through although no display mode offers it. */
  lemma UnlistedRateInsideRangeIsKept()
    ensures RefreshRateAfter(false, 0, [60, 75], 65) == 65
  {
    assert LowestRate([60, 75]) == 60 && HighestRate([60, 75]) == 75;
  }

  /** `std::sort` followed by `front()` and `back()`: only the two ends of the
      sorted list are ever read, so one pass finds them. */
  method SortedListEnds(rates: seq<int32>) returns (front: int32, back: int32)
    requires rates != []
    ensures front == LowestRate(rates) && back == HighestRate(rates)
  {
    front, back := rates[0], rates[0];
    var k := 1;
    while k < |rates|
      invariant 1 <= k <= |rates|
      invariant front in rates[..k] && back in rates[..k]
      invariant forall j :: 0 <= j < k ==> front <= rates[j] <= back
    {
      if rates[k] < front { front := rates[k]; }
      if rates[k] > back { back := rates[k]; }
      k := k + 1;
    }
    assert rates[..k] == rates;
    assert LowestRate(rates) <= front && front <= LowestRate(rates);
    assert HighestRate(rates) <= back && back <= HighestRate(rates);
  }

  /** `ForceFullScreenRefreshRateInHz`; `rates` is the list the display-mode
      enumeration filled, `requested` the configured rate. */
  method ForceFullScreenRefreshRateInHz(p: PresentParameters, rates: seq<int32>, requested: int32)
    modifies p`fullScreenRefreshRateInHz
    ensures p.fullScreenRefreshRateInHz == RefreshRateAfter(p.windowed, old(p.fullScreenRefreshRateInHz), rates, requested)
  {
    if !p.windowed {
      if rates == [] {
        return;
      }
      var front, back := SortedListEnds(rates);
      if requested > back || requested < front || requested < 0 {
        p.fullScreenRefreshRateInHz := ToUint32(back);
      } else {
        p.fullScreenRefreshRateInHz := ToUint32(requested);
      }
    }
  }

  /** The parameter writes of `ForceWindowed` (its window placement is not modelled). */
  method ForceWindowedParameters(p: PresentParameters)
    modifies p`windowed, p`fullScreenRefreshRateInHz, p`fullScreenPresentationInterval
    ensures p.windowed && p.fullScreenRefreshRateInHz == RateDefault && p.fullScreenPresentationInterval == IntervalDefault
  {
    p.windowed := true;
    p.fullScreenRefreshRateInHz := RateDefault;
    p.fullScreenPresentationInterval := IntervalDefault;
  }

  // ---------------------------------------------------------------------------
  // Present argument overrides
  // ---------------------------------------------------------------------------

  /** A `RECT` of `LONG` coordinates. */
  datatype Rect = Rect(left: int32, top: int32, right: int32, bottom: int32)

  /** The four pointer arguments of `Present`; `None` is a null pointer. The
      window handle and the dirty region are opaque. */
  datatype PresentArgs = PresentArgs(sourceRect: Option<Rect>, destRect: Option<Rect>, destWindowOverride: Option<nat>, dirtyRegion: Option<nat>)

  /** All four arguments null: present the whole back buffer to the whole window. */
  const FullWindow := PresentArgs(None, None, None, None)

  /** The arguments forwarded to the real `Present`, and whether the overlay was drawn first. */
  datatype PresentCall = PresentCall(args: PresentArgs, overlayDrawn: bool)

  /** The source rectangle of the movie player's small blit: positive size, and
      at most 800 wide or at most 600 high. The differences are `LONG`
      subtractions and wrap around. */
  predicate IsSmallSourceRect(r: Rect)
  {
    var w := Wrap32(r.right as int - r.left as int);
    var h := Wrap32(r.bottom as int - r.top as int);
    w > 0 && h > 0 && (w <= 800 || h <= 600)
  }

  /** `m_IDirect3DDevice8::Present`: with the movie hook enabled and the overlay
      countdown running, the overlay is drawn when the back buffer could be
      obtained, and the arguments are nulled only if full-window presents are forced. */
  function DevicePresent(hookEnabled: bool, activeFrames: uint32, forceFullWindowPresent: bool, backBufferOk: bool, args: PresentArgs)
    : (c: PresentCall)
    ensures c.overlayDrawn <==> hookEnabled && activeFrames > 0 && backBufferOk
    ensures c.args == FullWindow || c.args == args
    ensures hookEnabled && activeFrames > 0 && forceFullWindowPresent ==> c.args == FullWindow
    ensures !(hookEnabled && activeFrames > 0 && forceFullWindowPresent) ==> c.args == args
  {
    if hookEnabled && activeFrames > 0 then
      PresentCall(if forceFullWindowPresent then FullWindow else args, backBufferOk)
    else
      PresentCall(args, false)
  }

  /** `m_IDirect3DSwapChain8::Present`: while the overlay countdown runs the
      overlay is drawn and the whole window is presented; when it is idle,
      a small source rectangle is replaced by a full-window present. */
  function SwapChainPresent(activeFrames: uint32, backBufferOk: bool, args: PresentArgs): (c: PresentCall)
    ensures c.overlayDrawn <==> activeFrames > 0 && backBufferOk
    ensures c.args == FullWindow || c.args == args
    ensures activeFrames > 0 ==> c.args == FullWindow
    ensures c.args.sourceRect.Some? ==> !IsSmallSourceRect(c.args.sourceRect.value)
    ensures c.args != args ==> activeFrames > 0 || (args.sourceRect.Some? && IsSmallSourceRect(args.sourceRect.value))
  {
    if activeFrames > 0 then PresentCall(FullWindow, backBufferOk)
    else if args.sourceRect.Some? && IsSmallSourceRect(args.sourceRect.value) then PresentCall(FullWindow, false)
    else PresentCall(args, false)
  }

  /** The device path is the stricter of the two: whenever it forces a
      full-window present, the swap-chain path with the same countdown does too. */
  lemma DeviceOverrideImpliesSwapChainOverride(hookEnabled: bool, activeFrames: uint32, force: bool, backBufferOk: bool, args: PresentArgs)
    requires DevicePresent(hookEnabled, activeFrames, force, backBufferOk, args).args != args
    ensures SwapChainPresent(activeFrames, backBufferOk, args).args == FullWindow
  {
  }

  /** The width and height are 32-bit differences: a rectangle spanning more
      than 2^31 units wraps to a negative width and is forwarded unchanged. */
  lemma HugeRectWrapsAndIsKept()
    ensures !IsSmallSourceRect(Rect(-0x8000_0000, 0, 1, 100))
    ensures SwapChainPresent(0, true, PresentArgs(Some(Rect(-0x8000_0000, 0, 1, 100)), None, None, None)).args.sourceRect.Some?
  {
    assert Wrap32(0x8000_0001) as int == -0x7FFF_FFFF;
  }
}
