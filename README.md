# Spider-Man (2002) PC fix: patching engine and decision rules in Dafny

The fix is a proxy `d3d8.dll`. When the process attaches, it patches the game
executable in memory:

- It rewrites the hard-coded 640×480 resolution records.
- It rewrites the field-of-view constant.
- It replaces one call instruction with NOPs.

While the game runs, it adjusts the presentation parameters of the Direct3D 8
device and the arguments of the `Present` calls. It also clears the movie
overlay state on device reset and keeps a bounded list of frame timestamps
for the FPS counter.

This project models those parts of `source/dllmain.cpp`:

- `common.dfy` (`Common`): the 32-bit integer and byte types of the target
  (32-bit MSVC, where `int`, `LONG`, `DWORD`, `UINT` and `size_t` are all
  32 bits wide). It also holds the explicit wrap-around and truncation
  conversions, and little-endian word decoding.
- `hex_edits.dfy` (`HexEdits`): the search patterns and the record builders
  `CreateHexEdit1`, `CreateHexEdit2` and `CreateHexEditFromFOV`. These are pure
  functions with byte-level contracts and a decode round trip.
- `hex_patch.dfy` (`HexPatch`): the search-and-patch engine, covering
  `PerformHexEdit`, `PerformHexEdit3`, `PerformHexEdit7` and their three
  drivers.
  - The module image is an `array<byte>`. The scan is a `while` loop,
    proved against the recursive specification `FirstMatch`. The write
    changes the array in place, proved against `Overwrite`.
  - `AttemptPatch` is the specification of one search-and-patch call, with
    all of its exits; `AttemptPatchContract` states what it promises. Each
    method's `ensures` ties the new array and the returned outcome to it.
- `display.dfy` (`Display`): the forced full-screen refresh rate, the parameter
  writes of forced windowed mode, and the argument overrides of
  `m_IDirect3DDevice8::Present` and `m_IDirect3DSwapChain8::Present`.
- `device_state.dfy` (`DeviceState`): the overlay globals as a class. It
  covers the clearing done by `m_IDirect3DDevice8::Reset`, and the parameter
  rules that `Reset` and `m_IDirect3D8::CreateDevice` both apply.
- `fmv_config.dfy` (`FmvConfig`): how the [FMV] and [MOVIE_SIZE] profile
  integers become the overlay's runtime flags.
- `fps_counter.dfy` (`FpsCounter`): the sample list of `ShowFPS`, which holds
  at most 50 entries.

Operating-system results are inputs to the model:

- `OsWrite(protectOk, writeOk, wrote)` stands for the outcomes of
  `VirtualProtect` and `WriteProcessMemory`.
- The module size, the INI integers, the enumerated refresh rates and the
  success of `GetBackBuffer` are parameters.

Details of the code the model keeps:

- `Reset` clears the texture size only when a texture exists. A size left
  over without a texture survives. Under the class invariant (no texture
  means a 0×0 size), the result is the fully cleared state.
- The three scan loops run over the start indices below `moduleSize` minus
  a length, as written. `PerformHexEdit` and `PerformHexEdit7` subtract the
  pattern length, `PerformHexEdit3` the replacement length. The last index
  at which the pattern fits is therefore never tried (see Findings).
- `PerformHexEdits` and `PerformHexEdits7` take the module size from the
  executable's size on disk, passed as the parameter `moduleSize`.
  `PerformHexEdits3` takes it from `SizeOfImage`, so it uses the length of
  the whole image array as its module size.

## Model

| member | source | states |
|---|---|---|
| Common.LowHalfWord | source/dllmain.cpp:173-176 | `x & 0xFF` together with `(x >> 8) & 0xFF` make up x modulo 65536, for negative x as well (arithmetic shift) |
| HexEdits.DimensionBytes | source/dllmain.cpp:173-177 | the eight leading bytes decode to two little-endian words equal to width and height modulo 2^16 |
| HexEdits.CreateHexEdit1 | source/dllmain.cpp:170-179 | a 12-byte record with the given offset whose words read back as width mod 2^16, height mod 2^16 and 16 |
| HexEdits.CreateHexEdit2 | source/dllmain.cpp:181-190 | a 16-byte record with the given offset whose words read back as width mod 2^16, height mod 2^16, 800 and 600 |
| HexEdits.CreateHexEditFromFOV | source/dllmain.cpp:98-109 | offset 0 always; a 4-byte edit exactly for indices 1..4, empty otherwise; each valid edit zeroes the low half and encodes a larger float than the searched constant |
| HexEdits.WordsDetermineBytes | source/dllmain.cpp:177 | equal decoded little-endian words mean equal 4-byte slices (the encoding is injective) |
| HexEdits.ResolutionRoundTrip | source/dllmain.cpp:170-190 | any width and height in 0..65535 are read back unchanged from both records |
| HexEdits.EditsDifferOnlyInDimensionBytes | source/dllmain.cpp:162-190 | both records agree with their search patterns everywhere except bytes 0, 1, 4 and 5 |
| HexEdits.DimensionBytesDefaultIff | source/dllmain.cpp:162-177 | the width and height bytes equal the 640, 480 words of the patterns if and only if the resolution is 640×480 modulo 2^16 |
| HexEdits.Edit1IsPatternIff | source/dllmain.cpp:162-179 | the 12-byte record equals its pattern if and only if the resolution is 640×480 modulo 2^16 |
| HexEdits.Edit2IsPatternIff | source/dllmain.cpp:163-190 | the 16-byte record equals its pattern if and only if the resolution is 640×480 modulo 2^16 |
| HexEdits.FovWordsIncrease | source/dllmain.cpp:101-104 | a larger FOV index writes a larger constant |
| HexPatch.ScanBound | source/dllmain.cpp:193 | the corrected bound: no candidate if the image is shorter than the pattern; otherwise the last candidate is the one whose comparison ends exactly at moduleSize |
| HexPatch.AsWrittenSkipsLastCandidate | source/dllmain.cpp:193 | the loop bound as written is one less than the number of start indices at which the pattern fits |
| HexPatch.AsWrittenUnderflows | source/dllmain.cpp:193 | as written, an image shorter than the pattern wraps the bound to 2^32 − (pattern − size), beyond the image |
| HexPatch.LoopBound | source/dllmain.cpp:193 | the number of start indices the loops scan (also at lines 112 and 257): `moduleSize - len`, so that the last one scanned plus `len` is one short of `moduleSize`; none when the module is shorter than `len` |
| HexPatch.LoopBoundIsAsWritten | source/dllmain.cpp:193 | without wrap-around, the scanned range is exactly the unsigned bound as written |
| HexPatch.AsWrittenMissesWholeImageMatch | source/dllmain.cpp:192-213 | an image that is exactly the 12-byte pattern is reported NotFound and left unpatched by the code as written; the corrected bound applies the patch at 0 |
| HexPatch.FirstMatchShorterRange | source/dllmain.cpp:193-194 | scanning a shorter range finds the same first match when it lies inside that range, and nothing otherwise |
| HexPatch.AttemptPatchSameScan | source/dllmain.cpp:192-213 | the outcome and the image depend on the scanned range only through its first match; with no match, NotFound and the image unchanged |
| HexPatch.BoundsAgreeExceptLastCandidate | source/dllmain.cpp:192-213 | the code as written and the corrected scan give the same outcome and image, except when the corrected first match is the last start index `moduleSize` minus the pattern length; there the code reports NotFound and leaves the image unchanged |
| HexPatch.FirstMatch | source/dllmain.cpp:193-194 | the result is a matching index in range with no match before it, and None exactly when no index in range matches |
| HexPatch.Overwrite | source/dllmain.cpp:121 | the copy puts the new bytes at the window and leaves every other byte and the length unchanged |
| HexPatch.AttemptPatch | source/dllmain.cpp:193-212 | one search-and-patch attempt over a given range of start indices; the image length is kept. Everything else it promises is stated by `AttemptPatchContract` |
| HexPatch.AttemptPatchContract | source/dllmain.cpp:192-213 | NotFound iff no start index below the bound matches; otherwise the first match, which lies below the bound. The image is unchanged on NotFound and ProtectFailed. Applied iff protection and a full write succeed, with exactly the window changed. A failed write leaves only the prefix that was written, and there is no second attempt |
| HexPatch.AttemptPatchSearch | source/dllmain.cpp:193-199 | the outcome is NotFound exactly when `FirstMatch` finds nothing, and otherwise carries the first match. ProtectFailed and Applied hold exactly when the protection change fails, or it and a full write succeed |
| HexPatch.AttemptPatchWrite | source/dllmain.cpp:196-212 | NotFound and ProtectFailed leave the image unchanged. WriteFailed and Applied leave the reported prefix of the edit written at the match plus offset. Applied means the whole edit was written |
| HexPatch.AttemptPatchFrame | source/dllmain.cpp:192-213 | whatever the outcome, only bytes inside the matched pattern can change |
| HexPatch.UntouchedWindowKept | source/dllmain.cpp:192-213 | bytes clear of the matched pattern keep their values, and all bytes do when nothing matched |
| HexPatch.LaterMatchesSurvive | source/dllmain.cpp:192-213 | an occurrence after the written window is still intact after the patch |
| HexPatch.FindFirstMatch | source/dllmain.cpp:193-194 | the in-place scan over the start indices below the given bound returns exactly `FirstMatch` over that range |
| HexPatch.WriteBytes | source/dllmain.cpp:201-202 | the array afterwards is `Overwrite` of the array before |
| HexPatch.PerformHexEdit | source/dllmain.cpp:192-213 | the outcome and the new image are exactly `AttemptPatch` of the old image over the start indices below `moduleSize` minus the pattern length |
| HexPatch.PerformHexEdit3 | source/dllmain.cpp:111-129 | exactly `AttemptPatch` over the start indices below `moduleSize` minus the replacement length, with a write that cannot fail (`memcpy`): never WriteFailed |
| HexPatch.ApplyEdits | source/dllmain.cpp:250-277 | the edits are applied in order, each scanning below `moduleSize` minus the pattern length, and the image length is kept; an edit that fails the protection change or the write ends the list |
| HexPatch.PerformHexEdit7 | source/dllmain.cpp:250-277 | the loop over the edit list leaves exactly `ApplyEdits` of the old image |
| HexPatch.MiscEditNopsFirstCall | source/dllmain.cpp:252-276 | With no call found, or a failed protection change, the image is unchanged. With success, the first `E8 7F 24 07 00` below `moduleSize - 5` becomes five NOPs. In every case nothing outside those five bytes changes. The NOPs never reach the last byte of the module |
| HexPatch.ResolutionAttempts | source/dllmain.cpp:245-246 | the 16-byte patch runs on the result of the 12-byte one whatever its outcome; both images keep the length |
| HexPatch.ResolutionPatched | source/dllmain.cpp:245-246 | the image after both resolution patches keeps the length |
| HexPatch.ResolutionRecordsLand | source/dllmain.cpp:245-246 | an applied 16-byte patch leaves `CreateHexEdit2`'s record at its match; an applied 12-byte patch followed by a second one that found nothing or failed to change the protection leaves `CreateHexEdit1`'s record at its match; every byte outside both matched windows is unchanged |
| HexPatch.FirstRecordSurvives | source/dllmain.cpp:245-246 | an applied 12-byte record is still in place after the second patch whenever that one found nothing or matched a window that does not overlap the first, including the usual case of both patches applied |
| HexPatch.PerformHexEdits | source/dllmain.cpp:215-247 | a zero module size, width or height leaves the image unchanged; otherwise the image becomes `ResolutionPatched` |
| HexPatch.PerformHexEdits3 | source/dllmain.cpp:131-159 | an index outside 1..4 (including 0) leaves the image unchanged; otherwise one FOV patch, scanning below `SizeOfImage - 4` |
| HexPatch.PerformHexEdits7 | source/dllmain.cpp:280-297 | a zero module size leaves the image unchanged; otherwise `ApplyEdits` of the misc list |
| HexPatch.ResolutionEditsFit | source/dllmain.cpp:162-190 | both generated records lie inside their matched patterns, so the patch never writes outside the match |
| Display.LowestRate | source/dllmain.cpp:1028-1030 | an enumerated rate no larger than any other (`front()` of the sorted list) |
| Display.HighestRate | source/dllmain.cpp:1028-1031 | an enumerated rate no smaller than any other (`back()` of the sorted list) |
| Display.SortedListEnds | source/dllmain.cpp:1028-1030 | the loop returns the lowest and the highest rate of the list |
| Display.ChooseRefreshRate | source/dllmain.cpp:1030-1033 | the requested rate or the highest one; within [lowest, highest]; a non-negative request is kept if and only if it is inside that range; a negative request always gives the highest rate |
| Display.ForceFullScreenRefreshRateInHz | source/dllmain.cpp:1012-1035 | a windowed device or an empty list keeps its rate; otherwise the choice above, stored as `UINT`. The resulting rate is the value of `RefreshRateAfter` |
| Display.ChosenRateInEnumeratedRange | source/dllmain.cpp:1012-1035 | whenever the highest enumerated rate is not negative, the rate `RefreshRateAfter` stores on a full-screen device lies in [min, max] of the enumerated list, and equals the request exactly when the request is inside it |
| Display.UnlistedRateInsideRangeIsKept | source/dllmain.cpp:1030-1033 | only the range is checked: 65 Hz is kept although only 60 and 75 are listed |
| Display.ForceWindowedParameters | source/dllmain.cpp:984-986 | windowed set, refresh rate and presentation interval set to their defaults |
| Display.DevicePresent | source/dllmain.cpp:889-912 | the overlay is drawn iff the hook is on, the countdown is non-zero and the back buffer was obtained; the arguments are nulled iff hook on, countdown non-zero and full-window presents forced, and are otherwise forwarded unchanged |
| Display.SwapChainPresent | source/dllmain.cpp:936-960 | The overlay is drawn iff the countdown is non-zero and the back buffer was obtained. A running countdown nulls all four arguments. A forwarded source rectangle is never a small one (`IsSmallSourceRect`, the `LONG` width and height test at lines 952-954). Arguments change only for a running countdown or a small source rectangle |
| Display.DeviceOverrideImpliesSwapChainOverride | source/dllmain.cpp:889-960 | whenever the device path nulls the arguments, the swap-chain path in the same state does too |
| Display.HugeRectWrapsAndIsKept | source/dllmain.cpp:950-954 | the `LONG` width wraps: a rectangle 2^31+1 wide has a negative width and is forwarded |
| DeviceState.OverlayGlobals.ApplyPresentParameters | source/dllmain.cpp:1076-1080 | forced windowed mode, then the target size equals the back buffer, then the forced rate when one is configured; forced windowed mode leaves the default rate |
| DeviceState.OverlayGlobals.CreateDevice | source/dllmain.cpp:1043-1056 | the same parameter rules: the target size, forced windowed mode, the rate formula, and the presentation interval reset to the default exactly when windowed mode is forced; the overlay state untouched |
| DeviceState.OverlayGlobals.ClearOverlay | source/dllmain.cpp:1067-1074 | no texture, no frame, not dirty, countdown 0, no lock and no hint, lock size 0×0, all three crop boxes empty; the texture size is cleared only together with the texture and kept otherwise |
| DeviceState.OverlayGlobals.Reset | source/dllmain.cpp:1064-1080 | the overlay is idle, and from a state that keeps the invariant (no texture means size 0×0) fully cleared with a 0×0 texture size; then the parameter rules, so the target size is the new back buffer, forced windowed mode leaves the default rate, and the presentation interval is reset to the default exactly when windowed mode is forced |
| FmvConfig.SanitizeUploadEveryN | source/dllmain.cpp:1165 | the throttle is at least 1, kept when positive, 1 otherwise |
| FmvConfig.LoadFmvSettings | source/dllmain.cpp:1154-1185 | Hook and keep-aspect are "value non-zero". Stretch is on iff either section's Stretch is non-zero. The throttle is at least 1. Width and height are passed through. The offsets are the signed reading of the value |
| FmvConfig.UploadEveryNFromProfile | source/dllmain.cpp:1160-1165 | a positive `int` throttle is kept; 0, or a negative value in the file (2^31 or more as `UINT`), becomes 1 |
| FpsCounter.Newest | source/dllmain.cpp:806-807 | the last min(n, 50) elements, in order |
| FpsCounter.PushSample | source/dllmain.cpp:806-807 | pop-front-when-full then push-back equals the newest 50 of the list with the sample appended |
| FpsCounter.RecordAll | source/dllmain.cpp:806-807 | any number of updates keeps the list at most 50 long |
| FpsCounter.RecordAllKeepsNewest | source/dllmain.cpp:802-807 | after any sequence of frames the list is exactly the newest 50 readings of all frames recorded |
| FpsCounter.FpsSamples.constructor | source/dllmain.cpp:802 | the static list starts empty |
| FpsCounter.FpsSamples.Record | source/dllmain.cpp:806-807 | the new list is `PushSample` of the old one with the counter truncated to `int`; the bound of 50 is kept |

## Left out

- The movie overlay pipeline (`BinkOverlay_DrawToSurface`, the capture
  hooks, crop detection, the stabiliser and texture upload) is only called
  from this file. It is defined elsewhere and is not part of this model.
  The overlay globals appear only as `Reset` clears them.
- Import-table and loader hooking, window-procedure and focus hooks: these
  are PE structure walking and Win32 calls.
- `FrameLimiter` pacing: the FPS value computed from the samples, and the
  font drawing. These are floating point, `Sleep` and D3DX calls. Only the
  sample list is modelled.
- `ForceWindowed`: only its three parameter writes are modelled. The
  window placement is float centring and window-style calls.
- File size, module information, INI reads and log output are I/O. Their
  results are parameters.
- D3D forwarding (`GetBackBuffer`, `Release`, the proxied calls, exported
  forwards), the font releases in `CreateDevice` and `Reset`, and `CharSwap`
  are foreign COM and library calls.
- The `kHard*` constants for crop detection, full-window presents and debug
  are defined in a file that is not part of this model. `DevicePresent`
  takes `forceFullWindowPresent` as a parameter.
- The overlay globals are declared in a file that is not part of this model.
  Their types are inferred from how `Reset`, `Present` and `CreateDevice`
  use them.
- Display.SortedListEnds: `std::sort` is not modelled as a sort. Only the
  two ends of the sorted list are ever read, and the method returns those.
- HexPatch.PerformHexEdits: requires `moduleSize <= image.Length`. The code
  never compares the size of the file on disk with the mapped image. A failed
  `GetFileSize` returns 0xFFFFFFFF, which passes the `== 0` test at
  source/dllmain.cpp:230. The model excludes such a size.
- HexPatch.PerformHexEdits7: requires `moduleSize <= image.Length`, for the
  same reason. The file size is tested only against 0, at
  source/dllmain.cpp:294.
- HexPatch.PerformHexEdit3: requires the replacement to lie inside the
  pattern, which holds for every FOV edit. The code does not check it.
- HexPatch.PerformHexEdit: requires the replacement to lie inside the
  pattern, and the OS never to report more bytes than requested. This holds
  for both resolution records (`HexPatch.ResolutionEditsFit`). The code
  itself does not check it.
- HexPatch.LoopBound: when the module is shorter than the subtracted
  length, the unsigned bound as written wraps around and `memcmp` reads past
  the module. The model scans nothing in that case, as the corrected bound
  does. `HexPatch.AsWrittenUnderflows` states the wrapped value.
- HexPatch.FindFirstMatch: a comparison is made only where the whole
  pattern lies inside the image array. `memcmp` beyond the mapped image is
  undefined, so the model treats such a start index as not matching.
- FmvConfig.LoadFmvSettings: `gCfgFmvUploadEveryN`, `gCfgMovieOffsetX` and
  `gCfgMovieOffsetY` are declared in a file that is not part of this model.
  They are taken as signed 32-bit `int`, as the `%d` in their log line at
  source/dllmain.cpp:1191-1193 suggests.
- The OS write is modelled as writing a prefix of the requested bytes when
  it fails. What a partial `WriteProcessMemory` leaves is not specified
  beyond the byte count it reports.

## Findings

| source | as written | input that shows it | evidently intended | confidence | as-written member | corrected member |
|---|---|---|---|---|---|---|
| source/dllmain.cpp:193 | `i < moduleSize - pattern.size()` (also at lines 112 and 257) stops one index early, so a pattern that ends exactly at the last byte of the scanned range is never found | a 12-byte image equal to the 12-byte resolution pattern: the bound is 0, nothing is scanned (`HexPatch.AsWrittenMissesWholeImageMatch`) | `i <= moduleSize - pattern.size()`, scanning every start index where the pattern fits | not executed; follows from the loop condition | HexPatch.BoundsAgreeExceptLastCandidate | HexPatch.ScanBound |
| source/dllmain.cpp:193 | the subtraction is unsigned 32-bit (`DWORD` minus `size_t`), so a module shorter than the pattern wraps the bound to nearly 2^32 and `memcmp` reads past the image | moduleSize 3 with a 4-byte pattern: the bound is 2^32 − 1 | no scan at all when the module is shorter than the pattern | not executed; follows from the unsigned arithmetic of the 32-bit target | HexPatch.AsWrittenUnderflows | HexPatch.ScanBound |
