/** The [FMV] and [MOVIE_SIZE] settings read at process attach, turned into
    the runtime flags of the movie overlay. The profile reads themselves are
    inputs: each is the `UINT` that `GetPrivateProfileIntA` returned, which is
    the key's default when the key is missing. */
module FmvConfig {
  import opened Common

  datatype ProfileInts = ProfileInts(
    hook: uint32,               // [FMV] Hook
    stretch: uint32,            // [FMV] Stretch
    keepAspect: uint32,         // [FMV] KeepAspect
    uploadEveryN: uint32,       // [FMV] UploadEveryN
    movieWidth: uint32,         // [MOVIE_SIZE] Width
    movieHeight: uint32,        // [MOVIE_SIZE] Height
    offsetX: uint32,            // [MOVIE_SIZE] OffsetX
    offsetY: uint32,            // [MOVIE_SIZE] OffsetY
    movieSizeStretch: uint32)   // [MOVIE_SIZE] Stretch

  datatype FmvSettings = FmvSettings(
    hookEnabled: bool,
    movieStretch: bool,
    keepAspect: bool,
    uploadEveryN: int32,
    movieWidth: uint32,
    movieHeight: uint32,
    movieOffsetX: int32,
    movieOffsetY: int32)

  /** The upload throttle is raised to 1 when configured below 1. */
  function SanitizeUploadEveryN(n: int32): (r: int32)
    ensures r >= 1
    ensures n >= 1 ==> r == n
    ensures n < 1 ==> r == 1
  {
    if n < 1 then 1 else n
  }

  /** The runtime flags: booleans are "value is non-zero", the throttle is the
      signed value clamped to at least 1, stretching is on if either section
      asks for it, offsets are the signed values. */
  function LoadFmvSettings(ini: ProfileInts): (s: FmvSettings)
    ensures s.hookEnabled <==> ini.hook != 0
    ensures s.keepAspect <==> ini.keepAspect != 0
    ensures s.movieStretch <==> ini.stretch != 0 || ini.movieSizeStretch != 0
    ensures s.uploadEveryN >= 1
    ensures s.movieWidth == ini.movieWidth && s.movieHeight == ini.movieHeight
    ensures s.movieOffsetX as int == ini.offsetX as int || s.movieOffsetX as int == ini.offsetX as int - TwoTo32
    ensures s.movieOffsetY as int == ini.offsetY as int || s.movieOffsetY as int == ini.offsetY as int - TwoTo32
  {
    FmvSettings(
      ini.hook != 0,
      ini.stretch != 0 || ini.movieSizeStretch != 0,
      ini.keepAspect != 0,
      SanitizeUploadEveryN(ToInt32(ini.uploadEveryN)),
      ini.movieWidth,
      ini.movieHeight,
      ToInt32(ini.offsetX),
      ToInt32(ini.offsetY))
  }

  /** The throttle is taken as configured when it is a positive `int`; zero,
      or a negative number in the file (read back as a `UINT` of 2^31 or more),
      becomes 1. */
  lemma UploadEveryNFromProfile(ini: ProfileInts)
    ensures 1 <= ini.uploadEveryN as int < TwoTo31 ==> LoadFmvSettings(ini).uploadEveryN as int == ini.uploadEveryN as int
    ensures ini.uploadEveryN == 0 || ini.uploadEveryN as int >= TwoTo31 ==> LoadFmvSettings(ini).uploadEveryN == 1
  {
  }
}
