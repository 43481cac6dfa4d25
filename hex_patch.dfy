/** The search-and-patch engine: find the first occurrence of a byte pattern
    in the first `moduleSize` bytes of the module image and overwrite the
    bytes at `match + offset`, once. The page-protection change and the
    process-memory write are operating-system calls; their outcome is an
    input (`OsWrite`). */
module HexPatch {
  import opened Common
  import opened HexEdits

  /** What `VirtualProtect` and `WriteProcessMemory` report for one write:
      whether the protection change succeeded, whether the write call
      succeeded, and how many bytes it actually transferred. */
  datatype OsWrite = OsWrite(protectOk: bool, writeOk: bool, wrote: nat)

  /** The outcome each patch function logs, with the match index when there was one. */
  datatype PatchOutcome = NotFound | ProtectFailed(at: nat) | WriteFailed(at: nat) | Applied(at: nat)
  {
    /** Outcomes after which `PerformHexEdit7` abandons its remaining edits. */
    predicate Aborts() { ProtectFailed? || WriteFailed? }

    /** Index `j` lies in the `len` bytes starting at the match, if there was one. */
    predicate InWindow(len: nat, j: int) { !NotFound? && at <= j < at + len }
  }

  datatype PatchResult = PatchResult(outcome: PatchOutcome, image: seq<byte>)

  /** The pattern occurs in `s` starting at index `i` (`memcmp(s + i, pat, |pat|) == 0`). */
  predicate MatchesAt(s: seq<byte>, pat: seq<byte>, i: nat)
  {
    i + |pat| <= |s| && s[i..i + |pat|] == pat
  }

  // ---------------------------------------------------------------------------
  // How far the scan goes
  // ---------------------------------------------------------------------------

  /** The loop bound as written, `i < moduleSize - pattern.size()`, computed
      in unsigned 32-bit arithmetic. */
  function ScanBoundAsWritten(moduleSize: nat, patLen: nat): nat
    requires moduleSize < TwoTo32 && patLen < TwoTo32
  {
    (moduleSize - patLen) % TwoTo32
  }

  /** The number of start indices the loops scan: `moduleSize - len`, the
      bound as written, when the module is at least `len` long, and none when
      it is shorter (where the bound as written wraps around instead). */
  function LoopBound(moduleSize: nat, len: nat): (n: nat)
    ensures len <= moduleSize ==> n + len == moduleSize
    ensures moduleSize < len ==> n == 0
  {
    if len <= moduleSize then moduleSize - len else 0
  }

  /** Without wrap-around the scanned range is exactly the bound as written. */
  lemma LoopBoundIsAsWritten(moduleSize: nat, len: nat)
    requires len <= moduleSize < TwoTo32
    ensures LoopBound(moduleSize, len) == ScanBoundAsWritten(moduleSize, len)
  {
  }

  /** The corrected loop bound: every start index whose comparison stays
      inside the first `moduleSize` bytes is scanned, and no other. */
  function ScanBound(moduleSize: nat, patLen: nat): (n: nat)
    ensures n == 0 <==> moduleSize < patLen
    ensures n > 0 ==> (n - 1) + patLen == moduleSize
  {
    if patLen <= moduleSize then moduleSize - patLen + 1 else 0
  }

  /** As written, the scan skips the last start index at which the pattern fits. */
  lemma AsWrittenSkipsLastCandidate(moduleSize: nat, patLen: nat)
    requires patLen <= moduleSize < TwoTo32
    ensures ScanBoundAsWritten(moduleSize, patLen) + 1 == ScanBound(moduleSize, patLen)
  {
  }

  /** As written, an image shorter than the pattern makes the bound wrap
      around, so the scan compares bytes far beyond the image. */
  lemma AsWrittenUnderflows(moduleSize: nat, patLen: nat)
    requires moduleSize < patLen < TwoTo32
    ensures ScanBoundAsWritten(moduleSize, patLen) == TwoTo32 - (patLen - moduleSize)
    ensures ScanBoundAsWritten(moduleSize, patLen) > moduleSize
    ensures ScanBound(moduleSize, patLen) == 0
  {
  }

  // ---------------------------------------------------------------------------
  // The specification of the search and of the write
  // ---------------------------------------------------------------------------

  /** The first start index in `[from, bound)` at which the pattern occurs. */
  function FirstMatch(s: seq<byte>, pat: seq<byte>, from: nat, bound: nat): (r: Option<nat>)
    decreases bound - from
    ensures r.Some? ==> from <= r.value < bound && MatchesAt(s, pat, r.value)
    ensures r.Some? ==> forall j: nat :: from <= j < r.value ==> !MatchesAt(s, pat, j)
    ensures r.None? <==> forall j: nat :: from <= j < bound ==> !MatchesAt(s, pat, j)
  {
    if from >= bound then None
    else if MatchesAt(s, pat, from) then Some(from)
    else FirstMatch(s, pat, from + 1, bound)
  }

  /** Scanning a shorter range finds the same first match when it lies inside
      that range, and nothing otherwise. */
  lemma FirstMatchShorterRange(s: seq<byte>, pat: seq<byte>, short: nat, long: nat)
    requires short <= long
    ensures var r := FirstMatch(s, pat, 0, long);
      FirstMatch(s, pat, 0, short) == if r.Some? && r.value < short then r else None
  {
    var r, q := FirstMatch(s, pat, 0, long), FirstMatch(s, pat, 0, short);
    if q.Some? {
      assert r.Some? && r.value <= q.value;
    }
  }

  /** The image with `m` copied over the bytes starting at `at` (`memcpy`). */
  function Overwrite(s: seq<byte>, at: nat, m: seq<byte>): (r: seq<byte>)
    requires at + |m| <= |s|
    ensures |r| == |s|
    ensures r[at..at + |m|] == m
    ensures forall j :: 0 <= j < |s| && !(at <= j < at + |m|) ==> r[j] == s[j]
  {
    s[..at] + m + s[at + |m|..]
  }

  /** An edit whose bytes lie inside the matched pattern, and an OS report
      that never claims more bytes than were asked for. */
  predicate WriteFits(pat: seq<byte>, modified: seq<byte>, offset: nat, os: OsWrite)
  {
    offset + |modified| <= |pat| && os.wrote <= |modified|
  }

  /** One search-and-patch attempt over the start indices `[0, bound)` of `s`:
      find the first match, change the protection, write once, stop. What it
      promises is stated by `AttemptPatchContract`. */
  function AttemptPatch(s: seq<byte>, bound: nat, pat: seq<byte>, modified: seq<byte>, offset: nat, os: OsWrite): (r: PatchResult)
    requires WriteFits(pat, modified, offset, os)
    ensures |r.image| == |s|
  {
    match FirstMatch(s, pat, 0, bound)
    case None => PatchResult(NotFound, s)
    case Some(i) =>
      if !os.protectOk then PatchResult(ProtectFailed(i), s)
      else
        var written := Overwrite(s, i + offset, modified[..os.wrote]);
        if !os.writeOk || os.wrote != |modified| then PatchResult(WriteFailed(i), written)
        else PatchResult(Applied(i), written)
  }

  /** The outcome of one attempt: not found exactly when no start index in
      `[0, bound)` matches, and otherwise the first match, which lies in that
      range. The image is untouched unless the protection change succeeded; it
      is patched exactly at the window when the write succeeded in full; and a
      failed write leaves only the bytes it reported. */
  lemma AttemptPatchContract(s: seq<byte>, bound: nat, pat: seq<byte>, modified: seq<byte>, offset: nat, os: OsWrite)
    requires WriteFits(pat, modified, offset, os)
    ensures var r := AttemptPatch(s, bound, pat, modified, offset, os);
      && (r.outcome.NotFound? <==> forall j: nat :: j < bound ==> !MatchesAt(s, pat, j))
      && (!r.outcome.NotFound? ==>
            && r.outcome.at < bound
            && MatchesAt(s, pat, r.outcome.at)
            && forall j: nat :: j < r.outcome.at ==> !MatchesAt(s, pat, j))
      && (r.outcome.NotFound? || r.outcome.ProtectFailed? ==> r.image == s)
      && (r.outcome.ProtectFailed? <==> !r.outcome.NotFound? && !os.protectOk)
      && (r.outcome.Applied? <==> !r.outcome.NotFound? && os.protectOk && os.writeOk && os.wrote == |modified|)
      && (r.outcome.Applied? ==>
            && r.image[r.outcome.at + offset..r.outcome.at + offset + |modified|] == modified
            && forall j :: 0 <= j < |s| && !(r.outcome.at + offset <= j < r.outcome.at + offset + |modified|) ==> r.image[j] == s[j])
      && (r.outcome.WriteFailed? ==> r.image == Overwrite(s, r.outcome.at + offset, modified[..os.wrote]))
  {
    AttemptPatchSearch(s, bound, pat, modified, offset, os);
    AttemptPatchWrite(s, bound, pat, modified, offset, os);
  }

  /** The search half of `AttemptPatchContract`: which outcome, and where. */
  lemma AttemptPatchSearch(s: seq<byte>, bound: nat, pat: seq<byte>, modified: seq<byte>, offset: nat, os: OsWrite)
    requires WriteFits(pat, modified, offset, os)
    ensures var o := AttemptPatch(s, bound, pat, modified, offset, os).outcome;
      && (o.NotFound? <==> FirstMatch(s, pat, 0, bound).None?)
      && (!o.NotFound? ==> FirstMatch(s, pat, 0, bound) == Some(o.at))
      && (o.ProtectFailed? <==> !o.NotFound? && !os.protectOk)
      && (o.Applied? <==> !o.NotFound? && os.protectOk && os.writeOk && os.wrote == |modified|)
  {
  }

  /** The write half of `AttemptPatchContract`: what becomes of the image. */
  lemma AttemptPatchWrite(s: seq<byte>, bound: nat, pat: seq<byte>, modified: seq<byte>, offset: nat, os: OsWrite)
    requires WriteFits(pat, modified, offset, os)
    ensures var r := AttemptPatch(s, bound, pat, modified, offset, os);
      && (r.outcome.NotFound? || r.outcome.ProtectFailed? ==> r.image == s)
      && (r.outcome.WriteFailed? || r.outcome.Applied? ==> r.image == Overwrite(s, r.outcome.at + offset, modified[..os.wrote]))
      && (r.outcome.Applied? ==> os.wrote == |modified| && modified[..os.wrote] == modified)
  {
    var r := AttemptPatch(s, bound, pat, modified, offset, os);
    if r.outcome.Applied? {
      assert modified[..os.wrote] == modified;
    }
  }

  /** Whatever the outcome, only the bytes of the window after the match can
      change: the image agrees with the original everywhere else. */
  lemma AttemptPatchFrame(s: seq<byte>, bound: nat, pat: seq<byte>, modified: seq<byte>, offset: nat, os: OsWrite)
    requires WriteFits(pat, modified, offset, os)
    ensures var r := AttemptPatch(s, bound, pat, modified, offset, os);
      forall j :: 0 <= j < |s| && !r.outcome.InWindow(|pat|, j) ==> r.image[j] == s[j]
  {
    var r := AttemptPatch(s, bound, pat, modified, offset, os);
    AttemptPatchContract(s, bound, pat, modified, offset, os);
    if r.outcome.WriteFailed? || r.outcome.Applied? {
      var at := r.outcome.at + offset;
      var m := modified[..os.wrote];
      assert r.image == Overwrite(s, at, m);
      forall j | 0 <= j < |s| && !r.outcome.InWindow(|pat|, j) ensures r.image[j] == s[j] {
        assert !(at <= j < at + |m|);
      }
    }
  }

  /** The code as written against the corrected scan: the two agree unless the
      corrected first match is the last start index, `moduleSize - |pat|`. There
      the code finds nothing and leaves the image unchanged. */
  lemma BoundsAgreeExceptLastCandidate(s: seq<byte>, moduleSize: nat, pat: seq<byte>, modified: seq<byte>, offset: nat, os: OsWrite)
    requires |pat| <= moduleSize && WriteFits(pat, modified, offset, os)
    ensures var asWritten := AttemptPatch(s, LoopBound(moduleSize, |pat|), pat, modified, offset, os);
      var corrected := AttemptPatch(s, ScanBound(moduleSize, |pat|), pat, modified, offset, os);
      && (corrected.outcome.NotFound? || corrected.outcome.at != moduleSize - |pat| ==> asWritten == corrected)
      && (!corrected.outcome.NotFound? && corrected.outcome.at == moduleSize - |pat| ==> asWritten == PatchResult(NotFound, s))
  {
    var short, long := LoopBound(moduleSize, |pat|), ScanBound(moduleSize, |pat|);
    assert short + 1 == long;
    FirstMatchShorterRange(s, pat, short, long);
    var r := FirstMatch(s, pat, 0, long);
    if r.Some? && r.value == short {
      AttemptPatchSameScan(s, short, 0, pat, modified, offset, os);
    } else {
      AttemptPatchSameScan(s, short, long, pat, modified, offset, os);
    }
  }

  /** Two scans with the same first match patch alike; with no match at
      all, the attempt finds nothing and leaves the image as it was. */
  lemma AttemptPatchSameScan(s: seq<byte>, b1: nat, b2: nat, pat: seq<byte>, modified: seq<byte>, offset: nat, os: OsWrite)
    requires WriteFits(pat, modified, offset, os)
    requires FirstMatch(s, pat, 0, b1) == FirstMatch(s, pat, 0, b2)
    ensures AttemptPatch(s, b1, pat, modified, offset, os) == AttemptPatch(s, b2, pat, modified, offset, os)
    ensures b2 == 0 ==> AttemptPatch(s, b1, pat, modified, offset, os) == PatchResult(NotFound, s)
  {
  }

  /** A match that starts after the written window and does not overlap it
      is still there after the patch: later occurrences are not touched. */
  lemma LaterMatchesSurvive(s: seq<byte>, bound: nat, pat: seq<byte>, modified: seq<byte>, offset: nat, os: OsWrite, j: nat)
    requires WriteFits(pat, modified, offset, os)
    requires var r := AttemptPatch(s, bound, pat, modified, offset, os);
      !r.outcome.NotFound? && r.outcome.at + offset + |modified| <= j
    requires MatchesAt(s, pat, j)
    ensures MatchesAt(AttemptPatch(s, bound, pat, modified, offset, os).image, pat, j)
  {
    var r := AttemptPatch(s, bound, pat, modified, offset, os);
    AttemptPatchWrite(s, bound, pat, modified, offset, os);
    if r.outcome.WriteFailed? || r.outcome.Applied? {
      var at, m := r.outcome.at + offset, modified[..os.wrote];
      assert r.image == Overwrite(s, at, m);
      forall k | j <= k < j + |pat| ensures r.image[k] == s[k] {
        assert !(at <= k < at + |m|);
      }
      assert r.image[j..j + |pat|] == s[j..j + |pat|];
    }
  }

  // ---------------------------------------------------------------------------
  // The search loop and the write, in place on the module image
  // ---------------------------------------------------------------------------

  /** The `for (i = 0; i < bound; ++i) if (memcmp(...) == 0)` scan shared by
      the three patch functions. */
  method FindFirstMatch(image: array<byte>, bound: nat, pattern: seq<byte>) returns (found: Option<nat>)
    ensures found == FirstMatch(image[..], pattern, 0, bound)
  {
    var i: nat := 0;
    while i < bound
      invariant i <= bound
      invariant FirstMatch(image[..], pattern, 0, bound) == FirstMatch(image[..], pattern, i, bound)
    {
      if i + |pattern| <= image.Length && image[i..i + |pattern|] == pattern {
        assert MatchesAt(image[..], pattern, i) by {
          assert image[..][i..i + |pattern|] == image[i..i + |pattern|];
        }
        return Some(i);
      }
      assert !MatchesAt(image[..], pattern, i) by {
        if i + |pattern| <= image.Length {
          assert image[..][i..i + |pattern|] == image[i..i + |pattern|];
        }
      }
      i := i + 1;
    }
    return None;
  }

  /** The byte copy itself (`memcpy`, or the transfer `WriteProcessMemory` performs). */
  method WriteBytes(image: array<byte>, at: nat, m: seq<byte>)
    requires at + |m| <= image.Length
    modifies image
    ensures image[..] == Overwrite(old(image[..]), at, m)
  {
    var k := 0;
    while k < |m|
      invariant 0 <= k <= |m|
      invariant forall j :: 0 <= j < image.Length && !(at <= j < at + k) ==> image[j] == old(image[j])
      invariant forall j :: 0 <= j < k ==> image[at + j] == m[j]
    {
      image[at + k] := m[k];
      k := k + 1;
    }
    ghost var expected := Overwrite(old(image[..]), at, m);
    forall j | 0 <= j < image.Length ensures image[j] == expected[j] {
      if at <= j < at + |m| {
        assert image[at + (j - at)] == m[j - at];
        assert expected[at..at + |m|][j - at] == m[j - at];
      }
    }
    assert image[..] == expected;
  }

  /** `PerformHexEdit`: the resolution patch, written with `WriteProcessMemory`,
      scanning the start indices below `moduleSize - pattern.size()`. */
  method PerformHexEdit(image: array<byte>, moduleSize: nat, pattern: seq<byte>, edit: HexEdit, os: OsWrite) returns (outcome: PatchOutcome)
    requires moduleSize <= image.Length && WriteFits(pattern, edit.modified, edit.offset, os)
    modifies image
    ensures AttemptPatch(old(image[..]), LoopBound(moduleSize, |pattern|), pattern, edit.modified, edit.offset, os)
         == PatchResult(outcome, image[..])
  {
    var modified, offset := edit.modified, edit.offset;
    ghost var s := image[..];
    ghost var expected := AttemptPatch(s, LoopBound(moduleSize, |pattern|), pattern, modified, offset, os);
    var found := FindFirstMatch(image, LoopBound(moduleSize, |pattern|), pattern);
    if found.None? {
      assert expected == PatchResult(NotFound, s);
      return NotFound;
    }
    var i := found.value;
    if !os.protectOk {
      assert expected == PatchResult(ProtectFailed(i), s);
      return ProtectFailed(i);
    }
    WriteBytes(image, i + offset, modified[..os.wrote]);
    assert expected.image == image[..];
    if !os.writeOk || os.wrote != |modified| {
      return WriteFailed(i);
    }
    return Applied(i);
  }

  /** `PerformHexEdit3`: the FOV patch, written with `memcpy` once the
      protection change succeeded; its write cannot fail. Its loop is bounded
      by the length of the replacement, `moduleSize - modifiedEdit.size()`. */
  method PerformHexEdit3(image: array<byte>, moduleSize: nat, commonEdit: seq<byte>, modifiedEdit: seq<byte>, offset: nat, protectOk: bool)
    returns (outcome: PatchOutcome)
    requires moduleSize <= image.Length && offset + |modifiedEdit| <= |commonEdit|
    modifies image
    ensures !outcome.WriteFailed?
    ensures AttemptPatch(old(image[..]), LoopBound(moduleSize, |modifiedEdit|), commonEdit, modifiedEdit, offset,
                         OsWrite(protectOk, true, |modifiedEdit|))
         == PatchResult(outcome, image[..])
  {
    var found := FindFirstMatch(image, LoopBound(moduleSize, |modifiedEdit|), commonEdit);
    match found
    case None =>
      return NotFound;
    case Some(i) =>
      if !protectOk {
        return ProtectFailed(i);
      }
      WriteBytes(image, i + offset, modifiedEdit);
      assert modifiedEdit[..|modifiedEdit|] == modifiedEdit;
      return Applied(i);
  }

  // ---------------------------------------------------------------------------
  // PerformHexEdit7: a list of local edits, abandoned on the first OS failure
  // ---------------------------------------------------------------------------

  datatype LocalEdit = LocalEdit(pattern: seq<byte>, newValue: seq<byte>, offset: nat)

  /** The single miscellaneous edit: the 5-byte call `E8 7F 24 07 00` becomes five NOPs. */
  const CallPattern: seq<byte> := [0xE8, 0x7F, 0x24, 0x07, 0x00]
  const FiveNops: seq<byte> := [0x90, 0x90, 0x90, 0x90, 0x90]
  const MiscEdits: seq<LocalEdit> := [LocalEdit(CallPattern, FiveNops, 0)]

  /** One OS report per edit, each fitting its edit. */
  predicate EditsFit(edits: seq<LocalEdit>, os: seq<OsWrite>)
  {
    |os| == |edits| &&
    forall k :: 0 <= k < |edits| ==> WriteFits(edits[k].pattern, edits[k].newValue, edits[k].offset, os[k])
  }

  /** The image after the edits are tried in order, each scanning the start
      indices below `moduleSize - pattern.size()`: an edit whose pattern is
      missing or that was applied moves on to the next (`break`), a failed
      protection change or write ends the whole function (`return`). */
  function ApplyEdits(s: seq<byte>, moduleSize: nat, edits: seq<LocalEdit>, os: seq<OsWrite>): (r: seq<byte>)
    requires EditsFit(edits, os)
    decreases |edits|
    ensures |r| == |s|
  {
    if edits == [] then s
    else
      var step := AttemptPatch(s, LoopBound(moduleSize, |edits[0].pattern|), edits[0].pattern, edits[0].newValue, edits[0].offset, os[0]);
      if step.outcome.Aborts() then step.image
      else ApplyEdits(step.image, moduleSize, edits[1..], os[1..])
  }

  method PerformHexEdit7(image: array<byte>, moduleSize: nat, os: seq<OsWrite>)
    requires moduleSize <= image.Length && EditsFit(MiscEdits, os)
    modifies image
    ensures image[..] == ApplyEdits(old(image[..]), moduleSize, MiscEdits, os)
  {
    var edits := MiscEdits;
    var k := 0;
    while k < |edits|
      invariant 0 <= k <= |edits|
      invariant EditsFit(edits[k..], os[k..])
      invariant ApplyEdits(old(image[..]), moduleSize, edits, os) == ApplyEdits(image[..], moduleSize, edits[k..], os[k..])
    {
      var edit := edits[k];
      assert edits[k..][0] == edit && os[k..][0] == os[k];
      assert edits[k..][1..] == edits[k + 1..] && os[k..][1..] == os[k + 1..];
      var outcome := PerformHexEdit(image, moduleSize, edit.pattern, HexEdit(edit.newValue, edit.offset), os[k]);
      if outcome.Aborts() {
        return;
      }
      k := k + 1;
    }
  }

  /** What `PerformHexEdit7` does to the image, spelled out: with the first
      call below `moduleSize - 5` found and both OS calls succeeding, exactly
      those five bytes become NOPs; in every other case the image is unchanged
      outside those five bytes, and unchanged entirely when the call is not
      found or the protection change fails. The five bytes never include the
      last byte of the scanned module. */
  lemma MiscEditNopsFirstCall(s: seq<byte>, moduleSize: nat, os: seq<OsWrite>)
    requires EditsFit(MiscEdits, os)
    ensures var r := ApplyEdits(s, moduleSize, MiscEdits, os);
      match FirstMatch(s, CallPattern, 0, LoopBound(moduleSize, 5))
      case None => r == s
      case Some(i) =>
        && i + 5 < moduleSize
        && (!os[0].protectOk ==> r == s)
        && (os[0].protectOk && os[0].writeOk && os[0].wrote == 5 ==> r[i..i + 5] == FiveNops)
        && forall j :: 0 <= j < |s| && !(i <= j < i + 5) ==> r[j] == s[j]
  {
    var e := MiscEdits[0];
    assert |e.pattern| == 5 && |e.newValue| == 5 && e.offset == 0;
    var step := AttemptPatch(s, LoopBound(moduleSize, 5), e.pattern, e.newValue, e.offset, os[0]);
    assert MiscEdits[1..] == [] && os[1..] == [];
    assert ApplyEdits(s, moduleSize, MiscEdits, os) == step.image;
    match FirstMatch(s, CallPattern, 0, LoopBound(moduleSize, 5))
    case None =>
    case Some(i) =>
      assert step.outcome.at == i;
      if step.outcome.WriteFailed? {
        var w := os[0].wrote;
        assert step.image == Overwrite(s, i, e.newValue[..w]);
      }
  }

  // ---------------------------------------------------------------------------
  // The drivers: configuration decides which patches run
  // ---------------------------------------------------------------------------

  /** The two resolution attempts in order; the second searches the image the
      first left behind, whatever its outcome. */
  function ResolutionAttempts(s: seq<byte>, moduleSize: nat, width: int32, height: int32, os1: OsWrite, os2: OsWrite)
    : (r: (PatchResult, PatchResult))
    requires os1.wrote <= 12 && os2.wrote <= 16
    ensures |r.0.image| == |s| && |r.1.image| == |s|
  {
    var first := AttemptPatch(s, LoopBound(moduleSize, 12), ResolutionPattern1, CreateHexEdit1(width, height, 0).modified, 0, os1);
    var second := AttemptPatch(first.image, LoopBound(moduleSize, 16), ResolutionPattern2, CreateHexEdit2(width, height, 0).modified, 0, os2);
    (first, second)
  }

  /** The image after both resolution patches. */
  function ResolutionPatched(s: seq<byte>, moduleSize: nat, width: int32, height: int32, os1: OsWrite, os2: OsWrite): (r: seq<byte>)
    requires os1.wrote <= 12 && os2.wrote <= 16
    ensures |r| == |s|
  {
    ResolutionAttempts(s, moduleSize, width, height, os1, os2).1.image
  }

  /** Where the two resolution records end up. An applied 16-byte record is in
      place at its match. An applied 12-byte record survives when the second
      patch found nothing or failed to change the protection. Every byte
      outside the two matched windows is the original. */
  lemma ResolutionRecordsLand(s: seq<byte>, moduleSize: nat, width: int32, height: int32, os1: OsWrite, os2: OsWrite)
    requires os1.wrote <= 12 && os2.wrote <= 16
    ensures var (first, second) := ResolutionAttempts(s, moduleSize, width, height, os1, os2);
      var r := ResolutionPatched(s, moduleSize, width, height, os1, os2);
      && (second.outcome.Applied? ==>
            r[second.outcome.at..second.outcome.at + 16] == CreateHexEdit2(width, height, 0).modified)
      && (first.outcome.Applied? && (second.outcome.NotFound? || second.outcome.ProtectFailed?) ==>
            r[first.outcome.at..first.outcome.at + 12] == CreateHexEdit1(width, height, 0).modified)
      && forall j :: 0 <= j < |s| && !first.outcome.InWindow(12, j) && !second.outcome.InWindow(16, j) ==> r[j] == s[j]
  {
    var (first, second) := ResolutionAttempts(s, moduleSize, width, height, os1, os2);
    var m1, m2 := CreateHexEdit1(width, height, 0).modified, CreateHexEdit2(width, height, 0).modified;
    AttemptPatchContract(s, LoopBound(moduleSize, 12), ResolutionPattern1, m1, 0, os1);
    AttemptPatchContract(first.image, LoopBound(moduleSize, 16), ResolutionPattern2, m2, 0, os2);
    AttemptPatchFrame(s, LoopBound(moduleSize, 12), ResolutionPattern1, m1, 0, os1);
    AttemptPatchFrame(first.image, LoopBound(moduleSize, 16), ResolutionPattern2, m2, 0, os2);
  }

  /** A window the attempt did not match over keeps its bytes: bytes that lie
      clear of the matched pattern, or all bytes when nothing matched. */
  lemma UntouchedWindowKept(s: seq<byte>, bound: nat, pat: seq<byte>, modified: seq<byte>, offset: nat, os: OsWrite, a: nat, len: nat)
    requires WriteFits(pat, modified, offset, os) && a + len <= |s|
    requires var o := AttemptPatch(s, bound, pat, modified, offset, os).outcome;
      o.NotFound? || o.at + |pat| <= a || a + len <= o.at
    ensures AttemptPatch(s, bound, pat, modified, offset, os).image[a..a + len] == s[a..a + len]
  {
    var r := AttemptPatch(s, bound, pat, modified, offset, os);
    AttemptPatchFrame(s, bound, pat, modified, offset, os);
    forall k | a <= k < a + len ensures r.image[k] == s[k] {
      assert !r.outcome.InWindow(|pat|, k);
    }
  }

  /** The usual case of both patches applying: an applied 12-byte record
      survives the second patch whenever that one found nothing or matched a
      window that does not overlap it. */
  lemma FirstRecordSurvives(s: seq<byte>, moduleSize: nat, width: int32, height: int32, os1: OsWrite, os2: OsWrite)
    requires os1.wrote <= 12 && os2.wrote <= 16
    ensures var (first, second) := ResolutionAttempts(s, moduleSize, width, height, os1, os2);
      first.outcome.Applied?
      && (second.outcome.NotFound? || second.outcome.at + 16 <= first.outcome.at || first.outcome.at + 12 <= second.outcome.at) ==>
        ResolutionPatched(s, moduleSize, width, height, os1, os2)[first.outcome.at..first.outcome.at + 12]
          == CreateHexEdit1(width, height, 0).modified
  {
    var (first, second) := ResolutionAttempts(s, moduleSize, width, height, os1, os2);
    var m1, m2 := CreateHexEdit1(width, height, 0).modified, CreateHexEdit2(width, height, 0).modified;
    if first.outcome.Applied?
       && (second.outcome.NotFound? || second.outcome.at + 16 <= first.outcome.at || first.outcome.at + 12 <= second.outcome.at)
    {
      AttemptPatchContract(s, LoopBound(moduleSize, 12), ResolutionPattern1, m1, 0, os1);
      UntouchedWindowKept(first.image, LoopBound(moduleSize, 16), ResolutionPattern2, m2, 0, os2, first.outcome.at, 12);
    }
  }

  /** `PerformHexEdits`: with a zero module size, width or height nothing is
      patched; otherwise the 12-byte and then the 16-byte record. */
  method PerformHexEdits(image: array<byte>, moduleSize: nat, width: int32, height: int32, os1: OsWrite, os2: OsWrite)
    requires moduleSize <= image.Length && os1.wrote <= 12 && os2.wrote <= 16
    modifies image
    ensures moduleSize == 0 || width == 0 || height == 0 ==> image[..] == old(image[..])
    ensures moduleSize != 0 && width != 0 && height != 0 ==>
      image[..] == ResolutionPatched(old(image[..]), moduleSize, width, height, os1, os2)
  {
    if moduleSize == 0 || width == 0 || height == 0 {
      return;
    }
    var outcome1 := PerformHexEdit(image, moduleSize, ResolutionPattern1, CreateHexEdit1(width, height, 0), os1);
    var outcome2 := PerformHexEdit(image, moduleSize, ResolutionPattern2, CreateHexEdit2(width, height, 0), os2);
  }

  /** `PerformHexEdits3`: index 0, or an index the FOV table rejects, patches nothing. */
  method PerformHexEdits3(image: array<byte>, aspectIndex: int32, protectOk: bool)
    modifies image
    ensures !(1 <= aspectIndex <= 4) ==> image[..] == old(image[..])
    ensures 1 <= aspectIndex <= 4 ==>
      image[..] == AttemptPatch(old(image[..]), LoopBound(image.Length, 4), FovPattern, CreateHexEditFromFOV(aspectIndex).modified, 0,
                                OsWrite(protectOk, true, 4)).image
  {
    if aspectIndex == 0 {
      return;
    }
    var edit := CreateHexEditFromFOV(aspectIndex);
    if |edit.modified| == 0 {
      return;
    }
    var outcome := PerformHexEdit3(image, image.Length, FovPattern, edit.modified, edit.offset, protectOk);
  }

  /** `PerformHexEdits7`: a zero module size patches nothing. */
  method PerformHexEdits7(image: array<byte>, moduleSize: nat, os: seq<OsWrite>)
    requires moduleSize <= image.Length && EditsFit(MiscEdits, os)
    modifies image
    ensures moduleSize == 0 ==> image[..] == old(image[..])
    ensures moduleSize != 0 ==> image[..] == ApplyEdits(old(image[..]), moduleSize, MiscEdits, os)
  {
    if moduleSize == 0 {
      return;
    }
    PerformHexEdit7(image, moduleSize, os);
  }

  // ---------------------------------------------------------------------------
  // Facts about the concrete patches
  // ---------------------------------------------------------------------------

  /** The generated records always fit inside their patterns, so both
      resolution patches only ever rewrite bytes of the match they found. */
  lemma ResolutionEditsFit(width: int32, height: int32, os1: OsWrite, os2: OsWrite)
    requires os1.wrote <= 12 && os2.wrote <= 16
    ensures WriteFits(ResolutionPattern1, CreateHexEdit1(width, height, 0).modified, 0, os1)
    ensures WriteFits(ResolutionPattern2, CreateHexEdit2(width, height, 0).modified, 0, os2)
  {
  }

  /** An image that is exactly the 12-byte pattern (its only candidate is
      index 0) is left unpatched by the code as written, and would be patched
      at 0 by the corrected scan. */
  lemma AsWrittenMissesWholeImageMatch(width: int32, height: int32)
    ensures var m := CreateHexEdit1(width, height, 0).modified;
      && AttemptPatch(ResolutionPattern1, LoopBound(12, 12), ResolutionPattern1, m, 0, OsWrite(true, true, 12))
           == PatchResult(NotFound, ResolutionPattern1)
      && AttemptPatch(ResolutionPattern1, ScanBound(12, 12), ResolutionPattern1, m, 0, OsWrite(true, true, 12)).outcome
           == Applied(0)
  {
    assert MatchesAt(ResolutionPattern1, ResolutionPattern1, 0);
  }
}
