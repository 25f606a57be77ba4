/**
  The support check of one version range.  The backend's resolve rules are
  reached only through `accepts(opType, version)`: true when resolving the
  operator at that version (domain "") finds a rule, false when it throws.
 */
module Support {

  /** Every version of `lo..hi` is accepted; vacuously true when `lo > hi`. */
  ghost predicate Supports(accepts: (string, int) -> bool, opType: string, lo: int, hi: int) {
    forall v :: lo <= v <= hi ==> accepts(opType, v)
  }

  /**
    `checkSupport`: probes `lo, lo + 1, ...` upwards and gives up at the first
    rejected version.  `probed` is the ghost trace of the versions tried.
   */
  method CheckSupport(accepts: (string, int) -> bool, opType: string, lo: int, hi: int)
    returns (supported: bool, ghost probed: seq<int>)
    ensures supported <==> Supports(accepts, opType, lo, hi)
    ensures forall j :: 0 <= j < |probed| ==> probed[j] == lo + j <= hi
    ensures supported ==> |probed| == if lo <= hi then hi - lo + 1 else 0
    ensures !supported ==>
      && |probed| > 0
      && !accepts(opType, probed[|probed| - 1])
      && forall j :: 0 <= j < |probed| - 1 ==> accepts(opType, probed[j])
  {
    probed := [];
    var i := lo;
    while i <= hi
      invariant lo <= i && (lo <= hi ==> i <= hi + 1) && (hi < lo ==> i == lo)
      invariant |probed| == i - lo
      invariant forall j :: 0 <= j < |probed| ==> probed[j] == lo + j <= hi
      invariant forall v :: lo <= v < i ==> accepts(opType, v)
      decreases hi - i
    {
      probed := probed + [i];
      if !accepts(opType, i) {
        return false, probed;
      }
      i := i + 1;
    }
    return true, probed;
  }
}
