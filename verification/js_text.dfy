/**
 * The one JavaScript string built-in the script's rules depend on:
 * `String.prototype.substring`, whose argument clamping is what keeps the
 * typed role on screen while the character index overshoots it.
 */
module JsText {

  /** An index argument of `substring` after clamping into `[0, n]`. */
  function ClampIndex(k: int, n: nat): nat
  {
    if k < 0 then 0 else if k > n then n else k
  }

  /**
   * `s.substring(start, end)`: both bounds are clamped into `[0, |s|]`, and
   * if they end up out of order they are swapped, so the result is always a
   * slice of `s` and never an error.
   */
  function Substring(s: string, start: int, end: int): (r: string)
    ensures |r| <= |s|
    ensures start <= end ==> |r| == ClampIndex(end, |s|) - ClampIndex(start, |s|)
    ensures end <= start ==> |r| == ClampIndex(start, |s|) - ClampIndex(end, |s|)
    ensures r == s[ClampIndex(if start <= end then start else end, |s|)
                  ..ClampIndex(if start <= end then end else start, |s|)]
  {
    var a, b := ClampIndex(start, |s|), ClampIndex(end, |s|);
    if a <= b then s[a..b] else s[b..a]
  }

  /**
   * `s.substring(0, k)` is the prefix of `s` of length `k` clamped into
   * `[0, |s|]`: empty for `k <= 0`, the whole of `s` for `k >= |s|`.
   */
  lemma SubstringFromZero(s: string, k: int)
    ensures Substring(s, 0, k) <= s
    ensures |Substring(s, 0, k)| == ClampIndex(k, |s|)
    ensures k >= |s| ==> Substring(s, 0, k) == s
    ensures k <= 0 ==> Substring(s, 0, k) == ""
  {
  }

  /** Swapping the two arguments of `substring` does not change its result. */
  lemma SubstringSymmetric(s: string, start: int, end: int)
    ensures Substring(s, start, end) == Substring(s, end, start)
  {
  }
}
