/** `truncate_str`, a helper defined in the handlers file that nothing in that file calls. */
module TextUtil {
  const Ellipsis: string := "..."

  /**
   * How many characters the slice `s[:length]` keeps of a string of `n`
   * characters: a negative bound counts from the end, and neither end is
   * passed.
   */
  function SliceLength(n: nat, length: int): (k: nat)
    ensures k <= n
    ensures length >= 0 ==> k == if length <= n then length else n
    ensures length < 0 ==> k + (-length) >= n && (k > 0 ==> k == n + length)
  {
    if length >= 0 then (if length <= n then length else n)
    else if n + length >= 0 then n + length else 0
  }

  /**
   * `truncate_str`: a string no longer than the bound is returned as is; a
   * longer one is cut to its slice prefix and marked with an ellipsis.
   */
  function Truncate(s: string, length: int := 100): (r: string)
    ensures |s| <= length ==> r == s
    ensures |s| > length ==>
      && |r| == SliceLength(|s|, length) + |Ellipsis|
      && r[..|r| - |Ellipsis|] <= s
      && r[|r| - |Ellipsis|..] == Ellipsis
    ensures length >= 0 ==> |r| <= length + |Ellipsis| && (|r| <= length <==> |s| <= length)
  {
    if |s| > length then s[..SliceLength(|s|, length)] + Ellipsis else s
  }
}
