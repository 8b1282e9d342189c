/**
 * McCarthy91.M: nested recursion. No Java int overflow can occur: n - 10 is
 * only taken for n > 100 and n + 11 only for n <= 100.
 */
module McCarthy91 {

  /**
   * Termination rests on the contract itself: the inner call returns a value
   * greater than n, so the outer call's argument is closer to 101.
   */
  function M(n: int): (r: int)
    ensures n > 100 ==> r == n - 10
    ensures n <= 100 ==> r == 91
    ensures r >= 91
    decreases 101 - n
  {
    if n > 100 then n - 10 else M(M(n + 11))
  }
}
