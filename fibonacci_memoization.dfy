/**
 * FibonacciMemoization.fibonacci: double recursion that consults and fills a
 * static memo table. The static field is the one field of the class below;
 * the Java `long` result is a mathematical integer with n <= 92, the largest
 * argument whose Fibonacci number fits in a long.
 */
module FibonacciMemoization {
  import FibonacciRecursive

  const MaxArg: int := 92

  /** The value fibonacci(n) must have: n itself below 0, the Fibonacci number otherwise. */
  ghost function Expected(n: int): int
  {
    if n < 0 then n else FibonacciRecursive.Fib(n)
  }

  class FibonacciMemoization {
    /** The static `memo` HashMap, keyed by argument. */
    var memo: map<int, int>

    /** Every cached entry k |-> v has k >= 2 and v the k-th Fibonacci number. */
    ghost predicate Valid()
      reads this
    {
      forall k :: k in memo ==> k >= 2 && memo[k] == Expected(k)
    }

    constructor ()
      ensures Valid() && memo == map[]
    {
      memo := map[];
    }

    method Fibonacci(n: int) returns (r: int)
      requires Valid() && n <= MaxArg
      modifies this
      decreases n
      ensures Valid()
      ensures r == Expected(n)
      ensures n <= FibonacciRecursive.MaxArg ==> r == FibonacciRecursive.Fibonacci(n)
      // the table only grows, and only by keys in [2, n]
      ensures forall k :: k in old(memo) ==> k in memo && memo[k] == old(memo)[k]
      ensures forall k :: k in memo ==> k in old(memo) || 2 <= k <= n
      ensures n <= 1 || n in old(memo) ==> memo == old(memo)
      ensures n >= 2 ==> n in memo && memo[n] == r
    {
      if n <= FibonacciRecursive.MaxArg {
        FibonacciRecursive.FibonacciIsFib(n);
      }
      if n <= 1 {
        return n;
      }
      if n in memo {
        return memo[n];
      }
      var a := Fibonacci(n - 1);
      var b := Fibonacci(n - 2);
      r := a + b;
      memo := memo[n := r];
    }
  }
}
