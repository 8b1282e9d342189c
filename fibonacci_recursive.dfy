/**
 * FibonacciRecursive.fibonacci: plain double recursion on a Java `int`.
 * The Java result is a 32-bit int; fib(46) is the largest value that fits,
 * so the model works on mathematical integers and asks for n <= 46.
 */
module FibonacciRecursive {

  const MaxInt: int := 0x7fff_ffff
  /** Largest argument whose Fibonacci number fits in a Java int. */
  const MaxArg: int := 46

  /** The Java code: n itself for n <= 1 (negatives included), else the sum of the two previous. */
  function Fibonacci(n: int): int
    requires n <= MaxArg
    decreases n
  {
    if n <= 1 then n else Fibonacci(n - 1) + Fibonacci(n - 2)
  }

  /** The textbook Fibonacci sequence on naturals, as an independent reference. */
  function Fib(n: nat): nat
  {
    if n < 2 then n else Fib(n - 1) + Fib(n - 2)
  }

  /** For negative n the Java code gives n back; from 0 on it is the Fibonacci sequence. */
  lemma {:induction false} FibonacciIsFib(n: int)
    requires n <= MaxArg
    ensures n < 0 ==> Fibonacci(n) == n
    ensures n >= 0 ==> Fibonacci(n) == Fib(n)
    decreases n
  {
    if n >= 2 {
      FibonacciIsFib(n - 1);
      FibonacciIsFib(n - 2);
    }
  }

  /** Every value on the allowed range fits in a Java int, so no wrap-around happens. */
  lemma {:induction false} FibonacciFitsInt(n: int)
    requires n <= MaxArg
    ensures Fibonacci(n) <= MaxInt
  {
    FibonacciIsFib(n);
    if n >= 0 {
      FibMonotone(n, MaxArg);
      FibAt46();
    }
  }

  lemma {:induction false} FibMonotone(m: nat, n: nat)
    requires m <= n
    ensures Fib(m) <= Fib(n)
    decreases n - m
  {
    if m < n {
      FibMonotone(m + 1, n);
      assert Fib(m) <= Fib(m + 1) by {
        if m + 1 >= 2 { assert Fib(m + 1) == Fib(m) + Fib(m - 1); }
      }
    }
  }

  /** Fib(46) by unfolding the recurrence step by step. */
  lemma FibAt46()
    ensures Fib(MaxArg) == 1836311903
  {
    assert Fib(2) == 1;
    assert Fib(3) == 2;
    assert Fib(4) == 3;
    assert Fib(5) == 5;
    assert Fib(6) == 8;
    assert Fib(7) == 13;
    assert Fib(8) == 21;
    assert Fib(9) == 34;
    assert Fib(10) == 55;
    assert Fib(11) == 89;
    assert Fib(12) == 144;
    assert Fib(13) == 233;
    assert Fib(14) == 377;
    assert Fib(15) == 610;
    assert Fib(16) == 987;
    assert Fib(17) == 1597;
    assert Fib(18) == 2584;
    assert Fib(19) == 4181;
    assert Fib(20) == 6765;
    assert Fib(21) == 10946;
    assert Fib(22) == 17711;
    assert Fib(23) == 28657;
    assert Fib(24) == 46368;
    assert Fib(25) == 75025;
    assert Fib(26) == 121393;
    assert Fib(27) == 196418;
    assert Fib(28) == 317811;
    assert Fib(29) == 514229;
    assert Fib(30) == 832040;
    assert Fib(31) == 1346269;
    assert Fib(32) == 2178309;
    assert Fib(33) == 3524578;
    assert Fib(34) == 5702887;
    assert Fib(35) == 9227465;
    assert Fib(36) == 14930352;
    assert Fib(37) == 24157817;
    assert Fib(38) == 39088169;
    assert Fib(39) == 63245986;
    assert Fib(40) == 102334155;
    assert Fib(41) == 165580141;
    assert Fib(42) == 267914296;
    assert Fib(43) == 433494437;
    assert Fib(44) == 701408733;
    assert Fib(45) == 1134903170;
    assert Fib(46) == 1836311903;
  }
}
