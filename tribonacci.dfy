/**
 * Tribonacci.tribonacci: triple recursion on a Java `int`, modelled on
 * mathematical integers for the arguments whose result fits in an int.
 */
module Tribonacci {

  const MaxInt: int := 0x7fff_ffff
  /** Largest argument whose Tribonacci number fits in a Java int. */
  const MaxArg: int := 38

  /** 0 for n <= 1, 1 for n == 2, otherwise the sum of the three previous values. */
  function Tribonacci(n: int): (r: int)
    requires n <= MaxArg
    ensures r >= 0
    ensures n >= 2 ==> r >= 1
    decreases n
  {
    if n <= 1 then 0
    else if n == 2 then 1
    else Tribonacci(n - 1) + Tribonacci(n - 2) + Tribonacci(n - 3)
  }

  /** The values stated in the source's own comment: tribonacci(8) = 24 and tribonacci(9) = 44. */
  lemma TribonacciOfEightAndNine()
    ensures Tribonacci(8) == 24 && Tribonacci(9) == 44
  {
    assert Tribonacci(3) == 1;
    assert Tribonacci(4) == 2;
    assert Tribonacci(5) == 4;
    assert Tribonacci(6) == 7;
    assert Tribonacci(7) == 13;
  }

  /** From 2 on, the sequence never decreases. */
  lemma {:induction false} TribonacciMonotone(m: int, n: int)
    requires 2 <= m <= n <= MaxArg
    ensures Tribonacci(m) <= Tribonacci(n)
    decreases n - m
  {
    if m < n {
      TribonacciMonotone(m + 1, n);
      assert Tribonacci(m) <= Tribonacci(m + 1) by {
        if m + 1 >= 3 {
          assert Tribonacci(m + 1) == Tribonacci(m) + Tribonacci(m - 1) + Tribonacci(m - 2);
        }
      }
    }
  }

  /** Every value on the allowed range fits in a Java int. */
  lemma TribonacciFitsInt(n: int)
    requires n <= MaxArg
    ensures Tribonacci(n) <= MaxInt
  {
    if n >= 2 {
      TribonacciMonotone(n, MaxArg);
      TribonacciAtMax();
    }
  }

  /** Tribonacci(38) by unfolding the recurrence step by step. */
  lemma TribonacciAtMax()
    ensures Tribonacci(MaxArg) == 2082876103
  {
    assert Tribonacci(3) == 1;
    assert Tribonacci(4) == 2;
    assert Tribonacci(5) == 4;
    assert Tribonacci(6) == 7;
    assert Tribonacci(7) == 13;
    assert Tribonacci(8) == 24;
    assert Tribonacci(9) == 44;
    assert Tribonacci(10) == 81;
    assert Tribonacci(11) == 149;
    assert Tribonacci(12) == 274;
    assert Tribonacci(13) == 504;
    assert Tribonacci(14) == 927;
    assert Tribonacci(15) == 1705;
    assert Tribonacci(16) == 3136;
    assert Tribonacci(17) == 5768;
    assert Tribonacci(18) == 10609;
    assert Tribonacci(19) == 19513;
    assert Tribonacci(20) == 35890;
    assert Tribonacci(21) == 66012;
    assert Tribonacci(22) == 121415;
    assert Tribonacci(23) == 223317;
    assert Tribonacci(24) == 410744;
    assert Tribonacci(25) == 755476;
    assert Tribonacci(26) == 1389537;
    assert Tribonacci(27) == 2555757;
    assert Tribonacci(28) == 4700770;
    assert Tribonacci(29) == 8646064;
    assert Tribonacci(30) == 15902591;
    assert Tribonacci(31) == 29249425;
    assert Tribonacci(32) == 53798080;
    assert Tribonacci(33) == 98950096;
    assert Tribonacci(34) == 181997601;
    assert Tribonacci(35) == 334745777;
    assert Tribonacci(36) == 615693474;
    assert Tribonacci(37) == 1132436852;
    assert Tribonacci(38) == 2082876103;
  }
}
