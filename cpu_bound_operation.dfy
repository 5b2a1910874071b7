/** The CPU-bound workload of cpu_bound_operation.py: factorial by an accumulator loop. */
module CpuBound {
  import opened Factorial

  /**
   * calculate_factorial: the accumulator starts at 1 and is multiplied by
   * every n in range(1, number + 1). For a negative number the range is empty.
   */
  method CalculateFactorial(number: int) returns (factorial: int)
    ensures number >= 0 ==> factorial == Fact(number)
    ensures number <= 0 ==> factorial == 1
    ensures factorial >= 1
    ensures forall d :: 1 <= d <= number ==> factorial % d == 0
  {
    factorial := 1;
    var n := 1;
    while n < number + 1
      invariant 1 <= n
      invariant n <= if number >= 0 then number + 1 else 1
      invariant factorial == Fact(n - 1)
    {
      FactRecurrence(n - 1);
      factorial := factorial * n;
      n := n + 1;
    }
    forall d | 1 <= d <= number
      ensures factorial % d == 0
    {
      FactDivisible(number, d);
    }
  }
}
