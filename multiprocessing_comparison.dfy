/**
 * The workload of multiprocessing_multithreading_comparison.py. Its loop runs
 * over range(1, number), which stops before number, so it yields (number-1)!.
 */
module MultiprocessingComparison {
  import opened Factorial
  import CpuBound

  /** calculate_factorial: `fact` starts at 1 and is multiplied by every i in range(1, number). */
  method CalculateFactorial(number: int) returns (fact: int)
    ensures number >= 1 ==> fact == Fact(number - 1)
    ensures number <= 2 ==> fact == 1
    ensures fact >= 1
    ensures number >= 2 ==> fact < Fact(number)
  {
    fact := 1;
    var i := 1;
    while i < number
      invariant 1 <= i
      invariant i <= if number >= 1 then number else 1
      invariant fact == Fact(i - 1)
    {
      FactRecurrence(i - 1);
      fact := fact * i;
      i := i + 1;
    }
    assert Fact(1) == 1;
    if number >= 2 {
      FactIncreasing(number);
    }
  }

  /**
   * The two scripts' calculate_factorial side by side: for number >= 1 this
   * script's result at `number` is cpu_bound_operation.py's result at `number - 1`.
   */
  method CompareWithCpuBound(number: int) returns (fact: int, cpuFact: int)
    ensures number >= 1 ==> fact == cpuFact
  {
    fact := CalculateFactorial(number);
    cpuFact := CpuBound.CalculateFactorial(number - 1);
  }
}
