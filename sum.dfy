/** Summing a slice of Go `int` values, 64 bits wide on 64-bit platforms, which wrap around on
    overflow. */
module SumOfNumbers {

  const Half: int := 0x8000_0000_0000_0000
  const Modulus: int := 0x1_0000_0000_0000_0000

  /** The values of a 64-bit Go `int`. */
  type Int64 = x: int | -0x8000_0000_0000_0000 <= x < 0x8000_0000_0000_0000

  /** Two's-complement wrap-around: the 64-bit value congruent to `x` modulo 2^64. */
  function Wrap(x: int): (r: Int64)
    ensures (r - x) % Modulus == 0
    ensures -Half <= x < Half ==> r == x
  {
    (x + Half) % Modulus - Half
  }

  /** The mathematical sum of the elements. */
  function Total(numbers: seq<int>): int
    decreases |numbers|
  {
    if numbers == [] then 0 else Total(numbers[..|numbers| - 1]) + numbers[|numbers| - 1]
  }

  /** The sum of a concatenation is the sum of the parts. */
  lemma {:induction false} TotalAppend(a: seq<int>, b: seq<int>)
    ensures Total(a + b) == Total(a) + Total(b)
    decreases |b|
  {
    if b == [] {
      assert a + b == a;
    } else {
      assert (a + b)[..|a + b| - 1] == a + b[..|b| - 1];
      assert (a + b)[|a + b| - 1] == b[|b| - 1];
      TotalAppend(a, b[..|b| - 1]);
    }
  }

  /** Wrapping only depends on the value modulo 2^64, so wrapping after every addition
      gives the wrapped total. */
  lemma WrapAdd(a: int, b: int)
    ensures Wrap(Wrap(a) + b) == Wrap(a + b)
  {
    var q := (a + Half) / Modulus;
    assert Wrap(a) == a - q * Modulus;
    var x := a + b + Half;
    assert Wrap(a) + b + Half == x - q * Modulus;
    var r := x % Modulus;
    assert x == (x / Modulus) * Modulus + r;
    assert x - q * Modulus == (x / Modulus - q) * Modulus + r;
    assert (x - q * Modulus) % Modulus == r;
  }

  /** `Sum`: an empty slice gives 0 straight away; otherwise the elements are added to an
      accumulator one by one, each addition wrapping at 64 bits. */
  method Sum(numbers: seq<Int64>) returns (sum: Int64)
    ensures sum == Wrap(Total(numbers))
    ensures -Half <= Total(numbers) < Half ==> sum == Total(numbers)
  {
    if |numbers| == 0 {
      return 0;
    }
    sum := 0;
    for i := 0 to |numbers|
      invariant sum == Wrap(Total(numbers[..i]))
    {
      assert numbers[..i + 1][..i] == numbers[..i];
      WrapAdd(Total(numbers[..i]), numbers[i]);
      sum := Wrap(sum + numbers[i]);
    }
    assert numbers[..|numbers|] == numbers;
  }

  /** The cases of the package's test table. */
  lemma TestTable()
    ensures Total([1, 2, 3, 4, 5]) == 15
    ensures Total([]) == 0
    ensures Total([10]) == 10
    ensures Total([-1, -2, -3]) == -6
  {
    assert [1, 2, 3, 4, 5][..4] == [1, 2, 3, 4];
    assert [1, 2, 3, 4][..3] == [1, 2, 3];
    assert [1, 2, 3][..2] == [1, 2];
    assert [1, 2][..1] == [1];
    assert [1][..0] == [];
    assert [10][..0] == [];
    assert [-1, -2, -3][..2] == [-1, -2];
    assert [-1, -2][..1] == [-1];
    assert [-1][..0] == [];
  }

  /** Adding 1 to the largest value wraps to the smallest. */
  lemma Overflow()
    ensures Wrap(Total([0x7FFF_FFFF_FFFF_FFFF, 1])) == -0x8000_0000_0000_0000
  {
    assert [0x7FFF_FFFF_FFFF_FFFF, 1][..1] == [0x7FFF_FFFF_FFFF_FFFF];
    assert [0x7FFF_FFFF_FFFF_FFFF][..0] == [];
  }
}
