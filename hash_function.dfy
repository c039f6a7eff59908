/** The multiplicative string hash `Hash::hf`: one Horner step per character
    with multiplier 33, reduced modulo the table size after every step. */
module HashFunction {

  /** C++ `%` on `int`: the remainder truncates toward zero, so it takes the
      sign of the dividend (Dafny's `%` never goes negative). */
  function CppRem(a: int, b: int): (r: int)
    requires b > 0
    ensures a >= 0 ==> 0 <= r < b
    ensures a < 0 ==> -b < r <= 0
  {
    if a >= 0 then a % b else -((-a) % b)
  }

  /** The value `hf` returns: `hashVal` after the loop has consumed `w`. */
  function Horner(w: string, size: int): (h: int)
    requires size > 0
    ensures 0 <= h < size
    decreases |w|
  {
    if |w| == 0 then 0
    else CppRem(33 * Horner(w[..|w| - 1], size) + w[|w| - 1] as int, size)
  }

  /** The loop of `Hash::hf`. */
  method Hf(word: string, size: int) returns (hashVal: int)
    requires size > 0
    ensures hashVal == Horner(word, size)
    ensures 0 <= hashVal < size
  {
    hashVal := 0;
    var i := 0;
    while i < |word|
      invariant 0 <= i <= |word|
      invariant hashVal == Horner(word[..i], size)
    {
      assert word[..i + 1][..i] == word[..i];
      hashVal := 33 * hashVal + word[i] as int;
      hashVal := CppRem(hashVal, size);
      i := i + 1;
    }
    assert word[..i] == word;
  }

  /** The empty string hashes to 0. */
  lemma HornerEmpty(size: int)
    requires size > 0
    ensures Horner("", size) == 0
  {
  }

  /** One more character is one more Horner step. */
  lemma HornerSnoc(w: string, c: char, size: int)
    requires size > 0
    ensures Horner(w + [c], size) == (33 * Horner(w, size) + c as int) % size
  {
    assert (w + [c])[..|w|] == w;
  }

  /** The value before reduction at each step stays below `33 * size + 128`
      when every character is below 128, so `hashVal` does not overflow an
      `int` as long as that bound fits. */
  lemma HornerStepBound(w: string, i: nat, size: int)
    requires size > 0 && i < |w|
    requires forall j :: 0 <= j < |w| ==> w[j] as int < 128
    ensures 0 <= 33 * Horner(w[..i], size) + w[i] as int < 33 * size + 128
  {
  }

  /** Horner's rule without any reduction. */
  function Poly(w: string): nat
    decreases |w|
  {
    if |w| == 0 then 0 else 33 * Poly(w[..|w| - 1]) + w[|w| - 1] as int
  }

  function Pow33(e: nat): nat {
    if e == 0 then 1 else 33 * Pow33(e - 1)
  }

  /** The positional sum `w[0]*33^(n-1) + ... + w[n-1]*33^0`. */
  function PositionalSum(w: string): nat
    decreases |w|
  {
    if |w| == 0 then 0 else w[0] as int * Pow33(|w| - 1) + PositionalSum(w[1..])
  }

  lemma {:induction false} PositionalSumSnoc(w: string, c: char)
    ensures PositionalSum(w + [c]) == 33 * PositionalSum(w) + c as int
    decreases |w|
  {
    if |w| == 0 {
      assert w + [c] == [c];
    } else {
      assert (w + [c])[1..] == w[1..] + [c];
      PositionalSumSnoc(w[1..], c);
      calc {
        PositionalSum(w + [c]);
        w[0] as int * Pow33(|w|) + PositionalSum(w[1..] + [c]);
        w[0] as int * (33 * Pow33(|w| - 1)) + 33 * PositionalSum(w[1..]) + c as int;
        { assert w[0] as int * (33 * Pow33(|w| - 1)) == 33 * (w[0] as int * Pow33(|w| - 1)); }
        33 * PositionalSum(w) + c as int;
      }
    }
  }

  /** Horner's rule computes the positional sum. */
  lemma {:induction false} PolyIsPositionalSum(w: string)
    ensures Poly(w) == PositionalSum(w)
    decreases |w|
  {
    if |w| > 0 {
      var init := w[..|w| - 1];
      PolyIsPositionalSum(init);
      assert w == init + [w[|w| - 1]];
      PositionalSumSnoc(init, w[|w| - 1]);
    }
  }

  lemma ModStep(a: nat, c: nat, size: int)
    requires size > 0
    ensures (33 * (a % size) + c) % size == (33 * a + c) % size
  {
    var q := a / size;
    var x := 33 * (a % size) + c;
    assert a == q * size + a % size;
    assert 33 * a + c == x + (33 * q) * size;
    assert x == (x / size) * size + x % size;
    assert 33 * a + c == (x / size + 33 * q) * size + x % size;
    ModUnique(33 * a + c, x / size + 33 * q, x % size, size);
  }

  /** The remainder is the unique `r` in `[0, size)` with `n == q * size + r`. */
  lemma ModUnique(n: int, q: int, r: int, size: int)
    requires size > 0 && 0 <= r < size && n == q * size + r
    ensures n % size == r
  {
    var q', r' := n / size, n % size;
    assert n == q' * size + r';
    var d := q - q';
    assert d * size == r' - r by {
      assert q * size - q' * size == (q - q') * size;
    }
    if d >= 1 {
      MulAtLeast(d, size);
    } else if d <= -1 {
      MulAtLeast(-d, size);
    }
  }

  lemma MulAtLeast(d: int, size: int)
    requires d >= 1 && size > 0
    ensures d * size >= size
  {
    assert d * size == (d - 1) * size + size;
  }

  /** Reducing after every step leaves the same residue as reducing the
      positional sum once. */
  lemma {:induction false} HornerIsSumMod(w: string, size: int)
    requires size > 0
    ensures Horner(w, size) == PositionalSum(w) % size
    decreases |w|
  {
    PolyIsPositionalSum(w);
    HornerIsPolyMod(w, size);
  }

  lemma {:induction false} HornerIsPolyMod(w: string, size: int)
    requires size > 0
    ensures Horner(w, size) == Poly(w) % size
    decreases |w|
  {
    if |w| > 0 {
      var init := w[..|w| - 1];
      HornerIsPolyMod(init, size);
      ModStep(Poly(init), w[|w| - 1] as int, size);
    }
  }
}
