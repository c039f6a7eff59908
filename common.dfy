/** Small vocabulary shared by the models: an optional value (for the C++
    null pointers and sentinel strings), the bounds of a 32-bit `int`, and the
    ordering that `std::string`'s `<` and `<=` use. */
module Common {

  datatype Option<T> = None | Some(value: T)

  /** `INT_MAX` and `INT_MIN` of a 32-bit `int`. */
  const INT_MAX: int := 0x7fff_ffff
  const INT_MIN: int := -0x8000_0000

  /** `std::string` operator `<`: lexicographic on characters, a proper
      prefix before the longer string. */
  predicate StrLess(a: string, b: string)
    decreases |a|
  {
    if |a| == 0 then |b| > 0
    else if |b| == 0 then false
    else if a[0] != b[0] then a[0] < b[0]
    else StrLess(a[1..], b[1..])
  }

  /** `std::string` operator `<=`. */
  predicate StrLessEq(a: string, b: string) {
    StrLess(a, b) || a == b
  }

  lemma {:induction false} StrLessIrreflexive(a: string)
    ensures !StrLess(a, a)
    decreases |a|
  {
    if |a| > 0 {
      StrLessIrreflexive(a[1..]);
    }
  }

  lemma {:induction false} StrLessTransitive(a: string, b: string, c: string)
    requires StrLess(a, b) && StrLess(b, c)
    ensures StrLess(a, c)
    decreases |a|
  {
    if |a| > 0 && a[0] == b[0] && b[0] == c[0] {
      StrLessTransitive(a[1..], b[1..], c[1..]);
    }
  }

  /** Any two different strings are ordered one way or the other. */
  lemma {:induction false} StrLessTrichotomy(a: string, b: string)
    ensures a == b || StrLess(a, b) || StrLess(b, a)
    decreases |a|
  {
    if |a| > 0 && |b| > 0 && a[0] == b[0] {
      StrLessTrichotomy(a[1..], b[1..]);
      if a[1..] == b[1..] {
        assert a == [a[0]] + a[1..] && b == [b[0]] + b[1..];
      }
    }
  }

  lemma StrLessAsymmetric(a: string, b: string)
    requires StrLess(a, b)
    ensures !StrLess(b, a) && a != b
  {
    if StrLess(b, a) {
      StrLessTransitive(a, b, a);
      StrLessIrreflexive(a);
    }
    if a == b {
      StrLessIrreflexive(a);
    }
  }

  /** `<=` on strings is a total order: reflexive, transitive, total and
      antisymmetric. */
  lemma StrLessEqTotalOrder(a: string, b: string, c: string)
    ensures StrLessEq(a, a)
    ensures StrLessEq(a, b) || StrLessEq(b, a)
    ensures StrLessEq(a, b) && StrLessEq(b, c) ==> StrLessEq(a, c)
    ensures StrLessEq(a, b) && StrLessEq(b, a) ==> a == b
  {
    StrLessTrichotomy(a, b);
    if StrLess(a, b) && StrLess(b, c) {
      StrLessTransitive(a, b, c);
    }
    if StrLess(a, b) {
      StrLessAsymmetric(a, b);
    }
  }

  /** Decimal digits of a non-negative number, most significant first. */
  function NatToDigits(n: nat): (s: string)
    ensures |s| > 0
    ensures forall i :: 0 <= i < |s| ==> '0' <= s[i] <= '9'
    decreases n
  {
    if n < 10 then [(n + '0' as int) as char]
    else NatToDigits(n / 10) + [(n % 10 + '0' as int) as char]
  }

  /** What `operator<<` writes for an `int`: an optional minus sign and the
      decimal digits. */
  function IntToString(n: int): (s: string)
    ensures |s| > 0
    ensures (s[0] == '-') <==> n < 0
  {
    if n < 0 then "-" + NatToDigits(-n) else NatToDigits(n)
  }
}
