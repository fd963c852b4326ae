/** Character-level helpers on strings: occurrence counting and first-occurrence search. */
module Text {
  import opened Wrappers

  /** Number of positions of `s` that hold `x`; this is Python's `str.count` for a
      one-character needle (occurrences of a single character never overlap). */
  function Count(s: string, x: char): (n: nat)
    ensures n <= |s|
    ensures n == 0 <==> x !in s
  {
    if s == [] then 0 else (if s[0] == x then 1 else 0) + Count(s[1..], x)
  }

  /** Counting distributes over concatenation. */
  lemma {:induction false} CountAppend(a: string, b: string, x: char)
    ensures Count(a + b, x) == Count(a, x) + Count(b, x)
  {
    if a == [] {
      assert a + b == b;
    } else {
      assert (a + b)[1..] == a[1..] + b;
      CountAppend(a[1..], b, x);
    }
  }

  /** `Count` agrees with the multiplicity of `x` in the multiset of the characters of `s`. */
  lemma {:induction false} CountIsMultiplicity(s: string, x: char)
    ensures Count(s, x) == multiset(s)[x]
  {
    if s != [] {
      assert s == [s[0]] + s[1..];
      CountIsMultiplicity(s[1..], x);
    }
  }

  /** Index of the first occurrence of `x` in `s`, if any. */
  function IndexOf(s: string, x: char): (r: Option<nat>)
    ensures r.None? <==> x !in s
    ensures r.Some? ==> r.value < |s| && s[r.value] == x && x !in s[..r.value]
  {
    if s == [] then None
    else if s[0] == x then Some(0)
    else match IndexOf(s[1..], x)
      case None => None
      case Some(k) => Some(k + 1)
  }

  /** The first occurrence of `x` in `a + [x] + b` is right after `a` when `a` holds no `x`. */
  lemma {:induction false} IndexOfAfterPrefix(a: string, x: char, b: string)
    requires x !in a
    ensures IndexOf(a + [x] + b, x) == Some(|a|)
  {
    if a != [] {
      assert (a + [x] + b)[1..] == a[1..] + [x] + b;
      IndexOfAfterPrefix(a[1..], x, b);
    }
  }
}
