/** Small operations of the Rust standard library that several modules use. */
module Primitives {
  const U64_MAX: nat := 0xFFFF_FFFF_FFFF_FFFF

  /** `u64::saturating_add`, of the exact sum. */
  function Saturate(n: nat): (r: nat)
    ensures r <= U64_MAX
  {
    if n <= U64_MAX then n else U64_MAX
  }

  /** `to_ascii_lowercase`. */
  function Lower(c: char): char {
    if 'A' <= c <= 'Z' then c + 32 as char else c
  }

  function LowerAll(s: string): string {
    seq(|s|, k requires 0 <= k < |s| => Lower(s[k]))
  }

  /** The same character, or one ASCII letter in its two cases. */
  predicate SameLetter(a: char, b: char) {
    a == b || ('A' <= a <= 'Z' && b as int == a as int + 32) || ('A' <= b <= 'Z' && a as int == b as int + 32)
  }

  predicate SameUpToCase(s: string, t: string) {
    |s| == |t| && forall k :: 0 <= k < |s| ==> SameLetter(s[k], t[k])
  }

  lemma LowerTellsCaseOnly(s: string, t: string)
    ensures LowerAll(s) == LowerAll(t) <==> SameUpToCase(s, t)
    ensures SameUpToCase(LowerAll(s), s) && forall k :: 0 <= k < |s| ==> !('A' <= LowerAll(s)[k] <= 'Z')
  {
    forall a: char, b: char
      ensures Lower(a) == Lower(b) <==> SameLetter(a, b)
    {
      LowerOne(a, b);
    }
    forall k | 0 <= k < |s|
      ensures SameLetter(LowerAll(s)[k], s[k]) && !('A' <= LowerAll(s)[k] <= 'Z')
    {
      LowerOne(s[k], s[k]);
    }
    if LowerAll(s) == LowerAll(t) {
      assert |LowerAll(s)| == |LowerAll(t)|;
      forall k | 0 <= k < |s|
        ensures SameLetter(s[k], t[k])
      {
        assert LowerAll(s)[k] == LowerAll(t)[k];
      }
    }
  }

  lemma LowerOne(a: char, b: char)
    ensures Lower(a) == Lower(b) <==> SameLetter(a, b)
    ensures SameLetter(Lower(a), a) && !('A' <= Lower(a) <= 'Z')
  {
    if 'A' <= a <= 'Z' {
      assert Lower(a) as int == a as int + 32;
    }
    if 'A' <= b <= 'Z' {
      assert Lower(b) as int == b as int + 32;
    }
  }

  function HexDigit(n: nat): (c: char)
    requires n < 16
    ensures '0' <= c <= '9' || 'a' <= c <= 'f'
  {
    if n < 10 then '0' + n as char else 'a' + (n - 10) as char
  }

  lemma HexDigitInjective(a: nat, b: nat)
    requires a < 16 && b < 16 && HexDigit(a) == HexDigit(b)
    ensures a == b
  {
    assert HexDigit(a) as int == if a < 10 then '0' as int + a else 'a' as int + (a - 10);
    assert HexDigit(b) as int == if b < 10 then '0' as int + b else 'a' as int + (b - 10);
  }
}
