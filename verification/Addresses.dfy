/** Ethereum addresses as the service stores them: text, compared either exactly or through `LOWER`. */
module Addresses {
  type Address = string

  const ZERO_ADDRESS: Address := "0x0000000000000000000000000000000000000000"

  function LowerChar(c: char): char {
    if 'A' <= c <= 'Z' then (c as int - 'A' as int + 'a' as int) as char else c
  }

  function Lower(a: Address): Address {
    seq(|a|, i requires 0 <= i < |a| => LowerChar(a[i]))
  }

  predicate Same(a: Address, b: Address) {
    Lower(a) == Lower(b)
  }

  /** Lower-casing a lower-cased address changes nothing, so a normalised key still matches the stored text. */
  lemma LowerIdempotent(a: Address)
    ensures Lower(Lower(a)) == Lower(a)
    ensures Same(Lower(a), a)
  {
    forall i | 0 <= i < |a|
      ensures Lower(Lower(a))[i] == Lower(a)[i]
    {
    }
  }

  /** The two characters differ at most in the case of a Latin letter. */
  predicate SameUpToCase(c: char, d: char) {
    c == d || ('A' <= c <= 'Z' && d as int == c as int + 32) || ('A' <= d <= 'Z' && c as int == d as int + 32)
  }

  /** Two texts name one address exactly when they differ at most in the case of letters. */
  lemma SameIff(a: Address, b: Address)
    ensures Same(a, b) <==> |a| == |b| && forall i | 0 <= i < |a| :: SameUpToCase(a[i], b[i])
  {
    if Same(a, b) {
      assert |Lower(a)| == |a| && |Lower(b)| == |b|;
      forall i | 0 <= i < |a|
        ensures SameUpToCase(a[i], b[i])
      {
        assert Lower(a)[i] == Lower(b)[i];
      }
    }
  }

  /** The zero address is `0x` and forty zeros. */
  lemma ZeroAddressIs()
    ensures |ZERO_ADDRESS| == 42 && ZERO_ADDRESS[0] == '0' && ZERO_ADDRESS[1] == 'x'
    ensures forall i | 2 <= i < 42 :: ZERO_ADDRESS[i] == '0'
  {
  }
}
