/** Erlang integers as terms: fixnums and bignums. */
module Integers {
  import opened Digits

  /** An integer term: immediate, or a bignum with sign and digits. */
  datatype Integer = Small(v: int) | Big(neg: bool, digits: seq<Digit>) {
    function Value(): int {
      match this
      case Small(v) => v
      case Big(neg, digits) => if neg then -Val(digits) else Val(digits)
    }
  }

  const MAX_SMALL: int := 0x7FF_FFFF_FFFF_FFFF
  const BIG_ARITY_MAX: nat := 0x7FFFF

  predicate IsSmall(v: int) {
    -MAX_SMALL - 1 <= v <= MAX_SMALL
  }

  /** Integers that fit a fixnum are fixnums; bignums have no leading zero. */
  predicate Canonical(i: Integer) {
    match i
    case Small(v) => IsSmall(v)
    case Big(_, digits) => Normal(digits) && !IsSmall(i.Value())
  }

  lemma LongIsBig(s: seq<Digit>)
    requires |s| > 1 && Normal(s)
    ensures Val(s) >= B
  {
    ValZeros(s);
    NormalLower(s);
    PowMono(1, |s| - 1);
  }
}
