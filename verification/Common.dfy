/** Small things that every part of the model uses. */
module Common {
  datatype Option<+T> = None | Some(value: T)

  function Min(a: int, b: int): int { if a < b then a else b }
  function Max(a: int, b: int): int { if a > b then a else b }

  lemma {:induction false} Assoc<T>(a: seq<T>, b: seq<T>, c: seq<T>)
    ensures a + b + c == a + (b + c)
  {}

  lemma {:induction false} Adjacent<T>(s: seq<T>, a: nat, b: nat, c: nat)
    requires a <= b <= c <= |s|
    ensures s[a..b] + s[b..c] == s[a..c]
  {}

  lemma {:induction false} TakeNext<T>(s: seq<T>, i: nat)
    requires i < |s|
    ensures s[..i + 1] == s[..i] + [s[i]] && s[..i + 1][..i] == s[..i]
  {}

  lemma {:induction false} ProductAtLeast(x: int, d: int)
    requires x >= 1 && d > 0
    ensures x * d >= d
  {}

  /** Quotient and remainder are the only ones. */
  lemma {:induction false} DivUnique(a: int, d: int, q: int, r: int)
    requires d > 0 && a == q * d + r && 0 <= r < d
    ensures a / d == q && a % d == r
  {
    var q' := a / d;
    assert a == q' * d + a % d;
    assert (q' - q) * d == q' * d - q * d && (q - q') * d == q * d - q' * d;
    if q' > q {
      ProductAtLeast(q' - q, d);
    } else if q' < q {
      ProductAtLeast(q - q', d);
    }
  }
}
