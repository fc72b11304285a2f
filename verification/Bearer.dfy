/** The bearer check in front of the endpoint. Texts are sequences of bytes. */
module Bearer {
  import opened Octets
  import opened Text

  const SCHEME := "Bearer "

  /** `zip(..).fold(0, |acc, (a, b)| acc | (a ^ b))` */
  function Difference(acc: nat, a: string, b: string): nat
    decreases |a|
  {
    if a == "" || b == "" then acc
    else Difference(Or(acc, Xor(a[0] as int, b[0] as int)), a[1..], b[1..])
  }

  /** `header` is the authorization header, if there is one that is text. */
  predicate Authorised(header: Option<string>, expected: string) {
    header.Some? && SCHEME <= header.value
    && var provided := header.value[|SCHEME|..];
       |provided| == |expected| && Difference(0, provided, expected) == 0
  }

  lemma {:induction false} DifferenceIsZero(acc: nat, a: string, b: string)
    requires |a| == |b|
    ensures Difference(acc, a, b) == 0 <==> acc == 0 && a == b
    decreases |a|
  {
    if a != "" {
      XorIsZero(a[0] as int, b[0] as int);
      OrIsZero(acc, Xor(a[0] as int, b[0] as int));
      DifferenceIsZero(Or(acc, Xor(a[0] as int, b[0] as int)), a[1..], b[1..]);
      assert a == [a[0]] + a[1..] && b == [b[0]] + b[1..];
    }
  }

  /** The comparison without early exit accepts exactly the configured token. */
  lemma AuthorisedIff(header: Option<string>, expected: string)
    ensures Authorised(header, expected) <==> header == Some("Bearer " + expected)
  {
    if header.Some? && SCHEME <= header.value {
      var provided := header.value[|SCHEME|..];
      assert header.value == SCHEME + provided;
      if |provided| == |expected| {
        DifferenceIsZero(0, provided, expected);
      }
    }
    assert (SCHEME + expected)[|SCHEME|..] == expected;
  }
}
