/** Form tokens bound to a session and a day, and the signed challenge of a two-factor login that
    is made of one. */
module Csrf {
  import opened Text

  // ---------------------------------------------------------------------------------------
  // Numbers in text
  // ---------------------------------------------------------------------------------------

  function Digit(n: nat): char
    requires n < 10
  {
    '0' + n as char
  }

  function NatText(n: nat): (s: string)
    ensures s != ""
    ensures forall i :: 0 <= i < |s| ==> '0' <= s[i] <= '9'
  {
    if n < 10 then [Digit(n)] else NatText(n / 10) + [Digit(n % 10)]
  }

  /** The decimal form of an `i64`. */
  function IntText(n: int): string {
    if n < 0 then "-" + NatText(-n) else NatText(n)
  }

  predicate IsDigit(c: char) {
    '0' <= c <= '9'
  }

  function ParseDigits(s: string): Option<nat> {
    if s == "" then None
    else if !IsDigit(s[|s| - 1]) then None
    else
      var d := s[|s| - 1] as int - '0' as int;
      if |s| == 1 then Some(d)
      else
        match ParseDigits(s[..|s| - 1])
        case None => None
        case Some(n) => Some(10 * n + d)
  }

  const MAX := 0x7fff_ffff_ffff_ffff

  /** `str::parse::<i64>`: an optional sign, digits, and the range. */
  function ParseInt(s: string): Option<int> {
    if s == "" then None
    else
      var negative := s[0] == '-';
      match ParseDigits(if negative || s[0] == '+' then s[1..] else s)
      case None => None
      case Some(n) =>
        var v: int := if negative then -(n as int) else n;
        if -MAX - 1 <= v <= MAX then Some(v) else None
  }

  lemma {:induction false} ParseNatText(n: nat)
    ensures ParseDigits(NatText(n)) == Some(n)
  {
    var s := NatText(n);
    if n >= 10 {
      ParseNatText(n / 10);
      assert s[..|s| - 1] == NatText(n / 10);
    }
  }

  lemma ParseIntText(n: int)
    requires -MAX - 1 <= n <= MAX
    ensures ParseInt(IntText(n)) == Some(n)
  {
    if n < 0 {
      ParseNatText(-n);
      ParseSigned(NatText(-n), -n);
    } else {
      ParseNatText(n);
      ParseUnsigned(NatText(n), n);
    }
  }

  lemma ParseSigned(s: string, n: nat)
    requires ParseDigits(s) == Some(n) && n <= MAX + 1
    ensures ParseInt("-" + s) == Some(-(n as int))
  {
    assert ("-" + s)[1..] == s;
  }

  lemma ParseUnsigned(s: string, n: nat)
    requires ParseDigits(s) == Some(n) && n <= MAX && s != "" && IsDigit(s[0])
    ensures ParseInt(s) == Some(n)
  {
  }

  lemma IntTextHasNoColon(n: int)
    ensures ':' !in IntText(n)
  {
  }

  lemma {:induction false} IntTextIsInjective(m: int, n: int)
    requires -MAX - 1 <= m <= MAX && -MAX - 1 <= n <= MAX
    ensures IntText(m) == IntText(n) ==> m == n
  {
    ParseIntText(m);
    ParseIntText(n);
  }

  lemma {:induction false} FirstDigit(n: nat)
    ensures NatText(n)[0] == '0' <==> n == 0
  {
    if n >= 10 {
      FirstDigit(n / 10);
    }
  }

  /** The decimal form has no leading zero, and a sign if and only if the number is negative. */
  lemma IntTextForm(n: int)
    ensures IntText(n)[0] == '-' <==> n < 0
    ensures n != 0 ==> IntText(n)[if n < 0 then 1 else 0] != '0'
    ensures n == 0 ==> IntText(n) == "0"
  {
    FirstDigit(if n < 0 then -n else n);
  }

  function Zeros(k: nat): string {
    seq(k, _ => '0')
  }

  /** The text is the decimal form of `n` with any number of zeros in front. */
  ghost predicate Spells(s: string, n: nat) {
    exists k: nat :: s == Zeros(k) + NatText(n)
  }

  lemma {:induction false} SpelledIsRead(k: nat, n: nat)
    ensures ParseDigits(Zeros(k) + NatText(n)) == Some(n)
  {
    if n >= 10 {
      var front := Zeros(k) + NatText(n / 10);
      SpelledIsRead(k, n / 10);
      assert Zeros(k) + NatText(n) == front + [Digit(n % 10)];
      assert (front + [Digit(n % 10)])[..|front|] == front;
    } else {
      ZerosAreRead(k, n);
    }
  }

  lemma {:induction false} ZerosAreRead(k: nat, n: nat)
    requires n < 10
    ensures ParseDigits(Zeros(k) + [Digit(n)]) == Some(n)
  {
    var s := Zeros(k) + [Digit(n)];
    assert s[..|s| - 1] == Zeros(k);
    if k > 0 {
      ZerosAreRead(k - 1, 0);
      assert Zeros(k) == Zeros(k - 1) + [Digit(0)];
    }
  }

  lemma OneMoreDigit(s: string, m: nat, d: nat)
    requires Spells(s, m) && d < 10
    ensures Spells(s + [Digit(d)], 10 * m + d)
  {
    var k: nat :| s == Zeros(k) + NatText(m);
    if m == 0 {
      assert s + [Digit(d)] == Zeros(k + 1) + NatText(d);
    } else {
      assert s + [Digit(d)] == Zeros(k) + NatText(10 * m + d);
    }
  }

  lemma {:induction false} ReadIsSpelled(s: string, n: nat)
    requires ParseDigits(s) == Some(n)
    ensures Spells(s, n)
  {
    var front, d := s[..|s| - 1], s[|s| - 1] as int - '0' as int;
    assert s == front + [Digit(d)];
    if front == "" {
      assert s == Zeros(0) + NatText(n);
    } else {
      ReadIsSpelled(front, ParseDigits(front).value);
      OneMoreDigit(front, ParseDigits(front).value, d);
    }
  }

  lemma ReadIffSpelled(s: string, n: nat)
    ensures ParseDigits(s) == Some(n) <==> Spells(s, n)
  {
    if ParseDigits(s) == Some(n) {
      ReadIsSpelled(s, n);
    }
    if Spells(s, n) {
      var k: nat :| s == Zeros(k) + NatText(n);
      SpelledIsRead(k, n);
    }
  }

  /** A text is read as the number `n` if and only if `n` is in the range of 64 bits and the text is
      its decimal form, with leading zeros and a plus sign allowed. */
  lemma ParseIntIff(s: string, n: int)
    ensures ParseInt(s) == Some(n) <==>
              && -0x8000_0000_0000_0000 <= n <= 0x7fff_ffff_ffff_ffff
              && if s != "" && s[0] == '-' then n <= 0 && Spells(s[1..], -n)
                 else n >= 0 && Spells(if s != "" && s[0] == '+' then s[1..] else s, n)
  {
    var digits := if s != "" && (s[0] == '-' || s[0] == '+') then s[1..] else s;
    ReadIffSpelled(digits, if n < 0 then -n else n);
  }

  /** `rsplit_once(':')` */
  function RSplit(s: string): Option<(string, string)> {
    if s == "" then None
    else
      var front, last := s[..|s| - 1], s[|s| - 1];
      if last == ':' then Some((front, ""))
      else
        match RSplit(front)
        case None => None
        case Some((a, b)) => Some((a, b + [last]))
  }

  lemma {:induction false} RSplitAt(a: string, b: string)
    requires ':' !in b
    ensures RSplit(a + (":" + b)) == Some((a, b))
  {
    var s := a + (":" + b);
    if b == "" {
      assert s[..|s| - 1] == a;
    } else {
      RSplitAt(a, b[..|b| - 1]);
      assert s[..|s| - 1] == a + (":" + b[..|b| - 1]);
      assert b == b[..|b| - 1] + [b[|b| - 1]];
    }
  }

  lemma {:induction false} RSplitParts(s: string)
    ensures match RSplit(s)
            case None => ':' !in s
            case Some((a, b)) => s == a + (":" + b) && ':' !in b
  {
    if s != "" {
      var front, last := s[..|s| - 1], s[|s| - 1];
      RSplitParts(front);
      assert s == front + [last];
      if last != ':' && RSplit(front).Some? {
        var (a, b) := RSplit(front).value;
        Assoc(a, ":" + b, [last]);
        Assoc(":", b, [last]);
      }
    }
  }

  // ---------------------------------------------------------------------------------------
  // Form tokens
  // ---------------------------------------------------------------------------------------

  type Bytes = seq<bv8>

  /** The MAC under the key of this boot, and unpadded URL-safe Base64. */
  datatype Crypto = Crypto(mac: string -> Bytes, encode: Bytes -> string, decode: string -> Option<Bytes>)

  ghost predicate CryptoOk(c: Crypto) {
    && (forall s :: |c.mac(s)| == 32)
    && forall b :: |b| == 32 ==> c.decode(c.encode(b)) == Some(b) && c.encode(b) != "" && ':' !in c.encode(b)
  }

  /** The MAC tells the two payloads apart. */
  ghost predicate NoCollision(c: Crypto, p: string, q: string) {
    c.mac(p) == c.mac(q) ==> p == q
  }

  /** `timestamp / 86400`, which truncates toward zero. */
  function DayBucket(t: int): int {
    if t >= 0 then t / 86400 else -(-t / 86400)
  }

  /** Days begin at multiples of 86400; before 1970 they end there. */
  lemma DayIsTruncated(t: int)
    ensures t >= 0 ==> 86400 * DayBucket(t) <= t < 86400 * (DayBucket(t) + 1)
    ensures t <= 0 ==> 86400 * (DayBucket(t) - 1) < t <= 86400 * DayBucket(t)
  {
    assert t < 0 ==> -t == 86400 * (-t / 86400) + -t % 86400;
  }

  function Payload(session: string, bucket: int): string {
    session + (":" + IntText(bucket))
  }

  function Token(c: Crypto, session: string, now: int): string {
    c.encode(c.mac(Payload(session, DayBucket(now))))
  }

  predicate Verify(c: Crypto, session: string, presented: string, now: int) {
    presented != ""
    && match c.decode(presented)
       case None => false
       case Some(tag) =>
         |tag| == 32
         && (tag == c.mac(Payload(session, DayBucket(now))) || tag == c.mac(Payload(session, DayBucket(now) - 1)))
  }

  predicate CheckToken(c: Crypto, session: Option<string>, presented: Option<string>, now: int) {
    session.Some? && presented.Some? && Verify(c, session.value, presented.value, now)
  }

  ghost predicate InRange(t: int) {
    0 <= t <= MAX
  }

  lemma PayloadIsInjective(s: string, d: int, u: string, e: int)
    requires -MAX <= d <= MAX && -MAX <= e <= MAX
    ensures Payload(s, d) == Payload(u, e) <==> s == u && d == e
  {
    IntTextHasNoColon(d);
    IntTextHasNoColon(e);
    RSplitAt(s, IntText(d));
    RSplitAt(u, IntText(e));
    IntTextIsInjective(d, e);
  }

  /** The MAC tells the payload of the token from those it is checked against. */
  ghost predicate ToldApart(c: Crypto, session: string, t: int, other: string, now: int) {
    && NoCollision(c, Payload(session, DayBucket(t)), Payload(other, DayBucket(now)))
    && NoCollision(c, Payload(session, DayBucket(t)), Payload(other, DayBucket(now) - 1))
  }

  /** A token issued at `t` is accepted at `now`, if at all a session and a token are presented,
      exactly for its own session and on its own day or the one after. */
  lemma AcceptedIff(c: Crypto, session: string, t: int, other: Option<string>, presented: Option<string>, now: int)
    requires CryptoOk(c) && InRange(t) && InRange(now)
    requires presented.Some? ==> presented.value == Token(c, session, t)
    requires other.Some? ==> ToldApart(c, session, t, other.value, now)
    ensures CheckToken(c, other, presented, now)
            <==> presented.Some? && other == Some(session) && DayBucket(t) <= DayBucket(now) <= DayBucket(t) + 1
  {
    DayInRange(t);
    DayInRange(now);
    if other.Some? {
      PayloadIsInjective(session, DayBucket(t), other.value, DayBucket(now));
      PayloadIsInjective(session, DayBucket(t), other.value, DayBucket(now) - 1);
    }
  }

  lemma DayInRange(t: int)
    requires InRange(t)
    ensures 0 <= DayBucket(t) < MAX && 86400 * DayBucket(t) <= t < 86400 * DayBucket(t) + 86400
  {
  }

  lemma DaysApart(t: int, now: int)
    requires 0 <= t <= now
    ensures now <= t + 86400 ==> DayBucket(t) <= DayBucket(now) <= DayBucket(t) + 1
    ensures now >= t + 2 * 86400 ==> DayBucket(now) >= DayBucket(t) + 2
  {
  }

  /** So it lives for at least a day, across midnight too. */
  lemma TokenLivesADay(c: Crypto, session: string, t: int, now: int)
    requires CryptoOk(c) && InRange(t) && t <= now <= t + 86400
    ensures Verify(c, session, Token(c, session, t), now)
  {
    DaysApart(t, now);
    BucketVerifies(c, session, DayBucket(t), now);
  }

  lemma BucketVerifies(c: Crypto, session: string, bucket: int, now: int)
    requires CryptoOk(c) && (bucket == DayBucket(now) || bucket == DayBucket(now) - 1)
    ensures Verify(c, session, c.encode(c.mac(Payload(session, bucket))), now)
  {
    var tag := c.mac(Payload(session, bucket));
    assert c.decode(c.encode(tag)) == Some(tag);
  }

  /** And it is dead after two. */
  lemma TokenDiesAfterTwo(c: Crypto, session: string, t: int, now: int)
    requires CryptoOk(c) && InRange(t) && InRange(now) && now >= t + 2 * 86400 && ToldApart(c, session, t, session, now)
    ensures !Verify(c, session, Token(c, session, t), now)
  {
    DaysApart(t, now);
    AcceptedIff(c, session, t, Some(session), Some(Token(c, session, t)), now);
  }

  // ---------------------------------------------------------------------------------------
  // The two-factor challenge
  // ---------------------------------------------------------------------------------------

  const TOTP_CHALLENGE_SECONDS := 300

  function Challenge(c: Crypto, email: string, now: int): string {
    var payload := email + (":" + IntText(now));
    payload + (":" + Token(c, payload, now))
  }

  function VerifyPendingToken(c: Crypto, presented: string, now: int): Option<string> {
    match RSplit(presented)
    case None => None
    case Some((payload, mac)) =>
      match RSplit(payload)
      case None => None
      case Some((email, issuedAt)) =>
        if !Verify(c, payload, mac, now) then None
        else
          match ParseInt(issuedAt)
          case None => None
          case Some(t) => if now - t > TOTP_CHALLENGE_SECONDS then None else Some(email)
  }

  /** For any email, colons included, the challenge gives that email back for five minutes,
      across midnight too, and nothing afterwards. */
  lemma ChallengeLifetime(c: Crypto, email: string, t: int, now: int)
    requires CryptoOk(c) && InRange(t) && InRange(now) && t <= now
    ensures VerifyPendingToken(c, Challenge(c, email, t), now)
         == if now <= t + 300 then Some(email) else None
  {
    var payload := email + (":" + IntText(t));
    var token := Token(c, payload, t);
    RSplitAt(payload, token);
    IntTextHasNoColon(t);
    RSplitAt(email, IntText(t));
    ParseIntText(t);
    if now <= t + TOTP_CHALLENGE_SECONDS {
      TokenLivesADay(c, payload, t, now);
    }
  }

  /** Whatever is accepted carries the email and a time that were signed together, today or
      yesterday, and the time is at most five minutes ago. */
  lemma AcceptedIsSigned(c: Crypto, presented: string, now: int)
    requires VerifyPendingToken(c, presented, now).Some?
    ensures var email := VerifyPendingToken(c, presented, now).value;
            exists issuedAt, mac, tag, t ::
              && presented == (email + (":" + issuedAt)) + (":" + mac)
              && ParseInt(issuedAt) == Some(t) && now - t <= 300
              && c.decode(mac) == Some(tag)
              && (tag == c.mac(Payload(email + (":" + issuedAt), DayBucket(now)))
                  || tag == c.mac(Payload(email + (":" + issuedAt), DayBucket(now) - 1)))
  {
    RSplitParts(presented);
    var (payload, mac) := RSplit(presented).value;
    RSplitParts(payload);
    var (email, issuedAt) := RSplit(payload).value;
    var tag, t := c.decode(mac).value, ParseInt(issuedAt).value;
    assert presented == (email + (":" + issuedAt)) + (":" + mac);
  }
}
