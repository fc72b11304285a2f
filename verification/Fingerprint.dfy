/** The certificate pin: printed by the agent, normalised by the panel's form and decoded again
    by the panel's TLS verifier. */
module Fingerprint {
  import opened Octets
  import opened Text

  // ---------------------------------------------------------------------------------------
  // Hexadecimal text
  // ---------------------------------------------------------------------------------------

  function HexDigit(n: nat): char
    requires n < 16
  {
    if n < 10 then '0' + n as char else 'A' + (n - 10) as char
  }

  predicate IsHexDigit(c: char) {
    '0' <= c <= '9' || 'a' <= c <= 'f' || 'A' <= c <= 'F'
  }

  function DigitValue(c: char): (n: nat)
    requires IsHexDigit(c)
    ensures n < 16
  {
    if c <= '9' then c as int - '0' as int
    else if c <= 'F' then c as int - 'A' as int + 10
    else c as int - 'a' as int + 10
  }

  /** `{b:02X}` */
  function HexByte(b: Byte): string {
    [HexDigit(b / 16), HexDigit(b % 16)]
  }

  function HexBytes(d: seq<Byte>): seq<string> {
    if d == [] then [] else [HexByte(d[0])] + HexBytes(d[1..])
  }

  function HexText(d: seq<Byte>): (h: string)
    ensures |h| == 2 * |d|
  {
    if d == [] then "" else HexByte(d[0]) + HexText(d[1..])
  }

  function Joined(parts: seq<string>): string {
    if parts == [] then ""
    else if |parts| == 1 then parts[0]
    else parts[0] + (":" + Joined(parts[1..]))
  }

  const PREFIX := "sha256:"

  /** The form the agent logs for a digest. */
  function Printed(digest: seq<Byte>): string {
    PREFIX + Joined(HexBytes(digest))
  }

  // ---------------------------------------------------------------------------------------
  // The panel's form
  // ---------------------------------------------------------------------------------------

  function Upper(s: string): (r: string)
    ensures |r| == |s|
  {
    if s == "" then "" else [UpperAscii(s[0])] + Upper(s[1..])
  }

  function Lower(s: string): (r: string)
    ensures |r| == |s|
  {
    if s == "" then "" else [LowerAscii(s[0])] + Lower(s[1..])
  }

  /** `trim_start_matches(p)`: takes off `p` as often as it is there. */
  function TrimMatches(s: string, p: string): string
    requires p != ""
  {
    if p <= s then TrimMatches(s[|p|..], p) else s
  }

  /** The text without the characters of `drop`. */
  function Without(s: string, drop: string): string {
    if s == "" then ""
    else (if s[0] in drop then "" else [s[0]]) + Without(s[1..], drop)
  }

  function Cleaned(raw: string): string {
    Without(TrimMatches(TrimMatches(Trim(raw), PREFIX), "SHA256:"), ": -")
  }

  predicate AllHex(s: string) {
    forall i :: 0 <= i < |s| ==> IsHexDigit(s[i])
  }

  function Chunks(h: string): seq<string> {
    if |h| < 2 then (if h == "" then [] else [h]) else [h[..2]] + Chunks(h[2..])
  }

  datatype Pin =
    | NoPin
    | Pinned(text: string)
    | BadRequest

  function NormaliseFingerprint(raw: string): Pin {
    if raw == "" then NoPin
    else
      var hex := Cleaned(raw);
      if |hex| != 64 || !AllHex(hex) then BadRequest
      else Pinned(PREFIX + Joined(Chunks(Upper(hex))))
  }

  /** The bytes that hexadecimal text stands for. */
  function ReadHex(h: string): (d: seq<Byte>)
    requires AllHex(h) && |h| % 2 == 0
    ensures 2 * |d| == |h|
  {
    if h == "" then []
    else [16 * DigitValue(h[0]) + DigitValue(h[1])] + ReadHex(h[2..])
  }

  lemma {:induction false} UpperOfHex(h: string)
    requires AllHex(h) && |h| % 2 == 0
    ensures Upper(h) == HexText(ReadHex(h))
  {
    if h != "" {
      UpperOfHex(h[2..]);
      var b := 16 * DigitValue(h[0]) + DigitValue(h[1]);
      assert b / 16 == DigitValue(h[0]) && b % 16 == DigitValue(h[1]);
      assert ReadHex(h)[0] == b && ReadHex(h)[1..] == ReadHex(h[2..]);
      UpperAt(h);
      UpperDrop(h, 2);
      UpperOfDigit(h[0]);
      UpperOfDigit(h[1]);
      assert Upper(h) == Upper(h)[..2] + Upper(h)[2..];
    }
  }

  lemma {:induction false} ReadOfHex(d: seq<Byte>, h: string)
    requires Upper(h) == HexText(d)
    ensures AllHex(h) && ReadHex(h) == d
    decreases |d|
  {
    if d != [] {
      UpperAt(h);
      var t := HexText(d);
      assert t[0] == HexDigit(d[0] / 16) && t[1] == HexDigit(d[0] % 16) && t[2..] == HexText(d[1..]);
      UpperDrop(h, 2);
      ReadOfHex(d[1..], h[2..]);
      DigitOfHex(h[0], d[0] / 16);
      DigitOfHex(h[1], d[0] % 16);
      forall i | 0 <= i < |h| ensures IsHexDigit(h[i]) {
        if i >= 2 { assert h[i] == h[2..][i - 2]; }
      }
    }
  }

  lemma UpperOfDigit(c: char)
    requires IsHexDigit(c)
    ensures UpperAscii(c) == HexDigit(DigitValue(c))
  {
  }

  lemma DigitOfHex(c: char, n: nat)
    requires n < 16 && UpperAscii(c) == HexDigit(n)
    ensures IsHexDigit(c) && DigitValue(c) == n
  {
  }

  lemma UpperAt(h: string)
    ensures forall i :: 0 <= i < |h| ==> Upper(h)[i] == UpperAscii(h[i])
  {
    if h != "" {
      UpperAt(h[1..]);
    }
  }

  lemma UpperDrop(h: string, n: nat)
    requires n <= |h|
    ensures Upper(h[n..]) == Upper(h)[n..]
  {
    if n > 0 {
      UpperDrop(h[1..], n - 1);
      DropTwice(h, 1, n - 1);
    }
  }

  lemma {:induction false} ChunksOfHex(d: seq<Byte>)
    ensures Chunks(HexText(d)) == HexBytes(d)
  {
    if d != [] {
      ChunksOfHex(d[1..]);
      assert HexText(d)[..2] == HexByte(d[0]) && HexText(d)[2..] == HexText(d[1..]);
    }
  }

  ghost predicate IsSeparators(drop: string) {
    ':' in drop && forall c :: c in drop ==> !IsHexDigit(c)
  }

  lemma WithoutPair(a: char, b: char, rest: string, drop: string)
    requires a !in drop && b !in drop
    ensures Without([a, b] + rest, drop) == [a, b] + Without(rest, drop)
  {
    var s := [a, b] + rest;
    assert s[1..] == [b] + rest && s[1..][1..] == rest;
    assert [a] + ([b] + Without(rest, drop)) == [a, b] + Without(rest, drop);
  }

  lemma {:induction false} WithoutColons(d: seq<Byte>, drop: string)
    requires IsSeparators(drop)
    ensures Without(Joined(HexBytes(d)), drop) == HexText(d)
  {
    if d != [] {
      var h := HexByte(d[0]);
      WithoutColons(d[1..], drop);
      HexByteIsHex(d[0]);
      assert HexBytes(d)[1..] == HexBytes(d[1..]);
      if |d| == 1 {
        WithoutPair(h[0], h[1], "", drop);
        assert h + "" == h;
      } else {
        var rest := Joined(HexBytes(d[1..]));
        assert (":" + rest)[1..] == rest;
        assert "" + Without(rest, drop) == Without(rest, drop);
        WithoutPair(h[0], h[1], ":" + rest, drop);
      }
    }
  }

  lemma HexByteIsHex(b: Byte)
    ensures |HexByte(b)| == 2 && IsHexDigit(HexByte(b)[0]) && IsHexDigit(HexByte(b)[1])
    ensures HexByte(b)[0] < 'a' && HexByte(b)[1] < 'a'
  {
  }

  /** The printed text of a digest is left alone by every step of the cleaning but the last. */
  lemma JoinedEdges(d: seq<Byte>)
    requires d != []
    ensures var j := Joined(HexBytes(d));
            j != "" && IsHexDigit(j[0]) && j[0] < 'a' && IsHexDigit(j[|j| - 1])
  {
    HexByteIsHex(d[0]);
    if |d| > 1 {
      JoinedEdges(d[1..]);
      JoinedTwo(HexByte(d[0]), HexBytes(d[1..]));
    }
  }

  lemma JoinedTwo(part: string, rest: seq<string>)
    requires rest != [] && part != "" && Joined(rest) != ""
    ensures var j := Joined([part] + rest);
            j != "" && j[0] == part[0] && j[|j| - 1] == Joined(rest)[|Joined(rest)| - 1]
  {
    assert ([part] + rest)[1..] == rest;
  }

  lemma CleanedPrinted(d: seq<Byte>)
    requires d != []
    ensures Cleaned(Printed(d)) == HexText(d)
  {
    var j := Joined(HexBytes(d));
    JoinedEdges(d);
    PrefixComesOff(PREFIX, j);
    assert !("SHA256:" <= j) by { assert "SHA256:"[0] == 'S'; }
    WithoutColons(d, ": -");
  }

  lemma Untrimmed(s: string)
    requires s != "" && !IsWhitespace(s[0]) && !IsWhitespace(s[|s| - 1])
    ensures Trim(s) == s
  {
    assert "" + s + "" == s;
    TrimSkips("", s, "");
  }

  lemma PrefixComesOff(p: string, j: string)
    requires p != "" && p[0] == 's' && j != "" && j[0] < 'a' && IsHexDigit(j[|j| - 1])
    ensures Trim(p + j) == p + j && TrimMatches(p + j, p) == j
  {
    var s := p + j;
    assert s[0] == p[0] && s[|s| - 1] == j[|j| - 1];
    Untrimmed(s);
    assert s[|p|..] == j;
    assert p <= s && !(p <= j);
  }

  /** The form accepts exactly the texts that, cleaned, spell a digest in either case, and
      stores the agent's own form of it. */
  lemma AcceptedIffSpelled(raw: string, digest: seq<Byte>)
    requires |digest| == 32
    ensures NormaliseFingerprint(raw) == Pinned(Printed(digest)) <==> Upper(Cleaned(raw)) == HexText(digest)
  {
    var hex := Cleaned(raw);
    AcceptedIsPrinted(raw);
    if Upper(hex) == HexText(digest) {
      ReadOfHex(digest, hex);
    }
    if NormaliseFingerprint(raw) == Pinned(Printed(digest)) {
      var d := ReadHex(hex);
      CleanedPrinted(d);
      CleanedPrinted(digest);
      UpperOfHex(hex);
    }
  }

  /** The hexadecimal digits of a text. */
  function HexOnly(s: string): string {
    if s == "" then "" else (if IsHexDigit(s[0]) then [s[0]] else "") + HexOnly(s[1..])
  }

  /** Nothing but hexadecimal digits, colons, spaces and dashes. */
  ghost predicate IsSpelling(s: string) {
    forall i :: 0 <= i < |s| ==> IsHexDigit(s[i]) || s[i] == ':' || s[i] == ' ' || s[i] == '-'
  }

  function Times(p: string, k: nat): string {
    if k == 0 then "" else p + Times(p, k - 1)
  }

  /** The prefix any number of times in small letters, then any number of times in capitals, and a
      spelling. */
  function Form(k: nat, m: nat, body: string): string {
    Times("sha256:", k) + (Times("SHA256:", m) + body)
  }

  /** The text is such a form of the digest, in either case, with whitespace around it. */
  ghost predicate SpellsAs(raw: string, k: nat, m: nat, body: string, digest: seq<Byte>) {
    && Trim(raw) == Form(k, m, body)
    && IsSpelling(body) && Upper(HexOnly(body)) == HexText(digest)
  }

  ghost predicate IsFormOf(raw: string, digest: seq<Byte>) {
    exists k: nat, m: nat, body: string :: SpellsAs(raw, k, m, body, digest)
  }

  lemma {:induction false} WithoutIsHexOnly(s: string)
    ensures AllHex(Without(s, ": -")) <==> IsSpelling(s)
    ensures IsSpelling(s) ==> Without(s, ": -") == HexOnly(s)
  {
    if s != "" {
      var c, rest := s[0], Without(s[1..], ": -");
      WithoutIsHexOnly(s[1..]);
      SpellingBehind(s);
      assert c in ": -" <==> c == ':' || c == ' ' || c == '-';
      assert c !in ": -" ==> (AllHex([c] + rest) <==> IsHexDigit(c) && AllHex(rest)) by {
        HexBehind(c, rest);
      }
      assert "" + rest == rest && "" + HexOnly(s[1..]) == HexOnly(s[1..]);
    }
  }

  lemma SpellingBehind(s: string)
    requires s != ""
    ensures IsSpelling(s) <==> (IsHexDigit(s[0]) || s[0] == ':' || s[0] == ' ' || s[0] == '-') && IsSpelling(s[1..])
  {
    if IsSpelling(s[1..]) {
      assert forall i :: 1 <= i < |s| ==> s[i] == s[1..][i - 1];
    }
  }

  lemma HexBehind(c: char, rest: string)
    ensures AllHex([c] + rest) <==> IsHexDigit(c) && AllHex(rest)
  {
    var s := [c] + rest;
    assert s[0] == c && forall i :: 0 <= i < |rest| ==> s[i + 1] == rest[i];
    assert forall i :: 1 <= i < |s| ==> s[i] == rest[i - 1];
  }

  lemma {:induction false} TimesComeOff(p: string, k: nat, s: string)
    requires p != "" && !(p <= s)
    ensures TrimMatches(Times(p, k) + s, p) == s
  {
    if k == 0 {
      assert "" + s == s;
    } else {
      Assoc(p, Times(p, k - 1), s);
      SplitConcat(p, Times(p, k - 1) + s, |p|);
      assert p[|p|..] + (Times(p, k - 1) + s) == Times(p, k - 1) + s;
      assert p <= p + (Times(p, k - 1) + s);
      TimesComeOff(p, k - 1, s);
    }
  }

  ghost predicate IsBehind(end: string, s: string, p: string, k: nat) {
    s == Times(p, k) + end
  }

  lemma OneMore(s: string, p: string, n: nat, end: string)
    requires p <= s && IsBehind(end, s[|p|..], p, n)
    ensures IsBehind(end, s, p, n + 1)
  {
    Assoc(p, Times(p, n), end);
    assert s == p + s[|p|..];
  }

  lemma NoneCameOff(s: string, p: string)
    ensures IsBehind(s, s, p, 0)
  {
    assert "" + s == s;
  }

  lemma {:induction false} WhatCameOff(s: string, p: string) returns (k: nat)
    requires p != ""
    ensures IsBehind(TrimMatches(s, p), s, p, k)
    decreases |s|
  {
    if p <= s {
      var n := WhatCameOff(s[|p|..], p);
      k := n + 1;
      OneMore(s, p, n, TrimMatches(s[|p|..], p));
    } else {
      k := 0;
      NoneCameOff(s, p);
    }
  }

  lemma CapitalsInFront(m: nat, body: string)
    requires IsSpelling(body)
    ensures !("sha256:" <= Times("SHA256:", m) + body) && !("SHA256:" <= body)
  {
    var s := Times("SHA256:", m) + body;
    if s != "" {
      assert s[0] == if m == 0 then body[0] else "SHA256:"[0];
      assert "sha256:"[0] == 's' && "SHA256:"[0] == 'S';
      assert m == 0 ==> s[0] != 's';
    }
    if body != "" {
      assert body[0] != 'S' && "SHA256:"[0] == 'S';
    }
  }

  /** The form accepts a text for a digest if and only if it is one of those forms of it, and
      stores the agent's own form. */
  lemma AcceptedIffForm(raw: string, digest: seq<Byte>)
    requires |digest| == 32
    ensures NormaliseFingerprint(raw) == Pinned(Printed(digest)) <==> IsFormOf(raw, digest)
  {
    AcceptedIffSpelled(raw, digest);
    if IsFormOf(raw, digest) {
      var k: nat, m: nat, body: string :| SpellsAs(raw, k, m, body, digest);
      CapitalsInFront(m, body);
      TimesComeOff("sha256:", k, Times("SHA256:", m) + body);
      TimesComeOff("SHA256:", m, body);
      WithoutIsHexOnly(body);
    }
    if NormaliseFingerprint(raw) == Pinned(Printed(digest)) {
      var small := TrimMatches(Trim(raw), "sha256:");
      var body := TrimMatches(small, "SHA256:");
      var k := WhatCameOff(Trim(raw), "sha256:");
      var m := WhatCameOff(small, "SHA256:");
      ReadOfHex(digest, Cleaned(raw));
      WithoutIsHexOnly(body);
      assert SpellsAs(raw, k, m, body, digest);
    }
  }

  lemma AcceptedIsPrinted(raw: string)
    ensures NormaliseFingerprint(raw).Pinned? ==>
              && AllHex(Cleaned(raw)) && |Cleaned(raw)| == 64
              && NormaliseFingerprint(raw) == Pinned(Printed(ReadHex(Cleaned(raw))))
  {
    var hex := Cleaned(raw);
    if |hex| == 64 && AllHex(hex) {
      UpperOfHex(hex);
      ChunksOfHex(ReadHex(hex));
    }
  }

  /** The agent's form is a fixed point. */
  lemma PrintedIsNormal(digest: seq<Byte>)
    requires |digest| == 32
    ensures NormaliseFingerprint(Printed(digest)) == Pinned(Printed(digest))
  {
    CleanedPrinted(digest);
    UpperOfText(digest);
    AcceptedIffSpelled(Printed(digest), digest);
  }

  lemma UpperOfText(d: seq<Byte>)
    ensures Upper(HexText(d)) == HexText(d)
  {
    var h := HexText(d);
    TextIsUpper(d);
    UpperAt(h);
  }

  lemma TextIsUpper(d: seq<Byte>)
    ensures forall i :: 0 <= i < |HexText(d)| ==> HexText(d)[i] < 'a'
  {
    if d != [] {
      TextIsUpper(d[1..]);
      HexByteIsHex(d[0]);
    }
  }

  // ---------------------------------------------------------------------------------------
  // The TLS verifier
  // ---------------------------------------------------------------------------------------

  datatype Verdict =
    | Verified
    | InvalidHex
    | InvalidLength
    | Mismatch
    | Panics

  /** `u8::from_str_radix` of two characters; a leading plus sign is accepted. */
  function FromRadix(a: char, b: char): Option<Byte> {
    if a == '+' then if IsHexDigit(b) then Some(DigitValue(b)) else None
    else if IsHexDigit(a) && IsHexDigit(b) then Some(16 * DigitValue(a) + DigitValue(b))
    else None
  }

  function Decode(h: string): Option<seq<Byte>> {
    if |h| < 2 then Some([])
    else
      match FromRadix(h[0], h[1])
      case None => None
      case Some(b) =>
        match Decode(h[2..])
        case None => None
        case Some(rest) => Some([b] + rest)
  }

  ghost predicate IsAscii(s: string) {
    forall i :: 0 <= i < |s| ==> s[i] as int < 0x80
  }

  /** `str::to_lowercase` knows all of Unicode. */
  ghost predicate IsLowercase(lower: string -> string) {
    forall s :: IsAscii(s) ==> lower(s) == Lower(s)
  }

  function Expected(pin: string, lower: string -> string): string {
    var text := lower(Trim(pin));
    Without(if PREFIX <= text then text[|PREFIX|..] else text, ":")
  }

  /** A byte of UTF-8: a whole character, or the first or a later one of several. */
  datatype Unit = Ascii(c: char) | Lead | Cont

  function CharUnits(c: char): (u: seq<Unit>)
    ensures u != [] && (u[0].Ascii? <==> c as int < 0x80)
  {
    var n := c as int;
    if n < 0x80 then [Ascii(c)]
    else if n < 0x800 then [Lead, Cont]
    else if n < 0x1_0000 then [Lead, Cont, Cont]
    else [Lead, Cont, Cont, Cont]
  }

  function Utf8(s: string): seq<Unit> {
    if s == "" then [] else CharUnits(s[0]) + Utf8(s[1..])
  }

  /** `str::is_char_boundary`; slicing anywhere else panics. */
  predicate IsBoundary(u: seq<Unit>, k: nat) {
    k < |u| ==> !u[k].Cont?
  }

  datatype Read<T> = Fine(value: T) | NotHex | Panic

  function ReadPair(u: seq<Unit>, k: nat): Read<Byte>
    requires k + 2 <= |u|
  {
    if !IsBoundary(u, k) || !IsBoundary(u, k + 2) then Panic
    else if !u[k].Ascii? || !u[k + 1].Ascii? then NotHex
    else
      match FromRadix(u[k].c, u[k + 1].c)
      case None => NotHex
      case Some(b) => Fine(b)
  }

  /** The pairs from `k` on. */
  function ReadPin(u: seq<Unit>, k: nat): Read<seq<Byte>>
    decreases |u| - k
  {
    if k + 2 > |u| then Fine([])
    else
      match ReadPair(u, k)
      case Panic => Panic
      case NotHex => NotHex
      case Fine(b) => Extend([b], ReadPin(u, k + 2))
  }

  function Extend(bytes: seq<Byte>, rest: Read<seq<Byte>>): Read<seq<Byte>> {
    match rest
    case Fine(more) => Fine(bytes + more)
    case _ => rest
  }

  function VerdictOn(pin: string, hash: seq<Byte>, lower: string -> string): Verdict {
    var u := Utf8(Expected(pin, lower));
    if |u| != 64 then InvalidLength
    else
      match ReadPin(u, 0)
      case Panic => Panics
      case NotHex => InvalidHex
      case Fine(bytes) => if bytes == hash then Verified else Mismatch
  }

  /** Fills the buffer; stops at the first pair that is no number or cuts a character in two. */
  method DecodePin(u: seq<Unit>, bytes: array<Byte>) returns (r: Read<bool>)
    requires bytes.Length == 32 && |u| == 64
    modifies bytes
    ensures ReadPin(u, 0) == match r case Fine(_) => Fine(bytes[..]) case NotHex => NotHex case Panic => Panic
  {
    assert bytes[..0] == [];
    ExtendNothing(ReadPin(u, 0));
    for i := 0 to 32
      invariant ReadPin(u, 0) == Extend(bytes[..i], ReadPin(u, 2 * i))
    {
      var b := ReadPair(u, 2 * i);
      match b {
        case Panic => return Panic;
        case NotHex => return NotHex;
        case Fine(value) =>
          ExtendTwice(bytes[..i], value, ReadPin(u, 2 * i + 2));
          bytes[i] := value;
          assert bytes[..i + 1] == bytes[..i] + [value];
      }
    }
    assert bytes[..32] == bytes[..];
    assert bytes[..] + [] == bytes[..];
    r := Fine(true);
  }

  lemma ExtendNothing(rest: Read<seq<Byte>>)
    ensures Extend([], rest) == rest
  {
    if rest.Fine? {
      assert [] + rest.value == rest.value;
    }
  }

  lemma ExtendTwice(bytes: seq<Byte>, b: Byte, rest: Read<seq<Byte>>)
    ensures Extend(bytes, Extend([b], rest)) == Extend(bytes + [b], rest)
  {
    if rest.Fine? {
      Assoc(bytes, [b], rest.value);
    }
  }

  /** The comparison without an early exit. */
  method Difference(a: array<Byte>, b: array<Byte>) returns (diff: nat)
    requires a.Length == b.Length
    ensures diff == 0 <==> a[..] == b[..]
  {
    diff := 0;
    for i := 0 to a.Length
      invariant diff == 0 <==> a[..i] == b[..i]
    {
      XorIsZero(a[i], b[i]);
      OrIsZero(diff, Xor(a[i], b[i]));
      diff := Or(diff, Xor(a[i], b[i]));
      assert a[..i + 1] == a[..i] + [a[i]] && b[..i + 1] == b[..i] + [b[i]];
    }
    assert a[..a.Length] == a[..] && b[..a.Length] == b[..];
  }

  method VerifyServerCert(pin: string, hash: array<Byte>, lower: string -> string) returns (r: Verdict)
    requires hash.Length == 32
    ensures r == VerdictOn(pin, hash[..], lower)
  {
    var u := Utf8(Expected(pin, lower));
    if |u| != 64 {
      return InvalidLength;
    }
    var bytes := new Byte[32](_ => 0);
    var read := DecodePin(u, bytes);
    match read {
      case Panic => return Panics;
      case NotHex => return InvalidHex;
      case Fine(_) =>
    }
    var diff := Difference(bytes, hash);
    r := if diff == 0 then Verified else Mismatch;
  }

  lemma {:induction false} AsciiUnits(s: string)
    ensures IsAscii(s) ==> |Utf8(s)| == |s| && forall i :: 0 <= i < |s| ==> Utf8(s)[i] == Ascii(s[i])
    ensures (forall i :: 0 <= i < |Utf8(s)| ==> Utf8(s)[i].Ascii?) ==> IsAscii(s)
  {
    if s != "" {
      var first, rest := CharUnits(s[0]), Utf8(s[1..]);
      AsciiUnits(s[1..]);
      assert Utf8(s) == first + rest;
      assert forall i :: 0 <= i < |s[1..]| ==> s[1..][i] == s[i + 1];
      if forall i :: 0 <= i < |Utf8(s)| ==> Utf8(s)[i].Ascii? {
        assert forall i :: 0 <= i < |rest| ==> rest[i] == Utf8(s)[|first| + i];
        assert Utf8(s)[0] == first[0];
        assert forall i :: 0 < i < |s| ==> s[i] == s[1..][i - 1];
      }
    }
  }

  lemma {:induction false} ReadsAscii(s: string, k: nat)
    requires IsAscii(s) && k <= |s|
    ensures ReadPin(Utf8(s), k) == match Decode(s[k..]) case None => NotHex case Some(d) => Fine(d)
    decreases |s| - k
  {
    AsciiUnits(s);
    if k + 2 <= |s| {
      ReadsAscii(s, k + 2);
      DropTwice(s, k, 2);
      assert s[k..][0] == s[k] && s[k..][1] == s[k + 1];
    }
  }

  lemma {:induction false} ReadIsAscii(u: seq<Unit>, k: nat, i: nat)
    requires ReadPin(u, k).Fine? && k <= i < |u| && (|u| - k) % 2 == 0
    ensures u[i].Ascii?
    decreases |u| - k
  {
    if i >= k + 2 {
      ReadIsAscii(u, k + 2, i);
    }
  }

  /** A pin is accepted exactly if it is ASCII and spells the digest; whatever Unicode it is made
      of, nothing else is. */
  lemma VerifiedIff(pin: string, hash: seq<Byte>, lower: string -> string)
    ensures VerdictOn(pin, hash, lower) == Verified
            <==> var h := Expected(pin, lower); IsAscii(h) && |h| == 64 && Decode(h) == Some(hash)
  {
    var h := Expected(pin, lower);
    AsciiUnits(h);
    if IsAscii(h) {
      ReadsAscii(h, 0);
      assert h[0..] == h;
    } else if |Utf8(h)| == 64 && ReadPin(Utf8(h), 0).Fine? {
      forall i | 0 <= i < |Utf8(h)|
        ensures Utf8(h)[i].Ascii?
      {
        ReadIsAscii(Utf8(h), 0, i);
      }
    }
  }

  /** The two characters are the byte in hexadecimal, in either case, or a plus sign and its only
      digit. */
  ghost predicate SpellsByte(a: char, b: char, n: Byte) {
    || (UpperAscii(a) == HexByte(n)[0] && UpperAscii(b) == HexByte(n)[1])
    || (a == '+' && n < 16 && UpperAscii(b) == HexByte(n)[1])
  }

  ghost predicate SpellsBytes(h: string, hash: seq<Byte>) {
    |h| == 2 * |hash| && forall i :: 0 <= i < |hash| ==> SpellsByte(h[2 * i], h[2 * i + 1], hash[i])
  }

  lemma RadixIff(a: char, b: char, n: Byte)
    ensures FromRadix(a, b) == Some(n) <==> SpellsByte(a, b, n)
  {
    DigitIff(a, n / 16);
    DigitIff(b, n % 16);
    assert n < 16 ==> n / 16 == 0 && n % 16 == n;
  }

  lemma DigitIff(c: char, n: nat)
    requires n < 16
    ensures UpperAscii(c) == HexDigit(n) <==> IsHexDigit(c) && DigitValue(c) == n
  {
    if IsHexDigit(c) {
      UpperOfDigit(c);
      if UpperAscii(c) == HexDigit(n) {
        DigitOfHex(c, n);
      }
    } else if UpperAscii(c) == HexDigit(n) {
      DigitOfHex(c, n);
    }
  }

  lemma {:induction false} DecodedIff(h: string, hash: seq<Byte>)
    requires |h| == 2 * |hash|
    ensures Decode(h) == Some(hash) <==> SpellsBytes(h, hash)
  {
    if hash != [] {
      DecodedIff(h[2..], hash[1..]);
      RadixIff(h[0], h[1], hash[0]);
      SpellsBehind(h, hash);
      assert hash == [hash[0]] + hash[1..];
      if Decode(h) == Some(hash) {
        assert FromRadix(h[0], h[1]).value == hash[0];
        assert Decode(h[2..]).value == hash[1..];
      }
    }
  }

  lemma SpellsBehind(h: string, hash: seq<Byte>)
    requires |h| == 2 * |hash| && hash != []
    ensures SpellsBytes(h, hash) <==> SpellsByte(h[0], h[1], hash[0]) && SpellsBytes(h[2..], hash[1..])
  {
    if SpellsBytes(h, hash) {
      forall i | 0 <= i < |hash[1..]|
        ensures SpellsByte(h[2..][2 * i], h[2..][2 * i + 1], hash[1..][i])
      {
        assert SpellsByte(h[2 * (i + 1)], h[2 * (i + 1) + 1], hash[i + 1]);
      }
    }
    if SpellsByte(h[0], h[1], hash[0]) && SpellsBytes(h[2..], hash[1..]) {
      forall i | 0 <= i < |hash|
        ensures SpellsByte(h[2 * i], h[2 * i + 1], hash[i])
      {
        if i > 0 {
          assert SpellsByte(h[2..][2 * (i - 1)], h[2..][2 * (i - 1) + 1], hash[1..][i - 1]);
        }
      }
    }
  }

  /** A pin is accepted exactly if it is 64 characters, each pair of which stands for a byte of the
      digest: in either case, or, for a byte below 16, as a plus sign and its digit. */
  lemma VerifiedIffPairs(pin: string, hash: seq<Byte>, lower: string -> string)
    requires |hash| == 32
    ensures VerdictOn(pin, hash, lower) == Verified <==> SpellsBytes(Expected(pin, lower), hash)
  {
    var h := Expected(pin, lower);
    VerifiedIff(pin, hash, lower);
    if |h| == 64 {
      DecodedIff(h, hash);
      if SpellsBytes(h, hash) {
        SpelledIsAscii(h, hash);
      }
    }
  }

  lemma SpelledIsAscii(h: string, hash: seq<Byte>)
    requires SpellsBytes(h, hash)
    ensures IsAscii(h)
  {
    forall k | 0 <= k < |h|
      ensures h[k] as int < 0x80
    {
      assert SpellsByte(h[2 * (k / 2)], h[2 * (k / 2) + 1], hash[k / 2]);
      assert k == 2 * (k / 2) || k == 2 * (k / 2) + 1;
    }
  }

  /** What is left of the pin in front of its first pair that is no number. */
  function Unread(h: string): string {
    if |h| >= 2 && FromRadix(h[0], h[1]).Some? then Unread(h[2..]) else h
  }

  /** The next two bytes end inside a character: the text begins with one of three or four bytes,
      or with a single byte and one of several. */
  predicate CutsCharacter(r: string) {
    r != "" && (r[0] as int >= 0x800 || (r[0] as int < 0x80 && |r| >= 2 && r[1] as int >= 0x80))
  }

  /** The number of bytes of a text: code points up to U+007F take one, up to U+07FF two, up to
      U+FFFF three, and the others four. */
  function Size(s: string): nat {
    if s == "" then 0
    else
      var n := s[0] as int;
      (if n <= 0x7f then 1 else if n <= 0x7ff then 2 else if n <= 0xffff then 3 else 4) + Size(s[1..])
  }

  lemma {:induction false} SizeOfUtf8(s: string)
    ensures |Utf8(s)| == Size(s)
  {
    if s != "" {
      SizeOfUtf8(s[1..]);
    }
  }

  /** Reading from `k` on is reading what is behind the first `k` bytes. */
  lemma {:induction false} ReadsBehind(u: seq<Unit>, k: nat, n: nat)
    requires k + n <= |u|
    ensures ReadPin(u, k + n) == ReadPin(u[k..], n)
    decreases |u| - k - n
  {
    if k + n + 2 <= |u| {
      ReadsBehind(u, k, n + 2);
    }
  }

  lemma {:induction false} FirstPair(h: string)
    requires |h| >= 2 && FromRadix(h[0], h[1]).Some?
    ensures Utf8(h) == [Ascii(h[0]), Ascii(h[1])] + Utf8(h[2..])
    ensures ReadPin(Utf8(h), 0) == Extend([FromRadix(h[0], h[1]).value], ReadPin(Utf8(h[2..]), 0))
  {
    assert h[1..][0] == h[1] && h[1..][1..] == h[2..];
    var u, rest := Utf8(h), Utf8(h[2..]);
    assert Utf8(h[1..]) == [Ascii(h[1])] + rest;
    assert u == [Ascii(h[0])] + Utf8(h[1..]);
    assert u[2..] == rest;
    NoContInFront(h[2..]);
    assert IsBoundary(u, 2);
    ReadsBehind(u, 2, 0);
  }

  lemma NoContInFront(h: string)
    ensures h != "" ==> Utf8(h) != [] && !Utf8(h)[0].Cont?
    ensures h == "" ==> Utf8(h) == []
  {
  }

  /** The first pair that is no number. */
  lemma StopsAtPair(h: string)
    requires |Utf8(h)| % 2 == 0 && h != ""
    requires |h| < 2 || FromRadix(h[0], h[1]).None?
    ensures ReadPin(Utf8(h), 0) == if CutsCharacter(h) then Panic else NotHex
  {
    var u := Utf8(h);
    assert u == CharUnits(h[0]) + Utf8(h[1..]);
    NoContInFront(h[1..]);
    if |h| >= 2 {
      assert Utf8(h[1..]) == CharUnits(h[1]) + Utf8(h[1..][1..]);
      NoContInFront(h[1..][1..]);
    }
  }

  lemma {:induction false} PanicIff(h: string)
    requires |Utf8(h)| % 2 == 0
    ensures ReadPin(Utf8(h), 0) == Panic <==> CutsCharacter(Unread(h))
  {
    if |h| >= 2 && FromRadix(h[0], h[1]).Some? {
      FirstPair(h);
      PanicIff(h[2..]);
    } else if h != "" {
      StopsAtPair(h);
    }
  }

  /** The verifier panics exactly if the pin has 64 bytes and its first pair of bytes that is no
      number ends inside a character. */
  lemma PanicsIff(pin: string, hash: seq<Byte>, lower: string -> string)
    ensures VerdictOn(pin, hash, lower) == Panics
            <==> var h := Expected(pin, lower); Size(h) == 64 && CutsCharacter(Unread(h))
  {
    SizeOfUtf8(Expected(pin, lower));
    if |Utf8(Expected(pin, lower))| == 64 {
      PanicIff(Expected(pin, lower));
    }
  }

  /** A euro sign and sixty-one digits. */
  lemma EuroPanics(pin: string, zeros: string, hash: seq<Byte>, lower: string -> string)
    requires zeros == seq(61, _ => '0') && pin == ['\U{20AC}'] + zeros && lower(pin) == pin
    ensures VerdictOn(pin, hash, lower) == Panics
  {
    assert IsAscii(zeros);
    ExpectedAsItIs(pin, lower);
    WideFirst(pin[0], zeros, pin);
    PanicsIff(pin, hash, lower);
  }

  lemma WideFirst(c: char, rest: string, pin: string)
    requires 0x800 <= c as int < 0x1_0000 && IsAscii(rest) && pin == [c] + rest
    ensures Size(pin) == 3 + |rest| && CutsCharacter(Unread(pin))
  {
    AsciiUnits(rest);
    SizeOfUtf8(rest);
    assert pin[1..] == rest;
  }

  lemma ExpectedAsItIs(pin: string, lower: string -> string)
    requires lower(pin) == pin && pin != "" && pin[0] != 's'
    requires forall c :: c in pin ==> c != ':' && !IsWhitespace(c)
    ensures Expected(pin, lower) == pin
  {
    assert "" + pin + "" == pin;
    assert !IsWhitespace(pin[0]) && !IsWhitespace(pin[|pin| - 1]);
    TrimSkips("", pin, "");
    WithoutNothing(pin, ":");
  }

  lemma WithoutNothing(s: string, drop: string)
    requires forall c :: c in s ==> c !in drop
    ensures Without(s, drop) == s
  {
    if s != "" {
      assert s[0] in s && forall c :: c in s[1..] ==> c in s;
      WithoutNothing(s[1..], drop);
      assert [s[0]] + s[1..] == s;
    }
  }

  // ---------------------------------------------------------------------------------------
  // Agreement of the three
  // ---------------------------------------------------------------------------------------

  lemma LowerConcat(a: string, b: string)
    ensures Lower(a + b) == Lower(a) + Lower(b)
  {
    if a == "" {
      assert a + b == b;
    } else {
      SplitConcat(a, b, 1);
      LowerConcat(a[1..], b);
      Assoc([LowerAscii(a[0])], Lower(a[1..]), Lower(b));
    }
  }

  lemma LowerPair(a: char, b: char)
    ensures Lower([a, b]) == [LowerAscii(a), LowerAscii(b)]
  {
    assert [a, b][1..] == [b] && [b][1..] == "";
  }

  lemma {:induction false} LowerWithoutColons(d: seq<Byte>, drop: string)
    requires IsSeparators(drop)
    ensures Without(Lower(Joined(HexBytes(d))), drop) == Lower(HexText(d))
  {
    if d != [] {
      var h := HexByte(d[0]);
      LowerWithoutColons(d[1..], drop);
      HexByteIsHex(d[0]);
      LowerPair(h[0], h[1]);
      var l := Lower(h);
      assert IsHexDigit(l[0]) && IsHexDigit(l[1]);
      LowerConcat(h, HexText(d[1..]));
      assert HexBytes(d)[1..] == HexBytes(d[1..]);
      if |d| == 1 {
        WithoutPair(l[0], l[1], "", drop);
        assert l + "" == l;
      } else {
        var rest := Joined(HexBytes(d[1..]));
        LowerConcat(h, ":" + rest);
        LowerColon(rest, drop);
        WithoutPair(l[0], l[1], Lower(":" + rest), drop);
      }
    }
  }

  lemma LowerColon(rest: string, drop: string)
    requires ':' in drop
    ensures Without(Lower(":" + rest), drop) == Without(Lower(rest), drop)
  {
    var s := ":" + rest;
    assert s[1..] == rest;
    assert Lower(s)[0] == ':' && Lower(s)[1..] == Lower(rest);
    assert "" + Without(Lower(rest), drop) == Without(Lower(rest), drop);
  }

  lemma {:induction false} DecodeOfLower(d: seq<Byte>)
    ensures Decode(Lower(HexText(d))) == Some(d)
  {
    if d != [] {
      var h := HexByte(d[0]);
      HexByteIsHex(d[0]);
      LowerPair(h[0], h[1]);
      LowerConcat(h, HexText(d[1..]));
      var text := Lower(HexText(d));
      assert text[2..] == Lower(HexText(d[1..]));
      LowerDigit(d[0] / 16);
      LowerDigit(d[0] % 16);
      DecodeOfLower(d[1..]);
      assert d == [d[0]] + d[1..];
    }
  }

  lemma LowerDigit(n: nat)
    requires n < 16
    ensures var c := LowerAscii(HexDigit(n)); IsHexDigit(c) && c != '+' && DigitValue(c) == n
  {
  }

  lemma ExpectedOfPrinted(d: seq<Byte>, lower: string -> string)
    requires d != [] && IsLowercase(lower)
    ensures Expected(Printed(d), lower) == Lower(HexText(d))
  {
    PrintedIsAscii(d);
    var j := Joined(HexBytes(d));
    JoinedEdges(d);
    PrefixComesOff(PREFIX, j);
    LowerOfPrefix();
    LowerConcat(PREFIX, j);
    LowerWithoutColons(d, ":");
    ExpectedBehind(Printed(d), PREFIX, Lower(j), lower);
  }

  lemma ExpectedBehind(pin: string, prefix: string, rest: string, lower: string -> string)
    requires prefix == PREFIX && Trim(pin) == pin && lower(pin) == prefix + rest
    ensures Expected(pin, lower) == Without(rest, ":")
  {
    assert (prefix + rest)[|prefix|..] == rest;
  }

  lemma LowerOfPrefix()
    ensures Lower(PREFIX) == PREFIX
  {
    var s := PREFIX;
    assert s[1..] == "ha256:" && s[1..][1..] == "a256:" && s[1..][1..][1..] == "256:";
    assert "256:"[1..] == "56:" && "56:"[1..] == "6:" && "6:"[1..] == ":" && ":"[1..] == "";
    assert Lower("56:") == "56:";
    assert Lower("256:") == "256:";
    assert Lower("a256:") == "a256:";
    assert Lower("ha256:") == "ha256:";
  }

  /** The verifier accepts a printed pin exactly for the certificate it was printed for. */
  lemma PrintedPinVerifies(digest: seq<Byte>, hash: seq<Byte>, lower: string -> string)
    requires |digest| == 32 && IsLowercase(lower)
    ensures VerdictOn(Printed(digest), hash, lower) == if hash == digest then Verified else Mismatch
  {
    var h := Lower(HexText(digest));
    ExpectedOfPrinted(digest, lower);
    DecodeOfLower(digest);
    TextIsUpper(digest);
    LowerAt(HexText(digest));
    AsciiUnits(h);
    ReadsAscii(h, 0);
    assert h[0..] == h;
  }

  /** The same character, or the same letter in the other case. */
  predicate SameLetter(a: char, b: char) {
    a == b || ('A' <= a <= 'Z' && b == a - 'A' + 'a') || ('A' <= b <= 'Z' && a == b - 'A' + 'a')
  }

  ghost predicate SameLetters(s: string, t: string) {
    |s| == |t| && forall i :: 0 <= i < |s| ==> SameLetter(s[i], t[i])
  }

  lemma LowerOfSameLetters(s: string, t: string)
    requires SameLetters(s, t)
    ensures Lower(s) == Lower(t)
  {
    LowerAt(s);
    LowerAt(t);
    assert forall i :: 0 <= i < |s| ==> Lower(s)[i] == Lower(t)[i];
  }

  lemma UntrimmedLikePrinted(pin: string, digest: seq<Byte>)
    requires digest != [] && SameLetters(pin, Printed(digest))
    ensures Trim(pin) == pin && Trim(Printed(digest)) == Printed(digest) && IsAscii(pin)
  {
    var j := Joined(HexBytes(digest));
    var s := PREFIX + j;
    PrintedIsAscii(digest);
    JoinedEdges(digest);
    assert s[0] == 's' && s[|s| - 1] == j[|j| - 1];
    assert SameLetter(pin[0], s[0]) && SameLetter(pin[|s| - 1], s[|s| - 1]);
    Untrimmed(s);
    Untrimmed(pin);
    forall i | 0 <= i < |pin|
      ensures pin[i] as int < 0x80
    {
      assert SameLetter(pin[i], s[i]);
    }
  }

  /** So does it in any mixture of capitals and small letters, those of the prefix included. */
  lemma AnyCaseVerifies(pin: string, digest: seq<Byte>, hash: seq<Byte>, lower: string -> string)
    requires |digest| == 32 && IsLowercase(lower) && SameLetters(pin, Printed(digest))
    ensures VerdictOn(pin, hash, lower) == if hash == digest then Verified else Mismatch
  {
    PrintedPinVerifies(digest, hash, lower);
    UntrimmedLikePrinted(pin, digest);
    PrintedIsAscii(digest);
    LowerOfSameLetters(pin, Printed(digest));
  }

  lemma LowerAt(h: string)
    ensures forall i :: 0 <= i < |h| ==> Lower(h)[i] == LowerAscii(h[i])
  {
    if h != "" {
      LowerAt(h[1..]);
    }
  }

  /** Whatever the operator pastes, the connection is accepted exactly if the certificate's
      printed fingerprint is the pin that was stored. */
  lemma StoredPinVerifies(raw: string, hash: seq<Byte>, lower: string -> string)
    requires NormaliseFingerprint(raw).Pinned? && |hash| == 32 && IsLowercase(lower)
    ensures var pin := NormaliseFingerprint(raw).text;
            && NormaliseFingerprint(pin) == Pinned(pin)
            && (VerdictOn(pin, hash, lower) == Verified <==> Printed(hash) == pin)
            && (VerdictOn(pin, hash, lower) == Verified <==> Upper(Cleaned(raw)) == HexText(hash))
  {
    AcceptedIsPrinted(raw);
    var d := ReadHex(Cleaned(raw));
    PrintedIsNormal(d);
    PrintedPinVerifies(d, hash, lower);
    PrintedIsInjective(d, hash);
    AcceptedIffSpelled(raw, hash);
  }

  lemma PrintedIsInjective(d: seq<Byte>, e: seq<Byte>)
    requires |d| == 32 == |e|
    ensures Printed(d) == Printed(e) ==> d == e
  {
    CleanedPrinted(d);
    CleanedPrinted(e);
    UpperOfText(d);
    UpperOfText(e);
    ReadOfHex(d, HexText(d));
    ReadOfHex(e, HexText(e));
  }

  lemma PrintedIsAscii(d: seq<Byte>)
    ensures IsAscii(Printed(d))
  {
    JoinedIsAscii(d);
    assert IsAscii(PREFIX);
    ConcatIsAscii(PREFIX, Joined(HexBytes(d)));
  }

  lemma ConcatIsAscii(a: string, b: string)
    requires IsAscii(a) && IsAscii(b)
    ensures IsAscii(a + b)
  {
  }

  lemma JoinedIsAscii(d: seq<Byte>)
    ensures IsAscii(Joined(HexBytes(d)))
  {
    if d != [] {
      HexByteIsHex(d[0]);
      JoinedIsAscii(d[1..]);
      assert HexBytes(d)[1..] == HexBytes(d[1..]);
      if |d| > 1 {
        ConcatIsAscii(":", Joined(HexBytes(d[1..])));
        ConcatIsAscii(HexByte(d[0]), ":" + Joined(HexBytes(d[1..])));
      }
    }
  }
}
