/** The Base32 codec of the TOTP secrets: RFC 4648 section 6, without padding. The 32-bit
    accumulators are naturals with the wrap-around of `u32` written out. */
module Base32 {
  import opened Octets
  import opened Text

  const ALPHABET := "ABCDEFGHIJKLMNOPQRSTUVWXYZ234567"

  /** All that the codec needs of its alphabet: 32 different upper-case letters or digits. */
  ghost predicate IsAlphabet(abc: string) {
    && |abc| == 32
    && (forall i, j :: 0 <= i < j < 32 ==> abc[i] != abc[j])
    && forall i :: 0 <= i < 32 ==> 'A' <= abc[i] <= 'Z' || '0' <= abc[i] <= '9'
  }

  lemma AlphabetIsOne()
    ensures IsAlphabet(ALPHABET)
  {
    forall i | 0 <= i < 32
      ensures ALPHABET[i] as int == LetterCode(i)
    {
      AlphabetAt(i);
    }
  }

  function LetterCode(i: nat): nat {
    if i < 26 then 'A' as int + i else '2' as int + (i - 26)
  }

  lemma AlphabetAt(i: nat)
    requires i < 32
    ensures |ALPHABET| == 32 && ALPHABET[i] as int == LetterCode(i)
  {
  }

  // ---------------------------------------------------------------------------------------
  // Machine arithmetic and bit strings
  // ---------------------------------------------------------------------------------------

  /** `v << k` on `u32`. */
  function Shl(v: nat, k: nat): (r: nat)
    ensures r < 0x1_0000_0000
  {
    v * Pow2(k) % 0x1_0000_0000
  }

  function Shr(v: nat, k: nat): (r: nat)
    ensures r == v / Pow2(k)
  {
    DivNonNegative(v, Pow2(k));
    v / Pow2(k)
  }

  /** `(v << k) | x` puts the `k` bits of `x` below those of `v`. */
  lemma OrBelow(v: nat, k: nat, x: nat)
    requires k <= 32 && x < Pow2(k)
    ensures Or(Shl(v, k), x) == Shl(v, k) + x
  {
    WordSize(k);
    ShiftedIsMultiple(v, Pow2(k), Pow2(32 - k), 0x1_0000_0000);
    OrAdds(Shl(v, k), x, k);
  }

  lemma ShiftedIsMultiple(v: nat, p: nat, q: nat, w: nat)
    requires p > 0 && q > 0 && p * q == w > 0
    ensures v * p % w % p == 0
  {
    ModOfMultiple(v * p, p, q);
    DivModUnique(v * p, p, v, 0);
  }

  lemma {:induction false} Pow2Sum(m: nat, n: nat)
    ensures Pow2(m) * Pow2(n) == Pow2(m + n)
  {
    if m > 0 {
      Pow2Sum(m - 1, n);
      TwiceProduct(Pow2(m - 1), Pow2(n), Pow2(m - 1 + n));
    }
  }

  lemma TwiceProduct(a: nat, b: nat, c: nat)
    requires a * b == c
    ensures (2 * a) * b == 2 * c
  {
  }

  lemma WordSize(k: nat)
    requires k <= 32
    ensures Pow2(k) * Pow2(32 - k) == 0x1_0000_0000
  {
    Pow2Sum(k, 32 - k);
    Powers();
    Pow2Sum(5, 27);
    assert Pow2(32) == 32 * 0x800_0000;
  }

  lemma ModOfMultiple(w: nat, p: nat, q: nat)
    requires p > 0 && q > 0 && p * q > 0
    ensures w % (p * q) % p == w % p
  {
    var d, r := w / (p * q), w % (p * q);
    assert w == p * q * d + r;
    assert p * q * d == (q * d) * p;
    DivModUnique(r, p, r / p, r % p);
    assert r == (r / p) * p + r % p;
    assert (q * d + r / p) * p == (q * d) * p + (r / p) * p;
    DivModUnique(w, p, q * d + r / p, r % p);
  }

  lemma DivNonNegative(v: nat, p: nat)
    requires p > 0
    ensures v / p >= 0
  {
  }

  /** Most significant bit first. */
  type Bits = seq<bool>

  /** The `n` low bits of a number. */
  function Low(v: nat, n: nat): (r: Bits)
    ensures |r| == n
  {
    if n == 0 then [] else Low(v / 2, n - 1) + [v % 2 == 1]
  }

  function Number(b: Bits): (v: nat)
    ensures v < Pow2(|b|)
  {
    if b == [] then 0 else 2 * Number(b[..|b| - 1]) + if b[|b| - 1] then 1 else 0
  }

  lemma {:induction false} LowSplit(v: nat, n: nat, k: nat)
    ensures Low(v, n + k) == Low(Shr(v, k), n) + Low(v, k)
    decreases k
  {
    if k == 0 {
      assert v / 1 == v;
      assert Low(v, n) + [] == Low(v, n);
    } else {
      LowSplit(v / 2, n, k - 1);
      HalfOfQuotient(v, Pow2(k - 1));
      assert Shr(v / 2, k - 1) == Shr(v, k);
      assert n + k - 1 == n + (k - 1);
      Assoc(Low(Shr(v, k), n), Low(v / 2, k - 1), [v % 2 == 1]);
    }
  }

  lemma {:induction false} LowOfMod(v: nat, n: nat, m: nat)
    requires n <= m
    ensures Low(v % Pow2(m), n) == Low(v, n)
  {
    if n > 0 {
      HalfOfQuotient(v, Pow2(m - 1));
      LowOfMod(v / 2, n - 1, m - 1);
    }
  }

  lemma {:induction false} NumberOfLow(v: nat, n: nat)
    ensures Number(Low(v, n)) == v % Pow2(n)
  {
    if n > 0 {
      NumberOfLow(v / 2, n - 1);
      HalfOfQuotient(v, Pow2(n - 1));
      assert Low(v, n)[..n - 1] == Low(v / 2, n - 1);
    }
  }

  lemma {:induction false} LowOfNumber(b: Bits)
    ensures Low(Number(b), |b|) == b
  {
    if b != [] {
      LowOfNumber(b[..|b| - 1]);
      assert Number(b) / 2 == Number(b[..|b| - 1]);
      assert b == b[..|b| - 1] + [b[|b| - 1]];
    }
  }

  lemma Powers()
    ensures Pow2(5) == 32 && Pow2(8) == 256 && Pow2(24) == 0x100_0000 && Pow2(27) == 0x800_0000
  {
    assert Pow2(4) == 16;
    assert Pow2(12) == 4096 by { assert Pow2(10) == 1024; }
    assert Pow2(20) == 0x10_0000 by { assert Pow2(16) == 0x1_0000 by { assert Pow2(14) == 0x4000; } assert Pow2(18) == 0x4_0000; }
    assert Pow2(22) == 0x40_0000;
    assert Pow2(25) == 0x200_0000;
  }

  /** Shifting a digit of `k` bits into the accumulator appends it to the pending bits; what
      the shift drops at the top is out of their reach. */
  lemma PushDigit(val: nat, digit: nat, n: nat, k: nat)
    requires (k == 8 && n <= 4) || (k == 5 && n <= 7)
    requires digit < Pow2(k)
    ensures Shl(val, k) + digit < 0x1_0000_0000
    ensures Low(Shl(val, k) + digit, n + k) == Low(val, n) + Low(digit, k)
  {
    Powers();
    var w := Shl(val, k) + digit;
    LowSplit(w, n, k);
    if k == 8 {
      ShiftedByte(val, digit);
      LowOfMod(val, n, 24);
    } else {
      ShiftedIndex(val, digit);
      LowOfMod(val, n, 27);
    }
    LowOfMod(w, k, k);
  }

  lemma ShiftedByte(val: nat, digit: nat)
    requires digit < 256
    ensures var w := val * 256 % 0x1_0000_0000 + digit;
            w < 0x1_0000_0000 && w / 256 == val % 0x100_0000 && w % 256 == digit
  {
    var q, r := val / 0x100_0000, val % 0x100_0000;
    assert val * 256 == q * 0x1_0000_0000 + r * 256;
    DivModUnique(val * 256, 0x1_0000_0000, q, r * 256);
  }

  lemma ShiftedIndex(val: nat, digit: nat)
    requires digit < 32
    ensures var w := val * 32 % 0x1_0000_0000 + digit;
            w < 0x1_0000_0000 && w / 32 == val % 0x800_0000 && w % 32 == digit
  {
    var q, r := val / 0x800_0000, val % 0x800_0000;
    assert val * 32 == q * 0x1_0000_0000 + r * 32;
    DivModUnique(val * 32, 0x1_0000_0000, q, r * 32);
  }

  /** The upper `k` of `n` pending bits as a number. */
  lemma TakeDigit(val: nat, n: nat, k: nat)
    requires k <= n
    ensures Low(val, n) == Low(Shr(val, n - k) % Pow2(k), k) + Low(val, n - k)
  {
    LowSplit(val, k, n - k);
    LowOfMod(Shr(val, n - k), k, k);
  }

  // ---------------------------------------------------------------------------------------
  // The encoding
  // ---------------------------------------------------------------------------------------

  function BitsOf(data: seq<Byte>): (r: Bits)
    ensures |r| == 8 * |data|
  {
    if data == [] then [] else Low(data[0], 8) + BitsOf(data[1..])
  }

  function LetterOf(g: Bits, abc: string): char
    requires |g| == 5 && |abc| == 32
  {
    Powers();
    abc[Number(g)]
  }

  function Zeros(n: nat): Bits {
    seq(n, _ => false)
  }

  /** The letters of a bit string: groups of five bits, the last one filled with zeros. */
  function Letters(b: Bits, abc: string): string
    requires |abc| == 32
    decreases |b|
  {
    if b == [] then ""
    else if |b| < 5 then [LetterOf(b + Zeros(5 - |b|), abc)]
    else [LetterOf(b[..5], abc)] + Letters(b[5..], abc)
  }

  /** The letters still to be written: of the pending bits and of the bytes from `i` on. */
  ghost function Unwritten(val: nat, n: nat, data: seq<Byte>, i: nat, abc: string): string
    requires i <= |data| && |abc| == 32
  {
    Letters(Low(val, n) + BitsOf(data[i..]), abc)
  }

  method Base32Encode(data: seq<Byte>, abc: string) returns (res: string)
    requires |abc| == 32
    ensures res == Letters(BitsOf(data), abc)
  {
    res := "";
    var bits := 0;
    var val := 0;
    assert data[0..] == data && Low(val, bits) + BitsOf(data) == BitsOf(data);
    for i := 0 to |data|
      invariant 0 <= bits <= 4
      invariant 0 <= val < 0x1_0000_0000
      invariant res + Unwritten(val, bits, data, i, abc) == Letters(BitsOf(data), abc)
    {
      PushByte(val, bits, data, i, abc);
      val := Or(Shl(val, 8), data[i]);
      bits := bits + 8;
      while bits >= 5
        invariant 0 <= bits <= 12
        invariant res + Unwritten(val, bits, data, i + 1, abc) == Letters(BitsOf(data), abc)
      {
        EmitLetter(val, bits, data, i + 1, abc);
        FiveBits(Shr(val, bits - 5));
        Assoc(res, [abc[And(Shr(val, bits - 5), 31)]], Unwritten(val, bits - 5, data, i + 1, abc));
        res := res + [abc[And(Shr(val, bits - 5), 31)]];
        bits := bits - 5;
      }
    }
    assert Low(val, bits) + [] == Low(val, bits);
    if bits > 0 {
      FillLetter(val, bits, abc);
      FiveBits(Shl(val, 5 - bits));
      res := res + [abc[And(Shl(val, 5 - bits), 31)]];
    }
  }

  lemma PushByte(val: nat, n: nat, data: seq<Byte>, i: nat, abc: string)
    requires |abc| == 32 && n <= 4 && i < |data|
    ensures Or(Shl(val, 8), data[i]) < 0x1_0000_0000
    ensures Unwritten(val, n, data, i, abc) == Unwritten(Or(Shl(val, 8), data[i]), n + 8, data, i + 1, abc)
  {
    Powers();
    OrBelow(val, 8, data[i]);
    PushDigit(val, data[i], n, 8);
    DropTwice(data, i, 1);
    Assoc(Low(val, n), Low(data[i], 8), BitsOf(data[i + 1..]));
  }

  lemma FiveBits(v: nat)
    ensures And(v, 31) == v % 32
  {
    Powers();
    AndMasks(v, 5);
  }

  lemma LettersOfGroup(g: Bits, rest: Bits, abc: string)
    requires |g| == 5 && |abc| == 32
    ensures Letters(g + rest, abc) == [LetterOf(g, abc)] + Letters(rest, abc)
  {
    assert (g + rest)[..5] == g && (g + rest)[5..] == rest;
  }

  lemma LetterOfLow(x: nat, n: nat, abc: string)
    requires x < 32 && n == 5 && |abc| == 32
    ensures LetterOf(Low(x, n), abc) == abc[x]
  {
    NumberOfSmall(x, n, 32) by { FifthPower(n); }
  }

  lemma NumberOfSmall(x: nat, n: nat, p: nat)
    requires x < p && p == Pow2(n)
    ensures Number(Low(x, n)) == x
  {
    NumberOfLow(x, n);
    DivModUnique(x, p, 0, x);
  }

  lemma FifthPower(n: nat)
    requires n == 5
    ensures Pow2(n) == 32
  {
    Powers();
  }

  lemma EmitLetter(val: nat, n: nat, data: seq<Byte>, i: nat, abc: string)
    requires |abc| == 32 && n >= 5 && i <= |data|
    ensures Unwritten(val, n, data, i, abc) == [abc[Shr(val, n - 5) % 32]] + Unwritten(val, n - 5, data, i, abc)
  {
    Powers();
    var rest := BitsOf(data[i..]);
    var x := Shr(val, n - 5) % 32;
    TakeDigit(val, n, 5);
    Assoc(Low(x, 5), Low(val, n - 5), rest);
    LettersOfGroup(Low(x, 5), Low(val, n - 5) + rest, abc);
    LetterOfLow(x, 5, abc);
  }

  lemma FillLetter(val: nat, n: nat, abc: string)
    requires 1 <= n <= 4 && |abc| == 32
    ensures Letters(Low(val, n), abc) == [abc[Shl(val, 5 - n) % 32]]
  {
    Powers();
    var k := 5 - n;
    var w := val * Pow2(k);
    ModOfMod(w);
    LowSplit(w, n, k);
    DivModUnique(w, Pow2(k), val, 0);
    LowOfMod(w, k, k);
    ZeroBits(k);
    LowOfMod(w, n + k, n + k);
    LastLetter(Low(val, n), Low(w, n + k), abc);
    LetterOfLow(w % 32, n + k, abc);
  }

  lemma LastLetter(b: Bits, filled: Bits, abc: string)
    requires 1 <= |b| <= 4 && filled == b + Zeros(5 - |b|) && |abc| == 32
    ensures Letters(b, abc) == [LetterOf(filled, abc)]
  {
  }

  lemma ModOfMod(w: nat)
    ensures w % 0x1_0000_0000 % 32 == w % 32
  {
    var q, r := w / 0x1_0000_0000, w % 0x1_0000_0000;
    assert w == 0x800_0000 * q * 32 + r;
    DivModUnique(w, 32, 0x800_0000 * q + r / 32, r % 32);
  }

  lemma ZeroBits(k: nat)
    ensures Low(0, k) == Zeros(k)
  {
    if k > 0 {
      ZeroBits(k - 1);
      assert Zeros(k) == Zeros(k - 1) + [false];
    }
  }

  /** RFC 4648 section 6: the bits, filled with zeros up to a multiple of five. */
  function Padded(b: Bits): (r: Bits)
    ensures |r| % 5 == 0 && |b| <= |r| <= |b| + 4
    decreases |b|
  {
    if b == [] then []
    else if |b| < 5 then b + Zeros(5 - |b|)
    else b[..5] + Padded(b[5..])
  }

  lemma {:induction false} PaddedIsFilled(b: Bits)
    ensures Padded(b) == b + Zeros(|Padded(b)| - |b|)
    decreases |b|
  {
    if |b| >= 5 {
      PaddedIsFilled(b[5..]);
      Assoc(b[..5], b[5..], Zeros(|Padded(b)| - |b|));
    }
  }

  /** Every letter stands for its group of five bits, and there is one for each group. */
  lemma {:induction false} LetterAt(b: Bits, abc: string, k: nat)
    requires |abc| == 32 && k < |Letters(b, abc)|
    ensures 5 * k + 5 <= |Padded(b)|
    ensures Letters(b, abc)[k] == LetterOf(Padded(b)[5 * k..5 * k + 5], abc)
    decreases |b|
  {
    if 0 < |b| < 5 {
      assert Padded(b)[0..5] == Padded(b);
    } else {
      if k > 0 {
        LetterAt(b[5..], abc, k - 1);
      }
      LetterBehind(b, abc, k, 5 * (k - 1));
    }
  }

  lemma LetterBehind(b: Bits, abc: string, k: nat, at: int)
    requires |abc| == 32 && |b| >= 5
    requires k > 0 ==> at >= 0 && at + 5 <= |Padded(b[5..])| && k < |Letters(b, abc)|
    requires k > 0 ==> Letters(b[5..], abc)[k - 1] == LetterOf(Padded(b[5..])[at..at + 5], abc)
    ensures k == 0 ==> Letters(b, abc)[k] == LetterOf(Padded(b)[..5], abc)
    ensures k > 0 ==> at + 10 <= |Padded(b)| && Letters(b, abc)[k] == LetterOf(Padded(b)[at + 5..at + 10], abc)
  {
    if k > 0 {
      SliceBehind(b[..5], Padded(b[5..]), at, at + 5);
    } else {
      SliceBehind(b[..5], Padded(b[5..]), 0, 0);
    }
  }

  lemma SliceBehind<T>(a: seq<T>, b: seq<T>, i: nat, j: nat)
    requires i <= j <= |b|
    ensures (a + b)[|a| + i..|a| + j] == b[i..j]
    ensures (a + b)[..|a|] == a
  {
  }

  lemma {:induction false} LettersLength(b: Bits, abc: string)
    requires |abc| == 32
    ensures |Letters(b, abc)| == (|b| + 4) / 5
    decreases |b|
  {
    if |b| >= 5 {
      LettersLength(b[5..], abc);
    }
  }

  // ---------------------------------------------------------------------------------------
  // The decoding
  // ---------------------------------------------------------------------------------------

  predicate IsSkipped(c: char) {
    c == '=' || IsWhitespace(c)
  }

  /** `position(|&b| b == c as u8)`: the cast keeps the low eight bits of the character. */
  function Position(abc: string, byte: Byte): (r: Option<nat>)
    ensures r.Some? ==> r.value < |abc| && abc[r.value] as int == byte && forall j :: 0 <= j < r.value ==> abc[j] as int != byte
    ensures r.None? ==> forall j :: 0 <= j < |abc| ==> abc[j] as int != byte
  {
    if abc == "" then None
    else if abc[0] as int == byte then Some(0)
    else
      match Position(abc[1..], byte)
      case None => None
      case Some(i) => Some(i + 1)
  }

  function IndexOf(c: char, abc: string): Option<nat> {
    Position(abc, UpperAscii(c) as int % 256)
  }

  /** The bits of all symbols; `None` when one of them is not in the alphabet. */
  function SymbolBits(s: string, abc: string): Option<Bits> {
    if s == "" then Some([])
    else if IsSkipped(s[0]) then SymbolBits(s[1..], abc)
    else
      match IndexOf(s[0], abc)
      case None => None
      case Some(idx) =>
        match SymbolBits(s[1..], abc)
        case None => None
        case Some(rest) => Some(Low(idx, 5) + rest)
  }

  function ByteOf(b: Bits): Byte
    requires |b| == 8
  {
    Powers();
    Number(b)
  }

  /** The complete bytes of a bit string. */
  function Bytes(b: Bits): seq<Byte>
    decreases |b|
  {
    if |b| < 8 then [] else [ByteOf(b[..8])] + Bytes(b[8..])
  }

  function Decoded(s: string, abc: string): Option<seq<Byte>> {
    match SymbolBits(s, abc)
    case None => None
    case Some(b) => Some(Bytes(b))
  }

  /** The result once the text from `i` on is read too. */
  ghost function Remaining(out: seq<Byte>, val: nat, n: nat, s: string, i: nat, abc: string): Option<seq<Byte>>
    requires i <= |s|
  {
    match SymbolBits(s[i..], abc)
    case None => None
    case Some(b) => Some(out + Bytes(Low(val, n) + b))
  }

  method Base32Decode(s: string, abc: string) returns (r: Option<seq<Byte>>)
    requires |abc| == 32
    ensures r == Decoded(s, abc)
  {
    var bits := 0;
    var val := 0;
    var out: seq<Byte> := [];
    ghost var goal := Decoded(s, abc);
    NothingRead(s, abc);
    for i := 0 to |s|
      invariant 0 <= bits <= 7
      invariant 0 <= val < 0x1_0000_0000
      invariant Remaining(out, val, bits, s, i, abc) == goal
    {
      if IsSkipped(s[i]) {
        SkipSymbol(out, val, bits, s, i, abc);
        continue;
      }
      var position := IndexOf(s[i], abc);
      if position.None? {
        RefuseSymbol(out, val, bits, s, i, abc);
        return None;
      }
      PushSymbol(out, val, bits, s, i, abc);
      val := Or(Shl(val, 5), position.value);
      bits := bits + 5;
      assert Remaining(out, val, bits, s, i + 1, abc) == goal;
      if bits >= 8 {
        EmitByte(out, val, bits, s, i + 1, abc);
        var byte: Byte := Shr(val, bits - 8) % 256;
        out := out + [byte];
        bits := bits - 8;
        MaskIsSmaller(val, bits);
        val := And(val, Shl(1, bits) - 1);
      }
    }
    AllRead(out, val, bits, s, |s|, abc);
    r := Some(out);
  }

  lemma AllRead(out: seq<Byte>, val: nat, n: nat, s: string, i: nat, abc: string)
    requires n <= 7 && i == |s|
    ensures Remaining(out, val, n, s, i, abc) == Some(out)
  {
    assert s[i..] == "";
    assert Bytes(Low(val, n) + []) == [];
    assert out + [] == out;
  }

  lemma SkipSymbol(out: seq<Byte>, val: nat, n: nat, s: string, i: nat, abc: string)
    requires i < |s| && IsSkipped(s[i])
    ensures Remaining(out, val, n, s, i, abc) == Remaining(out, val, n, s, i + 1, abc)
  {
    DropTwice(s, i, 1);
  }

  lemma RefuseSymbol(out: seq<Byte>, val: nat, n: nat, s: string, i: nat, abc: string)
    requires i < |s| && !IsSkipped(s[i]) && IndexOf(s[i], abc).None?
    ensures Remaining(out, val, n, s, i, abc) == None
  {
    DropTwice(s, i, 1);
  }

  lemma NothingRead(s: string, abc: string)
    ensures Remaining([], 0, 0, s, 0, abc) == Decoded(s, abc)
  {
    assert s[0..] == s;
    if SymbolBits(s, abc).Some? {
      var b := SymbolBits(s, abc).value;
      assert Low(0, 0) + b == b;
      assert [] + Bytes(b) == Bytes(b);
    }
  }

  /** `val & ((1 << n) - 1)` keeps the `n` low bits. */
  lemma MaskIsSmaller(val: nat, n: nat)
    requires n <= 31
    ensures Shl(1, n) > 0 && And(val, Shl(1, n) - 1) == val % Pow2(n) <= val
  {
    WordSize(n);
    Pow2AtLeast(32 - n);
    DivModUnique(Pow2(n), 0x1_0000_0000, 0, Pow2(n));
    AndMasks(val, n);
    if val < Pow2(n) {
      DivModUnique(val, Pow2(n), 0, val);
    }
  }

  lemma Pow2AtLeast(n: nat)
    requires n > 0
    ensures Pow2(n) >= 2
  {
  }

  lemma PushSymbol(out: seq<Byte>, val: nat, n: nat, s: string, i: nat, abc: string)
    requires |abc| == 32 && n <= 7 && i < |s| && !IsSkipped(s[i]) && IndexOf(s[i], abc).Some?
    ensures var val' := Or(Shl(val, 5), IndexOf(s[i], abc).value);
            && val' < 0x1_0000_0000
            && Remaining(out, val, n, s, i, abc) == Remaining(out, val', n + 5, s, i + 1, abc)
  {
    var idx := IndexOf(s[i], abc).value;
    Powers();
    OrBelow(val, 5, idx);
    PushDigit(val, idx, n, 5);
    DropTwice(s, i, 1);
    if SymbolBits(s[i + 1..], abc).Some? {
      Assoc(Low(val, n), Low(idx, 5), SymbolBits(s[i + 1..], abc).value);
    }
  }

  lemma EmitByte(out: seq<Byte>, val: nat, n: nat, s: string, i: nat, abc: string)
    requires n >= 8 && i <= |s|
    ensures Remaining(out, val, n, s, i, abc)
         == Remaining(out + [Shr(val, n - 8) % 256], val % Pow2(n - 8), n - 8, s, i, abc)
  {
    var x := Shr(val, n - 8) % 256;
    if SymbolBits(s[i..], abc).Some? {
      var rest := SymbolBits(s[i..], abc).value;
      ByteOfTop(val, n, 8);
      LowOfMod(val, n - 8, n - 8);
      Assoc(Low(x, 8), Low(val, n - 8), rest);
      BytesOfByte(Low(x, 8), Low(val, n - 8) + rest);
      Assoc(out, [x], Bytes(Low(val, n - 8) + rest));
    }
  }

  lemma ByteOfTop(val: nat, n: nat, k: nat)
    requires k == 8 && n >= k
    ensures var x := Shr(val, n - k) % 256;
            Low(val, n) == Low(x, k) + Low(val, n - k) && ByteOf(Low(x, k)) == x
  {
    var x := Shr(val, n - k) % 256;
    EighthPower(k);
    TakeDigit(val, n, k);
    NumberOfSmall(x, k, 256);
  }

  lemma EighthPower(n: nat)
    requires n == 8
    ensures Pow2(n) == 256
  {
    Powers();
  }

  lemma BytesOfByte(b: Bits, rest: Bits)
    requires |b| == 8
    ensures Bytes(b + rest) == [ByteOf(b)] + Bytes(rest)
  {
    assert (b + rest)[..8] == b && (b + rest)[8..] == rest;
  }

  // ---------------------------------------------------------------------------------------
  // What decoding gives back
  // ---------------------------------------------------------------------------------------

  lemma PositionIs(abc: string, k: nat)
    requires IsAlphabet(abc) && k < 32
    ensures Position(abc, abc[k] as int) == Some(k)
  {
  }

  /** The decoder knows every letter the encoder writes. */
  lemma LetterIsItsSymbol(g: Bits, n: nat, abc: string)
    requires IsAlphabet(abc) && n == 5 == |g|
    ensures !IsSkipped(LetterOf(g, abc))
    ensures IndexOf(LetterOf(g, abc), abc) == Some(Number(g)) && Low(Number(g), n) == g
  {
    FifthPower(n);
    LowOfNumber(g);
    PositionIs(abc, Number(g));
  }

  lemma {:induction false} SymbolsOfLetters(b: Bits, abc: string)
    requires IsAlphabet(abc)
    ensures SymbolBits(Letters(b, abc), abc) == Some(Padded(b))
    decreases |b|
  {
    if b == [] {
    } else if |b| < 5 {
      var g := b + Zeros(5 - |b|);
      LetterIsItsSymbol(g, 5, abc);
      SymbolsOfOne(LetterOf(g, abc), g, "", [], abc);
    } else {
      LetterIsItsSymbol(b[..5], 5, abc);
      SymbolsOfLetters(b[5..], abc);
      SymbolsOfOne(LetterOf(b[..5], abc), b[..5], Letters(b[5..], abc), Padded(b[5..]), abc);
    }
  }

  lemma SymbolsOfOne(c: char, g: Bits, rest: string, bits: Bits, abc: string)
    requires !IsSkipped(c) && IndexOf(c, abc).Some? && Low(IndexOf(c, abc).value, 5) == g
    requires SymbolBits(rest, abc) == Some(bits)
    ensures SymbolBits([c] + rest, abc) == Some(g + bits)
    ensures SymbolBits([c], abc) == Some(g)
  {
    assert ([c] + rest)[1..] == rest;
    assert [c][1..] == "";
    assert Low(IndexOf(c, abc).value, 5) + [] == g;
  }

  lemma {:induction false} BytesOfBits(data: seq<Byte>, tail: Bits)
    requires |tail| < 8
    ensures Bytes(BitsOf(data) + tail) == data
  {
    if data == [] {
      assert BitsOf(data) + tail == tail;
    } else {
      BytesOfBits(data[1..], tail);
      Assoc(Low(data[0], 8), BitsOf(data[1..]), tail);
      BytesOfByte(Low(data[0], 8), BitsOf(data[1..]) + tail);
      EighthPower(8);
      NumberOfSmall(data[0], 8, 256);
      assert data == [data[0]] + data[1..];
    }
  }

  /** The round trip, for every byte string. */
  lemma DecodeUndoesEncode(data: seq<Byte>)
    ensures Decoded(Letters(BitsOf(data), ALPHABET), ALPHABET) == Some(data)
  {
    AlphabetIsOne();
    RoundTrip(data, ALPHABET);
  }

  lemma RoundTrip(data: seq<Byte>, abc: string)
    requires IsAlphabet(abc)
    ensures Decoded(Letters(BitsOf(data), abc), abc) == Some(data)
  {
    var b := BitsOf(data);
    SymbolsOfLetters(b, abc);
    PaddedIsFilled(b);
    BytesOfBits(data, Zeros(|Padded(b)| - |b|));
  }

  /** What the decoder looks at: everything but `=` and whitespace, in upper case. */
  function Normal(s: string): string {
    if s == "" then ""
    else if IsSkipped(s[0]) then Normal(s[1..])
    else [UpperAscii(s[0])] + Normal(s[1..])
  }

  /** ASCII case, whitespace and `=` make no difference. */
  lemma {:induction false} SymbolsOfNormal(s: string, abc: string)
    ensures SymbolBits(Normal(s), abc) == SymbolBits(s, abc)
  {
    if s != "" {
      SymbolsOfNormal(s[1..], abc);
      if !IsSkipped(s[0]) {
        var c := UpperAscii(s[0]);
        assert !IsSkipped(c) && UpperAscii(c) == c;
        assert Normal(s)[0] == c && Normal(s)[1..] == Normal(s[1..]);
      }
    }
  }

  lemma DecodeIgnoresLayout(s: string, t: string, abc: string)
    requires Normal(s) == Normal(t)
    ensures Decoded(s, abc) == Decoded(t, abc)
  {
    SymbolsOfNormal(s, abc);
    SymbolsOfNormal(t, abc);
  }

  /** Inserting `=` or whitespace anywhere makes no difference. */
  lemma {:induction false} PaddingAnywhereIsIgnored(a: string, c: char, b: string, abc: string)
    requires c == '=' || IsWhitespace(c)
    ensures Decoded(a + [c] + b, abc) == Decoded(a + b, abc)
  {
    SameSymbols(a, c, b, abc);
  }

  lemma {:induction false} SameSymbols(a: string, c: char, b: string, abc: string)
    requires c == '=' || IsWhitespace(c)
    ensures SymbolBits(a + [c] + b, abc) == SymbolBits(a + b, abc)
  {
    if a == "" {
      assert (a + [c] + b)[1..] == b && a + b == b;
    } else {
      SameSymbols(a[1..], c, b, abc);
      assert (a + [c] + b)[1..] == a[1..] + [c] + b;
      assert (a + b)[1..] == a[1..] + b;
    }
  }

  /** Nor do lower-case letters. */
  lemma {:induction false} CaseIsIgnored(a: string, c: char, b: string, abc: string)
    requires 'a' <= c <= 'z'
    ensures Decoded(a + [c] + b, abc) == Decoded(a + [c - 'a' + 'A'] + b, abc)
  {
    SameSymbol(a, c, c - 'a' + 'A', b, abc);
  }

  /** A text is refused exactly for a character outside the alphabet, whatever its place. The
      character counts by its low eight bits. */
  lemma {:induction false} RefusedIff(s: string, abc: string)
    ensures Decoded(s, abc) == None
            <==> exists i :: 0 <= i < |s| && s[i] != '=' && !IsWhitespace(s[i]) && IndexOf(s[i], abc) == None
  {
    if s != "" {
      RefusedIff(s[1..], abc);
      assert forall i :: 0 <= i < |s[1..]| ==> s[1..][i] == s[i + 1];
      if i :| 0 < i < |s| && !IsSkipped(s[i]) && IndexOf(s[i], abc) == None {
        assert s[1..][i - 1] == s[i];
      }
    }
  }

  /** `as u8` truncates: behind ASCII, exactly the characters whose low byte is a letter of the
      alphabet pass, in the place of that letter. */
  lemma WideCharacterCountsAsItsLowByte(s: string, c: char, t: string, abc: string)
    requires IsAlphabet(abc) && c as int >= 0x80 && !IsSkipped(c)
    ensures Decoded(s + [c] + t, abc) ==
            if exists k :: 0 <= k < 32 && abc[k] as int == c as int % 256
            then Decoded(s + [(c as int % 256) as char] + t, abc) else None
  {
    var low := (c as int % 256) as char;
    if k :| 0 <= k < 32 && abc[k] as int == c as int % 256 {
      assert low == abc[k] && UpperAscii(low) == low && !IsSkipped(low);
      SameSymbol(s, c, low, t, abc);
    } else {
      var text := s + [c] + t;
      RefusedIff(text, abc);
      assert text[|s|] == c;
    }
  }

  /** `Ł`, U+0141, passes for an `A`. */
  lemma CrossedLPassesForA(s: string, t: string)
    ensures Decoded(s + ['\U{0141}'] + t, ALPHABET) == Decoded(s + ['A'] + t, ALPHABET)
  {
    AlphabetIsOne();
    AlphabetAt(0);
    assert ('\U{0141}' as int % 256) as char == 'A';
    WideCharacterCountsAsItsLowByte(s, '\U{0141}', t, ALPHABET);
  }

  lemma {:induction false} SameSymbol(s: string, c: char, d: char, t: string, abc: string)
    requires !IsSkipped(c) && !IsSkipped(d) && IndexOf(c, abc) == IndexOf(d, abc)
    ensures SymbolBits(s + [c] + t, abc) == SymbolBits(s + [d] + t, abc)
  {
    if s == "" {
      assert (s + [c] + t)[1..] == t == (s + [d] + t)[1..];
    } else {
      SameSymbol(s[1..], c, d, t, abc);
      assert (s + [c] + t)[1..] == s[1..] + [c] + t;
      assert (s + [d] + t)[1..] == s[1..] + [d] + t;
    }
  }

  // ---------------------------------------------------------------------------------------
  // One-time codes
  // ---------------------------------------------------------------------------------------

  /** RFC 4226 section 5.3: the low nibble of the last byte names an offset; the value is the
      bit string of the four bytes there without its first bit. */
  ghost function DynamicTruncation(digest: seq<Byte>): nat
    requires |digest| == 20
  {
    var offset := Number(Low(digest[19], 4));
    assert offset < 16 by { assert Pow2(4) == 16; }
    Number(BitsOf(digest[offset..offset + 4])[1..])
  }

  /** The four bytes as a number, without the sign bit. */
  function Word(w: seq<Byte>): nat
    requires |w| == 4
  {
    Or(Or(Or(Shl(And(w[0], 0x7f), 24), Shl(w[1], 16)), Shl(w[2], 8)), w[3])
  }

  lemma WordAdds(w: seq<Byte>)
    requires |w| == 4
    ensures Word(w) == (w[0] as int % 128) * 0x100_0000 + (w[1] as int) * 0x1_0000 + (w[2] as int) * 0x100 + (w[3] as int)
  {
    AndMasks(w[0], 7) by { SeventhPower(7); }
    var a: nat := w[0] as int % 128;
    ByteShifts(a, w[1], w[2]);
    OrFour(a, w[1], w[2], w[3]);
  }

  lemma OrFour(a: nat, b: nat, c: nat, d: nat)
    requires b < 256 && c < 256 && d < 256
    ensures Or(Or(Or(a * 0x100_0000, b * 0x1_0000), c * 0x100), d)
         == a * 0x100_0000 + b * 0x1_0000 + c * 0x100 + d
  {
    assert Pow2(24) == 0x100_0000 && Pow2(8) == 0x100 && Pow2(16) == 0x1_0000 by {
      Powers();
      Pow2Sum(8, 8);
    }
    var ab, abc := a * 0x100 + b, a * 0x1_0000 + b * 0x100 + c;
    OrMultiple(a, 0x100_0000, b * 0x1_0000, 24);
    assert a * 0x100_0000 + b * 0x1_0000 == ab * 0x1_0000;
    OrMultiple(ab, 0x1_0000, c * 0x100, 16);
    assert ab * 0x1_0000 + c * 0x100 == abc * 0x100;
    OrMultiple(abc, 0x100, d, 8);
  }

  lemma OrMultiple(m: nat, p: nat, x: nat, k: nat)
    requires p == Pow2(k) && x < p
    ensures Or(m * p, x) == m * p + x
  {
    DivModUnique(m * p, p, m, 0);
    OrAdds(m * p, x, k);
  }

  lemma ByteShifts(a: nat, b: nat, c: nat)
    requires a < 128 && b < 256 && c < 256
    ensures Shl(a, 24) == a * 0x100_0000 && Shl(b, 16) == b * 0x1_0000 && Shl(c, 8) == c * 0x100
    ensures Pow2(16) == 0x1_0000
  {
    Powers();
    Pow2Sum(8, 8);
    DivModUnique(a * 0x100_0000, 0x1_0000_0000, 0, a * 0x100_0000);
    DivModUnique(b * 0x1_0000, 0x1_0000_0000, 0, b * 0x1_0000);
    DivModUnique(c * 0x100, 0x1_0000_0000, 0, c * 0x100);
  }

  function GenerateCode(digest: seq<Byte>): (code: nat)
    requires |digest| == 20
    ensures code < 1_000_000
    ensures code == DynamicTruncation(digest) % 1_000_000
  {
    OffsetIsNibble(digest[19], 4);
    var offset := And(digest[19], 0xf);
    var w := digest[offset..offset + 4];
    WordOfBits(w, 7, 8);
    Word(w) % 1_000_000
  }

  lemma OffsetIsNibble(b: Byte, n: nat)
    requires n == 4
    ensures Number(Low(b, n)) == And(b, 0xf) < 16
  {
    assert Pow2(n) == 16 by { assert Pow2(2) == 4; }
    AndMasks(b, n);
    NumberOfLow(b, n);
  }

  /** `n` shifted left by `k` bits, without a bound on its size. */
  function Scaled(n: nat, k: nat): nat {
    if k == 0 then n else 2 * Scaled(n, k - 1)
  }

  lemma ScaledByByte(n: nat, k: nat)
    requires k == 8
    ensures Scaled(n, k) == 0x100 * n
  {
    assert Scaled(n, 1) == 2 * n;
    assert Scaled(n, 2) == 4 * n;
    assert Scaled(n, 3) == 8 * n;
    assert Scaled(n, 4) == 16 * n;
    assert Scaled(n, 5) == 32 * n;
    assert Scaled(n, k - 2) == 64 * n;
  }

  lemma {:induction false} NumberConcat(a: Bits, b: Bits)
    ensures Number(a + b) == Scaled(Number(a), |b|) + Number(b)
    decreases |b|
  {
    if b == [] {
      assert a + b == a;
    } else {
      var b' := b[..|b| - 1];
      NumberConcat(a, b');
      assert b == b' + [b[|b| - 1]];
      AppendBit(a, b', b[|b| - 1]);
    }
  }

  lemma AppendBit(a: Bits, b: Bits, x: bool)
    requires Number(a + b) == Scaled(Number(a), |b|) + Number(b)
    ensures Number(a + (b + [x])) == Scaled(Number(a), |b| + 1) + Number(b + [x])
  {
    NumberSnoc(a + b, x);
    NumberSnoc(b, x);
    Assoc(a, b, [x]);
  }

  lemma NumberSnoc(a: Bits, x: bool)
    ensures Number(a + [x]) == 2 * Number(a) + if x then 1 else 0
  {
    assert (a + [x])[..|a + [x]| - 1] == a;
  }

  lemma AppendByte(a: Bits, x: Byte, n: nat)
    requires n == 8
    ensures Number(a + Low(x, n)) == 0x100 * Number(a) + x as int
  {
    EighthPower(n);
    NumberConcat(a, Low(x, n));
    ScaledByByte(Number(a), n);
    NumberOfSmall(x, n, 256);
  }

  lemma WordOfBits(w: seq<Byte>, seven: nat, eight: nat)
    requires |w| == 4 && seven == 7 && eight == 8
    ensures Number(BitsOf(w)[1..]) == Word(w)
  {
    WordAdds(w);
    var b0 := Low(w[0], seven);
    FourBytes(w, eight);
    LowSplit(w[0], 1, seven);
    DropFirst(Low(Shr(w[0], seven), 1), b0, Low(w[1], eight), Low(w[2], eight), Low(w[3], eight));
    SeventhPower(seven);
    NumberOfLow(w[0], seven);
    AppendByte(b0, w[1], eight);
    AppendByte(b0 + Low(w[1], eight), w[2], eight);
    AppendByte(b0 + Low(w[1], eight) + Low(w[2], eight), w[3], eight);
  }

  lemma DropFirst(first: Bits, a: Bits, b: Bits, c: Bits, d: Bits)
    requires |first| == 1
    ensures (((first + a) + b) + c + d)[1..] == a + b + c + d
  {
  }

  lemma SeventhPower(n: nat)
    requires n == 7
    ensures Pow2(n) == 128
  {
    EighthPower(n + 1);
  }

  lemma FourBytes(w: seq<Byte>, n: nat)
    requires |w| == 4 && n == 8
    ensures BitsOf(w) == Low(w[0], n) + Low(w[1], n) + Low(w[2], n) + Low(w[3], n)
  {
    assert w[1..][1..] == w[2..] && w[2..][1..] == w[3..] && w[3..][1..] == [];
    assert BitsOf(w[3..]) == Low(w[3], n) + [];
    assert BitsOf(w[2..]) == Low(w[2], n) + BitsOf(w[3..]);
    assert BitsOf(w[1..]) == Low(w[1], n) + BitsOf(w[2..]);
  }

  /** RFC 6238 section 5.2: one time step back and one ahead are accepted. */
  predicate InWindow(step: nat, now: nat) {
    step <= now / 30 + 1 && now / 30 <= step + 1
  }

  /** `code` is the parsed input, `hotp` gives the code of a step. */
  method VerifyCode(hotp: nat -> nat, code: Option<nat>, now: nat) returns (ok: bool)
    ensures ok <==> code.Some? && exists k: nat :: InWindow(k, now) && hotp(k) == code.value
  {
    if code.None? {
      return false;
    }
    var current := now / 30;
    var step := if current == 0 then 0 else current - 1;
    while step <= current + 1
      invariant current <= step + 1 && step <= current + 2
      invariant forall k: nat :: InWindow(k, now) && k < step ==> hotp(k) != code.value
    {
      if hotp(step) == code.value {
        assert InWindow(step, now);
        return true;
      }
      step := step + 1;
    }
    ok := false;
  }

  /** The code shown at `t` is looked for from thirty seconds before its time step up to
      thirty seconds after it, so at least for thirty seconds around `t`. */
  lemma CodeLifetime(t: nat, now: nat)
    ensures InWindow(t / 30, now) <==> t - t % 30 - 30 <= now < t - t % 30 + 60
    ensures t - 30 <= now <= t + 30 ==> InWindow(t / 30, now)
  {
    var q := t / 30;
    assert t == 30 * q + t % 30;
    assert now == 30 * (now / 30) + now % 30;
  }
}
