/** Text operations the repository takes from the Rust standard library, on sequences of
    Unicode scalar values. */
module Text {

  datatype Option<+T> = None | Some(value: T)

  /** Rust's `char::is_whitespace`: the Unicode White_Space property. */
  predicate IsWhitespace(c: char) {
    var n := c as int;
    || 9 <= n <= 13
    || n == 0x20
    || n == 0x85
    || n == 0xA0
    || n == 0x1680
    || 0x2000 <= n <= 0x200A
    || n == 0x2028
    || n == 0x2029
    || n == 0x202F
    || n == 0x205F
    || n == 0x3000
  }

  predicate AllWhitespace(s: string) {
    forall i :: 0 <= i < |s| ==> IsWhitespace(s[i])
  }

  function TrimStart(s: string): (r: string)
    ensures |r| <= |s|
    ensures r != "" ==> !IsWhitespace(r[0])
  {
    if s != "" && IsWhitespace(s[0]) then TrimStart(s[1..]) else s
  }

  function TrimEnd(s: string): (r: string)
    ensures |r| <= |s|
    ensures r != "" ==> !IsWhitespace(r[|r| - 1])
  {
    if s != "" && IsWhitespace(s[|s| - 1]) then TrimEnd(s[..|s| - 1]) else s
  }

  function Trim(s: string): string {
    TrimEnd(TrimStart(s))
  }

  lemma TrimStartSkips(w: string, s: string)
    requires AllWhitespace(w)
    requires s == "" || !IsWhitespace(s[0])
    ensures TrimStart(w + s) == s
  {
    if w == "" {
      assert w + s == s;
    } else {
      assert (w + s)[1..] == w[1..] + s;
      TrimStartSkips(w[1..], s);
    }
  }

  lemma TrimEndSkips(s: string, w: string)
    requires AllWhitespace(w)
    requires s == "" || !IsWhitespace(s[|s| - 1])
    ensures TrimEnd(s + w) == s
  {
    if w == "" {
      assert s + w == s;
    } else {
      assert (s + w)[..|s + w| - 1] == s + w[..|w| - 1];
      TrimEndSkips(s, w[..|w| - 1]);
    }
  }

  /** A text without outer whitespace is all that `trim` leaves of it. */
  lemma TrimSkips(w1: string, s: string, w2: string)
    requires AllWhitespace(w1) && AllWhitespace(w2)
    requires s != "" && !IsWhitespace(s[0]) && !IsWhitespace(s[|s| - 1])
    ensures Trim(w1 + s + w2) == s
  {
    assert w1 + s + w2 == w1 + (s + w2);
    TrimStartSkips(w1, s + w2);
    TrimEndSkips(s, w2);
  }

  function UpperAscii(c: char): char {
    if 'a' <= c <= 'z' then c - 'a' + 'A' else c
  }

  function LowerAscii(c: char): char {
    if 'A' <= c <= 'Z' then c - 'A' + 'a' else c
  }

  predicate OccursAt(s: string, p: string, i: int) {
    0 <= i <= |s| - |p| && forall k :: 0 <= k < |p| ==> s[i + k] == p[k]
  }

  predicate IsFirstAt(s: string, p: string, i: nat) {
    OccursAt(s, p, i) && forall j :: 0 <= j < i ==> !OccursAt(s, p, j)
  }

  lemma FirstExists(s: string, p: string, i: nat)
    requires OccursAt(s, p, i)
    ensures exists k :: 0 <= k <= |s| && IsFirstAt(s, p, k)
  {
    if j: nat :| j < i && OccursAt(s, p, j) {
      FirstExists(s, p, j);
    } else {
      assert IsFirstAt(s, p, i);
    }
  }

  /** Rust's `str::find`: the position of the first occurrence. */
  function Find(s: string, p: string): (r: Option<nat>)
    ensures r.Some? ==> IsFirstAt(s, p, r.value)
    ensures r.None? ==> forall j :: !OccursAt(s, p, j)
  {
    if exists k :: 0 <= k <= |s| && IsFirstAt(s, p, k) then
      var k :| 0 <= k <= |s| && IsFirstAt(s, p, k);
      Some(k)
    else
      assert forall j: nat :: OccursAt(s, p, j) ==> false by {
        forall j: nat | OccursAt(s, p, j) ensures false { FirstExists(s, p, j); }
      }
      None
  }

  lemma FindIs(s: string, p: string, i: nat)
    requires IsFirstAt(s, p, i)
    ensures Find(s, p) == Some(i)
  {
  }

  lemma CharAt(s: string, p: string, j: int, q: int)
    requires j <= q < j + |p| && 0 <= q < |s|
    ensures OccursAt(s, p, j) ==> s[q] == p[q - j]
  {
    assert OccursAt(s, p, j) ==> s[j + (q - j)] == p[q - j];
  }

  /** Searching a single character. */
  lemma FindChar(s: string, c: char)
    ensures match Find(s, [c])
            case Some(i) => i < |s| && s[i] == c && c !in s[..i]
            case None => c !in s
  {
    forall j | 0 <= j < |s|
      ensures OccursAt(s, [c], j) <==> s[j] == c
    {
      assert OccursAt(s, [c], j) ==> s[j + 0] == [c][0];
      assert s[j] == c ==> forall k :: 0 <= k < |[c]| ==> s[j + k] == [c][k];
    }
  }

  lemma OccursInPrefix(s: string, t: string, p: string, j: nat, end: nat)
    requires end <= |s| && end <= |t| && s[..end] == t[..end] && j + |p| <= end
    ensures OccursAt(s, p, j) == OccursAt(t, p, j)
  {
    SamePrefix(s, t, end);
  }

  lemma SamePrefix(s: string, t: string, end: nat)
    requires end <= |s| && end <= |t| && s[..end] == t[..end]
    ensures forall k :: 0 <= k < end ==> s[k] == t[k]
  {
    forall k | 0 <= k < end
      ensures s[k] == t[k]
    {
      assert s[..end][k] == t[..end][k];
    }
  }

  /** A first occurrence inside a common prefix is the first in both texts. */
  lemma SameFind(s: string, t: string, p: string, end: nat)
    requires end <= |s| && end <= |t| && s[..end] == t[..end]
    requires Find(s, p).Some? && Find(s, p).value + |p| <= end
    ensures Find(t, p) == Find(s, p)
  {
    var at := Find(s, p).value;
    OccursInPrefix(s, t, p, at, end);
    forall j | 0 <= j < at
      ensures !OccursAt(t, p, j)
    {
      OccursInPrefix(s, t, p, j, end);
    }
    FindIs(t, p, at);
  }

  lemma Assoc<T>(a: seq<T>, b: seq<T>, c: seq<T>)
    ensures (a + b) + c == a + (b + c)
  {
  }

  lemma SplitConcat<T>(a: seq<T>, b: seq<T>, n: nat)
    requires n <= |a|
    ensures (a + b)[..n] == a[..n]
    ensures (a + b)[n..] == a[n..] + b
  {
  }

  lemma DropTwice<T>(a: seq<T>, m: nat, n: nat)
    requires m + n <= |a|
    ensures a[m..][n..] == a[m + n..]
  {
  }

  lemma LastBehindFront<T>(a: seq<T>)
    requires a != []
    ensures a == a[..|a| - 1] + [a[|a| - 1]]
  {
  }
}
