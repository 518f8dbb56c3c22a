/** Bytes, character codes, and numbers as files hold them: decimal text and 4 or 8 bytes in either order. */
module Bytes {

  type Byte = x: int | 0 <= x < 256

  const NUL: Byte := 0
  const NEWLINE: Byte := 10
  const SPACE: Byte := 32
  const SLASH: Byte := 47
  const ZERO: Byte := 48
  const BACKSLASH: Byte := 92

  function Min(a: nat, b: nat): nat { if a < b then a else b }

  function Max(a: nat, b: nat): nat { if a < b then b else a }

  /** How the target of a seek is counted. */
  datatype Whence = SeekSet | SeekCur

  function Fill(n: nat, b: Byte): seq<Byte> {
    seq(n, _ => b)
  }

  /** s stands in f at position p. */
  ghost predicate At(f: seq<Byte>, p: nat, s: seq<Byte>) {
    p + |s| <= |f| && f[p..p + |s|] == s
  }

  lemma AtIndex(f: seq<Byte>, p: nat, s: seq<Byte>, i: nat)
    requires At(f, p, s) && i < |s|
    ensures f[p + i] == s[i]
  {
    assert f[p..p + |s|][i] == s[i];
  }

  /** A part of what stands at p. */
  lemma AtPart(f: seq<Byte>, p: nat, s: seq<Byte>, i: nat, j: nat)
    requires At(f, p, s) && i <= j <= |s|
    ensures At(f, p + i, s[i..j])
  {
    forall k | i <= k < j
      ensures f[p + k] == s[k]
    {
      assert f[p..p + |s|][k] == s[k];
    }
  }

  lemma AtJoin(f: seq<Byte>, p: nat, a: seq<Byte>, b: seq<Byte>, q: nat)
    requires At(f, p, a) && At(f, q, b) && q == p + |a|
    ensures At(f, p, a + b)
  {
    assert f[p..q + |b|] == f[p..q] + f[q..q + |b|];
  }

  lemma AtPrefix(f: seq<Byte>, a: seq<Byte>, b: seq<Byte>)
    requires a + b <= f
    ensures At(f, |a|, b)
  {
    assert f[|a|..|a + b|] == (a + b)[|a|..];
  }

  /** The first k pieces, one after the other. */
  function Concat(cs: seq<seq<Byte>>, k: nat): seq<Byte>
    requires k <= |cs|
  {
    if k == 0 then [] else Concat(cs, k - 1) + cs[k - 1]
  }

  lemma {:induction false} ConcatGrows(cs: seq<seq<Byte>>, j: nat, k: nat)
    requires j <= k <= |cs|
    ensures Concat(cs, j) <= Concat(cs, k)
  {
    if j < k {
      ConcatGrows(cs, j, k - 1);
    }
  }

  /** Each piece stands behind the ones before it. */
  lemma PieceAtPos(prefix: seq<Byte>, cs: seq<seq<Byte>>, k: nat, p: nat)
    requires k < |cs| && p == |prefix| + |Concat(cs, k)|
    ensures At(prefix + Concat(cs, |cs|), p, cs[k])
  {
    ConcatHolds(cs, k);
    Append(prefix, Concat(cs, k), cs[k]);
    AtPrefix(prefix + Concat(cs, |cs|), prefix + Concat(cs, k), cs[k]);
  }

  lemma ConcatHolds(cs: seq<seq<Byte>>, k: nat)
    requires k < |cs|
    ensures Concat(cs, k) + cs[k] <= Concat(cs, |cs|)
  {
    ConcatGrows(cs, k + 1, |cs|);
  }

  lemma PieceOf(f: seq<Byte>, base: nat, cs: seq<seq<Byte>>, k: nat)
    requires k < |cs| && At(f, base, Concat(cs, |cs|))
    ensures At(f, base + |Concat(cs, k)|, cs[k])
  {
    var whole, a, b := Concat(cs, |cs|), Concat(cs, k), cs[k];
    ConcatHolds(cs, k);
    AtInside(f, base, whole, a, b);
  }

  lemma AtInside(f: seq<Byte>, base: nat, whole: seq<Byte>, a: seq<Byte>, b: seq<Byte>)
    requires At(f, base, whole) && a + b <= whole
    ensures At(f, base + |a|, b)
  {
    AtPrefix(whole, a, b);
    AtPart(f, base, whole, |a|, |a| + |b|);
  }

  lemma Append(a: seq<Byte>, b: seq<Byte>, c: seq<Byte>)
    ensures (a + b) + c == a + (b + c)
  {
  }

  lemma ConcatEven(a: seq<Byte>, b: seq<Byte>)
    requires |a| % 2 == 0 && |b| % 2 == 0
    ensures |a + b| % 2 == 0
  {
  }

  /** The C string that s starts with. */
  function CString(s: seq<Byte>): (r: seq<Byte>)
    ensures NUL !in r && r <= s && (|r| < |s| ==> s[|r|] == NUL)
  {
    if s == [] || s[0] == NUL then [] else [s[0]] + CString(s[1..])
  }

  lemma {:induction false} CStringOf(s: seq<Byte>, t: seq<Byte>)
    requires NUL !in s && (t == [] || t[0] == NUL)
    ensures CString(s + t) == s
  {
    if s == [] {
      assert s + t == t;
    } else {
      assert (s + t)[1..] == s[1..] + t;
      CStringOf(s[1..], t);
    }
  }

  lemma CStringAt(f: seq<Byte>, p: nat, s: seq<Byte>)
    requires At(f, p, s + [NUL]) && NUL !in s
    ensures CString(f[p..]) == s
  {
    assert f[p..] == s + ([NUL] + f[p + |s| + 1..]);
    CStringOf(s, [NUL] + f[p + |s| + 1..]);
  }

  lemma {:induction false} EvenPieces(cs: seq<seq<Byte>>, w: nat, k: nat)
    requires k <= |cs| && forall i :: 0 <= i < |cs| ==> |cs[i]| == w
    ensures |Concat(cs, k)| == w * k
  {
    if k > 0 {
      EvenPieces(cs, w, k - 1);
      assert w * k == w * (k - 1) + w;
    }
  }

  lemma EvenPieceOf(f: seq<Byte>, base: nat, cs: seq<seq<Byte>>, w: nat, k: nat, p: nat)
    requires p == base + w * k && k < |cs| && At(f, base, Concat(cs, |cs|)) && forall i :: 0 <= i < |cs| ==>
      |cs[i]| == w
    ensures At(f, p, cs[k])
  {
    PieceOf(f, base, cs, k);
    EvenPieces(cs, w, k);
  }

  // ---------- Decimal text ----------

  function Digits(n: nat): (s: seq<Byte>)
    ensures |s| > 0 && AllDigits(s)
  {
    if n < 10 then [ZERO + n] else Digits(n / 10) + [ZERO + n % 10]
  }

  predicate IsDigit(b: Byte) { ZERO <= b <= ZERO + 9 }

  predicate AllDigits(s: seq<Byte>) {
    forall i :: 0 <= i < |s| ==> IsDigit(s[i])
  }

  function Value(s: seq<Byte>): nat
    requires AllDigits(s)
  {
    if s == [] then 0 else Value(s[..|s| - 1]) * 10 + (s[|s| - 1] - ZERO)
  }

  /** How many digits s starts with. */
  function DigitRun(s: seq<Byte>): (k: nat)
    ensures k <= |s| && AllDigits(s[..k]) && (k < |s| ==> !IsDigit(s[k]))
  {
    if s == [] || !IsDigit(s[0]) then 0
    else
      var k := DigitRun(s[1..]) + 1;
      assert s[..k] == [s[0]] + s[1..][..k - 1];
      k
  }

  datatype Option<T> = None | Some(value: T)

  /** strtol, sscanf and atoi in base 10: white space, then as many digits as there are. */
  function ParseNumber(s: seq<Byte>): Option<nat> {
    if s != [] && (s[0] == SPACE || 9 <= s[0] <= 13) then ParseNumber(s[1..])
    else if DigitRun(s) == 0 then None
    else Some(Value(s[..DigitRun(s)]))
  }

  lemma {:induction false} ValueOfDigits(n: nat)
    ensures Value(Digits(n)) == n
  {
    if n >= 10 {
      ValueOfDigits(n / 10);
    }
  }

  lemma {:induction false} RunOfDigits(s: seq<Byte>, t: seq<Byte>)
    requires AllDigits(s) && (t == [] || !IsDigit(t[0]))
    ensures DigitRun(s + t) == |s|
  {
    if s == [] {
      assert s + t == t;
    } else {
      assert (s + t)[1..] == s[1..] + t;
      RunOfDigits(s[1..], t);
    }
  }

  /** A printed number reads back, whatever follows it. */
  lemma ParsePrinted(n: nat, t: seq<Byte>)
    requires t == [] || !IsDigit(t[0])
    ensures ParseNumber(Digits(n) + t) == Some(n)
  {
    var s := Digits(n);
    assert (s + t)[0] == s[0];
    RunOfDigits(s, t);
    assert (s + t)[..|s|] == s;
    ValueOfDigits(n);
  }

  lemma {:induction false} ValueBound(s: seq<Byte>)
    requires AllDigits(s)
    ensures Value(s) < Pow10(|s|)
  {
    if s != [] {
      ValueBound(s[..|s| - 1]);
    }
  }

  lemma {:induction false} PowGrows(j: nat, k: nat)
    requires j <= k
    ensures Pow10(j) <= Pow10(k)
  {
    if j < k {
      PowGrows(j, k - 1);
    }
  }

  /** What a field of so many columns can say. */
  lemma {:induction false} ParseBound(s: seq<Byte>)
    ensures ParseNumber(s).Some? ==> ParseNumber(s).value < Pow10(|s|)
  {
    if s != [] && (s[0] == SPACE || 9 <= s[0] <= 13) {
      ParseBound(s[1..]);
      PowGrows(|s| - 1, |s|);
    } else {
      ValueBound(s[..DigitRun(s)]);
      PowGrows(DigitRun(s), |s|);
    }
  }

  lemma TenDigits()
    ensures Pow10(10) == 10_000_000_000
  {
    assert Pow10(2) == 10 * Pow10(1) && Pow10(1) == 10 * Pow10(0);
    assert Pow10(5) == 10 * Pow10(4) && Pow10(4) == 10 * Pow10(3) && Pow10(3) == 10 * Pow10(2);
    assert Pow10(8) == 10 * Pow10(7) && Pow10(7) == 10 * Pow10(6) && Pow10(6) == 10 * Pow10(5);
    assert Pow10(10) == 10 * Pow10(9) && Pow10(9) == 10 * Pow10(8);
  }

  /** A printed number fits a field of k columns exactly when it is below the k-th power of ten. */
  lemma {:induction false} DigitsFit(n: nat, k: nat)
    requires k > 0
    ensures |Digits(n)| <= k <==> n < Pow10(k)
  {
    if k == 1 {
      assert Pow10(1) == 10 * Pow10(0);
    } else if n >= 10 {
      DigitsFit(n / 10, k - 1);
      assert Pow10(k) == 10 * Pow10(k - 1);
    } else {
      PowPositive(k - 1);
    }
  }

  function Pow10(k: nat): nat { if k == 0 then 1 else 10 * Pow10(k - 1) }

  lemma {:induction false} PowPositive(k: nat)
    ensures Pow10(k) > 0
  {
    if k > 0 {
      PowPositive(k - 1);
    }
  }

  // ---------- Binary numbers ----------

  const WORD32: nat := 0x1_0000_0000
  const WORD64: nat := 0x1_0000_0000_0000_0000

  type Word = x: int | 0 <= x < 0x1_0000_0000

  /** Unsigned arithmetic in a word. */
  function Wrap(x: int): Word { x % WORD32 }

  lemma WrapPlus(a: int, b: int)
    ensures Wrap(WORD32 * b + a) == Wrap(a)
  {
  }

  /** n in k bytes, most significant first. */
  function PutBig(n: nat, k: nat): (s: seq<Byte>)
    ensures |s| == k
  {
    if k == 0 then [] else PutBig(n / 256, k - 1) + [n % 256]
  }

  function GetBig(s: seq<Byte>): nat {
    if s == [] then 0 else GetBig(s[..|s| - 1]) * 256 + s[|s| - 1]
  }

  function Reversed(s: seq<Byte>): (r: seq<Byte>)
    ensures |r| == |s|
  {
    seq(|s|, i requires 0 <= i < |s| => s[|s| - 1 - i])
  }

  /** In the byte order of the target. */
  function Put(big: bool, n: nat, k: nat): (s: seq<Byte>)
    ensures |s| == k
  {
    if big then PutBig(n, k) else Reversed(PutBig(n, k))
  }

  function Get(big: bool, s: seq<Byte>): nat {
    GetBig(if big then s else Reversed(s))
  }

  function Pow256(k: nat): nat { if k == 0 then 1 else 256 * Pow256(k - 1) }

  lemma {:induction false} GetPutBig(n: nat, k: nat)
    requires n < Pow256(k)
    ensures GetBig(PutBig(n, k)) == n
  {
    if k > 0 {
      GetPutBig(n / 256, k - 1);
    }
  }

  lemma GetPut(big: bool, n: nat, k: nat)
    requires n < Pow256(k)
    ensures Get(big, Put(big, n, k)) == n
  {
    GetPutBig(n, k);
    assert Reversed(Reversed(PutBig(n, k))) == PutBig(n, k);
  }
}
