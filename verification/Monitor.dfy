/** The monitor's numbers: what it prints in hexadecimal it reads back. */
module Monitor {
  import opened Bytes

  /** The value of a digit, 16 for anything else. */
  function Digit(c: Byte): nat {
    if 48 <= c <= 57 then c - 48 else if 97 <= c <= 102 then c - 87 else if 65 <= c <= 70 then c - 55 else 16
  }

  predicate Numeral(s: seq<Byte>, base: nat) {
    s != [] && forall i :: 0 <= i < |s| ==> Digit(s[i]) < base
  }

  /** The positional value, most significant digit first. */
  function Value(s: seq<Byte>, base: nat): nat {
    if s == [] then 0 else Value(s[..|s| - 1], base) * base + Digit(s[|s| - 1])
  }

  function Power(base: nat, n: nat): nat { if n == 0 then 1 else base * Power(base, n - 1) }

  /** The value with its first digit split off. */
  lemma {:induction false} ValueFront(s: seq<Byte>, base: nat)
    requires s != []
    ensures Value(s, base) == Digit(s[0]) * Power(base, |s| - 1) + Value(s[1..], base)
  {
    if |s| == 1 {
      assert s[..0] == [] && s[1..] == [] && Power(base, 0) == 1;
    } else {
      var t := s[..|s| - 1];
      ValueFront(t, base);
      assert s[1..][..|s| - 2] == t[1..] && s[1..][|s| - 2] == s[|s| - 1];
      Spread(Digit(s[0]), Power(base, |s| - 2), Value(t[1..], base), base);
    }
  }

  lemma Spread(d: int, p: int, v: int, base: int)
    ensures (d * p + v) * base == d * (base * p) + v * base
  {
  }

  /** One more digit on the left, in 32 bits. */
  lemma WrapStep(v: int, p: int, d: int)
    ensures Wrap(Wrap(v) + Wrap(p) * d) == Wrap(d * p + v)
  {
    var a, b := v / WORD32, p / WORD32;
    assert v == WORD32 * a + Wrap(v) && p == WORD32 * b + Wrap(p);
    Regroup(a, Wrap(v), b, Wrap(p), d);
    WrapPlus(Wrap(v) + Wrap(p) * d, b * d + a);
  }

  lemma Regroup(a: int, v: int, b: int, p: int, d: int)
    ensures d * (WORD32 * b + p) + (WORD32 * a + v) == WORD32 * (b * d + a) + (v + p * d)
  {
  }

  lemma WrapTimes(p: int, base: int)
    ensures Wrap(Wrap(p) * base) == Wrap(base * p)
  {
    WrapStep(0, p, base);
  }

  /** mystrtol: from the last digit to the first; it fails exactly on strings that are no numerals. */
  method MyStrtol(s: seq<Byte>, base: nat) returns (r: Option<Word>)
    requires 2 <= base <= 16
    ensures r == if Numeral(s, base) then Some(Wrap(Value(s, base))) else None
  {
    if s == [] {
      return None;
    }
    var v: Word, exp: Word := 0, 1;
    var i := |s|;
    while i > 0
      invariant 0 <= i <= |s| && forall j :: i <= j < |s| ==> Digit(s[j]) < base
      invariant v == Wrap(Value(s[i..], base)) && exp == Wrap(Power(base, |s| - i))
    {
      var ival := Digit(s[i - 1]);
      if ival > base - 1 {
        return None;
      }
      ghost var t := s[i - 1..];
      assert t[1..] == s[i..];
      ValueFront(t, base);
      WrapStep(Value(s[i..], base), Power(base, |s| - i), ival);
      WrapTimes(Power(base, |s| - i), base);
      v := Wrap(v + exp * ival);
      exp := Wrap(exp * base);
      i := i - 1;
    }
    assert s[0..] == s;
    return Some(v);
  }

  const HEX_PREFIX: seq<Byte> := [48, 120]

  /** parseinteger: decimal, or hexadecimal behind 0x. */
  method ParseInteger(s: seq<Byte>) returns (r: Option<Word>)
    ensures var hex := HEX_PREFIX <= s;
      var digits, base := if hex then s[2..] else s, if hex then 16 else 10;
      r == if Numeral(digits, base) then Some(Wrap(Value(digits, base))) else None
  {
    if HEX_PREFIX <= s {
      r := MyStrtol(s[2..], 16);
    } else {
      r := MyStrtol(s, 10);
    }
  }

  function HexDigit(nibble: nat): Byte
    requires nibble < 16
  {
    if nibble > 9 then nibble + 55 else nibble + 48
  }

  /** n hexadecimal digits of v, most significant first. */
  function Hex(v: nat, n: nat): (s: seq<Byte>)
    ensures |s| == n
  {
    if n == 0 then [] else Hex(v / 16, n - 1) + [HexDigit(v % 16)]
  }

  lemma {:induction false} HexSplit(w: nat, n: nat, q: nat, r: nat)
    requires w == q * Power(16, n) + r && r < Power(16, n) && q < 16
    ensures Hex(w, n + 1) == [HexDigit(q)] + Hex(r, n)
  {
    if n == 0 {
      assert Hex(w, 1) == Hex(w / 16, 0) + [HexDigit(w % 16)];
    } else {
      Sixteenth(w, q, Power(16, n - 1), r);
      HexSplit(w / 16, n - 1, q, r / 16);
    }
  }

  lemma Sixteenth(w: nat, q: nat, p: nat, r: nat)
    requires w == q * (16 * p) + r && r < 16 * p
    ensures w / 16 == q * p + r / 16 && w % 16 == r % 16 && r / 16 < p
  {
    Group(q, p);
  }

  lemma Group(q: int, p: int)
    ensures q * (16 * p) == 16 * (q * p)
  {
  }

  /** A digit's worth shifted out at the top of the word. */
  lemma ShiftOut(w: nat, a: nat, b: nat, q: nat, r: nat, cur: nat)
    requires a * b == 0x1000_0000 && w == q * a + r && r < a && b > 0 && cur == w * b
    ensures cur / 0x1000_0000 == q && Wrap(cur * 16) == r * (16 * b) && r * (16 * b) < WORD32
  {
    var x := r * b;
    Expand(a, q, r, b);
    Less(r, a, b);
    TopDigit(cur, q, x);
    Group(r, b);
  }

  lemma TopDigit(cur: nat, q: nat, x: nat)
    requires cur == 0x1000_0000 * q + x && x < 0x1000_0000
    ensures cur / 0x1000_0000 == q && Wrap(cur * 16) == 16 * x < WORD32
  {
    assert cur * 16 == WORD32 * q + 16 * x;
  }

  lemma Expand(a: int, q: int, r: int, b: int)
    requires a * b == 0x1000_0000
    ensures (q * a + r) * b == 0x1000_0000 * q + r * b
  {
    assert (q * a + r) * b == q * (a * b) + r * b;
  }

  lemma Less(r: nat, a: nat, b: nat)
    requires r < a && b > 0
    ensures r * b < a * b
  {
  }

  lemma {:induction false} Powers(i: nat, n: nat)
    requires i + n == 7
    ensures Power(16, n) * Power(16, i) == 0x1000_0000
  {
    PowerSum(n, i);
    assert Power(16, 3) == 4096 by {
      assert Power(16, 3) == 16 * Power(16, 2) && Power(16, 2) == 16 * Power(16, 1) &&
        Power(16, 1) == 16 * Power(16, 0);
    }
    PowerSum(3, 3);
    assert Power(16, 7) == 16 * Power(16, 6);
  }

  lemma {:induction false} PowerSum(m: nat, n: nat)
    ensures Power(16, m + n) == Power(16, m) * Power(16, n)
  {
    if n > 0 {
      PowerSum(m, n - 1);
      assert Power(16, m + n) == 16 * Power(16, m + n - 1) && Power(16, n) == 16 * Power(16, n - 1);
      Group(Power(16, m), Power(16, n - 1));
    }
  }

  lemma {:induction false} PowerPositive(n: nat)
    ensures Power(16, n) > 0
  {
    if n > 0 {
      PowerPositive(n - 1);
    }
  }

  /** After i digits: w is what is left of the number, at the top of the word. */
  ghost predicate Printing(v: Word, i: nat, w: nat, cur: nat, s: seq<Byte>) {
    && i <= 8 && |s| == i && w < Power(16, 8 - i) && cur == w * Power(16, i) && cur < WORD32
    && s + Hex(w, 8 - i) == Hex(v, 8)
  }

  lemma FirstDigit(w: nat, n: nat) returns (q: nat, r: nat)
    requires w < Power(16, n + 1)
    ensures w == q * Power(16, n) + r && r < Power(16, n) && q < 16
  {
    PowerPositive(n);
    var a := Power(16, n);
    q, r := w / a, w % a;
    assert w == a * q + r;
    if q >= 16 {
      Larger(a, 16, q);
    }
  }

  lemma Larger(b: nat, m: int, n: int)
    requires m <= n
    ensures b * m <= b * n
  {
  }

  lemma PrintNext(v: Word, i: nat, w: nat, cur: nat, s: seq<Byte>) returns (r: nat)
    requires Printing(v, i, w, cur, s) && i < 8
    ensures cur / 0x1000_0000 < 16 && Printing(v, i + 1, r, Wrap(cur * 16), s + [HexDigit(cur / 0x1000_0000)])
  {
    var n := 7 - i;
    var q;
    q, r := FirstDigit(w, n);
    Powers(i, n);
    PowerPositive(i);
    ShiftOut(w, Power(16, n), Power(16, i), q, r, cur);
    HexSplit(w, n, q, r);
    assert Power(16, i + 1) == 16 * Power(16, i);
    assert s + ([HexDigit(q)] + Hex(r, n)) == s + [HexDigit(q)] + Hex(r, n);
  }

  /** printhex: eight digits, each taken from the top of the word while it is shifted up. */
  method PrintHex(v: Word) returns (s: seq<Byte>)
    ensures s == Hex(v, 8)
  {
    s := [];
    var cur: nat := v;
    ghost var w: nat := v;
    EightDigits();
    for i := 0 to 8
      invariant Printing(v, i, w, cur, s)
    {
      w := PrintNext(v, i, w, cur, s);
      var nibble := cur / 0x1000_0000;
      cur := Wrap(cur * 16);
      s := s + [HexDigit(nibble)];
    }
    assert s + Hex(w, 0) == s;
  }

  lemma EightDigits()
    ensures Power(16, 8) == WORD32 && Power(16, 0) == 1
  {
    Powers(0, 7);
    assert Power(16, 8) == 16 * Power(16, 7);
  }

  lemma {:induction false} HexValue(v: nat, n: nat)
    requires v < Power(16, n)
    ensures Value(Hex(v, n), 16) == v && (n > 0 ==> Numeral(Hex(v, n), 16))
  {
    if n > 0 {
      HexValue(v / 16, n - 1);
      assert Digit(HexDigit(v % 16)) == v % 16;
      assert Hex(v, n)[..n - 1] == Hex(v / 16, n - 1);
    }
  }

  /** What the monitor prints it reads back, for every word. */
  method PrintThenParse(v: Word) returns (r: Option<Word>)
    ensures r == Some(v)
  {
    var s := PrintHex(v);
    EightDigits();
    HexValue(v, 8);
    assert (HEX_PREFIX + s)[2..] == s;
    r := ParseInteger(HEX_PREFIX + s);
  }
}
