/** Debugging entries of header files that several input files include: recognised by a total, kept once. */
module Stabs {
  import opened Bytes
  import opened LinkModel

  const PAREN: Byte := 40

  /** Behind the digits at i. */
  function DigitsEnd(s: seq<Byte>, i: nat): (end: nat)
    requires i <= |s|
    ensures i <= end <= |s|
    decreases |s| - i
  {
    if i < |s| && IsDigit(s[i]) then DigitsEnd(s, i + 1) else i
  }

  /** A stabs string from i on, without the file numbers of its types: the digits after an open parenthesis. */
  function Erased(s: seq<Byte>, i: nat): seq<Byte>
    requires i <= |s|
    decreases |s| - i
  {
    if i == |s| then [] else [s[i]] + Erased(s, if s[i] == PAREN then DigitsEnd(s, i + 1) else i + 1)
  }

  /** A byte as a char, which is signed. */
  function Char(b: Byte): int { if b < 128 then b else b - 256 }

  function Sum(s: seq<Byte>): int {
    if s == [] then 0 else Char(s[0]) + Sum(s[1..])
  }

  /** Totals are kept in 64 bits. */
  function Cut(x: int): nat { x % WORD64 }

  lemma CutTwice(a: int, b: int)
    ensures Cut(Cut(a) + b) == Cut(a + b)
  {
    var q := a / WORD64;
    assert a + b == WORD64 * q + (Cut(a) + b);
    CutMany(q, Cut(a) + b);
  }

  lemma CutMany(q: int, x: int)
    ensures Cut(WORD64 * q + x) == Cut(x)
  {
  }

  /** Adding up character by character, in 64 bits. */
  function AddUp(val: nat, s: seq<Byte>): nat
    decreases |s|
  {
    if s == [] then val else AddUp(Cut(val + Char(s[0])), s[1..])
  }

  lemma {:induction false} AddUpIs(val: nat, s: seq<Byte>)
    requires val < WORD64
    ensures AddUp(val, s) == Cut(val + Sum(s))
    decreases |s|
  {
    if s != [] {
      AddUpIs(Cut(val + Char(s[0])), s[1..]);
      CutTwice(val + Char(s[0]), Sum(s[1..]));
    }
  }

  lemma AddUpNext(val: nat, b: Byte, rest: seq<Byte>)
    ensures AddUp(val, [b] + rest) == AddUp(Cut(val + Char(b)), rest)
  {
    assert ([b] + rest)[1..] == rest;
  }

  /** The character loop for one string. */
  method StabSum(s: seq<Byte>, before: nat) returns (val: nat)
    requires before < WORD64
    ensures val == Cut(before + Sum(Erased(s, 0)))
  {
    AddUpIs(before, Erased(s, 0));
    val := before;
    var i := 0;
    while i < |s|
      invariant i <= |s| && AddUp(val, Erased(s, i)) == AddUp(before, Erased(s, 0))
    {
      ghost var was := val;
      val := Cut(val + Char(s[i]));
      var next := i + 1;
      if s[i] == PAREN {
        while next < |s| && IsDigit(s[next])
          invariant i < next <= |s| && DigitsEnd(s, next) == DigitsEnd(s, i + 1)
        {
          next := next + 1;
        }
      }
      AddUpNext(was, s[i], Erased(s, next));
      i := next;
    }
  }

  /** The symbols of a header file that starts before j, not counting those of files that it includes. */
  function Covered(syms: seq<Sym>, j: nat, nest: nat): set<nat>
    decreases |syms| - j
  {
    if j >= |syms| then {}
    else if syms[j].ntype == N_EINCL then (if nest == 0 then {} else Covered(syms, j + 1, nest - 1))
    else if syms[j].ntype == N_BINCL then Covered(syms, j + 1, nest + 1)
    else (if nest == 0 then {j} else {}) + Covered(syms, j + 1, nest)
  }

  /** The N_EINCL that ends it, or the end of the symbols. */
  function HeaderEnd(syms: seq<Sym>, j: nat, nest: nat): nat
    decreases |syms| - j
  {
    if j >= |syms| then |syms|
    else if syms[j].ntype == N_EINCL then (if nest == 0 then j else HeaderEnd(syms, j + 1, nest - 1))
    else if syms[j].ntype == N_BINCL then HeaderEnd(syms, j + 1, nest + 1)
    else HeaderEnd(syms, j + 1, nest)
  }

  function Total(syms: seq<Sym>, j: nat, nest: nat): int
    decreases |syms| - j
  {
    if j >= |syms| then 0
    else if syms[j].ntype == N_EINCL then (if nest == 0 then 0 else Total(syms, j + 1, nest - 1))
    else if syms[j].ntype == N_BINCL then Total(syms, j + 1, nest + 1)
    else (if nest == 0 then Sum(Erased(syms[j].name, 0)) else 0) + Total(syms, j + 1, nest)
  }

  /** The first loop at an N_BINCL: the total of the header file that starts there. */
  method HeaderTotal(syms: seq<Sym>, k: nat) returns (total: nat)
    requires k < |syms|
    ensures total == Cut(Total(syms, k + 1, 0))
  {
    total := 0;
    var nest, j := 0, k + 1;
    ghost var sum: int := 0;
    while j < |syms|
      invariant 0 <= nest && j <= |syms| && total == Cut(sum) && sum + Total(syms, j, nest) == Total(syms, k + 1, 0)
      decreases |syms| - j
    {
      var t := syms[j].ntype;
      if t == N_EINCL {
        if nest == 0 {
          break;
        }
        nest := nest - 1;
      } else if t == N_BINCL {
        nest := nest + 1;
      } else if nest == 0 {
        CutTwice(sum, Sum(Erased(syms[j].name, 0)));
        total := StabSum(syms[j].name, total);
        sum := sum + Sum(Erased(syms[j].name, 0));
      }
      j := j + 1;
    }
  }

  /** The same header file with other file numbers has the same total. */
  lemma {:induction false} SameTotals(syms: seq<Sym>, syms': seq<Sym>, j: nat, nest: nat)
    requires |syms| == |syms'|
    requires forall i :: 0 <= i < |syms| ==>
      syms[i].ntype == syms'[i].ntype && Erased(syms[i].name, 0) == Erased(syms'[i].name, 0)
    ensures Total(syms, j, nest) == Total(syms', j, nest)
    decreases |syms| - j
  {
    if j < |syms| {
      if syms[j].ntype == N_EINCL {
        if nest > 0 {
          SameTotals(syms, syms', j + 1, nest - 1);
        }
      } else if syms[j].ntype == N_BINCL {
        SameTotals(syms, syms', j + 1, nest + 1);
      } else {
        SameTotals(syms, syms', j + 1, nest);
      }
    }
  }

  lemma {:induction false} CoveredBounds(syms: seq<Sym>, j: nat, nest: nat)
    ensures forall i :: i in Covered(syms, j, nest) ==> j <= i < |syms|
    ensures j <= |syms| ==> j <= HeaderEnd(syms, j, nest) <= |syms|
    decreases |syms| - j
  {
    if j < |syms| {
      if nest > 0 {
        CoveredBounds(syms, j + 1, nest - 1);
      }
      CoveredBounds(syms, j + 1, nest + 1);
      CoveredBounds(syms, j + 1, nest);
    }
  }

  /** Whether the second loop drops symbol i. */
  ghost predicate Drops(syms: seq<Sym>, j: nat, nest: nat, i: nat) {
    i in Covered(syms, j, nest) || i == HeaderEnd(syms, j, nest)
  }

  /** The nesting depth after symbol j, if the header file goes on behind it. */
  function Deeper(syms: seq<Sym>, j: nat, nest: nat): nat
    requires j < |syms| && !(syms[j].ntype == N_EINCL && nest == 0)
  {
    if syms[j].ntype == N_EINCL then nest - 1 else if syms[j].ntype == N_BINCL then nest + 1 else nest
  }

  /** Symbol j is dropped if it ends the file or belongs to it directly; the others are decided behind it. */
  lemma DropsStep(syms: seq<Sym>, j: nat, nest: nat, i: nat)
    requires j < |syms| && i < |syms|
    ensures syms[j].ntype == N_EINCL && nest == 0 ==> (Drops(syms, j, nest, i) <==> i == j)
    ensures !(syms[j].ntype == N_EINCL && nest == 0) && i != j ==>
      (Drops(syms, j, nest, i) <==> Drops(syms, j + 1, Deeper(syms, j, nest), i))
    ensures !(syms[j].ntype == N_EINCL && nest == 0) ==>
      (Drops(syms, j, nest, j) <==> nest == 0 && syms[j].ntype != N_BINCL)
  {
    if !(syms[j].ntype == N_EINCL && nest == 0) {
      var d := Deeper(syms, j, nest);
      CoveredBounds(syms, j + 1, d);
      assert HeaderEnd(syms, j, nest) == HeaderEnd(syms, j + 1, d);
      assert j !in Covered(syms, j + 1, d) && j < HeaderEnd(syms, j + 1, d);
      assert Covered(syms, j, nest) == (if nest == 0 && syms[j].ntype != N_BINCL then {j} else {}) +
        Covered(syms, j + 1, d);
    }
  }

  /** Where the second loop has come to j, symbols before j are decided and those behind it untouched. */
  ghost predicate Decided(syms: seq<Sym>, was: int, now: int, from: nat, j: nat, nest: nat, i: nat) {
    if i < j then now == if Drops(syms, from, 0, i) then -1 else was
    else now == was && (Drops(syms, j, nest, i) <==> Drops(syms, from, 0, i))
  }

  ghost predicate AllDecided(syms: seq<Sym>, smap: seq<int>, r: seq<int>, from: nat, j: nat, nest: nat) {
    |r| == |smap| && forall i {:trigger r[i]} :: 0 <= i < |r| ==> Decided(syms, smap[i], r[i], from, j, nest, i)
  }

  lemma DecidedNext(syms: seq<Sym>, smap: seq<int>, r: seq<int>, r': seq<int>, from: nat, j: nat, nest: nat)
    requires AllDecided(syms, smap, r, from, j, nest) && j < |syms| == |smap|
    requires !(syms[j].ntype == N_EINCL && nest == 0)
    requires r' == if nest == 0 && syms[j].ntype != N_BINCL then r[j := -1] else r
    ensures AllDecided(syms, smap, r', from, j + 1, Deeper(syms, j, nest))
  {
    forall i {:trigger r'[i]} | 0 <= i < |r'|
      ensures Decided(syms, smap[i], r'[i], from, j + 1, Deeper(syms, j, nest), i)
    {
      assert Decided(syms, smap[i], r[i], from, j, nest, i);
      DropsStep(syms, j, nest, i);
    }
  }

  lemma DecidedLast(syms: seq<Sym>, smap: seq<int>, r: seq<int>, r': seq<int>, from: nat, j: nat)
    requires AllDecided(syms, smap, r, from, j, 0) && j < |syms| == |smap| && syms[j].ntype == N_EINCL
    requires r' == r[j := -1]
    ensures AllDecided(syms, smap, r', from, |syms|, 0)
  {
    forall i {:trigger r'[i]} | 0 <= i < |r'|
      ensures Decided(syms, smap[i], r'[i], from, |syms|, 0, i)
    {
      assert Decided(syms, smap[i], r[i], from, j, 0, i);
      DropsStep(syms, j, 0, i);
    }
  }

  /** The second loop at a repeated N_BINCL: its symbols and its N_EINCL are dropped, those of nested files are not. */
  method DropHeader(syms: seq<Sym>, k: nat, smap: seq<int>) returns (r: seq<int>)
    requires k < |syms| == |smap|
    ensures |r| == |smap|
    ensures forall i {:trigger r[i]} :: 0 <= i < |r| ==> r[i] == if Drops(syms, k + 1, 0, i) then -1 else smap[i]
  {
    r := smap;
    var nest, j := 0, k + 1;
    CoveredBounds(syms, j, 0);
    while j < |syms|
      invariant 0 <= nest && j <= |syms| && AllDecided(syms, smap, r, k + 1, j, nest)
      decreases |syms| - j
    {
      ghost var before, depth := r, nest;
      var t := syms[j].ntype;
      if t == N_EINCL {
        if nest == 0 {
          r := r[j := -1];
          DecidedLast(syms, smap, before, r, k + 1, j);
          return;
        }
        nest := nest - 1;
      } else if t == N_BINCL {
        nest := nest + 1;
      } else if nest == 0 {
        r := r[j := -1];
      }
      DecidedNext(syms, smap, before, r, k + 1, j, depth);
      j := j + 1;
    }
  }
}
