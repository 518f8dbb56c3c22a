/** Reading symbol maps back. */
module ArMapReader {
  import opened ArMap
  import opened ArMapFile
  import opened Bytes

  /** A symbol of a map that was read: its name and the position of its member. */
  datatype Sym = Sym(name: seq<Byte>, off: nat)

  /** The string with index idx, of the strings that start at q. */
  function StringFrom(s: seq<Byte>, q: nat, idx: nat): seq<Byte> {
    if q + idx <= |s| then CString(s[q + idx..]) else []
  }

  // ---------- BSD maps: the size of the symdefs, the symdefs, the size of the strings, the strings ----------

  function BsdSym(big: bool, raw: seq<Byte>, count: nat, i: nat): Sym
    requires i < count && 4 + 8 * count <= |raw|
  {
    SymAt(big, raw, DefPos(i), NamesPos(count))
  }

  /** Where the i-th symdef is, and where the strings of count symdefs start. */
  function DefPos(i: nat): nat { 4 + 8 * i }

  function NamesPos(count: nat): nat { 4 + 8 * count + 4 }

  /** The symdef at p of a map whose strings start at q. */
  function SymAt(big: bool, raw: seq<Byte>, p: nat, q: nat): Sym
    requires p + 8 <= |raw|
  {
    Sym(StringFrom(raw, q, Get(big, raw[p..p + 4])), Get(big, raw[p + 4..p + 8]))
  }

  ghost predicate BsdSyms(big: bool, raw: seq<Byte>, count: nat, syms: seq<Sym>) {
    |syms| <= count && 4 + 8 * count <= |raw| && forall i {:trigger syms[i]} :: 0 <= i < |syms| ==>
        syms[i] == BsdSym(big, raw, count, i)
  }

  /** A BSD map that has been read into memory. */
  function BsdMapOf(big: bool, raw: seq<Byte>): Option<seq<Sym>> {
    if |raw| < 4 then None
    else
      var count := Get(big, raw[..4]) / 8;
      if 8 * count > |raw| - 4 then None else Some(seq(count, i requires 0 <= i < count => BsdSym(big, raw, count, i)))
  }

  /** The loop of do_slurp_bsd_armap. */
  method ParseBsd(big: bool, raw: seq<Byte>) returns (r: Option<seq<Sym>>)
    ensures r == BsdMapOf(big, raw)
  {
    if |raw| < 4 {
      return None;
    }
    var count := Get(big, raw[..4]) / 8;
    if 8 * count > |raw| - 4 {
      return None;
    }
    var syms := [];
    for i := 0 to count
      invariant |syms| == i && BsdSyms(big, raw, count, syms)
    {
      syms := syms + [BsdSym(big, raw, count, i)];
    }
    assert syms == BsdMapOf(big, raw).value;
    return Some(syms);
  }

  /** The numbers in a map fit their four bytes. */
  predicate SmallMap(entries: seq<Entry>, offs: seq<nat>) {
    8 * |entries| + StringSize(entries) < WORD32 && Below(offs, WORD32, |offs|)
  }

  predicate NoNul(entries: seq<Entry>) {
    forall i :: 0 <= i < |entries| ==> NUL !in entries[i].name
  }

  lemma Words32()
    ensures Pow256(4) == WORD32 && Pow256(8) == WORD64
  {
    assert Pow256(4) == 256 * Pow256(3) && Pow256(3) == 256 * Pow256(2) && Pow256(2) == 256 * Pow256(1) &&
      Pow256(1) == 256 * Pow256(0);
    assert Pow256(8) == 256 * Pow256(7) && Pow256(7) == 256 * Pow256(6) && Pow256(6) == 256 * Pow256(5) &&
      Pow256(5) == 256 * Pow256(4);
  }

  /** Names in the string part of a map. */
  lemma NameAt(entries: seq<Entry>, f: seq<Byte>, base: nat, i: nat)
    requires i < |entries| && NUL !in entries[i].name && At(f, base, Concat(Strings(entries), |entries|))
    ensures StringFrom(f, base, NameIdx(entries, i)) == entries[i].name
  {
    StringPiece(f, base, Strings(entries), i, entries[i].name, NameIdx(entries, i));
  }

  lemma StringPiece(f: seq<Byte>, base: nat, cs: seq<seq<Byte>>, i: nat, s: seq<Byte>, idx: nat)
    requires i < |cs| && cs[i] == s + [NUL] && NUL !in s && idx == |Concat(cs, i)| && At(f, base, Concat(cs, |cs|))
    ensures StringFrom(f, base, idx) == s
  {
    PieceOf(f, base, cs, i);
    CStringAt(f, base + idx, s);
  }

  lemma NameIdxBound(entries: seq<Entry>, i: nat)
    requires i <= |entries|
    ensures NameIdx(entries, i) <= StringSize(entries)
  {
    ConcatGrows(Strings(entries), i, |entries|);
  }

  /** Two numbers of four bytes each. */
  ghost predicate TwoAt(big: bool, raw: seq<Byte>, p: nat, x: nat, y: nat) {
    p + 8 <= |raw| && Get(big, raw[p..p + 4]) == x && Get(big, raw[p + 4..p + 8]) == y
  }

  lemma GetTwo(big: bool, raw: seq<Byte>, p: nat, x: nat, y: nat)
    requires At(raw, p, Put(big, x, 4) + Put(big, y, 4)) && x < WORD32 && y < WORD32
    ensures TwoAt(big, raw, p, x, y)
  {
    Words32();
    Halves(raw, p, Put(big, x, 4), Put(big, y, 4), p + 4, p + 8);
    GetPut(big, x, 4);
    GetPut(big, y, 4);
  }

  lemma Halves(raw: seq<Byte>, p: nat, a: seq<Byte>, b: seq<Byte>, q: nat, end: nat)
    requires At(raw, p, a + b) && q == p + |a| && end == q + |b|
    ensures end <= |raw| && raw[p..q] == a && raw[q..end] == b
  {
    AtPart(raw, p, a + b, 0, |a|);
    AtPart(raw, p, a + b, |a|, |a + b|);
    assert (a + b)[0..|a|] == a && (a + b)[|a|..|a + b|] == b;
  }

  /** The two numbers of the i-th symdef. */
  lemma SymdefAt(big: bool, entries: seq<Entry>, offs: seq<nat>, f: seq<Byte>, i: nat, p: nat)
    requires |offs| == |entries| && i < |entries| && NameIdx(entries, i) < WORD32 && offs[i] < WORD32
    requires At(f, 4, Concat(Symdefs(big, entries, offs), |entries|)) && p == DefPos(i)
    ensures TwoAt(big, f, p, NameIdx(entries, i), offs[i])
  {
    EvenPieceOf(f, 4, Symdefs(big, entries, offs), 8, i, p);
    GetTwo(big, f, p, NameIdx(entries, i), offs[i]);
  }

  function SymsOf(entries: seq<Entry>, offs: seq<nat>): (syms: seq<Sym>)
    requires |offs| == |entries|
    ensures |syms| == |entries| && forall i {:trigger syms[i]} :: 0 <= i < |syms| ==>
      syms[i] == Sym(entries[i].name, offs[i])
  {
    seq(|entries|, i requires 0 <= i < |entries| => Sym(entries[i].name, offs[i]))
  }

  lemma FiveParts(f: seq<Byte>, a: seq<Byte>, b: seq<Byte>, c: seq<Byte>, d: seq<Byte>, e: seq<Byte>, p: nat, q: nat)
    requires f == a + b + c + (d + e) && p == |a| && q == p + |b| + |c|
    ensures At(f, 0, a) && At(f, p, b) && At(f, q, d)
  {
  }

  lemma NamesPosIs(big: bool, entries: seq<Entry>, offs: seq<nat>, n: nat)
    requires |offs| == |entries| == n
    ensures NamesPos(n) == 4 + |Concat(Symdefs(big, entries, offs), n)| + 4
  {
    EvenPieces(Symdefs(big, entries, offs), 8, n);
  }

  /** Where the parts of a BSD map are. */
  lemma {:induction false} BsdParts(big: bool, entries: seq<Entry>, offs: seq<nat>, raw: seq<Byte>, p: nat, q: nat)
    requires |offs| == |entries| && raw == MapBody(BsdKind, big, entries, offs) && p == 4 && q == NamesPos(|entries|)
    ensures At(raw, 0, Put(big, 8 * |entries|, 4)) && At(raw, p, Concat(Symdefs(big, entries, offs), |entries|))
    ensures At(raw, q, Concat(Strings(entries), |entries|))
  {
    NamesPosIs(big, entries, offs, |entries|);
    FiveParts(raw, Put(big, 8 * |entries|, 4), Concat(Symdefs(big, entries, offs), |entries|),
        SizeWord(big, |entries|, StringSize(entries)), Concat(Strings(entries), |entries|),
        Fill(MapPad(BsdKind, |entries|, StringSize(entries)), NUL), p, q);
  }

  lemma BsdCount(big: bool, n: nat, raw: seq<Byte>)
    requires At(raw, 0, Put(big, 8 * n, 4)) && 8 * n < WORD32
    ensures |raw| >= 4 && Get(big, raw[..4]) / 8 == n
  {
    assert raw[..4] == raw[0..4];
    Words32();
    GetPut(big, 8 * n, 4);
  }

  lemma BsdSymRead(big: bool, entries: seq<Entry>, offs: seq<nat>, raw: seq<Byte>, i: nat, p: nat, q: nat)
    requires |offs| == |entries| && i < |entries| && SmallMap(entries, offs) && NUL !in entries[i].name
    requires At(raw, 4, Concat(Symdefs(big, entries, offs), |entries|)) &&
      At(raw, q, Concat(Strings(entries), |entries|))
    requires p == DefPos(i)
    ensures p + 8 <= |raw| && SymAt(big, raw, p, q) == Sym(entries[i].name, offs[i])
  {
    NameIdxBound(entries, i);
    SymdefAt(big, entries, offs, raw, i, p);
    NameAt(entries, raw, q, i);
  }

  lemma BsdSymsRead(big: bool, entries: seq<Entry>, offs: seq<nat>, raw: seq<Byte>, syms: seq<Sym>)
    requires |offs| == |entries| == |syms| && SmallMap(entries, offs) && NoNul(entries)
    requires raw == MapBody(BsdKind, big, entries, offs) && BsdSyms(big, raw, |entries|, syms)
    ensures syms == SymsOf(entries, offs)
  {
    BsdParts(big, entries, offs, raw, 4, NamesPos(|entries|));
    forall i | 0 <= i < |syms|
      ensures syms[i] == Sym(entries[i].name, offs[i])
    {
      BsdSymRead(big, entries, offs, raw, i, DefPos(i), NamesPos(|entries|));
    }
  }

  /** Slurping a BSD map that was written gives back the same names and positions in the same order. */
  lemma BsdRoundTrip(big: bool, entries: seq<Entry>, offs: seq<nat>, raw: seq<Byte>)
    requires |offs| == |entries| && SmallMap(entries, offs) && NoNul(entries)
    requires raw == MapBody(BsdKind, big, entries, offs)
    ensures BsdMapOf(big, raw) == Some(SymsOf(entries, offs))
  {
    var n := |entries|;
    BsdParts(big, entries, offs, raw, 4, NamesPos(|entries|));
    BsdCount(big, n, raw);
    assert 8 * n <= |raw| - 4;
    BsdSymsRead(big, entries, offs, raw, BsdMapOf(big, raw).value);
  }

  // ---------- COFF and 64-bit maps ----------

  /** Where the i-th string starts when strings follow each other. */
  function StringPos(strings: seq<Byte>, i: nat): nat {
    if i == 0 then 0 else StringPos(strings, i - 1) + |StringFrom(strings, 0, StringPos(strings, i - 1))| + 1
  }

  /** The i-th number of w bytes. */
  function NumberAt(w: nat, raw: seq<Byte>, i: nat): nat {
    WordAt(w, raw, WordPos(w, i))
  }

  function WordPos(w: nat, i: nat): nat { w * i }

  function WordAt(w: nat, raw: seq<Byte>, p: nat): nat {
    if p + w <= |raw| then GetBig(raw[p..p + w]) else 0
  }

  lemma WordIs(w: nat, n: nat, raw: seq<Byte>, p: nat)
    requires n < Pow256(w) && At(raw, p, PutBig(n, w))
    ensures WordAt(w, raw, p) == n
  {
    GetPutBig(n, w);
  }

  function IndexSym(w: nat, raw: seq<Byte>, strings: seq<Byte>, i: nat): Sym {
    Sym(StringFrom(strings, 0, StringPos(strings, i)), NumberAt(w, raw, i))
  }

  ghost predicate IndexSyms(w: nat, raw: seq<Byte>, strings: seq<Byte>, syms: seq<Sym>) {
    forall i {:trigger syms[i]} :: 0 <= i < |syms| ==> syms[i] == IndexSym(w, raw, strings, i)
  }

  /** A COFF or 64-bit map that has been read into memory: a count, positions, strings. */
  function IndexMapOf(w: nat, raw: seq<Byte>): Option<seq<Sym>> {
    if |raw| < w then None
    else
      var n := WordAt(w, raw, 0);
      if w + WordPos(w, n) > |raw| then None
      else
        var index, strings := raw[w..w + WordPos(w, n)], raw[w + WordPos(w, n)..];
        Some(seq(n, i requires 0 <= i < n => IndexSym(w, index, strings, i)))
  }

  lemma OneMore(w: nat, index: seq<Byte>, strings: seq<Byte>, syms: seq<Sym>, sym: Sym)
    requires IndexSyms(w, index, strings, syms) && sym == IndexSym(w, index, strings, |syms|)
    ensures IndexSyms(w, index, strings, syms + [sym])
  {
  }

  /** The loop that builds the symbols: positions by number, names one after the other. */
  method BuildSyms(w: nat, index: seq<Byte>, strings: seq<Byte>, n: nat) returns (syms: seq<Sym>)
    ensures |syms| == n && IndexSyms(w, index, strings, syms)
  {
    syms := [];
    var p := 0;
    for i := 0 to n
      invariant |syms| == i && p == StringPos(strings, i) && IndexSyms(w, index, strings, syms)
    {
      var name := StringFrom(strings, 0, p);
      OneMore(w, index, strings, syms, Sym(name, NumberAt(w, index, i)));
      syms := syms + [Sym(name, NumberAt(w, index, i))];
      p := p + |name| + 1;
    }
  }

  /** do_slurp_coff_armap and bfd_elf64_archive_slurp_armap. */
  method ParseIndex(w: nat, raw: seq<Byte>) returns (r: Option<seq<Sym>>)
    ensures r == IndexMapOf(w, raw)
  {
    if |raw| < w {
      return None;
    }
    var n := WordAt(w, raw, 0);
    var end := w + WordPos(w, n);
    if end > |raw| {
      return None;
    }
    var syms := BuildSyms(w, raw[w..end], raw[end..], n);
    assert syms == IndexMapOf(w, raw).value;
    return Some(syms);
  }

  lemma NumberIs(w: nat, offs: seq<nat>, raw: seq<Byte>, i: nat)
    requires i < |offs| && offs[i] < Pow256(w) && raw == Concat(Index(w, offs), |offs|)
    ensures NumberAt(w, raw, i) == offs[i]
  {
    assert raw == raw[0..0 + |raw|];
    EvenPieceOf(raw, 0, Index(w, offs), w, i, WordPos(w, i));
    WordIs(w, offs[i], raw, WordPos(w, i));
  }

  /** Strings written one after the other are found one after the other. */
  lemma {:induction false} StringPosIs(entries: seq<Entry>, strings: seq<Byte>, i: nat)
    requires i <= |entries| && NoNul(entries) && At(strings, 0, Concat(Strings(entries), |entries|))
    ensures StringPos(strings, i) == NameIdx(entries, i)
  {
    if i > 0 {
      StringPosIs(entries, strings, i - 1);
      NameAt(entries, strings, 0, i - 1);
      NameIdxNext(entries, i - 1);
    }
  }

  lemma NameIdxNext(entries: seq<Entry>, i: nat)
    requires i < |entries|
    ensures NameIdx(entries, i + 1) == NameIdx(entries, i) + |entries[i].name| + 1
  {
    assert Strings(entries)[i] == entries[i].name + [NUL];
  }

  lemma IndexSymRead(w: nat, entries: seq<Entry>, offs: seq<nat>, raw: seq<Byte>, strings: seq<Byte>, i: nat)
    requires |offs| == |entries| && i < |entries| && NoNul(entries) && offs[i] < Pow256(w)
    requires raw == Concat(Index(w, offs), |offs|) && At(strings, 0, Concat(Strings(entries), |entries|))
    ensures IndexSym(w, raw, strings, i) == Sym(entries[i].name, offs[i])
  {
    NumberIs(w, offs, raw, i);
    StringPosIs(entries, strings, i);
    NameAt(entries, strings, 0, i);
  }

  lemma IndexSymsRead(w: nat, entries: seq<Entry>, offs: seq<nat>, raw: seq<Byte>, strings: seq<Byte>, syms: seq<Sym>)
    requires |offs| == |entries| == |syms| && NoNul(entries) && Below(offs, Pow256(w), |offs|)
    requires raw == Concat(Index(w, offs), |offs|) && At(strings, 0, Concat(Strings(entries), |entries|))
    requires IndexSyms(w, raw, strings, syms)
    ensures syms == SymsOf(entries, offs)
  {
    forall i | 0 <= i < |syms|
      ensures syms[i] == Sym(entries[i].name, offs[i])
    {
      IndexSymRead(w, entries, offs, raw, strings, i);
    }
  }

  lemma ThreeParts(f: seq<Byte>, a: seq<Byte>, b: seq<Byte>, d: seq<Byte>, e: seq<Byte>, p: nat, q: nat)
    requires f == a + b + (d + e) && p == |a| && q == p + |b|
    ensures At(f, 0, a) && p <= q <= |f| && f[p..q] == b && At(f[q..], 0, d)
  {
  }

  /** Slurping a COFF or 64-bit map gives back the same names and positions in the same order. */
  lemma IndexRoundTrip(kind: Kind, big: bool, entries: seq<Entry>, offs: seq<nat>, raw: seq<Byte>, w: nat)
    requires !kind.BsdKind? && w == Width(kind) && |offs| == |entries| < Pow256(w) && NoNul(entries) &&
      Below(offs, Pow256(w), |offs|)
    requires raw == MapBody(kind, big, entries, offs)
    ensures IndexMapOf(w, raw) == Some(SymsOf(entries, offs))
  {
    var n := |entries|;
    var a, b := PutBig(n, w), Concat(Index(w, offs), n);
    EvenPieces(Index(w, offs), w, n);
    ThreeParts(raw, a, b, Concat(Strings(entries), n), Fill(MapPad(kind, n, StringSize(entries)), NUL), w,
        w + WordPos(w, n));
    WordIs(w, n, raw, 0);
    IndexSymsRead(w, entries, offs, b, raw[w + WordPos(w, n)..], IndexMapOf(w, raw).value);
  }
}
