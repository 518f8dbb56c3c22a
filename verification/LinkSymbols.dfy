/** Writing the symbols of one input file: what becomes of each, and the map from input to output numbers. */
module LinkSymbols {
  import opened Bytes
  import opened LinkModel
  import opened Stabs

  type Includes = map<seq<Byte>, set<nat>>

  /** The variables of the loop; buf holds the output symbols of this file, which are written at its end. */
  datatype Loop = Loop(
    marks: Marks, includes: Includes, count: nat, buf: seq<Record>,
    smap: seq<int>, hashes: seq<Option<Hid>>, pass: bool, skipNext: bool)

  /** Debugging symbols are not entered into the hash table. */
  ghost predicate SymsOk(cfg: Config, syms: seq<Sym>) {
    forall j {:trigger syms[j]} :: 0 <= j < |syms| && syms[j].hash.Some? ==>
      syms[j].hash.value in cfg.table && !IsStab(syms[j].ntype)
  }

  // ---------- Symbols that get no record ----------

  /** Symbol j belongs to a header file that an earlier symbol opens. */
  ghost predicate InHeader(syms: seq<Sym>, j: nat) {
    exists b :: 0 <= b < j < |syms| && syms[b].ntype == N_BINCL && Drops(syms, b + 1, 0, j)
  }

  predicate IsLink(sym: Sym) { IsIndr(sym.ntype) || sym.ntype == N_WARNING }

  /** Symbol j is the target of the indirect or warning symbol before it, dropped symbols aside. */
  ghost predicate IsTarget(syms: seq<Sym>, j: nat) {
    0 < j <= |syms| && (IsLink(syms[j - 1]) || (InHeader(syms, j - 1) && IsTarget(syms, j - 1)))
  }

  /** The name that decides about stripping: the hash entry's, in case the symbol was wrapped. */
  function NameOf(cfg: Config, sym: Sym): seq<Byte> {
    if sym.hash.Some? && sym.hash.value in cfg.table && !cfg.table[sym.hash.value].kind.Warning?
    then cfg.table[sym.hash.value].name else sym.name
  }

  predicate StripsSym(cfg: Config, sym: Sym) {
    match cfg.strip
    case StripNone => false
    case StripDebugger => IsStab(sym.ntype)
    case StripSome => NameOf(cfg, sym) !in cfg.keep
    case StripAll => true
  }

  /** Local symbols may be discarded; elements of sets may not. */
  predicate DiscardsSym(cfg: Config, sym: Sym) {
    && sym.hash.None? && !IsSet(sym.ntype)
    && match cfg.discard
       case DiscardNone => false
       case DiscardSecMerge => false
       case DiscardL => !IsStab(sym.ntype) && sym.name != [] && sym.name[0] == cfg.localsPrefix
       case DiscardAll => true
  }

  /** Every reason why symbol j can be without a number. */
  ghost predicate Excused(cfg: Config, syms: seq<Sym>, j: nat)
    requires j < |syms|
  {
    var sym := syms[j];
    || InHeader(syms, j) || IsTarget(syms, j) || StripsSym(cfg, sym) || DiscardsSym(cfg, sym)
    || (sym.hash.Some? && sym.hash.value in cfg.table && Unnumbered(cfg, cfg.table[sym.hash.value]))
  }

  /** An entry that is stripped or can have no record. */
  predicate Unnumbered(cfg: Config, e: Hash) { Stripped(cfg, e.name) || !e.Plain() }

  // ---------- Symbols that get one ----------

  /** The base entry behind indirect and warning entries. */
  ghost function BaseEntry(table: Table, h: Hid): (r: Hid)
    requires WellLinked(table) && h in table
    ensures r in table && !table[r].Linked()
  {
    if table[h].Linked() then BaseEntry(table, table[h].link) else h
  }

  /** The symbol is written as the start of something that the next symbol completes. */
  predicate PassesNext(ntype: Byte, res: Option<Hash>) {
    || (IsIndr(ntype) && (res.None? || !(res.value.kind in {Defined, DefWeak, Common})))
    || ntype == N_WARNING
  }

  /** The type of a symbol whose definition comes from the hash table. */
  function DefinedType(ntype: Byte, e: Hash): Byte
    requires !IsStab(ntype)
  {
    var t := if ntype in {N_SETT, N_SETD, N_SETB, N_SETA} then 1 else ntype % 2;
    match e.kind
    case Defined => OrExt(SectionType(e.section), t)
    case DefWeak => OrExt(WeakType(e.section), t)
    case UndefWeak => N_WEAKU
    case _ => ntype
  }

  /** The type of a symbol in the output, but for header files. */
  function Treated(ntype: Byte, res: Option<Hash>): Byte {
    if InSection(ntype) || PassesNext(ntype, res) || IsStab(ntype) || res.None? then ntype
    else DefinedType(ntype, res.value)
  }

  ghost predicate TypeFits(cfg: Config, sym: Sym, t: Byte) {
    && WellLinked(cfg.table) && (sym.hash.Some? ==> sym.hash.value in cfg.table)
    && var res := Resolved(cfg, sym);
       var treated := Treated(sym.ntype, if res.Some? then Some(cfg.table[res.value]) else None);
       t == treated || (treated == N_BINCL && t == N_EXCL)
  }

  /** What may be written for symbol j: the unchanged target of a link, or a kept symbol with its proper type. */
  ghost predicate SymbolFits(cfg: Config, syms: seq<Sym>, j: nat, rec: Record) {
    && j < |syms|
    && var sym := syms[j];
       || (rec.entry.None? && IsTarget(syms, j) && rec.ntype == sym.ntype)
       || (rec.entry == sym.hash && !StripsSym(cfg, sym) && !DiscardsSym(cfg, sym) && TypeFits(cfg, sym, rec.ntype))
  }

  /** A record that an input file may bring out, its first k symbols considered. */
  ghost predicate FromFile(cfg: Config, file: File, syms: seq<Sym>, k: nat, rec: Record) {
    match rec.source
    case FileName(f) => f == file && NamesFile(cfg, file.name) && rec.entry.None? && rec.ntype == N_TEXT
    case Input(f, j) => f == file && j < k && SymbolFits(cfg, syms, j, rec)
    case Other => false
  }

  ghost predicate AllFromFile(cfg: Config, file: File, syms: seq<Sym>, k: nat, recs: seq<Record>) {
    forall i {:trigger recs[i]} :: 0 <= i < |recs| ==> FromFile(cfg, file, syms, k, recs[i])
  }

  // ---------- The loop's invariant ----------

  /** The entry that relocations against symbol j use: the base entry, unless the symbol was not looked at. */
  ghost predicate HashRight(cfg: Config, syms: seq<Sym>, j: nat, h: Option<Hid>)
    requires j < |syms|
  {
    && WellLinked(cfg.table) && (syms[j].hash.Some? ==> syms[j].hash.value in cfg.table)
    && (h == Resolved(cfg, syms[j]) || (h == syms[j].hash && (IsTarget(syms, j) || InHeader(syms, j))))
  }

  ghost function Resolved(cfg: Config, sym: Sym): (h: Option<Hid>)
    requires WellLinked(cfg.table) && (sym.hash.Some? ==> sym.hash.value in cfg.table)
    ensures h.Some? ==> h.value in cfg.table && !cfg.table[h.value].Linked()
  {
    if sym.hash.Some? then Some(BaseEntry(cfg.table, sym.hash.value)) else None
  }

  /** What has been decided for the symbols before k; those behind it wait, or are dropped with their header file. */
  ghost predicate MapOk(cfg: Config, recs: seq<Record>, file: File, syms: seq<Sym>, k: nat, L: Loop) {
    && k <= |syms| == |L.smap| == |L.hashes|
    && AllRight(cfg, recs, L.smap, file, syms, k)
    && (forall j {:trigger L.smap[j]} :: 0 <= j < k && L.smap[j] < 0 ==> Excused(cfg, syms, j))
    && (forall j {:trigger L.smap[j]} :: k <= j < |syms| ==> L.smap[j] == 0 || (L.smap[j] == -1 && InHeader(syms, j)))
    && (forall j {:trigger L.hashes[j]} :: k <= j < |syms| ==> L.hashes[j] == syms[j].hash)
    && (forall j {:trigger L.hashes[j]} :: 0 <= j < k ==> HashRight(cfg, syms, j, L.hashes[j]))
    && (L.skipNext || L.pass ==> IsTarget(syms, k)) && !(L.skipNext && L.pass)
  }

  /** The count runs ahead of the file by the buffer, which never holds more than one symbol beyond those seen. */
  ghost predicate LoopOk(cfg: Config, out: seq<Record>, file: File, syms: seq<Sym>, k: nat, L: Loop) {
    && L.count == |out| + |L.buf| && |L.buf| <= k + 1
    && Owned(cfg, L.marks, out + L.buf) && MapOk(cfg, out + L.buf, file, syms, k, L)
    && AllFromFile(cfg, file, syms, k, L.buf)
  }

  /** What the loop hands on to the next symbol. */
  datatype Next = Next(res: Option<Hid>, pass: bool, skip: bool)

  ghost predicate NextOk(cfg: Config, syms: seq<Sym>, k: nat, next: Next)
    requires k < |syms|
  {
    && HashRight(cfg, syms, k, next.res)
    && (next.skip || next.pass ==> IsTarget(syms, k + 1)) && !(next.skip && next.pass)
  }

  function Unwritten(k: nat, L: Loop, v: int, next: Next): Loop
    requires k < |L.smap| == |L.hashes|
  {
    L.(smap := L.smap[k := v], hashes := L.hashes[k := next.res], pass := next.pass, skipNext := next.skip)
  }

  /** Symbol k gets no record of its own: the map says where else to look, if anywhere. */
  lemma UnwrittenOk(cfg: Config, out: seq<Record>, file: File, syms: seq<Sym>, k: nat, L: Loop, v: int, next: Next)
    requires LoopOk(cfg, out, file, syms, k, L) && k < |syms| && NextOk(cfg, syms, k, next)
    requires Right(cfg, out + L.buf, v, file, k, syms[k].hash) && (v < 0 ==> Excused(cfg, syms, k))
    ensures LoopOk(cfg, out, file, syms, k + 1, Unwritten(k, L, v, next))
  {
  }

  function Emitted(file: File, k: nat, L: Loop, h: Option<Hid>, ntype: Byte, next: Next): Loop
    requires k < |L.smap| == |L.hashes|
  {
    var marks := if h.Some? then L.marks[h.value := Mark(true, L.count)] else L.marks;
    var buf := L.buf + [Record(Input(file, k), h, ntype)];
    Unwritten(k, L, L.count, next).(marks := marks, buf := buf, count := L.count + 1)
  }

  lemma EmittedOk(cfg: Config, out: seq<Record>, file: File, syms: seq<Sym>, k: nat, L: Loop, h: Option<Hid>,
      ntype: Byte, next: Next)
    requires LoopOk(cfg, out, file, syms, k, L) && k < |syms| && NextOk(cfg, syms, k, next)
    requires h.Some? ==> h.value in L.marks && L.marks[h.value].indx < 0
    requires SymbolFits(cfg, syms, k, Record(Input(file, k), h, ntype))
    ensures LoopOk(cfg, out, file, syms, k + 1, Emitted(file, k, L, h, ntype, next))
  {
    var rec, recs := Record(Input(file, k), h, ntype), out + L.buf;
    assert out + (L.buf + [rec]) == recs + [rec];
    if h.Some? {
      EmitKeeps(cfg, L.marks, recs, h.value, rec);
    } else {
      EmitLocalKeeps(cfg, L.marks, recs, rec);
    }
    AllRightGrows(cfg, recs, recs + [rec], L.smap, file, syms, k);
  }

  // ---------- One symbol ----------

  method Resolve(table: Table, h: Hid) returns (r: Hid)
    requires WellLinked(table) && h in table
    ensures r == BaseEntry(table, h)
  {
    r := h;
    while table[r].Linked()
      invariant r in table && BaseEntry(table, r) == BaseEntry(table, h)
      decreases r
    {
      r := table[r].link;
    }
  }

  /** Symbols that are dropped with a header file that starts at k. */
  lemma DroppedOk(cfg: Config, recs: seq<Record>, file: File, syms: seq<Sym>, k: nat, L: Loop, smap: seq<int>)
    requires k < |syms| && syms[k].ntype == N_BINCL && MapOk(cfg, recs, file, syms, k, L) && |smap| == |syms|
    requires forall i {:trigger smap[i]} :: 0 <= i < |smap| ==>
      smap[i] == if Drops(syms, k + 1, 0, i) then -1 else L.smap[i]
    ensures MapOk(cfg, recs, file, syms, k, L.(smap := smap))
  {
    CoveredBounds(syms, k + 1, 0);
    forall j {:trigger smap[j]} | 0 <= j < |syms|
      ensures j <= k ==> smap[j] == L.smap[j]
      ensures j > k ==> smap[j] == L.smap[j] || (smap[j] == -1 && InHeader(syms, j))
    {
    }
  }

  /** An N_BINCL: if the same header file was seen before it becomes an N_EXCL and its symbols are dropped. */
  method HeaderSymbol(cfg: Config, ghost out: seq<Record>, ghost file: File, syms: seq<Sym>, k: nat, L: Loop)
    returns (r: Loop, ntype: Byte)
    requires k < |syms| && syms[k].ntype == N_BINCL && LoopOk(cfg, out, file, syms, k, L)
    ensures LoopOk(cfg, out, file, syms, k, r) && r == L.(smap := r.smap, includes := r.includes)
    ensures var name, total := NameOf(cfg, syms[k]), Cut(Total(syms, k + 1, 0));
      var seen := name in L.includes && total in L.includes[name];
      && ntype == (if seen then N_EXCL else N_BINCL)
      && (seen ==> forall i {:trigger r.smap[i]} :: 0 <= i < |syms| ==>
        r.smap[i] == if Drops(syms, k + 1, 0, i) then -1 else L.smap[i])
      && (!seen ==> r.smap == L.smap && name in r.includes && total in r.includes[name])
  {
    var name := NameOf(cfg, syms[k]);
    var total := HeaderTotal(syms, k);
    var totals := if name in L.includes then L.includes[name] else {};
    if total in totals {
      var smap := DropHeader(syms, k, L.smap);
      DroppedOk(cfg, out + L.buf, file, syms, k, L, smap);
      return L.(smap := smap), N_EXCL;
    }
    return L.(includes := L.includes[name := totals + {total}]), N_BINCL;
  }

  /** What the symbol is written as, and whether the next one belongs to it or is to be left out. */
  method Treat(ntype: Byte, res: Option<Hash>) returns (t: Byte, pass: bool, skipNext: bool)
    ensures pass <==> !InSection(ntype) && PassesNext(ntype, res)
    ensures skipNext <==> !InSection(ntype) && !PassesNext(ntype, res) && !IsStab(ntype) && IsIndr(ntype)
    ensures t == Treated(ntype, res)
  {
    t, pass, skipNext := ntype, false, false;
    if InSection(ntype) {
    } else if PassesNext(ntype, res) {
      pass := true;
    } else if IsStab(ntype) {
    } else {
      skipNext := IsIndr(ntype);
      if res.Some? {
        t := DefinedType(ntype, res.value);
      }
    }
  }

  /** A symbol that is neither dropped nor the second half of the one before it. */
  method VisitSymbol(cfg: Config, ghost out: seq<Record>, file: File, syms: seq<Sym>, k: nat, L: Loop) returns (r: Loop)
    requires WellLinked(cfg.table) && SymsOk(cfg, syms) && k < |syms| && LoopOk(cfg, out, file, syms, k, L)
    ensures LoopOk(cfg, out, file, syms, k + 1, r)
    ensures var sym := syms[k];
      if Shared(L, sym) then r == Unwritten(k, L, L.marks[sym.hash.value].indx,
          Next(Resolved(cfg, sym), false, IsLink(sym)))
      else if StripsSym(cfg, sym) then LeftOut(L, k, sym, r) else Kept(cfg, file, L, k, sym, r)
  {
    var sym := syms[k];
    var h := L.hashes[k];
    assert h == sym.hash;
    var res := h;
    if h.Some? {
      var base := Resolve(cfg.table, h.value);
      res := Some(base);
      assert MarkOk(cfg, h.value, L.marks, out + L.buf);
      if L.marks[h.value].written {
        var v, next := L.marks[h.value].indx, Next(res, false, IsLink(sym));
        UnwrittenOk(cfg, out, file, syms, k, L, v, next);
        return Unwritten(k, L, v, next);
      }
    }
    if StripsSym(cfg, sym) {
      r := StripSymbol(cfg, out, file, syms, k, L, res);
    } else {
      r := KeepSymbol(cfg, out, file, syms, k, L, res);
    }
  }

  /** The symbol's entry has been written or stripped before. */
  predicate Shared(L: Loop, sym: Sym) { sym.hash.Some? && sym.hash.value in L.marks && L.marks[sym.hash.value].written }

  /** Symbol k is stripped: it gets no number, its entry is done with, nothing is written. */
  ghost predicate LeftOut(L: Loop, k: nat, sym: Sym, r: Loop) {
    && k < |L.smap| && r.smap == L.smap[k := -1] && r.buf == L.buf && r.count == L.count && r.includes == L.includes
    && if sym.hash.Some? && sym.hash.value in L.marks
       then r.marks == L.marks[sym.hash.value := L.marks[sym.hash.value].(written := true)] else r.marks == L.marks
  }

  /** Symbol k is discarded, or written: the next number is its own and its entry's, and its type is proper. */
  ghost predicate Kept(cfg: Config, file: File, L: Loop, k: nat, sym: Sym, r: Loop) {
    && k < |L.smap| == |r.smap|
    && if DiscardsSym(cfg, sym) then r.smap == L.smap[k := -1] && r.buf == L.buf && r.count == L.count &&
      r.marks == L.marks
       else
         && r.smap[k] == L.count && r.count == L.count + 1 && |r.buf| == |L.buf| + 1
         && r.buf == L.buf + [Record(Input(file, k), sym.hash, r.buf[|L.buf|].ntype)]
         && TypeFits(cfg, sym, r.buf[|L.buf|].ntype)
         && r.marks == if sym.hash.Some? then L.marks[sym.hash.value := Mark(true, L.count)] else L.marks
  }

  method StripSymbol(cfg: Config, ghost out: seq<Record>, file: File, syms: seq<Sym>, k: nat, L: Loop,
      res: Option<Hid>) returns (r: Loop)
    requires WellLinked(cfg.table) && SymsOk(cfg, syms) && k < |syms| && LoopOk(cfg, out, file, syms, k, L)
    requires StripsSym(cfg, syms[k]) && !Shared(L, syms[k]) && res == Resolved(cfg, syms[k])
    ensures LoopOk(cfg, out, file, syms, k + 1, r) && LeftOut(L, k, syms[k], r)
  {
    var h := syms[k].hash;
    var L1 := L;
    if h.Some? {
      StripKeeps(cfg, L.marks, out + L.buf, h.value);
      L1 := L.(marks := L.marks[h.value := L.marks[h.value].(written := true)]);
    }
    UnwrittenOk(cfg, out, file, syms, k, L1, -1, Next(res, false, false));
    r := Unwritten(k, L1, -1, Next(res, false, false));
  }

  lemma EmittedKept(cfg: Config, file: File, L: Loop, L1: Loop, k: nat, sym: Sym, t: Byte, next: Next)
    requires k < |L.smap| == |L1.smap| == |L1.hashes| && L1 == L.(smap := L1.smap, includes := L1.includes)
    requires !DiscardsSym(cfg, sym) && TypeFits(cfg, sym, t)
    ensures Kept(cfg, file, L, k, sym, Emitted(file, k, L1, sym.hash, t, next))
  {
  }

  /** A symbol that is not stripped: it is written unless it is a local one to be discarded. */
  method KeepSymbol(cfg: Config, ghost out: seq<Record>, file: File, syms: seq<Sym>, k: nat, L: Loop,
      res: Option<Hid>) returns (r: Loop)
    requires WellLinked(cfg.table) && SymsOk(cfg, syms) && k < |syms| && LoopOk(cfg, out, file, syms, k, L)
    requires !StripsSym(cfg, syms[k]) && !Shared(L, syms[k]) && res == Resolved(cfg, syms[k])
    ensures LoopOk(cfg, out, file, syms, k + 1, r) && Kept(cfg, file, L, k, syms[k], r)
  {
    var sym := syms[k];
    if sym.hash.Some? {
      assert MarkOk(cfg, sym.hash.value, L.marks, out + L.buf);
    }
    var t, pass, skip := Treat(sym.ntype, if res.Some? then Some(cfg.table[res.value]) else None);
    if DiscardsSym(cfg, sym) {
      UnwrittenOk(cfg, out, file, syms, k, L, -1, Next(res, false, skip));
      return Unwritten(k, L, -1, Next(res, false, skip));
    }
    var L1 := L;
    if t == N_BINCL {
      L1, t := HeaderSymbol(cfg, out, file, syms, k, L);
    }
    EmittedOk(cfg, out, file, syms, k, L1, sym.hash, t, Next(res, pass, skip));
    EmittedKept(cfg, file, L, L1, k, sym, t, Next(res, pass, skip));
    r := Emitted(file, k, L1, sym.hash, t, Next(res, pass, skip));
  }

  /** One round of the loop. */
  method OneSymbol(cfg: Config, ghost out: seq<Record>, file: File, syms: seq<Sym>, k: nat, L: Loop) returns (r: Loop)
    requires WellLinked(cfg.table) && SymsOk(cfg, syms) && k < |syms| && LoopOk(cfg, out, file, syms, k, L)
    ensures LoopOk(cfg, out, file, syms, k + 1, r)
  {
    var sym := syms[k];
    if L.smap[k] == -1 {
      UnwrittenOk(cfg, out, file, syms, k, L, -1, Next(L.hashes[k], L.pass, L.skipNext));
      assert L.smap[k := -1] == L.smap && L.hashes[k := L.hashes[k]] == L.hashes;
      return L;
    }
    if L.pass {
      EmittedOk(cfg, out, file, syms, k, L, None, sym.ntype, Next(L.hashes[k], false, false));
      return Emitted(file, k, L, None, sym.ntype, Next(L.hashes[k], false, false));
    }
    if L.skipNext {
      UnwrittenOk(cfg, out, file, syms, k, L, -1, Next(L.hashes[k], false, false));
      return Unwritten(k, L, -1, Next(L.hashes[k], false, false));
    }
    r := VisitSymbol(cfg, out, file, syms, k, L);
  }

  // ---------- The whole file ----------

  /** The symbol that names the input file is left out when symbols are stripped or discarded. */
  predicate NamesFile(cfg: Config, filename: seq<Byte>) {
    !cfg.strip.StripAll? && (!cfg.strip.StripSome? || filename in cfg.keep) && !cfg.discard.DiscardAll?
  }

  function Hashes(syms: seq<Sym>): (hs: seq<Option<Hid>>)
    ensures |hs| == |syms| && forall j {:trigger hs[j]} :: 0 <= j < |hs| ==> hs[j] == syms[j].hash
  {
    seq(|syms|, j requires 0 <= j < |syms| => syms[j].hash)
  }

  lemma StartOk(cfg: Config, out: seq<Record>, file: File, syms: seq<Sym>, L: Loop)
    requires Owned(cfg, L.marks, out) && SymsOk(cfg, syms)
    requires L.smap == seq(|syms|, _ => 0) && L.hashes == Hashes(syms) && !L.pass && !L.skipNext
    requires L.count == |out| + |L.buf|
    requires L.buf == if NamesFile(cfg, file.name) then [Record(FileName(file), None, N_TEXT)] else []
    ensures LoopOk(cfg, out, file, syms, 0, L)
  {
    if L.buf == [] {
      assert out + L.buf == out;
    } else {
      EmitLocalKeeps(cfg, L.marks, out, L.buf[0]);
    }
  }

  /** The loop of aout_link_write_symbols. */
  method CollectSymbols(cfg: Config, ghost out: seq<Record>, file: File, syms: seq<Sym>, marks: Marks,
      includes: Includes, count: nat)
    returns (L: Loop)
    requires WellLinked(cfg.table) && SymsOk(cfg, syms) && Owned(cfg, marks, out) && count == |out|
    ensures LoopOk(cfg, out, file, syms, |syms|, L)
  {
    L := Loop(marks, includes, count, [], seq(|syms|, _ => 0), Hashes(syms), false, false);
    if NamesFile(cfg, file.name) {
      L := L.(buf := [Record(FileName(file), None, N_TEXT)], count := count + 1);
    }
    StartOk(cfg, out, file, syms, L);
    for k := 0 to |syms|
      invariant LoopOk(cfg, out, file, syms, k, L)
    {
      L := OneSymbol(cfg, out, file, syms, k, L);
    }
  }
}
