/** The final link of a.out files, as far as output symbols and their numbers go. */
module Linker {
  import opened Bytes
  import opened LinkModel
  import opened LinkSymbols

  /** Symbol marks, the number of output symbols, where the next one goes, and the table in the output file. */
  datatype State = State(marks: Marks, count: nat, symoff: nat, out: seq<Record>, includes: Includes)

  const NLIST: nat := 12

  function SymPos(start: nat, n: nat): nat { start + NLIST * n }

  /** Between input files the count, the file position and the numbers agree with the table in the file. */
  ghost predicate StateOk(cfg: Config, start: nat, s: State) {
    && WellLinked(cfg.table) && s.count == |s.out| && s.symoff == SymPos(start, s.count)
    && Owned(cfg, s.marks, s.out)
  }

  /** The slot of the table at a file position. */
  function Slot(start: nat, off: nat): nat { if off >= start then (off - start) / NLIST else 0 }

  lemma SlotAt(start: nat, n: nat)
    ensures Slot(start, SymPos(start, n)) == n
  {
  }

  /** Records written into the table from slot k on. */
  function Written(out: seq<Record>, k: nat, recs: seq<Record>): seq<Record>
    requires k <= |out|
  {
    out[..k] + recs + if k + |recs| <= |out| then out[k + |recs|..] else []
  }

  /** What aout_link_write_other_symbol does to the marks, and the record it adds. */
  function OtherMarks(cfg: Config, marks: Marks, count: nat, h0: Hid): Marks
    requires marks.Keys == cfg.table.Keys && h0 in marks && Actual(cfg.table, h0) in marks
  {
    var h := Actual(cfg.table, h0);
    if marks[h].written || (h0 != h && cfg.table[h].kind.New?) then marks
    else if GetsRecord(cfg, marks, h) then marks[h := Mark(true, count)]
    else marks[h := marks[h].(written := true)]
  }

  function OtherRecords(cfg: Config, marks: Marks, h0: Hid): seq<Record>
    requires marks.Keys == cfg.table.Keys && h0 in marks && Actual(cfg.table, h0) in marks
  {
    var h := Actual(cfg.table, h0);
    if GetsRecord(cfg, marks, h) then [Record(Other, Some(h), OtherType(cfg.table[h]))] else []
  }

  /** No warning is about a warning; only such an entry makes the final link give up. */
  ghost predicate WarningsEnd(table: Table) {
    forall h :: h in table && table[h].kind.Warning? && table[h].link in table ==> !table[table[h].link].kind.Warning?
  }

  ghost predicate OtherDone(cfg: Config, s: State, s': State, h0: Hid) {
    && s.marks.Keys == cfg.table.Keys && h0 in s.marks && Actual(cfg.table, h0) in s.marks
    && s'.marks == OtherMarks(cfg, s.marks, s.count, h0) && s'.out == s.out + OtherRecords(cfg, s.marks, h0)
    && s'.includes == s.includes
  }

  /** The invariant holds again, also if h0 was asked for. */
  lemma OtherKeeps(cfg: Config, marks: Marks, out: seq<Record>, h0: Hid)
    requires WellLinked(cfg.table) && h0 in marks && h0 in cfg.table && Owned(cfg, Calmed(cfg, marks, h0), out)
    ensures Actual(cfg.table, h0) in marks && marks.Keys == cfg.table.Keys
    ensures Owned(cfg, OtherMarks(cfg, marks, |out|, h0), out + OtherRecords(cfg, marks, h0))
  {
    var h, calm := Actual(cfg.table, h0), Calmed(cfg, marks, h0);
    assert MarkOk(cfg, h, calm, out) && out + [] == out;
    if marks[h].written || (h0 != h && cfg.table[h].kind.New?) {
      assert calm == marks;
    } else if GetsRecord(cfg, marks, h) {
      EmitKeeps(cfg, calm, out, h, Record(Other, Some(h), OtherType(cfg.table[h])));
      assert calm[h := Mark(true, |out|)] == marks[h := Mark(true, |out|)];
    } else {
      assert calm == marks;
      StripKeeps(cfg, marks, out, h);
    }
  }

  /**
    The index that a relocation against entry h gets: the position of h's record, which every entry
    that can have a record has by now; an entry that cannot has no number and the index is -2.
   */
  ghost predicate IndexOk(cfg: Config, s: State, s': State, h: Hid, index: int) {
    && h in cfg.table && h in s.marks
    && if cfg.table[h].Plain() || s.marks[h].indx >= 0
       then 0 <= index < |s'.out| && s'.out[index].entry == Some(h)
       else index == -2
  }

  lemma ForcedIndex(cfg: Config, s: State, s1: State, s': State, h: Hid)
    requires h in s.marks && h in cfg.table && s.marks[h].indx < 0 && s1.count == |s1.out|
    requires s1.marks == s.marks[h := Mark(false, -2)]
    requires WellLinked(cfg.table) && OtherDone(cfg, s1, s', h)
    ensures h in s'.marks && IndexOk(cfg, s, s', h, s'.marks[h].indx)
  {
  }

  /** The map of a file: every number is right, and every symbol without one has a reason. */
  ghost predicate FileMapped(cfg: Config, out: seq<Record>, file: File, syms: seq<Sym>, smap: seq<int>,
      hashes: seq<Option<Hid>>) {
    && |smap| == |hashes| == |syms| && AllRight(cfg, out, smap, file, syms, |syms|)
    && (forall j {:trigger smap[j]} :: 0 <= j < |syms| && smap[j] < 0 ==> Excused(cfg, syms, j))
    && (forall j {:trigger hashes[j]} :: 0 <= j < |syms| ==> HashRight(cfg, syms, j, hashes[j]))
  }

  /** An entry that was never defined or referenced cannot be forced out: the relocation gets index -2. */
  lemma NewEntryHasNoNumber()
    ensures var cfg := Config(map[0 := Hash([97], New, Abs, 0)], StripNone, DiscardNone, {}, 76);
      var marks: Marks := map[0 := Mark(false, -2)];
      OtherRecords(cfg, marks, 0) == [] && OtherMarks(cfg, marks, 0, 0)[0].indx == -2
  {
  }

  // ---------- Whole links ----------

  /** An input file: its name, its symbols, and the symbols that its external relocations refer to. */
  datatype InputFile = InputFile(name: seq<Byte>, syms: seq<Sym>, relocs: seq<nat>)

  ghost predicate FileOk(cfg: Config, f: InputFile) {
    SymsOk(cfg, f.syms) && forall i {:trigger f.relocs[i]} :: 0 <= i < |f.relocs| ==> f.relocs[i] < |f.syms|
  }

  /** An index for entry h: the position of its record, or -2 if it can have none. */
  ghost predicate IndexRight(cfg: Config, out: seq<Record>, h: Hid, index: int) {
    if index >= 0 then index < |out| && out[index].entry == Some(h)
    else index == -2 && h in cfg.table && !cfg.table[h].Plain()
  }

  /**
    The index of a relocation against symbol j of a file, none if its entry is defined.  If the map has
    something for the symbol, that is the position of its record or of its entry's, or the -2 of an entry
    that can have none.  Otherwise the entry decides; a relocation against a symbol that is gone altogether
    is reported and gets 0.
   */
  ghost predicate RelocRight(cfg: Config, out: seq<Record>, file: File, f: InputFile, r: Linked, j: nat,
      index: Option<int>)
    requires j < |f.syms| == |r.smap| == |r.hashes|
  {
    var mapped, h := r.smap[j], r.hashes[j];
    && (index.None? <==> h.Some? && IsDefined(cfg.table, h.value))
    && (index.Some? ==>
          if mapped != -1 then index.value == mapped && Right(cfg, out, mapped, file, j, f.syms[j].hash)
          else if h.Some? then IndexRight(cfg, out, h.value, index.value)
          else index.value == 0)
  }

  /** What was decided for a file: its map, its hash entries, the indices of its relocations. */
  datatype Linked = Linked(smap: seq<int>, hashes: seq<Option<Hid>>, indices: seq<Option<int>>)

  ghost predicate RelocsRight(cfg: Config, out: seq<Record>, file: File, f: InputFile, r: Linked)
    requires FileOk(cfg, f) && |r.smap| == |r.hashes| == |f.syms|
  {
    |r.indices| <= |f.relocs| && forall i {:trigger r.indices[i]} :: 0 <= i < |r.indices| ==>
      RelocRight(cfg, out, file, f, r, f.relocs[i], r.indices[i])
  }

  ghost predicate FileDone(cfg: Config, out: seq<Record>, file: File, f: InputFile, r: Linked) {
    && FileOk(cfg, f) && FileMapped(cfg, out, file, f.syms, r.smap, r.hashes)
    && |r.indices| == |f.relocs| && RelocsRight(cfg, out, file, f, r)
  }

  lemma RelocRightGrows(cfg: Config, out: seq<Record>, out': seq<Record>, file: File, f: InputFile, r: Linked,
      r': Linked,
      j: nat, index: Option<int>)
    requires j < |f.syms| == |r.smap| == |r.hashes| && out <= out' && r'.smap == r.smap && r'.hashes == r.hashes
    requires RelocRight(cfg, out, file, f, r, j, index)
    ensures RelocRight(cfg, out', file, f, r', j, index)
  {
  }

  lemma RelocsRightGrows(cfg: Config, out: seq<Record>, out': seq<Record>, file: File, f: InputFile, r: Linked)
    requires FileOk(cfg, f) && |r.smap| == |r.hashes| == |f.syms| && RelocsRight(cfg, out, file, f, r) && out <= out'
    ensures RelocsRight(cfg, out', file, f, r)
  {
    forall i {:trigger r.indices[i]} | 0 <= i < |r.indices|
      ensures RelocRight(cfg, out', file, f, r, f.relocs[i], r.indices[i])
    {
      RelocRightGrows(cfg, out, out', file, f, r, r, f.relocs[i], r.indices[i]);
    }
  }

  /** One more relocation, for which more symbols may have been written. */
  lemma RelocsRightMore(cfg: Config, out: seq<Record>, out': seq<Record>, file: File, f: InputFile, r: Linked,
      index: Option<int>)
    requires FileOk(cfg, f) && |r.smap| == |r.hashes| == |f.syms| && RelocsRight(cfg, out, file, f, r) && out <= out'
    requires |r.indices| < |f.relocs| && RelocRight(cfg, out', file, f, r, f.relocs[|r.indices|], index)
    ensures RelocsRight(cfg, out', file, f, r.(indices := r.indices + [index]))
  {
    var r' := r.(indices := r.indices + [index]);
    forall i {:trigger r'.indices[i]} | 0 <= i < |r'.indices|
      ensures RelocRight(cfg, out', file, f, r', f.relocs[i], r'.indices[i])
    {
      RelocRightGrows(cfg, if i < |r.indices| then out else out', out', file, f, r, r', f.relocs[i], r'.indices[i]);
    }
  }

  lemma FileDoneGrows(cfg: Config, out: seq<Record>, out': seq<Record>, file: File, f: InputFile, r: Linked)
    requires FileDone(cfg, out, file, f, r) && out <= out'
    ensures FileDone(cfg, out', file, f, r)
  {
    AllRightGrows(cfg, out, out', r.smap, file, f.syms, |f.syms|);
    RelocsRightGrows(cfg, out, out', file, f, r);
  }

  function FileAt(files: seq<InputFile>, i: nat): File
    requires i < |files|
  {
    File(i, files[i].name)
  }

  ghost predicate FilesDone(cfg: Config, out: seq<Record>, files: seq<InputFile>, rs: seq<Linked>) {
    |rs| <= |files| && forall i {:trigger rs[i]} :: 0 <= i < |rs| ==>
        FileDone(cfg, out, FileAt(files, i), files[i], rs[i])
  }

  lemma FilesDoneGrows(cfg: Config, out: seq<Record>, out': seq<Record>, files: seq<InputFile>, rs: seq<Linked>)
    requires FilesDone(cfg, out, files, rs) && out <= out'
    ensures FilesDone(cfg, out', files, rs)
  {
    forall i {:trigger rs[i]} | 0 <= i < |rs|
      ensures FileDone(cfg, out', FileAt(files, i), files[i], rs[i])
    {
      FileDoneGrows(cfg, out, out', FileAt(files, i), files[i], rs[i]);
    }
  }

  // ---------- What is written ----------

  /** The record of an entry that no input file brought out. */
  ghost predicate IsOther(cfg: Config, rec: Record) {
    && rec.source == Other && rec.entry.Some? && rec.entry.value in cfg.table && cfg.table[rec.entry.value].Plain()
    && rec.ntype == OtherType(cfg.table[rec.entry.value])
  }

  /** The same, and a stripped one has to have been asked for. */
  ghost predicate OtherRecord(cfg: Config, asked: set<Hid>, rec: Record) {
    IsOther(cfg, rec) && (Stripped(cfg, cfg.table[rec.entry.value].name) ==> rec.entry.value in asked)
  }

  ghost predicate AddsOthers(cfg: Config, asked: set<Hid>, out: seq<Record>, out': seq<Record>) {
    out <= out' && forall i {:trigger out'[i]} :: |out| <= i < |out'| ==> OtherRecord(cfg, asked, out'[i])
  }

  lemma AddsMore(cfg: Config, asked: set<Hid>, asked': set<Hid>, out: seq<Record>, mid: seq<Record>, out': seq<Record>)
    requires AddsOthers(cfg, asked, out, mid) && AddsOthers(cfg, asked', mid, out')
    ensures AddsOthers(cfg, asked + asked', out, out')
  {
  }

  /** The entry has been asked for. */
  ghost function Wanted(cfg: Config, marks: Marks, h: Hid): set<Hid>
    requires h in marks && h in cfg.table
  {
    if Calmed(cfg, marks, h) != marks then {h} else {}
  }

  /** Relocations against defined entries are made relative to a section and ask for nothing. */
  predicate IsDefined(table: Table, h: Hid) { h in table && table[h].kind in {Defined, DefWeak} }

  /**
    The entries that the first n relocations of a file ask for: those of symbols that the map has nothing
    for, unless they are defined.
   */
  ghost function AskedBy(table: Table, f: InputFile, r: Linked, n: nat): set<Hid> {
    set i | 0 <= i < n && i < |f.relocs| && f.relocs[i] < |r.smap| == |r.hashes| && r.smap[f.relocs[i]] == -1 &&
      r.hashes[f.relocs[i]].Some? && !IsDefined(table, r.hashes[f.relocs[i]].value) :: r.hashes[f.relocs[i]].value
  }

  lemma AskedNext(table: Table, f: InputFile, r: Linked, r': Linked, n: nat)
    requires n < |f.relocs| && f.relocs[n] < |r.smap| == |r.hashes| && r'.smap == r.smap && r'.hashes == r.hashes
    ensures AskedBy(table, f, r', n + 1) ==
      AskedBy(table, f, r, n) + Asks(table, r.smap[f.relocs[n]], r.hashes[f.relocs[n]])
  {
    var here := Asks(table, r.smap[f.relocs[n]], r.hashes[f.relocs[n]]);
    forall h
      ensures h in AskedBy(table, f, r', n + 1) <==> h in AskedBy(table, f, r, n) + here
    {
      if h in here {
        assert f.relocs[n] < |r'.smap|;
      }
    }
  }

  /** The entry that one relocation asks for. */
  ghost function Asks(table: Table, mapped: int, h: Option<Hid>): set<Hid> {
    if mapped == -1 && h.Some? && !IsDefined(table, h.value) then {h.value} else {}
  }

  /** The entries that the linker's own relocations ask for. */
  ghost function Ordered(orders: seq<Option<Hid>>): set<Hid> { set o | o in orders && o.Some? :: o.value }

  lemma OrderedNext(orders: seq<Option<Hid>>, i: nat)
    requires i < |orders|
    ensures Ordered(orders[..i + 1]) == Ordered(orders[..i]) + Ordered([orders[i]])
  {
    assert orders[..i + 1] == orders[..i] + [orders[i]];
  }

  /** What linking a file adds: its own symbols, and entries that its relocations need. */
  ghost predicate AddsFile(cfg: Config, file: File, f: InputFile, asked: set<Hid>, out: seq<Record>,
      out': seq<Record>) {
    && out <= out' && forall i {:trigger out'[i]} :: |out| <= i < |out'| ==>
         OtherRecord(cfg, asked, out'[i]) || FromFile(cfg, file, f.syms, |f.syms|, out'[i])
  }

  /** A relocation of one of the files, or one of the linker's own, asks for h. */
  ghost predicate AskedFor(table: Table, files: seq<InputFile>, rs: seq<Linked>, orders: seq<Option<Hid>>, h: Hid) {
    || (exists i {:trigger rs[i]} ::
          0 <= i < |rs| && i < |files| && h in AskedBy(table, files[i], rs[i], |files[i].relocs|))
    || h in Ordered(orders)
  }

  /** Every record of the output table is accounted for. */
  ghost predicate RecordFits(cfg: Config, files: seq<InputFile>, rs: seq<Linked>, orders: seq<Option<Hid>>,
      rec: Record) {
    || (IsOther(cfg, rec) &&
          (Stripped(cfg, cfg.table[rec.entry.value].name) ==> AskedFor(cfg.table, files, rs, orders, rec.entry.value)))
    || exists f {:trigger files[f]} :: 0 <= f < |files| &&
         FromFile(cfg, FileAt(files, f), files[f].syms, |files[f].syms|, rec)
  }

  ghost predicate AllFit(cfg: Config, files: seq<InputFile>, rs: seq<Linked>, orders: seq<Option<Hid>>,
      out: seq<Record>) {
    forall i {:trigger out[i]} :: 0 <= i < |out| ==> RecordFits(cfg, files, rs, orders, out[i])
  }

  lemma FileAdds(cfg: Config, file: File, f: InputFile, asked: set<Hid>, out: seq<Record>, written: seq<Record>,
      out': seq<Record>)
    requires out <= written && AllFromFile(cfg, file, f.syms, |f.syms|, written[|out|..])
    requires AddsOthers(cfg, asked, written, out')
    ensures AddsFile(cfg, file, f, asked, out, out')
  {
    forall i {:trigger out'[i]} | |out| <= i < |written|
      ensures FromFile(cfg, file, f.syms, |f.syms|, out'[i])
    {
      assert out'[i] == written[|out|..][i - |out|];
    }
  }

  /** More files and more relocations only ask for more. */
  lemma FitsStill(cfg: Config, files: seq<InputFile>, rs: seq<Linked>, rs': seq<Linked>, orders: seq<Option<Hid>>,
      rec: Record)
    requires RecordFits(cfg, files, rs, [], rec) && rs <= rs'
    ensures RecordFits(cfg, files, rs', orders, rec)
  {
    if IsOther(cfg, rec) && AskedFor(cfg.table, files, rs, [], rec.entry.value) {
      assert Ordered([]) == {};
      var i :| 0 <= i < |rs| && i < |files| &&
          rec.entry.value in AskedBy(cfg.table, files[i], rs[i], |files[i].relocs|);
      assert rs'[i] == rs[i];
    }
  }

  lemma FileFits(cfg: Config, files: seq<InputFile>, rs: seq<Linked>, r: Linked, out: seq<Record>, out': seq<Record>)
    requires |rs| < |files| && AllFit(cfg, files, rs, [], out)
    requires var f := files[|rs|]; AddsFile(cfg, FileAt(files, |rs|), f, AskedBy(cfg.table, f, r, |f.relocs|), out,
      out')
    ensures AllFit(cfg, files, rs + [r], [], out')
  {
    forall i {:trigger out'[i]} | 0 <= i < |out'|
      ensures RecordFits(cfg, files, rs + [r], [], out'[i])
    {
      if i < |out| {
        assert out'[i] == out[i];
        FitsStill(cfg, files, rs, rs + [r], [], out'[i]);
      } else {
        assert (rs + [r])[|rs|] == r;
      }
    }
  }

  lemma OthersFit(cfg: Config, files: seq<InputFile>, rs: seq<Linked>, orders: seq<Option<Hid>>, out: seq<Record>,
      out': seq<Record>)
    requires AllFit(cfg, files, rs, [], out) && AddsOthers(cfg, Ordered(orders), out, out')
    ensures AllFit(cfg, files, rs, orders, out')
  {
    forall i {:trigger out'[i]} | 0 <= i < |out'|
      ensures RecordFits(cfg, files, rs, orders, out'[i])
    {
      if i < |out| {
        assert out'[i] == out[i];
        FitsStill(cfg, files, rs, rs, orders, out'[i]);
      }
    }
  }

  /** Relocations that the linker was asked to make. */
  ghost predicate OrdersRight(cfg: Config, out: seq<Record>, orders: seq<Option<Hid>>, indices: seq<int>) {
    |indices| <= |orders| && forall i {:trigger indices[i]} :: 0 <= i < |indices| ==>
      if orders[i].Some? then IndexRight(cfg, out, orders[i].value, indices[i]) else indices[i] == 0
  }

  /** A number, once given, stays. */
  lemma NumbersStay(cfg: Config, marks: Marks, out: seq<Record>, marks': Marks, out': seq<Record>, h: Hid)
    requires Owned(cfg, marks, out) && Owned(cfg, marks', out') && out <= out' && h in marks && marks[h].indx >= 0
    ensures h in marks' && marks'[h].indx == marks[h].indx
  {
    assert MarkOk(cfg, h, marks, out);
    assert RecordOk(marks[h].indx, marks', out');
  }

  /** Every entry that can have a record and is not stripped has one, and its number is the record's position. */
  ghost predicate NothingLost(cfg: Config, s: State) {
    forall h :: h in cfg.table && cfg.table[h].Plain() && !Stripped(cfg, cfg.table[h].name) ==>
      h in s.marks && 0 <= s.marks[h].indx < |s.out| && s.out[s.marks[h].indx].entry == Some(h)
  }

  ghost predicate NoneTwice(out: seq<Record>) {
    forall i, j :: 0 <= i < j < |out| && out[i].entry.Some? ==> out[i].entry != out[j].entry
  }

  lemma OwnedOnce(cfg: Config, marks: Marks, out: seq<Record>)
    requires Owned(cfg, marks, out)
    ensures NoneTwice(out)
  {
    forall i, j | 0 <= i < j < |out| && out[i].entry.Some?
      ensures out[i].entry != out[j].entry
    {
      NoTwice(cfg, marks, out, i, j);
    }
  }

  /** The traversal at g comes to h: g itself, or what g warns about. */
  ghost predicate IsBehind(table: Table, g: Hid, h: Hid) { g in table && Actual(table, g) == h }

  /**
    What the traversal of the hash table comes to.  A warning takes the place of the entry that it is
    about, which is then reached through it alone.
   */
  ghost predicate Reaches(table: Table, order: seq<Hid>) {
    && (forall i {:trigger order[i]} :: 0 <= i < |order| ==> order[i] in table)
    && forall h :: h in table && table[h].Plain() ==> exists g :: g in order && IsBehind(table, g, h)
  }

  /** The entry at g, or the one that g warns about, has been written or stripped. */
  ghost predicate Visited(cfg: Config, marks: Marks, g: Hid) {
    && g in cfg.table && Actual(cfg.table, g) in cfg.table && Actual(cfg.table, g) in marks
    && (cfg.table[Actual(cfg.table, g)].Plain() ==> marks[Actual(cfg.table, g)].written)
  }

  /** One more entry of the traversal. */
  lemma VisitsNext(cfg: Config, s: State, s': State, order: seq<Hid>, i: nat)
    requires WellLinked(cfg.table) && i < |order| && order[i] in cfg.table && OtherDone(cfg, s, s', order[i])
    requires forall g :: g in order[..i] ==> Visited(cfg, s.marks, g)
    ensures forall g :: g in order[..i + 1] ==> Visited(cfg, s'.marks, g)
  {
    forall g | g in order[..i + 1]
      ensures Visited(cfg, s'.marks, g)
    {
      if g != order[i] {
        assert g in order[..i];
      }
    }
  }

  /** Every entry has been reached, so none that is not stripped is without a number. */
  lemma AllNumbered(cfg: Config, s: State, s': State, order: seq<Hid>)
    requires Owned(cfg, s.marks, s.out) && Owned(cfg, s'.marks, s'.out) && s.out <= s'.out
    requires Reaches(cfg.table, order) && forall g :: g in order ==> Visited(cfg, s.marks, g)
    ensures NothingLost(cfg, s')
  {
    forall h | h in cfg.table && cfg.table[h].Plain() && !Stripped(cfg, cfg.table[h].name)
      ensures h in s'.marks && 0 <= s'.marks[h].indx < |s'.out| && s'.out[s'.marks[h].indx].entry == Some(h)
    {
      var g :| g in order && IsBehind(cfg.table, g, h);
      assert Visited(cfg, s.marks, g);
      assert MarkOk(cfg, h, s.marks, s.out);
      NumbersStay(cfg, s.marks, s.out, s'.marks, s'.out, h);
      assert MarkOk(cfg, h, s'.marks, s'.out);
    }
  }

  class FinalLink {
    const cfg: Config
    const start: nat
    var s: State

    ghost predicate Valid()
      reads this
    {
      StateOk(cfg, start, s)
    }

    /** The link begins with an empty table; the hash entries are as they were made. */
    constructor (cfg: Config, start: nat)
      requires WellLinked(cfg.table)
      ensures Valid() && this.cfg == cfg && this.start == start && s.out == []
      ensures forall h :: h in s.marks ==> s.marks[h] == Mark(false, -1)
    {
      this.cfg, this.start := cfg, start;
      s := State(map h | h in cfg.table :: Mark(false, -1), 0, start, [], map[]);
    }

    /** Seek to symoff and write: the records go to the end of the table. */
    method WriteRecords(recs: seq<Record>)
      requires s.symoff == SymPos(start, |s.out|)
      modifies this
      ensures s == old(s).(out := old(s.out) + recs, symoff := SymPos(start, |s.out|))
    {
      var k := Slot(start, s.symoff);
      SlotAt(start, |s.out|);
      s := s.(out := Written(s.out, k, recs), symoff := s.symoff + NLIST * |recs|);
    }

    /**
      aout_link_write_other_symbol; it gives up on a warning about a warning.  Unless it was asked for,
      a stripped entry is not written.
     */
    method WriteOther(h0: Hid) returns (ok: bool)
      requires h0 in cfg.table && h0 in s.marks && StateOk(cfg, start, s.(marks := Calmed(cfg, s.marks, h0)))
      modifies this
      ensures ok ==> Valid() && OtherDone(cfg, old(s), s, h0)
      ensures ok ==> AddsOthers(cfg, Wanted(cfg, old(s.marks), h0), old(s.out), s.out)
      ensures WarningsEnd(cfg.table) ==> ok
    {
      OtherKeeps(cfg, s.marks, s.out, h0);
      assert s.out + [] == s.out;
      var h := h0;
      if cfg.table[h].kind.Warning? {
        h := cfg.table[h].link;
        if cfg.table[h].kind.New? {
          return true;
        }
      }
      assert MarkOk(cfg, h, Calmed(cfg, s.marks, h0), s.out);
      if s.marks[h].written {
        return true;
      }
      if s.marks[h].indx != -2 && Stripped(cfg, cfg.table[h].name) {
        s := s.(marks := s.marks[h := s.marks[h].(written := true)]);
        return true;
      }
      ok := WriteEntry(h);
      assert ok ==> s.marks == OtherMarks(cfg, old(s.marks), old(s.count), h0);
    }

    /** The entry's kind decides: most get a record, some cannot have one. */
    method WriteEntry(h: Hid) returns (ok: bool)
      requires h in cfg.table && h in s.marks && s.symoff == SymPos(start, |s.out|) && s.count == |s.out|
      modifies this
      ensures ok ==> s.symoff == SymPos(start, |s.out|) && s.count == |s.out| && s.includes == old(s.includes)
      ensures ok <==> !cfg.table[h].kind.Warning?
      ensures ok ==> if cfg.table[h].Plain()
        then s.marks == old(s.marks)[h := Mark(true, old(s.count))] &&
            s.out == old(s.out) + [Record(Other, Some(h), OtherType(cfg.table[h]))]
        else s.marks == old(s.marks)[h := old(s.marks)[h].(written := true)] && s.out == old(s.out)
    {
      s := s.(marks := s.marks[h := s.marks[h].(written := true)]);
      match cfg.table[h].kind
      case Warning => return false;
      case New => return true;
      case Indirect => return true;
      case _ =>
        WriteRecords([Record(Other, Some(h), OtherType(cfg.table[h]))]);
        s := s.(marks := s.marks[h := s.marks[h].(indx := s.count)], count := s.count + 1);
        return true;
    }

    /** The number of an entry that a relocation needs: a stripped one is written after all. */
    method EntryIndex(h: Hid) returns (ok: bool, index: int)
      requires Valid() && h in cfg.table
      modifies this
      ensures ok ==> Valid() && AddsOthers(cfg, {h}, old(s.out), s.out) && s.includes == old(s.includes)
      ensures ok ==> IndexOk(cfg, old(s), s, h, index)
      ensures WarningsEnd(cfg.table) ==> ok
    {
      ok := true;
      if s.marks[h].indx < 0 {
        ForceKeeps(cfg, s.marks, s.out, h);
        s := s.(marks := s.marks[h := Mark(false, -2)]);
        ghost var s1 := s;
        ok := WriteOther(h);
        if ok {
          ForcedIndex(cfg, old(s), s1, s, h);
        }
      } else {
        assert MarkOk(cfg, h, s.marks, s.out);
      }
      index := if ok then s.marks[h].indx else 0;
    }

    /** The symbol index of a relocation against input symbol r, or none if it becomes relative to a section. */
    method RelocIndex(ghost file: File, ghost f: InputFile, linked: Linked, r: nat)
      returns (ok: bool, index: Option<int>)
      requires Valid() && r < |f.syms| && FileMapped(cfg, s.out, file, f.syms, linked.smap, linked.hashes)
      modifies this
      ensures ok ==> Valid() && AddsOthers(cfg, Asks(cfg.table, linked.smap[r], linked.hashes[r]), old(s.out), s.out)
      ensures ok ==> s.includes == old(s.includes) && RelocRight(cfg, s.out, file, f, linked, r, index)
      ensures WarningsEnd(cfg.table) ==> ok
    {
      var smap, h := linked.smap, linked.hashes[r];
      assert HashRight(cfg, f.syms, r, h) && Right(cfg, s.out, smap[r], file, r, f.syms[r].hash);
      if h.Some? && (cfg.table[h.value].kind.Defined? || cfg.table[h.value].kind.DefWeak?) {
        return true, None;
      }
      if smap[r] != -1 {
        return true, Some(smap[r]);
      }
      if h.None? {
        return true, Some(0);
      }
      var i;
      ok, i := EntryIndex(h.value);
      index := Some(i);
    }

    /** aout_link_reloc_link_order for a symbol: h is the entry found under its name. */
    method LinkOrderIndex(h: Option<Hid>) returns (ok: bool, index: int)
      requires Valid() && (h.Some? ==> h.value in cfg.table)
      modifies this
      ensures ok ==> Valid() && AddsOthers(cfg, Ordered([h]), old(s.out), s.out) && s.includes == old(s.includes)
      ensures ok ==> if h.Some? then IndexOk(cfg, old(s), s, h.value, index) else index == 0
      ensures WarningsEnd(cfg.table) ==> ok
    {
      if h.None? {
        return true, 0;
      }
      ok, index := EntryIndex(h.value);
    }

    /** aout_link_write_symbols: the buffered symbols follow those already in the file. */
    method WriteSymbols(file: File, syms: seq<Sym>)
      returns (smap: seq<int>, hashes: seq<Option<Hid>>)
      requires Valid() && SymsOk(cfg, syms)
      modifies this
      ensures Valid() && old(s.out) <= s.out && |s.out| <= |old(s.out)| + |syms| + 1
      ensures FileMapped(cfg, s.out, file, syms, smap, hashes)
      ensures AllFromFile(cfg, file, syms, |syms|, s.out[|old(s.out)|..])
    {
      var L := CollectSymbols(cfg, s.out, file, syms, s.marks, s.includes, s.count);
      s := s.(marks := L.marks, includes := L.includes, count := L.count);
      if L.buf != [] {
        WriteRecords(L.buf);
      }
      assert s.out == old(s.out) + L.buf;
      smap, hashes := L.smap, L.hashes;
    }

    /** aout_link_input_bfd: the symbols, then the relocations with the map that was made for them. */
    method LinkFile(file: File, f: InputFile) returns (ok: bool, r: Linked)
      requires Valid() && FileOk(cfg, f)
      modifies this
      ensures ok ==> Valid() && FileDone(cfg, s.out, file, f, r)
      ensures ok ==> AddsFile(cfg, file, f, AskedBy(cfg.table, f, r, |f.relocs|), old(s.out), s.out)
      ensures WarningsEnd(cfg.table) ==> ok
    {
      var smap, hashes := WriteSymbols(file, f.syms);
      r := Linked(smap, hashes, []);
      ghost var written := s.out;
      for i := 0 to |f.relocs|
        invariant Valid() && r == Linked(smap, hashes, r.indices) && FileMapped(cfg, s.out, file, f.syms, smap, hashes)
        invariant AddsOthers(cfg, AskedBy(cfg.table, f, r, i), written, s.out)
        invariant |r.indices| == i && RelocsRight(cfg, s.out, file, f, r)
      {
        ghost var before, r0 := s.out, r;
        var index;
        ok, index := RelocIndex(file, f, r, f.relocs[i]);
        if !ok {
          return;
        }
        AllRightGrows(cfg, before, s.out, smap, file, f.syms, |f.syms|);
        RelocsRightMore(cfg, before, s.out, file, f, r, index);
        r := r.(indices := r.indices + [index]);
        AskedNext(cfg.table, f, r0, r, i);
        AddsMore(cfg, AskedBy(cfg.table, f, r0, i), Asks(cfg.table, smap[f.relocs[i]], hashes[f.relocs[i]]),
            written, before, s.out);
      }
      FileAdds(cfg, file, f, AskedBy(cfg.table, f, r, |f.relocs|), old(s.out), written, s.out);
      ok := true;
    }

    /** All input files, each once. */
    method LinkFiles(files: seq<InputFile>) returns (ok: bool, rs: seq<Linked>)
      requires Valid() && forall i {:trigger files[i]} :: 0 <= i < |files| ==> FileOk(cfg, files[i])
      modifies this
      ensures ok ==> Valid() && old(s.out) <= s.out && |rs| == |files| && FilesDone(cfg, s.out, files, rs)
      ensures ok && AllFit(cfg, files, [], [], old(s.out)) ==> AllFit(cfg, files, rs, [], s.out)
      ensures WarningsEnd(cfg.table) ==> ok
    {
      rs := [];
      for i := 0 to |files|
        invariant Valid() && old(s.out) <= s.out && |rs| == i && FilesDone(cfg, s.out, files, rs)
        invariant AllFit(cfg, files, [], [], old(s.out)) ==> AllFit(cfg, files, rs, [], s.out)
      {
        ghost var before := s.out;
        var r;
        ok, r := LinkFile(FileAt(files, i), files[i]);
        if !ok {
          return;
        }
        FilesDoneGrows(cfg, before, s.out, files, rs);
        if AllFit(cfg, files, rs, [], before) {
          FileFits(cfg, files, rs, r, before, s.out);
        }
        rs := rs + [r];
      }
      ok := true;
    }

    /** The traversal of the hash table: entries that no input file brought out. */
    method WriteOthers(order: seq<Hid>) returns (ok: bool)
      requires Valid() && forall i {:trigger order[i]} :: 0 <= i < |order| ==> order[i] in cfg.table
      modifies this
      ensures ok ==> Valid() && AddsOthers(cfg, {}, old(s.out), s.out)
      ensures ok ==> forall g :: g in order ==> Visited(cfg, s.marks, g)
      ensures WarningsEnd(cfg.table) ==> ok
    {
      for i := 0 to |order|
        invariant Valid() && AddsOthers(cfg, {}, old(s.out), s.out)
        invariant forall g :: g in order[..i] ==> Visited(cfg, s.marks, g)
      {
        assert MarkOk(cfg, order[i], s.marks, s.out);
        ghost var before := s;
        ok := WriteOther(order[i]);
        if !ok {
          return;
        }
        VisitsNext(cfg, before, s, order, i);
      }
      assert order[..|order|] == order;
      ok := true;
    }

    method LinkOrders(orders: seq<Option<Hid>>) returns (ok: bool, indices: seq<int>)
      requires Valid() && forall i {:trigger orders[i]} :: 0 <= i < |orders| && orders[i].Some? ==>
        orders[i].value in cfg.table
      modifies this
      ensures ok ==> Valid() && AddsOthers(cfg, Ordered(orders), old(s.out), s.out)
      ensures ok ==> |indices| == |orders| && OrdersRight(cfg, s.out, orders, indices)
      ensures WarningsEnd(cfg.table) ==> ok
    {
      indices := [];
      for i := 0 to |orders|
        invariant Valid() && |indices| == i && OrdersRight(cfg, s.out, orders, indices)
        invariant AddsOthers(cfg, Ordered(orders[..i]), old(s.out), s.out)
      {
        ghost var before := s.out;
        var index;
        ok, index := LinkOrderIndex(orders[i]);
        if !ok {
          return;
        }
        indices := indices + [index];
        AddsMore(cfg, Ordered(orders[..i]), Ordered([orders[i]]), old(s.out), before, s.out);
        OrderedNext(orders, i);
      }
      assert orders[..|orders|] == orders;
      ok := true;
    }

    /**
      The final link: __DYNAMIC first if there is one, the input files, the rest of the hash table, and
      the relocations that the linker itself makes.
     */
    method Run(dynamic: Option<Hid>, files: seq<InputFile>, order: seq<Hid>, orders: seq<Option<Hid>>)
      returns (ok: bool, rs: seq<Linked>, indices: seq<int>)
      requires Valid() && (dynamic.Some? ==> dynamic.value in cfg.table)
      requires forall i {:trigger files[i]} :: 0 <= i < |files| ==> FileOk(cfg, files[i])
      requires Reaches(cfg.table, order)
      requires forall i {:trigger orders[i]} :: 0 <= i < |orders| && orders[i].Some? ==> orders[i].value in cfg.table
      modifies this
      ensures ok ==> Valid() && old(s.out) <= s.out && NoneTwice(s.out)
      ensures ok ==> |rs| == |files| && FilesDone(cfg, s.out, files, rs)
      ensures ok ==> |indices| == |orders| && OrdersRight(cfg, s.out, orders, indices)
      ensures ok && old(s.out) == [] ==> AllFit(cfg, files, rs, orders, s.out)
      ensures ok ==> NothingLost(cfg, s)
      ensures WarningsEnd(cfg.table) ==> ok
    {
      ok, rs, indices := true, [], [];
      if dynamic.Some? {
        assert MarkOk(cfg, dynamic.value, s.marks, s.out);
        ok := WriteOther(dynamic.value);
        if !ok {
          return;
        }
      }
      ok, rs := LinkFiles(files);
      if !ok {
        return;
      }
      ghost var linked := s.out;
      ok := WriteOthers(order);
      if !ok {
        return;
      }
      ghost var all := s;
      ok, indices := LinkOrders(orders);
      if !ok {
        return;
      }
      FilesDoneGrows(cfg, linked, s.out, files, rs);
      OwnedOnce(cfg, s.marks, s.out);
      if old(s.out) == [] {
        AddsMore(cfg, {}, Ordered(orders), linked, all.out, s.out);
        assert {} + Ordered(orders) == Ordered(orders);
        OthersFit(cfg, files, rs, orders, linked, s.out);
      }
      AllNumbered(cfg, all, s, order);
    }
  }
}
