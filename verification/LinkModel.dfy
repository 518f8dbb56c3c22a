/** The a.out linker's numbering of output symbols: hash entries, output records and their invariants. */
module LinkModel {
  import opened Bytes

  type Hid = nat

  datatype HashType = New | Undefined | UndefWeak | Defined | DefWeak | Common | Indirect | Warning

  datatype Section = Text | Data | Bss | Abs

  /**
    A linker hash entry, by what the final link does not change: its output section if it is defined,
    the entry it stands for if it is indirect or a warning.  Links lead to lower numbers.
   */
  datatype Hash = Hash(name: seq<Byte>, kind: HashType, section: Section, link: Hid) {
    predicate Linked() { kind.Indirect? || kind.Warning? }

    /** The entry can have an output symbol of its own. */
    predicate Plain() { !Linked() && !kind.New? }
  }

  type Table = map<Hid, Hash>

  ghost predicate WellLinked(table: Table) {
    forall h :: h in table && table[h].Linked() ==> table[h].link in table && table[h].link < h
  }

  /** What the final link notes of an entry: written or stripped, and its number, -1, or -2 if it is needed. */
  datatype Mark = Mark(written: bool, indx: int)

  type Marks = map<Hid, Mark>

  /** An input file, by its place in the link and its name. */
  datatype File = File(place: nat, name: seq<Byte>)

  /** What an output symbol was made from. */
  datatype Source = FileName(file: File) | Input(file: File, index: nat) | Other

  datatype Record = Record(source: Source, entry: Option<Hid>, ntype: Byte)

  datatype Strip = StripNone | StripDebugger | StripSome | StripAll
  datatype Discard = DiscardNone | DiscardSecMerge | DiscardL | DiscardAll

  datatype Config = Config(table: Table, strip: Strip, discard: Discard, keep: set<seq<Byte>>, localsPrefix: Byte)

  // ---------- The invariant ----------

  /**
    A number is the position of the entry's record.  What is written without one is stripped, or can
    have none; only an entry of the latter kind is left with -2.
   */
  ghost predicate MarkOk(cfg: Config, h: Hid, marks: Marks, recs: seq<Record>)
    requires h in marks && h in cfg.table
  {
    && (marks[h].indx >= 0 ==> marks[h].written && marks[h].indx < |recs| && recs[marks[h].indx].entry == Some(h))
    && marks[h].indx >= -2 && (cfg.table[h].Plain() ==> marks[h].indx != -2)
    && (marks[h].written && cfg.table[h].Plain() && marks[h].indx < 0 ==> Stripped(cfg, cfg.table[h].name))
  }

  /** A record of an entry has the entry's number, so that no entry has two. */
  ghost predicate RecordOk(i: nat, marks: Marks, recs: seq<Record>)
    requires i < |recs|
  {
    recs[i].entry.Some? ==> recs[i].entry.value in marks && marks[recs[i].entry.value].indx == i
  }

  ghost predicate Owned(cfg: Config, marks: Marks, recs: seq<Record>) {
    && marks.Keys == cfg.table.Keys
    && (forall h {:trigger MarkOk(cfg, h, marks, recs)} :: h in marks ==> MarkOk(cfg, h, marks, recs))
    && forall i {:trigger RecordOk(i, marks, recs)} :: 0 <= i < |recs| ==> RecordOk(i, marks, recs)
  }

  lemma NoTwice(cfg: Config, marks: Marks, recs: seq<Record>, i: nat, j: nat)
    requires Owned(cfg, marks, recs) && i < j < |recs| && recs[i].entry.Some?
    ensures recs[i].entry != recs[j].entry
  {
    assert RecordOk(i, marks, recs) && RecordOk(j, marks, recs);
  }

  /** A step that changes one mark and adds records keeps the invariant if it does for that mark and those records. */
  lemma StepKeeps(cfg: Config, marks: Marks, recs: seq<Record>, h: Hid, m: Mark, more: seq<Record>)
    requires Owned(cfg, marks, recs) && h in marks && marks[h].indx < 0
    requires MarkOk(cfg, h, marks[h := m], recs + more)
    requires more == [] || (|more| == 1 && more[0].entry.Some? ==> more[0].entry == Some(h) && m.indx == |recs|)
    requires |more| <= 1
    ensures Owned(cfg, marks[h := m], recs + more)
  {
    var marks', recs' := marks[h := m], recs + more;
    forall g | g in marks'
      ensures MarkOk(cfg, g, marks', recs')
    {
      assert MarkOk(cfg, g, marks, recs);
    }
    forall i | 0 <= i < |recs'|
      ensures RecordOk(i, marks', recs')
    {
      assert i < |recs| ==> RecordOk(i, marks, recs);
    }
  }

  lemma EmitKeeps(cfg: Config, marks: Marks, recs: seq<Record>, h: Hid, rec: Record)
    requires Owned(cfg, marks, recs) && h in marks && marks[h].indx < 0 && rec.entry == Some(h)
    ensures Owned(cfg, marks[h := Mark(true, |recs|)], recs + [rec])
  {
    StepKeeps(cfg, marks, recs, h, Mark(true, |recs|), [rec]);
  }

  lemma EmitLocalKeeps(cfg: Config, marks: Marks, recs: seq<Record>, rec: Record)
    requires Owned(cfg, marks, recs) && rec.entry == None
    ensures Owned(cfg, marks, recs + [rec])
  {
    var recs' := recs + [rec];
    forall g | g in marks
      ensures MarkOk(cfg, g, marks, recs')
    {
      assert MarkOk(cfg, g, marks, recs);
    }
    forall i | 0 <= i < |recs'|
      ensures RecordOk(i, marks, recs')
    {
      assert i < |recs| ==> RecordOk(i, marks, recs);
    }
  }

  /** An entry may be marked as written without a record when it is stripped or can have none. */
  lemma StripKeeps(cfg: Config, marks: Marks, recs: seq<Record>, h: Hid)
    requires Owned(cfg, marks, recs) && h in marks && !marks[h].written
    requires Stripped(cfg, cfg.table[h].name) || !cfg.table[h].Plain()
    ensures Owned(cfg, marks[h := marks[h].(written := true)], recs)
  {
    assert MarkOk(cfg, h, marks, recs);
    assert recs + [] == recs;
    StepKeeps(cfg, marks, recs, h, marks[h].(written := true), []);
  }

  /** The marks as they were before h was asked for. */
  function Calmed(cfg: Config, marks: Marks, h: Hid): Marks
    requires h in marks && h in cfg.table
  {
    if cfg.table[h].Plain() && marks[h] == Mark(false, -2) then marks[h := Mark(false, -1)] else marks
  }

  /** An entry without a number may be asked for: but for that the invariant holds. */
  lemma ForceKeeps(cfg: Config, marks: Marks, recs: seq<Record>, h: Hid)
    requires Owned(cfg, marks, recs) && h in marks && marks[h].indx < 0
    ensures Owned(cfg, Calmed(cfg, marks[h := Mark(false, -2)], h), recs)
  {
    assert recs + [] == recs;
    var m := Mark(false, if cfg.table[h].Plain() then -1 else -2);
    StepKeeps(cfg, marks, recs, h, m, []);
    assert Calmed(cfg, marks[h := Mark(false, -2)], h) == marks[h := m];
  }

  /**
    What a symbol map entry may say of input symbol j: its own record, that of its hash entry, -1, or
    the -2 of an entry that can have no record.
   */
  ghost predicate Right(cfg: Config, recs: seq<Record>, i: int, file: File, j: nat, h: Option<Hid>) {
    && (i >= 0 ==> i < |recs| && (recs[i].source == Input(file, j) || (h.Some? && recs[i].entry == h)))
    && (i < -1 ==> i == -2 && h.Some? && h.value in cfg.table && !cfg.table[h.value].Plain())
  }

  ghost predicate AllRight(cfg: Config, recs: seq<Record>, smap: seq<int>, file: File, syms: seq<Sym>, k: nat)
    requires k <= |smap| && k <= |syms|
  {
    forall j {:trigger smap[j]} :: 0 <= j < k ==> Right(cfg, recs, smap[j], file, j, syms[j].hash)
  }

  lemma AllRightGrows(cfg: Config, recs: seq<Record>, recs': seq<Record>, smap: seq<int>, file: File, syms: seq<Sym>,
      k: nat)
    requires k <= |smap| && k <= |syms| && recs <= recs' && AllRight(cfg, recs, smap, file, syms, k)
    ensures AllRight(cfg, recs', smap, file, syms, k)
  {
  }

  // ---------- Entries without an input symbol ----------

  /** The entry that aout_link_write_other_symbol writes for h. */
  function Actual(table: Table, h: Hid): Hid
    requires h in table
  {
    if table[h].kind.Warning? then table[h].link else h
  }

  predicate Stripped(cfg: Config, name: seq<Byte>) {
    cfg.strip.StripAll? || (cfg.strip.StripSome? && name !in cfg.keep)
  }

  /** Whether h gets a record: it must be written if it was asked for. */
  predicate GetsRecord(cfg: Config, marks: Marks, h: Hid)
    requires h in marks && h in cfg.table
  {
    !marks[h].written && (marks[h].indx == -2 || !Stripped(cfg, cfg.table[h].name)) && cfg.table[h].Plain()
  }

  function OtherType(e: Hash): Byte {
    match e.kind
    case Defined => OrExt(SectionType(e.section), N_EXT)
    case DefWeak => OrExt(WeakType(e.section), N_EXT)
    case UndefWeak => N_WEAKU
    case _ => OrExt(N_UNDF, N_EXT)
  }

  /** The types of a symbol and of a weak symbol in each section. */
  function SectionType(section: Section): Byte {
    match section case Text => N_TEXT case Data => N_DATA case Bss => N_BSS case Abs => N_ABS
  }

  function WeakType(section: Section): Byte {
    match section case Text => N_WEAKT case Data => N_WEAKD case Bss => N_WEAKB case Abs => N_WEAKA
  }

  /** t | ext, where ext is 0 or N_EXT. */
  function OrExt(t: Byte, ext: Byte): Byte
    requires ext <= N_EXT && t < 255
  {
    if t % 2 == 0 then t + ext else t
  }

  /** Setting N_EXT in a weak type turns weak data into weak bss and weak absolute into weak text. */
  lemma WeakOtherType(e: Hash)
    requires e.kind.DefWeak?
    ensures OtherType(e) == WeakType(e.section) <==> e.section.Text? || e.section.Bss?
  {
  }

  /** A weak symbol of .data comes out as one of .bss. */
  lemma WeakDataBecomesBss(name: seq<Byte>, link: Hid)
    ensures var e := Hash(name, DefWeak, Data, link);
      WeakType(e.section) == N_WEAKD && OtherType(e) == N_WEAKB && N_WEAKD != N_WEAKB
  {
  }

  // ---------- Input symbols ----------

  /** An input symbol: type, name, and the hash entry that was made for it if it is global. */
  datatype Sym = Sym(ntype: Byte, name: seq<Byte>, hash: Option<Hid>)

  const N_EXT: Byte := 1
  const N_UNDF: Byte := 0
  const N_ABS: Byte := 2
  const N_TEXT: Byte := 4
  const N_DATA: Byte := 6
  const N_BSS: Byte := 8
  const N_INDR: Byte := 0x0a
  const N_WEAKU: Byte := 0x0d
  const N_WEAKA: Byte := 0x0e
  const N_WEAKT: Byte := 0x0f
  const N_WEAKD: Byte := 0x10
  const N_WEAKB: Byte := 0x11
  const N_SETA: Byte := 0x14
  const N_SETT: Byte := 0x16
  const N_SETD: Byte := 0x18
  const N_SETB: Byte := 0x1a
  const N_WARNING: Byte := 0x1e
  const N_BINCL: Byte := 0x82
  const N_EINCL: Byte := 0xa2
  const N_EXCL: Byte := 0xc2

  /** ntype & N_TYPE */
  function Base(ntype: Byte): Byte { ntype % 32 - ntype % 2 }

  /** ntype & N_STAB */
  predicate IsStab(ntype: Byte) { ntype >= 0x20 }

  predicate IsIndr(ntype: Byte) { Base(ntype) == N_INDR }

  predicate IsSet(ntype: Byte) { Base(ntype) in {N_SETA, N_SETT, N_SETD, N_SETB} }

  /** A symbol whose value is relative to a section of its own file. */
  predicate InSection(ntype: Byte) {
    Base(ntype) in {N_TEXT, N_DATA, N_BSS, N_ABS} || ntype in {N_WEAKA, N_WEAKT, N_WEAKD, N_WEAKB}
  }
}
