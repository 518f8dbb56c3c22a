/** Archives come back as they were written: map, names, sizes, contents and order. */
module ArRoundTrip {
  import opened Archive
  import opened ArMap
  import opened ArMapFile
  import opened ArMapReader
  import opened ArMembers
  import opened ArNames
  import opened ArOpen
  import opened ArReader
  import opened ArTable
  import opened Bytes

  /** The name table as a reader has it. */
  function LoadedTable(cfg: Config, ms: seq<Member>): Option<seq<Byte>> {
    if TableOf(cfg, ms) == [] then None else Some(Cleaned(Evened(TableOf(cfg, ms))))
  }

  function LoadedSyms(cfg: Config, ms: seq<Member>): Option<seq<Sym>> {
    if Mapped(cfg, ms) then Some(SymsOf(EntriesOf(cfg, ms), MapOffsets(cfg, ms))) else None
  }

  lemma FourParts(f: seq<Byte>, a: seq<Byte>, m: seq<Byte>, t: seq<Byte>, b: seq<Byte>, p: nat, q: nat)
    requires f == a + m + t + b && p == |a| && q == p + |m|
    ensures At(f, 0, a) && At(f, p, m) && At(f, q, t)
  {
  }

  /** What stands behind the magic number. */
  ghost predicate MapPartStands(cfg: Config, mapped: bool, entries: seq<Entry>, offs: seq<nat>, f: seq<Byte>,
      end: nat) {
    if mapped then
      && MapStands(cfg.kind, cfg.big, cfg.mapMeta, entries, offs, f, MAGIC_SIZE, end)
      && Legible(cfg.kind, entries, offs)
    else end == MAGIC_SIZE
  }

  lemma FieldHeads()
    ensures MapField(BsdKind)[1] == 95 && OLD_SYMDEF[1] == 95 && MapField(CoffKind)[1] == SPACE &&
      MapField(Elf64Kind)[1] == 83 && SORTED_FIELD[1] == 49
  {
  }

  lemma MagicRead(f: seq<Byte>, thin: bool)
    requires At(f, 0, Magic(thin))
    ensures |f| >= MAGIC_SIZE && f[..MAGIC_SIZE] == Magic(thin) && (Magic(thin) == ARMAGT <==> thin)
  {
    assert f[..MAGIC_SIZE] == f[0..MAGIC_SIZE];
    assert ARMAG[2] != ARMAGT[2];
  }

  function SymsIf(mapped: bool, entries: seq<Entry>, offs: seq<nat>): Option<seq<Sym>>
    requires |offs| == |entries|
  {
    if mapped then Some(SymsOf(entries, offs)) else None
  }

  /** The archive is opened, with these symbols, this name table and this first position. */
  predicate OpensAs(cfg: Config, f: seq<Byte>, syms: Option<seq<Sym>>, table: Option<seq<Byte>>, first: nat) {
    OpenArchive(f, cfg.kind, cfg.big, cfg.style.MaxName()) == Some(Opened(cfg.thin, syms, table, first))
  }

  /** With a name table behind the map, nothing is mistaken. */
  lemma OpenTabled(cfg: Config, mapped: bool, entries: seq<Entry>, offs: seq<nat>, table: seq<Byte>, f: seq<Byte>,
      p: nat, q: nat)
    requires At(f, 0, Magic(cfg.thin)) && TableStands(cfg.style, table, f, p, q)
    requires |offs| == |entries| && MapPartStands(cfg, mapped, entries, offs, f, p)
    ensures OpensAs(cfg, f, SymsIf(mapped, entries, offs), Some(Cleaned(Evened(table))), q)
  {
    MagicRead(f, cfg.thin);
    TableBehind(cfg.style, cfg.kind, cfg.big, table, f, p, q);
    if mapped {
      MapRead(cfg.kind, cfg.big, cfg.mapMeta, entries, offs, f, MAGIC_SIZE, cfg.style.MaxName(), p);
    }
  }

  /** The name table is neither a map nor a second one. */
  lemma TableBehind(style: Style, target: Kind, big: bool, table: seq<Byte>, f: seq<Byte>, p: nat, q: nat)
    requires TableStands(style, table, f, p, q)
    ensures ReadTable(f, p, style.MaxName()) == HasTable(Cleaned(Evened(table)), q)
    ensures NoSecond(f, p, style.MaxName()) && TargetMap(target, f, p, big, style.MaxName()) == NoMap
  {
    var field := TableField(style);
    TableRead(style, table, f, p, style.MaxName(), q);
    assert f[p] == f[p..p + 16][0] && f[p + 1] == f[p..p + 16][1];
    FieldHeads();
    assert field[1] == SLASH || field[1] == 82;
    NoMapAt(target, f, p, big, style.MaxName());
  }

  /** What stands at pos is taken for something that it is not. */
  predicate MistakenAt(cfg: Config, mapped: bool, f: seq<Byte>, pos: nat)
    requires pos + 16 <= |f|
  {
    || LikeTable(f[pos..pos + 16])
    || if mapped then cfg.kind.CoffKind? && !NoSecond(f, pos, cfg.style.MaxName()) else MapAt(cfg.kind, f, pos)
  }

  /** Without a name table, opening finds the first member exactly if that is taken for what it is. */
  lemma OpenPlain(cfg: Config, mapped: bool, entries: seq<Entry>, offs: seq<nat>, f: seq<Byte>, p: nat)
    requires At(f, 0, Magic(cfg.thin)) && |offs| == |entries| && MapPartStands(cfg, mapped, entries, offs, f, p)
    requires p + HDR <= |f|
    ensures OpensAs(cfg, f, SymsIf(mapped, entries, offs), None, p) <==> !MistakenAt(cfg, mapped, f, p)
  {
    MagicRead(f, cfg.thin);
    var m := TargetMap(cfg.kind, f, MAGIC_SIZE, cfg.big, cfg.style.MaxName());
    if mapped {
      MapThen(cfg, entries, offs, f, p);
      OpenAfterMap(cfg, m, SymsOf(entries, offs), f, p);
    } else {
      NoMapAt(cfg.kind, f, p, cfg.big, cfg.style.MaxName());
      OpenWithoutMap(cfg, m, f);
    }
  }

  lemma OpenWithoutMap(cfg: Config, m: MapResult, f: seq<Byte>)
    requires MAGIC_SIZE + HDR <= |f| && (m == NoMap <==> !MapAt(cfg.kind, f, MAGIC_SIZE))
    ensures WithMap(f, cfg.thin, m, cfg.style.MaxName()) == Some(Opened(cfg.thin, None, None, MAGIC_SIZE)) <==>
      !MistakenAt(cfg, false, f, MAGIC_SIZE)
  {
  }

  lemma OpenAfterMap(cfg: Config, m: MapResult, syms: seq<Sym>, f: seq<Byte>, p: nat)
    requires p + HDR <= |f| && m.HasMap? && m.syms == syms
    requires m.first == p <==> !(cfg.kind.CoffKind? && !NoSecond(f, p, cfg.style.MaxName()))
    ensures WithMap(f, cfg.thin, m, cfg.style.MaxName()) == Some(Opened(cfg.thin, Some(syms), None, p)) <==>
      !MistakenAt(cfg, true, f, p)
  {
  }

  /** The map is read, and the position behind it moved only if a second map seems to follow. */
  lemma MapThen(cfg: Config, entries: seq<Entry>, offs: seq<nat>, f: seq<Byte>, p: nat)
    requires |offs| == |entries| && MapPartStands(cfg, true, entries, offs, f, p)
    ensures var m := TargetMap(cfg.kind, f, MAGIC_SIZE, cfg.big, cfg.style.MaxName());
      && m.HasMap? && m.syms == SymsOf(entries, offs)
      && (m.first == p <==> !(cfg.kind.CoffKind? && !NoSecond(f, p, cfg.style.MaxName())))
  {
    var body, max := MapBody(cfg.kind, cfg.big, entries, offs), cfg.style.MaxName();
    var raw := WholeMap(cfg.kind, cfg.mapMeta, body, f, MAGIC_SIZE, cfg.big, max, p);
    BodyRead(cfg.kind, cfg.big, entries, offs, body);
    SecondIs(f, SymsOf(entries, offs), p, max);
    assert FromRaw(Some(raw), Decoded(cfg.kind, cfg.big, raw.bytes)) == HasMap(SymsOf(entries, offs), p);
  }

  lemma SecondIs(f: seq<Byte>, syms: seq<Sym>, p: nat, maxName: nat)
    requires maxName <= 16
    ensures var m := SkipSecond(f, HasMap(syms, p), maxName);
      m.HasMap? && m.syms == syms && (m.first == p <==> NoSecond(f, p, maxName))
  {
  }

  /** An archive without members. */
  lemma OpenEmpty(cfg: Config, mapped: bool, entries: seq<Entry>, offs: seq<nat>, f: seq<Byte>, p: nat)
    requires At(f, 0, Magic(cfg.thin)) && |offs| == |entries| && MapPartStands(cfg, mapped, entries, offs, f, p)
    requires p == |f|
    ensures OpensAs(cfg, f, SymsIf(mapped, entries, offs), None, p)
  {
    MagicRead(f, cfg.thin);
    if mapped {
      MapRead(cfg.kind, cfg.big, cfg.mapMeta, entries, offs, f, MAGIC_SIZE, cfg.style.MaxName(), p);
    }
  }

  /** What the reader needs of the map beyond its being storable: numbers that its words hold. */
  ghost predicate MapLegible(cfg: Config, ms: seq<Member>) {
    Mapped(cfg, ms) ==> Legible(cfg.kind, EntriesOf(cfg, ms), MapOffsets(cfg, ms))
  }

  /**
    The first member is taken for a name table, behind a COFF map for a second map, or where there is no
    map for one that the target's reader knows.
   */
  predicate Mistaken(cfg: Config, mapped: bool, e: Elt)
    requires e.Valid()
  {
    || LikeTable(e.field)
    || (mapped && cfg.kind.CoffKind? && LikeSecond(e.field) && SecondRoom(e.HeaderSize()) != 0)
    || (!mapped && LikeMap(cfg.kind, e.field))
    || (!mapped && !cfg.kind.Elf64Kind? && e.field == SORTED_FIELD && SYMDEF <= LongName(e))
  }

  ghost predicate Unmistaken(cfg: Config, ms: seq<Member>)
    requires Sane(cfg, ms)
  {
    EltsValid(cfg, ms);
    TableOf(cfg, ms) == [] && Kept(cfg, ms) != [] ==> !Mistaken(cfg, Mapped(cfg, ms), Kept(cfg, ms)[0])
  }

  /** Everything that the reader needs to open the archive. */
  ghost predicate Reopenable(cfg: Config, ms: seq<Member>)
    requires Sane(cfg, ms)
  {
    Storable(cfg, ms) && MapLegible(cfg, ms) && Unmistaken(cfg, ms)
  }

  lemma MapStandsAt(cfg: Config, es: seq<Elt>, entries: seq<Entry>, elength: nat, offs: seq<nat>, m: seq<Byte>,
      f: seq<Byte>, p: nat)
    requires OwnedBy(entries, 0, |es|) && |cfg.mapMeta| == 32 && MapFits(cfg.kind, cfg.thin, es, entries, elength)
    requires m == MapBytes(cfg.kind, cfg.big, cfg.thin, es, cfg.mapMeta, entries, elength)
    requires offs == Offsets(cfg.kind, cfg.thin, es, FirstReal(cfg.kind, entries, elength), entries)
    requires At(f, MAGIC_SIZE, m) && p == MAGIC_SIZE + |m|
    ensures MapStands(cfg.kind, cfg.big, cfg.mapMeta, entries, offs, f, MAGIC_SIZE, p)
  {
    MapTakes(cfg.kind, cfg.big, cfg.thin, es, cfg.mapMeta, entries, elength, m);
    MapBodySize(cfg.kind, cfg.big, entries, offs);
    BodyStands(cfg.kind, cfg.big, cfg.mapMeta, entries, offs, MapBody(cfg.kind, cfg.big, entries, offs), m, f, p);
  }

  lemma BodyStands(kind: Kind, big: bool, meta: seq<Byte>, entries: seq<Entry>, offs: seq<nat>, body: seq<Byte>,
      m: seq<Byte>, f: seq<Byte>, p: nat)
    requires |offs| == |entries| && |meta| == 32 && body == MapBody(kind, big, entries, offs) && |Digits(|body|)| <= 10
    requires m == Header(MapField(kind), meta, |body|) + body && |m| % 2 == 0 && At(f, MAGIC_SIZE, m) &&
      p == MAGIC_SIZE + |m|
    ensures MapStands(kind, big, meta, entries, offs, f, MAGIC_SIZE, p)
  {
    EvenBehindMagic(|m|, p);
  }

  lemma EvenBehindMagic(n: nat, p: nat)
    requires n % 2 == 0 && p == MAGIC_SIZE + n
    ensures p % 2 == 0
  {
  }

  /** The map stands right behind the magic number. */
  lemma MapIsThere(cfg: Config, ms: seq<Member>, f: seq<Byte>, p: nat)
    requires Sane(cfg, ms) && Storable(cfg, ms) && MapLegible(cfg, ms)
    requires At(f, MAGIC_SIZE, MapPart(cfg, ms)) && p == MAGIC_SIZE + |MapPart(cfg, ms)|
    ensures MapPartStands(cfg, Mapped(cfg, ms), EntriesOf(cfg, ms), MapOffsets(cfg, ms), f, p)
  {
    if Mapped(cfg, ms) {
      MapStandsAt(cfg, Kept(cfg, ms), EntriesOf(cfg, ms), Elength(TableOf(cfg, ms)), MapOffsets(cfg, ms),
          MapPart(cfg, ms), f, p);
    }
  }

  /** The field of a sorted map is that of a name of 20 bytes. */
  lemma SortedIs()
    ensures SORTED_FIELD == Bsd44Field(20)
  {
    assert Digits(2) == [50] && Digits(20) == Digits(2) + [48];
  }

  lemma SortedExtra(cfg: Config, ms: seq<Member>, k: nat)
    requires Sane(cfg, ms) && k < |ms| && Fits(EltOf(cfg, ms, k)) && EltOf(cfg, ms, k).field == SORTED_FIELD
    ensures EltOf(cfg, ms, k).extra == 20
  {
    var e := EltOf(cfg, ms, k);
    assert e.field[0] == 35 && e.field[2] == SLASH && e.field[3] == 50;
    if e.extra > 0 {
      SmallerFits(e.extra, e.HeaderSize());
      ExtraIs20(e.extra, e.field);
    } else if e.field == ShortField(cfg.style, e.name) {
      ShortIsNotSorted(cfg.style, e.name);
    }
  }

  lemma ExtraIs20(n: nat, field: seq<Byte>)
    requires |Digits(n)| <= 10 && field == Bsd44Field(n) == SORTED_FIELD
    ensures n == 20
  {
    SortedIs();
    DigitsFit(20, 10);
    TenDigits();
    Bsd44Recovered(n, field);
    Bsd44Recovered(20, field);
    assert DecodeName(field, None, 16) == AfterHeader(20);
  }

  lemma ShortIsNotSorted(style: Style, name: seq<Byte>)
    requires |name| <= style.MaxName() && SLASH !in name
    ensures ShortField(style, name) != SORTED_FIELD
  {
    var f := ShortField(style, name);
    assert forall i :: 0 <= i < |name| ==> f[i] == name[i] && name[i] in name;
    assert SORTED_FIELD[2] == SLASH && SORTED_FIELD[3] == 50;
  }

  /** The first member in the file is mistaken if it is. */
  lemma FirstMistaken(cfg: Config, mapped: bool, e: Elt, f: seq<Byte>, p: nat)
    requires e.Valid() && Fits(e) && At(f, p, Encoded(cfg.thin, e)) && (e.field == SORTED_FIELD ==> e.extra == 20)
    ensures p + HDR <= |f| && (MistakenAt(cfg, mapped, f, p) <==> Mistaken(cfg, mapped, e))
  {
    var h := Header(e.field, e.meta, e.HeaderSize());
    EncodedParts(cfg.thin, e, f, p);
    assert h + [] == h;
    FieldAt(f, p, e.field, e.meta, e.HeaderSize(), []);
    assert f[p] == f[p..p + 16][0] && f[p + 1] == f[p..p + 16][1];
    if LikeSecond(e.field) {
      HeaderParts(e.field, e.meta, e.HeaderSize());
      assert e.field[..3][0] == SLASH && BSD44_MARK[0] == 35;
      NotBsd44(h, e.field, cfg.style.MaxName());
      HeaderRead(f, p, h, e.HeaderSize(), None, cfg.style.MaxName());
    }
    if e.field == SORTED_FIELD {
      assert f[p + HDR..p + HDR + 20] == LongName(e);
    }
  }

  /**
    Opening a written archive finds the map, the name table and the first member, exactly if the first
    member is not taken for something else.
   */
  lemma Reopened(cfg: Config, ms: seq<Member>, f: seq<Byte>)
    requires Sane(cfg, ms) && Storable(cfg, ms) && MapLegible(cfg, ms) && AllValid(Kept(cfg, ms))
    requires f == Prefix(cfg, ms) + Body(cfg.thin, Kept(cfg, ms))
    ensures OpensAs(cfg, f, LoadedSyms(cfg, ms), LoadedTable(cfg, ms), |Prefix(cfg, ms)|) <==> Unmistaken(cfg, ms)
  {
    var m, t, es := MapPart(cfg, ms), TableBytes(cfg.style, TableOf(cfg, ms)), Kept(cfg, ms);
    var p, q := MAGIC_SIZE + |m|, |Prefix(cfg, ms)|;
    FourParts(f, Magic(cfg.thin), m, t, Body(cfg.thin, es), MAGIC_SIZE, p);
    MapIsThere(cfg, ms, f, p);
    if TableOf(cfg, ms) != [] {
      PrefixLength(cfg, ms);
      OpenTabled(cfg, Mapped(cfg, ms), EntriesOf(cfg, ms), MapOffsets(cfg, ms), TableOf(cfg, ms), f, p, q);
    } else if es == [] {
      OpenEmpty(cfg, Mapped(cfg, ms), EntriesOf(cfg, ms), MapOffsets(cfg, ms), f, p);
    } else {
      FirstIs(cfg, ms, f, p);
      OpenPlain(cfg, Mapped(cfg, ms), EntriesOf(cfg, ms), MapOffsets(cfg, ms), f, p);
    }
  }

  lemma FirstIs(cfg: Config, ms: seq<Member>, f: seq<Byte>, p: nat)
    requires Sane(cfg, ms) && Storable(cfg, ms) && AllValid(Kept(cfg, ms)) && Kept(cfg, ms) != []
    requires f == Prefix(cfg, ms) + Body(cfg.thin, Kept(cfg, ms)) && p == |Prefix(cfg, ms)|
    ensures p + HDR <= |f|
    ensures MistakenAt(cfg, Mapped(cfg, ms), f, p) <==> Mistaken(cfg, Mapped(cfg, ms), Kept(cfg, ms)[0])
  {
    var es, d := Kept(cfg, ms), Dropped(cfg, ms);
    assert es[0] == EltOf(cfg, ms, d) && Fits(es[0]);
    MemberAt(cfg.thin, es, Prefix(cfg, ms), 0);
    if es[0].field == SORTED_FIELD {
      SortedExtra(cfg, ms, d);
    }
    FirstMistaken(cfg, Mapped(cfg, ms), es[0], f, p);
  }

  // ---------- Names ----------

  /** The k-th member's name, as basename or path, can be a file's name at all. */
  predicate Nameable(cfg: Config, ms: seq<Member>, k: nat)
    requires k < |ms|
  {
    var name := ms[k].name;
    if cfg.style.Bsd44? then |name| > 16 || SPACE in name || PlainName(name)
    else if NamingOf(cfg, ms).InTable(k) then name != []
    else PlainName(name)
  }

  /** The k-th member's name survives the way it is stored. */
  predicate NameKept(cfg: Config, ms: seq<Member>, k: nat)
    requires k < |ms|
  {
    var name := ms[k].name;
    if cfg.style.Bsd44? then NUL !in name
    else if NamingOf(cfg, ms).InTable(k) then TableName(cfg.style, name)
    else ShortName(cfg.style, name)
  }

  lemma SmallerFits(m: nat, n: nat)
    requires m <= n && |Digits(n)| <= 10
    ensures |Digits(m)| <= 10 && n < WORD64
  {
    DigitsFit(m, 10);
    DigitsFit(n, 10);
    TenDigits();
  }

  lemma TableElt(n: Naming, k: nat, e: Elt, table: seq<Byte>)
    requires k < |n.names| && n.InTable(k) && n.names[k] != [] && !n.style.Bsd44? && e.Valid() && Fits(e)
    requires e.field == n.Field(k) && e.name == n.names[k] && e.extra == 0
    requires table == Evened(n.Table(|n.names|)) && |Digits(|table|)| <= 10
    ensures Recovered(n.style, e, Some(Cleaned(table))) <==> TableName(n.style, e.name)
  {
    TableRecovered(n, k);
    SmallerFits(n.Offset(k), |table|);
    HeaderParts(e.field, e.meta, e.HeaderSize());
    LongRecovered(n.style, n.Offset(k), Header(e.field, e.meta, e.HeaderSize()), Cleaned(table));
  }

  lemma ShortElt(style: Style, e: Elt, table: Option<seq<Byte>>)
    requires e.Valid() && Fits(e) && e.extra == 0 && PlainName(e.name) && |e.name| <= style.MaxName()
    requires e.field == ShortField(style, e.name)
    ensures Recovered(style, e, table) <==> ShortName(style, e.name)
  {
    HeaderParts(e.field, e.meta, e.HeaderSize());
    ShortRecovered(style, e.name, Header(e.field, e.meta, e.HeaderSize()), table);
  }

  lemma LongElt(e: Elt, table: Option<seq<Byte>>)
    requires e.Valid() && Fits(e) && e.extra > 0 && e.field == Bsd44Field(e.extra)
    ensures Recovered(Bsd44, e, table) <==> NUL !in e.name
  {
    HeaderParts(e.field, e.meta, e.HeaderSize());
    SmallerFits(e.extra, e.HeaderSize());
    Bsd44Recovered(e.extra, Header(e.field, e.meta, e.HeaderSize()));
  }

  /** A member is found again under its own name exactly when the name survives the way it is stored. */
  lemma NameRecovered(cfg: Config, ms: seq<Member>, k: nat, e: Elt)
    requires Sane(cfg, ms) && k < |ms| && e == EltOf(cfg, ms, k) && e.Valid() && Fits(e) && Nameable(cfg, ms, k)
    requires TableFits(cfg, ms)
    ensures Recovered(cfg.style, e, LoadedTable(cfg, ms)) <==> NameKept(cfg, ms, k)
  {
    if cfg.style.Bsd44? {
      if |e.name| > 16 || SPACE in e.name {
        LongElt(e, None);
      } else {
        ShortElt(Bsd44, e, None);
      }
    } else if NamingOf(cfg, ms).InTable(k) {
      NamingOf(cfg, ms).TableHolds(k);
      TableElt(NamingOf(cfg, ms), k, e, Evened(TableOf(cfg, ms)));
    } else {
      ShortElt(cfg.style, e, LoadedTable(cfg, ms));
    }
  }

  // ---------- Whole archives ----------

  ghost predicate AllNamesKept(cfg: Config, ms: seq<Member>) {
    forall k :: Dropped(cfg, ms) <= k < |ms| ==> Nameable(cfg, ms, k) && NameKept(cfg, ms, k)
  }

  lemma OneReadable(cfg: Config, ms: seq<Member>, k: nat, e: Elt)
    requires Sane(cfg, ms) && k < |ms| && e == EltOf(cfg, ms, k) && e.Valid() && Fits(e)
    requires Nameable(cfg, ms, k) && NameKept(cfg, ms, k)
    requires TableFits(cfg, ms)
    ensures ReadableElt(cfg.style, e, LoadedTable(cfg, ms))
  {
    NameRecovered(cfg, ms, k, e);
    SmallerFits(|e.contents|, e.HeaderSize());
  }

  lemma KeptReadable(cfg: Config, ms: seq<Member>, i: nat)
    requires Sane(cfg, ms) && MembersFit(cfg, ms) && TableFits(cfg, ms) && AllNamesKept(cfg, ms)
    requires i < |Kept(cfg, ms)|
    ensures Kept(cfg, ms)[i].Valid() && ReadableElt(cfg.style, Kept(cfg, ms)[i], LoadedTable(cfg, ms))
  {
    KeptIs(cfg, ms, i);
    NamedReadable(cfg, ms, Dropped(cfg, ms) + i, Kept(cfg, ms)[i]);
  }

  lemma NamedReadable(cfg: Config, ms: seq<Member>, k: nat, e: Elt)
    requires Sane(cfg, ms) && TableFits(cfg, ms) && AllNamesKept(cfg, ms)
    requires Dropped(cfg, ms) <= k < |ms| && e == EltOf(cfg, ms, k) && e.Valid() && Fits(e)
    ensures ReadableElt(cfg.style, e, LoadedTable(cfg, ms))
  {
    OneReadable(cfg, ms, k, e);
  }

  lemma KeptIs(cfg: Config, ms: seq<Member>, i: nat)
    requires Sane(cfg, ms) && MembersFit(cfg, ms) && i < |Kept(cfg, ms)|
    ensures Kept(cfg, ms)[i] == EltOf(cfg, ms, Dropped(cfg, ms) + i)
    ensures Kept(cfg, ms)[i].Valid() && Fits(Kept(cfg, ms)[i])
  {
    EltsValid(cfg, ms);
  }

  lemma EveryoneReadable(cfg: Config, ms: seq<Member>)
    requires Sane(cfg, ms) && MembersFit(cfg, ms) && TableFits(cfg, ms) && AllNamesKept(cfg, ms)
    ensures AllValid(Kept(cfg, ms)) && Readable(cfg.style, Kept(cfg, ms), LoadedTable(cfg, ms))
  {
    EltsValid(cfg, ms);
    forall i | 0 <= i < |Kept(cfg, ms)|
      ensures ReadableElt(cfg.style, Kept(cfg, ms)[i], LoadedTable(cfg, ms))
    {
      KeptReadable(cfg, ms, i);
    }
  }

  /**
    Reading an archive that was written: the walk from the first member visits exactly the members that
    were kept, in order, under their own names and with their own sizes, and stops at the end of the file.
   */
  lemma ArchiveComesBack(cfg: Config, ms: seq<Member>, f: seq<Byte>)
    requires Sane(cfg, ms) && Reopenable(cfg, ms) && AllNamesKept(cfg, ms)
    requires AllValid(Kept(cfg, ms)) && f == Prefix(cfg, ms) + Body(cfg.thin, Kept(cfg, ms)) && |f| < FILE_LIMIT
    ensures var r := OpenArchive(f, cfg.kind, cfg.big, cfg.style.MaxName());
      && r.Some? && r.value.syms == LoadedSyms(cfg, ms)
      && Walk(f, r.value.first, r.value.table, cfg.style.MaxName(), r.value.thin) ==
           AllExpected(cfg.thin, Kept(cfg, ms), |Prefix(cfg, ms)|)
      && WalkEnd(f, r.value.first, r.value.table, cfg.style.MaxName(), r.value.thin) == |f|
  {
    Reopened(cfg, ms, f);
    EveryoneReadable(cfg, ms);
    PrefixLength(cfg, ms);
    WalkFindsAll(cfg.style, cfg.thin, Kept(cfg, ms), Prefix(cfg, ms), LoadedTable(cfg, ms));
  }

  /**
    Opening the element at a symbol's index gives the member that contributed the symbol, exactly if the
    position in the map is right.
   */
  lemma SymbolFindsOwner(cfg: Config, ms: seq<Member>, f: seq<Byte>, i: nat)
    requires Sane(cfg, ms) && Reopenable(cfg, ms) && AllNamesKept(cfg, ms) && Mapped(cfg, ms) &&
      i < |EntriesOf(cfg, ms)|
    requires AllValid(Kept(cfg, ms)) && f == Prefix(cfg, ms) + Body(cfg.thin, Kept(cfg, ms)) && |f| < FILE_LIMIT
    ensures var entry, sym := EntriesOf(cfg, ms)[i], LoadedSyms(cfg, ms).value[i];
      sym.name == entry.name && (FindsAt(cfg, ms, f, sym.off, entry.owner) <==> RightAt(cfg, ms, i))
  {
    var owner := EntriesOf(cfg, ms)[i].owner;
    MapAgrees(cfg, ms, i);
    OnlyThere(cfg, ms, f, MapOffsets(cfg, ms)[i], owner);
  }

  /** The k-th member is what the reader finds at pos. */
  ghost predicate FindsAt(cfg: Config, ms: seq<Member>, f: seq<Byte>, pos: nat, k: nat)
    requires Sane(cfg, ms) && k < |Kept(cfg, ms)|
  {
    EltsValid(cfg, ms);
    ReadHdr(f, pos, LoadedTable(cfg, ms), cfg.style.MaxName()) ==
      Hdr(Expected(cfg.thin, Kept(cfg, ms), |Prefix(cfg, ms)|, k))
  }

  /** A member is found at its own header and nowhere else. */
  lemma OnlyThere(cfg: Config, ms: seq<Member>, f: seq<Byte>, pos: nat, k: nat)
    requires Sane(cfg, ms) && Storable(cfg, ms) && AllNamesKept(cfg, ms) && k < |Kept(cfg, ms)|
    requires AllValid(Kept(cfg, ms)) && f == Prefix(cfg, ms) + Body(cfg.thin, Kept(cfg, ms)) && |f| < FILE_LIMIT
    ensures FindsAt(cfg, ms, f, pos, k) <==> pos == HeaderPos(cfg.thin, Kept(cfg, ms), |Prefix(cfg, ms)|, k)
  {
    var es := Kept(cfg, ms);
    var m := Expected(cfg.thin, es, |Prefix(cfg, ms)|, k);
    if FindsAt(cfg, ms, f, pos, k) {
      HdrFound(f, pos, LoadedTable(cfg, ms), cfg.style.MaxName(), m);
    }
    EveryoneReadable(cfg, ms);
    PrefixLength(cfg, ms);
    KthMember(cfg.style, cfg.thin, es, Prefix(cfg, ms), LoadedTable(cfg, ms), k, m);
  }

  /** Which short names make a member look like a map or a name table. */
  lemma ShortMistaken(style: Style, target: Kind, name: seq<Byte>)
    requires PlainName(name) && SPACE !in name && |name| <= style.MaxName()
    ensures var f := ShortField(style, name);
      && (LikeMap(target, f) <==> name == SYMDEF && !target.Elf64Kind?)
      && (LikeTable(f) <==> name == ARFILENAMES && style.Svr4?)
      && !LikeSecond(f) && f != SORTED_FIELD
  {
    assert ShortField(style, name)[0] == name[0];
    FieldHeads0();
    SameField(style, name, SYMDEF, MapField(BsdKind));
    SameField(style, name, SYMDEF, OLD_SYMDEF);
    SameField(style, name, ARFILENAMES, OLD_TABLE_FIELD);
    ShortIsNotSorted(style, name);
    if name == ARFILENAMES {
      assert ShortField(style, name)[11] == style.Pad() && OLD_TABLE_FIELD[11] == SLASH;
    }
  }

  /** An archive without a map and with one member, called __.SYMDEF. */
  ghost predicate OneMapName(cfg: Config, ms: seq<Member>) {
    && !cfg.style.Bsd44? && !cfg.thin && !cfg.makeMap && |cfg.mapMeta| == 32 && |ms| == 1
    && ms[0] == Member(ms[0].filename, SYMDEF, ms[0].meta, ms[0].contents, [], false) && |ms[0].meta| == 32
    && |Digits(|ms[0].contents|)| <= 10
  }

  /** It opens as what it is only where the 64-bit reader is used. */
  lemma MapNamedMember(cfg: Config, ms: seq<Member>)
    requires OneMapName(cfg, ms)
    ensures Sane(cfg, ms) && Storable(cfg, ms) && AllValid(Kept(cfg, ms))
    ensures var f := Prefix(cfg, ms) + Body(false, Kept(cfg, ms));
      OpensAs(cfg, f, LoadedSyms(cfg, ms), LoadedTable(cfg, ms), |Prefix(cfg, ms)|) <==> cfg.kind.Elf64Kind?
  {
    MapNamed(cfg, ms);
    Reopened(cfg, ms, Prefix(cfg, ms) + Body(false, Kept(cfg, ms)));
  }

  lemma MapNamed(cfg: Config, ms: seq<Member>)
    requires OneMapName(cfg, ms)
    ensures Sane(cfg, ms) && Storable(cfg, ms) && AllValid(Kept(cfg, ms)) && MapLegible(cfg, ms)
    ensures Unmistaken(cfg, ms) <==> cfg.kind.Elf64Kind?
  {
    MapNamedStorable(cfg, ms);
    EltsValid(cfg, ms);
    var e := MapNamedElt(cfg, ms);
    MapNamedMistaken(cfg, e);
  }

  lemma OneSane(cfg: Config, m: Member)
    requires |cfg.mapMeta| == 32 && |m.meta| == 32 && SLASH !in m.name
    ensures Sane(cfg, [m])
  {
  }

  lemma MapNamedStorable(cfg: Config, ms: seq<Member>)
    requires OneMapName(cfg, ms)
    ensures Sane(cfg, ms) && Storable(cfg, ms)
  {
    OneSane(cfg, ms[0]);
    assert ms == [ms[0]];
    EltsValid(cfg, ms);
    var e := MapNamedElt(cfg, ms);
    assert Fits(e);
  }

  lemma MapNamedMistaken(cfg: Config, e: Elt)
    requires !cfg.style.Bsd44? && e.Valid() && e.field == ShortField(cfg.style, SYMDEF)
    ensures Mistaken(cfg, false, e) <==> !cfg.kind.Elf64Kind?
  {
    ShortMistaken(cfg.style, cfg.kind, SYMDEF);
    assert SYMDEF[0] != ARFILENAMES[0];
  }

  lemma MapNamedElt(cfg: Config, ms: seq<Member>) returns (e: Elt)
    requires OneMapName(cfg, ms)
    ensures TableOf(cfg, ms) == [] && Kept(cfg, ms) == [e] && !Mapped(cfg, ms) && Dropped(cfg, ms) == 0
    ensures e == Elt(SYMDEF, ShortField(cfg.style, SYMDEF), ms[0].meta, 0, ms[0].contents)
  {
    e := EltOf(cfg, ms, 0);
    var n := NamingOf(cfg, ms);
    assert n.Table(1) == n.Table(0) + n.Entry(0);
    assert Kept(cfg, ms)[0] == EltOf(cfg, ms, 0);
  }

  lemma FieldHeads0()
    ensures MapField(CoffKind)[0] == SLASH && MapField(Elf64Kind)[0] == SLASH && TABLE_FIELD[0] == SLASH
  {
  }

  /** A field that starts with a reserved name and a terminator belongs to no other short name. */
  lemma SameField(style: Style, name: seq<Byte>, reserved: seq<Byte>, field: seq<Byte>)
    requires PlainName(name) && SPACE !in name && |name| <= style.MaxName()
    requires SPACE !in reserved && SLASH !in reserved && |reserved| < 15
    requires |field| == 16 && field[..|reserved|] == reserved &&
      (field[|reserved|] == SPACE || field[|reserved|] == SLASH)
    ensures ShortField(style, name) == field ==> name == reserved
  {
    var f, r := ShortField(style, name), |reserved|;
    assert f[..|name|] == name;
    assert forall i :: 0 <= i < |name| ==> f[i] == name[i] && name[i] in name;
    assert forall i :: 0 <= i < r ==> field[i] == reserved[i] && reserved[i] in reserved;
    assert |name| < 16 ==> f[|name|] == style.Pad();
  }

  /**
    Writing an archive, opening it and walking through it, in one piece: the members that come back are
    the ones that were kept, and their contents are where the reader looks for them.
   */
  method StoreAndList(cfg: Config, ms: seq<Member>) returns (f: seq<Byte>, members: seq<Found>, end: nat)
    requires Sane(cfg, ms) && Reopenable(cfg, ms) && AllNamesKept(cfg, ms)
    requires AllValid(Kept(cfg, ms)) && |Prefix(cfg, ms) + Body(cfg.thin, Kept(cfg, ms))| < FILE_LIMIT
    ensures var es := Kept(cfg, ms);
      && AllValid(es) && members == AllExpected(cfg.thin, es, |Prefix(cfg, ms)|) && end == |f|
      && (!cfg.thin ==> forall k :: 0 <= k < |es| ==> At(f, members[k].origin, es[k].contents))
  {
    EltsValid(cfg, ms);
    var r;
    ghost var headers;
    r, headers := WriteArchive(cfg, ms);
    f := r.value;
    ArchiveComesBack(cfg, ms, f);
    var o := Open(f, cfg.kind, cfg.big, cfg.style.MaxName());
    members, end := WalkArchive(f, o.value.first, o.value.table, cfg.style.MaxName(), o.value.thin);
    forall k | 0 <= k < |Kept(cfg, ms)| && !cfg.thin
      ensures At(f, members[k].origin, Kept(cfg, ms)[k].contents)
    {
      ContentsFound(Kept(cfg, ms), Prefix(cfg, ms), k);
    }
  }

  // ---------- Where names get lost ----------

  /** Fifteen characters with a space among them: the System V reader cuts the name at the space. */
  lemma FifteenWithSpace()
    ensures var name := [97] + Fill(13, SPACE) + [98];
      PlainName(name) && |name| == 15 && !ShortName(Svr4, name) && FieldName(ShortField(Svr4, name)[..15]) == [97]
  {
    var name := [97] + Fill(13, SPACE) + [98];
    assert name[1] == SPACE;
    var f := ShortField(Svr4, name)[..15];
    assert f == name;
    FirstSpace(f);
  }

  lemma FirstSpace(f: seq<Byte>)
    requires f == [97] + Fill(13, SPACE) + [98]
    ensures FieldName(f) == [97]
  {
    assert f[0] == 97 && f[1] == SPACE && f[1..][0] == SPACE;
    assert SPACE in f;
  }
}
