/** Whole archives: written in one pass with the map first, opened, walked and searched. */
module Archive {
  import opened ArMap
  import opened ArMapFile
  import opened ArMembers
  import opened ArNames
  import opened ArTable
  import opened Bytes

  /** A file that goes into an archive, its name there, and the text of date, owner and mode. */
  datatype Member = Member(filename: seq<Byte>, name: seq<Byte>, meta: seq<Byte>, contents: seq<Byte>,
    symbols: seq<Symbol>, isObject: bool)

  datatype Config = Config(style: Style, thin: bool, kind: Kind, big: bool, makeMap: bool, mapMeta: seq<Byte>)

  /** Only the names of thin archives have directories: the others are cut to their last part. */
  predicate Sane(cfg: Config, ms: seq<Member>) {
    && |cfg.mapMeta| == 32
    && forall i :: 0 <= i < |ms| ==> |ms[i].meta| == 32 && ((cfg.thin && !cfg.style.Bsd44?) || SLASH !in ms[i].name)
  }

  // ---------- Preparing the headers ----------

  function Names(ms: seq<Member>): (ns: seq<seq<Byte>>)
    ensures |ns| == |ms| && forall i {:trigger ns[i]} :: 0 <= i < |ms| ==> ns[i] == ms[i].name
  {
    seq(|ms|, i requires 0 <= i < |ms| => ms[i].name)
  }

  function NamingOf(cfg: Config, ms: seq<Member>): Naming {
    Naming(cfg.style, cfg.thin, Names(ms))
  }

  /** The name table; BSD 4.4 has none. */
  function TableOf(cfg: Config, ms: seq<Member>): seq<Byte> {
    if cfg.style.Bsd44? then [] else NamingOf(cfg, ms).Table(|ms|)
  }

  /** _bfd_archive_bsd44_construct_extended_name_table: long names and names with spaces follow the header. */
  function Bsd44Extra(name: seq<Byte>): (x: nat)
    ensures x % 2 == 0 && (x > 0 ==> x >= |name|)
  {
    if |name| > 16 || SPACE in name then (|name| + 3) / 4 * 4 else 0
  }

  function Bsd44Elt(m: Member): Elt {
    var x := Bsd44Extra(m.name);
    Elt(m.name, if |m.name| > 16 || SPACE in m.name then Bsd44Field(x) else ShortField(Bsd44, m.name), m.meta, x,
        m.contents)
  }

  function EltOf(cfg: Config, ms: seq<Member>, i: nat): Elt
    requires i < |ms|
  {
    if cfg.style.Bsd44? then Bsd44Elt(ms[i])
    else Elt(ms[i].name, NamingOf(cfg, ms).Field(i), ms[i].meta, 0, ms[i].contents)
  }

  function Elts(cfg: Config, ms: seq<Member>): (es: seq<Elt>)
    ensures |es| == |ms| && forall i {:trigger es[i]} :: 0 <= i < |ms| ==> es[i] == EltOf(cfg, ms, i)
  {
    seq(|ms|, i requires 0 <= i < |ms| => EltOf(cfg, ms, i))
  }

  lemma EltsValid(cfg: Config, ms: seq<Member>)
    requires Sane(cfg, ms)
    ensures AllValid(Elts(cfg, ms)) && AllValid(Kept(cfg, ms))
  {
    forall i | 0 <= i < |ms|
      ensures EltOf(cfg, ms, i).Valid()
    {
      EltValid(cfg, ms, i);
    }
  }

  lemma EltValid(cfg: Config, ms: seq<Member>, i: nat)
    requires i < |ms| && |ms[i].meta| == 32
    ensures EltOf(cfg, ms, i).Valid()
  {
  }

  /** The loop over a name that counts its characters and looks for spaces. */
  method ScanName(name: seq<Byte>) returns (len: nat, hasSpace: bool)
    ensures len == |name| && (hasSpace <==> SPACE in name)
  {
    hasSpace := false;
    for i := 0 to |name|
      invariant hasSpace <==> SPACE in name[..i]
    {
      if name[i] == SPACE {
        hasSpace := true;
      }
    }
    len := |name|;
    assert name[..|name|] == name;
  }

  method Bsd44Elts(ms: seq<Member>) returns (es: seq<Elt>)
    ensures |es| == |ms| && forall i :: 0 <= i < |ms| ==> es[i] == Bsd44Elt(ms[i])
  {
    es := [];
    for i := 0 to |ms|
      invariant |es| == i && forall j :: 0 <= j < i ==> es[j] == Bsd44Elt(ms[j])
    {
      var m := ms[i];
      var len, hasSpace := ScanName(m.name);
      if len > 16 || hasSpace {
        var padded := (len + 3) / 4 * 4;
        es := es + [Elt(m.name, Bsd44Field(padded), m.meta, padded, m.contents)];
      } else {
        es := es + [Elt(m.name, ShortField(Bsd44, m.name), m.meta, 0, m.contents)];
      }
    }
  }

  method WithFields(cfg: Config, ms: seq<Member>, fields: seq<seq<Byte>>) returns (es: seq<Elt>)
    requires !cfg.style.Bsd44? && |fields| == |ms| && Named(NamingOf(cfg, ms), fields)
    ensures es == Elts(cfg, ms)
  {
    es := [];
    for i := 0 to |ms|
      invariant |es| == i && forall j :: 0 <= j < i ==> es[j] == EltOf(cfg, ms, j)
    {
      es := es + [Elt(ms[i].name, fields[i], ms[i].meta, 0, ms[i].contents)];
    }
  }

  method Prepare(cfg: Config, ms: seq<Member>) returns (table: seq<Byte>, es: seq<Elt>)
    ensures table == TableOf(cfg, ms) && es == Elts(cfg, ms)
  {
    if cfg.style.Bsd44? {
      es := Bsd44Elts(ms);
      return [], es;
    }
    var tab, fields := BuildTable(NamingOf(cfg, ms));
    es := WithFields(cfg, ms, fields);
    table := tab[..];
  }

  lemma EltsPrepared(cfg: Config, ms: seq<Member>)
    requires Sane(cfg, ms)
    ensures AllValid(Kept(cfg, ms)) && AllPrepared(cfg.style, Kept(cfg, ms))
  {
    EltsValid(cfg, ms);
    var es, d := Kept(cfg, ms), Dropped(cfg, ms);
    forall i | 0 <= i < |es|
      ensures Prepared(cfg.style, es[i])
    {
      assert es[i] == EltOf(cfg, ms, d + i);
      if cfg.style.Bsd44? {
        Bsd44Prepared(ms[d + i]);
      }
    }
  }

  lemma Bsd44Prepared(m: Member)
    requires |m.meta| == 32 && SLASH !in m.name
    ensures Bsd44Elt(m).Valid() && Prepared(Bsd44, Bsd44Elt(m))
  {
    var e := Bsd44Elt(m);
    if |m.name| > 16 || SPACE in m.name {
      var d := Digits(Bsd44Extra(m.name));
      assert e.field[..3] == BSD44_MARK && e.field[3] == d[0];
    } else {
      assert e.field[2] != SLASH;
    }
  }

  // ---------- Writing ----------

  const ARMAG: seq<Byte> := [33, 60, 97, 114, 99, 104, 62, NEWLINE]
  const ARMAGT: seq<Byte> := [33, 60, 116, 104, 105, 110, 62, NEWLINE]

  function Magic(thin: bool): seq<Byte> { if thin then ARMAGT else ARMAG }

  const TABLE_FIELD: seq<Byte> := [SLASH, SLASH] + Fill(14, SPACE)
  const ARFILENAMES: seq<Byte> := [65, 82, 70, 73, 76, 69, 78, 65, 77, 69, 83]
  const OLD_TABLE_FIELD: seq<Byte> := ARFILENAMES + [SLASH] + Fill(4, SPACE)

  function TableField(style: Style): (f: seq<Byte>)
    ensures |f| == 16
  {
    if style.Svr4? then TABLE_FIELD else OLD_TABLE_FIELD
  }

  /** The name table as a member of its own. */
  function TableBytes(style: Style, table: seq<Byte>): seq<Byte> {
    if table == [] then [] else Header(TableField(style), Fill(32, SPACE), |Evened(table)|) + Evened(table)
  }

  /** The room for the name table that the map writers are told about. */
  function Elength(table: seq<Byte>): nat {
    if table == [] then 0 else RoundUp(|table| + HDR)
  }

  lemma TableTakes(style: Style, table: seq<Byte>)
    ensures |TableBytes(style, table)| == Elength(table) && Elength(table) % 2 == 0
  {
    EvenBehindHeader(|table|);
  }

  lemma EvenBehindHeader(n: nat)
    ensures RoundUp(n + HDR) == HDR + RoundUp(n) && RoundUp(n + HDR) % 2 == 0
  {
  }

  predicate HasObjects(ms: seq<Member>) {
    exists i :: 0 <= i < |ms| && ms[i].isObject
  }

  predicate Mapped(cfg: Config, ms: seq<Member>) {
    cfg.makeMap && HasObjects(ms)
  }

  /** How many old maps the archive starts with. */
  function OldMaps(ms: seq<Member>, k: nat): (d: nat)
    requires k <= |ms|
    ensures k <= d <= |ms|
    decreases |ms| - k
  {
    if k < |ms| && ms[k].filename == SYMDEF then OldMaps(ms, k + 1) else k
  }

  /** Files called like a map, without a directory, are dropped from the front when a new map is made. */
  function Dropped(cfg: Config, ms: seq<Member>): (d: nat)
    ensures d <= |ms|
  {
    if Mapped(cfg, ms) then OldMaps(ms, 0) else 0
  }

  function Kept(cfg: Config, ms: seq<Member>): (es: seq<Elt>)
    ensures |es| == |ms| - Dropped(cfg, ms)
    ensures forall i {:trigger es[i]} :: 0 <= i < |es| ==> es[i] == EltOf(cfg, ms, Dropped(cfg, ms) + i)
  {
    var d := Dropped(cfg, ms);
    seq(|ms| - d, i requires 0 <= i < |ms| - d => EltOf(cfg, ms, d + i))
  }

  /** The symbol tables of the members from d on. */
  function SymbolTables(ms: seq<Member>, d: nat): (tabs: seq<seq<Symbol>>)
    requires d <= |ms|
    ensures |tabs| == |ms| - d
  {
    seq(|ms| - d, i requires 0 <= i < |ms| - d => if ms[d + i].isObject then ms[d + i].symbols else [])
  }

  function EntriesOf(cfg: Config, ms: seq<Member>): (entries: seq<Entry>)
    ensures OwnedBy(entries, 0, |Kept(cfg, ms)|)
  {
    var d := Dropped(cfg, ms);
    MapOrdered(SymbolTables(ms, d), |ms| - d);
    MapOf(SymbolTables(ms, d), |ms| - d)
  }

  /** Everything before the first member. */
  function Prefix(cfg: Config, ms: seq<Member>): seq<Byte>
    requires |cfg.mapMeta| == 32
  {
    Magic(cfg.thin) + MapPart(cfg, ms) + TableBytes(cfg.style, TableOf(cfg, ms))
  }

  function MapPart(cfg: Config, ms: seq<Member>): seq<Byte>
    requires |cfg.mapMeta| == 32
  {
    if !Mapped(cfg, ms) then []
    else MapBytes(cfg.kind, cfg.big, cfg.thin, Kept(cfg, ms), cfg.mapMeta, EntriesOf(cfg, ms),
        Elength(TableOf(cfg, ms)))
  }

  /** What the format cannot hold makes the writer fail. */
  predicate Storable(cfg: Config, ms: seq<Member>)
    requires Sane(cfg, ms)
  {
    EltsValid(cfg, ms);
    && (forall i :: 0 <= i < |ms| ==> |Digits(|ms[i].contents|)| <= 10)
    && PrefixStorable(cfg, ms)
    && MembersFit(cfg, ms)
  }

  predicate MembersFit(cfg: Config, ms: seq<Member>)
    requires Sane(cfg, ms)
  {
    EltsValid(cfg, ms);
    AllFit(Kept(cfg, ms), |Kept(cfg, ms)|)
  }

  predicate TableFits(cfg: Config, ms: seq<Member>) {
    TableOf(cfg, ms) != [] ==> |Digits(|Evened(TableOf(cfg, ms))|)| <= 10
  }

  /** The first loop of _bfd_write_archive_contents: fresh headers, and whether there is an object. */
  method CheckMembers(ms: seq<Member>) returns (ok: bool, hasObjects: bool)
    ensures ok <==> forall i :: 0 <= i < |ms| ==> |Digits(|ms[i].contents|)| <= 10
    ensures ok ==> hasObjects == HasObjects(ms)
  {
    hasObjects := false;
    for i := 0 to |ms|
      invariant forall j :: 0 <= j < i ==> |Digits(|ms[j].contents|)| <= 10
      invariant hasObjects <==> exists j :: 0 <= j < i && ms[j].isObject
    {
      if |Digits(|ms[i].contents|)| > 10 {
        return false, false;
      }
      if ms[i].isObject {
        hasObjects := true;
      }
    }
    ok := true;
  }

  method DropOldMaps(ms: seq<Member>) returns (d: nat)
    ensures d == OldMaps(ms, 0)
  {
    d := 0;
    while d < |ms| && ms[d].filename == SYMDEF
      invariant d <= |ms| && OldMaps(ms, 0) == OldMaps(ms, d)
    {
      d := d + 1;
    }
  }

  method Rest(es: seq<Elt>, d: nat) returns (rest: seq<Elt>)
    requires d <= |es|
    ensures |rest| == |es| - d && forall i {:trigger rest[i]} :: 0 <= i < |rest| ==> rest[i] == es[d + i]
  {
    rest := es[d..];
  }

  lemma RestIs(cfg: Config, ms: seq<Member>, d: nat, kept: seq<Elt>, entries: seq<Entry>)
    requires Mapped(cfg, ms) && d == OldMaps(ms, 0) && entries == MapOf(SymbolTables(ms, d), |ms| - d)
    requires |kept| == |ms| - d && forall i {:trigger kept[i]} :: 0 <= i < |kept| ==> kept[i] == Elts(cfg, ms)[d + i]
    ensures kept == Kept(cfg, ms) && entries == EntriesOf(cfg, ms)
  {
  }

  /** The map, and the members that are left once old maps are dropped. */
  method WriteArmap(cfg: Config, ms: seq<Member>, es: seq<Elt>, table: seq<Byte>)
    returns (r: Option<seq<Byte>>, kept: seq<Elt>)
    requires Sane(cfg, ms) && Mapped(cfg, ms) && es == Elts(cfg, ms)
    ensures kept == Kept(cfg, ms)
    ensures r.Some? <==> MapFits(cfg.kind, cfg.thin, kept, EntriesOf(cfg, ms), Elength(table))
    ensures r.Some? ==> r.value == MapBytes(cfg.kind, cfg.big, cfg.thin, kept, cfg.mapMeta, EntriesOf(cfg, ms),
      Elength(table))
  {
    var d := DropOldMaps(ms);
    kept := Rest(es, d);
    var entries, stridx := CollectMap(SymbolTables(ms, d));
    RestIs(cfg, ms, d, kept, entries);
    r := WriteMap(cfg.kind, cfg.big, cfg.thin, kept, cfg.mapMeta, entries, stridx, Elength(table));
  }

  /** The file, and the positions at which its headers were written. */
  ghost predicate Stored(cfg: Config, ms: seq<Member>, f: seq<Byte>, headers: seq<nat>)
    requires Sane(cfg, ms)
  {
    EltsValid(cfg, ms);
    var es := Kept(cfg, ms);
    && f == Prefix(cfg, ms) + Body(cfg.thin, es)
    && |headers| == |es| && HeadersAt(cfg.thin, es, |Prefix(cfg, ms)|, headers)
  }

  /** What the writer can tell before it comes to the members. */
  predicate PrefixStorable(cfg: Config, ms: seq<Member>) {
    MapStorable(cfg, ms) && TableFits(cfg, ms)
  }

  predicate MapStorable(cfg: Config, ms: seq<Member>) {
    Mapped(cfg, ms) ==>
      MapFits(cfg.kind, cfg.thin, Kept(cfg, ms), EntriesOf(cfg, ms), Elength(TableOf(cfg, ms)))
  }

  /** The map if there is to be one, and the members that are left. */
  method WriteMapPart(cfg: Config, ms: seq<Member>, es: seq<Elt>, table: seq<Byte>, hasObjects: bool)
    returns (r: Option<seq<Byte>>, kept: seq<Elt>)
    requires Sane(cfg, ms) && hasObjects == HasObjects(ms) && es == Elts(cfg, ms) && table == TableOf(cfg, ms)
    ensures kept == Kept(cfg, ms) && (r.Some? <==> MapStorable(cfg, ms)) && (r.Some? ==> r.value == MapPart(cfg, ms))
  {
    if cfg.makeMap && hasObjects {
      r, kept := WriteArmap(cfg, ms, es, table);
    } else {
      r, kept := Some([]), es;
    }
  }

  /** The name table, if there is one. */
  method WriteTable(style: Style, table: seq<Byte>, out: seq<Byte>) returns (r: Option<seq<Byte>>)
    ensures r.Some? <==> (table != [] ==> |Digits(|Evened(table)|)| <= 10)
    ensures r.Some? ==> r.value == out + TableBytes(style, table)
  {
    if table == [] {
      return Some(out);
    }
    if |Digits(|Evened(table)|)| > 10 {
      return None;
    }
    return Some(out + (Header(TableField(style), Fill(32, SPACE), |Evened(table)|) + Evened(table)));
  }

  /** The magic number, the map and the name table. */
  method WritePrefix(cfg: Config, ms: seq<Member>, hasObjects: bool) returns (r: Option<seq<Byte>>, kept: seq<Elt>)
    requires Sane(cfg, ms) && hasObjects == HasObjects(ms)
    ensures r.Some? <==> PrefixStorable(cfg, ms)
    ensures r.Some? ==> r.value == Prefix(cfg, ms) && kept == Kept(cfg, ms)
  {
    var table, es := Prepare(cfg, ms);
    r, kept := WriteMapPart(cfg, ms, es, table, hasObjects);
    if r.None? {
      return;
    }
    r := WriteTable(cfg.style, table, Magic(cfg.thin) + r.value);
  }

  /** _bfd_write_archive_contents. */
  method WriteArchive(cfg: Config, ms: seq<Member>) returns (r: Option<seq<Byte>>, ghost headers: seq<nat>)
    requires Sane(cfg, ms)
    ensures r.Some? <==> Storable(cfg, ms)
    ensures r.Some? ==> Stored(cfg, ms, r.value, headers)
  {
    headers := [];
    EltsPrepared(cfg, ms);
    var ok, hasObjects := CheckMembers(ms);
    if !ok {
      return None, headers;
    }
    var prefix, kept := WritePrefix(cfg, ms, hasObjects);
    if prefix.None? {
      return None, headers;
    }
    r, headers := WriteMembers(cfg.style, cfg.thin, prefix.value, kept);
  }

  // ---------- The map against the members ----------

  /** The map's positions, in the order of its entries. */
  function MapOffsets(cfg: Config, ms: seq<Member>): (offs: seq<nat>)
    ensures |offs| == |EntriesOf(cfg, ms)|
  {
    var entries := EntriesOf(cfg, ms);
    Offsets(cfg.kind, cfg.thin, Kept(cfg, ms), FirstReal(cfg.kind, entries, Elength(TableOf(cfg, ms))), entries)
  }

  /** The first member goes where the map writer expects it. */
  lemma PrefixLength(cfg: Config, ms: seq<Member>)
    requires |cfg.mapMeta| == 32
    ensures |Prefix(cfg, ms)| % 2 == 0
    ensures Mapped(cfg, ms) ==> |Prefix(cfg, ms)| == FirstReal(cfg.kind, EntriesOf(cfg, ms), Elength(TableOf(cfg, ms)))
  {
    var m, t := MapPart(cfg, ms), TableBytes(cfg.style, TableOf(cfg, ms));
    TableTakes(cfg.style, TableOf(cfg, ms));
    if Mapped(cfg, ms) {
      MapTakes(cfg.kind, cfg.big, cfg.thin, Kept(cfg, ms), cfg.mapMeta, EntriesOf(cfg, ms),
          Elength(TableOf(cfg, ms)), m);
    }
    ConcatEven(Magic(cfg.thin), m);
    ConcatEven(Magic(cfg.thin) + m, t);
  }

  lemma MapTakes(kind: Kind, big: bool, thin: bool, es: seq<Elt>, meta: seq<Byte>, entries: seq<Entry>,
      elength: nat, m: seq<Byte>)
    requires OwnedBy(entries, 0, |es|) && |meta| == 32 && m == MapBytes(kind, big, thin, es, meta, entries, elength)
    ensures |m| % 2 == 0 && FirstReal(kind, entries, elength) == |m| + elength + MAGIC_SIZE
  {
    var offs := Offsets(kind, thin, es, FirstReal(kind, entries, elength), entries);
    MapBodySize(kind, big, entries, offs);
    MapSizeEven(kind, |entries|, StringSize(entries));
    ConcatEven(Header(MapField(kind), meta, MapSize(kind, |entries|, StringSize(entries))),
        MapBody(kind, big, entries, offs));
  }

  /** The i-th position in the map is that of the header of the member that has the symbol. */
  ghost predicate RightAt(cfg: Config, ms: seq<Member>, i: nat)
    requires |cfg.mapMeta| == 32 && i < |EntriesOf(cfg, ms)|
  {
    MapOffsets(cfg, ms)[i] == HeaderPos(cfg.thin, Kept(cfg, ms), |Prefix(cfg, ms)|, EntriesOf(cfg, ms)[i].owner)
  }

  /**
    The position in the map of any symbol is the position at which the later loop writes the header of
    the member that has it, exactly when the map writer is exact about every member before that one.
   */
  lemma MapAgrees(cfg: Config, ms: seq<Member>, i: nat)
    requires Sane(cfg, ms) && Mapped(cfg, ms) && i < |EntriesOf(cfg, ms)|
    ensures var es, owner := Kept(cfg, ms), EntriesOf(cfg, ms)[i].owner;
      owner < |es| && (RightAt(cfg, ms, i) <==> Drift(cfg.kind, cfg.thin, es, owner) == 0)
    ensures var es, owner := Kept(cfg, ms), EntriesOf(cfg, ms)[i].owner;
      !(cfg.kind.Elf64Kind? && cfg.thin && cfg.style.Bsd44?) ==>
        (RightAt(cfg, ms, i) <==> forall j :: 0 <= j < owner ==> Exact(cfg.kind, cfg.thin, es[j]))
  {
    var entries, es := EntriesOf(cfg, ms), Kept(cfg, ms);
    EltsValid(cfg, ms);
    assert AllValid(es);
    PrefixLength(cfg, ms);
    MapIsRight(cfg.kind, cfg.thin, es, |Prefix(cfg, ms)|, entries[i].owner);
  }

  // ---------- A wrong map ----------

  /** A thin archive in the BSD formats: a member that is not empty, and one with a symbol behind it. */
  ghost predicate ThinBsd(cfg: Config, ms: seq<Member>) {
    && cfg == Config(Bsd, true, BsdKind, cfg.big, true, cfg.mapMeta) && |cfg.mapMeta| == 32 && |ms| == 2
    && ms[0] == Member([97], [97], ms[0].meta, ms[0].contents, [], true) && |ms[0].meta| == 32
    && ms[1] == Member([98], [98], ms[1].meta, [], [Symbol([115], true, false, false)], true) && |ms[1].meta| == 32
    && 0 < |ms[0].contents| < 1000
  }

  lemma ThinTable(cfg: Config, ms: seq<Member>)
    requires ThinBsd(cfg, ms)
    ensures |TableOf(cfg, ms)| == 4 && Kept(cfg, ms) == Elts(cfg, ms) && EntriesOf(cfg, ms) == [Entry([115], 1)]
  {
    var n := NamingOf(cfg, ms);
    assert n.Table(2) == n.Table(1) + n.Entry(1) && n.Table(1) == n.Table(0) + n.Entry(0);
    assert ms[0].filename[0] != SYMDEF[0];
    assert Dropped(cfg, ms) == 0;
    ThinEntries(SymbolTables(ms, 0));
  }

  lemma ThinEntries(tabs: seq<seq<Symbol>>)
    requires tabs == [[], [Symbol([115], true, false, false)]]
    ensures MapOf(tabs, 2) == [Entry([115], 1)]
  {
    assert Wanted(tabs[1], 1, 1) == Wanted(tabs[1], 1, 0) + [Entry([115], 1)];
    assert MapOf(tabs, 2) == MapOf(tabs, 1) + Wanted(tabs[1], 1, 1) &&
      MapOf(tabs, 1) == MapOf(tabs, 0) + Wanted(tabs[0], 0, 0);
  }

  lemma SmallNumber(n: nat)
    requires n < 1000
    ensures |Digits(n)| <= 10
  {
    DigitsFit(n, 10);
    TenDigits();
  }

  lemma ThinFits(es: seq<Elt>, entries: seq<Entry>, elength: nat)
    requires |es| == 2 && |es[0].contents| < 1000 && es[0].extra == 0 && elength < 1000 && entries == [Entry([115], 1)]
    ensures MapFits(BsdKind, true, es, entries, elength)
  {
    assert StringSize(entries) == 2 by {
      assert [] + [Entry([115], 1)] == entries;
      MoreStrings([], Entry([115], 1));
    }
    SmallNumber(MapSize(BsdKind, 1, 2));
    var base := FirstReal(BsdKind, entries, elength);
    assert Predict(BsdKind, true, es, base, 1) == Advance(BsdKind, true, Predict(BsdKind, true, es, base, 0), es[0]);
  }

  lemma TwoFit(es: seq<Elt>)
    requires AllValid(es) && |es| == 2 && es[0].extra == es[1].extra == 0
    requires |es[0].contents| < 1000 && |es[1].contents| == 0
    ensures AllFit(es, 2)
  {
    SmallNumber(|es[0].contents|);
    SmallNumber(0);
  }

  lemma ThinMembers(cfg: Config, ms: seq<Member>)
    requires ThinBsd(cfg, ms)
    ensures Sane(cfg, ms) && MembersFit(cfg, ms)
  {
    EltsValid(cfg, ms);
    ThinKept(cfg, ms, Kept(cfg, ms));
    TwoFit(Kept(cfg, ms));
  }

  lemma ThinKept(cfg: Config, ms: seq<Member>, es: seq<Elt>)
    requires ThinBsd(cfg, ms) && es == Kept(cfg, ms)
    ensures |es| == 2 && es[0].extra == es[1].extra == 0
    ensures es[0].contents == ms[0].contents && es[1].contents == ms[1].contents
  {
    ThinTable(cfg, ms);
    assert es[0] == EltOf(cfg, ms, 0) && es[1] == EltOf(cfg, ms, 1);
  }

  lemma ThinPrefix(cfg: Config, ms: seq<Member>)
    requires ThinBsd(cfg, ms)
    ensures PrefixStorable(cfg, ms)
  {
    ThinTable(cfg, ms);
    SmallNumber(4);
    ThinFits(Elts(cfg, ms), EntriesOf(cfg, ms), Elength(TableOf(cfg, ms)));
  }

  lemma ThinStorable(cfg: Config, ms: seq<Member>)
    requires ThinBsd(cfg, ms)
    ensures Sane(cfg, ms) && Mapped(cfg, ms) && Storable(cfg, ms)
  {
    ThinPrefix(cfg, ms);
    ThinMembers(cfg, ms);
    ThinSizes(cfg, ms);
  }

  lemma ThinSizes(cfg: Config, ms: seq<Member>)
    requires ThinBsd(cfg, ms)
    ensures Mapped(cfg, ms) && forall i :: 0 <= i < |ms| ==> |Digits(|ms[i].contents|)| <= 10
  {
    assert ms[0].isObject;
    SmallNumber(|ms[0].contents|);
    SmallNumber(0);
  }

  /** Its map says where the second member would be if the archive held the contents of the first. */
  lemma ThinBsdMap(cfg: Config, ms: seq<Member>)
    requires ThinBsd(cfg, ms)
    ensures Sane(cfg, ms) && Mapped(cfg, ms) && Storable(cfg, ms) && |EntriesOf(cfg, ms)| == 1 && !RightAt(cfg, ms, 0)
  {
    ThinTable(cfg, ms);
    ThinStorable(cfg, ms);
    MapAgrees(cfg, ms, 0);
    assert !Exact(cfg.kind, cfg.thin, Kept(cfg, ms)[0]);
  }
}
