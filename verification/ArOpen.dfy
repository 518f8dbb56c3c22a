/** Opening an archive: its magic number, its map and its name table. */
module ArOpen {
  import opened Archive
  import opened ArMap
  import opened ArMapFile
  import opened ArMapReader
  import opened ArMembers
  import opened ArNames
  import opened ArReader
  import opened ArTable
  import opened Bytes

  /** A member that is read as a whole. */
  datatype Raw = Raw(found: Found, bytes: seq<Byte>) {
    /** Where the next member starts. */
    function End(): nat { RoundUp(found.origin + found.size) }
  }

  function ReadRaw(f: seq<Byte>, pos: nat, maxName: nat): Option<Raw>
    requires maxName <= 16
  {
    match ReadHdr(f, pos, None, maxName)
    case Hdr(m) => if m.origin + m.size <= |f| then Some(Raw(m, f[m.origin..m.origin + m.size])) else None
    case _ => None
  }

  datatype MapResult = NoMap | HasMap(syms: seq<Sym>, first: nat) | BadMap

  /** The map name of old Linux archives. */
  const OLD_SYMDEF: seq<Byte> := SYMDEF + [SLASH] + Fill(6, SPACE)

  /** The header of Mach-O's sorted map, whose name of 20 bytes follows it. */
  const SORTED_FIELD: seq<Byte> := [35, 49, SLASH, 50, 48] + Fill(11, SPACE)

  predicate SortedMap(f: seq<Byte>, pos: nat) {
    pos + HDR + 20 > |f| || SYMDEF <= f[pos + HDR..pos + HDR + 20]
  }

  function FromRaw(raw: Option<Raw>, syms: Option<seq<Sym>>): MapResult {
    if raw.Some? && syms.Some? then HasMap(syms.value, raw.value.End()) else BadMap
  }

  /** What a second map takes, cut to 32 bits by the mask that evens it. */
  function SecondRoom(size: nat): nat { (size + HDR + 1) % WORD32 / 2 * 2 }

  /** The second map of PE archives is skipped. */
  function SkipSecond(f: seq<Byte>, m: MapResult, maxName: nat): MapResult
    requires maxName <= 16
  {
    if !m.HasMap? then m
    else
      match ReadHdr(f, m.first, None, maxName)
      case Hdr(found) =>
        if f[m.first] == SLASH && f[m.first + 1] == SPACE then m.(first := m.first + SecondRoom(found.size)) else m
      case _ => m
  }

  /** bfd_slurp_armap. */
  function ReadMap(f: seq<Byte>, pos: nat, big: bool, maxName: nat): MapResult
    requires maxName <= 16
  {
    if pos >= |f| then NoMap
    else if pos + 16 > |f| then BadMap
    else
      var name, raw := f[pos..pos + 16], ReadRaw(f, pos, maxName);
      var bytes := if raw.Some? then raw.value.bytes else [];
      if name == MapField(BsdKind) || name == OLD_SYMDEF then FromRaw(raw, BsdMapOf(big, bytes))
      else if name == MapField(CoffKind) then SkipSecond(f, FromRaw(raw, IndexMapOf(4, bytes)), maxName)
      else if name == MapField(Elf64Kind) then FromRaw(raw, IndexMapOf(8, bytes))
      else if name != SORTED_FIELD || !SortedMap(f, pos) then NoMap
      else if pos + HDR + 20 > |f| then BadMap
      else FromRaw(raw, BsdMapOf(big, bytes))
  }

  /** A target's own reader: bfd_elf64_archive_slurp_armap knows no maps but COFF's and its own. */
  function TargetMap(target: Kind, f: seq<Byte>, pos: nat, big: bool, maxName: nat): MapResult
    requires maxName <= 16
  {
    if target.Elf64Kind? && pos + 16 <= |f| && f[pos..pos + 16] !in {MapField(CoffKind), MapField(Elf64Kind)} then NoMap
    else ReadMap(f, pos, big, maxName)
  }

  datatype TableResult = NoTable | HasTable(table: seq<Byte>, first: nat) | BadTable

  /** _bfd_slurp_extended_name_table. */
  function ReadTable(f: seq<Byte>, pos: nat, maxName: nat): TableResult
    requires maxName <= 16
  {
    if pos + 16 > |f| then NoTable
    else if f[pos..pos + 16] != TABLE_FIELD && f[pos..pos + 16] != OLD_TABLE_FIELD then NoTable
    else
      match ReadRaw(f, pos, maxName)
      case Some(raw) => HasTable(Cleaned(raw.bytes), raw.End())
      case None => BadTable
  }

  /** An archive that is open: its symbols and its name table if it has them, and its first member. */
  datatype Opened = Opened(thin: bool, syms: Option<seq<Sym>>, table: Option<seq<Byte>>, first: nat)

  const ARMAGB: seq<Byte> := [33, 60, 98, 111, 117, 116, 62, NEWLINE]

  /** bfd_generic_archive_p. */
  function OpenArchive(f: seq<Byte>, target: Kind, big: bool, maxName: nat): Option<Opened>
    requires maxName <= 16
  {
    if |f| < MAGIC_SIZE then None
    else
      var magic := f[..MAGIC_SIZE];
      if magic != ARMAG && magic != ARMAGB && magic != ARMAGT then None
      else WithMap(f, magic == ARMAGT, TargetMap(target, f, MAGIC_SIZE, big, maxName), maxName)
  }

  function WithMap(f: seq<Byte>, thin: bool, m: MapResult, maxName: nat): Option<Opened>
    requires maxName <= 16
  {
    match m
    case BadMap => None
    case NoMap => WithTable(thin, None, MAGIC_SIZE, ReadTable(f, MAGIC_SIZE, maxName))
    case HasMap(syms, first) => WithTable(thin, Some(syms), first, ReadTable(f, first, maxName))
  }

  function WithTable(thin: bool, syms: Option<seq<Sym>>, first: nat, t: TableResult): Option<Opened> {
    match t
    case BadTable => None
    case NoTable => Some(Opened(thin, syms, None, first))
    case HasTable(table, next) => Some(Opened(thin, syms, Some(table), next))
  }

  // ---------- The code ----------

  /** The table is read into a buffer and cleaned there. */
  method LoadTable(bytes: seq<Byte>) returns (table: seq<Byte>)
    ensures table == Cleaned(bytes)
  {
    var a := new Byte[|bytes| + 1];
    for i := 0 to |bytes|
      invariant a[..i] == bytes[..i]
    {
      a[i] := bytes[i];
    }
    assert a[..|bytes|] == bytes;
    CleanTable(a);
    table := a[..|bytes|];
  }

  method SlurpMap(f: seq<Byte>, pos: nat, big: bool, maxName: nat) returns (r: MapResult)
    requires maxName <= 16
    ensures r == ReadMap(f, pos, big, maxName)
  {
    if pos >= |f| {
      return NoMap;
    }
    if pos + 16 > |f| {
      return BadMap;
    }
    var name, raw := f[pos..pos + 16], ReadRaw(f, pos, maxName);
    var bytes := if raw.Some? then raw.value.bytes else [];
    if name == MapField(BsdKind) || name == OLD_SYMDEF {
      var syms := ParseBsd(big, bytes);
      return FromRaw(raw, syms);
    } else if name == MapField(CoffKind) {
      var syms := ParseIndex(4, bytes);
      return SkipSecond(f, FromRaw(raw, syms), maxName);
    } else if name == MapField(Elf64Kind) {
      var syms := ParseIndex(8, bytes);
      return FromRaw(raw, syms);
    } else if name == SORTED_FIELD {
      if pos + HDR + 20 > |f| {
        return BadMap;
      }
      if SYMDEF <= f[pos + HDR..pos + HDR + 20] {
        var syms := ParseBsd(big, bytes);
        return FromRaw(raw, syms);
      }
    }
    return NoMap;
  }

  /** bfd_elf64_archive_slurp_armap. */
  method SlurpMap64(f: seq<Byte>, pos: nat, big: bool, maxName: nat) returns (r: MapResult)
    requires maxName <= 16
    ensures r == TargetMap(Elf64Kind, f, pos, big, maxName)
  {
    FieldsDiffer();
    if pos >= |f| {
      return NoMap;
    }
    if pos + 16 > |f| {
      return BadMap;
    }
    var name := f[pos..pos + 16];
    if name == MapField(CoffKind) {
      r := SlurpMap(f, pos, big, maxName);
      return;
    }
    if name != MapField(Elf64Kind) {
      return NoMap;
    }
    var raw := ReadRaw(f, pos, maxName);
    var syms := ParseIndex(8, if raw.Some? then raw.value.bytes else []);
    return FromRaw(raw, syms);
  }

  method SlurpTable(f: seq<Byte>, pos: nat, maxName: nat) returns (r: TableResult)
    requires maxName <= 16
    ensures r == ReadTable(f, pos, maxName)
  {
    if pos + 16 > |f| {
      return NoTable;
    }
    if f[pos..pos + 16] != TABLE_FIELD && f[pos..pos + 16] != OLD_TABLE_FIELD {
      return NoTable;
    }
    var raw := ReadRaw(f, pos, maxName);
    if raw.None? {
      return BadTable;
    }
    var table := LoadTable(raw.value.bytes);
    return HasTable(table, raw.value.End());
  }

  method Open(f: seq<Byte>, target: Kind, big: bool, maxName: nat) returns (r: Option<Opened>)
    requires maxName <= 16
    ensures r == OpenArchive(f, target, big, maxName)
  {
    if |f| < MAGIC_SIZE {
      return None;
    }
    var magic := f[..MAGIC_SIZE];
    if magic != ARMAG && magic != ARMAGB && magic != ARMAGT {
      return None;
    }
    var m;
    if target.Elf64Kind? {
      m := SlurpMap64(f, MAGIC_SIZE, big, maxName);
    } else {
      m := SlurpMap(f, MAGIC_SIZE, big, maxName);
    }
    if m.BadMap? {
      return None;
    }
    var first := if m.HasMap? then m.first else MAGIC_SIZE;
    var syms := if m.HasMap? then Some(m.syms) else None;
    var t := SlurpTable(f, first, maxName);
    return WithTable(magic == ARMAGT, syms, first, t);
  }

  // ---------- Opening what was written ----------

  /** A map or a table of even size, read as a whole. */
  lemma RawRead(f: seq<Byte>, pos: nat, field: seq<Byte>, meta: seq<Byte>, bytes: seq<Byte>, maxName: nat, end: nat)
    requires |field| == 16 && |meta| == 32 && |Digits(|bytes|)| <= 10 && maxName <= 16
    requires At(f, pos, Header(field, meta, |bytes|) + bytes) && field[..3] != BSD44_MARK
    requires end == pos + HDR + |bytes| && end % 2 == 0
    ensures RawIs(f, pos, maxName, bytes, end)
  {
    var h := Header(field, meta, |bytes|);
    TwoParts(f, pos, h, bytes, pos + HDR);
    HeaderParts(field, meta, |bytes|);
    HeaderRead(f, pos, h, |bytes|, None, maxName);
    NotBsd44(h, field, maxName);
    RawFrom(f, pos, maxName, ReadHdr(f, pos, None, maxName).found, bytes, end);
  }

  ghost predicate RawIs(f: seq<Byte>, pos: nat, maxName: nat, bytes: seq<Byte>, end: nat)
    requires maxName <= 16
  {
    var raw := ReadRaw(f, pos, maxName);
    raw.Some? && raw.value.bytes == bytes && raw.value.End() == end
  }

  lemma RawFrom(f: seq<Byte>, pos: nat, maxName: nat, m: Found, bytes: seq<Byte>, end: nat)
    requires maxName <= 16 && ReadHdr(f, pos, None, maxName) == Hdr(m) && m.size == |bytes| && At(f, m.origin, bytes)
    requires end == m.origin + m.size && end % 2 == 0
    ensures RawIs(f, pos, maxName, bytes, end)
  {
  }

  lemma TwoParts(f: seq<Byte>, pos: nat, h: seq<Byte>, bytes: seq<Byte>, q: nat)
    requires At(f, pos, h + bytes) && q == pos + |h|
    ensures At(f, pos, h) && At(f, q, bytes)
  {
    AtPart(f, pos, h + bytes, 0, |h|);
    assert (h + bytes)[0..|h|] == h;
    AtPart(f, pos, h + bytes, |h|, |h + bytes|);
    assert (h + bytes)[|h|..|h + bytes|] == bytes;
  }

  lemma NotBsd44(h: seq<Byte>, field: seq<Byte>, maxName: nat)
    requires |h| == HDR && h[..16] == field && field[..3] != BSD44_MARK && maxName <= 16
    ensures DecodeName(h, None, maxName).InField?
  {
    assert h[..3] == h[..16][..3];
  }

  /** The name field at the beginning of a member. */
  lemma FieldAt(f: seq<Byte>, pos: nat, field: seq<Byte>, meta: seq<Byte>, size: nat, rest: seq<Byte>)
    requires |field| == 16 && |meta| == 32 && At(f, pos, Header(field, meta, size) + rest)
    ensures pos + HDR <= |f| && f[pos..pos + 16] == field
  {
    AtPart(f, pos, Header(field, meta, size) + rest, 0, 16);
    assert (Header(field, meta, size) + rest)[0..16] == field;
  }

  // ---------- Members that look like something else ----------

  /** Name fields that a target's reader looks for: of maps, of name tables, and of the second map of PE archives. */
  predicate LikeMap(target: Kind, field: seq<Byte>) {
    || field == MapField(CoffKind) || field == MapField(Elf64Kind)
    || (!target.Elf64Kind? && (field == MapField(BsdKind) || field == OLD_SYMDEF))
  }

  predicate LikeTable(field: seq<Byte>) { field == TABLE_FIELD || field == OLD_TABLE_FIELD }

  predicate LikeSecond(field: seq<Byte>) { |field| == 16 && field[0] == SLASH && field[1] == SPACE }

  predicate MapAt(target: Kind, f: seq<Byte>, pos: nat)
    requires pos + 16 <= |f|
  {
    || LikeMap(target, f[pos..pos + 16])
    || (!target.Elf64Kind? && f[pos..pos + 16] == SORTED_FIELD && SortedMap(f, pos))
  }

  lemma NoMapAt(target: Kind, f: seq<Byte>, pos: nat, big: bool, maxName: nat)
    requires maxName <= 16 && pos + 16 <= |f|
    ensures TargetMap(target, f, pos, big, maxName) == NoMap <==> !MapAt(target, f, pos)
  {
  }

  /** At pos there is the name table. */
  ghost predicate TableStands(style: Style, table: seq<Byte>, f: seq<Byte>, pos: nat, end: nat) {
    && table != [] && |Digits(|Evened(table)|)| <= 10 && end == pos + HDR + |Evened(table)| && end % 2 == 0
    && At(f, pos, Header(TableField(style), Fill(32, SPACE), |Evened(table)|) + Evened(table))
  }

  lemma TableRead(style: Style, table: seq<Byte>, f: seq<Byte>, pos: nat, maxName: nat, end: nat)
    requires maxName <= 16 && TableStands(style, table, f, pos, end)
    ensures ReadTable(f, pos, maxName) == HasTable(Cleaned(Evened(table)), end)
    ensures f[pos..pos + 16] == TableField(style)
  {
    FieldAt(f, pos, TableField(style), Fill(32, SPACE), |Evened(table)|, Evened(table));
    assert TableField(style)[0] != BSD44_MARK[0];
    RawRead(f, pos, TableField(style), Fill(32, SPACE), Evened(table), maxName, end);
  }

  /** A map that the reader can follow. */
  predicate Legible(kind: Kind, entries: seq<Entry>, offs: seq<nat>)
    requires |offs| == |entries|
  {
    NoNul(entries) && if kind.BsdKind? then SmallMap(entries, offs)
                      else |entries| < Pow256(Width(kind)) && Below(offs, Pow256(Width(kind)), |offs|)
  }

  /** At pos there is a map. */
  ghost predicate MapStands(kind: Kind, big: bool, meta: seq<Byte>, entries: seq<Entry>, offs: seq<nat>,
      f: seq<Byte>, pos: nat, end: nat) {
    && |offs| == |entries| && |meta| == 32
    && var body := MapBody(kind, big, entries, offs);
       && |Digits(|body|)| <= 10 && end == pos + HDR + |body| && end % 2 == 0
       && At(f, pos, Header(MapField(kind), meta, |body|) + body)
  }

  lemma FieldsDiffer()
    ensures MapField(CoffKind) != MapField(BsdKind) && MapField(CoffKind) != OLD_SYMDEF
    ensures MapField(Elf64Kind) != MapField(BsdKind) && MapField(Elf64Kind) != OLD_SYMDEF &&
      MapField(Elf64Kind) != MapField(CoffKind)
    ensures forall kind: Kind :: MapField(kind)[..3] != BSD44_MARK
  {
    assert MapField(BsdKind)[0] == 95 && OLD_SYMDEF[0] == 95 && MapField(CoffKind)[0] == SLASH &&
      MapField(Elf64Kind)[0] == SLASH;
    assert MapField(CoffKind)[1] == SPACE && MapField(Elf64Kind)[1] == 83;
    assert BSD44_MARK[0] == 35;
    forall kind: Kind
      ensures MapField(kind)[..3] != BSD44_MARK
    {
      assert MapField(kind)[..3][0] != 35;
    }
  }

  /** What follows a COFF map is not taken for a second one. */
  predicate NoSecond(f: seq<Byte>, pos: nat, maxName: nat)
    requires maxName <= 16
  {
    match ReadHdr(f, pos, None, maxName)
    case Hdr(found) => !(f[pos] == SLASH && f[pos + 1] == SPACE && SecondRoom(found.size) != 0)
    case _ => true
  }

  function ByKind(kind: Kind, f: seq<Byte>, big: bool, maxName: nat, raw: Raw): MapResult
    requires maxName <= 16
  {
    var m := FromRaw(Some(raw), Decoded(kind, big, raw.bytes));
    if kind.CoffKind? then SkipSecond(f, m, maxName) else m
  }

  function Decoded(kind: Kind, big: bool, bytes: seq<Byte>): Option<seq<Sym>> {
    if kind.BsdKind? then BsdMapOf(big, bytes) else IndexMapOf(Width(kind), bytes)
  }

  lemma ByKindIs(kind: Kind, f: seq<Byte>, big: bool, maxName: nat, raw: Raw, syms: seq<Sym>, end: nat)
    requires maxName <= 16 && Decoded(kind, big, raw.bytes) == Some(syms) && raw.End() == end
    requires kind.CoffKind? ==> NoSecond(f, end, maxName)
    ensures ByKind(kind, f, big, maxName, raw) == HasMap(syms, end)
  {
  }

  /** The map is recognised by its name and read as a whole. */
  lemma MapFound(kind: Kind, f: seq<Byte>, pos: nat, big: bool, maxName: nat, raw: Raw)
    requires maxName <= 16 && pos + 16 <= |f| && f[pos..pos + 16] == MapField(kind) &&
      ReadRaw(f, pos, maxName) == Some(raw)
    ensures TargetMap(kind, f, pos, big, maxName) == ByKind(kind, f, big, maxName, raw)
  {
    FieldsDiffer();
  }

  /** Slurping the map of an archive: the same names, in the same order, with the same positions. */
  lemma MapRead(kind: Kind, big: bool, meta: seq<Byte>, entries: seq<Entry>, offs: seq<nat>, f: seq<Byte>,
      pos: nat, maxName: nat, end: nat)
    requires MapStands(kind, big, meta, entries, offs, f, pos, end) && Legible(kind, entries, offs) && maxName <= 16
    requires kind.CoffKind? ==> NoSecond(f, end, maxName)
    ensures TargetMap(kind, f, pos, big, maxName) == HasMap(SymsOf(entries, offs), end)
  {
    var body := MapBody(kind, big, entries, offs);
    var raw := WholeMap(kind, meta, body, f, pos, big, maxName, end);
    BodyRead(kind, big, entries, offs, body);
    ByKindIs(kind, f, big, maxName, raw, SymsOf(entries, offs), end);
  }

  lemma WholeMap(kind: Kind, meta: seq<Byte>, body: seq<Byte>, f: seq<Byte>, pos: nat, big: bool, maxName: nat,
      end: nat) returns (raw: Raw)
    requires |meta| == 32 && |Digits(|body|)| <= 10 && end == pos + HDR + |body| && end % 2 == 0 && maxName <= 16
    requires At(f, pos, Header(MapField(kind), meta, |body|) + body)
    ensures raw.bytes == body && raw.End() == end
    ensures TargetMap(kind, f, pos, big, maxName) == ByKind(kind, f, big, maxName, raw)
  {
    FieldsDiffer();
    FieldAt(f, pos, MapField(kind), meta, |body|, body);
    RawRead(f, pos, MapField(kind), meta, body, maxName, end);
    raw := ReadRaw(f, pos, maxName).value;
    MapFound(kind, f, pos, big, maxName, raw);
  }

  lemma BodyRead(kind: Kind, big: bool, entries: seq<Entry>, offs: seq<nat>, body: seq<Byte>)
    requires |offs| == |entries| && Legible(kind, entries, offs) && body == MapBody(kind, big, entries, offs)
    ensures Decoded(kind, big, body) == Some(SymsOf(entries, offs))
  {
    if kind.BsdKind? {
      BsdRoundTrip(big, entries, offs, body);
    } else {
      IndexRoundTrip(kind, big, entries, offs, body, Width(kind));
    }
  }
}
