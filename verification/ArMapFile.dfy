/** Symbol maps as bytes: the writers' walk over members and symbols, and the readers. */
module ArMapFile {
  import opened ArMap
  import opened ArMembers
  import opened Bytes

  /** The position that a writer gives each entry. */
  function Offsets(kind: Kind, thin: bool, es: seq<Elt>, base: nat, entries: seq<Entry>): (offs: seq<nat>)
    requires OwnedBy(entries, 0, |es|)
    ensures |offs| == |entries|
    ensures forall i {:trigger offs[i]} :: 0 <= i < |offs| ==>
      offs[i] == Predict(kind, thin, es, base, entries[i].owner)
  {
    seq(|entries|, i requires 0 <= i < |entries| => Predict(kind, thin, es, base, entries[i].owner))
  }

  /** BSD: index of the name, then position, in the byte order of the target. */
  function Symdefs(big: bool, entries: seq<Entry>, offs: seq<nat>): (cs: seq<seq<Byte>>)
    requires |offs| == |entries|
    ensures |cs| == |offs|
    ensures forall i {:trigger cs[i]} :: 0 <= i < |cs| ==>
      cs[i] == Put(big, NameIdx(entries, i), 4) + Put(big, offs[i], 4)
  {
    seq(|offs|, i requires 0 <= i < |offs| => Put(big, NameIdx(entries, i), 4) + Put(big, offs[i], 4))
  }

  /** COFF and 64-bit: positions only, most significant byte first, in w bytes. */
  function Index(w: nat, offs: seq<nat>): (cs: seq<seq<Byte>>)
    ensures |cs| == |offs| && forall i {:trigger cs[i]} :: 0 <= i < |cs| ==> cs[i] == PutBig(offs[i], w)
  {
    seq(|offs|, i requires 0 <= i < |offs| => PutBig(offs[i], w))
  }

  predicate Below(offs: seq<nat>, limit: nat, k: nat)
    requires k <= |offs|
  {
    forall i {:trigger offs[i]} :: 0 <= i < k ==> offs[i] < limit
  }

  const BSD_LIMIT: nat := 0x8000_0000

  /** From one member on to a later one: at least one step. */
  method SkipTo(thin: bool, es: seq<Elt>, ghost base: nat, from: nat, firstreal: nat, owner: nat) returns (pos: nat)
    requires from < owner < |es| && firstreal == Predict(BsdKind, thin, es, base, from)
    ensures pos == Predict(BsdKind, thin, es, base, owner)
  {
    pos := firstreal;
    var current := from;
    while true
      invariant from <= current < owner && pos == Predict(BsdKind, thin, es, base, current)
      decreases owner - current
    {
      pos := pos + |es[current].contents| + es[current].extra + HDR;
      pos := pos + pos % 2;
      current := current + 1;
      assert pos == Predict(BsdKind, thin, es, base, current);
      if current == owner {
        break;
      }
    }
  }

  /** The first count symdefs are written. */
  ghost predicate Defined(big: bool, entries: seq<Entry>, offs: seq<nat>, out: seq<Byte>, count: nat) {
    && |offs| == |entries| && count <= |offs| && out == Concat(Symdefs(big, entries, offs), count)
    && Below(offs, BSD_LIMIT, count)
  }

  lemma DefinedNext(big: bool, entries: seq<Entry>, offs: seq<nat>, out: seq<Byte>, count: nat, off: nat)
    requires Defined(big, entries, offs, out, count) && count < |offs| && off == offs[count] < BSD_LIMIT
    ensures Defined(big, entries, offs, out + (Put(big, NameIdx(entries, count), 4) + Put(big, off, 4)), count + 1)
  {
    var cs := Symdefs(big, entries, offs);
    assert cs[count] == Put(big, NameIdx(entries, count), 4) + Put(big, off, 4);
  }

  /** The symbol loop of bsd_write_armap: it finds every owner, and fails only beyond 2 gigabytes. */
  method WriteSymdefs(big: bool, thin: bool, es: seq<Elt>, base: nat, entries: seq<Entry>)
    returns (r: Option<seq<Byte>>)
    requires Ordered(entries) && OwnedBy(entries, 0, |es|)
    ensures var offs := Offsets(BsdKind, thin, es, base, entries);
      && (r.Some? <==> Below(offs, BSD_LIMIT, |offs|))
      && (r.Some? ==> Defined(big, entries, offs, r.value, |entries|))
  {
    ghost var offs := Offsets(BsdKind, thin, es, base, entries);
    var out, current, firstreal := [], 0, base;
    for count := 0 to |entries|
      invariant Defined(big, entries, offs, out, count)
      invariant 0 <= current <= |es| && Ahead(entries, count, current) &&
        firstreal == Predict(BsdKind, thin, es, base, current)
    {
      var owner := entries[count].owner;
      if owner != current {
        firstreal := SkipTo(thin, es, base, current, firstreal, owner);
        current := owner;
      }
      assert firstreal == offs[count];
      if firstreal >= BSD_LIMIT {
        return None;
      }
      DefinedNext(big, entries, offs, out, count, firstreal);
      out := out + (Put(big, NameIdx(entries, count), 4) + Put(big, firstreal, 4));
    }
    return Some(out);
  }

  function Width(kind: Kind): nat { if kind.Elf64Kind? then 8 else 4 }

  /** The first count positions are written. */
  ghost predicate Indexed(kind: Kind, offs: seq<nat>, out: seq<Byte>, count: nat) {
    count <= |offs| && out == Concat(Index(Width(kind), offs), count) && (kind.CoffKind? ==> Below(offs, WORD32, count))
  }

  /** From count on, the entries belong to member current or to later ones. */
  ghost predicate Ahead(entries: seq<Entry>, count: nat, current: nat) {
    forall i :: count <= i < |entries| ==> current <= entries[i].owner
  }

  /** The symbols of one member. */
  method WriteOwned(kind: Kind, ghost offs: seq<nat>, entries: seq<Entry>, current: nat, ptr: nat, out: seq<Byte>,
      count: nat)
    returns (r: Option<seq<Byte>>, next: nat)
    requires |offs| == |entries| && count <= |entries| && Indexed(kind, offs, out, count)
    requires Ordered(entries) && Ahead(entries, count, current)
    requires forall i {:trigger offs[i]} :: 0 <= i < |entries| && entries[i].owner == current ==> offs[i] == ptr
    ensures r.Some? ==> next <= |entries| && Indexed(kind, offs, r.value, next) && Ahead(entries, next, current + 1)
    ensures r.None? ==> kind.CoffKind? && !Below(offs, WORD32, |offs|)
  {
    var s := out;
    next := count;
    while next < |entries| && entries[next].owner == current
      invariant next <= |entries| && Indexed(kind, offs, s, next) && Ahead(entries, next, current)
    {
      assert ptr == offs[next];
      if kind.CoffKind? && ptr >= WORD32 {
        return None, next;
      }
      s := s + PutBig(ptr, Width(kind));
      next := next + 1;
    }
    return Some(s), next;
  }

  /** The offset loops of coff_write_armap and bfd_elf64_archive_write_armap: member by member, then its symbols. */
  method WriteIndex(kind: Kind, thin: bool, es: seq<Elt>, base: nat, entries: seq<Entry>) returns (r: Option<seq<Byte>>)
    requires !kind.BsdKind? && Ordered(entries) && OwnedBy(entries, 0, |es|)
    ensures var offs := Offsets(kind, thin, es, base, entries);
      && (r.Some? <==> kind.Elf64Kind? || Below(offs, WORD32, |offs|))
      && (r.Some? ==> r.value == Concat(Index(Width(kind), offs), |entries|))
  {
    ghost var offs := Offsets(kind, thin, es, base, entries);
    var current, count, ptr := 0, 0, base;
    r := Some([]);
    while current < |es| && count < |entries|
      invariant 0 <= current <= |es| && 0 <= count <= |entries| && ptr == Predict(kind, thin, es, base, current)
      invariant r.Some? && Indexed(kind, offs, r.value, count) && Ahead(entries, count, current)
      decreases |es| - current
    {
      r, count := WriteOwned(kind, offs, entries, current, ptr, r.value, count);
      if r.None? {
        return;
      }
      ptr := Advance(kind, thin, ptr, es[current]);
      current := current + 1;
    }
    MembersLeft(entries, count, current, |es|);
  }

  /** Where symbols are left, so are members. */
  lemma MembersLeft(entries: seq<Entry>, count: nat, current: nat, members: nat)
    requires Ahead(entries, count, current) && OwnedBy(entries, 0, members)
    ensures count < |entries| ==> current < members
  {
    assert count < |entries| ==> current <= entries[count].owner;
  }

  // ---------- The whole map ----------

  const SYMDEF: seq<Byte> := [95, 95, 46, 83, 89, 77, 68, 69, 70]
  const SYM64: seq<Byte> := [SLASH, 83, 89, 77, 54, 52, SLASH]

  /** The name by which a map is recognised. */
  function MapField(kind: Kind): (f: seq<Byte>)
    ensures |f| == 16
  {
    match kind
    case BsdKind => SYMDEF + Fill(7, SPACE)
    case CoffKind => [SLASH] + Fill(15, SPACE)
    case Elf64Kind => SYM64 + Fill(9, SPACE)
  }

  /** The NULs at the end: BSD and COFF maps are even, 64-bit maps are made of double words. */
  function MapPad(kind: Kind, n: nat, strings: nat): nat {
    match kind
    case BsdKind => strings % 2
    case CoffKind => (strings + 4 * n + 4) % 2
    case Elf64Kind => if (strings + 8 * n + 8) % 8 == 0 then 0 else 8 - (strings + 8 * n + 8) % 8
  }

  function MapSize(kind: Kind, n: nat, strings: nat): nat {
    (if kind.BsdKind? then 8 * n + 8 else Width(kind) * n + Width(kind)) + strings + MapPad(kind, n, strings)
  }

  function MapBody(kind: Kind, big: bool, entries: seq<Entry>, offs: seq<nat>): seq<Byte>
    requires |offs| == |entries|
  {
    var n := |entries|;
    var tail := Concat(Strings(entries), n) + Fill(MapPad(kind, n, StringSize(entries)), NUL);
    if kind.BsdKind? then
      Put(big, 8 * n, 4) + Concat(Symdefs(big, entries, offs), n) + SizeWord(big, n, StringSize(entries)) + tail
    else PutBig(n, Width(kind)) + Concat(Index(Width(kind), offs), n) + tail
  }

  /** The size of the strings of a BSD map, padding included. */
  function SizeWord(big: bool, n: nat, strings: nat): (s: seq<Byte>)
    ensures |s| == 4
  {
    Put(big, strings + MapPad(BsdKind, n, strings), 4)
  }

  lemma MapBodySize(kind: Kind, big: bool, entries: seq<Entry>, offs: seq<nat>)
    requires |offs| == |entries|
    ensures |MapBody(kind, big, entries, offs)| == MapSize(kind, |entries|, StringSize(entries))
  {
    if kind.BsdKind? {
      EvenPieces(Symdefs(big, entries, offs), 8, |entries|);
    } else {
      EvenPieces(Index(Width(kind), offs), Width(kind), |entries|);
    }
  }

  lemma MapSizeEven(kind: Kind, n: nat, strings: nat)
    ensures MapSize(kind, n, strings) % 2 == 0
  {
    match kind
    case BsdKind =>
      EvenUp(strings, 8 * n + 8, MapSize(kind, n, strings));
    case CoffKind =>
      EvenUp(strings + 4 * n + 4, 0, MapSize(kind, n, strings));
    case Elf64Kind =>
      EightUp(strings + 8 * n + 8, MapSize(kind, n, strings));
  }

  lemma EvenUp(x: nat, y: nat, size: nat)
    requires y % 2 == 0 && size == y + x + x % 2
    ensures size % 2 == 0
  {
  }

  lemma EightUp(x: nat, size: nat)
    requires size == x + if x % 8 == 0 then 0 else 8 - x % 8
    ensures size % 2 == 0
  {
  }

  method WriteStrings(entries: seq<Entry>) returns (s: seq<Byte>)
    ensures s == Concat(Strings(entries), |entries|)
  {
    s := [];
    for i := 0 to |entries|
      invariant s == Concat(Strings(entries), i)
    {
      assert Strings(entries)[i] == entries[i].name + [NUL];
      s := s + (entries[i].name + [NUL]);
    }
  }

  const MAGIC_SIZE: nat := 8

  /** Where the first member goes, if elength bytes of name table come between map and members. */
  function FirstReal(kind: Kind, entries: seq<Entry>, elength: nat): nat {
    MapSize(kind, |entries|, StringSize(entries)) + elength + HDR + MAGIC_SIZE
  }

  /** Whether the map can say where all its members are. */
  predicate MapFits(kind: Kind, thin: bool, es: seq<Elt>, entries: seq<Entry>, elength: nat)
    requires OwnedBy(entries, 0, |es|)
  {
    var offs := Offsets(kind, thin, es, FirstReal(kind, entries, elength), entries);
    |Digits(MapSize(kind, |entries|, StringSize(entries)))| <= 10 && PositionsFit(kind, offs)
  }

  predicate PositionsFit(kind: Kind, offs: seq<nat>) {
    (kind.BsdKind? ==> Below(offs, BSD_LIMIT, |offs|)) && (kind.CoffKind? ==> Below(offs, WORD32, |offs|))
  }

  function MapBytes(kind: Kind, big: bool, thin: bool, es: seq<Elt>, meta: seq<Byte>, entries: seq<Entry>,
      elength: nat): seq<Byte>
    requires OwnedBy(entries, 0, |es|) && |meta| == 32
  {
    Header(MapField(kind), meta, MapSize(kind, |entries|, StringSize(entries)))
      + MapBody(kind, big, entries, Offsets(kind, thin, es, FirstReal(kind, entries, elength), entries))
  }

  /** Everything behind the header of the map. */
  method WriteBody(kind: Kind, big: bool, thin: bool, es: seq<Elt>, base: nat, entries: seq<Entry>, stridx: nat)
    returns (r: Option<seq<Byte>>)
    requires Ordered(entries) && OwnedBy(entries, 0, |es|) && stridx == StringSize(entries)
    ensures var offs := Offsets(kind, thin, es, base, entries);
      (r.Some? <==> PositionsFit(kind, offs)) && (r.Some? ==> r.value == MapBody(kind, big, entries, offs))
  {
    var n := |entries|;
    var strings := WriteStrings(entries);
    var pad := MapPad(kind, n, stridx);
    if kind.BsdKind? {
      var defs := WriteSymdefs(big, thin, es, base, entries);
      if defs.None? {
        return None;
      }
      r := Some(Put(big, 8 * n, 4) + defs.value + Put(big, stridx + pad, 4) + (strings + Fill(pad, NUL)));
    } else {
      var index := WriteIndex(kind, thin, es, base, entries);
      if index.None? {
        return None;
      }
      r := Some(PutBig(n, Width(kind)) + index.value + (strings + Fill(pad, NUL)));
    }
  }

  /** bsd_write_armap, coff_write_armap and bfd_elf64_archive_write_armap. */
  method WriteMap(kind: Kind, big: bool, thin: bool, es: seq<Elt>, meta: seq<Byte>, entries: seq<Entry>,
      stridx: nat, elength: nat)
    returns (r: Option<seq<Byte>>)
    requires Ordered(entries) && OwnedBy(entries, 0, |es|) && |meta| == 32 && stridx == StringSize(entries)
    ensures r.Some? <==> MapFits(kind, thin, es, entries, elength)
    ensures r.Some? ==> r.value == MapBytes(kind, big, thin, es, meta, entries, elength)
  {
    var mapsize := MapSize(kind, |entries|, stridx);
    if |Digits(mapsize)| > 10 {
      return None;
    }
    var base := mapsize + elength + HDR + MAGIC_SIZE;
    assert base == FirstReal(kind, entries, elength);
    var body := WriteBody(kind, big, thin, es, base, entries, stridx);
    if body.None? {
      return None;
    }
    return Some(Header(MapField(kind), meta, mapsize) + body.value);
  }
}
