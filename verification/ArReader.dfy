/** Reading an archive: one header, and the walk from member to member. */
module ArReader {
  import opened ArMembers
  import opened ArNames
  import opened Bytes

  /** A member as the reader knows it: its name, size, and where its contents start. */
  datatype Found = Found(name: seq<Byte>, size: nat, extra: nat, origin: nat)

  datatype HdrResult = Hdr(found: Found) | NoMoreFiles | Malformed

  /** _bfd_generic_read_ar_hdr_mag at position pos. */
  function ReadHdr(f: seq<Byte>, pos: nat, table: Option<seq<Byte>>, maxName: nat): HdrResult
    requires maxName <= 16
  {
    if pos + HDR > |f| then NoMoreFiles
    else
      var hdr := f[pos..pos + HDR];
      if hdr[58..] != FMAG then Malformed
      else
        match ParseNumber(hdr[48..58])
        case None => Malformed
        case Some(size) => Resolve(f, pos + HDR, size, DecodeName(hdr, table, maxName))
  }

  /** The member whose header ends at p; a BSD 4.4 name comes first and is not part of the contents. */
  function Resolve(f: seq<Byte>, p: nat, size: nat, name: NameRef): HdrResult {
    match name
    case BadName => Malformed
    case InField(name) => Hdr(Found(name, size, 0, p))
    case InTable(name) => Hdr(Found(name, size, 0, p))
    case AfterHeader(n) =>
      if p + n > |f| then NoMoreFiles
      else Hdr(Found(CString(f[p..p + n]), (size - n) % WORD64, n, p + n))
  }

  /** The name in e's header, as a reader with this table makes it out. */
  function NameIn(style: Style, e: Elt, table: Option<seq<Byte>>): NameRef
    requires e.Valid()
  {
    DecodeName(Header(e.field, e.meta, e.HeaderSize()), table, style.MaxName())
  }

  /** e can be found again under its own name. */
  predicate Recovered(style: Style, e: Elt, table: Option<seq<Byte>>)
    requires e.Valid()
  {
    if e.extra > 0 then NameIn(style, e, table) == AfterHeader(e.extra) && NUL !in e.name
    else NameIn(style, e, table) == InField(e.name) || NameIn(style, e, table) == InTable(e.name)
  }

  lemma HeaderParts(field: seq<Byte>, meta: seq<Byte>, size: nat)
    requires |field| == 16 && |meta| == 32 && |Digits(size)| <= 10
    ensures var h := Header(field, meta, size);
      h[..16] == field && h[58..] == FMAG && ParseNumber(h[48..58]) == Some(size)
  {
    var h, d := Header(field, meta, size), Digits(size);
    var padded := SpacePad(d, 10);
    assert h[48..58] == padded;
    assert padded == d + padded[|d|..];
    ParsePrinted(size, padded[|d|..]);
  }

  /** The parts of a member in the file. */
  lemma EncodedParts(thin: bool, e: Elt, f: seq<Byte>, pos: nat)
    requires e.Valid() && At(f, pos, Encoded(thin, e))
    ensures At(f, pos, Header(e.field, e.meta, e.HeaderSize())) && At(f, pos + HDR, LongName(e))
    ensures !thin ==> At(f, pos + HDR + e.extra, e.contents)
  {
    var s := Encoded(thin, e);
    var h := Header(e.field, e.meta, e.HeaderSize());
    var x := HDR + e.extra;
    AtPart(f, pos, s, 0, HDR);
    assert s[0..HDR] == h;
    AtPart(f, pos, s, HDR, x);
    assert s[HDR..x] == LongName(e);
    if !thin {
      AtPart(f, pos, s, x, x + |e.contents|);
      assert s[x..x + |e.contents|] == e.contents;
    }
  }

  lemma HeaderRead(f: seq<Byte>, pos: nat, h: seq<Byte>, size: nat, table: Option<seq<Byte>>, maxName: nat)
    requires |h| == HDR && At(f, pos, h) && h[58..] == FMAG && ParseNumber(h[48..58]) == Some(size) && maxName <= 16
    ensures ReadHdr(f, pos, table, maxName) == Resolve(f, pos + HDR, size, DecodeName(h, table, maxName))
  {
  }

  lemma NameResolved(style: Style, e: Elt, f: seq<Byte>, p: nat, table: Option<seq<Byte>>)
    requires e.Valid() && Recovered(style, e, table) && At(f, p, LongName(e)) && |e.contents| < WORD64
    ensures Resolve(f, p, e.HeaderSize(), NameIn(style, e, table)) ==
      Hdr(Found(e.name, |e.contents|, e.extra, p + e.extra))
  {
    var x := e.extra;
    if x > 0 {
      CStringOf(e.name, Fill(x - |e.name|, NUL));
      assert f[p..p + x] == LongName(e);
    }
  }

  /** A member that was written is found where it was written, with its own name, size and contents. */
  lemma MemberRead(style: Style, thin: bool, e: Elt, f: seq<Byte>, pos: nat, table: Option<seq<Byte>>)
    requires e.Valid() && Fits(e) && At(f, pos, Encoded(thin, e)) && Recovered(style, e, table)
    requires |e.contents| < WORD64
    ensures ReadHdr(f, pos, table, style.MaxName()) ==
      Hdr(Found(e.name, |e.contents|, e.extra, pos + HDR + e.extra))
    ensures !thin ==> At(f, pos + HDR + e.extra, e.contents)
  {
    EncodedParts(thin, e, f, pos);
    HeaderParts(e.field, e.meta, e.HeaderSize());
    HeaderRead(f, pos, Header(e.field, e.meta, e.HeaderSize()), e.HeaderSize(), table, style.MaxName());
    NameResolved(style, e, f, pos + HDR, table);
  }

  // ---------- The walk ----------

  /** Positions in a file are of a signed 64-bit type. */
  const FILE_LIMIT: nat := 0x8000_0000_0000_0000

  /** bfd_generic_openr_next_archived_file: where the member after m starts. */
  function NextPos(m: Found, thin: bool): nat {
    Even(if thin then m.origin else (m.origin + m.size) % WORD64)
  }

  function Even(p: nat): nat { p + p % 2 }

  /** The size in the header of m, which counts a name behind the header. */
  function Stated(m: Found): nat { (m.size + m.extra) % WORD64 }

  /** The name behind the header is not longer than the size in the header. */
  predicate NameFits(m: Found) { m.size + m.extra < WORD64 }

  lemma HdrFound(f: seq<Byte>, pos: nat, table: Option<seq<Byte>>, maxName: nat, m: Found)
    requires maxName <= 16 && ReadHdr(f, pos, table, maxName) == Hdr(m)
    ensures m.origin == pos + HDR + m.extra <= |f|
    ensures Stated(m) < 10_000_000_000 && m.size == (Stated(m) - m.extra) % WORD64
    ensures NameFits(m) <==> m.extra <= Stated(m)
  {
    var hdr := f[pos..pos + HDR];
    ParseBound(hdr[48..58]);
    TenDigits();
    ResolveFound(f, pos + HDR, ParseNumber(hdr[48..58]).value, DecodeName(hdr, table, maxName), m);
  }

  lemma ResolveFound(f: seq<Byte>, p: nat, size: nat, name: NameRef, m: Found)
    requires Resolve(f, p, size, name) == Hdr(m) && p <= |f| && size < 10_000_000_000
    ensures m.origin == p + m.extra <= |f| && Stated(m) == size && m.size == (size - m.extra) % WORD64
    ensures NameFits(m) <==> m.extra <= size
  {
    SizeBack(size, m.extra);
  }

  /** What was taken off a size is still there when the length of the name is added again. */
  lemma SizeBack(stated: nat, n: nat)
    requires stated < 10_000_000_000
    ensures ((stated - n) % WORD64 + n) % WORD64 == stated
    ensures (stated - n) % WORD64 + n < WORD64 <==> n <= stated
  {
  }

  lemma SumBack(p: nat, stated: nat, n: nat)
    requires p < FILE_LIMIT && stated < 10_000_000_000
    ensures (p + n + (stated - n) % WORD64) % WORD64 == p + stated
  {
  }

  /** The next header is as far behind this one as the size in it says, on any bytes. */
  lemma NextIs(f: seq<Byte>, pos: nat, table: Option<seq<Byte>>, maxName: nat, thin: bool, m: Found)
    requires maxName <= 16 && ReadHdr(f, pos, table, maxName) == Hdr(m) && |f| < FILE_LIMIT
    ensures NextPos(m, thin) == Even(pos + HDR + if thin then m.extra else Stated(m))
  {
    HdrFound(f, pos, table, maxName, m);
    NextSum(m, pos + HDR, thin);
  }

  lemma NextSum(m: Found, p: nat, thin: bool)
    requires m.origin == p + m.extra < FILE_LIMIT && m.size == (Stated(m) - m.extra) % WORD64
    requires Stated(m) < 10_000_000_000
    ensures NextPos(m, thin) == Even(p + if thin then m.extra else Stated(m))
  {
    SumBack(p, Stated(m), m.extra);
  }

  /** The members that a walk from pos visits, until a header cannot be read. */
  function Walk(f: seq<Byte>, pos: nat, table: Option<seq<Byte>>, maxName: nat, thin: bool): seq<Found>
    requires maxName <= 16 && |f| < FILE_LIMIT
    decreases |f| - pos
  {
    match ReadHdr(f, pos, table, maxName)
    case Hdr(m) =>
      NextIs(f, pos, table, maxName, thin, m);
      [m] + Walk(f, NextPos(m, thin), table, maxName, thin)
    case _ => []
  }

  /** Where their headers are. */
  function Heads(f: seq<Byte>, pos: nat, table: Option<seq<Byte>>, maxName: nat, thin: bool): seq<nat>
    requires maxName <= 16 && |f| < FILE_LIMIT
    decreases |f| - pos
  {
    match ReadHdr(f, pos, table, maxName)
    case Hdr(m) =>
      NextIs(f, pos, table, maxName, thin, m);
      [pos] + Heads(f, NextPos(m, thin), table, maxName, thin)
    case _ => []
  }

  /** Where the walk stops. */
  function WalkEnd(f: seq<Byte>, pos: nat, table: Option<seq<Byte>>, maxName: nat, thin: bool): nat
    requires maxName <= 16 && |f| < FILE_LIMIT
    decreases |f| - pos
  {
    match ReadHdr(f, pos, table, maxName)
    case Hdr(m) =>
      NextIs(f, pos, table, maxName, thin, m);
      WalkEnd(f, NextPos(m, thin), table, maxName, thin)
    case _ => pos
  }

  /** One more member: the rest of the walk starts behind its header. */
  lemma WalkNext(f: seq<Byte>, pos: nat, table: Option<seq<Byte>>, maxName: nat, thin: bool, m: Found)
    requires maxName <= 16 && ReadHdr(f, pos, table, maxName) == Hdr(m) && |f| < FILE_LIMIT
    ensures Walk(f, pos, table, maxName, thin) == [m] + Walk(f, NextPos(m, thin), table, maxName, thin)
    ensures Heads(f, pos, table, maxName, thin) == [pos] + Heads(f, NextPos(m, thin), table, maxName, thin)
    ensures WalkEnd(f, pos, table, maxName, thin) == WalkEnd(f, NextPos(m, thin), table, maxName, thin)
    ensures pos < NextPos(m, thin) && pos < |f|
  {
    NextIs(f, pos, table, maxName, thin, m);
  }

  /** The members found so far, and where the walk is. */
  ghost predicate Walked(f: seq<Byte>, first: nat, table: Option<seq<Byte>>, maxName: nat, thin: bool,
      members: seq<Found>, end: nat)
    requires maxName <= 16 && |f| < FILE_LIMIT
  {
    && Walk(f, first, table, maxName, thin) == members + Walk(f, end, table, maxName, thin)
    && WalkEnd(f, first, table, maxName, thin) == WalkEnd(f, end, table, maxName, thin)
  }

  lemma WalkedNext(f: seq<Byte>, first: nat, table: Option<seq<Byte>>, maxName: nat, thin: bool,
      members: seq<Found>, end: nat, m: Found)
    requires maxName <= 16 && |f| < FILE_LIMIT && Walked(f, first, table, maxName, thin, members, end)
    requires ReadHdr(f, end, table, maxName) == Hdr(m)
    ensures Walked(f, first, table, maxName, thin, members + [m], NextPos(m, thin))
    ensures end < NextPos(m, thin) && end < |f|
  {
    WalkNext(f, end, table, maxName, thin, m);
    Associative(members, [m], Walk(f, NextPos(m, thin), table, maxName, thin));
  }

  lemma Associative(a: seq<Found>, b: seq<Found>, c: seq<Found>)
    ensures (a + b) + c == a + (b + c)
  {
  }

  /** Opening the next member until there is none. */
  method WalkArchive(f: seq<Byte>, first: nat, table: Option<seq<Byte>>, maxName: nat, thin: bool)
    returns (members: seq<Found>, end: nat)
    requires maxName <= 16 && |f| < FILE_LIMIT
    ensures members == Walk(f, first, table, maxName, thin) && end == WalkEnd(f, first, table, maxName, thin)
  {
    members, end := [], first;
    var r := ReadHdr(f, end, table, maxName);
    while r.Hdr?
      invariant r == ReadHdr(f, end, table, maxName) && Walked(f, first, table, maxName, thin, members, end)
      decreases |f| - end
    {
      WalkedNext(f, first, table, maxName, thin, members, end, r.found);
      members := members + [r.found];
      end := NextPos(r.found, thin);
      r := ReadHdr(f, end, table, maxName);
    }
  }

  /** How far the header of m reaches, with what the reader skips after it. */
  function Reach(m: Found, thin: bool): nat { HDR + if thin then m.extra else Stated(m) }

  /** Each header lies behind the one before it and what that one announces. */
  ghost predicate Spaced(ps: seq<nat>, ms: seq<Found>, thin: bool, end: nat) {
    |ps| == |ms| && forall i {:trigger ms[i]} :: 0 <= i < |ms| ==>
      && ms[i].origin == ps[i] + HDR + ms[i].extra
      && ps[i] + Reach(ms[i], thin) <= if i + 1 < |ps| then ps[i + 1] else end
  }

  lemma SpacedMore(p: nat, m: Found, ps: seq<nat>, ms: seq<Found>, thin: bool, end: nat, next: nat)
    requires Spaced(ps, ms, thin, end) && next == (if ps == [] then end else ps[0])
    requires m.origin == p + HDR + m.extra && p + Reach(m, thin) <= next
    ensures Spaced([p] + ps, [m] + ms, thin, end)
  {
    forall i {:trigger ([m] + ms)[i]} | 0 < i < |ms| + 1
      ensures ([m] + ms)[i] == ms[i - 1] && ([p] + ps)[i] == ps[i - 1]
    {
    }
  }

  /** Whatever the file holds, the walk goes forward from header to header. */
  lemma {:induction false} WalkIncreases(f: seq<Byte>, pos: nat, table: Option<seq<Byte>>, maxName: nat, thin: bool)
    requires maxName <= 16 && |f| < FILE_LIMIT
    ensures Spaced(Heads(f, pos, table, maxName, thin), Walk(f, pos, table, maxName, thin), thin,
                   WalkEnd(f, pos, table, maxName, thin))
    ensures Heads(f, pos, table, maxName, thin) != [] ==> Heads(f, pos, table, maxName, thin)[0] == pos
    ensures Heads(f, pos, table, maxName, thin) == [] ==> WalkEnd(f, pos, table, maxName, thin) == pos
    decreases |f| - pos
  {
    var r := ReadHdr(f, pos, table, maxName);
    if r.Hdr? {
      var m, next := r.found, NextPos(r.found, thin);
      WalkNext(f, pos, table, maxName, thin, m);
      NextIs(f, pos, table, maxName, thin, m);
      HdrFound(f, pos, table, maxName, m);
      WalkIncreases(f, next, table, maxName, thin);
      SpacedMore(pos, m, Heads(f, next, table, maxName, thin), Walk(f, next, table, maxName, thin), thin,
        WalkEnd(f, next, table, maxName, thin), next);
    }
  }

  /** Contents start behind each other. */
  ghost predicate Increasing(w: seq<Found>) {
    forall i {:trigger w[i]} :: 0 < i < |w| ==> w[i - 1].origin < w[i].origin
  }

  /** The walk does not go back behind the start of a member's contents, exactly if its name fits, but for padding. */
  lemma NeverBack(f: seq<Byte>, pos: nat, table: Option<seq<Byte>>, maxName: nat, m: Found)
    requires maxName <= 16 && ReadHdr(f, pos, table, maxName) == Hdr(m) && |f| < FILE_LIMIT
    ensures m.origin <= NextPos(m, false) <==> NameFits(m) || m.extra == Even(pos + HDR + Stated(m)) - (pos + HDR)
    ensures m.origin <= NextPos(m, true)
  {
    HdrFound(f, pos, table, maxName, m);
    NextIs(f, pos, table, maxName, false, m);
  }

  lemma OriginsIncrease(f: seq<Byte>, pos: nat, table: Option<seq<Byte>>, maxName: nat, thin: bool)
    requires maxName <= 16 && |f| < FILE_LIMIT
    requires thin || forall m :: m in Walk(f, pos, table, maxName, thin) ==> NameFits(m)
    ensures Increasing(Walk(f, pos, table, maxName, thin))
  {
    WalkIncreases(f, pos, table, maxName, thin);
    SpacedIncreases(Heads(f, pos, table, maxName, thin), Walk(f, pos, table, maxName, thin), thin,
      WalkEnd(f, pos, table, maxName, thin));
  }

  lemma SpacedIncreases(ps: seq<nat>, ms: seq<Found>, thin: bool, end: nat)
    requires Spaced(ps, ms, thin, end) && (thin || forall m :: m in ms ==> NameFits(m))
    ensures Increasing(ms)
  {
    forall i {:trigger ms[i]} | 0 < i < |ms|
      ensures ms[i - 1].origin < ms[i].origin
    {
      assert ms[i - 1] in ms;
      assert NameFits(ms[i - 1]) ==> Stated(ms[i - 1]) == ms[i - 1].size + ms[i - 1].extra;
    }
  }

  lemma LongHeader(f: seq<Byte>, pos: nat, meta: seq<Byte>, n: nat, size: nat)
    requires |meta| == 32 && |Digits(n)| <= 10 && |Digits(size)| <= 10
    requires At(f, pos, Header(Bsd44Field(n), meta, size))
    ensures ReadHdr(f, pos, None, 16) == Resolve(f, pos + HDR, size, AfterHeader(n))
  {
    var h := Header(Bsd44Field(n), meta, size);
    HeaderParts(Bsd44Field(n), meta, size);
    Bsd44Recovered(n, h);
    HeaderRead(f, pos, h, size, None, 16);
  }

  lemma ShortHeader(f: seq<Byte>, pos: nat, meta: seq<Byte>, name: seq<Byte>, size: nat)
    requires |meta| == 32 && |Digits(size)| <= 10 && PlainName(name) && SPACE !in name && |name| <= 16
    requires At(f, pos, Header(ShortField(Bsd44, name), meta, size))
    ensures ReadHdr(f, pos, None, 16) == Hdr(Found(name, size, 0, pos + HDR))
  {
    var h := Header(ShortField(Bsd44, name), meta, size);
    HeaderParts(ShortField(Bsd44, name), meta, size);
    ShortRecovered(Bsd44, name, h, None);
    HeaderRead(f, pos, h, size, None, 16);
  }

  lemma LongNext(f: seq<Byte>, p: nat, q: nat, meta: seq<Byte>, n: nat) returns (m: Found)
    requires |meta| == 32 && |Digits(n)| <= 10 && p % 2 == 0 && q == p + HDR && q + n <= |f| < FILE_LIMIT
    requires At(f, p, Header(Bsd44Field(n), meta, 0))
    ensures LeadsTo(f, p, m, q, None, 16, false) && m.origin == q + n
  {
    LongHeader(f, p, meta, n, 0);
    m := NextAtOnce(f, q, n);
    Leads(f, p, m, q, None, 16, false);
  }

  lemma Leads(f: seq<Byte>, p: nat, m: Found, q: nat, table: Option<seq<Byte>>, maxName: nat, thin: bool)
    requires maxName <= 16 && ReadHdr(f, p, table, maxName) == Hdr(m) && NextPos(m, thin) == q
    ensures LeadsTo(f, p, m, q, table, maxName, thin)
  {
  }

  lemma NextAtOnce(f: seq<Byte>, q: nat, n: nat) returns (m: Found)
    requires q + n <= |f| && q % 2 == 0 && q < WORD64
    ensures Resolve(f, q, 0, AfterHeader(n)) == Hdr(m) && m.origin == q + n && NextPos(m, false) == q
  {
    m := Found(CString(f[q..q + n]), (0 - n) % WORD64, n, q + n);
    BackAgain(n, q);
  }

  lemma BackAgain(n: nat, q: nat)
    requires q < WORD64
    ensures (q + n + (0 - n) % WORD64) % WORD64 == q
  {
  }

  /**
    A header that announces a name of n bytes and a size of 0 is followed by the next header at once.  If
    n is more than the length of a header, as with "#1/200" at position 8 of a file of 400 bytes, the
    contents of the next member start before these.
   */
  lemma GoesBack(f: seq<Byte>, p: nat, q: nat, meta: seq<Byte>, n: nat, name: seq<Byte>) returns (m: Found, m': Found)
    requires |meta| == 32 && PlainName(name) && SPACE !in name && |name| <= 16
    requires n > HDR && |Digits(n)| <= 10 && p % 2 == 0 && q == p + HDR && q + n <= |f| < FILE_LIMIT
    requires At(f, p, Header(Bsd44Field(n), meta, 0)) && At(f, q, Header(ShortField(Bsd44, name), meta, 0))
    ensures LeadsTo(f, p, m, q, None, 16, false) && ReadHdr(f, q, None, 16) == Hdr(m') && m'.origin < m.origin
  {
    m := LongNext(f, p, q, meta, n);
    ShortHeader(f, q, meta, name, 0);
    m' := Found(name, 0, 0, q + HDR);
  }

  /** What the reader is to find for the k-th member. */
  function Expected(thin: bool, es: seq<Elt>, base: nat, k: nat): Found
    requires k < |es| && AllValid(es)
  {
    Found(es[k].name, |es[k].contents|, es[k].extra, HeaderPos(thin, es, base, k) + HDR + es[k].extra)
  }

  /** At pos there is the header of m, and the walk goes on at next. */
  ghost predicate LeadsTo(f: seq<Byte>, pos: nat, m: Found, next: nat, table: Option<seq<Byte>>, maxName: nat,
      thin: bool) {
    maxName <= 16 && ReadHdr(f, pos, table, maxName) == Hdr(m) && NextPos(m, thin) == next
  }

  ghost predicate Chain(f: seq<Byte>, ps: seq<nat>, ms: seq<Found>, table: Option<seq<Byte>>, maxName: nat, thin: bool)
    requires |ps| == |ms| + 1
  {
    forall i {:trigger ms[i]} :: 0 <= i < |ms| ==> LeadsTo(f, ps[i], ms[i], ps[i + 1], table, maxName, thin)
  }

  /** Headers at ps, each leading to the next: the walk follows them all. */
  lemma {:induction false} WalkChain(f: seq<Byte>, ps: seq<nat>, ms: seq<Found>, table: Option<seq<Byte>>,
      maxName: nat, thin: bool, k: nat)
    requires |ps| == |ms| + 1 && k <= |ms| && maxName <= 16 && ps[|ms|] + HDR > |f| && |f| < FILE_LIMIT
    requires Chain(f, ps, ms, table, maxName, thin)
    ensures Walk(f, ps[k], table, maxName, thin) == ms[k..] && WalkEnd(f, ps[k], table, maxName, thin) == ps[|ms|]
    decreases |ms| - k
  {
    if k < |ms| {
      assert ms[k..] == [ms[k]] + ms[k + 1..];
      WalkChain(f, ps, ms, table, maxName, thin, k + 1);
    }
  }

  lemma EvenRoom(h: nat, thin: bool, e: Elt)
    requires h % 2 == 0 && e.extra % 2 == 0
    ensures (h + Room(thin, e)) % 2 == 0
    ensures var p := h + HDR + e.extra + if thin then 0 else |e.contents|; p + p % 2 == h + Room(thin, e)
  {
  }

  /** Headers follow each other at even positions. */
  lemma {:induction false} EvenHeader(thin: bool, es: seq<Elt>, base: nat, k: nat)
    requires k <= |es| && AllValid(es) && base % 2 == 0
    ensures HeaderPos(thin, es, base, k) % 2 == 0
  {
    if k > 0 {
      EvenHeader(thin, es, base, k - 1);
      EvenRoom(HeaderPos(thin, es, base, k - 1), thin, es[k - 1]);
    }
  }

  lemma NextHeader(thin: bool, es: seq<Elt>, base: nat, k: nat)
    requires k < |es| && AllValid(es) && base % 2 == 0 && HeaderPos(thin, es, base, k + 1) < WORD64
    ensures NextPos(Expected(thin, es, base, k), thin) == HeaderPos(thin, es, base, k + 1)
  {
    EvenHeader(thin, es, base, k);
    EvenRoom(HeaderPos(thin, es, base, k), thin, es[k]);
  }

  /** Everything that keeps a member from being read back under its own name. */
  predicate Readable(style: Style, es: seq<Elt>, table: Option<seq<Byte>>)
    requires AllValid(es)
  {
    forall i {:trigger ReadableElt(style, es[i], table)} :: 0 <= i < |es| ==> ReadableElt(style, es[i], table)
  }

  predicate ReadableElt(style: Style, e: Elt, table: Option<seq<Byte>>)
    requires e.Valid()
  {
    Recovered(style, e, table) && Fits(e) && |e.contents| < WORD64
  }

  lemma MemberAt(thin: bool, es: seq<Elt>, prefix: seq<Byte>, k: nat)
    requires k < |es| && AllValid(es)
    ensures At(prefix + Body(thin, es), HeaderPos(thin, es, |prefix|, k), Encoded(thin, es[k]))
  {
    PiecesEnd(thin, es, |prefix|, k);
    PieceAtPos(prefix, Pieces(thin, es), k, HeaderPos(thin, es, |prefix|, k));
  }

  lemma HeaderInside(thin: bool, es: seq<Elt>, prefix: seq<Byte>, k: nat)
    requires k < |es| && AllValid(es)
    ensures HeaderPos(thin, es, |prefix|, k + 1) <= |prefix + Body(thin, es)|
  {
    MemberAt(thin, es, prefix, k);
    RoomTaken(thin, es[k]);
  }

  /** What is found at the k-th header. */
  lemma KthMember(style: Style, thin: bool, es: seq<Elt>, prefix: seq<Byte>, table: Option<seq<Byte>>, k: nat,
      m: Found)
    requires k < |es| && AllValid(es) && Readable(style, es, table) && |prefix| % 2 == 0
    requires m == Expected(thin, es, |prefix|, k) && |prefix + Body(thin, es)| < FILE_LIMIT
    ensures LeadsTo(prefix + Body(thin, es), HeaderPos(thin, es, |prefix|, k), m, HeaderPos(thin, es, |prefix|, k + 1),
                    table, style.MaxName(), thin)
  {
    assert ReadableElt(style, es[k], table);
    MemberAt(thin, es, prefix, k);
    MemberRead(style, thin, es[k], prefix + Body(thin, es), HeaderPos(thin, es, |prefix|, k), table);
    HeaderInside(thin, es, prefix, k);
    NextHeader(thin, es, |prefix|, k);
    Leads(prefix + Body(thin, es), HeaderPos(thin, es, |prefix|, k), m, HeaderPos(thin, es, |prefix|, k + 1),
        table, style.MaxName(), thin);
  }

  /** The members as the reader is to find them. */
  function AllExpected(thin: bool, es: seq<Elt>, base: nat): (ms: seq<Found>)
    requires AllValid(es)
    ensures |ms| == |es| && forall k {:trigger ms[k]} :: 0 <= k < |es| ==> ms[k] == Expected(thin, es, base, k)
  {
    seq(|es|, k requires 0 <= k < |es| => Expected(thin, es, base, k))
  }

  function AllPos(thin: bool, es: seq<Elt>, base: nat): (ps: seq<nat>)
    ensures |ps| == |es| + 1 && forall k {:trigger ps[k]} :: 0 <= k <= |es| ==> ps[k] == HeaderPos(thin, es, base, k)
  {
    seq(|es| + 1, k requires 0 <= k <= |es| => HeaderPos(thin, es, base, k))
  }

  lemma MembersChain(style: Style, thin: bool, es: seq<Elt>, prefix: seq<Byte>, table: Option<seq<Byte>>)
    requires AllValid(es) && Readable(style, es, table) && |prefix| % 2 == 0 && |prefix + Body(thin, es)| < FILE_LIMIT
    ensures Chain(prefix + Body(thin, es), AllPos(thin, es, |prefix|), AllExpected(thin, es, |prefix|), table,
      style.MaxName(), thin)
  {
    var f, ps, ms := prefix + Body(thin, es), AllPos(thin, es, |prefix|), AllExpected(thin, es, |prefix|);
    forall k {:trigger ms[k]} | 0 <= k < |ms|
      ensures LeadsTo(f, ps[k], ms[k], ps[k + 1], table, style.MaxName(), thin)
    {
      KthMember(style, thin, es, prefix, table, k, ms[k]);
    }
  }

  /** The walk visits exactly the members that were written, in order, and stops at the end of the file. */
  lemma WalkFindsAll(style: Style, thin: bool, es: seq<Elt>, prefix: seq<Byte>, table: Option<seq<Byte>>)
    requires AllValid(es) && Readable(style, es, table) && |prefix| % 2 == 0 && |prefix + Body(thin, es)| < FILE_LIMIT
    ensures var f := prefix + Body(thin, es);
      && Walk(f, |prefix|, table, style.MaxName(), thin) == AllExpected(thin, es, |prefix|)
      && WalkEnd(f, |prefix|, table, style.MaxName(), thin) == |f|
  {
    MembersChain(style, thin, es, prefix, table);
    PiecesEnd(thin, es, |prefix|, |es|);
    WalkChain(prefix + Body(thin, es), AllPos(thin, es, |prefix|), AllExpected(thin, es, |prefix|), table,
        style.MaxName(), thin, 0);
  }

  /** The contents are where the reader looks for them. */
  lemma ContentsFound(es: seq<Elt>, prefix: seq<Byte>, k: nat)
    requires k < |es| && AllValid(es)
    ensures At(prefix + Body(false, es), Expected(false, es, |prefix|, k).origin, es[k].contents)
  {
    var e, f, p := es[k], prefix + Body(false, es), HeaderPos(false, es, |prefix|, k);
    MemberAt(false, es, prefix, k);
    EncodedParts(false, e, f, p);
  }
}
