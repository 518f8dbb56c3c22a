/**
  The BFD file-descriptor cache as a state machine on values: a bounded list of open files, most
  recently used first, some of which are closed behind the user's back and reopened on demand.
 */
module CacheModel {
  import opened Bytes
  import opened Sequences

  datatype Direction = NoDirection | ReadDirection | WriteDirection | BothDirection {
    predicate Writable() { WriteDirection? || BothDirection? }
  }

  /** A BFD, by what never changes after its creation. */
  datatype Bfd = Bfd(
    id: nat,
    filename: string,
    direction: Direction,
    isArchive: bool,        // format == bfd_archive
    archive: Option<Bfd>,   // my_archive, for a member of an archive
    origin: nat,            // where the member's contents start in the archive
    eltSize: nat)           // arelt_size, meaningful for archive members

  /** A BFD's iostream: null, or a FILE whose only observable state is its offset. */
  datatype Stream = NoStream | Stream(pos: nat)

  datatype Iovec = NoIovec | CacheIovec

  /** The part of a BFD that the cache and the I/O layer update. */
  datatype BfdState = BfdState(iovec: Iovec, openedOnce: bool, cacheable: bool, iostream: Stream, where: int) {

    /** Where the next transfer takes place: the stream's offset, or the one saved when it was closed. */
    function Logical(): int {
      if iostream.Stream? then iostream.pos else where
    }
  }

  type States = map<Bfd, BfdState>

  type Disk = map<string, seq<Byte>>

  /** The open files, most recently used first; the BFDs; the file system. */
  datatype State = State(ring: seq<Bfd>, st: States, disk: Disk)

  const MAX_OPEN: nat := 10

  // ---------- Eviction and opening ----------

  /** Position of the least recently used file that may be closed, -1 if there is none. */
  function Victim(r: seq<Bfd>, st: States): (k: int)
    ensures -1 <= k < |r|
    ensures k >= 0 ==> Cacheable(r[k], st)
    ensures forall i :: k < i < |r| ==> !Cacheable(r[i], st)
  {
    if r == [] then -1
    else if Cacheable(r[|r| - 1], st) then |r| - 1
    else Victim(r[..|r| - 1], st)
  }

  predicate Cacheable(b: Bfd, st: States) {
    b in st && st[b].cacheable
  }

  /** close_one: close the victim, keeping its offset in where. */
  function Evict(s: State): (s': State)
    ensures s'.st.Keys == s.st.Keys && s'.disk == s.disk
  {
    var k := Victim(s.ring, s.st);
    if k < 0 then s
    else
      var v := s.ring[k];
      s.(ring := Without(s.ring, k), st := s.st[v := s.st[v].(iostream := NoStream, where := s.st[v].Logical())])
  }

  /** Whether opening a file closes another one first, so that fclose gets a chance to fail. */
  predicate Evicts(s: State) {
    |s.ring| >= MAX_OPEN && Victim(s.ring, s.st) >= 0
  }

  function MakeRoom(s: State): (s': State)
    ensures s'.st.Keys == s.st.Keys && s'.disk == s.disk
  {
    if |s.ring| >= MAX_OPEN then Evict(s) else s
  }

  /** A BFD marked as one the cache may close. */
  function Marked(s: State, b: Bfd): State
    requires b in s.st
  {
    s.(st := s.st[b := s.st[b].(cacheable := true)])
  }

  /** A BFD whose stream is open, put at the front of the ring. */
  function Inserted(s: State, b: Bfd): State
    requires b in s.st
  {
    s.(ring := [b] + s.ring, st := s.st[b := s.st[b].(iovec := CacheIovec)])
  }

  datatype CacheFlag = Normal | NoOpen | NoSeek

  /** The outermost archive: the BFD whose stream a member uses. */
  function Root(b: Bfd): Bfd {
    match b.archive case None => b case Some(a) => Root(a)
  }

  /** Where a member's contents start in the outermost archive. */
  function OriginSum(b: Bfd): nat {
    match b.archive case None => 0 case Some(a) => b.origin + OriginSum(a)
  }

  function MoveToFront(r: seq<Bfd>, b: Bfd): seq<Bfd> {
    if b in r then [b] + Without(r, IndexOf(r, b)) else r
  }

  // ---------- Transfers and positioning ----------

  /** fread at offset p: at most n bytes, none past the end. */
  function FileRead(c: seq<Byte>, p: nat, n: nat): seq<Byte> {
    c[Min(p, |c|)..Min(p + n, |c|)]
  }

  lemma ReadInChunks(c: seq<Byte>, p: nat, data: seq<Byte>, more: seq<Byte>, chunk: nat, n: nat)
    requires data == FileRead(c, p, |data|) && more == FileRead(c, p + |data|, chunk) && |data| + chunk <= n
    ensures |more| <= chunk && data + more == FileRead(c, p, if |more| < chunk then n else |data + more|)
  {
  }

  /** fwrite at offset p: a hole before p reads as zeros. */
  function FileWrite(c: seq<Byte>, p: nat, data: seq<Byte>): seq<Byte> {
    if data == [] then c
    else
      var padded := c + seq(if p > |c| then p - |c| else 0, _ => 0);
      padded[..p] + data + c[Min(p + |data|, |c|)..]
  }

  /** bfd_bread does not read past the end of an archive member; where is an unsigned 64-bit offset. */
  function ClipSize(where: int, n: nat, max: nat): nat {
    var u := where % WORD64;
    if (u + n) % WORD64 > max then (if u >= max then 0 else max - u) else n
  }

  function ReadSize(b: Bfd, where: int, n: nat): nat {
    if b.archive.Some? then ClipSize(where, n, b.eltSize) else n
  }

  // ---------- The invariant ----------

  /** The files on r that may not be closed. */
  ghost function Pinned(r: seq<Bfd>, st: States): set<Bfd> {
    set b | b in r && !Cacheable(b, st)
  }

  /** The bound on open files: the limit, unless files that may not be closed already exceed it. */
  ghost predicate Bounded(s: State) {
    |s.ring| <= Max(MAX_OPEN, |Pinned(s.ring, s.st)| + 1)
  }

  /** What holds of one registered BFD, whatever happened to the cache. */
  ghost predicate Good(b: Bfd, s: State)
    requires b in s.st
  {
    var t := s.st[b];
    if b.archive.Some? then
      && b.archive.value in s.st && b.archive.value.isArchive && s.st[b.archive.value].iovec == CacheIovec
      && t.iovec == CacheIovec && t.iostream == NoStream && b !in s.ring
    else
      && (t.iostream.Stream? <==> b in s.ring)
      && (t.iostream.Stream? ==> t.iovec == CacheIovec)
      && (t.iostream.NoStream? ==> t.where >= 0)
      && (t.iovec == CacheIovec ==> b.filename in s.disk && (b.direction.Writable() ==> t.openedOnce))
  }

  /** The ring holds registered files, each once, within the bound; a BFD has a stream iff it is there. */
  ghost predicate Sound(s: State) {
    && NoDup(s.ring) && (forall b :: b in s.ring ==> b in s.st)
    && Bounded(s)
    && forall b {:trigger Good(b, s)} :: b in s.st ==> Good(b, s)
  }

  ghost predicate Streaming(s: State) {
    forall b :: b in s.ring ==> b in s.st && s.st[b].iostream.Stream?
  }

  lemma SoundStreams(s: State)
    requires Sound(s)
    ensures Streaming(s)
  {
    forall b | b in s.ring
      ensures b in s.st && s.st[b].iostream.Stream?
    {
      assert Good(b, s);
    }
  }

  /** Nothing the rest of the library can see has changed, except for the BFDs of x. */
  ghost predicate SameView(st: States, st': States, x: set<Bfd>) {
    && st'.Keys == st.Keys
    && forall b :: b in st && b !in x ==>
         && st'[b].Logical() == st[b].Logical()
         && (st'[b].where == st[b].where || st'[b].where == st[b].Logical())
         && st'[b].iovec == st[b].iovec
  }

  lemma SameViewTrans(st: States, st1: States, st2: States, x: set<Bfd>)
    requires SameView(st, st1, {}) && SameView(st1, st2, x)
    ensures SameView(st, st2, x)
  {
  }

  lemma EvictKeeps(s: State)
    requires Sound(s)
    ensures Sound(Evict(s)) && SameView(s.st, Evict(s).st, {})
    ensures Pinned(Evict(s).ring, Evict(s).st) == Pinned(s.ring, s.st)
    ensures forall b :: b in s.st && b !in s.ring ==> Evict(s).st[b] == s.st[b] && b !in Evict(s).ring
  {
    var k, s' := Victim(s.ring, s.st), Evict(s);
    if k >= 0 {
      WithoutMembers(s.ring, k);
      assert Good(s.ring[k], s);
      assert Pinned(s'.ring, s'.st) == Pinned(s.ring, s.st);
      forall b | b in s'.st
        ensures Good(b, s')
      {
        assert Good(b, s);
      }
    }
  }

  /** Every cacheable file on the ring is one file fewer that is pinned. */
  lemma TwoCacheable(s: State, c: Bfd, d: Bfd)
    requires NoDup(s.ring) && c in s.ring && d in s.ring && c != d && Cacheable(c, s.st) && Cacheable(d, s.st)
    ensures |Pinned(s.ring, s.st)| + 2 <= |s.ring|
  {
    CardinalityOf(s.ring);
    TwoLess(Pinned(s.ring, s.st), (set b | b in s.ring), c, d);
  }

  lemma TwoLess(some: set<Bfd>, all: set<Bfd>, c: Bfd, d: Bfd)
    requires c != d && c in all && d in all && some <= all - {c} - {d}
    ensures |some| + 2 <= |all|
  {
    assert |all - {c} - {d}| == |all| - 2;
    SubsetCardinality(some, all - {c} - {d});
  }

  /** With the limit reached and nothing left to close, every open file is pinned. */
  lemma AllPinned(s: State)
    requires NoDup(s.ring) && Victim(s.ring, s.st) < 0
    ensures |Pinned(s.ring, s.st)| == |s.ring|
  {
    CardinalityOf(s.ring);
    assert Pinned(s.ring, s.st) == set b | b in s.ring;
  }

  /** One more file may be opened without closing another one. */
  ghost predicate HasRoom(s: State) {
    !Evicts(s) && |s.ring| < Max(MAX_OPEN, |Pinned(s.ring, s.st)| + 1)
  }

  /** Making room leaves room, and a second check then finds nothing it may close. */
  lemma RoomKeeps(s: State)
    requires Sound(s)
    ensures Sound(MakeRoom(s)) && SameView(s.st, MakeRoom(s).st, {}) && HasRoom(MakeRoom(s))
    ensures forall b :: b in s.st && b !in s.ring ==> MakeRoom(s).st[b] == s.st[b] && b !in MakeRoom(s).ring
  {
    var s1, k := MakeRoom(s), Victim(s.ring, s.st);
    EvictKeeps(s);
    if |s.ring| >= MAX_OPEN {
      if k < 0 {
        AllPinned(s);
      } else {
        WithoutMembers(s.ring, k);
        if Evicts(s1) {
          TwoCacheable(s, s.ring[k], s1.ring[Victim(s1.ring, s1.st)]);
        }
      }
    }
  }

  /** Who is evicted depends on the files of the ring only. */
  lemma {:induction false} VictimFrame(r: seq<Bfd>, st: States, st': States)
    requires forall b :: b in r ==> Cacheable(b, st) == Cacheable(b, st')
    ensures Victim(r, st) == Victim(r, st')
  {
    if r != [] && !Cacheable(r[|r| - 1], st) {
      VictimFrame(r[..|r| - 1], st, st');
    }
  }

  /** A closed file may be marked cacheable at any time. */
  lemma MarkKeeps(s: State, b: Bfd)
    requires Sound(s) && b in s.st && b !in s.ring
    ensures var s0 := Marked(s, b);
      Sound(s0) && SameView(s.st, s0.st, {}) && Evicts(s0) == Evicts(s) && MakeRoom(s0).ring == MakeRoom(s).ring
  {
    var s0 := Marked(s, b);
    VictimFrame(s.ring, s.st, s0.st);
    assert Pinned(s0.ring, s0.st) == Pinned(s.ring, s.st);
    forall c | c in s0.st
      ensures Good(c, s0)
    {
      assert Good(c, s);
    }
  }

  /** The state in which bfd_open_file calls fopen. */
  lemma RoomFor(s: State, b: Bfd) returns (s1: State)
    requires Sound(s) && b in s.st && b.archive.None? && s.st[b].iostream.NoStream?
    ensures Streaming(Marked(s, b)) && s1 == MakeRoom(Marked(s, b)) && Evicts(Marked(s, b)) == Evicts(s)
    ensures Sound(s1) && HasRoom(s1) && SameView(s.st, s1.st, {}) && s1.ring == MakeRoom(s).ring
    ensures b !in s1.ring && s1.st[b] == s.st[b].(cacheable := true)
  {
    assert Good(b, s);
    s1 := MakeRoom(Marked(s, b));
    MarkKeeps(s, b);
    RoomKeeps(Marked(s, b));
    SoundStreams(Marked(s, b));
    SameViewTrans(s.st, Marked(s, b).st, s1.st, {});
  }

  /** Putting a file whose stream was just opened at the front of a ring that has room for it. */
  lemma InsertKeeps(s: State, s2: State, b: Bfd)
    requires Sound(s) && b in s.st && b !in s.ring && b.archive.None?
    requires s2.ring == s.ring && OnlyChanges(s.st, s2.st, b)
    requires s.disk.Keys <= s2.disk.Keys
    requires s2.st[b].iostream.Stream? && b.filename in s2.disk && (b.direction.Writable() ==> s2.st[b].openedOnce)
    requires |s.ring| < Max(MAX_OPEN, |Pinned(s.ring, s.st)| + 1)
    ensures Sound(Inserted(s2, b))
  {
    var s' := Inserted(s2, b);
    SubsetCardinality(Pinned(s.ring, s.st), Pinned(s'.ring, s'.st));
    forall c | c in s'.st
      ensures Good(c, s')
    {
      assert Good(c, s);
    }
  }

  ghost predicate OnlyChanges(st: States, st': States, b: Bfd) {
    st'.Keys == st.Keys && forall c :: c in st && c != b ==> st'[c] == st[c]
  }

  /** Whether opening b finds, or creates, a file. */
  predicate Exists(disk: Disk, b: Bfd) {
    b.filename in disk || b.direction.Writable()
  }

  /** The file system after opening b: a file opened for writing for the first time is created empty. */
  function AfterFopen(b: Bfd, openedOnce: bool, disk: Disk): Disk {
    if b.filename in disk && (openedOnce || !b.direction.Writable()) then disk else disk[b.filename := []]
  }

  /** s' is s with the stream of b opened at offset p; no other BFD is disturbed. */
  ghost predicate OpenedAt(s: State, s': State, b: Bfd, p: nat) {
    && b in s.st && SameView(s.st, s'.st, {b})
    && s'.st[b] == BfdState(CacheIovec, s.st[b].openedOnce || b.direction.Writable(), s'.st[b].cacheable,
      Stream(p), s.st[b].where)
    && s'.disk == AfterFopen(b, s.st[b].openedOnce, s.disk)
  }

  /** A stream just opened on a ring that has room: the check in bfd_cache_init closes nothing. */
  lemma FopenKeeps(s: State, s2: State, b: Bfd)
    requires Sound(s) && HasRoom(s) && b in s.st && b !in s.ring && b.archive.None?
    requires s2.ring == s.ring && OnlyChanges(s.st, s2.st, b)
    requires s.disk.Keys <= s2.disk.Keys
    requires s2.st[b].iostream.Stream? && b.filename in s2.disk && (b.direction.Writable() ==> s2.st[b].openedOnce)
    ensures !Evicts(s2) && MakeRoom(s2) == s2 && Sound(Inserted(s2, b)) && SameView(s.st, Inserted(s2, b).st, {b})
  {
    VictimFrame(s.ring, s.st, s2.st);
    InsertKeeps(s, s2, b);
  }

  // ---------- Lookup ----------

  /** b has been opened, and so has the archive whose stream it uses. */
  ghost predicate Ready(s: State, b: Bfd) {
    b in s.st && s.st[b].iovec == CacheIovec
  }

  lemma {:induction false} RootReady(s: State, b: Bfd)
    requires Sound(s) && Ready(s, b)
    ensures Ready(s, Root(b)) && Root(b).archive.None? && Root(b).filename in s.disk && s.st[Root(b)].Logical() >= 0
    ensures if b.archive.None? then Root(b) == b else Root(b).isArchive && s.st[b].iostream == NoStream
  {
    assert Good(b, s);
    if b.archive.Some? {
      RootReady(s, b.archive.value);
    }
  }

  /** s' is s with the stream of r at the front of the ring and at offset p; no other BFD is disturbed. */
  ghost predicate Found(s: State, s': State, r: Bfd, p: nat) {
    && r in s.st && SameView(s.st, s'.st, {r}) && s'.ring != [] && s'.ring[0] == r && s'.disk == s.disk
    && s'.st[r] == s.st[r].(cacheable := s'.st[r].cacheable, iostream := Stream(p))
  }

  /** Where a lookup leaves the stream: where it was, unless it was closed and need not be positioned. */
  ghost function StartsAt(s: State, r: Bfd, flag: CacheFlag): nat
    requires r in s.st
  {
    if s.st[r].iostream.Stream? then s.st[r].iostream.pos
    else if flag.NoSeek? || s.st[r].where < 0 then 0 else s.st[r].where
  }

  lemma FoundTrans(s: State, s1: State, s2: State, r: Bfd, p: nat, q: nat)
    requires Found(s, s1, r, p) && Found(s1, s2, r, q)
    ensures Found(s, s2, r, q)
  {
  }

  /** An access that has to close another file before it can reopen its own, so that fclose may fail. */
  ghost predicate MayFault(s: State, b: Bfd) {
    Root(b) in s.st && s.st[Root(b)].iostream.NoStream? && Evicts(s)
  }

  /** Such an access failed: another file was closed, but nothing the rest of the library sees has changed. */
  ghost predicate Faulted(s: State, s': State, b: Bfd) {
    MayFault(s, b) && SameView(s.st, s'.st, {}) && s'.disk == s.disk
  }

  /** A lookup as a whole: the stream is found, or it was closed and stays so. */
  ghost predicate LookedUp(s: State, s': State, b: Bfd, flag: CacheFlag, ok: bool) {
    && Root(b) in s.st
    && if ok then Found(s, s', Root(b), StartsAt(s, Root(b), flag)) && (flag.NoOpen? ==> s.st[Root(b)].iostream.Stream?)
       else
         && s.st[Root(b)].iostream.NoStream? && s'.st.Keys == s.st.Keys && s'.st[Root(b)].iostream.NoStream?
         && if flag.NoOpen? then s' == s else Faulted(s, s', b)
  }

  /** fread, fwrite and fseek on the stream that a lookup found. */
  function Seeked(s: State, r: Bfd, q: nat): State
    requires r in s.st
  {
    s.(st := s.st[r := s.st[r].(iostream := Stream(q))])
  }

  lemma SeekedFound(s: State, s1: State, r: Bfd, p: nat, q: nat)
    requires Found(s, s1, r, p) && Sound(s1)
    ensures Found(s, Seeked(s1, r, q), r, q) && Sound(Seeked(s1, r, q))
  {
    MoveKeeps(s1, r, s1.st[r].(iostream := Stream(q)));
  }

  lemma FrontKeeps(s: State, b: Bfd)
    requires Sound(s) && b in s.ring
    ensures Sound(s.(ring := MoveToFront(s.ring, b)))
  {
    var k := IndexOf(s.ring, b);
    var s' := s.(ring := MoveToFront(s.ring, b));
    WithoutMembers(s.ring, k);
    assert Pinned(s'.ring, s'.st) == Pinned(s.ring, s.st);
    forall c | c in s'.st
      ensures Good(c, s')
    {
      assert Good(c, s);
    }
  }

  /** Moving an offset touches neither the bound nor any other BFD. */
  lemma MoveKeeps(s: State, b: Bfd, t: BfdState)
    requires Sound(s) && b in s.st
    requires t == s.st[b].(iostream := t.iostream, where := t.where) &&
      (t.iostream.Stream? <==> s.st[b].iostream.Stream?)
    requires t.iostream.Stream? || b.archive.Some? || t.where >= 0
    ensures Sound(s.(st := s.st[b := t]))
  {
    var s' := s.(st := s.st[b := t]);
    assert Pinned(s'.ring, s'.st) == Pinned(s.ring, s.st);
    forall c | c in s'.st
      ensures Good(c, s')
    {
      assert Good(c, s);
    }
  }

  /** s' is s after reading data from the stream of b's archive, as one read of n bytes would. */
  ghost predicate HasRead(s: State, s': State, b: Bfd, n: nat, data: seq<Byte>) {
    var r := Root(b);
    && r in s.st && r.filename in s.disk && s.st[r].Logical() >= 0
    && data == FileRead(s.disk[r.filename], s.st[r].Logical(), n)
    && Found(s, s', r, s.st[r].Logical() + |data|)
  }

  /** Two reads in a row; the second comes up short only at the end of the file. */
  lemma HasReadMore(s: State, s1: State, s2: State, b: Bfd, data: seq<Byte>, more: seq<Byte>, chunk: nat, n: nat)
    requires HasRead(s, s1, b, |data|, data) && HasRead(s1, s2, b, chunk, more) && |data| + chunk <= n
    ensures |more| <= chunk && HasRead(s, s2, b, if |more| < chunk then n else |data + more|, data + more)
  {
    var r := Root(b);
    var p := s.st[r].Logical();
    FoundTrans(s, s1, s2, r, p + |data|, p + |data| + |more|);
    ReadInChunks(s.disk[r.filename], p, data, more, chunk, n);
  }

  // ---------- Transparency ----------

  /** The file system and every BFD's position, as a library that never closes a file would have them. */
  datatype World = World(disk: Disk, pos: map<Bfd, int>)

  function Positions(st: States): map<Bfd, int> {
    map b | b in st :: st[b].Logical()
  }

  function View(s: State): World {
    World(s.disk, Positions(s.st))
  }

  /** Every BFD has been opened, and a file that is not an archive always knows where its stream is. */
  ghost predicate Synced(st: States) {
    forall b {:trigger InSync(b, st)} :: b in st ==> st[b].iovec == CacheIovec && InSync(b, st)
  }

  ghost predicate InSync(b: Bfd, st: States)
    requires b in st
  {
    b.archive.None? && !b.isArchive ==> st[b].where == st[b].Logical()
  }

  /** The stream of b's archive at offset q; a member's own position is w. */
  function Shift(pos: map<Bfd, int>, b: Bfd, q: int, w: int): map<Bfd, int> {
    if b == Root(b) then pos[b := q] else pos[Root(b) := q][b := w]
  }

  function SetWhere(st: States, b: Bfd, w: int): States
    requires b in st
  {
    st[b := st[b].(where := w)]
  }

  /** Bookkeeping after a transfer or a seek: the stream is at q, and b's where becomes w. */
  lemma SetWhereView(st: States, st1: States, b: Bfd, q: nat, w: int)
    requires b in st && Root(b) in st && SameView(st, st1, {Root(b)}) && st1[Root(b)].iostream == Stream(q)
    requires b != Root(b) ==> st1[b].iostream.NoStream?
    ensures Positions(SetWhere(st1, b, w)) == Shift(Positions(st), b, q, w)
  {
    var st', pos := SetWhere(st1, b, w), Shift(Positions(st), b, q, w);
    forall c | c in st
      ensures c in st' && c in pos && st'[c].Logical() == pos[c]
    {
      assert c != Root(b) ==> st1[c].Logical() == st[c].Logical();
    }
    assert st'.Keys == st.Keys == pos.Keys;
  }

  lemma SetWhereSynced(st: States, st1: States, b: Bfd, q: nat, w: int)
    requires b in st && Root(b) in st && Synced(st) && SameView(st, st1, {Root(b)}) &&
      st1[Root(b)].iostream == Stream(q)
    requires st1[Root(b)].iovec == CacheIovec && if b.archive.None? then b.isArchive || w == q else Root(b).isArchive
    ensures Synced(SetWhere(st1, b, w))
  {
    forall c | c in st
      ensures SetWhere(st1, b, w)[c].iovec == CacheIovec && InSync(c, SetWhere(st1, b, w))
    {
      assert InSync(c, st);
    }
  }

  /** A transfer of k bytes moves the stream and b's own position by k. */
  lemma AdvanceView(st: States, st1: States, b: Bfd, p: nat, k: nat, w: int)
    requires b in st && Root(b) in st && SameView(st, st1, {Root(b)}) && st1[Root(b)].iostream == Stream(p + k)
    requires p == st[Root(b)].Logical() && (b != Root(b) ==> st[b].iostream.NoStream? && st1[b].iostream.NoStream?)
    requires w == st[b].where + k
    ensures var pos := Positions(st); Positions(SetWhere(st1, b, w)) == Shift(pos, b, pos[Root(b)] + k, pos[b] + k)
  {
    SetWhereView(st, st1, b, p + k, w);
  }

  predicate Placed(w: World, b: Bfd) {
    b in w.pos && Root(b) in w.pos && w.pos[Root(b)] >= 0 && Root(b).filename in w.disk
  }

  lemma ReadyPlaced(s: State, b: Bfd)
    requires Sound(s) && Ready(s, b)
    ensures Placed(View(s), b) && (b.archive.Some? ==> View(s).pos[b] == s.st[b].where)
  {
    RootReady(s, b);
  }

  /** The where that is set after a transfer or a seek keeps the invariant. */
  lemma SetWhereKeeps(s: State, s1: State, b: Bfd, q: nat, w: int) returns (s2: State)
    requires Ready(s, b) && Sound(s) && Sound(s1) && Found(s, s1, Root(b), q)
    ensures b in s1.st && s1.st[b].where == s.st[b].where && s2 == s1.(st := SetWhere(s1.st, b, w)) && Sound(s2)
    ensures b != Root(b) ==> s.st[b].iostream.NoStream? && s1.st[b].iostream.NoStream?
  {
    RootReady(s, b);
    assert Good(b, s1) && Good(b, s);
    s2 := s1.(st := SetWhere(s1.st, b, w));
    MoveKeeps(s1, b, s2.st[b]);
  }

  /** The positions after a transfer of k bytes. */
  function Advance(w: World, b: Bfd, k: nat): World
    requires Placed(w, b)
  {
    w.(pos := Shift(w.pos, b, w.pos[Root(b)] + k, w.pos[b] + k))
  }

  /** Bookkeeping after a transfer of k bytes. */
  lemma AdvanceKeeps(s: State, s1: State, b: Bfd, p: nat, k: nat, w: int) returns (s2: State)
    requires Ready(s, b) && Sound(s) && Synced(s.st) && Sound(s1) && Found(s, s1, Root(b), p + k) &&
      p == s.st[Root(b)].Logical()
    requires b in s1.st && w == s1.st[b].where + k
    ensures s2 == s1.(st := SetWhere(s1.st, b, w)) && Sound(s2) && Synced(s2.st)
    ensures Placed(View(s), b) && View(s2) == Advance(View(s), b, k)
  {
    assert InSync(b, s.st);
    RootReady(s, b);
    ReadyPlaced(s, b);
    s2 := SetWhereKeeps(s, s1, b, p + k, w);
    SetWhereSynced(s.st, s1.st, b, p + k, w);
    AdvanceView(s.st, s1.st, b, p, k, w);
  }

  /** What a read transfers when the stream is always open: a slice of the file at the stream's offset. */
  function IdealBytes(w: World, b: Bfd, n: nat): seq<Byte>
    requires Placed(w, b)
  {
    FileRead(w.disk[Root(b).filename], w.pos[Root(b)], ReadSize(b, w.pos[b], n))
  }

  lemma EmptyAdvance(s: State, b: Bfd)
    requires Placed(View(s), b)
    ensures Advance(View(s), b, 0) == View(s)
  {
    assert Advance(View(s), b, 0).pos == View(s).pos;
  }

  lemma SameSize(s: State, b: Bfd, n: nat)
    requires Sound(s) && Ready(s, b)
    ensures Placed(View(s), b) && ReadSize(b, View(s).pos[b], n) == ReadSize(b, s.st[b].where, n)
  {
    ReadyPlaced(s, b);
  }

  lemma HasReadIsIdeal(s: State, s1: State, b: Bfd, n: nat, size: nat, data: seq<Byte>, w: int) returns (s2: State)
    requires Ready(s, b) && Sound(s) && Synced(s.st) && Sound(s1) && HasRead(s, s1, b, size, data)
    requires size == ReadSize(b, s.st[b].where, n) && b in s1.st && w == s1.st[b].where + |data|
    ensures s2 == s1.(st := SetWhere(s1.st, b, w)) && Sound(s2) && Synced(s2.st)
    ensures Placed(View(s), b) && data == IdealBytes(View(s), b, n) && View(s2) == Advance(View(s), b, |data|)
  {
    RootReady(s, b);
    SameSize(s, b, n);
    s2 := AdvanceKeeps(s, s1, b, s.st[Root(b)].Logical(), |data|, w);
  }

  lemma SetWhereSame(s: State, b: Bfd)
    requires b in s.st
    ensures s.(st := SetWhere(s.st, b, s.st[b].where)) == s
  {
    assert SetWhere(s.st, b, s.st[b].where) == s.st;
  }

  lemma SyncedKeeps(st: States, st1: States)
    requires SameView(st, st1, {})
    ensures Synced(st) ==> Synced(st1)
  {
    if Synced(st) {
      forall c | c in st1
        ensures st1[c].iovec == CacheIovec && InSync(c, st1)
      {
        assert InSync(c, st);
      }
    }
  }

  lemma FaultView(s: State, s': State, b: Bfd)
    requires Faulted(s, s', b)
    ensures View(s') == View(s) && (Synced(s.st) ==> Synced(s'.st))
  {
    assert Positions(s'.st) == Positions(s.st);
    SyncedKeeps(s.st, s'.st);
  }

  /** A read as a whole: a fault that is not seen, nothing to read, or the transfer of a slice. */
  ghost predicate ReadOutcome(s: State, s2: State, b: Bfd, n: nat, data: seq<Byte>, fault: bool) {
    && Sound(s2) && Synced(s2.st) && Placed(View(s), b)
    && if fault then data == [] && MayFault(s, b) && View(s2) == View(s)
       else data == IdealBytes(View(s), b, n) && View(s2) == Advance(View(s), b, |data|)
  }

  lemma ReadIsIdeal(s: State, s1: State, b: Bfd, n: nat, size: nat, data: seq<Byte>, fault: bool, w: int)
    returns (s2: State)
    requires Ready(s, b) && Sound(s) && Synced(s.st) && Sound(s1) && size == ReadSize(b, s.st[b].where, n)
    requires size == 0 ==> data == [] && s1 == s && !fault
    requires size > 0 ==> if fault then data == [] && Faulted(s, s1, b) else HasRead(s, s1, b, size, data)
    requires b in s1.st && w == s1.st[b].where + |data|
    ensures s2 == s1.(st := SetWhere(s1.st, b, w)) && ReadOutcome(s, s2, b, n, data, fault)
  {
    ReadyPlaced(s, b);
    if size == 0 {
      SameSize(s, b, n);
      SetWhereSame(s1, b);
      EmptyAdvance(s, b);
      s2 := s1;
    } else if fault {
      SetWhereSame(s1, b);
      FaultView(s, s1, b);
      s2 := s1;
    } else {
      s2 := HasReadIsIdeal(s, s1, b, n, size, data, w);
    }
  }

  // Writing.

  lemma DiskKeeps(s: State, disk: Disk)
    requires Sound(s) && s.disk.Keys <= disk.Keys
    ensures Sound(s.(disk := disk))
  {
    var s' := s.(disk := disk);
    forall b | b in s'.st
      ensures Good(b, s')
    {
      assert Good(b, s);
    }
  }

  /** A lookup that changes nothing else cannot be seen. */
  lemma FoundView(s: State, s1: State, r: Bfd, p: nat)
    requires Found(s, s1, r, p) && p == s.st[r].Logical()
    ensures View(s1) == View(s) && (Synced(s.st) ==> Synced(s1.st))
  {
    assert Positions(s1.st) == Positions(s.st);
    SyncedKeeps(s.st, s1.st);
  }

  function IdealWrite(w: World, b: Bfd, data: seq<Byte>): World
    requires Placed(w, b)
  {
    var f := Root(b).filename;
    Advance(w, b, |data|).(disk := w.disk[f := FileWrite(w.disk[f], w.pos[Root(b)], data)])
  }

  /** A write as a whole: a fault that is not seen, a stream that is not open for writing, or the transfer. */
  ghost predicate WriteOutcome(s: State, s2: State, b: Bfd, data: seq<Byte>, ret: int, fault: bool) {
    && Sound(s2) && Synced(s2.st) && Placed(View(s), b)
    && if fault then ret == 0 && MayFault(s, b) && View(s2) == View(s)
       else if !Root(b).direction.Writable() then ret == (if data == [] then 0 else -1) && View(s2) == View(s)
       else ret == |data| && View(s2) == IdealWrite(View(s), b, data)
  }

  lemma WriteIsIdeal(s: State, s1: State, b: Bfd, data: seq<Byte>, p: nat, w: int, disk: Disk) returns (s2: State)
    requires Ready(s, b) && Sound(s) && Synced(s.st) && Sound(s1) && Found(s, s1, Root(b), p + |data|) &&
      p == s.st[Root(b)].Logical()
    requires b in s1.st && w == s1.st[b].where + |data| && Root(b).filename in s.disk && Root(b).direction.Writable()
    requires disk == s.disk[Root(b).filename := FileWrite(s.disk[Root(b).filename], p, data)]
    ensures s2 == State(s1.ring, SetWhere(s1.st, b, w), disk) && WriteOutcome(s, s2, b, data, |data|, false)
  {
    var s3 := AdvanceKeeps(s, s1, b, p, |data|, w);
    s2 := s3.(disk := disk);
    DiskKeeps(s3, disk);
  }

  // Telling and seeking.

  /** As Synced, leaving out b, whose where is about to be set. */
  ghost predicate SyncedBut(st: States, b: Bfd) {
    forall c {:trigger InSync(c, st)} :: c in st ==> st[c].iovec == CacheIovec && (c != b ==> InSync(c, st))
  }

  lemma SyncedIsBut(st: States, b: Bfd)
    requires Synced(st)
    ensures SyncedBut(st, b)
  {
    forall c | c in st
      ensures st[c].iovec == CacheIovec && InSync(c, st)
    {
      assert InSync(c, st);
    }
  }

  /** What bfd_tell leaves behind: a member's own position becomes the one told. */
  function Told(pos: map<Bfd, int>, b: Bfd, ptr: int): map<Bfd, int> {
    if b.archive.None? then pos else pos[b := ptr]
  }

  /** The file offset that bfd_tell starts from: a member of an archive that is closed uses its own where. */
  function TellFrom(s: State, b: Bfd): int
    requires b in s.st && Root(b) in s.st
  {
    if s.st[Root(b)].iostream.Stream? then s.st[Root(b)].iostream.pos else s.st[b].where
  }

  ghost predicate TellOutcome(s: State, s2: State, b: Bfd, ptr: int) {
    && Sound(s2) && Synced(s2.st) && Ready(s2, b) && b in s.st && Root(b) in s.st
    && ptr == TellFrom(s, b) - OriginSum(b) && View(s2) == World(s.disk, Told(Positions(s.st), b, ptr))
  }

  lemma TellView(st: States, st1: States, b: Bfd, ptr: int)
    requires b in st && SameView(st, st1, {}) && SyncedBut(st, b)
    requires if b.archive.None? then ptr == st[b].Logical() else st1[b].iostream.NoStream?
    ensures Positions(SetWhere(st1, b, ptr)) == Told(Positions(st), b, ptr) && Synced(SetWhere(st1, b, ptr))
  {
    var st', pos := SetWhere(st1, b, ptr), Told(Positions(st), b, ptr);
    forall c | c in st
      ensures c in st' && c in pos && st'[c].Logical() == pos[c]
    {
      assert st1[c].Logical() == st[c].Logical();
    }
    assert st'.Keys == st.Keys == pos.Keys;
    forall c | c in st
      ensures st'[c].iovec == CacheIovec && InSync(c, st')
    {
      assert c != b ==> InSync(c, st);
    }
  }

  lemma TellIs(s: State, s1: State, b: Bfd, ptr: int) returns (s2: State)
    requires Sound(s) && SyncedBut(s.st, b) && Ready(s, b) && Root(b) in s.st
    requires Sound(s1) && SameView(s.st, s1.st, {}) && s1.disk == s.disk && ptr == TellFrom(s, b) - OriginSum(b)
    ensures b in s1.st && s2 == s1.(st := SetWhere(s1.st, b, ptr)) && TellOutcome(s, s2, b, ptr)
  {
    RootReady(s, b);
    assert Good(b, s1) && Good(b, s);
    s2 := s1.(st := SetWhere(s1.st, b, ptr));
    MoveKeeps(s1, b, s2.st[b]);
    TellView(s.st, s1.st, b, ptr);
  }

  lemma FoundSame(s: State, s1: State, r: Bfd, p: nat)
    requires Found(s, s1, r, p) && p == s.st[r].Logical()
    ensures SameView(s.st, s1.st, {})
  {
  }

  function SeekFlag(whence: Whence): CacheFlag {
    if whence.SeekCur? then Normal else NoSeek
  }

  /** cache_bseek: with SEEK_SET the stream is reopened at 0 before it is positioned. */
  ghost predicate Sought(s: State, s1: State, b: Bfd, offset: int, whence: Whence, result: int, fault: bool) {
    && Sound(s1) && Ready(s1, b) && Root(b) in s.st
    && if fault then result == -1 && Faulted(s, s1, b) && s1.st[Root(b)].iostream.NoStream?
       else
         var from := StartsAt(s, Root(b), SeekFlag(whence));
         var target := if whence.SeekSet? then offset else from + offset;
         if target < 0 then result == -1 && Found(s, s1, Root(b), from)
         else result == 0 && Found(s, s1, Root(b), target)
  }

  /** The offset in the outermost file that a seek asks for. */
  function SeekTarget(w: World, b: Bfd, position: int, whence: Whence): int
    requires Placed(w, b)
  {
    if whence.SeekSet? then position + OriginSum(b) else w.pos[Root(b)] + position
  }

  /** A seek on a stream that is always open; one to a negative offset fails and tells the position again. */
  function IdealSeek(w: World, b: Bfd, position: int, whence: Whence): World
    requires Placed(w, b)
  {
    var target := SeekTarget(w, b, position, whence);
    if target >= 0 then w.(pos := Shift(w.pos, b, target, if whence.SeekSet? then position else w.pos[b] + position))
    else w.(pos := Told(w.pos, b, w.pos[Root(b)] - OriginSum(b)))
  }

  /** The one way in which a closed stream shows: a failing SEEK_SET reopens it at 0 and leaves it there. */
  function Rewound(w: World, b: Bfd): World
    requires Placed(w, b)
  {
    w.(pos := w.pos[Root(b) := 0])
  }

  ghost predicate SeekView(w: World, w2: World, closed: bool, b: Bfd, position: int, whence: Whence, result: int)
    requires Placed(w, b)
  {
    var target := SeekTarget(w, b, position, whence);
    && result == (if target < 0 then -1 else 0)
    && w2 == IdealSeek(if target < 0 && closed && whence.SeekSet? then Rewound(w, b) else w, b, position, whence)
  }

  /** bfd_seek as a whole. */
  ghost predicate SeekOutcome(s: State, s2: State, b: Bfd, position: int, whence: Whence, result: int, fault: bool) {
    && Sound(s2) && Synced(s2.st) && Placed(View(s), b) && Root(b) in s.st
    && (result == 0 && whence.SeekSet? ==>
          Root(b) in s2.st && (s2.st[Root(b)].iostream.Stream? || (b.archive.None? && s2 == s)))
    && if fault then result == -1 && MayFault(s, b) && View(s2) == FaultedTell(View(s), b)
       else SeekView(View(s), View(s2), s.st[Root(b)].iostream.NoStream?, b, position, whence, result)
  }

  /** bfd_tell after a seek for which no stream could be had. */
  function FaultedTell(w: World, b: Bfd): World
    requires Placed(w, b)
  {
    w.(pos := Told(w.pos, b, w.pos[b] - OriginSum(b)))
  }

  /** The stream was positioned: bfd_seek records the new position. */
  lemma SeekIs(s: State, s1: State, b: Bfd, q: nat, position: int, whence: Whence, w: int) returns (s2: State)
    requires Sound(s) && Synced(s.st) && Ready(s, b) && Sound(s1) && Found(s, s1, Root(b), q)
    requires q == if whence.SeekSet? then position + OriginSum(b) else s.st[Root(b)].Logical() + position
    requires w == if whence.SeekSet? then position else s.st[b].where + position
    ensures b in s1.st && s2 == s1.(st := SetWhere(s1.st, b, w)) && SeekOutcome(s, s2, b, position, whence, 0, false)
  {
    assert InSync(b, s.st);
    RootReady(s, b);
    ReadyPlaced(s, b);
    s2 := MovedTo(s, s1, b, q, w);
  }

  /** The stream is at q and b's where is w: what the rest of the library sees. */
  lemma MovedTo(s: State, s1: State, b: Bfd, q: nat, w: int) returns (s2: State)
    requires Sound(s) && Synced(s.st) && Ready(s, b) && Sound(s1) && Found(s, s1, Root(b), q)
    requires b.archive.None? && !b.isArchive ==> w == q
    ensures b in s1.st && s2 == s1.(st := SetWhere(s1.st, b, w)) && Sound(s2) && Synced(s2.st) && Ready(s2, b)
    ensures View(s2) == World(s.disk, Shift(Positions(s.st), b, q, w))
  {
    RootReady(s, b);
    s2 := SetWhereKeeps(s, s1, b, q, w);
    SetWhereSynced(s.st, s1.st, b, q, w);
    SetWhereView(s.st, s1.st, b, q, w);
  }

  /** Nothing to do: the seek asks for the current position. */
  lemma SeekIdle(s: State, b: Bfd, position: int, whence: Whence)
    requires Sound(s) && Synced(s.st) && Ready(s, b)
    requires if whence.SeekCur? then position == 0 else !b.isArchive && b.archive.None? && position == s.st[b].where
    ensures SeekOutcome(s, s, b, position, whence, 0, false)
  {
    assert InSync(b, s.st);
    ReadyPlaced(s, b);
    RootReady(s, b);
    EmptyAdvance(s, b);
  }

  /** Where everything is when fseek refuses a negative offset. */
  lemma RefusedView(s: State, s1: State, b: Bfd, r: Bfd, from: nat)
    requires Found(s, s1, r, from) && Synced(s.st) && (b == r || r.isArchive || from == s.st[r].Logical())
    ensures Positions(s1.st) == Positions(s.st)[r := from] && SyncedBut(s1.st, b)
  {
    assert Positions(s1.st).Keys == Positions(s.st)[r := from].Keys;
    forall c | c in s1.st
      ensures s1.st[c].iovec == CacheIovec && (c != b ==> InSync(c, s1.st))
    {
      assert InSync(c, s.st);
    }
  }

  lemma RefusedIs(w: World, b: Bfd, from: nat, closed: bool, position: int, whence: Whence)
    requires Placed(w, b) && from == if closed && whence.SeekSet? then 0 else w.pos[Root(b)]
    requires SeekTarget(w, b, position, whence) < 0
    ensures SeekView(w, World(w.disk, Told(w.pos[Root(b) := from], b, from - OriginSum(b))), closed, b, position,
      whence, -1)
  {
    assert w.pos[Root(b) := w.pos[Root(b)]] == w.pos;
  }

  /** After a seek that failed only b itself may not know where its stream is. */
  lemma BeforeTell(s: State, s1: State, b: Bfd, offset: int, whence: Whence, fault: bool)
    requires Sound(s) && Synced(s.st) && Ready(s, b) && Sought(s, s1, b, offset, whence, -1, fault)
    ensures SyncedBut(s1.st, b)
  {
    RootReady(s, b);
    if fault {
      FaultView(s, s1, b);
      SyncedIsBut(s1.st, b);
    } else {
      RefusedView(s, s1, b, Root(b), StartsAt(s, Root(b), SeekFlag(whence)));
    }
  }

  lemma AfterTell(s: State, s1: State, s2: State, b: Bfd, position: int, offset: int, whence: Whence, fault: bool,
      ptr: int)
    requires Sound(s) && Synced(s.st) && Ready(s, b) && Sought(s, s1, b, offset, whence, -1, fault)
    requires offset == if whence.SeekSet? then position + OriginSum(b) else position
    requires TellOutcome(s1, s2, b, ptr)
    ensures SeekOutcome(s, s2, b, position, whence, -1, fault)
  {
    RootReady(s, b);
    ReadyPlaced(s, b);
    if fault {
      FaultView(s, s1, b);
      ReadyPlaced(s1, b);
    } else {
      AfterRefusal(s, s1, s2, b, StartsAt(s, Root(b), SeekFlag(whence)), position, whence, ptr);
    }
  }

  lemma AfterRefusal(s: State, s1: State, s2: State, b: Bfd, from: nat, position: int, whence: Whence, ptr: int)
    requires Placed(View(s), b) && Root(b) in s.st && from == StartsAt(s, Root(b), SeekFlag(whence))
    requires Synced(s.st) && (b == Root(b) || Root(b).isArchive || from == s.st[Root(b)].Logical())
    requires Found(s, s1, Root(b), from) && TellOutcome(s1, s2, b, ptr)
    requires SeekTarget(View(s), b, position, whence) < 0
    ensures SeekView(View(s), View(s2), s.st[Root(b)].iostream.NoStream?, b, position, whence, -1)
  {
    RefusedView(s, s1, b, Root(b), from);
    RefusedIs(View(s), b, from, s.st[Root(b)].iostream.NoStream?, position, whence);
  }

  lemma {:induction false} RootIsTop(b: Bfd)
    ensures Root(b).archive.None? && (b.archive.Some? ==> Root(b) != b)
  {
    if b.archive.Some? {
      RootIsTop(b.archive.value);
    }
  }

  /**
    A seek behaves as if the stream had never been closed, unless it asks for an offset before the
    start of the file while the stream is closed at some other place than the start.
   */
  lemma SeekTransparent(w: World, w2: World, closed: bool, b: Bfd, position: int, whence: Whence, result: int)
    requires Placed(w, b) && SeekView(w, w2, closed, b, position, whence, result)
    ensures w2 == IdealSeek(w, b, position, whence) <==>
      SeekTarget(w, b, position, whence) >= 0 || whence.SeekCur? || !closed || w.pos[Root(b)] == 0
  {
    RootIsTop(b);
    if w.pos[Root(b)] == 0 {
      assert Rewound(w, b).pos == w.pos;
    }
    if SeekTarget(w, b, position, whence) < 0 && whence.SeekSet? && closed && w.pos[Root(b)] != 0 {
      assert w2.pos[Root(b)] == 0 && IdealSeek(w, b, position, whence).pos[Root(b)] != 0;
    }
  }

  /**
    bfd_tell gives the position in the member, unless the archive's stream is closed: then it
    starts from the member's own position instead of the archive's.
   */
  lemma TellTransparent(s: State, s2: State, b: Bfd, ptr: int)
    requires Sound(s) && Synced(s.st) && b in s.st && TellOutcome(s, s2, b, ptr)
    ensures ptr == View(s).pos[Root(b)] - OriginSum(b) <==>
      b.archive.None? || s.st[Root(b)].iostream.Stream? || View(s).pos[b] == View(s).pos[Root(b)]
  {
    assert InSync(b, s.st);
    RootReady(s, b);
  }

  // Closing.

  function Closed(s: State, b: Bfd): State
    requires b in s.st
  {
    if b !in s.ring then s
    else s.(ring := Without(s.ring, IndexOf(s.ring, b)), st := s.st[b := s.st[b].(iostream := NoStream)])
  }

  /** close_one notes the victim's offset and closes it. */
  lemma EvictIs(s: State, v: Bfd)
    requires NoDup(s.ring) && Streaming(s) && Victim(s.ring, s.st) >= 0 && v == s.ring[Victim(s.ring, s.st)]
    ensures v in s.ring && v in s.st && s.st[v].iostream.Stream?
    ensures Evict(s) == Closed(s.(st := SetWhere(s.st, v, s.st[v].iostream.pos)), v)
  {
    assert IndexOf(s.ring, v) == Victim(s.ring, s.st);
    assert Evict(s).st == Closed(s.(st := SetWhere(s.st, v, s.st[v].iostream.pos)), v).st;
  }

  /** Every stream closed, and where left as it was. */
  function AllClosed(s: State): State {
    State([], map b | b in s.st :: if b in s.ring then s.st[b].(iostream := NoStream) else s.st[b], s.disk)
  }

  lemma CloseFirst(s: State)
    requires NoDup(s.ring) && Streaming(s) && s.ring != []
    ensures var s' := Closed(s, s.ring[0]);
      s'.ring == s.ring[1..] && NoDup(s'.ring) && Streaming(s') && AllClosed(s') == AllClosed(s)
  {
    var b, s' := s.ring[0], Closed(s, s.ring[0]);
    WithoutMembers(s.ring, 0);
    assert s.ring == [b] + s.ring[1..];
    assert s'.ring == s.ring[1..];
    assert AllClosed(s').st == AllClosed(s).st;
  }

  lemma NoneOpen(s: State)
    requires s.ring == []
    ensures AllClosed(s) == s
  {
    assert AllClosed(s).st == s.st;
  }

  /** An open archive through whose stream a member was accessed since its own position was noted. */
  predicate Stale(b: Bfd, st: States) { b in st && b.isArchive && st[b].iostream.Stream? &&
      st[b].iostream.pos != st[b].where }

  /** Closing everything loses no position exactly if no open archive is stale. */
  lemma AllClosedTransparent(s: State)
    requires Sound(s) && Synced(s.st)
    ensures View(AllClosed(s)) == View(s) <==> forall b :: b in s.ring ==> !Stale(b, s.st)
  {
    var s' := AllClosed(s);
    SoundStreams(s);
    forall b | b in s.ring
      ensures s.st[b].where != s.st[b].Logical() <==> Stale(b, s.st)
    {
      assert Good(b, s) && InSync(b, s.st);
    }
    if forall b :: b in s.ring ==> !Stale(b, s.st) {
      assert Positions(s'.st) == Positions(s.st);
    } else {
      var b :| b in s.ring && Stale(b, s.st);
      assert Positions(s'.st)[b] != Positions(s.st)[b];
    }
  }

  /** With nothing but plain files open, closing everything loses nothing and the cache can go on. */
  lemma AllClosedKeeps(s: State)
    requires Sound(s) && Synced(s.st) && forall b :: b in s.ring ==> !b.isArchive
    ensures View(AllClosed(s)) == View(s) && Sound(AllClosed(s)) && Synced(AllClosed(s).st)
  {
    var s' := AllClosed(s);
    forall b | b in s.ring
      ensures s.st[b].where == s.st[b].Logical()
    {
      assert Good(b, s) && InSync(b, s.st);
    }
    AllClosedTransparent(s);
    forall b | b in s'.st
      ensures Good(b, s') && s'.st[b].iovec == CacheIovec && InSync(b, s'.st)
    {
      assert Good(b, s) && InSync(b, s.st);
    }
  }
}
