/**
  Whole runs of the cache: opening, reading, writing, positioning and closing files in any order, as
  seen by a library user, against a library that never closes a file by itself.
 */
module CacheRun {
  import opened Bytes
  import opened Sequences
  import opened CacheModel
  import opened BfdCache
  import opened LruRing

  /** What holds between any two calls. */
  ghost predicate Usable(s: State) {
    Sound(s) && Synced(s.st)
  }

  // ---------- Registering and deleting BFDs ----------

  const FRESH := BfdState(NoIovec, false, false, NoStream, 0)

  /** A member shares its archive's iovec and stream. */
  const FRESH_MEMBER := FRESH.(iovec := CacheIovec)

  function Registered(s: State, b: Bfd, t: BfdState): State {
    s.(st := s.st[b := t])
  }

  lemma RegisterKeeps(s: State, b: Bfd, t: BfdState)
    requires Usable(s) && b !in s.st
    requires if b.archive.None? then t == FRESH else
      t == FRESH_MEMBER && b.archive.value in s.st && b.archive.value.isArchive
    ensures Sound(Registered(s, b, t)) && Evicts(Registered(s, b, t)) == Evicts(s)
    ensures Positions(Registered(s, b, t).st) == Positions(s.st)[b := 0]
  {
    var s' := Registered(s, b, t);
    assert b.archive.Some? ==> InSync(b.archive.value, s.st);
    VictimFrame(s.ring, s.st, s'.st);
    assert Pinned(s'.ring, s'.st) == Pinned(s.ring, s.st);
    forall c | c in s'.st
      ensures Good(c, s')
    {
      assert c != b ==> Good(c, s);
    }
    RegisterPositions(s.st, b, t);
  }

  lemma RegisterPositions(st: States, b: Bfd, t: BfdState)
    requires b !in st && t.Logical() == 0
    ensures Positions(st[b := t]) == Positions(st)[b := 0]
  {
  }

  lemma MemberSynced(s: State, b: Bfd)
    requires Synced(s.st) && b !in s.st && b.archive.Some?
    ensures Synced(Registered(s, b, FRESH_MEMBER).st)
  {
    var st' := Registered(s, b, FRESH_MEMBER).st;
    forall c | c in st'
      ensures st'[c].iovec == CacheIovec && InSync(c, st')
    {
      assert c != b ==> InSync(c, s.st);
    }
  }

  /** A BFD whose stream has just been opened for the first time. */
  lemma OpenedView(s: State, s2: State, b: Bfd)
    requires Synced(s.st) && b !in s.st && b.archive.None? && OpenedAt(Registered(s, b, FRESH), s2, b, 0)
    ensures Synced(s2.st) && View(s2) == World(AfterFopen(b, false, s.disk), Positions(s.st)[b := 0])
  {
    var s1 := Registered(s, b, FRESH);
    forall c | c in s2.st
      ensures s2.st[c].iovec == CacheIovec && InSync(c, s2.st)
    {
      assert c != b ==> InSync(c, s.st);
    }
    assert Positions(s2.st) == Positions(s.st)[b := 0];
  }

  predicate HasMembers(bs: set<Bfd>, b: Bfd) {
    exists c :: c in bs && c.archive == Some(b)
  }

  function Deleted(s: State, b: Bfd): State {
    s.(st := s.st - {b})
  }

  /** A BFD without a stream that no member depends on may be deleted. */
  lemma DeleteKeeps(s: State, b: Bfd)
    requires Sound(s) && b in s.st && b !in s.ring && !HasMembers(s.st.Keys, b)
    ensures Sound(Deleted(s, b)) && Positions(Deleted(s, b).st) == Positions(s.st) - {b}
  {
    var s' := Deleted(s, b);
    assert Pinned(s'.ring, s'.st) == Pinned(s.ring, s.st);
    forall c | c in s'.st
      ensures Good(c, s')
    {
      assert Good(c, s);
    }
  }

  lemma DeleteSynced(st: States, b: Bfd)
    requires b in st && forall c :: c in st && c != b ==> st[c].iovec == CacheIovec && InSync(c, st)
    ensures Synced(st - {b})
  {
    forall c | c in st - {b}
      ensures (st - {b})[c].iovec == CacheIovec && InSync(c, st - {b})
    {
      assert InSync(c, st);
    }
  }

  // ---------- Opening by name or by descriptor ----------

  datatype Mode = ReadMode | UpdateMode | CreateMode

  /** Whether fopen succeeds, and the files it leaves. */
  predicate FopenFinds(disk: Disk, b: Bfd, mode: Mode) {
    mode.CreateMode? || b.filename in disk
  }

  function FopenDisk(disk: Disk, b: Bfd, mode: Mode): Disk {
    if mode.CreateMode? then disk[b.filename := []] else disk
  }

  predicate ModeFits(b: Bfd, mode: Mode) {
    match mode
    case ReadMode => b.direction.ReadDirection?
    case UpdateMode => b.direction.BothDirection?
    case CreateMode => b.direction.Writable()
  }

  function Fopened(s: State, b: Bfd, disk: Disk): State
    requires b in s.st
  {
    State(s.ring, s.st[b := s.st[b].(iostream := Stream(0))], disk)
  }

  function Finished(s: State, b: Bfd, byName: bool): State
    requires b in s.st
  {
    s.(st := s.st[b := s.st[b].(openedOnce := true, cacheable := s.st[b].cacheable || byName)])
  }

  /** A stream that is open but not yet on the ring does not disturb the choice of the victim. */
  lemma RoomBeside(s: State, b: Bfd, disk: Disk)
    requires Streaming(s) && b in s.st && b !in s.ring && s.st[b].iostream.NoStream?
    ensures var s1 := Fopened(s, b, disk);
      && Streaming(s1) && MakeRoom(s1).ring == MakeRoom(s).ring && Evicts(s1) == Evicts(s)
      && OnlyChanges(MakeRoom(s).st, MakeRoom(s1).st, b) && MakeRoom(s1).st[b] == s1.st[b] && MakeRoom(s1).disk == disk
  {
    var s1, k := Fopened(s, b, disk), Victim(s.ring, s.st);
    VictimFrame(s.ring, s.st, s1.st);
    assert k >= 0 ==> s.ring[k] in s.ring;
  }

  /** The state after a BFD was put on the ring is sound. */
  lemma FinishKeeps(s: State, s2: State, b: Bfd, byName: bool)
    requires Sound(s) && HasRoom(s) && b in s.st && b !in s.ring && b.archive.None?
    requires s2.ring == s.ring && OnlyChanges(s.st, s2.st, b) && s.disk.Keys <= s2.disk.Keys
    requires s2.st[b].iostream.Stream? && b.filename in s2.disk
    ensures Sound(Finished(Inserted(s2, b), b, byName))
  {
    var s3 := Finished(s2, b, byName);
    InsertKeeps(s, s3, b);
    FinishInserted(s2, b, byName);
  }

  lemma FinishInserted(s: State, b: Bfd, byName: bool)
    requires b in s.st
    ensures Finished(Inserted(s, b), b, byName) == Inserted(Finished(s, b, byName), b)
  {
    assert Finished(Inserted(s, b), b, byName).st == Inserted(Finished(s, b, byName), b).st;
  }

  /** What the rest of the library sees of a BFD opened by bfd_fopen. */
  lemma FopenView(s: State, s2: State, b: Bfd, disk: Disk, byName: bool)
    requires Synced(s.st) && b !in s.st && b.archive.None?
    requires SameView(Registered(s, b, FRESH).st, s2.st, {b}) && s2.st[b] == FRESH.(iostream := Stream(0)) &&
      s2.disk == disk
    ensures var s3 := Finished(Inserted(s2, b), b, byName);
      Synced(s3.st) && View(s3) == World(disk, Positions(s.st)[b := 0])
  {
    var s3 := Finished(Inserted(s2, b), b, byName);
    forall c | c in s3.st
      ensures s3.st[c].iovec == CacheIovec && InSync(c, s3.st)
    {
      assert c != b ==> InSync(c, s.st);
    }
    assert Positions(s3.st) == Positions(s.st)[b := 0];
  }

  /** bfd_fopen as a whole: it does not exist, another file could not be closed, or it is open at 0. */
  ghost predicate FopenOutcome(s: State, s2: State, b: Bfd, mode: Mode, ok: bool, fault: bool) {
    && Usable(s2) && (fault ==> Evicts(s) && FopenFinds(s.disk, b, mode))
    && ok == (FopenFinds(s.disk, b, mode) && !fault)
    && View(s2) == if ok then World(FopenDisk(s.disk, b, mode), Positions(s.st)[b := 0])
                   else if fault then World(FopenDisk(s.disk, b, mode), Positions(s.st)) else View(s)
  }

  /** The ring has room after bfd_cache_init's check. */
  lemma FopenSucceeds(s: State, b: Bfd, disk: Disk, byName: bool) returns (s3: State)
    requires Usable(s) && b !in s.st && b.archive.None? && s.disk.Keys <= disk.Keys && b.filename in disk
    ensures var s1 := Fopened(Registered(s, b, FRESH), b, disk);
      Streaming(s1) && Evicts(s1) == Evicts(s) && s3 == Finished(Inserted(MakeRoom(s1), b), b, byName)
    ensures Usable(s3) && View(s3) == World(disk, Positions(s.st)[b := 0])
  {
    var s0 := Registered(s, b, FRESH);
    var s1 := MakeRoom(Fopened(s0, b, disk));
    RegisterKeeps(s, b, FRESH);
    FopenRoom(s0, b, disk);
    s3 := Finished(Inserted(s1, b), b, byName);
    FinishKeeps(MakeRoom(s0), s1, b, byName);
    FopenView(s, s1, b, disk, byName);
  }

  /** The stream is open, and the ring has been given room for it. */
  lemma FopenRoom(s: State, b: Bfd, disk: Disk)
    requires Sound(s) && b in s.st && b !in s.ring && s.st[b].iostream.NoStream?
    ensures var s1, room := Fopened(s, b, disk), MakeRoom(s);
      && Streaming(s1) && Evicts(s1) == Evicts(s)
      && Sound(room) && HasRoom(room) && b !in room.ring && room.disk == s.disk
      && MakeRoom(s1).ring == room.ring && OnlyChanges(room.st, MakeRoom(s1).st, b)
      && MakeRoom(s1).st[b] == s1.st[b] && MakeRoom(s1).disk == disk && SameView(s.st, MakeRoom(s1).st, {b})
  {
    SoundStreams(s);
    RoomBeside(s, b, disk);
    RoomKeeps(s);
  }

  /** The descriptor cache could not make room: the BFD is deleted again. */
  lemma FopenFails(s: State, b: Bfd, disk: Disk) returns (s3: State)
    requires Usable(s) && b !in s.st && b.archive.None? && s.disk.Keys <= disk.Keys
    ensures s3 == Deleted(MakeRoom(Fopened(Registered(s, b, FRESH), b, disk)), b)
    ensures Usable(s3) && View(s3) == World(disk, Positions(s.st))
  {
    var s0 := Registered(s, b, FRESH);
    RegisterKeeps(s, b, FRESH);
    SoundStreams(s0);
    RoomBeside(s0, b, disk);
    RoomKeeps(s0);
    NoMembers(s, b);
    UndoneView(s, MakeRoom(s0), b);
    DiskKeeps(Deleted(MakeRoom(s0), b), disk);
    s3 := Deleted(MakeRoom(Fopened(s0, b, disk)), b);
    SameButFor(MakeRoom(s0).st, MakeRoom(Fopened(s0, b, disk)).st, b);
  }

  lemma SameButFor(st: States, st': States, b: Bfd)
    requires OnlyChanges(st, st', b)
    ensures st' - {b} == st - {b}
  {
  }

  lemma NoMembers(s: State, b: Bfd)
    requires Sound(s) && b !in s.st
    ensures !HasMembers(Registered(s, b, FRESH).st.Keys, b)
  {
    forall c | c in s.st
      ensures c.archive != Some(b)
    {
      assert Good(c, s);
    }
    assert b.archive != Some(b);
  }

  /** Deleting a BFD that was only registered undoes the registration. */
  lemma UndoneView(s: State, s1: State, b: Bfd)
    requires Synced(s.st) && b !in s.st && !HasMembers(s1.st.Keys, b)
    requires Sound(s1) && SameView(Registered(s, b, FRESH).st, s1.st, {}) && b !in s1.ring
    ensures Usable(Deleted(s1, b)) && Positions(Deleted(s1, b).st) == Positions(s.st)
  {
    DeleteKeeps(s1, b);
    forall c | c in s1.st && c != b
      ensures s1.st[c].iovec == CacheIovec && InSync(c, s1.st)
    {
      assert InSync(c, s.st);
    }
    DeleteSynced(s1.st, b);
    assert Positions(Deleted(s1, b).st) == Positions(s.st);
  }

  method BfdFopen(c: Cache, b: Bfd, mode: Mode, byName: bool) returns (ok: bool, ghost fault: bool)
    requires c.Shadowed() && b in c.lru.node
    requires Usable(c.s) && b !in c.s.st && b.archive.None? && ModeFits(b, mode)
    modifies c, c.lru, c.lru.nodes
    ensures c.Shadowed() && FopenOutcome(old(c.s), c.s, b, mode, ok, fault)
    ensures c.errors == old(c.errors) + Fault(fault)
  {
    if !FopenFinds(c.s.disk, b, mode) {
      return false, false;
    }
    var disk := FopenDisk(c.s.disk, b, mode);
    ghost var done := FopenSucceeds(c.s, b, disk, byName);
    ghost var undone := FopenFails(c.s, b, disk);
    c.s := Fopened(Registered(c.s, b, FRESH), b, disk);
    ok := c.CacheInit(b);
    fault := !ok;
    c.s := if ok then Finished(c.s, b, byName) else Deleted(c.s, b);
  }

  // ---------- The other ways to get and lose a BFD ----------

  /** bfd_openw as a whole: another file could not be closed, or the file is created empty. */
  ghost predicate OpenwOutcome(s: State, s2: State, b: Bfd, ok: bool) {
    && Usable(s2) && (!ok ==> Evicts(s))
    && View(s2) == if ok then World(s.disk[b.filename := []], Positions(s.st)[b := 0]) else View(s)
  }

  method BfdOpenw(c: Cache, b: Bfd) returns (ok: bool)
    requires c.Shadowed() && b in c.lru.node
    requires Usable(c.s) && b !in c.s.st && b.archive.None? && b.direction.WriteDirection?
    modifies c, c.lru, c.lru.nodes
    ensures c.Shadowed() && OpenwOutcome(old(c.s), c.s, b, ok) && c.errors == old(c.errors) + Fault(!ok)
  {
    RegisterKeeps(c.s, b, FRESH);
    NoMembers(c.s, b);
    c.s := Registered(c.s, b, FRESH);
    ok := c.OpenFile(b);
    if ok {
      OpenedView(old(c.s), c.s, b);
    } else {
      assert Good(b, c.s);
      UndoneView(old(c.s), c.s, b);
      c.s := Deleted(c.s, b);
    }
  }

  ghost predicate MemberOutcome(s: State, s2: State, b: Bfd) {
    Usable(s2) && View(s2) == World(s.disk, Positions(s.st)[b := 0])
  }

  /** A member starts at its own position 0, without a stream of its own. */
  method BfdMember(c: Cache, b: Bfd)
    requires c.Shadowed()
    requires Usable(c.s) && b !in c.s.st && b.archive.Some? && b.archive.value in c.s.st && b.archive.value.isArchive
    modifies c, c.lru, c.lru.nodes
    ensures c.Shadowed() && MemberOutcome(old(c.s), c.s, b) && c.errors == old(c.errors)
  {
    RegisterKeeps(c.s, b, FRESH_MEMBER);
    MemberSynced(c.s, b);
    c.s := Registered(c.s, b, FRESH_MEMBER);
  }

  ghost predicate CloseOutcome(s: State, s2: State, b: Bfd) {
    Usable(s2) && View(s2) == World(s.disk, Positions(s.st) - {b})
  }

  /** A closed file leaves at most as many files open as are allowed. */
  lemma CloseBounded(s: State, b: Bfd, k: nat)
    requires NoDup(s.ring) && Bounded(s) && k < |s.ring| && s.ring[k] == b
    ensures |s.ring| - 1 <= Max(MAX_OPEN, |Pinned(Without(s.ring, k), s.st - {b})| + 1)
  {
    WithoutMembers(s.ring, k);
    var p, p' := Pinned(s.ring, s.st), Pinned(Without(s.ring, k), s.st - {b});
    assert p - {b} <= p';
    SubsetCardinality(p - {b}, p');
  }

  lemma CloseKeeps(s: State, b: Bfd)
    requires Usable(s) && b in s.st && !HasMembers(s.st.Keys, b)
    ensures CloseOutcome(s, Deleted(Closed(s, b), b), b)
  {
    var s' := Deleted(Closed(s, b), b);
    assert Good(b, s);
    if b in s.ring {
      WithoutMembers(s.ring, IndexOf(s.ring, b));
      CloseBounded(s, b, IndexOf(s.ring, b));
      assert s'.st == s.st - {b};
      forall c | c in s'.st
        ensures Good(c, s')
      {
        assert Good(c, s);
      }
    } else {
      DeleteKeeps(s, b);
    }
    forall c | c in s.st && c != b
      ensures s.st[c].iovec == CacheIovec && InSync(c, s.st)
    {
      assert InSync(c, s.st);
    }
    DeleteSynced(s.st, b);
    assert Positions(s'.st) == Positions(s.st) - {b};
  }

  /** bfd_close returns what bfd_cache_close does: whether fclose reported no error on the file's own stream. */
  method BfdClose(c: Cache, b: Bfd) returns (ret: bool)
    requires c.Shadowed()
    requires Usable(c.s) && b in c.s.st && !HasMembers(c.s.st.Keys, b)
    modifies c, c.lru, c.lru.nodes
    ensures c.Shadowed() && CloseOutcome(old(c.s), c.s, b)
    ensures c.errors == old(c.errors) + Fault(!ret) && (b !in old(c.s.ring) ==> ret)
  {
    assert Good(b, c.s);
    CloseKeeps(c.s, b);
    ret := c.CacheClose(b);
    c.s := Deleted(c.s, b);
  }

  // ---------- Whole runs ----------

  datatype Op =
    | Fopen(b: Bfd, mode: Mode, byName: bool)
    | Openw(b: Bfd)
    | Member(b: Bfd)
    | Read(b: Bfd, n: nat)
    | Write(b: Bfd, data: seq<Byte>)
    | Seek(b: Bfd, position: int, whence: Whence)
    | Tell(b: Bfd)
    | Close(b: Bfd)
    | CloseAll

  /** LeftOut stands for a call that the rules did not permit when its turn came, and that was not made. */
  datatype Reply = Done(ok: bool) | Bytes(data: seq<Byte>) | Number(n: int) | LeftOut

  /**
    What a caller has to respect.  Every open BFD is Placed.  Where the cache can show, calls are set aside
    that might make it do so: seeks before the start of a file that is not at its start, bfd_tell on archive
    members, and closing everything while there are archives.  SeekTransparent, TellTransparent and
    AllClosedTransparent say when just they are safe.
   */
  predicate Permitted(w: World, op: Op) {
    match op
    case Fopen(b, mode, _) => b !in w.pos && b.archive.None? && ModeFits(b, mode)
    case Openw(b) => b !in w.pos && b.archive.None? && b.direction.WriteDirection?
    case Member(b) => b !in w.pos && b.archive.Some? && b.archive.value in w.pos && b.archive.value.isArchive
    case Read(b, _) => Placed(w, b)
    case Write(b, _) => Placed(w, b)
    case Seek(b, position, whence) => Placed(w, b) &&
        (whence.SeekSet? ==> position + OriginSum(b) >= 0 || w.pos[Root(b)] == 0)
    case Tell(b) => Placed(w, b) && b.archive.None?
    case Close(b) => b in w.pos && !HasMembers(w.pos.Keys, b)
    case CloseAll => forall b :: b in w.pos ==> !b.isArchive
  }

  /** The BFDs of a call have links. */
  predicate Known(node: map<Bfd, Node>, op: Op) { op.CloseAll? || op.Member? || Root(op.b) in node }

  /**
    The library that never closes a file by itself.  A fault is a call that failed because fclose
    reported an error, on another file unless the call itself closes files; but for a member's own
    position after a seek, nothing has moved.
   */
  function IdealNext(w: World, op: Op, fault: bool): World
    requires Permitted(w, op)
  {
    match op
    case Fopen(b, mode, _) =>
      if !FopenFinds(w.disk, b, mode) then w
      else World(FopenDisk(w.disk, b, mode), if fault then w.pos else w.pos[b := 0])
    case Openw(b) => if fault then w else World(w.disk[b.filename := []], w.pos[b := 0])
    case Member(b) => w.(pos := w.pos[b := 0])
    case Read(b, n) => if fault then w else Advance(w, b, |IdealBytes(w, b, n)|)
    case Write(b, data) => if fault || !Root(b).direction.Writable() then w else IdealWrite(w, b, data)
    case Seek(b, position, whence) => if fault then FaultedTell(w, b) else IdealSeek(w, b, position, whence)
    case Tell(b) => w
    case Close(b) => w.(pos := w.pos - {b})
    case CloseAll => w
  }

  function IdealReply(w: World, op: Op, fault: bool): Reply
    requires Permitted(w, op)
  {
    match op
    case Fopen(b, mode, _) => Done(FopenFinds(w.disk, b, mode) && !fault)
    case Openw(b) => Done(!fault)
    case Member(b) => Done(true)
    case Read(b, n) => Bytes(if fault then [] else IdealBytes(w, b, n))
    case Write(b, data) => Number(if fault ||
        data == [] then 0 else if Root(b).direction.Writable() then |data| else -1)
    case Seek(b, position, whence) => Number(if fault || SeekTarget(w, b, position, whence) < 0 then -1 else 0)
    case Tell(b) => Number(w.pos[b])
    case Close(b) => Done(!fault)
    case CloseAll => Done(!fault)
  }

  /** A caller that makes a call only if the rules permit it as things stand, and else goes on without it. */
  function CallerNext(w: World, op: Op, fault: bool): World {
    if Permitted(w, op) then IdealNext(w, op, fault) else w
  }

  function CallerReply(w: World, op: Op, fault: bool): Reply {
    if Permitted(w, op) then IdealReply(w, op, fault) else LeftOut
  }

  function IdealRun(w: World, ops: seq<Op>, faults: seq<bool>): World
    requires |faults| == |ops|
    decreases |ops|
  {
    if ops == [] then w else IdealRun(CallerNext(w, ops[0], faults[0]), ops[1..], faults[1..])
  }

  function IdealReplies(w: World, ops: seq<Op>, faults: seq<bool>): (replies: seq<Reply>)
    requires |faults| == |ops|
    ensures |replies| == |ops|
    decreases |ops|
  {
    if ops == [] then []
    else [CallerReply(w, ops[0], faults[0])] + IdealReplies(CallerNext(w, ops[0], faults[0]), ops[1..], faults[1..])
  }

  /** With these faults, every call of the run is permitted when its turn comes. */
  predicate Respects(w: World, ops: seq<Op>, faults: seq<bool>)
    requires |faults| == |ops|
    decreases |ops|
  {
    ops == [] || (Permitted(w, ops[0]) && Respects(IdealNext(w, ops[0], faults[0]), ops[1..], faults[1..]))
  }

  /** Nothing is left out of exactly the runs that respect the rules. */
  lemma {:induction false} NothingLeftOut(w: World, ops: seq<Op>, faults: seq<bool>)
    requires |faults| == |ops|
    ensures LeftOut !in IdealReplies(w, ops, faults) <==> Respects(w, ops, faults)
    decreases |ops|
  {
    if ops != [] {
      var reply, w' := CallerReply(w, ops[0], faults[0]), CallerNext(w, ops[0], faults[0]);
      var rest := IdealReplies(w', ops[1..], faults[1..]);
      NothingLeftOut(w', ops[1..], faults[1..]);
      assert LeftOut in [reply] + rest <==> reply == LeftOut || LeftOut in rest;
    }
  }

  /** The call closes streams of its own accord. */
  predicate Closes(s: State, op: Op) { (op.Close? && op.b in s.ring) || (op.CloseAll? && s.ring != []) }

  /** One call through the cache: a call can fail only when it, or the limit, has a file closed. */
  ghost predicate StepOutcome(s: State, s2: State, op: Op, reply: Reply, fault: bool) {
    && Usable(s2) && Permitted(View(s), op) && (fault ==> Evicts(s) || Closes(s, op))
    && View(s2) == IdealNext(View(s), op, fault) && reply == IdealReply(View(s), op, fault)
  }

  /** One turn of the caller: the call as above, or nothing at all. */
  ghost predicate TurnOutcome(s: State, s2: State, op: Op, reply: Reply, fault: bool) {
    && Usable(s2)
    && if Permitted(View(s), op) then StepOutcome(s, s2, op, reply, fault) else s2 == s && reply == LeftOut && !fault
  }

  lemma BfdIn(s: State, b: Bfd)
    requires Usable(s) && b in s.st
    ensures Ready(s, b) && SyncedBut(s.st, b)
  {
    assert InSync(b, s.st);
    SyncedIsBut(s.st, b);
  }

  lemma TellPermitted(s: State, s2: State, b: Bfd, ptr: int)
    requires Usable(s) && b in s.st && b.archive.None? && TellOutcome(s, s2, b, ptr)
    ensures View(s2) == View(s) && ptr == View(s).pos[b]
  {
    assert InSync(b, s.st);
  }

  /** Reading, writing and positioning. */
  method Transfer(c: Cache, op: Op) returns (reply: Reply, ghost fault: bool)
    requires c.Shadowed() && Known(c.lru.node, op) && (op.Read? || op.Write? || op.Seek? || op.Tell?)
    requires Usable(c.s) && Permitted(View(c.s), op)
    modifies c, c.lru, c.lru.nodes
    ensures c.Shadowed() && StepOutcome(old(c.s), c.s, op, reply, fault)
    ensures c.errors >= old(c.errors) && fault == (c.errors != old(c.errors))
  {
    BfdIn(c.s, op.b);
    if op.Read? {
      var data;
      data, fault := c.Read(op.b, op.n);
      reply := Bytes(data);
    } else if op.Write? {
      var ret;
      ret, fault := c.Write(op.b, op.data);
      reply := Number(ret);
    } else if op.Seek? {
      var result;
      result, fault := c.Seek(op.b, op.position, op.whence);
      reply := Number(result);
    } else {
      var ptr := c.Tell(op.b);
      TellPermitted(old(c.s), c.s, op.b, ptr);
      reply, fault := Number(ptr), false;
    }
  }

  /** Opening and closing. */
  method Manage(c: Cache, op: Op) returns (reply: Reply, ghost fault: bool)
    requires c.Shadowed() && Known(c.lru.node, op) && !(op.Read? || op.Write? || op.Seek? || op.Tell?)
    requires Usable(c.s) && Permitted(View(c.s), op)
    modifies c, c.lru, c.lru.nodes
    ensures c.Shadowed() && StepOutcome(old(c.s), c.s, op, reply, fault)
    ensures c.errors >= old(c.errors) && fault == (c.errors != old(c.errors))
  {
    if op.Fopen? {
      var ok;
      ok, fault := BfdFopen(c, op.b, op.mode, op.byName);
      reply := Done(ok);
    } else if op.Openw? {
      var ok := BfdOpenw(c, op.b);
      reply, fault := Done(ok), !ok;
    } else if op.Member? {
      BfdMember(c, op.b);
      reply, fault := Done(true), false;
    } else if op.Close? {
      var ret := BfdClose(c, op.b);
      reply, fault := Done(ret), !ret;
    } else {
      SoundStreams(c.s);
      AllClosedKeeps(c.s);
      var ret := c.CloseAll();
      reply, fault := Done(ret), !ret;
    }
  }

  method Perform(c: Cache, op: Op) returns (reply: Reply, ghost fault: bool)
    requires c.Shadowed() && Known(c.lru.node, op)
    requires Usable(c.s) && Permitted(View(c.s), op)
    modifies c, c.lru, c.lru.nodes
    ensures c.Shadowed() && StepOutcome(old(c.s), c.s, op, reply, fault)
    ensures c.errors >= old(c.errors) && fault == (c.errors != old(c.errors))
  {
    if op.Read? || op.Write? || op.Seek? || op.Tell? {
      reply, fault := Transfer(c, op);
    } else {
      reply, fault := Manage(c, op);
    }
  }

  /** The states that a run passes through: a call fails only in one where a file has to be closed. */
  ghost predicate Passes(states: seq<State>, ops: seq<Op>, replies: seq<Reply>, faults: seq<bool>) {
    && |states| == |ops| + 1 && |replies| == |faults| == |ops|
    && forall i {:trigger ops[i]} :: 0 <= i < |ops| ==>
      TurnOutcome(states[i], states[i + 1], ops[i], replies[i], faults[i])
  }

  lemma PassesMore(s: State, op: Op, reply: Reply, fault: bool, states: seq<State>, ops: seq<Op>,
      replies: seq<Reply>, faults: seq<bool>)
    requires Passes(states, ops, replies, faults) && TurnOutcome(s, states[0], op, reply, fault)
    ensures Passes([s] + states, [op] + ops, [reply] + replies, [fault] + faults)
  {
    forall i | 0 <= i < |ops| + 1
      ensures TurnOutcome(([s] + states)[i], states[i], ([op] + ops)[i], ([reply] + replies)[i], ([fault] + faults)[i])
    {
      if i > 0 {
        assert ops[i - 1] == ([op] + ops)[i];
      }
    }
  }

  /**
    Transparency over whole runs: the replies, the files and every position are those of a library
    that keeps all files open, and the invariant with its bound on open files holds throughout.  No call
    fails unless an fclose has reported an error.  The count of open files and the links of the ring agree
    with the state in the end, however long the run.  Any list of calls will do: those that the rules do not
    permit when their turn comes, say on a file that could not be opened, are left out.
   */
  method Run(c: Cache, ops: seq<Op>) returns (replies: seq<Reply>, ghost faults: seq<bool>, ghost states: seq<State>)
    requires c.Shadowed() && forall i {:trigger ops[i]} :: 0 <= i < |ops| ==> Known(c.lru.node, ops[i])
    requires Usable(c.s)
    modifies c, c.lru, c.lru.nodes
    ensures c.Shadowed() && c.lru.openFiles == |c.s.ring|
    ensures Passes(states, ops, replies, faults) && states[0] == old(c.s) && states[|ops|] == c.s && Usable(c.s)
    ensures View(c.s) == IdealRun(old(View(c.s)), ops, faults) && replies == IdealReplies(old(View(c.s)), ops, faults)
    ensures c.errors >= old(c.errors) && (true in faults <==> c.errors != old(c.errors))
    decreases |ops|
  {
    if ops == [] {
      c.Counted();
      return [], [], [c.s];
    }
    var reply, rest;
    ghost var fault, later, next;
    if Permitted(View(c.s), ops[0]) {
      reply, fault := Perform(c, ops[0]);
    } else {
      reply, fault := LeftOut, false;
    }
    rest, later, next := Run(c, ops[1..]);
    assert [ops[0]] + ops[1..] == ops;
    PassesMore(old(c.s), ops[0], reply, fault, next, ops[1..], rest, later);
    replies, faults, states := [reply] + rest, [fault] + later, [old(c.s)] + next;
  }

  lemma NothingOpen(disk: Disk)
    ensures Usable(State([], map[], disk)) && View(State([], map[], disk)) == World(disk, map[])
  {
  }

  /** Links for every BFD of a run. */
  method Links(ops: seq<Op>) returns (node: map<Bfd, Node>)
    ensures forall b {:trigger node[b]} :: b in node ==> node[b].bfd == b && fresh(node[b])
    ensures forall i {:trigger ops[i]} :: 0 <= i < |ops| ==> Known(node, ops[i])
  {
    node := map[];
    for i := 0 to |ops|
      invariant forall b {:trigger node[b]} :: b in node ==> node[b].bfd == b && fresh(node[b])
      invariant forall j {:trigger ops[j]} :: 0 <= j < i ==> Known(node, ops[j])
    {
      if !Known(node, ops[i]) {
        var n := new Node(Root(ops[i].b));
        node := node[n.bfd := n];
      }
    }
  }

  /** A run from the start, with no file open. */
  method StartRun(disk: Disk, ops: seq<Op>)
    returns (c: Cache, replies: seq<Reply>, ghost faults: seq<bool>, ghost states: seq<State>)
    ensures fresh(c) && c.Shadowed() && c.lru.openFiles == |c.s.ring|
    ensures Passes(states, ops, replies, faults) && states[0] == State([], map[], disk) && states[|ops|] == c.s
    ensures Usable(states[0]) && Usable(c.s)
    ensures View(c.s) == IdealRun(World(disk, map[]), ops, faults)
    ensures replies == IdealReplies(World(disk, map[]), ops, faults) && (true in faults <==> c.errors != 0)
  {
    var node := Links(ops);
    c := new Cache(node, disk);
    NothingOpen(disk);
    replies, faults, states := Run(c, ops);
  }

  /** Open every one of bs, then read from b. */
  function OpensThenRead(bs: seq<Bfd>, b: Bfd, n: nat): (ops: seq<Op>)
    ensures |ops| == |bs| + 1
  {
    if bs == [] then [Read(b, n)] else [Fopen(bs[0], ReadMode, true)] + OpensThenRead(bs[1..], b, n)
  }

  /** Files that can be opened for reading, each for the first time. */
  ghost predicate Openable(w: World, bs: seq<Bfd>) {
    && NoDup(bs)
    && forall b :: b in bs ==>
      b !in w.pos && b.archive.None? && b.direction.ReadDirection? && b.filename in w.disk
  }

  /**
    However many files are opened, each can then be read from its start, unless an fclose fails: with
    Run, also if the limit has had it closed in the meantime.
   */
  lemma {:induction false} AnyIsRead(w: World, bs: seq<Bfd>, b: Bfd, n: nat, faults: seq<bool>)
    requires Openable(w, bs) && |faults| == |bs| + 1 && true !in faults
    requires b in bs || (b in w.pos && w.pos[b] == 0 && b.archive.None? && b.filename in w.disk)
    ensures Respects(w, OpensThenRead(bs, b, n), faults)
    ensures IdealReplies(w, OpensThenRead(bs, b, n), faults)[|bs|] == Bytes(FileRead(w.disk[b.filename], 0, n))
    decreases |bs|
  {
    assert !faults[0];
    if bs == [] {
      assert faults[1..] == [];
    } else {
      var ops := OpensThenRead(bs, b, n);
      var w' := IdealNext(w, ops[0], false);
      assert ops[1..] == OpensThenRead(bs[1..], b, n);
      AnyIsRead(w', bs[1..], b, n, faults[1..]);
    }
  }

  // ---------- Views of nested members ----------

  /** The part of the outermost file that is [p..p+n) of b, cut at the end of b. */
  function MemberSlice(disk: Disk, b: Bfd, p: nat, n: nat): seq<Byte>
    requires Root(b).filename in disk
  {
    var left := if b.archive.None? then n else if p < b.eltSize then Min(n, b.eltSize - p) else 0;
    FileRead(disk[Root(b).filename], OriginSum(b) + p, left)
  }

  /** The 64-bit comparison in bfd_bread cuts a read at the end of the member unless the sum wraps into it. */
  lemma ClipExact(p: nat, n: nat, max: nat)
    requires p < WORD64 && n < WORD64 && max < WORD64
    ensures ClipSize(p, n, max) == (if p < max then Min(n, max - p) else 0) <==> p + n < WORD64 || p + n - WORD64 > max
  {
    assert p % WORD64 == p;
    assert (p + n) % WORD64 == if p + n < WORD64 then p + n else p + n - WORD64;
  }

  lemma SliceAfterSeek(w: World, b: Bfd, p: nat, n: nat)
    requires Placed(w, b) && p + n < WORD64 && b.eltSize < WORD64
    ensures var w1 := IdealSeek(w, b, p, SeekSet);
      Placed(w1, b) && w1.disk == w.disk && IdealBytes(w1, b, n) == MemberSlice(w.disk, b, p, n)
  {
    RootIsTop(b);
    ClipExact(p, n, b.eltSize);
  }

  /** Whatever else was done through the shared stream, a seek and a read give the member's own bytes. */
  method SeekThenRead(c: Cache, b: Bfd, p: nat, n: nat) returns (result: int, data: seq<Byte>, ghost fault: bool)
    requires c.Shadowed() && Root(b) in c.lru.node
    requires Usable(c.s) && b in c.s.st && p + n < WORD64 && b.eltSize < WORD64
    modifies c, c.lru, c.lru.nodes
    ensures c.Shadowed() && Usable(c.s) && Root(b).filename in old(c.s.disk) && c.s.disk == old(c.s.disk)
    ensures !fault ==> result == 0 && data == MemberSlice(c.s.disk, b, p, n)
    ensures !fault ==> b in c.s.st && View(c.s).pos[b] == p + |data|
    ensures fault ==> MayFault(old(c.s), b)
  {
    BfdIn(c.s, b);
    ReadyPlaced(c.s, b);
    SliceAfterSeek(View(c.s), b, p, n);
    data := [];
    result, fault := c.Seek(b, p, SeekSet);
    if result == 0 {
      assert b in View(c.s).pos;
      BfdIn(c.s, b);
      data, fault := c.Read(b, n);
      RootIsTop(b);
      assert b in View(c.s).pos;
    }
  }

  /** Seek to p, then tell: p, at any depth. */
  method SeekThenTell(c: Cache, b: Bfd, p: nat) returns (result: int, ptr: int, ghost fault: bool)
    requires c.Shadowed() && Root(b) in c.lru.node
    requires Usable(c.s) && b in c.s.st
    modifies c, c.lru, c.lru.nodes
    ensures c.Shadowed() && Usable(c.s) && if fault then MayFault(old(c.s), b) else result == 0 && ptr == p
  {
    BfdIn(c.s, b);
    ReadyPlaced(c.s, b);
    ptr := -1;
    result, fault := c.Seek(b, p, SeekSet);
    if result == 0 {
      ghost var s1 := c.s;
      assert b in View(s1).pos;
      BfdIn(c.s, b);
      ptr := c.Tell(b);
      RootIsTop(b);
      TellTransparent(s1, c.s, b, ptr);
    }
  }

  // ---------- Where transparency ends ----------

  const PLAIN := Bfd(0, "f", ReadDirection, false, None, 0, 0)
  const ARCHIVE := Bfd(1, "a", ReadDirection, true, None, 0, 0)
  const MEMBER := Bfd(2, "m", ReadDirection, false, Some(ARCHIVE), 68, 10)

  /** A file that the cache has closed at 5. */
  const CLOSED_AT_5 := State([], map[PLAIN := BfdState(CacheIovec, true, true, NoStream, 5)], map["f" := []])

  method CacheClosedAt5() returns (c: Cache)
    ensures fresh(c) && fresh(c.lru) && fresh(c.lru.nodes)
    ensures c.Shadowed() && PLAIN in c.lru.node && c.s == CLOSED_AT_5
  {
    var n := new Node(PLAIN);
    c := new Cache(map[PLAIN := n], CLOSED_AT_5.disk);
    c.s := CLOSED_AT_5;
  }

  /** A seek before its start fails, whatever fclose does, and the position is now 0. */
  method LostPosition(c: Cache) returns (result: int)
    requires c.Shadowed() && PLAIN in c.lru.node && c.s == CLOSED_AT_5
    modifies c, c.lru, c.lru.nodes
    ensures Usable(old(c.s)) && View(old(c.s)).pos[PLAIN] == 5
    ensures result == -1 && Usable(c.s) && PLAIN in c.s.st && View(c.s).pos[PLAIN] == 0
  {
    BfdIn(c.s, PLAIN);
    ghost var fault;
    result, fault := c.Seek(PLAIN, -1, SeekSet);
    assert PLAIN in View(c.s).pos;
  }

  /** An archive that was opened, and of which a member at 68 was read: closing all files takes it back to 0. */
  lemma StaleArchive()
    ensures var st := map[ARCHIVE := BfdState(CacheIovec, true, true, Stream(68), 0), MEMBER := FRESH_MEMBER];
      var s := State([ARCHIVE], st, map["a" := []]);
      && Usable(s) && Stale(ARCHIVE, s.st)
      && View(s).pos[ARCHIVE] == 68 && View(AllClosed(s)).pos[ARCHIVE] == 0
  {
    var st := map[ARCHIVE := BfdState(CacheIovec, true, true, Stream(68), 0), MEMBER := FRESH_MEMBER];
    var s := State([ARCHIVE], st, map["a" := []]);
    assert Root(MEMBER) == ARCHIVE;
    forall b | b in s.st
      ensures Good(b, s) && InSync(b, s.st)
    {
    }
  }

  /** A read of all but one of 2^64 bytes from position 1 of a member of 10: nothing is clipped. */
  lemma ClipWraps()
    ensures ClipSize(1, WORD64 - 1, 10) == WORD64 - 1
  {
  }

  /** A member at its start, its archive closed at 68: bfd_tell says -68 and not 0. */
  lemma ClosedArchiveTell()
    ensures var st := map[ARCHIVE := BfdState(CacheIovec, true, true, NoStream, 68), MEMBER := FRESH_MEMBER];
      var s := State([], st, map["a" := []]);
      Usable(s) && TellFrom(s, MEMBER) - OriginSum(MEMBER) == -68 && View(s).pos[ARCHIVE] - OriginSum(MEMBER) == 0
  {
  }
}
