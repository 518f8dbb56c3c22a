/**
  The cache and the I/O layer as they run.  Which file is closed, and when, is decided on the linked
  ring and its count of open files; s.ring is the sequence that the ring is proved to spell out.
 */
module BfdCache {
  import opened Bytes
  import opened Sequences
  import opened CacheModel
  import opened LruRing

  /** A position in a member, counted from the start of the outermost archive. */
  method FilePosition(abfd: Bfd, position: int) returns (offset: int)
    ensures offset == position + OriginSum(abfd)
  {
    offset := position;
    var parent := abfd;
    while parent.archive.Some?
      invariant offset + OriginSum(parent) == position + OriginSum(abfd)
      decreases parent
    {
      offset := offset + parent.origin;
      parent := parent.archive.value;
    }
  }

  /** What a call adds to the errors of fclose. */
  ghost function Fault(fault: bool): nat { if fault then 1 else 0 }

  class Cache {
    var s: State
    const lru: LruRing
    /** How many calls of fclose have reported an error. */
    ghost var errors: nat

    /** The links and the count are those of the state. */
    ghost predicate Shadowed()
      reads this, lru, lru.nodes
    {
      forall r {:trigger lru.Holds(r)} :: r == s.ring ==> lru.Holds(r)
    }

    /** The count is the length of the ring, which is what the limit is about. */
    lemma Counted()
      requires Shadowed()
      ensures lru.openFiles == |s.ring| && (lru.last == null <==> s.ring == [])
    {
      assert lru.Holds(s.ring);
    }

    /** No file is open yet; node has the links of every BFD. */
    constructor (node: map<Bfd, Node>, disk: Disk)
      requires forall b :: b in node ==> node[b].bfd == b
      ensures Shadowed() && s == State([], map[], disk) && errors == 0
      ensures fresh(lru) && lru.node == node && lru.nodes == node.Values
    {
      s, errors := State([], map[], disk), 0;
      lru := new LruRing(node);
    }

    /** bfd_cache_delete.  The outcome of fclose is left open: the BFD loses its place and its stream either way. */
    method CacheDelete(abfd: Bfd) returns (ret: bool)
      requires Shadowed() && abfd in s.ring && abfd in s.st
      modifies this, lru, lru.nodes
      ensures Shadowed() && s == Closed(old(s), abfd) && errors == old(errors) + Fault(!ret)
    {
      ret := *;
      errors := errors + Fault(!ret);
      assert lru.Holds(s.ring);
      lru.Delete(abfd, s.ring);
      s := s.(ring := Without(s.ring, IndexOf(s.ring, abfd)), st := s.st[abfd := s.st[abfd].(iostream := NoStream)]);
    }

    method CloseOne() returns (ret: bool)
      requires Shadowed() && Streaming(s)
      modifies this, lru, lru.nodes
      ensures Shadowed() && s == Evict(old(s))
      ensures (Victim(old(s.ring), old(s.st)) < 0 ==> ret) && errors == old(errors) + Fault(!ret)
    {
      var toKill := FindVictim(lru, s.st, s.ring);
      if toKill.None? {
        return true;
      }
      lru.Once(s.ring);
      EvictIs(s, toKill.value);
      s := s.(st := SetWhere(s.st, toKill.value, s.st[toKill.value].iostream.pos));
      ret := CacheDelete(toKill.value);
    }

    /** Put a BFD whose stream is open on the ring, closing another file first if the limit is reached. */
    method CacheInit(abfd: Bfd) returns (ret: bool)
      requires Shadowed() && Streaming(s) && abfd in s.st && abfd in lru.node && abfd !in s.ring
      modifies this, lru, lru.nodes
      ensures Shadowed() && s == if ret then Inserted(MakeRoom(old(s)), abfd) else MakeRoom(old(s))
      ensures (!Evicts(old(s)) ==> ret) && errors == old(errors) + Fault(!ret)
    {
      Counted();
      if lru.openFiles >= MAX_OPEN {
        ret := CloseOne();
        if !ret {
          return;
        }
      }
      lru.Enter(abfd, s.ring);
      s := s.(ring := [abfd] + s.ring, st := s.st[abfd := s.st[abfd].(iovec := CacheIovec)]);
      ret := true;
    }

    /** The fopen calls of bfd_open_file; the iostream stays null when the file does not exist. */
    method Fopen(abfd: Bfd)
      requires abfd in s.st && s.st[abfd].iostream.NoStream?
      modifies this
      ensures s.ring == old(s.ring) && OnlyChanges(old(s.st), s.st, abfd) && errors == old(errors)
      ensures if Exists(old(s.disk), abfd) then
          && s.st[abfd] == old(s.st)[abfd].(iostream := Stream(0),
            openedOnce := old(s.st)[abfd].openedOnce || abfd.direction.Writable())
          && s.disk == AfterFopen(abfd, old(s.st)[abfd].openedOnce, old(s.disk))
        else s == old(s)
    {
      if !abfd.direction.Writable() {
        if abfd.filename in s.disk {
          s := s.(st := s.st[abfd := s.st[abfd].(iostream := Stream(0))]);
        }
      } else if s.st[abfd].openedOnce {
        if abfd.filename !in s.disk {
          s := s.(disk := s.disk[abfd.filename := []]);
        }
        s := s.(st := s.st[abfd := s.st[abfd].(iostream := Stream(0))]);
      } else {
        s := s.(disk := s.disk[abfd.filename := []]);
        s := s.(st := s.st[abfd := s.st[abfd].(iostream := Stream(0), openedOnce := true)]);
      }
    }

    /** The stream goes on a ring that has room, so the check in bfd_cache_init closes nothing. */
    method OpenStream(abfd: Bfd) returns (ok: bool)
      requires Shadowed() && abfd in lru.node
      requires Sound(s) && HasRoom(s) && abfd in s.st && abfd.archive.None? && s.st[abfd].iostream.NoStream?
      modifies this, lru, lru.nodes
      ensures Shadowed() && Sound(s) && ok == Exists(old(s.disk), abfd) && errors == old(errors)
      ensures if ok then OpenedAt(old(s), s, abfd, 0) && s.ring == [abfd] + old(s.ring) else s == old(s)
    {
      ghost var s1 := s;
      assert Good(abfd, s);
      SoundStreams(s);
      Fopen(abfd);
      ok := s.st[abfd].iostream.Stream?;
      if ok {
        FopenKeeps(s1, s, abfd);
        ok := CacheInit(abfd);
      }
    }

    /** At most one other file is closed, and no position is lost. */
    method OpenFile(abfd: Bfd) returns (ok: bool)
      requires Shadowed() && abfd in lru.node
      requires Sound(s) && abfd in s.st && abfd.archive.None? && s.st[abfd].iostream.NoStream?
      modifies this, lru, lru.nodes
      ensures Shadowed() && Sound(s) && (ok ==> Exists(old(s.disk), abfd)) &&
        (!ok ==> Evicts(old(s)) || !Exists(old(s.disk), abfd))
      ensures s.ring == (if ok then [abfd] else []) + MakeRoom(old(s)).ring
      ensures ok ==> OpenedAt(old(s), s, abfd, 0)
      ensures !ok ==> SameView(old(s.st), s.st, {}) && s.disk == old(s.disk) && s.st[abfd].iostream.NoStream?
      ensures Exists(old(s.disk), abfd) ==> errors == old(errors) + Fault(!ok)
    {
      ghost var s1 := RoomFor(s, abfd);
      s := s.(st := s.st[abfd := s.st[abfd].(cacheable := true)]);
      ok := true;
      Counted();
      if lru.openFiles >= MAX_OPEN {
        ok := CloseOne();
      }
      assert s == s1;
      if ok {
        ok := OpenStream(abfd);
        if ok {
          SameViewTrans(old(s.st), s1.st, s.st, {abfd});
        }
      }
    }

    /** Bring the stream of the outermost archive to the front, reopening it where it was left if need be. */
    method Lookup(abfd: Bfd, flag: CacheFlag) returns (ok: bool)
      requires Shadowed() && Root(abfd) in lru.node && Sound(s) && Ready(s, abfd)
      modifies this, lru, lru.nodes
      ensures Shadowed() && Sound(s) && LookedUp(old(s), s, abfd, flag, ok)
      ensures errors == old(errors) + Fault(!ok && !flag.NoOpen?)
    {
      RootReady(s, abfd);
      var b := abfd;
      while b.archive.Some?
        invariant Root(b) == Root(abfd)
        decreases b
      {
        b := b.archive.value;
      }
      assert Good(b, s);
      if s.st[b].iostream.Stream? {
        FrontKeeps(s, b);
        lru.Touch(b, s.ring);
        s := s.(ring := MoveToFront(s.ring, b));
        return true;
      }
      if flag.NoOpen? {
        return false;
      }
      ok := OpenFile(b);
      if ok && !flag.NoSeek? {
        MoveKeeps(s, b, s.st[b].(iostream := Stream(s.st[b].where)));
        s := s.(st := s.st[b := s.st[b].(iostream := Stream(s.st[b].where))]);
      }
    }

    method CacheRead1(abfd: Bfd, n: nat) returns (data: seq<Byte>, ghost fault: bool)
      requires Shadowed() && Root(abfd) in lru.node && Sound(s) && Ready(s, abfd) && n > 0
      modifies this, lru, lru.nodes
      ensures Shadowed() && Sound(s) && if fault then data == [] &&
        Faulted(old(s), s, abfd) else HasRead(old(s), s, abfd, n, data)
      ensures errors == old(errors) + Fault(fault)
    {
      var f := Root(abfd);
      RootReady(s, abfd);
      var ok := Lookup(abfd, Normal);
      fault := !ok;
      data := [];
      if ok {
        var now := s;
        var p := now.st[f].iostream.pos;
        data := FileRead(now.disk[f.filename], p, n);
        SeekedFound(old(s), now, f, p, p + |data|);
        s := Seeked(now, f, p + |data|);
      }
    }

    /** Reads in chunks of at most 8 megabytes add up to one read. */
    method CacheRead(abfd: Bfd, n: nat) returns (data: seq<Byte>, ghost fault: bool)
      requires Shadowed() && Root(abfd) in lru.node && Sound(s) && Ready(s, abfd)
      modifies this, lru, lru.nodes
      ensures Shadowed() && Sound(s) && (n == 0 ==> data == [] && s == old(s) && !fault)
      ensures n > 0 ==> if fault then data == [] && Faulted(old(s), s, abfd) else HasRead(old(s), s, abfd, n, data)
      ensures errors == old(errors) + Fault(fault)
    {
      var short := false;
      data, fault := [], false;
      while |data| < n && !short
        invariant Shadowed() && Sound(s) && Ready(s, abfd) && |data| <= n && (n == 0 ==> !short)
        invariant fault ==> short && data == [] && Faulted(old(s), s, abfd)
        invariant errors == old(errors) + Fault(fault) && (!fault && data == [] && !short ==> s == old(s))
        invariant !fault && (data != [] || short) ==> HasRead(old(s), s, abfd, if short then n else |data|, data)
        decreases n - |data|, !short
      {
        var chunk := Min(n - |data|, 0x800000);
        ghost var before := s;
        var more;
        more, fault := CacheRead1(abfd, chunk);
        if data != [] {
          HasReadMore(old(s), before, s, abfd, data, more, chunk, n);
        }
        data := data + more;
        short := |more| < chunk;
      }
    }

    /** bfd_bread: what the cache does behind it cannot be told from a stream that was never closed. */
    method Read(abfd: Bfd, n: nat) returns (data: seq<Byte>, ghost fault: bool)
      requires Shadowed() && Root(abfd) in lru.node && Sound(s) && Synced(s.st) && Ready(s, abfd)
      modifies this, lru, lru.nodes
      ensures Shadowed() && ReadOutcome(old(s), s, abfd, n, data, fault)
      ensures errors == old(errors) + Fault(fault)
    {
      var size := ReadSize(abfd, s.st[abfd].where, n);
      data, fault := CacheRead(abfd, size);
      var where := s.st[abfd].where + |data|;
      ghost var s2 := ReadIsIdeal(old(s), s, abfd, n, size, data, fault, where);
      s := s.(st := SetWhere(s.st, abfd, where));
    }

    /** bfd_bwrite. */
    method Write(abfd: Bfd, data: seq<Byte>) returns (ret: int, ghost fault: bool)
      requires Shadowed() && Root(abfd) in lru.node && Sound(s) && Synced(s.st) && Ready(s, abfd)
      modifies this, lru, lru.nodes
      ensures Shadowed() && WriteOutcome(old(s), s, abfd, data, ret, fault)
      ensures errors == old(errors) + Fault(fault)
    {
      var f := Root(abfd);
      RootReady(s, abfd);
      ReadyPlaced(s, abfd);
      var ok := Lookup(abfd, Normal);
      fault := !ok;
      if !ok {
        FaultView(old(s), s, abfd);
        return 0, true;
      }
      var now := s;
      var p := now.st[f].iostream.pos;
      if !f.direction.Writable() {
        FoundView(old(s), now, f, p);
        return if data == [] then 0 else -1, false;
      }
      SeekedFound(old(s), now, f, p, p + |data|);
      var s1, disk := Seeked(now, f, p + |data|), now.disk[f.filename := FileWrite(now.disk[f.filename], p, data)];
      var where := s1.st[abfd].where + |data|;
      ghost var s2 := WriteIsIdeal(old(s), s1, abfd, data, p, where, disk);
      s := State(s1.ring, SetWhere(s1.st, abfd, where), disk);
      return |data|, false;
    }

    /** bfd_tell. */
    method Tell(abfd: Bfd) returns (ptr: int)
      requires Shadowed() && Root(abfd) in lru.node && Sound(s) && SyncedBut(s.st, abfd) && Ready(s, abfd)
      modifies this, lru, lru.nodes
      ensures Shadowed() && TellOutcome(old(s), s, abfd, ptr) && errors == old(errors)
    {
      RootReady(s, abfd);
      var ok := Lookup(abfd, NoOpen);
      if ok {
        ptr := s.st[Root(abfd)].iostream.pos;
        FoundSame(old(s), s, Root(abfd), ptr);
      } else {
        ptr := s.st[abfd].where;
      }
      assert ptr == TellFrom(old(s), abfd);
      ghost var now := s;
      var parent := abfd;
      while parent.archive.Some?
        invariant s == now && errors == old(errors)
        invariant ptr - OriginSum(parent) == TellFrom(old(s), abfd) - OriginSum(abfd)
        decreases parent
      {
        ptr := ptr - parent.origin;
        parent := parent.archive.value;
      }
      ghost var s2 := TellIs(old(s), s, abfd, ptr);
      s := s.(st := SetWhere(s.st, abfd, ptr));
    }

    method CacheSeek(abfd: Bfd, offset: int, whence: Whence) returns (result: int, ghost fault: bool)
      requires Shadowed() && Root(abfd) in lru.node && Sound(s) && Ready(s, abfd)
      modifies this, lru, lru.nodes
      ensures Shadowed() && Sought(old(s), s, abfd, offset, whence, result, fault)
      ensures errors == old(errors) + Fault(fault)
    {
      var f := Root(abfd);
      RootReady(s, abfd);
      var ok := Lookup(abfd, SeekFlag(whence));
      fault := !ok;
      result := -1;
      if ok {
        var now := s;
        var p := now.st[f].iostream.pos;
        var target := if whence.SeekSet? then offset else p + offset;
        if target >= 0 {
          SeekedFound(old(s), now, f, p, target);
          s := Seeked(now, f, target);
          result := 0;
        }
      }
    }

    /** bfd_seek. */
    method Seek(abfd: Bfd, position: int, whence: Whence) returns (result: int, ghost fault: bool)
      requires Shadowed() && Root(abfd) in lru.node && Sound(s) && Synced(s.st) && Ready(s, abfd)
      modifies this, lru, lru.nodes
      ensures Shadowed() && SeekOutcome(old(s), s, abfd, position, whence, result, fault)
      ensures errors == old(errors) + Fault(fault)
    {
      if whence.SeekCur? && position == 0 {
        SeekIdle(s, abfd, position, whence);
        return 0, false;
      }
      if !abfd.isArchive && abfd.archive.None? && whence.SeekSet? && position == s.st[abfd].where {
        SeekIdle(s, abfd, position, whence);
        return 0, false;
      }
      RootReady(s, abfd);
      var offset := position;
      if whence.SeekSet? {
        offset := FilePosition(abfd, position);
      }
      result, fault := CacheSeek(abfd, offset, whence);
      if result != 0 {
        Redetermine(old(s), abfd, position, offset, whence, fault);
      } else {
        ghost var q := s.st[Root(abfd)].iostream.pos;
        var where := if whence.SeekSet? then position else s.st[abfd].where + position;
        ghost var s2 := SeekIs(old(s), s, abfd, q, position, whence, where);
        s := s.(st := SetWhere(s.st, abfd, where));
      }
    }

    /** After a seek that failed, bfd_tell sets where again. */
    method Redetermine(ghost before: State, abfd: Bfd, ghost position: int, ghost offset: int,
        ghost whence: Whence, ghost fault: bool)
      requires Shadowed() && Root(abfd) in lru.node
      requires Sound(before) && Synced(before.st) && Ready(before, abfd)
      requires offset == if whence.SeekSet? then position + OriginSum(abfd) else position
      requires Sought(before, s, abfd, offset, whence, -1, fault)
      modifies this, lru, lru.nodes
      ensures Shadowed() && SeekOutcome(before, s, abfd, position, whence, -1, fault) && errors == old(errors)
    {
      ghost var s1 := s;
      BeforeTell(before, s1, abfd, offset, whence, fault);
      var ptr := Tell(abfd);
      AfterTell(before, s1, s, abfd, position, offset, whence, fault, ptr);
    }

    /** bfd_cache_close: the stream goes, and unlike in close_one its offset goes with it. */
    method CacheClose(abfd: Bfd) returns (ret: bool)
      requires Shadowed() && abfd in s.st && (s.st[abfd].iostream.Stream? <==> abfd in s.ring)
      modifies this, lru, lru.nodes
      ensures Shadowed() && s == Closed(old(s), abfd)
      ensures errors == old(errors) + Fault(!ret) && (abfd !in old(s.ring) ==> ret)
    {
      if s.st[abfd].iostream.NoStream? {
        return true;
      }
      ret := CacheDelete(abfd);
    }

    /** bfd_cache_close_all. */
    method CloseAll() returns (ret: bool)
      requires Shadowed() && NoDup(s.ring) && Streaming(s)
      modifies this, lru, lru.nodes
      ensures Shadowed() && s == AllClosed(old(s)) && lru.openFiles == 0 && lru.last == null
      ensures errors >= old(errors) && ret == (errors == old(errors)) && (old(s.ring) == [] ==> ret)
    {
      ret := true;
      while lru.last != null
        invariant Shadowed() && NoDup(s.ring) && Streaming(s) && AllClosed(s) == AllClosed(old(s))
        invariant errors >= old(errors) && ret == (errors == old(errors)) && (old(s.ring) == [] ==> ret && s.ring == [])
        decreases |s.ring|
      {
        Counted();
        assert lru.Holds(s.ring) && lru.node[s.ring[0]] == lru.ring[0];
        CloseFirst(s);
        var ok := CacheClose(lru.last.bfd);
        ret := ret && ok;
      }
      Counted();
      NoneOpen(s);
    }
  }
}
