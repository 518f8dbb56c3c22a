/** Files that live in memory: a buffer allocated in steps of 128 bytes behaves like a plain sequence of bytes. */
module MemFile {
  import opened Bytes

  /** A plain file: its bytes and a position in it. */
  datatype Plain = Plain(bytes: seq<Byte>, pos: nat)

  function PlainRead(f: Plain, n: nat): seq<Byte>
    requires f.pos <= |f.bytes|
  {
    f.bytes[f.pos..Min(f.pos + n, |f.bytes|)]
  }

  function PlainWrite(f: Plain, data: seq<Byte>): Plain
    requires f.pos <= |f.bytes|
  {
    Plain(f.bytes[..f.pos] + data + f.bytes[Min(f.pos + |data|, |f.bytes|)..], f.pos + |data|)
  }

  function SeekTarget(f: Plain, position: int, whence: Whence): int {
    if whence.SeekSet? then position else f.pos + position
  }

  /** Seeking past the end of a file open for writing makes it longer, with zeros; otherwise it fails at the end. */
  function PlainSeek(f: Plain, writable: bool, position: int, whence: Whence): Plain {
    var target := SeekTarget(f, position, whence);
    if target < 0 then f.(pos := 0)
    else if target <= |f.bytes| then f.(pos := target)
    else if writable then Plain(f.bytes + Fill(target - |f.bytes|, NUL), target)
    else f.(pos := |f.bytes|)
  }

  predicate SeekSucceeds(f: Plain, writable: bool, position: int, whence: Whence) {
    0 <= SeekTarget(f, position, whence) && (SeekTarget(f, position, whence) <= |f.bytes| || writable)
  }

  /** Sizes are allocated in multiples of 128. */
  function Allocated(n: nat): (r: nat)
    ensures n <= r < n + 128
  {
    (n + 127) / 128 * 128
  }

  function Overlaid(s: seq<Byte>, p: nat, data: seq<Byte>): (r: seq<Byte>)
    requires p + |data| <= |s|
    ensures |r| == |s|
  {
    s[..p] + data + s[p + |data|..]
  }

  ghost predicate ZeroFrom(s: seq<Byte>, size: nat) {
    forall i {:trigger s[i]} :: size <= i < |s| ==> s[i] == NUL
  }

  /** A buffer that has grown if need be, with data copied over it. */
  lemma WriteIs(before: seq<Byte>, grown: seq<Byte>, after: seq<Byte>, size: nat, p: nat, data: seq<Byte>)
    requires p <= |before| && size == (if p + |data| > |before| then p + |data| else |before|) <= |grown|
    requires grown[..|before|] == before && ZeroFrom(grown, size) && after == Overlaid(grown, p, data)
    ensures after[..size] == PlainWrite(Plain(before, p), data).bytes && ZeroFrom(after, size)
  {
    var q := p + |data|;
    assert after[..size] == grown[..p] + data + grown[q..size];
    assert grown[..p] == before[..p];
    assert grown[q..size] == before[Min(q, |before|)..];
  }

  class MemFile {
    const writable: bool
    var buffer: array<Byte>
    var size: nat
    var where: nat

    /** Everything that is allocated behind the end of the file is zero. */
    ghost predicate Valid()
      reads this, buffer
    {
      && where <= size && buffer.Length == Allocated(size)
      && forall i {:trigger buffer[i]} :: size <= i < buffer.Length ==> buffer[i] == NUL
    }

    ghost function File(): Plain
      requires Valid()
      reads this, buffer
    {
      Plain(buffer[..size], where)
    }

    constructor (writable: bool)
      ensures Valid() && fresh(buffer) && this.writable == writable && File() == Plain([], 0)
    {
      this.writable, size, where := writable, 0, 0;
      buffer := new Byte[0];
    }

    method Read(n: nat) returns (data: seq<Byte>)
      requires Valid()
      modifies this
      ensures Valid() && buffer == old(buffer)
      ensures data == PlainRead(old(File()), n) && File() == old(File()).(pos := old(where) + |data|)
    {
      var get := n;
      if where + get > size {
        get := size - where;
      }
      data := buffer[where..where + get];
      where := where + |data|;
    }

    /** The buffer grows; what realloc leaves in the new part is anything. */
    method Realloc(newsize: nat)
      requires buffer.Length <= newsize
      modifies this`buffer
      ensures fresh(buffer) && buffer.Length == newsize && buffer[..old(buffer.Length)] == old(buffer[..])
    {
      var bigger := new Byte[newsize];
      forall i | 0 <= i < buffer.Length {
        bigger[i] := buffer[i];
      }
      buffer := bigger;
    }

    method Clear(from: nat)
      requires from <= buffer.Length
      modifies buffer
      ensures buffer[..from] == old(buffer[..from]) && forall i {:trigger buffer[i]} :: from <= i < buffer.Length ==>
        buffer[i] == NUL
    {
      forall i | from <= i < buffer.Length {
        buffer[i] := NUL;
      }
    }

    /** Room for a write that ends at end: the old contents stay, and the tail behind the new end is clear. */
    method Grow(end: nat)
      requires Valid() && end > size
      modifies this`buffer, this`size, buffer
      ensures (buffer == old(buffer) || fresh(buffer)) && size == end && buffer.Length == Allocated(size)
      ensures buffer[..old(size)] == old(buffer[..size])
      ensures forall i {:trigger buffer[i]} :: size <= i < buffer.Length ==> buffer[i] == NUL
    {
      var oldsize, newsize := Allocated(size), Allocated(end);
      size := end;
      if newsize > oldsize {
        Realloc(newsize);
        Clear(size);
      }
    }

    /** memory_bwrite, and the position behind it. */
    method Write(data: seq<Byte>)
      requires Valid()
      modifies this, buffer
      ensures Valid() && (buffer == old(buffer) || fresh(buffer)) && File() == PlainWrite(old(File()), data)
    {
      ghost var before := buffer[..size];
      if where + |data| > size {
        Grow(where + |data|);
      }
      ghost var grown := buffer[..];
      CopyIn(data);
      WriteIs(before, grown, buffer[..], size, where, data);
      where := where + |data|;
    }

    method CopyIn(data: seq<Byte>)
      requires where + |data| <= buffer.Length
      modifies buffer
      ensures buffer[..] == Overlaid(old(buffer[..]), where, data)
    {
      forall i | 0 <= i < |data| {
        buffer[where + i] := data[i];
      }
    }

    /** bfd_seek on such a file. */
    method Seek(position: int, whence: Whence) returns (result: int)
      requires Valid()
      modifies this, buffer
      ensures Valid() && (buffer == old(buffer) || fresh(buffer))
      ensures File() == PlainSeek(old(File()), writable, position, whence)
      ensures result == if SeekSucceeds(old(File()), writable, position, whence) then 0 else -1
    {
      if (whence.SeekCur? && position == 0) || (whence.SeekSet? && position == where) {
        return 0;
      }
      var target := if whence.SeekSet? then position else where + position;
      if target < 0 {
        where := 0;
        return -1;
      }
      if target > size {
        if !writable {
          where := size;
          return -1;
        }
        Extend(target);
      }
      where := target;
      return 0;
    }

    /** The hole reads as zeros because the tail of the last step was zero already. */
    method Extend(target: nat)
      requires Valid() && target > size
      modifies this`buffer, this`size, buffer
      ensures Valid() && (buffer == old(buffer) || fresh(buffer)) && size == target
      ensures buffer[..size] == old(buffer[..size]) + Fill(target - old(size), NUL)
    {
      var oldsize, newsize := Allocated(size), Allocated(target);
      size := target;
      if newsize > oldsize {
        Realloc(newsize);
        Clear(oldsize);
      }
    }
  }

  // ---------- Whole runs ----------

  datatype Op = DoRead(n: nat) | DoWrite(data: seq<Byte>) | DoSeek(position: int, whence: Whence) | DoTell

  datatype Reply = Bytes(data: seq<Byte>) | Number(n: int)

  function PlainStep(f: Plain, writable: bool, op: Op): (r: Plain)
    requires f.pos <= |f.bytes|
    ensures r.pos <= |r.bytes|
  {
    match op
    case DoRead(n) => f.(pos := f.pos + |PlainRead(f, n)|)
    case DoWrite(data) => PlainWrite(f, data)
    case DoSeek(position, whence) => PlainSeek(f, writable, position, whence)
    case DoTell => f
  }

  function PlainReply(f: Plain, writable: bool, op: Op): Reply
    requires f.pos <= |f.bytes|
  {
    match op
    case DoRead(n) => Bytes(PlainRead(f, n))
    case DoWrite(data) => Number(|data|)
    case DoSeek(position, whence) => Number(if SeekSucceeds(f, writable, position, whence) then 0 else -1)
    case DoTell => Number(f.pos)
  }

  function PlainRun(f: Plain, writable: bool, ops: seq<Op>): Plain
    requires f.pos <= |f.bytes|
  {
    if ops == [] then f else PlainStep(PlainRun(f, writable, ops[..|ops| - 1]), writable, ops[|ops| - 1])
  }

  method Perform(m: MemFile, op: Op) returns (reply: Reply)
    requires m.Valid()
    modifies m, m.buffer
    ensures m.Valid() && (m.buffer == old(m.buffer) || fresh(m.buffer))
    ensures m.File() == PlainStep(old(m.File()), m.writable, op) && reply == PlainReply(old(m.File()), m.writable, op)
  {
    match op
    case DoRead(n) =>
      var data := m.Read(n);
      reply := Bytes(data);
    case DoWrite(data) =>
      m.Write(data);
      reply := Number(|data|);
    case DoSeek(position, whence) =>
      var result := m.Seek(position, whence);
      reply := Number(result);
    case DoTell =>
      reply := Number(m.where);
  }

  /** The replies are those of a plain file. */
  ghost predicate Answers(f: Plain, writable: bool, ops: seq<Op>, replies: seq<Reply>)
    requires f.pos <= |f.bytes|
  {
    |replies| <= |ops| && forall i {:trigger replies[i]} :: 0 <= i < |replies| ==>
      replies[i] == PlainReply(PlainRun(f, writable, ops[..i]), writable, ops[i])
  }

  lemma RunNext(f: Plain, writable: bool, ops: seq<Op>, i: nat)
    requires f.pos <= |f.bytes| && i < |ops|
    ensures PlainRun(f, writable, ops[..i + 1]) == PlainStep(PlainRun(f, writable, ops[..i]), writable, ops[i])
  {
    assert ops[..i + 1][..i] == ops[..i];
  }

  /** Any sequence of operations is one on a plain file. */
  method Run(m: MemFile, ops: seq<Op>) returns (replies: seq<Reply>)
    requires m.Valid()
    modifies m, m.buffer
    ensures m.Valid() && (m.buffer == old(m.buffer) || fresh(m.buffer))
    ensures m.File() == PlainRun(old(m.File()), m.writable, ops) && |replies| == |ops|
    ensures Answers(old(m.File()), m.writable, ops, replies)
  {
    replies := [];
    ghost var f := m.File();
    for i := 0 to |ops|
      invariant m.Valid() && (m.buffer == old(m.buffer) || fresh(m.buffer)) && |replies| == i
      invariant m.File() == PlainRun(f, m.writable, ops[..i]) && Answers(f, m.writable, ops, replies)
    {
      ghost var now := m.File();
      var reply := Perform(m, ops[i]);
      AnswersNext(f, m.writable, ops, replies, now, reply);
      replies := replies + [reply];
    }
    assert ops[..|ops|] == ops;
  }

  lemma AnswersNext(f: Plain, writable: bool, ops: seq<Op>, replies: seq<Reply>, now: Plain, reply: Reply)
    requires f.pos <= |f.bytes| && Answers(f, writable, ops, replies) && |replies| < |ops|
    requires now == PlainRun(f, writable, ops[..|replies|]) && now.pos <= |now.bytes| &&
      reply == PlainReply(now, writable, ops[|replies|])
    ensures Answers(f, writable, ops, replies + [reply])
    ensures PlainRun(f, writable, ops[..|replies| + 1]) == PlainStep(now, writable, ops[|replies|])
  {
    RunNext(f, writable, ops, |replies|);
  }

  /** What is written is what is read back there, and the rest of the file is as it was. */
  lemma ReadBack(f: Plain, data: seq<Byte>, p: nat, n: nat)
    requires f.pos <= |f.bytes| && p + n <= |f.bytes|
    ensures PlainRead(PlainWrite(f, data).(pos := f.pos), |data|) == data
    ensures p + n <= f.pos || f.pos + |data| <= p ==>
      PlainRead(PlainWrite(f, data).(pos := p), n) == PlainRead(f.(pos := p), n)
  {
    var g := PlainWrite(f, data);
    assert g.bytes[f.pos..f.pos + |data|] == data;
    if p + n <= f.pos {
      assert g.bytes[p..p + n] == f.bytes[p..p + n];
    } else if f.pos + |data| <= p {
      assert g.bytes[p..p + n] == f.bytes[p..p + n];
    }
  }

  /** A hole made by seeking reads as zeros, and what was there before is still there. */
  lemma HolesAreZero(f: Plain, position: nat)
    requires f.pos <= |f.bytes| && position > |f.bytes|
    ensures var g := PlainSeek(f, true, position, SeekSet);
      && PlainRead(g.(pos := |f.bytes|), position - |f.bytes|) == Fill(position - |f.bytes|, NUL)
      && PlainRead(g.(pos := 0), |f.bytes|) == f.bytes
  {
  }
}
