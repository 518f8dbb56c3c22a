/**
  The ring of open files: BFDs linked in a circle through lru_next and lru_prev, bfd_last_cache
  pointing at the most recently used one, and the count of open files.  Every operation is proved
  against the sequence of BFDs that the circle spells out.
 */
module LruRing {
  import opened Bytes
  import opened CacheModel
  import opened Ring
  import opened Sequences

  /** The links of a BFD. */
  class Node {
    const bfd: Bfd
    var lruPrev: Node?
    var lruNext: Node?

    /** A BFD that is on no ring. */
    constructor (b: Bfd)
      ensures bfd == b && lruPrev == null && lruNext == null
    {
      bfd, lruPrev, lruNext := b, null, null;
    }
  }

  ghost predicate Forward(r: seq<Node>)
    reads r`lruNext
  {
    forall i {:trigger r[i].lruNext} :: 0 <= i < |r| ==> r[i].lruNext == r[Succ(i, |r|)]
  }

  ghost predicate Backward(r: seq<Node>)
    reads r`lruPrev
  {
    forall i {:trigger r[i].lruPrev} :: 0 <= i < |r| ==> r[i].lruPrev == r[Pred(i, |r|)]
  }

  lemma LiftIs<T>(r: seq<T>, k: nat, j: nat)
    requires k < |r| && j < |r| - 1
    ensures Without(r, k)[j] == r[Lift(j, k)]
  {
  }

  /** Bypassing position k going forward. */
  lemma SnipForward(r: seq<Node>, k: nat)
    requires k < |r|
    requires forall i {:trigger r[i].lruNext} :: 0 <= i < |r| ==>
      r[i].lruNext == r[Succ(if i == Pred(k, |r|) then k else i, |r|)]
    ensures Forward(Without(r, k))
  {
    var r' := Without(r, k);
    forall j | 0 <= j < |r| - 1
      ensures r'[j].lruNext == r'[Succ(j, |r| - 1)]
    {
      SnipIndex(j, k, |r|);
      LiftIs(r, k, j);
      LiftIs(r, k, Succ(j, |r| - 1));
    }
  }

  /** Bypassing position k going backward. */
  lemma SnipBackward(r: seq<Node>, k: nat)
    requires k < |r|
    requires forall i {:trigger r[i].lruPrev} :: 0 <= i < |r| ==>
      r[i].lruPrev == r[Pred(if i == Succ(k, |r|) then k else i, |r|)]
    ensures Backward(Without(r, k))
  {
    var r' := Without(r, k);
    forall j | 0 <= j < |r| - 1
      ensures r'[j].lruPrev == r'[Pred(j, |r| - 1)]
    {
      SnipIndex(j, k, |r|);
      LiftIs(r, k, j);
      LiftIs(r, k, Pred(j, |r| - 1));
    }
  }

  /** A new first element going forward. */
  lemma PushForward(r: seq<Node>, b: Node)
    requires r != [] && b.lruNext == r[0] && r[|r| - 1].lruNext == b
    requires forall i {:trigger r[i].lruNext} :: 0 <= i < |r| - 1 ==> r[i].lruNext == r[i + 1]
    ensures Forward([b] + r)
  {
    var r' := [b] + r;
    forall i | 0 <= i < |r'|
      ensures r'[i].lruNext == r'[Succ(i, |r'|)]
    {
      if i > 0 {
        assert r'[i] == r[i - 1];
      }
    }
  }

  /** A new first element going backward. */
  lemma PushBackward(r: seq<Node>, b: Node)
    requires r != [] && b.lruPrev == r[|r| - 1] && r[0].lruPrev == b
    requires forall i {:trigger r[i].lruPrev} :: 1 <= i < |r| ==> r[i].lruPrev == r[i - 1]
    ensures Backward([b] + r)
  {
    var r' := [b] + r;
    forall i | 0 <= i < |r'|
      ensures r'[i].lruPrev == r'[Pred(i, |r'|)]
    {
      if i > 0 {
        assert r'[i] == r[i - 1];
      }
    }
  }

  /** The nodes in ring are those of the BFDs in r. */
  ghost predicate SpellsOut(node: map<Bfd, Node>, ring: seq<Node>, r: seq<Bfd>) {
    |ring| == |r| && forall i {:trigger r[i]} :: 0 <= i < |r| ==> r[i] in node && node[r[i]] == ring[i]
  }

  lemma MovedSpells(node: map<Bfd, Node>, ring: seq<Node>, r: seq<Bfd>, b: Bfd, k: nat)
    requires SpellsOut(node, ring, r) && k < |r| && r[k] == b
    ensures SpellsOut(node, [node[b]] + Without(ring, k), [b] + Without(r, k))
  {
    var r' := [b] + Without(r, k);
    forall i {:trigger r'[i]} | 0 < i < |r'|
      ensures r'[i] in node && node[r'[i]] == ([node[b]] + Without(ring, k))[i]
    {
      assert r'[i] == r[if i <= k then i - 1 else i];
    }
  }

  lemma FirstStays(r: seq<Bfd>)
    requires r != []
    ensures MoveToFront(r, r[0]) == r
  {
    assert [r[0]] + Without(r, 0) == r;
  }

  class LruRing {
    /** The links of each BFD. */
    const node: map<Bfd, Node>
    ghost const nodes: set<Node>
    var last: Node?
    var openFiles: int
    ghost var ring: seq<Node>

    /** The circular links spell out the ghost sequence, most recently used first. */
    ghost predicate Linked()
      reads this, nodes
    {
      && NoDup(ring)
      && (forall n :: n in ring ==> n in nodes)
      && last == (if ring == [] then null else ring[0])
      && Forward(ring) && Backward(ring)
    }

    /** The links belong to the BFDs under whose names they are kept. */
    ghost predicate Own() {
      forall b {:trigger node[b]} :: b in node ==> node[b] in nodes && node[b].bfd == b
    }

    /** The ring is r. */
    ghost predicate Spells(r: seq<Bfd>)
      reads `ring
    {
      SpellsOut(node, ring, r)
    }

    /** Links, count and sequence agree. */
    ghost predicate Holds(r: seq<Bfd>)
      reads this, nodes
    {
      Linked() && Own() && Spells(r) && openFiles == |r|
    }

    /** No file is open yet. */
    constructor (node: map<Bfd, Node>)
      requires forall b :: b in node ==> node[b].bfd == b
      ensures Holds([]) && this.node == node && nodes == node.Values
    {
      last, openFiles, ring, this.node, this.nodes := null, 0, [], node, node.Values;
    }

    method Insert(abfd: Node)
      requires Linked() && abfd in nodes && abfd !in ring
      modifies `last, `ring, nodes
      ensures Linked() && ring == [abfd] + old(ring)
    {
      if last == null {
        abfd.lruNext := abfd;
        abfd.lruPrev := abfd;
      } else {
        assert last.lruPrev == ring[|ring| - 1];
        abfd.lruNext := last;
        abfd.lruPrev := last.lruPrev;
        abfd.lruPrev.lruNext := abfd;
        abfd.lruNext.lruPrev := abfd;
        PushForward(ring, abfd);
        PushBackward(ring, abfd);
      }
      last := abfd;
      ring := [abfd] + ring;
    }

    method Snip(abfd: Node, ghost k: nat)
      requires Linked() && k < |ring| && ring[k] == abfd
      modifies `last, `ring, nodes
      ensures Linked() && ring == Without(old(ring), k)
    {
      ghost var r, r' := ring, Without(ring, k);
      assert (k == 0 <==> abfd == last) && abfd.lruPrev == r[Pred(k, |r|)] && abfd.lruNext == r[Succ(k, |r|)];
      abfd.lruPrev.lruNext := abfd.lruNext;
      abfd.lruNext.lruPrev := abfd.lruPrev;
      assert Forward(r') by { SnipForward(r, k); }
      assert Backward(r') by { SnipBackward(r, k); }
      if abfd == last {
        last := abfd.lruNext;
        if abfd == last {
          last := null;
        }
      }
      ring := r';
      assert NoDup(r') && forall n :: n in r' ==> n in nodes by { WithoutMembers(r, k); }
    }

    /** Where a BFD is on the ring: its links are there once. */
    lemma Place(r: seq<Bfd>, b: Bfd) returns (k: nat)
      requires Linked() && Spells(r) && b in r
      ensures k == IndexOf(r, b) && k < |ring| && b in node && ring[k] == node[b]
    {
      k := IndexOf(r, b);
      assert r[k] == b;
    }

    lemma Once(r: seq<Bfd>)
      requires Linked() && Spells(r)
      ensures NoDup(r)
    {
    }

    /** bfd_cache_delete, apart from the stream: the BFD leaves the ring and the count goes down. */
    method Delete(b: Bfd, ghost r: seq<Bfd>)
      requires Holds(r) && b in r
      modifies this, nodes
      ensures Holds(Without(r, IndexOf(r, b)))
    {
      ghost var k := Place(r, b);
      Snip(node[b], k);
      openFiles := openFiles - 1;
    }

    /** The move to the front in bfd_cache_lookup_worker. */
    method Touch(b: Bfd, ghost r: seq<Bfd>)
      requires Holds(r) && b in r
      modifies this, nodes
      ensures Holds(MoveToFront(r, b))
    {
      ghost var k := Place(r, b);
      if node[b] != last {
        MovedSpells(node, ring, r, b, k);
        WithoutMembers(ring, k);
        Snip(node[b], k);
        Insert(node[b]);
      } else {
        FirstStays(r);
      }
    }

    /** The end of bfd_cache_init: the BFD goes to the front and is counted. */
    method Enter(b: Bfd, ghost r: seq<Bfd>)
      requires Holds(r) && b in node && b !in r
      modifies this, nodes
      ensures Holds([b] + r)
    {
      forall i {:trigger ring[i]} | 0 <= i < |ring|
        ensures ring[i] != node[b]
      {
        assert node[r[i]] == ring[i];
      }
      Insert(node[b]);
      assert node[b] in nodes;
      openFiles := openFiles + 1;
    }
  }

  /** The scan of close_one, from the least recently used file towards the head of the ring. */
  method FindVictim(lru: LruRing, st: States, ghost r: seq<Bfd>) returns (toKill: Option<Bfd>)
    requires lru.Holds(r)
    ensures var k := Victim(r, st); toKill == if k < 0 then None else Some(r[k])
  {
    if lru.last == null {
      return None;
    }
    var n := lru.last.lruPrev;
    ghost var k := |lru.ring| - 1;
    while !Cacheable(n.bfd, st)
      invariant 0 <= k < |lru.ring| && n == lru.ring[k] && n.bfd == r[k]
      invariant forall i :: k < i < |r| ==> !Cacheable(r[i], st)
      decreases k
    {
      if n == lru.last {
        return None;
      }
      n := n.lruPrev;
      k := k - 1;
      assert lru.node[r[k]] == lru.ring[k];
    }
    return Some(n.bfd);
  }
}
