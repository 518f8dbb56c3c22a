/** The symbol map of an archive, written before the members whose positions it lists. */
module ArMap {
  import opened ArMembers
  import opened Bytes

  datatype Symbol = Symbol(name: seq<Byte>, exported: bool, common: bool, undefined: bool) {
    /** Whether the symbol goes into the map. */
    predicate Wanted() { (exported || common) && !undefined }
  }

  /** A line of the map: a symbol and the member that has it. */
  datatype Entry = Entry(name: seq<Byte>, owner: nat)

  // ---------- Collecting the symbols ----------

  function Wanted(syms: seq<Symbol>, owner: nat, k: nat): seq<Entry>
    requires k <= |syms|
  {
    if k == 0 then []
    else Wanted(syms, owner, k - 1) + if syms[k - 1].Wanted() then [Entry(syms[k - 1].name, owner)] else []
  }

  /** The map of the first k members. */
  function MapOf(tabs: seq<seq<Symbol>>, k: nat): seq<Entry>
    requires k <= |tabs|
  {
    if k == 0 then [] else MapOf(tabs, k - 1) + Wanted(tabs[k - 1], k - 1, |tabs[k - 1]|)
  }

  /** Entries come in the order of the members they belong to. */
  ghost predicate Ordered(entries: seq<Entry>) {
    forall i, j :: 0 <= i < j < |entries| ==> entries[i].owner <= entries[j].owner
  }

  ghost predicate OwnedBy(entries: seq<Entry>, lo: nat, hi: nat) {
    forall i :: 0 <= i < |entries| ==> lo <= entries[i].owner < hi
  }

  lemma {:induction false} WantedOwner(syms: seq<Symbol>, owner: nat, k: nat)
    requires k <= |syms|
    ensures OwnedBy(Wanted(syms, owner, k), owner, owner + 1)
  {
    if k > 0 {
      WantedOwner(syms, owner, k - 1);
    }
  }

  lemma {:induction false} MapOrdered(tabs: seq<seq<Symbol>>, k: nat)
    requires k <= |tabs|
    ensures Ordered(MapOf(tabs, k)) && OwnedBy(MapOf(tabs, k), 0, k)
  {
    if k > 0 {
      MapOrdered(tabs, k - 1);
      WantedOwner(tabs[k - 1], k - 1, |tabs[k - 1]|);
    }
  }

  /** The collecting loops of _bfd_compute_and_write_armap; stridx counts the bytes of the names. */
  method CollectMap(tabs: seq<seq<Symbol>>) returns (entries: seq<Entry>, stridx: nat)
    ensures entries == MapOf(tabs, |tabs|) && Ordered(entries) && OwnedBy(entries, 0, |tabs|)
    ensures stridx == |Concat(Strings(entries), |entries|)|
  {
    entries, stridx := [], 0;
    for i := 0 to |tabs|
      invariant entries == MapOf(tabs, i) && stridx == StringSize(entries)
    {
      ghost var before := entries;
      for j := 0 to |tabs[i]|
        invariant entries == before + Wanted(tabs[i], i, j) && stridx == StringSize(entries)
      {
        var sym := tabs[i][j];
        if sym.Wanted() {
          MoreStrings(entries, Entry(sym.name, i));
          entries := entries + [Entry(sym.name, i)];
          stridx := stridx + |sym.name| + 1;
        }
      }
    }
    MapOrdered(tabs, |tabs|);
  }

  // ---------- The parts of a map ----------

  /** The names, each with its NUL. */
  function Strings(entries: seq<Entry>): (cs: seq<seq<Byte>>)
    ensures |cs| == |entries| && forall i {:trigger cs[i]} :: 0 <= i < |cs| ==> cs[i] == entries[i].name + [NUL]
  {
    seq(|entries|, i requires 0 <= i < |entries| => entries[i].name + [NUL])
  }

  function StringSize(entries: seq<Entry>): nat {
    |Concat(Strings(entries), |entries|)|
  }

  /** Where the i-th name starts. */
  function NameIdx(entries: seq<Entry>, i: nat): nat
    requires i <= |entries|
  {
    |Concat(Strings(entries), i)|
  }

  lemma {:induction false} ConcatSame(cs: seq<seq<Byte>>, ds: seq<seq<Byte>>, k: nat)
    requires k <= |cs| && k <= |ds| && cs[..k] == ds[..k]
    ensures Concat(cs, k) == Concat(ds, k)
  {
    if k > 0 {
      assert cs[..k][k - 1] == ds[..k][k - 1];
      assert cs[..k - 1] == cs[..k][..k - 1] == ds[..k - 1];
      ConcatSame(cs, ds, k - 1);
    }
  }

  lemma MoreStrings(entries: seq<Entry>, e: Entry)
    ensures StringSize(entries + [e]) == StringSize(entries) + |e.name| + 1
  {
    var cs, ds := Strings(entries), Strings(entries + [e]);
    assert ds[|entries|] == e.name + [NUL];
    assert ds[..|entries|] == cs[..|entries|];
    ConcatSame(ds, cs, |entries|);
  }

  // ---------- Predicting positions ----------

  /** The three map writers. */
  datatype Kind = BsdKind | CoffKind | Elf64Kind

  /** What a writer adds for a member before it rounds up; only the COFF writer looks at thin archives. */
  function Step(kind: Kind, thin: bool, e: Elt): nat {
    match kind
    case BsdKind => |e.contents| + e.extra + HDR
    case CoffKind => HDR + if thin then 0 else |e.contents|
    case Elf64Kind => |e.contents| + HDR
  }

  function RoundUp(n: nat): nat { n + n % 2 }

  function Advance(kind: Kind, thin: bool, p: nat, e: Elt): nat {
    if kind.CoffKind? && thin then p + Step(kind, thin, e) else RoundUp(p + Step(kind, thin, e))
  }

  /** Where a writer expects the k-th member. */
  function Predict(kind: Kind, thin: bool, es: seq<Elt>, base: nat, k: nat): nat
    requires k <= |es|
  {
    if k == 0 then base else Advance(kind, thin, Predict(kind, thin, es, base, k - 1), es[k - 1])
  }

  /** By how much a writer is wrong about one member. */
  function Drift1(kind: Kind, thin: bool, e: Elt): int {
    (if thin && !kind.CoffKind? then RoundUp(|e.contents|) else 0) - if kind.BsdKind? then 0 else e.extra
  }

  function Drift(kind: Kind, thin: bool, es: seq<Elt>, k: nat): int
    requires k <= |es|
  {
    if k == 0 then 0 else Drift(kind, thin, es, k - 1) + Drift1(kind, thin, es[k - 1])
  }

  lemma StepDrift(kind: Kind, thin: bool, e: Elt, p: nat)
    requires e.Valid() && p % 2 == 0
    ensures Advance(kind, thin, p, e) == p + Room(thin, e) + Drift1(kind, thin, e) && Advance(kind, thin, p, e) % 2 == 0
  {
  }

  /** How far a map is off: a position is right exactly when the drift of the members before it is zero. */
  lemma {:induction false} PredictDrift(kind: Kind, thin: bool, es: seq<Elt>, base: nat, k: nat)
    requires AllValid(es) && k <= |es| && base % 2 == 0
    ensures Predict(kind, thin, es, base, k) == HeaderPos(thin, es, base, k) + Drift(kind, thin, es, k)
    ensures Predict(kind, thin, es, base, k) % 2 == 0
  {
    if k > 0 {
      PredictDrift(kind, thin, es, base, k - 1);
      StepDrift(kind, thin, es[k - 1], Predict(kind, thin, es, base, k - 1));
    }
  }

  /** A writer that may not be wrong about a member. */
  predicate Exact(kind: Kind, thin: bool, e: Elt) {
    match kind
    case BsdKind => !thin || e.contents == []
    case CoffKind => e.extra == 0
    case Elf64Kind => e.extra == 0 && (!thin || e.contents == [])
  }

  /** All errors have one sign: only in a 64-bit map of a thin archive with names behind headers two might cancel. */
  predicate OneSided(kind: Kind, thin: bool, es: seq<Elt>, k: nat)
    requires k <= |es|
  {
    kind.Elf64Kind? && thin ==> forall i :: 0 <= i < k ==> es[i].extra == 0
  }

  lemma {:induction false} DriftFree(kind: Kind, thin: bool, es: seq<Elt>, k: nat)
    requires k <= |es|
    ensures OneSided(kind, thin, es, k) ==>
      (Drift(kind, thin, es, k) == 0 <==> forall i :: 0 <= i < k ==> Exact(kind, thin, es[i]))
    ensures OneSided(kind, thin, es, k) ==>
      if kind.BsdKind? || (kind.Elf64Kind? && thin) then Drift(kind, thin, es, k) >= 0
      else Drift(kind, thin, es, k) <= 0
  {
    if k > 0 && OneSided(kind, thin, es, k) {
      DriftFree(kind, thin, es, k - 1);
      assert Drift1(kind, thin, es[k - 1]) == 0 <==> Exact(kind, thin, es[k - 1]);
    }
  }

  /**
    The positions in the map are those at which the members are written later, for every BSD map of an
    ordinary archive, every COFF map and every 64-bit map of an ordinary archive without BSD 4.4 names;
    and a wrong position can come from no other members than the ones excluded here.
   */
  lemma MapIsRight(kind: Kind, thin: bool, es: seq<Elt>, base: nat, k: nat)
    requires AllValid(es) && k <= |es| && base % 2 == 0
    ensures Predict(kind, thin, es, base, k) == HeaderPos(thin, es, base, k) <==> Drift(kind, thin, es, k) == 0
    ensures OneSided(kind, thin, es, k) ==>
      (Predict(kind, thin, es, base, k) == HeaderPos(thin, es, base, k) <==>
       forall i :: 0 <= i < k ==> Exact(kind, thin, es[i]))
  {
    PredictDrift(kind, thin, es, base, k);
    DriftFree(kind, thin, es, k);
  }
}
