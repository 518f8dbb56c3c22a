/** Positions on a circular list. */
module Ring {

  function Succ(i: nat, n: nat): (j: nat)
    requires i < n
  {
    if i + 1 == n then 0 else i + 1
  }

  function Pred(i: nat, n: nat): (j: nat)
    requires i < n
  {
    if i == 0 then n - 1 else i - 1
  }

  /** The position, before position k was deleted, of what is now at position j. */
  function Lift(j: nat, k: nat): (i: nat) {
    if j < k then j else j + 1
  }

  /** Deleting position k makes its two neighbours adjacent and keeps all other adjacencies. */
  lemma SnipIndex(j: nat, k: nat, n: nat)
    requires j < n - 1 && k < n
    ensures Lift(Succ(j, n - 1), k) == Succ(if Lift(j, k) == Pred(k, n) then k else Lift(j, k), n)
    ensures Lift(Pred(j, n - 1), k) == Pred(if Lift(j, k) == Succ(k, n) then k else Lift(j, k), n)
  {
  }
}
