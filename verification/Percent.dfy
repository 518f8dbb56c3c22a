/** Making text safe for a format string: every percent sign is doubled, in the buffer that holds it. */
module Percent {
  import opened Bytes

  const PERCENT: Byte := 37

  function Doubled(s: seq<Byte>): seq<Byte> {
    if s == [] then [] else (if s[0] == PERCENT then [PERCENT, PERCENT] else [s[0]]) + Doubled(s[1..])
  }

  function Count(s: seq<Byte>): nat {
    if s == [] then 0 else (if s[0] == PERCENT then 1 else 0) + Count(s[1..])
  }

  /** Reading a format string without conversions: a doubled percent sign stands for one. */
  function Printed(s: seq<Byte>): seq<Byte> {
    if s == [] then []
    else if s[0] == PERCENT && |s| > 1 && s[1] == PERCENT then [PERCENT] + Printed(s[2..])
    else [s[0]] + Printed(s[1..])
  }

  /** What is printed is the text that was inserted. */
  lemma {:induction false} PrintsBack(s: seq<Byte>)
    ensures Printed(Doubled(s)) == s
  {
    if s != [] {
      PrintsBack(s[1..]);
      if s[0] == PERCENT {
        assert Doubled(s)[2..] == Doubled(s[1..]);
      } else {
        assert Doubled(s)[1..] == Doubled(s[1..]);
      }
    }
  }

  lemma {:induction false} DoubledLength(s: seq<Byte>)
    ensures |Doubled(s)| == |s| + Count(s)
  {
    if s != [] {
      DoubledLength(s[1..]);
    }
  }

  lemma {:induction false} CountSplit(s: seq<Byte>, i: nat)
    requires i <= |s|
    ensures Count(s) == Count(s[..i]) + Count(s[i..])
  {
    if i > 0 {
      CountSplit(s[1..], i - 1);
      assert s[..i][1..] == s[1..][..i - 1] && s[1..][i - 1..] == s[i..];
    } else {
      assert s[..0] == [] && s[0..] == s;
    }
  }

  /** The loop that counts percent signs. */
  method CountPercents(s: seq<Byte>) returns (extra: nat)
    ensures extra == Count(s)
  {
    extra := 0;
    for i := 0 to |s|
      invariant extra == Count(s[..i])
    {
      CountSplit(s[..i + 1], i);
      assert s[..i + 1][..i] == s[..i] && s[..i + 1][i..] == [s[i]];
      assert Count([s[i]]) == (if s[i] == PERCENT then 1 else 0) + Count([]);
      if s[i] == PERCENT {
        extra := extra + 1;
      }
    }
    assert s[..|s|] == s;
  }

  /**
    The state of the shuffle of a string t, with its NUL, at start: its first n characters are where
    they were and have extra percent signs among them; the rest is doubled and in its final place.
   */
  ghost predicate Shuffled(a: seq<Byte>, start: nat, t: seq<Byte>, n: nat, extra: nat) {
    && n <= |t| && extra == Count(t[..n])
    && At(a, start, t[..n]) && At(a, start + n + extra, Doubled(t[n..]))
  }

  lemma {:induction false} CountLast(t: seq<Byte>, n: nat)
    requires 0 < n <= |t|
    ensures Count(t[..n]) == Count(t[..n - 1]) + (if t[n - 1] == PERCENT then 1 else 0)
  {
    CountSplit(t[..n], n - 1);
    assert t[..n][..n - 1] == t[..n - 1] && t[..n][n - 1..] == [t[n - 1]];
    assert Count([t[n - 1]]) == (if t[n - 1] == PERCENT then 1 else 0) + Count([]);
  }

  lemma DoubledFrom(t: seq<Byte>, n: nat)
    requires 0 < n <= |t|
    ensures Doubled(t[n - 1..]) == (if t[n - 1] == PERCENT then [PERCENT, PERCENT] else [t[n - 1]]) + Doubled(t[n..])
  {
    assert t[n - 1..][1..] == t[n..];
  }

  /** A character other than a percent sign moves up by extra places. */
  lemma PlainMove(a: seq<Byte>, start: nat, t: seq<Byte>, n: nat, extra: nat, a': seq<Byte>)
    requires Shuffled(a, start, t, n, extra) && n > 0 && extra > 0 && t[n - 1] != PERCENT
    requires start + n - 1 + extra < |a| && a' == a[start + n - 1 + extra := t[n - 1]]
    ensures Shuffled(a', start, t, n - 1, extra)
  {
    CountLast(t, n);
    DoubledFrom(t, n);
    assert t[..n - 1] == t[..n][..n - 1];
    AtPart(a, start, t[..n], 0, n - 1);
    AtUpdate(a, start, t[..n - 1], start + n - 1 + extra, t[n - 1]);
    Front(a, start + n - 1 + extra, t[n - 1], Doubled(t[n..]));
  }

  /** A percent sign moves up, and its double goes in front of it: from now on the shift is one less. */
  lemma PercentMove(a: seq<Byte>, start: nat, t: seq<Byte>, n: nat, extra: nat, p: nat, a': seq<Byte>)
    requires Shuffled(a, start, t, n, extra) && n > 0 && extra > 0 && t[n - 1] == PERCENT
    requires p == start + n - 1 + extra < |a| && a' == a[p := PERCENT][p - 1 := PERCENT]
    ensures Shuffled(a', start, t, n - 1, extra - 1)
  {
    CountLast(t, n);
    var rest := Doubled(t[n..]);
    DoubledFrom(t, n);
    assert t[..n - 1] == t[..n][..n - 1];
    AtPart(a, start, t[..n], 0, n - 1);
    TwoInFront(a, start, t[..n - 1], p, rest);
  }

  lemma TwoInFront(a: seq<Byte>, start: nat, s: seq<Byte>, p: nat, rest: seq<Byte>)
    requires At(a, start, s) && start + |s| < p < |a| && At(a, p + 1, rest)
    ensures var a' := a[p := PERCENT][p - 1 := PERCENT]; At(a', start, s) && At(a', p - 1, [PERCENT, PERCENT] + rest)
  {
    var b := a[p := PERCENT];
    AtUpdate(a, start, s, p, PERCENT);
    AtUpdate(b, start, s, p - 1, PERCENT);
    Front(a, p, PERCENT, rest);
    Front(b, p - 1, PERCENT, [PERCENT] + rest);
    assert [PERCENT, PERCENT] + rest == [PERCENT] + ([PERCENT] + rest);
  }

  /** What lies in front of a change is not touched by it. */
  lemma AtUpdate(a: seq<Byte>, p: nat, s: seq<Byte>, i: nat, c: Byte)
    requires At(a, p, s) && p + |s| <= i < |a|
    ensures At(a[i := c], p, s)
  {
  }

  /** A character put in front of what stands behind it. */
  lemma Front(a: seq<Byte>, i: nat, c: Byte, s: seq<Byte>)
    requires i < |a| && At(a, i + 1, s)
    ensures At(a[i := c], i, [c] + s)
  {
  }

  lemma {:induction false} NothingToDouble(s: seq<Byte>)
    requires Count(s) == 0
    ensures Doubled(s) == s
  {
    if s != [] {
      NothingToDouble(s[1..]);
      assert s == [s[0]] + s[1..];
    }
  }

  lemma {:induction false} DoubledAppend(s: seq<Byte>, t: seq<Byte>)
    ensures Doubled(s + t) == Doubled(s) + Doubled(t)
  {
    if s == [] {
      assert s + t == t;
    } else {
      assert (s + t)[1..] == s[1..] + t;
      DoubledAppend(s[1..], t);
    }
  }

  /** When no percent sign is left in front, everything is in place. */
  lemma ShuffleDone(a: seq<Byte>, start: nat, t: seq<Byte>, n: nat)
    requires Shuffled(a, start, t, n, 0)
    ensures At(a, start, Doubled(t))
  {
    NothingToDouble(t[..n]);
    DoubledAppend(t[..n], t[n..]);
    assert t == t[..n] + t[n..];
    AtJoin(a, start, t[..n], Doubled(t[n..]), start + n);
  }

  lemma ShuffleStarts(a: seq<Byte>, start: nat, t: seq<Byte>)
    requires At(a, start, t) && start + |t| + Count(t) <= |a|
    ensures Shuffled(a, start, t, |t|, Count(t))
  {
    assert t[..|t|] == t && t[|t|..] == [];
  }

  /** A percent sign is among the first n characters, so its place has room. */
  lemma RoomLeft(a: seq<Byte>, start: nat, t: seq<Byte>, n: nat, extra: nat)
    requires Shuffled(a, start, t, n, extra) && extra > 0
    ensures n > 0 && start + n - 1 + extra < |a| && a[start + n - 1] == t[n - 1]
  {
    assert t[..0] == [];
    assert a[start..start + n][n - 1] == t[n - 1];
  }

  /** One character of the shuffle: it moves up, and a percent sign gets its double. */
  method MoveUp(a: array<Byte>, start: nat, ghost t: seq<Byte>, q: nat, extra: nat) returns (rest: nat)
    requires start <= q + 1 <= a.Length && extra > 0 && Shuffled(a[..], start, t, q + 1 - start, extra)
    modifies a
    ensures start <= q && Shuffled(a[..], start, t, q - start, rest) && a[..start] == old(a[..start])
    ensures rest <= extra && forall i {:trigger a[i]} :: q + extra < i < a.Length ==> a[i] == old(a[i])
  {
    ghost var n, before := q + 1 - start, a[..];
    RoomLeft(before, start, t, n, extra);
    a[q + extra] := a[q];
    rest := extra;
    if a[q] != PERCENT {
      PlainMove(before, start, t, n, extra, a[..]);
    } else {
      rest := rest - 1;
      a[q + rest] := PERCENT;
      PercentMove(before, start, t, n, extra, q + extra, a[..]);
    }
  }

  /** The shuffle, from the NUL at start + len towards the front. */
  method Shuffle(a: array<Byte>, start: nat, ghost t: seq<Byte>, len: nat, count: nat)
    requires |t| == len + 1 && start + len < a.Length && Shuffled(a[..], start, t, |t|, count)
    modifies a
    ensures At(a[..], start, Doubled(t)) && a[..start] == old(a[..start])
    ensures forall i {:trigger a[i]} :: start + len + count < i < a.Length ==> a[i] == old(a[i])
  {
    var extra, q := count, start + len;
    while extra != 0
      invariant start <= q + 1 <= a.Length && a[..start] == old(a[..start])
      invariant Shuffled(a[..], start, t, q + 1 - start, extra) && q + extra <= start + len + count
      invariant forall i {:trigger a[i]} :: start + len + count < i < a.Length ==> a[i] == old(a[i])
      decreases q + 1
    {
      extra := MoveUp(a, start, t, q, extra);
      q := q - 1;
    }
    ShuffleDone(a[..], start, t, q + 1 - start);
  }

  /**
    Percent doubling in _bfd_default_error_handler when nothing has to be cut off: text of len
    characters and its NUL stand at start; each character moves up by the number of percent signs
    up to it.  The result is the new position of the NUL.
   */
  method DoublePercents(a: array<Byte>, start: nat, len: nat) returns (end: nat)
    requires start + len < a.Length && NUL !in a[start..start + len] && a[start + len] == NUL
    requires start + len + Count(a[start..start + len]) < a.Length
    modifies a
    ensures a[..start] == old(a[..start])
    ensures var s := old(a[start..start + len]); At(a[..], start, Doubled(s) + [NUL]) && end == start + |Doubled(s)|
    ensures forall i {:trigger a[i]} :: end < i < a.Length ==> a[i] == old(a[i])
  {
    ghost var s := a[start..start + len];
    AppendNul(s);
    DoubledLength(s);
    var extra := CountPercents(a[start..start + len]);
    end := start + len + extra;
    assert a[start..start + len + 1] == s + [NUL];
    ShuffleStarts(a[..], start, s + [NUL]);
    Shuffle(a, start, s + [NUL], len, extra);
  }

  lemma AppendNul(s: seq<Byte>)
    ensures Count(s + [NUL]) == Count(s) && Doubled(s + [NUL]) == Doubled(s) + [NUL]
  {
    DoubledAppend(s, [NUL]);
    CountSplit(s + [NUL], |s|);
    assert (s + [NUL])[..|s|] == s && (s + [NUL])[|s|..] == [NUL];
    assert Count([NUL]) == 0 && Doubled([NUL]) == [NUL] + Doubled([]);
  }
}
