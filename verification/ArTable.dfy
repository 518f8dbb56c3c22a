/** The extended name table of an archive: how it is sized, filled, cleaned up on reading and referred to. */
module ArTable {
  import opened ArNames
  import opened Bytes

  /** The line stands at off, at the beginning of the table or behind another line. */
  ghost predicate LineIn(t: seq<Byte>, off: nat, line: seq<Byte>) {
    At(t, off, line) && (off > 0 ==> t[off - 1] == NEWLINE)
  }

  lemma LineBehind(t: seq<Byte>, line: seq<Byte>)
    requires t != [] ==> t[|t| - 1] == NEWLINE
    ensures LineIn(t + line, |t|, line)
  {
  }

  lemma LineStays(t: seq<Byte>, more: seq<Byte>, off: nat, line: seq<Byte>)
    requires LineIn(t, off, line)
    ensures LineIn(t + more, off, line)
  {
  }

  /** The members' names in order; a thin archive keeps every name in the table. */
  datatype Naming = Naming(style: Style, thin: bool, names: seq<seq<Byte>>) {

    predicate InTable(k: nat)
      requires k < |names|
    {
      thin || |names[k]| > style.MaxName()
    }

    /** A thin archive stores a name that is the same as the one before it only once. */
    predicate Repeated(k: nat)
      requires k < |names|
    {
      thin && k > 0 && names[k] == names[k - 1]
    }

    function Terminator(): seq<Byte> {
      if style.TrailingSlash() then [SLASH, NEWLINE] else [NEWLINE]
    }

    function Entry(k: nat): seq<Byte>
      requires k < |names|
    {
      if InTable(k) && !Repeated(k) then names[k] + Terminator() else []
    }

    /** The table for the first k names. */
    function Table(k: nat): seq<Byte>
      requires k <= |names|
    {
      if k == 0 then [] else Table(k - 1) + Entry(k - 1)
    }

    /** Where the k-th name starts in the table. */
    function Offset(k: nat): nat
      requires k < |names|
    {
      if Repeated(k) then Offset(k - 1) else |Table(k)|
    }

    /** The name field of the k-th header. */
    function Field(k: nat): (f: seq<Byte>)
      requires k < |names|
      ensures |f| == 16
    {
      if InTable(k) then LongField(style, Offset(k)) else ShortField(style, names[k])
    }

    lemma {:induction false} TableGrows(j: nat, k: nat)
      requires j <= k <= |names|
      ensures Table(j) <= Table(k)
    {
      if j < k {
        TableGrows(j, k - 1);
      }
    }

    /** Each name stands in the table at its offset, at the beginning of a line and before the terminator. */
    lemma {:induction false} TableHolds(k: nat)
      requires k < |names| && InTable(k)
      ensures LineIn(Table(|names|), Offset(k), names[k] + Terminator())
    {
      if Repeated(k) {
        TableHolds(k - 1);
      } else {
        LineStands(k, |names|, names[k] + Terminator());
      }
    }

    lemma {:induction false} LineStands(k: nat, end: nat, line: seq<Byte>)
      requires k < end <= |names| && Entry(k) == line
      ensures LineIn(Table(end), |Table(k)|, line)
    {
      if k + 1 == end {
        LinesEnd(k);
        LineBehind(Table(k), line);
      } else {
        LineStands(k, end - 1, line);
        LineStays(Table(end - 1), Entry(end - 1), |Table(k)|, line);
      }
    }

    lemma {:induction false} LinesEnd(k: nat)
      requires k <= |names|
      ensures Table(k) != [] ==> Table(k)[|Table(k)| - 1] == NEWLINE
    {
      if k > 0 {
        LinesEnd(k - 1);
      }
    }
  }

  // ---------- Building the table ----------

  /** The first pass: how long the table is going to be. */
  method SizeTable(n: Naming) returns (total: nat)
    ensures total == |n.Table(|n.names|)|
  {
    total := 0;
    var last := None;
    for k := 0 to |n.names|
      invariant total == |n.Table(k)|
      invariant n.thin ==> last == if k == 0 then None else Some(n.names[k - 1])
    {
      var name := n.names[k];
      if n.thin {
        if last == Some(name) {
          continue;
        }
        last := Some(name);
        total := total + |name| + 1;
        if n.style.TrailingSlash() {
          total := total + 1;
        }
      } else if |name| > n.style.MaxName() {
        total := total + |name| + 1;
        if n.style.TrailingSlash() {
          total := total + 1;
        }
      }
    }
  }

  /** strcpy into a table: the string and its NUL. */
  method StringCopy(tab: array<Byte>, at: nat, s: seq<Byte>)
    requires at + |s| < tab.Length
    modifies tab
    ensures tab[..at] == old(tab[..at]) && tab[at..at + |s|] == s
  {
    for i := 0 to |s|
      invariant tab[..at] == old(tab[..at]) && tab[at..at + i] == s[..i]
    {
      tab[at + i] := s[i];
    }
    tab[at + |s|] := NUL;
  }

  /** There is room for the k-th name where the second pass puts it. */
  lemma RoomForEntry(n: Naming, k: nat)
    requires k < |n.names|
    ensures |n.Table(k)| + |n.Entry(k)| <= |n.Table(|n.names|)|
  {
    n.TableGrows(k + 1, |n.names|);
  }

  /** A name and its terminator. */
  method PutLine(n: Naming, tab: array<Byte>, at: nat, name: seq<Byte>)
    requires at + |name| + |n.Terminator()| <= tab.Length
    modifies tab
    ensures tab[..at] == old(tab[..at]) && tab[at..at + |name| + |n.Terminator()|] == name + n.Terminator()
  {
    StringCopy(tab, at, name);
    if !n.style.TrailingSlash() {
      tab[at + |name|] := NEWLINE;
    } else {
      tab[at + |name|] := SLASH;
      tab[at + |name| + 1] := NEWLINE;
    }
    assert tab[at..at + |name|] == name;
  }

  /** One entry of the second pass. */
  method PutEntry(n: Naming, tab: array<Byte>, at: nat, k: nat)
    requires k < |n.names| && n.InTable(k) && !n.Repeated(k)
    requires at == |n.Table(k)| <= tab.Length == |n.Table(|n.names|)| && tab[..at] == n.Table(k)
    modifies tab
    ensures at + |n.Entry(k)| <= tab.Length && tab[..at + |n.Entry(k)|] == n.Table(k + 1)
  {
    RoomForEntry(n, k);
    ghost var line := n.names[k] + n.Terminator();
    PutLine(n, tab, at, n.names[k]);
    Joined(tab[..], at, n.Table(k), line);
  }

  lemma Joined(t: seq<Byte>, at: nat, a: seq<Byte>, b: seq<Byte>)
    requires at + |b| <= |t| && t[..at] == a && t[at..at + |b|] == b
    ensures t[..at + |b|] == a + b
  {
    assert t[..at + |b|] == t[..at] + t[at..at + |b|];
  }

  ghost predicate Named(n: Naming, fields: seq<seq<Byte>>) {
    |fields| <= |n.names| && forall k {:trigger fields[k]} :: 0 <= k < |fields| ==> fields[k] == n.Field(k)
  }

  lemma NamedNext(n: Naming, fields: seq<seq<Byte>>, field: seq<Byte>)
    requires Named(n, fields) && |fields| < |n.names| && field == n.Field(|fields|)
    ensures Named(n, fields + [field])
  {
  }

  /** What the second pass remembers of the name before. */
  ghost predicate LastSeen(n: Naming, k: nat, last: Option<seq<Byte>>, lastOff: nat)
    requires k <= |n.names|
  {
    n.thin ==> if k == 0 then last == None else last == Some(n.names[k - 1]) && lastOff == n.Offset(k - 1)
  }

  /** The table is filled up to the k-th name. */
  ghost predicate FilledTo(n: Naming, tab: array<Byte>, at: nat, k: nat)
    requires k <= |n.names|
    reads tab
  {
    at == |n.Table(k)| <= tab.Length == |n.Table(|n.names|)| && tab[..at] == n.Table(k)
  }

  /** One name of the second pass: its field, and its entry unless it repeats the name before. */
  method PutName(n: Naming, tab: array<Byte>, at: nat, k: nat, last: Option<seq<Byte>>, lastOff: nat)
    returns (field: seq<Byte>, at': nat, last': Option<seq<Byte>>, lastOff': nat)
    requires k < |n.names| && FilledTo(n, tab, at, k) && LastSeen(n, k, last, lastOff)
    modifies tab
    ensures FilledTo(n, tab, at', k + 1) && LastSeen(n, k + 1, last', lastOff') && field == n.Field(k)
  {
    var name := n.names[k];
    at', last', lastOff' := at, last, lastOff;
    if |name| > n.style.MaxName() || n.thin {
      if n.thin && last == Some(name) {
        field := LongField(n.style, lastOff);
      } else {
        PutEntry(n, tab, at, k);
        field := LongField(n.style, at);
        lastOff', last' := at, Some(name);
        at' := at + |name| + 1;
        if n.style.TrailingSlash() {
          at' := at' + 1;
        }
      }
    } else {
      field := ShortField(n.style, name);
    }
  }

  method AddName(n: Naming, tab: array<Byte>, at: nat, last: Option<seq<Byte>>, lastOff: nat, fields: seq<seq<Byte>>)
    returns (fields': seq<seq<Byte>>, at': nat, last': Option<seq<Byte>>, lastOff': nat)
    requires |fields| < |n.names| && Named(n, fields)
    requires FilledTo(n, tab, at, |fields|) && LastSeen(n, |fields|, last, lastOff)
    modifies tab
    ensures |fields'| == |fields| + 1 && Named(n, fields')
    ensures FilledTo(n, tab, at', |fields'|) && LastSeen(n, |fields'|, last', lastOff')
  {
    var field;
    field, at', last', lastOff' := PutName(n, tab, at, |fields|, last, lastOff);
    NamedNext(n, fields, field);
    fields' := fields + [field];
  }

  /** Both passes: the writes stay inside the table, fill it, and the headers refer to the names. */
  method BuildTable(n: Naming) returns (tab: array<Byte>, fields: seq<seq<Byte>>)
    ensures fresh(tab) && tab[..] == n.Table(|n.names|)
    ensures |fields| == |n.names| && Named(n, fields)
  {
    var total := SizeTable(n);
    tab := new Byte[total];
    fields := [];
    var at, last, lastOff := 0, None, 0;
    while |fields| < |n.names|
      invariant fresh(tab) && Named(n, fields)
      invariant FilledTo(n, tab, at, |fields|) && LastSeen(n, |fields|, last, lastOff)
    {
      fields, at, last, lastOff := AddName(n, tab, at, last, lastOff, fields);
    }
    assert tab[..] == tab[..tab.Length];
  }

  // ---------- Reading the table ----------

  function Unix(b: Byte): Byte { if b == BACKSLASH then SLASH else b }

  /** A byte of the table after the cleanup: lines end in a NUL, in place of the newline or of the slash before it. */
  function CleanAt(s: seq<Byte>, i: nat): Byte
    requires i < |s|
  {
    if s[i] == NEWLINE then (if i > 0 && Unix(s[i - 1]) == SLASH then NEWLINE else NUL)
    else if i + 1 < |s| && s[i + 1] == NEWLINE && Unix(s[i]) == SLASH then NUL
    else Unix(s[i])
  }

  /** The table as the library holds it after reading, up to the NUL that it puts at the end. */
  function Cleaned(s: seq<Byte>): (r: seq<Byte>)
    ensures |r| == |s|
  {
    seq(|s|, i requires 0 <= i < |s| => CleanAt(s, i))
  }

  /** The cleanup pass, left to right and in place; each step looks at what the one before it left. */
  method CleanTable(a: array<Byte>)
    requires a.Length > 0
    modifies a
    ensures a[a.Length - 1] == NUL && a[..a.Length - 1] == Cleaned(old(a[..a.Length - 1]))
  {
    var limit := a.Length - 1;
    ghost var s := a[..limit];
    for t := 0 to limit
      invariant forall i {:trigger a[i]} :: 0 <= i < t ==> a[i] == CleanAt(s[..t], i)
      invariant forall i {:trigger a[i]} :: t <= i < limit ==> a[i] == s[i]
    {
      CleanStep(s, t);
      if a[t] == NEWLINE {
        a[if t > 0 && a[t - 1] == SLASH then t - 1 else t] := NUL;
      }
      if a[t] == BACKSLASH {
        a[t] := SLASH;
      }
    }
    assert s[..limit] == s;
    a[limit] := NUL;
  }

  /** Looking one byte further changes the last byte only, and only before a newline. */
  lemma CleanStep(s: seq<Byte>, t: nat)
    requires t < |s|
    ensures forall i :: 0 <= i < t - 1 ==> CleanAt(s[..t + 1], i) == CleanAt(s[..t], i)
    ensures var slash := t > 0 && CleanAt(s[..t], t - 1) == SLASH;
      && (t > 0 ==> CleanAt(s[..t + 1], t - 1) == (if s[t] == NEWLINE && slash then NUL else CleanAt(s[..t], t - 1)))
      && CleanAt(s[..t + 1], t) == (if s[t] != NEWLINE then Unix(s[t]) else if slash then NEWLINE else NUL)
  {
  }

  /** Names that survive the table. */
  predicate TableName(style: Style, name: seq<Byte>) {
    && name != [] && NUL !in name && NEWLINE !in name && BACKSLASH !in name
    && (style.TrailingSlash() || name[|name| - 1] != SLASH)
  }

  lemma CleanedName(s: seq<Byte>, off: nat, n: Naming, name: seq<Byte>)
    requires At(s, off, name + n.Terminator()) && TableName(n.style, name)
    ensures CString(Cleaned(s)[off..]) == name
  {
    var r := Cleaned(s);
    forall i | 0 <= i < |name|
      ensures r[off + i] == name[i]
    {
      NameByte(s, off, n, name, i);
    }
    NameEnd(s, off, n, name);
    assert r[off..] == name + r[off + |name|..];
    CStringOf(name, r[off + |name|..]);
  }

  /** A byte of a good name is left alone. */
  lemma NameByte(s: seq<Byte>, off: nat, n: Naming, name: seq<Byte>, i: nat)
    requires At(s, off, name + n.Terminator()) && TableName(n.style, name) && i < |name|
    ensures Cleaned(s)[off + i] == name[i]
  {
    var line := name + n.Terminator();
    AtIndex(s, off, line, i);
    AtIndex(s, off, line, i + 1);
    assert name[i] in name && line[i] == name[i];
    if i + 1 < |name| {
      assert line[i + 1] in name;
    } else {
      assert line[i + 1] == n.Terminator()[0];
    }
  }

  /** The byte behind a good name becomes the NUL. */
  lemma NameEnd(s: seq<Byte>, off: nat, n: Naming, name: seq<Byte>)
    requires At(s, off, name + n.Terminator()) && TableName(n.style, name)
    ensures off + |name| < |s| && Cleaned(s)[off + |name|] == NUL
  {
    var line := name + n.Terminator();
    AtIndex(s, off, line, |name|);
    AtIndex(s, off, line, |name| - 1);
    assert line[|name|] == n.Terminator()[0] && line[|name| - 1] == name[|name| - 1] && name[|name| - 1] in name;
    if n.style.TrailingSlash() {
      AtIndex(s, off, line, |name| + 1);
      assert line[|name| + 1] == n.Terminator()[1];
    }
  }

  /** Any other name on a line of its own comes back changed: find the byte that differs. */
  lemma ChangedByte(s: seq<Byte>, off: nat, n: Naming, name: seq<Byte>) returns (i: nat)
    requires At(s, off, name + n.Terminator()) && (off > 0 ==> s[off - 1] == NEWLINE)
    requires name != [] && NUL !in name && !TableName(n.style, name)
    ensures i < |name| && Cleaned(s)[off + i] != name[i]
  {
    var line := name + n.Terminator();
    if NEWLINE in name {
      i :| 0 <= i < |name| && name[i] == NEWLINE;
      AtIndex(s, off, line, i);
      if i > 0 {
        AtIndex(s, off, line, i - 1);
      }
      if Cleaned(s)[off + i] == NEWLINE {
        i := i - 1;
      }
    } else if BACKSLASH in name {
      i :| 0 <= i < |name| && name[i] == BACKSLASH;
      AtIndex(s, off, line, i);
    } else {
      i := |name| - 1;
      AtIndex(s, off, line, i);
      AtIndex(s, off, line, i + 1);
    }
  }

  /** The table as it is written: filled up to an even length. */
  function Evened(table: seq<Byte>): seq<Byte> {
    if |table| % 2 == 1 then table + [NEWLINE] else table
  }

  lemma LineRecovered(s: seq<Byte>, off: nat, n: Naming, name: seq<Byte>)
    requires At(s, off, name + n.Terminator()) && (off > 0 ==> s[off - 1] == NEWLINE) && name != []
    ensures CString(Cleaned(s)[off..]) == name <==> TableName(n.style, name)
  {
    if TableName(n.style, name) {
      CleanedName(s, off, n, name);
    } else if NUL !in name {
      var i := ChangedByte(s, off, n, name);
      assert Cleaned(s)[off..][i] != name[i];
    }
  }

  lemma EvenedKeeps(table: seq<Byte>, off: nat, line: seq<Byte>)
    requires At(table, off, line) && line != []
    ensures At(Evened(table), off, line) && off < |Evened(table)| &&
      (off > 0 ==> Evened(table)[off - 1] == table[off - 1])
  {
  }

  /** The name that the reader finds in the table. */
  predicate ComesBack(table: seq<Byte>, off: nat, name: seq<Byte>)
    requires off <= |Evened(table)|
  {
    CString(Cleaned(Evened(table))[off..]) == name
  }

  /** A name comes back from the table exactly when it has no character that the cleanup takes for its own. */
  lemma {:induction false} TableRecovered(n: Naming, k: nat)
    requires k < |n.names| && n.InTable(k) && n.names[k] != []
    ensures n.Offset(k) < |Evened(n.Table(|n.names|))|
    ensures ComesBack(n.Table(|n.names|), n.Offset(k), n.names[k]) <==> TableName(n.style, n.names[k])
  {
    n.TableHolds(k);
    EvenedLine(n, n.Table(|n.names|), n.Offset(k), n.names[k]);
  }

  lemma EvenedLine(n: Naming, table: seq<Byte>, off: nat, name: seq<Byte>)
    requires LineIn(table, off, name + n.Terminator()) && name != []
    ensures off < |Evened(table)| && (ComesBack(table, off, name) <==> TableName(n.style, name))
  {
    EvenedKeeps(table, off, name + n.Terminator());
    LineRecovered(Evened(table), off, n, name);
  }

  /** Seventeen characters with a backslash among them: the reader makes it a slash. */
  lemma BackslashLost()
    ensures var n := Naming(Svr4, false, [Fill(16, 97) + [BACKSLASH]]);
      && n.InTable(0) && n.Offset(0) < |Evened(n.Table(1))|
      && !ComesBack(n.Table(1), n.Offset(0), n.names[0])
  {
    var n := Naming(Svr4, false, [Fill(16, 97) + [BACKSLASH]]);
    assert n.names[0][16] == BACKSLASH;
    TableRecovered(n, 0);
  }
}
