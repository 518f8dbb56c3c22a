/** The members of an archive: how each is written behind its header, and how they are read back one by one. */
module ArMembers {
  import opened ArNames
  import opened Bytes

  /**
    A member about to be written: its name, its prepared name field, date to mode, the number of bytes
    between header and contents (a BSD 4.4 name, filled up to words), and its contents.
   */
  datatype Elt = Elt(name: seq<Byte>, field: seq<Byte>, meta: seq<Byte>, extra: nat, contents: seq<Byte>) {
    predicate Valid() { |field| == 16 && |meta| == 32 && extra % 2 == 0 && (extra > 0 ==> extra >= |name|) }

    /** The size that goes into the header. */
    function HeaderSize(): nat { |contents| + extra }
  }

  const HDR: nat := 60
  const FMAG: seq<Byte> := [96, NEWLINE]

  predicate Bsd44Name(field: seq<Byte>)
    requires |field| == 16
  {
    field[..3] == BSD44_MARK && IsDigit(field[3])
  }

  /** The extra size is what the header writer emits. */
  predicate Prepared(style: Style, e: Elt)
    requires e.Valid()
  {
    e.extra == if style.Bsd44? && Bsd44Name(e.field) then (|e.name| + 3) / 4 * 4 else 0
  }

  /** _bfd_ar_sizepad gives up on a size that needs more than ten digits. */
  predicate Fits(e: Elt) {
    |Digits(e.HeaderSize())| <= 10
  }

  function Header(field: seq<Byte>, meta: seq<Byte>, size: nat): (h: seq<Byte>)
    requires |field| == 16 && |meta| == 32
    ensures |h| == HDR
  {
    field + meta + SpacePad(Digits(size), 10) + FMAG
  }

  function LongName(e: Elt): (s: seq<Byte>)
    requires e.Valid()
    ensures |s| == e.extra
  {
    if e.extra > 0 then e.name + Fill(e.extra - |e.name|, NUL) else []
  }

  function Evening(n: nat): seq<Byte> {
    if n % 2 == 1 then [NEWLINE] else []
  }

  /** A member in the file; a thin archive holds no contents. */
  function Encoded(thin: bool, e: Elt): seq<Byte>
    requires e.Valid()
  {
    Header(e.field, e.meta, e.HeaderSize()) + LongName(e)
      + if thin then [] else e.contents + Evening(|e.contents|)
  }

  /** The members, each as it stands in the file. */
  function Pieces(thin: bool, es: seq<Elt>): (cs: seq<seq<Byte>>)
    requires AllValid(es)
    ensures |cs| == |es| && forall i {:trigger cs[i]} :: 0 <= i < |es| ==> cs[i] == Encoded(thin, es[i])
  {
    seq(|es|, i requires 0 <= i < |es| => Encoded(thin, es[i]))
  }

  function Body(thin: bool, es: seq<Elt>): seq<Byte>
    requires AllValid(es)
  {
    Concat(Pieces(thin, es), |es|)
  }

  predicate AllValid(es: seq<Elt>) {
    forall i :: 0 <= i < |es| ==> es[i].Valid()
  }

  predicate AllPrepared(style: Style, es: seq<Elt>)
    requires AllValid(es)
  {
    forall i :: 0 <= i < |es| ==> Prepared(style, es[i])
  }

  /** The first k members fit. */
  predicate AllFit(es: seq<Elt>, k: nat)
    requires AllValid(es) && k <= |es|
  {
    forall i :: 0 <= i < k ==> Fits(es[i])
  }

  /** How many bytes a member takes. */
  function Room(thin: bool, e: Elt): nat {
    HDR + e.extra + if thin then 0 else |e.contents| + |e.contents| % 2
  }

  /** The position of the k-th header behind base bytes. */
  function HeaderPos(thin: bool, es: seq<Elt>, base: nat, k: nat): nat
    requires k <= |es|
  {
    if k == 0 then base else HeaderPos(thin, es, base, k - 1) + Room(thin, es[k - 1])
  }

  lemma RoomTaken(thin: bool, e: Elt)
    requires e.Valid()
    ensures |Encoded(thin, e)| == Room(thin, e)
  {
  }

  lemma PiecesEnd(thin: bool, es: seq<Elt>, base: nat, k: nat)
    requires AllValid(es) && k <= |es|
    ensures HeaderPos(thin, es, base, k) == base + |Concat(Pieces(thin, es), k)|
  {
    var cs := Pieces(thin, es);
    forall i {:trigger cs[i]} | 0 <= i < |cs|
      ensures |cs[i]| == Room(thin, es[i])
    {
      RoomTaken(thin, es[i]);
    }
    RoomsEnd(thin, es, base, cs, k);
  }

  lemma {:induction false} RoomsEnd(thin: bool, es: seq<Elt>, base: nat, cs: seq<seq<Byte>>, k: nat)
    requires |cs| == |es| && k <= |es| && forall i {:trigger cs[i]} :: 0 <= i < |cs| ==> |cs[i]| == Room(thin, es[i])
    ensures HeaderPos(thin, es, base, k) == base + |Concat(cs, k)|
  {
    if k > 0 {
      RoomsEnd(thin, es, base, cs, k - 1);
    }
  }

  /** The positions noted are those of the headers. */
  ghost predicate HeadersAt(thin: bool, es: seq<Elt>, base: nat, headers: seq<nat>) {
    |headers| <= |es| && forall k {:trigger headers[k]} :: 0 <= k < |headers| ==>
        headers[k] == HeaderPos(thin, es, base, k)
  }

  /** The state of the writer after k members. */
  ghost predicate Written(thin: bool, es: seq<Elt>, start: seq<Byte>, out: seq<Byte>, headers: seq<nat>, k: nat)
    requires AllValid(es)
  {
    && k <= |es| && out == start + Concat(Pieces(thin, es), k)
    && |headers| == k && HeadersAt(thin, es, |start|, headers)
  }

  lemma WrittenNext(thin: bool, es: seq<Elt>, start: seq<Byte>, out: seq<Byte>, headers: seq<nat>, k: nat)
    requires AllValid(es) && k < |es| && Written(thin, es, start, out, headers, k)
    ensures Written(thin, es, start, out + Encoded(thin, es[k]), headers + [|out|], k + 1)
  {
    PiecesEnd(thin, es, |start|, k);
    HeadersNext(thin, es, |start|, headers, |out|);
    var cs := Pieces(thin, es);
    Append(start, Concat(cs, k), cs[k]);
  }

  lemma HeadersNext(thin: bool, es: seq<Elt>, base: nat, headers: seq<nat>, pos: nat)
    requires HeadersAt(thin, es, base, headers) && |headers| < |es| && pos == HeaderPos(thin, es, base, |headers|)
    ensures HeadersAt(thin, es, base, headers + [pos])
  {
  }

  // ---------- Writing ----------

  const BUFFER: nat := 8192

  /** Contents are copied one buffer at a time. */
  method CopyContents(out: seq<Byte>, contents: seq<Byte>) returns (r: seq<Byte>)
    ensures r == out + contents
  {
    r := out;
    var remaining := |contents|;
    while remaining > 0
      invariant 0 <= remaining <= |contents| && r == out + contents[..|contents| - remaining]
    {
      var done := |contents| - remaining;
      var amt := if BUFFER > remaining then remaining else BUFFER;
      r := r + contents[done..done + amt];
      assert contents[..done + amt] == contents[..done] + contents[done..done + amt];
      remaining := remaining - amt;
    }
    assert contents[..|contents|] == contents;
  }

  /** _bfd_generic_write_ar_hdr and _bfd_bsd44_write_ar_hdr. */
  method WriteHeader(style: Style, out: seq<Byte>, e: Elt) returns (r: Option<seq<Byte>>)
    requires e.Valid() && Prepared(style, e)
    ensures r.Some? <==> Fits(e)
    ensures r.Some? ==> r.value == out + (Header(e.field, e.meta, e.HeaderSize()) + LongName(e))
  {
    if |Digits(e.HeaderSize())| > 10 {
      return None;
    }
    var s := out + Header(e.field, e.meta, e.HeaderSize());
    if style.Bsd44? && Bsd44Name(e.field) {
      var len := |e.name|;
      s := s + e.name;
      if len % 4 != 0 {
        s := s + Fill(4 - len % 4, NUL);
      }
    }
    return Some(s);
  }

  /** One member: header, contents, and a newline after contents of odd length. */
  method WriteMember(style: Style, thin: bool, out: seq<Byte>, e: Elt) returns (r: Option<seq<Byte>>)
    requires e.Valid() && Prepared(style, e)
    ensures r.Some? <==> Fits(e)
    ensures r.Some? ==> r.value == out + Encoded(thin, e)
  {
    r := WriteHeader(style, out, e);
    if r.None? || thin {
      return;
    }
    var s := CopyContents(r.value, e.contents);
    if |e.contents| % 2 == 1 {
      s := s + [NEWLINE];
    }
    r := Some(s);
  }

  /** The loop that writes the members, and where each of their headers went. */
  method WriteMembers(style: Style, thin: bool, start: seq<Byte>, es: seq<Elt>)
    returns (r: Option<seq<Byte>>, ghost headers: seq<nat>)
    requires AllValid(es) && AllPrepared(style, es)
    ensures r.Some? <==> AllFit(es, |es|)
    ensures r.Some? ==> r.value == start + Body(thin, es)
    ensures r.Some? ==> |headers| == |es| && HeadersAt(thin, es, |start|, headers)
  {
    r := Some(start);
    headers := [];
    for i := 0 to |es|
      invariant r.Some? && AllFit(es, i) && Written(thin, es, start, r.value, headers, i)
    {
      WrittenNext(thin, es, start, r.value, headers, i);
      headers := headers + [|r.value|];
      r := WriteMember(style, thin, r.value, es[i]);
      if r.None? {
        return;
      }
    }
  }
}
