/** Member names in an archive: the 16-byte name field of a header, and the table of names too long for it. */
module ArNames {
  import opened Bytes
  import opened Sequences

  /** The naming conventions: System V release 4, BSD, and BSD 4.4, which puts long names after the header. */
  datatype Style = Svr4 | Bsd | Bsd44 {
    function Pad(): Byte { if Svr4? then SLASH else SPACE }
    function MaxName(): nat { if Svr4? then 15 else 16 }

    /** Whether names in the table end in a slash before the newline. */
    predicate TrailingSlash() { Svr4? }
  }

  // ---------- The name field ----------

  /** bfd_dont_truncate_arname and bfd_bsd_truncate_arname on a header full of spaces. */
  function ShortField(style: Style, name: seq<Byte>): (f: seq<Byte>)
    requires |name| <= style.MaxName()
    ensures |f| == 16
  {
    if |name| < 16 then name + [style.Pad()] + Fill(15 - |name|, SPACE) else name
  }

  /** _bfd_ar_spacepad: text cut or filled to n columns. */
  function SpacePad(text: seq<Byte>, n: nat): (f: seq<Byte>)
    ensures |f| == n
  {
    if |text| < n then text + Fill(n - |text|, SPACE) else text[..n]
  }

  /** A reference to the name at offset off of the table. */
  function LongField(style: Style, off: nat): (f: seq<Byte>)
    ensures |f| == 16
  {
    [style.Pad()] + SpacePad(Digits(off), style.MaxName() - 1) + Fill(16 - style.MaxName(), SPACE)
  }

  const BSD44_MARK: seq<Byte> := [35, 49, SLASH]

  /** The announcement of a name of n bytes after the header. */
  function Bsd44Field(n: nat): (f: seq<Byte>)
    ensures |f| == 16
  {
    SpacePad(BSD44_MARK + Digits(n), 16)
  }

  /** What a header says about its member's name. */
  datatype NameRef = InField(name: seq<Byte>) | InTable(name: seq<Byte>) | AfterHeader(length: nat) | BadName

  /** The end of a name is judged by a NUL, else a slash, else a space. */
  function FieldName(f: seq<Byte>): seq<Byte> {
    if NUL in f then f[..IndexOf(f, NUL)]
    else if SLASH in f then f[..IndexOf(f, SLASH)]
    else if SPACE in f then f[..IndexOf(f, SPACE)]
    else f
  }

  /** The name part of _bfd_generic_read_ar_hdr_mag, given the name table if there is one. */
  function DecodeName(hdr: seq<Byte>, table: Option<seq<Byte>>, maxName: nat): NameRef
    requires 16 <= |hdr| && maxName <= 16
  {
    if (hdr[0] == SLASH || (hdr[0] == SPACE && SLASH !in hdr[..maxName])) && table.Some? then
      var off := match ParseNumber(hdr[1..]) case Some(n) => n case None => 0;
      if off >= |table.value| then BadName else InTable(CString(table.value[off..]))
    else if hdr[..3] == BSD44_MARK && IsDigit(hdr[3]) then
      AfterHeader(match ParseNumber(hdr[3..]) case Some(n) => n case None => 0)
    else InField(FieldName(hdr[..maxName]))
  }

  /** A file name without directories, as a member is called. */
  predicate PlainName(name: seq<Byte>) {
    name != [] && NUL !in name && SLASH !in name && name[0] != SPACE
  }

  /** A short name that survives its field. */
  predicate ShortName(style: Style, name: seq<Byte>) {
    (style.Svr4? && |name| < style.MaxName()) || SPACE !in name
  }

  /** What the reader sees of a short name: the terminator the writer put is the first one, or not. */
  lemma ShortFieldName(style: Style, name: seq<Byte>)
    requires PlainName(name) && |name| <= style.MaxName()
    ensures FieldName(ShortField(style, name)[..style.MaxName()]) == name <==> ShortName(style, name)
  {
    var f := ShortField(style, name)[..style.MaxName()];
    assert f[..|name|] == name;
    assert forall i :: |name| <= i < |f| ==> f[i] == SPACE || (i == |name| && f[i] == style.Pad());
    assert NUL !in f;
    if |name| < style.MaxName() {
      assert f[|name|] == style.Pad();
      FirstAt(f, name, style.Pad());
      if style.Bsd? || style.Bsd44? {
        assert SLASH !in f;
      }
    } else {
      assert f == name;
    }
  }

  /** The first x of f is right after the name unless the name has one. */
  lemma FirstAt(f: seq<Byte>, name: seq<Byte>, x: Byte)
    requires |name| < |f| && f[..|name|] == name && f[|name|] == x
    ensures IndexOf(f, x) == |name| <==> x !in name
  {
    var k := IndexOf(f, x);
    if k < |name| {
      assert name[k] == x;
    }
  }

  /**
    A short name is read back exactly when it has no space, or when a slash follows it inside the
    part of the field that the reader looks at: 15 characters with a space are one too many.
   */
  lemma ShortRecovered(style: Style, name: seq<Byte>, hdr: seq<Byte>, table: Option<seq<Byte>>)
    requires PlainName(name) && |name| <= style.MaxName() && |hdr| >= 16 && hdr[..16] == ShortField(style, name)
    ensures DecodeName(hdr, table, style.MaxName()).InField?
    ensures DecodeName(hdr, table, style.MaxName()) == InField(name) <==> ShortName(style, name)
  {
    ShortFieldName(style, name);
    var f := ShortField(style, name);
    assert hdr[..style.MaxName()] == f[..style.MaxName()];
    assert hdr[0] == f[0] == name[0];
    assert name[0] != SLASH;
    assert hdr[2] == f[2] && hdr[3] == f[3];
    if hdr[..3] == BSD44_MARK {
      assert hdr[..3][2] == SLASH;
      assert |name| == 2;
    }
  }

  lemma LongFieldParts(style: Style, off: nat)
    requires |Digits(off)| <= 10
    ensures var f, k := LongField(style, off), 1 + |Digits(off)|;
      f[0] == style.Pad() && f[1..k] == Digits(off) && f[k] == SPACE && (!style.Svr4? ==> SLASH !in f)
  {
    var f, k := LongField(style, off), 1 + |Digits(off)|;
    assert forall i :: 1 <= i < k ==> f[i] == Digits(off)[i - 1];
    assert forall i :: k <= i < 16 ==> f[i] == SPACE;
  }

  /** A reference into the table is followed. */
  lemma LongRecovered(style: Style, off: nat, hdr: seq<Byte>, table: seq<Byte>)
    requires !style.Bsd44? && |Digits(off)| <= 10 && |hdr| >= 16 && hdr[..16] == LongField(style, off) && off < |table|
    ensures DecodeName(hdr, Some(table), style.MaxName()) == InTable(CString(table[off..]))
  {
    var f := LongField(style, off);
    LongFieldParts(style, off);
    NumberIn(hdr, f, 1, 1 + |Digits(off)|, off);
    assert hdr[0] == f[0] && (style.Bsd? ==> hdr[..16] == f);
  }

  /** A number in columns i to j of a field, followed by a space. */
  lemma NumberIn(hdr: seq<Byte>, f: seq<Byte>, i: nat, j: nat, n: nat)
    requires |hdr| >= 16 && hdr[..16] == f && i <= j < 16 && f[i..j] == Digits(n) && f[j] == SPACE
    ensures ParseNumber(hdr[i..]) == Some(n)
  {
    assert hdr[i..] == f[i..j] + hdr[j..];
    assert hdr[j..][0] == f[j];
    ParsePrinted(n, hdr[j..]);
  }

  lemma Bsd44Recovered(n: nat, hdr: seq<Byte>)
    requires |Digits(n)| <= 10 && |hdr| >= 16 && hdr[..16] == Bsd44Field(n)
    ensures forall table :: DecodeName(hdr, table, 16) == AfterHeader(n)
  {
    var d, f := Digits(n), Bsd44Field(n);
    assert hdr[..3] == f[..3] == BSD44_MARK;
    assert f[3..3 + |d|] == d && f[3] == d[0] && f[3 + |d|] == SPACE;
    assert hdr[3] == f[3] && hdr[0] == f[0] == 35;
    NumberIn(hdr, f, 3, 3 + |d|, n);
  }
}
