/** The layout of demand-paged a.out files: where sections go in memory and in the file, and what the header says. */
module ZMagic {
  import opened Bytes

  datatype Section = Section(vma: nat, size: nat, filepos: nat, userSetVma: bool)

  /** Page, segment and block sizes are powers of two; bssAlign is the alignment of bss in bytes. */
  datatype Target = Target(
    page: nat, segment: nat, diskBlock: nat, execBytes: nat, defaultTextVma: nat,
    textIncludesHeader: bool, contiguous: bool, headerNotCounted: bool, hasReloc: bool, bssAlign: nat)

  datatype Exec = Exec(text: nat, data: nat, bss: nat)

  datatype Layout = Layout(text: Section, data: Section, bss: Section, exec: Exec)

  /** BFD_ALIGN and align_power: the next multiple of b. */
  function Align(x: nat, b: nat): (r: nat)
    requires b > 0
    ensures r % b == 0 && x <= r < x + b
  {
    AlignIs(x, b);
    if x % b == 0 then x else x + b - x % b
  }

  lemma AlignIs(x: nat, b: nat)
    requires b > 0
    ensures x % b != 0 ==> (x + b - x % b) % b == 0
  {
    var q, r := x / b, x % b;
    Factor(b, q, 1);
    Unique(x + b - r, q + 1, 0, b);
  }

  lemma Factor(b: int, m: int, n: int)
    ensures b * (m + n) == b * m + b * n
  {
  }

  lemma MulLe(b: nat, m: int, n: int)
    requires m <= n
    ensures b * m <= b * n
  {
    Factor(b, m, n - m);
    assert m + (n - m) == n;
    NonNegative(b, n - m);
  }

  lemma NonNegative(b: nat, n: nat)
    ensures b * n >= 0
  {
  }

  /** Quotient and remainder are determined by their defining equation. */
  lemma Unique(x: int, q: int, r: int, b: int)
    requires b > 0 && x == b * q + r && 0 <= r < b
    ensures x / b == q && x % b == r
  {
    var q', r' := x / b, x % b;
    assert x == b * q' + r';
    if q' < q {
      MulLe(b, q' + 1, q);
      Factor(b, q', 1);
    } else if q < q' {
      MulLe(b, q + 1, q');
      Factor(b, q, 1);
    }
  }

  /** Adding multiples of b changes no remainder. */
  lemma Shift(x: int, y: int, b: int)
    requires b > 0 && y % b == 0
    ensures (x + y) % b == x % b
  {
    Factor(b, x / b, y / b);
    Unique(x + y, x / b + y / b, x % b, b);
  }

  /** x % b subtracted from x leaves a multiple. */
  lemma Rest(x: int, b: int)
    requires b > 0
    ensures (x - x % b) % b == 0
  {
    Unique(x - x % b, x / b, 0, b);
  }

  // ---------- Text ----------

  ghost predicate TextPlaced(t: Target, text: Section, r: Section)
    requires t.page > 0
  {
    && r.filepos == (if t.textIncludesHeader then t.execBytes else t.diskBlock)
    && (text.userSetVma ==> r.vma == text.vma && (r.vma + r.size) % t.page == 0)
    && (!text.userSetVma ==> r.vma == DefaultVma(t) && r.size < text.size + t.page)
    && (!text.userSetVma ==> (if t.textIncludesHeader then r.filepos + r.size else r.size) % t.page == 0)
    && text.size <= r.size < text.size + 2 * t.page && r.userSetVma == text.userSetVma
  }

  function DefaultVma(t: Target): nat {
    if t.hasReloc then 0 else t.defaultTextVma + if t.textIncludesHeader then t.execBytes else 0
  }

  /** The padding in two steps: for an unusual address, and up to the end of a page. */
  lemma PaddedEnd(vma: int, size: int, filepos: int, pad: int, end: int, page: int)
    requires page > 0 && pad == (filepos - vma) % page && end % page == 0
    ensures (vma + size + (pad + (end - (filepos + size)))) % page == 0
  {
    Rest(filepos - vma, page);
    var x := filepos - vma - pad;
    Negative(x, page);
    Shift(end, -x, page);
    assert vma + size + (pad + (end - (filepos + size))) == end + -x;
  }

  lemma Negative(x: int, b: int)
    requires b > 0 && x % b == 0
    ensures (-x) % b == 0
  {
    assert x == b * (x / b);
    assert -x == b * (-(x / b));
    Unique(-x, -(x / b), 0, b);
  }

  method PlaceText(t: Target, text: Section) returns (r: Section)
    requires t.page > 0
    ensures TextPlaced(t, text, r)
  {
    var header := t.textIncludesHeader;
    r := text.(filepos := if header then t.execBytes else t.diskBlock);
    var origin: int := if header then r.filepos else 0;
    var pad := 0;
    if !text.userSetVma {
      r := r.(vma := if t.hasReloc then 0 else if header then t.defaultTextVma + t.execBytes else t.defaultTextVma);
    } else {
      pad := (origin - r.vma) % t.page;
      PaddedEnd(r.vma, r.size, origin, pad, Align(origin + r.size, t.page), t.page);
    }
    var end := origin + r.size;
    r := r.(size := r.size + pad + (Align(end, t.page) - end));
  }

  // ---------- Data and bss ----------

  /** What zmagic_mapped_contiguous does to the text: its end, in 64-bit arithmetic, meets the data. */
  function Contiguous(text: Section, dataVma: nat): Section {
    var gap := (dataVma - (text.vma + text.size)) % WORD64;
    text.(size := (text.size + gap) % WORD64)
  }

  /** The text is padded up to the data if the data lies behind it, and otherwise loses its end. */
  lemma ContiguousText(text: Section, dataVma: nat)
    requires text.vma < WORD64 && text.size < WORD64 && dataVma < WORD64 && text.vma + text.size < WORD64
    ensures Contiguous(text, dataVma).size >= text.size && text.vma + Contiguous(text, dataVma).size == dataVma <==>
      dataVma >= text.vma + text.size
  {
  }

  /** Text of 50 bytes at 100 and data at 120: only 20 bytes of text are left. */
  lemma TextShrinks(text: Section)
    requires text.vma == 100 && text.size == 50
    ensures Contiguous(text, 120).size == 20
  {
    assert (120 - (text.vma + text.size)) % WORD64 == WORD64 - 30;
  }

  ghost predicate DataPlaced(t: Target, text: Section, data: Section, text': Section, data': Section)
    requires t.page > 0 && t.segment > 0 && t.bssAlign > 0
  {
    && text' == (if t.contiguous then Contiguous(text, data'.vma) else text)
    && data'.filepos == text'.filepos + text'.size && data'.size == Align(data.size, t.bssAlign)
    && data'.userSetVma == data.userSetVma && (data.userSetVma ==> data'.vma == data.vma)
    && (!data.userSetVma ==> data'.vma % t.segment == 0)
    && (!data.userSetVma ==> text.vma + text.size <= data'.vma < text.vma + text.size + t.segment)
  }

  method PlaceData(t: Target, text: Section, data: Section) returns (text': Section, data': Section)
    requires t.page > 0 && t.segment > 0 && t.bssAlign > 0
    ensures DataPlaced(t, text, data, text', data')
  {
    data' := data;
    if !data.userSetVma {
      data' := data'.(vma := Align(text.vma + text.size, t.segment));
    }
    text' := if t.contiguous then Contiguous(text, data'.vma) else text;
    data' := data'.(filepos := text'.filepos + text'.size, size := Align(data.size, t.bssAlign));
  }

  /** The header's data and bss sizes: pages of data, and only that part of bss that does not fit the last page. */
  ghost predicate Accounted(t: Target, data: Section, bssVma: nat, bssSize: nat, aData: nat, aBss: nat)
    requires t.page > 0 && t.bssAlign > 0
  {
    && aData % t.page == 0 && data.size <= aData < data.size + t.page
    && if Align(bssVma, t.bssAlign) == data.vma + data.size
       then aData + aBss == Max(aData, data.size + bssSize)
       else aBss == bssSize
  }

  /** Where bss goes: behind data unless the user placed it. */
  function PlacedBss(data: Section, bss: Section): Section {
    bss.(vma := if bss.userSetVma then bss.vma else data.vma + data.size)
  }

  method PlaceBss(t: Target, data: Section, bss: Section) returns (r: Section, aData: nat, aBss: nat)
    requires t.page > 0 && t.bssAlign > 0
    ensures r == PlacedBss(data, bss) && Accounted(t, data, r.vma, bss.size, aData, aBss)
  {
    aData := Align(data.size, t.page);
    var pad := aData - data.size;
    r := bss;
    if !bss.userSetVma {
      r := r.(vma := data.vma + data.size);
    }
    if Align(r.vma, t.bssAlign) == data.vma + data.size {
      aBss := if pad > r.size then 0 else r.size - pad;
    } else {
      aBss := r.size;
    }
  }

  /** adjust_z_magic. */
  method AdjustZMagic(t: Target, text: Section, data: Section, bss: Section) returns (r: Layout)
    requires t.page > 0 && t.segment > 0 && t.bssAlign > 0
    ensures exists placed ::
      TextPlaced(t, text, placed) && DataPlaced(t, placed, data, r.text, r.data)
    ensures r.bss == PlacedBss(r.data, bss) && Accounted(t, r.data, r.bss.vma, bss.size, r.exec.data, r.exec.bss)
    ensures !t.contiguous ==> TextPlaced(t, text, r.text) && r.data.filepos == r.text.filepos + r.text.size
    ensures r.exec.text == r.text.size + if t.textIncludesHeader && !t.headerNotCounted then t.execBytes else 0
  {
    var placed := PlaceText(t, text);
    var text', data' := PlaceData(t, placed, data);
    var bss', aData, aBss := PlaceBss(t, data', bss);
    var aText := text'.size;
    if t.textIncludesHeader && !t.headerNotCounted {
      aText := aText + t.execBytes;
    }
    r := Layout(text', data', bss', Exec(aText, aData, aBss));
  }
}
