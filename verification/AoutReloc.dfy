/** a.out relocation arithmetic: what a relocatable link does to a reloc, and the value a final link hands to
    the field inserter (aout_link_input_section_std, aout_link_input_section_ext, _bfd_final_link_relocate). */
module AoutReloc {
  import opened ByteSeq
  import opened AoutSymbols

  datatype Howto = Howto(size: nat, rightshift: nat, bits: nat, pcrel: bool, pcrelOffset: bool)

  const RELOC_BASE10 := 14
  const RELOC_BASE13 := 15
  const RELOC_BASE22 := 16
  const RELOC_SPARC_REV32 := 26

  /** howto_table_ext: bytes, right shift, field width, pc_relative and pcrel_offset. */
  const howtoTableExt: seq<Howto> :=
    [ Howto(1, 0, 8, false, false), Howto(2, 0, 16, false, false), Howto(4, 0, 32, false, false),
      Howto(1, 0, 8, true, false), Howto(2, 0, 16, true, false), Howto(4, 0, 32, true, false),
      Howto(4, 2, 30, true, false), Howto(4, 2, 22, true, false),
      Howto(4, 10, 22, false, false), Howto(4, 0, 22, false, false), Howto(4, 0, 13, false, false),
      Howto(4, 0, 10, false, false), Howto(4, 0, 32, false, false), Howto(4, 0, 32, false, false),
      Howto(4, 0, 10, false, false), Howto(4, 0, 13, false, false), Howto(4, 10, 22, false, false),
      Howto(4, 0, 10, true, true), Howto(4, 10, 22, true, true), Howto(4, 2, 30, true, false),
      Howto(4, 0, 0, false, false), Howto(4, 0, 0, false, false), Howto(4, 0, 0, false, false),
      Howto(4, 0, 0, false, false), Howto(0, 0, 0, false, true), Howto(0, 0, 0, false, true),
      Howto(4, 0, 32, false, false) ]

  /** The in-place howtos that carry a whole field: 8, 16, 32 and their displacements. */
  function HowtoStd(kind: nat): Option<Howto> {
    match kind
    case 0 => Some(Howto(1, 0, 8, false, false))
    case 1 => Some(Howto(2, 0, 16, false, false))
    case 2 => Some(Howto(4, 0, 32, false, false))
    case 4 => Some(Howto(1, 0, 8, true, false))
    case 5 => Some(Howto(2, 0, 16, true, false))
    case 6 => Some(Howto(4, 0, 32, true, false))
    case _ => None
  }

  predicate IsBaseRelative(kind: nat) {
    kind == RELOC_BASE10 || kind == RELOC_BASE13 || kind == RELOC_BASE22
  }

  /** A reloc record.  Standard records have no addend of their own. */
  datatype Rel = Rel(address: int, index: int, extern: bool, kind: nat, addend: int)

  /** aout_reloc_index_to_section; anything else aborts. */
  function SectionOfIndex(index: int): Option<Section> {
    var code := index / 2 % 16 * 2;
    if code == N_TEXT then Some(Text)
    else if code == N_DATA then Some(Data)
    else if code == N_BSS then Some(Bss)
    else if code == N_ABS || code == N_UNDF then Some(Abs)
    else None
  }

  function IndexOfSection(s: Section): Byte {
    match s
    case Text => N_TEXT
    case Data => N_DATA
    case Bss => N_BSS
    case Abs => N_ABS
  }

  /** A signed 32-bit word, as PUT_WORD and GET_SWORD keep it. */
  function SignedWord(v: int): (r: int)
    ensures -TWO31 <= r < TWO31
    ensures -TWO31 <= v < TWO31 ==> r == v
  {
    (v + TWO31) % TWO32 - TWO31
  }

  /** What a link knows about a symbol: defined, at an address in the output, or not (yet). */
  datatype Resolution = Here(section: Section, address: int) | Open

  function Resolved(h: HashEntry): Resolution {
    if IsDefined(h) then Here(h.section, h.address) else Open
  }

  // ----- relocatable links -----

  /** The amount by which a relocatable link adjusts the addend (or the field) of a reloc in section `s`. */
  function Adjustment(l: Layout, s: Section, howto: Howto, r: Rel, sym: Resolution): int
    requires r.extern || SectionOfIndex(r.index).Some?
  {
    (if !r.extern then Moved(l, SectionOfIndex(r.index).value)
     else if sym.Here? then sym.address
     else 0)
    - (if howto.pcrel && !howto.pcrelOffset then Moved(l, s) else 0)
  }

  /** The rewritten reloc; `index` is the new symbol number when the symbol is still open. */
  function Rewritten(l: Layout, s: Section, howto: Howto, r: Rel, sym: Resolution, index: int): Rel
    requires r.extern || SectionOfIndex(r.index).Some?
  {
    Rel(SignedWord(r.address + PlaceOf(l, s).outOffset),
        if !r.extern then r.index else if sym.Here? then IndexOfSection(sym.section) else index,
        r.extern && sym.Open?,
        r.kind,
        SignedWord(r.addend + Adjustment(l, s, howto, r, sym)))
  }

  // ----- final links -----

  /** The value of the symbol or section, as the section loop computes it. */
  function Relocation(l: Layout, s: Section, howto: Howto, r: Rel, sym: int): int
    requires r.extern || SectionOfIndex(r.index).Some?
  {
    if r.extern then sym
    else Moved(l, SectionOfIndex(r.index).value) + (if howto.pcrel then PlaceOf(l, s).vma else 0)
  }

  /** What _bfd_final_link_relocate hands to the field inserter. */
  function FinalValue(l: Layout, s: Section, howto: Howto, r: Rel, sym: int): int
    requires r.extern || SectionOfIndex(r.index).Some?
  {
    Relocation(l, s, howto, r, sym) + r.addend
    - (if howto.pcrel then Address(PlaceOf(l, s)) + (if howto.pcrelOffset then r.address else 0) else 0)
  }

  // ----- the field inserter -----

  function Pow2(n: nat): (r: nat)
    ensures r > 0
  {
    if n == 0 then 1 else 2 * Pow2(n - 1)
  }

  /** The bits of a 64-bit value that go into the field. */
  function Field(howto: Howto, v: int): (f: nat)
    ensures f < Pow2(howto.bits)
  {
    v % TWO64 / Pow2(howto.rightshift) % Pow2(howto.bits)
  }

  /** _bfd_relocate_contents on a word: extended howtos have no source mask, so the old field is replaced;
      in-place howtos add to it. */
  function Insert(inPlace: bool, howto: Howto, x: nat, v: int): nat {
    WithLow(x, Pow2(howto.bits), (if inPlace then x % Pow2(howto.bits) else 0) + Field(howto, v))
  }

  /** `x` with its residue modulo `p` replaced by that of `f`. */
  function WithLow(x: nat, p: nat, f: nat): nat
    requires p > 0
  {
    ModBelow(x, p);
    x - x % p + f % p
  }

  lemma ModBelow(x: nat, p: nat)
    requires p > 0
    ensures x % p <= x
  {
    if x < p {
      ModUnique(x, p, 0, x);
    }
  }

  lemma {:induction false} Pow2Add(a: nat, b: nat)
    ensures Pow2(a + b) == Pow2(a) * Pow2(b)
  {
    if a > 0 {
      Pow2Add(a - 1, b);
      Doubled(Pow2(a - 1), Pow2(b));
    }
  }

  lemma Doubled(x: int, y: int)
    ensures (2 * x) * y == 2 * (x * y)
  {
  }

  lemma Regroup(a: int, b: int, c: int, q: int)
    ensures a * b * c * q == a * ((b * c) * q)
    ensures b * c * q == b * (c * q)
  {
  }

  lemma DivOfSum(n: int, d: int, k: int, q: int, m: int)
    requires d > 0 && n == d * (k * q) + m
    ensures n / d == k * q + m / d
  {
    assert m == d * (m / d) + m % d;
    assert d * (k * q + m / d) == d * (k * q) + d * (m / d);
    ModUnique(n, d, k * q + m / d, m % d);
  }

  lemma ModOfSum(n: int, d: int, k: int, m: int)
    requires d > 0 && n == d * k + m
    ensures n % d == m % d
  {
    assert m == d * (m / d) + m % d;
    assert d * (k + m / d) == d * k + d * (m / d);
    ModUnique(n, d, k + m / d, m % d);
  }

  /** A shifted field below bit 32 comes from the low 32 bits. */
  lemma FieldIsLow(n: nat, rs: nat, bits: nat)
    requires rs + bits <= 32
    ensures n / Pow2(rs) % Pow2(bits) == n % TWO32 / Pow2(rs) % Pow2(bits)
  {
    hide Pow2;
    Pow2Add(rs, bits);
    Pow2Add(rs + bits, 32 - rs - bits);
    Pow32();
    FieldOfProduct(n, Pow2(rs), Pow2(bits), Pow2(32 - rs - bits), TWO32);
  }

  lemma FieldOfProduct(n: int, a: nat, b: nat, c: nat, whole: nat)
    requires a > 0 && b > 0 && whole > 0 && whole == a * b * c
    ensures n / a % b == n % whole / a % b
  {
    var q, m := n / whole, n % whole;
    assert n == whole * q + m;
    Regroup(a, b, c, q);
    DivOfSum(n, a, b * c, q, m);
    ModOfSum(n / a, b, c * q, m / a);
  }

  lemma Pow32()
    ensures Pow2(32) == TWO32
  {
    assert Pow2(4) == 16;
    Pow2Add(4, 4);
    Pow2Add(8, 8);
    Pow2Add(16, 16);
  }

  /** The field holds the bits of the shifted value, whatever its sign. */
  lemma FieldIsShifted(howto: Howto, v: int)
    requires howto.rightshift + howto.bits <= 32
    ensures Field(howto, v) == v / Pow2(howto.rightshift) % Pow2(howto.bits)
  {
    hide Pow2;
    var rs, bits := howto.rightshift, howto.bits;
    Pow2Add(rs, bits);
    Pow2Add(rs + bits, 64 - rs - bits);
    Pow32();
    Pow2Add(32, 32);
    FieldOfProduct(v, Pow2(rs), Pow2(bits), Pow2(64 - rs - bits), TWO64);
  }

  /** A word whose field has been replaced: the field is new, the rest is not, and it still fits. */
  lemma FieldReplaced(x: nat, p: nat, f: nat, c: nat, whole: nat)
    requires p > 0 && f < p && whole == p * c && x < whole
    ensures var y := WithLow(x, p, f); y % p == f && y / p == x / p && y < whole
  {
    ModUnique(f, p, 0, f);
    var q, y := x / p, x - x % p + f;
    assert x == p * q + x % p;
    ModUnique(y, p, q, f);
    MulSign(p, c - q);
    assert p * (c - q) == whole - p * q;
  }

  /** Values that agree modulo 2^32 put the same bits into the field. */
  lemma FieldSame(howto: Howto, v: int, w: int)
    requires (v - w) % TWO32 == 0 && howto.rightshift + howto.bits <= 32
    ensures Field(howto, v) == Field(howto, w)
  {
    FieldIsLow(v % TWO64, howto.rightshift, howto.bits);
    FieldIsLow(w % TWO64, howto.rightshift, howto.bits);
    Low32(v);
    Low32(w);
    ModOfSum(v, TWO32, (v - w) / TWO32, w);
  }

  lemma Low32(v: int)
    ensures v % TWO64 % TWO32 == v % TWO32
  {
    ModOfSum(v, TWO32, TWO32 * (v / TWO64), v % TWO64);
  }

  lemma ExtFits(kind: nat)
    requires kind < |howtoTableExt|
    ensures howtoTableExt[kind].rightshift + howtoTableExt[kind].bits <= 32
  {
  }

  // ----- a whole section -----

  /** A final link of one section: byte order, layout, the section, and the value of every symbol (zero for
      the undefined ones). */
  datatype Job = Job(big: bool, layout: Layout, section: Section, values: seq<int>)

  /** What the code needs of a reloc; it aborts or reads out of bounds otherwise. */
  predicate RelOk(r: Rel, symbols: nat, len: nat) {
    && 0 <= r.kind < |howtoTableExt| && !IsBaseRelative(r.kind)
    && (if r.extern then 0 <= r.index < symbols else SectionOfIndex(r.index).Some?)
    && 0 <= r.address && r.address + howtoTableExt[r.kind].size <= len
  }

  predicate RelsOk(rels: seq<Rel>, symbols: nat, len: nat) {
    forall k :: 0 <= k < |rels| ==> RelOk(rels[k], symbols, len)
  }

  function ValueOf(job: Job, r: Rel): int
    requires r.kind < |howtoTableExt| && if r.extern then 0 <= r.index < |job.values| else SectionOfIndex(r.index).Some?
  {
    FinalValue(job.layout, job.section, howtoTableExt[r.kind], r, if r.extern then job.values[r.index] else 0)
  }

  /** The bytes that replace `was`; a reversed word is stored little-endian whatever the target. */
  function NewBytes(big: bool, kind: nat, was: seq<Byte>, v: int): (r: seq<Byte>)
    requires kind < |howtoTableExt|
    ensures |r| == |was|
  {
    if kind == RELOC_SPARC_REV32 then Put(false, (Get(big, was) + v) % TWO32, |was|)
    else Put(big, Insert(false, howtoTableExt[kind], Get(big, was), v), |was|)
  }

  /** One reloc applied to the contents. */
  function Patched(job: Job, c: seq<Byte>, r: Rel): (d: seq<Byte>)
    requires RelOk(r, |job.values|, |c|)
    ensures |d| == |c|
  {
    var end := r.address + howtoTableExt[r.kind].size;
    c[..r.address] + NewBytes(job.big, r.kind, c[r.address..end], ValueOf(job, r)) + c[end..]
  }

  /** All relocs of a section, in order. */
  function Linked(job: Job, c: seq<Byte>, rels: seq<Rel>): (d: seq<Byte>)
    requires RelsOk(rels, |job.values|, |c|)
    ensures |d| == |c|
  {
    if rels == [] then c
    else Patched(job, Linked(job, c, rels[..|rels| - 1]), rels[|rels| - 1])
  }

  // ----- what a linked section holds, field by field -----

  /** What a reloc asks for, in terms of where things are.  A symbol: its address plus the addend.  A section: the
      addend moves along.  A displacement counts from the start of the section that holds it, or from the field
      itself. */
  function Intended(job: Job, r: Rel): int
    requires RelAims(job, r)
  {
    var howto, home := howtoTableExt[r.kind], PlaceOf(job.layout, job.section);
    var from := if howto.pcrelOffset then r.address else 0;
    if r.extern then
      var target := job.values[r.index] + r.addend;
      if howto.pcrel then target - (home.outVma + home.outOffset + from) else target
    else
      var p := PlaceOf(job.layout, SectionOfIndex(r.index).value);
      var target := r.addend - p.vma + (p.outVma + p.outOffset);
      if howto.pcrel then target + home.vma - (home.outVma + home.outOffset + from) else target
  }

  predicate RelAims(job: Job, r: Rel) {
    0 <= r.kind < |howtoTableExt| && if r.extern then 0 <= r.index < |job.values| else SectionOfIndex(r.index).Some?
  }

  function WordAt(big: bool, c: seq<Byte>, r: Rel): (w: nat)
    requires r.kind < |howtoTableExt| && 0 <= r.address && r.address + howtoTableExt[r.kind].size <= |c|
  {
    Get(big, c[r.address..r.address + howtoTableExt[r.kind].size])
  }

  /** The field of the reloc reads as the shifted value, cut to the width of the field. */
  predicate FieldHolds(job: Job, d: seq<Byte>, r: Rel)
    requires RelOk(r, |job.values|, |d|)
  {
    var howto := howtoTableExt[r.kind];
    WordAt(job.big, d, r) % Pow2(howto.bits) == Intended(job, r) / Pow2(howto.rightshift) % Pow2(howto.bits)
  }

  /** Compared with the contents before: a reversed word is the sum, read little-endian; otherwise the field is as it
      should be and the bits around it are what they were. */
  predicate WordHolds(job: Job, c: seq<Byte>, d: seq<Byte>, r: Rel)
    requires |d| == |c| && RelOk(r, |job.values|, |c|)
  {
    if r.kind == RELOC_SPARC_REV32 then WordAt(false, d, r) == (WordAt(job.big, c, r) + Intended(job, r)) % TWO32
    else
      var p := Pow2(howtoTableExt[r.kind].bits);
      FieldHolds(job, d, r) && WordAt(job.big, d, r) / p == WordAt(job.big, c, r) / p
  }

  /** The number of bytes a reloc works on. */
  function Span(r: Rel): nat {
    if r.kind < |howtoTableExt| then howtoTableExt[r.kind].size else 0
  }

  predicate Covers(r: Rel, p: nat) {
    r.address <= p < r.address + Span(r)
  }

  predicate Overlap(r: Rel, q: Rel) {
    r.address < q.address + Span(q) && q.address < r.address + Span(r)
  }

  predicate Uncovered(rels: seq<Rel>, p: nat) {
    forall k :: 0 <= k < |rels| ==> !Covers(rels[k], p)
  }

  /** No later reloc touches the same bytes. */
  predicate Last(rels: seq<Rel>, k: nat)
    requires k < |rels|
  {
    forall j :: k < j < |rels| ==> !Overlap(rels[j], rels[k])
  }

  /** No other reloc does. */
  predicate Alone(rels: seq<Rel>, k: nat)
    requires k < |rels|
  {
    Last(rels, k) && forall j :: 0 <= j < k ==> !Overlap(rels[j], rels[k])
  }

  /** The contents `d` are `c` with every reloc carried out, and nothing else done to them. */
  predicate LinkTrue(job: Job, c: seq<Byte>, d: seq<Byte>, rels: seq<Rel>) {
    && |d| == |c| && RelsOk(rels, |job.values|, |c|)
    && (forall p :: 0 <= p < |c| && Uncovered(rels, p) ==> d[p] == c[p])
    && (forall k :: 0 <= k < |rels| && Last(rels, k) && rels[k].kind != RELOC_SPARC_REV32 ==> FieldHolds(job, d, rels[k]))
    && (forall k :: 0 <= k < |rels| && Alone(rels, k) ==> WordHolds(job, c, d, rels[k]))
  }

  /** The arithmetic of the link comes down to that. */
  lemma ValueIsIntended(job: Job, r: Rel)
    requires RelAims(job, r)
    ensures ValueOf(job, r) == Intended(job, r)
  {
  }

  lemma {:induction false} PowerOfBytes(n: nat)
    ensures Pow256(n) == Pow2(8 * n)
  {
    if n > 0 {
      PowerOfBytes(n - 1);
      Pow2Add(8, 8 * (n - 1));
      assert Pow2(8) == 256;
    }
  }

  lemma {:induction false} GetBigBelow(s: seq<Byte>)
    ensures GetBig(s) < Pow256(|s|)
  {
    if s != [] {
      GetBigBelow(s[..|s| - 1]);
    }
  }

  lemma GetBelow(big: bool, s: seq<Byte>)
    ensures Get(big, s) < Pow256(|s|)
  {
    GetBigBelow(s);
    GetBigBelow(Reverse(s));
  }

  lemma FieldInWord(kind: nat)
    requires kind < |howtoTableExt|
    ensures howtoTableExt[kind].bits <= 8 * howtoTableExt[kind].size && (kind == RELOC_SPARC_REV32 ==> howtoTableExt[kind].size == 4)
  {
  }

  /** A word with a field inserted, stored and read again. */
  lemma InsertRead(big: bool, howto: Howto, was: seq<Byte>, v: int)
    requires howto.rightshift + howto.bits <= 32 && howto.bits <= 8 * |was|
    ensures var now := Put(big, Insert(false, howto, Get(big, was), v), |was|);
            && Get(big, now) % Pow2(howto.bits) == v / Pow2(howto.rightshift) % Pow2(howto.bits)
            && Get(big, now) / Pow2(howto.bits) == Get(big, was) / Pow2(howto.bits)
  {
    hide Pow2, Pow256, Get, Put, WithLow, Field;
    var n, bits, x, f := |was|, howto.bits, Get(big, was), Field(howto, v);
    FieldIsShifted(howto, v);
    PowerOfBytes(n);
    Pow2Add(bits, 8 * n - bits);
    GetBelow(big, was);
    FieldReplaced(x, Pow2(bits), f, Pow2(8 * n - bits), Pow256(n));
    var y := WithLow(x, Pow2(bits), f);
    GetPut(big, y, n);
    ModUnique(y, Pow256(n), 0, y);
  }

  /** The bytes that replace a field, read again. */
  lemma NewBytesRead(big: bool, kind: nat, was: seq<Byte>, v: int)
    requires kind < |howtoTableExt| && |was| == howtoTableExt[kind].size
    ensures var now, howto := NewBytes(big, kind, was, v), howtoTableExt[kind];
            if kind == RELOC_SPARC_REV32 then Get(false, now) == (Get(big, was) + v) % TWO32
            else
              && Get(big, now) % Pow2(howto.bits) == v / Pow2(howto.rightshift) % Pow2(howto.bits)
              && Get(big, now) / Pow2(howto.bits) == Get(big, was) / Pow2(howto.bits)
  {
    FieldInWord(kind);
    hide Pow2, Pow256, Get, Put, Insert;
    if kind == RELOC_SPARC_REV32 {
      Pow256Values();
      GetPut(false, (Get(big, was) + v) % TWO32, 4);
    } else {
      ExtFits(kind);
      InsertRead(big, howtoTableExt[kind], was, v);
    }
  }

  /** One reloc. */
  lemma PatchedHolds(job: Job, c: seq<Byte>, r: Rel)
    requires RelOk(r, |job.values|, |c|)
    ensures var d := Patched(job, c, r);
            && (forall p :: 0 <= p < |c| && !Covers(r, p) ==> d[p] == c[p])
            && WordHolds(job, c, d, r) && (r.kind != RELOC_SPARC_REV32 ==> FieldHolds(job, d, r))
  {
    hide NewBytes, ValueOf, Intended, Pow2, Get;
    var end, d := r.address + howtoTableExt[r.kind].size, Patched(job, c, r);
    ValueIsIntended(job, r);
    NewBytesRead(job.big, r.kind, c[r.address..end], ValueOf(job, r));
    assert d[r.address..end] == NewBytes(job.big, r.kind, c[r.address..end], ValueOf(job, r));
  }

  /** A reloc that has been carried out stays so while its bytes do. */
  lemma HoldsStill(job: Job, c: seq<Byte>, d: seq<Byte>, c': seq<Byte>, d': seq<Byte>, r: Rel)
    requires |c| == |d| == |c'| == |d'| && RelOk(r, |job.values|, |c|)
    requires forall p :: 0 <= p < |c| && Covers(r, p) ==> c'[p] == c[p] && d'[p] == d[p]
    ensures FieldHolds(job, d, r) ==> FieldHolds(job, d', r)
    ensures WordHolds(job, c, d, r) ==> WordHolds(job, c', d', r)
  {
    hide Intended, Pow2, Get;
    var end := r.address + howtoTableExt[r.kind].size;
    assert c'[r.address..end] == c[r.address..end] && d'[r.address..end] == d[r.address..end];
  }

  lemma OneMoreReloc(job: Job, c: seq<Byte>, d: seq<Byte>, rels: seq<Rel>, r: Rel)
    requires LinkTrue(job, c, d, rels) && RelOk(r, |job.values|, |c|)
    ensures LinkTrue(job, c, Patched(job, d, r), rels + [r])
  {
    hide Patched, RelOk, FieldHolds, WordHolds, Span;
    var n, more, d' := |rels|, rels + [r], Patched(job, d, r);
    PatchedHolds(job, d, r);
    forall p | 0 <= p < |c| && Uncovered(more, p) ensures d'[p] == c[p] {
      assert more[n] == r && forall k :: 0 <= k < n ==> more[k] == rels[k];
    }
    forall k | 0 <= k < |more| && Last(more, k)
      ensures more[k].kind != RELOC_SPARC_REV32 ==> FieldHolds(job, d', more[k])
      ensures Alone(more, k) ==> WordHolds(job, c, d', more[k])
    {
      assert forall j :: 0 <= j < n ==> more[j] == rels[j];
      if k < n {
        assert !Overlap(more[n], more[k]);
        HoldsStill(job, c, d, c, d', rels[k]);
      } else if Alone(more, k) {
        AloneUncovered(more, rels, r);
        HoldsStill(job, d, d', c, d', r);
      }
    }
  }

  lemma AloneUncovered(more: seq<Rel>, rels: seq<Rel>, r: Rel)
    requires more == rels + [r] && Alone(more, |rels|)
    ensures forall p: nat :: Covers(r, p) ==> Uncovered(rels, p)
  {
    forall p: nat, k | Covers(r, p) && 0 <= k < |rels| ensures !Covers(rels[k], p) {
      assert more[k] == rels[k] && !Overlap(more[k], more[|rels|]);
    }
  }

  /** All relocs. */
  lemma {:induction false} LinkedHolds(job: Job, c: seq<Byte>, rels: seq<Rel>)
    requires RelsOk(rels, |job.values|, |c|)
    ensures LinkTrue(job, c, Linked(job, c, rels), rels)
  {
    hide Patched, RelOk;
    if rels != [] {
      hide LinkTrue;
      var front, r := rels[..|rels| - 1], rels[|rels| - 1];
      LinkedHolds(job, c, front);
      OneMoreReloc(job, c, Linked(job, c, front), front, r);
      assert front + [r] == rels;
    }
  }

  /** For instance, a 32-bit reloc against a symbol reads back as symbol plus addend. */
  lemma WholeWord(job: Job, d: seq<Byte>, r: Rel)
    requires RelOk(r, |job.values|, |d|) && FieldHolds(job, d, r) && r.kind == 2 && r.extern
    ensures Get(job.big, d[r.address..r.address + 4]) == (job.values[r.index] + r.addend) % TWO32
  {
    hide Pow2, Get;
    Pow32();
    PowNone();
    var w := d[r.address..r.address + 4];
    GetBelow(job.big, w);
    Pow256Values();
    ModUnique(Get(job.big, w), TWO32, 0, Get(job.big, w));
  }

  lemma PowNone()
    ensures Pow2(0) == 1
  {
  }

  /** aout_link_input_section_ext for an executable: the contents are patched in place. */
  method LinkSection(job: Job, contents: array<Byte>, rels: seq<Rel>)
    requires RelsOk(rels, |job.values|, contents.Length)
    modifies contents
    ensures contents[..] == Linked(job, old(contents[..]), rels)
    ensures LinkTrue(job, old(contents[..]), contents[..], rels)
  {
    hide Patched, RelOk, LinkTrue;
    var k := 0;
    assert rels[..0] == [];
    LinkedHolds(job, contents[..], rels);
    while k < |rels|
      invariant 0 <= k <= |rels| && RelsOk(rels[..k], |job.values|, contents.Length)
      invariant contents[..] == Linked(job, old(contents[..]), rels[..k])
    {
      assert rels[..k + 1][..k] == rels[..k];
      PatchInPlace(job, contents, rels[k]);
      k := k + 1;
    }
    assert rels[..k] == rels;
  }

  method PatchInPlace(job: Job, contents: array<Byte>, r: Rel)
    requires RelOk(r, |job.values|, contents.Length)
    modifies contents
    ensures contents[..] == Patched(job, old(contents[..]), r)
  {
    hide ValueOf, NewBytes;
    var size := howtoTableExt[r.kind].size;
    ghost var before := contents[..];
    var was := contents[r.address..r.address + size];
    assert before[r.address..r.address + size] == was;
    var bytes := NewBytes(job.big, r.kind, was, ValueOf(job, r));
    for i := 0 to size
      invariant forall k :: 0 <= k < contents.Length ==>
                  contents[k] == if r.address <= k < r.address + i then bytes[k - r.address] else before[k]
    {
      contents[r.address + i] := bytes[i];
    }
  }
}
