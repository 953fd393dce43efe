/** Partial linking preserves meaning: `ld -r` followed by a final link, against linking once. */
module PartialLink {
  import opened ByteSeq
  import opened AoutSymbols
  import opened AoutReloc

  /** Linking with `first` and then with `second` puts every section where `once` puts it. */
  predicate SamePlace(first: Place, second: Place, once: Place) {
    && first.vma == once.vma && second.vma == first.outVma
    && second.outVma == once.outVma && first.outOffset + second.outOffset == once.outOffset
  }

  predicate SameLayout(first: Layout, second: Layout, once: Layout) {
    && SamePlace(first.text, second.text, once.text)
    && SamePlace(first.data, second.data, once.data)
    && SamePlace(first.bss, second.bss, once.bss)
  }

  /** The final address of a symbol: one that the first link defines moves with its section, one that it
      leaves open is given by the final link (zero when it stays undefined). */
  function FinalAddress(second: Layout, sym: Resolution, given: int): int {
    if sym.Here? then sym.address + Moved(second, sym.section) else given
  }

  /** What two steps hand to the field inserter beyond what one step does. */
  function Discrepancy(first: Layout, s: Section, howto: Howto, r: Rel, sym: Resolution): int {
    var vma, middle := PlaceOf(first, s).vma, PlaceOf(first, s).outVma;
    if !howto.pcrel then 0
    else if howto.pcrelOffset then
      (if !r.extern then middle - vma else if sym.Here? then middle else 0)
    else
      (if !r.extern then 0 else if sym.Here? then vma else vma - middle)
  }

  predicate Congruent(a: int, b: int) {
    (a - b) % TWO32 == 0
  }

  lemma SignedWordCongruent(v: int) returns (k: int)
    ensures SignedWord(v) == v - TWO32 * k
  {
    k := (v + TWO31) / TWO32;
  }

  lemma MultipleIsCongruent(a: int, b: int, k: int)
    requires a == b + TWO32 * k
    ensures Congruent(a, b)
  {
    ModUnique(a - b, TWO32, k, 0);
  }

  lemma CongruentTrans(a: int, b: int, c: int)
    requires Congruent(a, b)
    ensures Congruent(a, c) <==> Congruent(b, c)
  {
    var k := (a - b) / TWO32;
    assert a == b + TWO32 * k;
    if Congruent(a, c) {
      MultipleIsCongruent(b, c, (a - c) / TWO32 - k);
    }
    if Congruent(b, c) {
      MultipleIsCongruent(a, c, (b - c) / TWO32 + k);
    }
  }

  lemma Shifted(v: int, d: int)
    ensures Congruent(v + d, v) <==> Congruent(d, 0)
  {
    assert v + d - v == d - 0;
  }

  lemma SameEverywhere(first: Layout, second: Layout, once: Layout, s: Section)
    requires SameLayout(first, second, once)
    ensures SamePlace(PlaceOf(first, s), PlaceOf(second, s), PlaceOf(once, s))
  {
  }

  lemma SectionIndexReadsBack(s: Section)
    ensures SectionOfIndex(IndexOfSection(s)) == Some(s)
  {
  }

  /** Two steps against one, up to wrap-around of 32-bit words: the difference is exactly the discrepancy. */
  lemma TwoStepsDiffer(first: Layout, second: Layout, once: Layout, s: Section, howto: Howto, r: Rel,
                       sym: Resolution, index: int, given: int)
    requires SameLayout(first, second, once) && (r.extern || SectionOfIndex(r.index).Some?)
    ensures var mid := Rewritten(first, s, howto, r, sym, index);
            && (mid.extern || SectionOfIndex(mid.index).Some?)
            && var sym' := FinalAddress(second, sym, given);
            Congruent(FinalValue(second, s, howto, mid, sym'),
                      FinalValue(once, s, howto, r, sym') + Discrepancy(first, s, howto, r, sym))
  {
    hide SignedWord, SectionOfIndex, IndexOfSection, Congruent, PlaceOf, SameLayout;
    SameEverywhere(first, second, once, s);
    if !r.extern {
      SameEverywhere(first, second, once, SectionOfIndex(r.index).value);
    } else if sym.Here? {
      SectionIndexReadsBack(sym.section);
      SameEverywhere(first, second, once, sym.section);
    }
    var k := SignedWordCongruent(r.addend + Adjustment(first, s, howto, r, sym));
    var j := SignedWordCongruent(r.address + PlaceOf(first, s).outOffset);
    var sym' := FinalAddress(second, sym, given);
    var mid := Rewritten(first, s, howto, r, sym, index);
    var wraps := if howto.pcrel && howto.pcrelOffset then j - k else -k;
    MultipleIsCongruent(FinalValue(second, s, howto, mid, sym'),
                        FinalValue(once, s, howto, r, sym') + Discrepancy(first, s, howto, r, sym), wraps);
  }

  lemma NoDiscrepancy(first: Layout, s: Section, howto: Howto, r: Rel, sym: Resolution)
    ensures !howto.pcrel || (PlaceOf(first, s).vma == 0 && PlaceOf(first, s).outVma == 0) ==>
              Congruent(Discrepancy(first, s, howto, r, sym), 0)
  {
  }

  /** Partial linking preserves meaning exactly when the discrepancy vanishes modulo 2^32. */
  lemma PartialLinkMeans(first: Layout, second: Layout, once: Layout, s: Section, howto: Howto, r: Rel,
                         sym: Resolution, index: int, given: int)
    requires SameLayout(first, second, once) && (r.extern || SectionOfIndex(r.index).Some?)
    ensures var mid := Rewritten(first, s, howto, r, sym, index);
            && (mid.extern || SectionOfIndex(mid.index).Some?)
            && var sym' := FinalAddress(second, sym, given);
            Congruent(FinalValue(second, s, howto, mid, sym'), FinalValue(once, s, howto, r, sym'))
            <==> Congruent(Discrepancy(first, s, howto, r, sym), 0)
    ensures !howto.pcrel || (PlaceOf(first, s).vma == 0 && PlaceOf(first, s).outVma == 0) ==>
              Congruent(Discrepancy(first, s, howto, r, sym), 0)
  {
    NoDiscrepancy(first, s, howto, r, sym);
    hide SignedWord, SectionOfIndex, Congruent, PlaceOf, SameLayout, Rewritten, FinalValue, Discrepancy, FinalAddress;
    TwoStepsDiffer(first, second, once, s, howto, r, sym, index, given);
    var sym' := FinalAddress(second, sym, given);
    var mid := Rewritten(first, s, howto, r, sym, index);
    var d := Discrepancy(first, s, howto, r, sym);
    var two, one := FinalValue(second, s, howto, mid, sym'), FinalValue(once, s, howto, r, sym');
    CongruentTrans(two, one + d, one);
    Shifted(one, d);
  }

  /** The two routes can disagree: for a 32-bit displacement in text that starts at 32 in its input file, to a
      symbol the first link defines, they are 32 apart (linking once forgets where the text started). */
  lemma DisplacementShifts(first: Layout, once: Layout)
    requires first == Layout(Place(32, 0, 0), Place(0, 64, 0), Place(0, 96, 0))
    requires once == Layout(Place(32, 4096, 0), Place(0, 8192, 0), Place(0, 8224, 0))
    ensures var second := Layout(Place(0, 4096, 0), Place(64, 8192, 0), Place(96, 8224, 0));
            var r, sym := Rel(4, 0, true, 5, -36), Here(Data, 64);
            var mid := Rewritten(first, Text, howtoTableExt[5], r, sym, 0);
            && SameLayout(first, second, once) && SectionOfIndex(mid.index).Some?
            && FinalValue(once, Text, howtoTableExt[5], r, FinalAddress(second, sym, 0)) == 4060
            && FinalValue(second, Text, howtoTableExt[5], mid, FinalAddress(second, sym, 0)) == 4092
  {
    SectionIndexReadsBack(Data);
  }

  // ----- standard relocs: the addend is the field itself -----

  /** A field of `p` values after an in-place reloc. */
  lemma InPlaceField(howto: Howto, x: nat, v: int)
    requires howto.rightshift == 0 && howto.bits <= 32 && x < Pow2(howto.bits)
    ensures Insert(true, howto, x, v) == (x + v) % Pow2(howto.bits)
  {
    hide Pow2, Field;
    var p := Pow2(howto.bits);
    FieldOfInt(howto, v);
    ModUnique(x, p, 0, x);
    var k := v / p;
    assert v == p * k + v % p;
    ModOfSum(x + v, p, k, x + v % p);
  }

  lemma FieldOfInt(howto: Howto, v: int)
    requires howto.rightshift == 0 && howto.bits <= 32
    ensures Field(howto, v) == v % Pow2(howto.bits)
  {
    hide Pow2;
    var p, c := Pow2(howto.bits), Pow2(32 - howto.bits);
    Pow2Add(howto.bits, 32 - howto.bits);
    Pow32();
    assert Pow2(0) == 1 by { PowNone(); }
    var q := v / TWO64;
    assert v == TWO32 * (TWO32 * q) + v % TWO64;
    Regroup(1, p, c, TWO32 * q);
    ModOfSum(v, p, c * (TWO32 * q), v % TWO64);
  }

  lemma AddTwice(x: nat, a: int, b: int, p: nat)
    requires p > 0
    ensures ((x + a) % p + b) % p == (x + (a + b)) % p
  {
    var k := (x + a) / p;
    assert x + a == p * k + (x + a) % p;
    ModOfSum(x + (a + b), p, k, (x + a) % p + b);
  }

  lemma SameResidue(v: int, d: int, p: nat)
    requires p > 0
    ensures (v + d) % p == v % p <==> d % p == 0
  {
    var k, j := v / p, (v + d) / p;
    assert v == p * k + v % p && v + d == p * j + (v + d) % p;
    if (v + d) % p == v % p {
      assert d == p * (j - k);
      ModUnique(d, p, j - k, 0);
    }
    if d % p == 0 {
      ModOfSum(v + d, p, d / p, v);
    }
  }

  /** In-place relocs obey the same law, modulo the width of their field. */
  lemma InPlaceMeans(first: Layout, second: Layout, once: Layout, s: Section, r: Rel, sym: Resolution, index: int,
                     given: int, howto: Howto, x: nat)
    requires SameLayout(first, second, once) && (r.extern || SectionOfIndex(r.index).Some?)
    requires HowtoStd(r.kind) == Some(howto) && r.addend == 0 && x < Pow2(howto.bits)
    ensures var mid := Rewritten(first, s, howto, r, sym, index).(addend := 0);
            && (mid.extern || SectionOfIndex(mid.index).Some?)
            && var sym' := FinalAddress(second, sym, given);
            var x1 := Insert(true, howto, x, Adjustment(first, s, howto, r, sym));
            Insert(true, howto, x1, FinalValue(second, s, howto, mid, sym'))
              == Insert(true, howto, x, FinalValue(once, s, howto, r, sym'))
            <==> Discrepancy(first, s, howto, r, sym) % Pow2(howto.bits) == 0
  {
    hide SignedWord, SectionOfIndex, IndexOfSection, PlaceOf, SameLayout, Insert, Pow2;
    SameEverywhere(first, second, once, s);
    if !r.extern {
      SameEverywhere(first, second, once, SectionOfIndex(r.index).value);
    } else if sym.Here? {
      SectionIndexReadsBack(sym.section);
      SameEverywhere(first, second, once, sym.section);
    }
    var mid := Rewritten(first, s, howto, r, sym, index).(addend := 0);
    var sym', p := FinalAddress(second, sym, given), Pow2(howto.bits);
    var a, b, d := Adjustment(first, s, howto, r, sym), FinalValue(second, s, howto, mid, sym'), Discrepancy(first, s, howto, r, sym);
    var direct := FinalValue(once, s, howto, r, sym');
    assert a + b == direct + d;
    InPlaceField(howto, x, a);
    InPlaceField(howto, (x + a) % p, b);
    InPlaceField(howto, x, direct);
    AddTwice(x, a, b, p);
    SameResidue(x + direct, d, p);
  }

  // ----- whole sections of many files -----

  /** An input file as one section sees it.  `symbols` and `map_` come from the first link: what it knows about
      each symbol and the number it gives to those still open; `values` are the values of a direct link. */
  datatype Object = Object(first: Layout, once: Layout, symbols: seq<Resolution>, map_: seq<int>, values: seq<int>,
                           contents: seq<Byte>, rels: seq<Rel>)

  function SymbolOf(o: Object, r: Rel): Resolution
    requires r.extern ==> 0 <= r.index < |o.symbols|
  {
    if r.extern then o.symbols[r.index] else Open
  }

  /** The reloc as the relocatable link writes it. */
  function Middle(o: Object, s: Section, r: Rel): Rel
    requires RelOk(r, |o.symbols|, |o.contents|) && |o.map_| == |o.symbols|
  {
    Rewritten(o.first, s, howtoTableExt[r.kind], r, SymbolOf(o, r), if r.extern then o.map_[r.index] else 0)
  }

  /** Both routes resolve symbol `k` alike. */
  predicate SameResolution(o: Object, final: Job, k: nat)
    requires k < |o.symbols| == |o.map_| == |o.values|
  {
    match o.symbols[k]
    case Here(section, address) => o.values[k] == address + Moved(final.layout, section)
    case Open => 0 <= o.map_[k] < |final.values| && o.values[k] == final.values[o.map_[k]]
  }

  /** The file sits at `start` of the intermediate section, its relocs are sound, and none of them is one that
      partial linking does not preserve. */
  ghost predicate Carried(o: Object, final: Job, start: nat) {
    && |o.symbols| == |o.map_| == |o.values|
    && SameLayout(o.first, final.layout, o.once) && PlaceOf(o.first, final.section).outOffset == start
    && RelsOk(o.rels, |o.symbols|, |o.contents|)
    && (forall k :: 0 <= k < |o.symbols| ==> SameResolution(o, final, k))
    && forall k :: 0 <= k < |o.rels| ==>
         var r := o.rels[k]; Congruent(Discrepancy(o.first, final.section, howtoTableExt[r.kind], r, SymbolOf(o, r)), 0)
  }

  function Direct(o: Object, final: Job): Job {
    Job(final.big, o.once, final.section, o.values)
  }

  /** A reloc of a carried file, after the first link: it stands in its place, and is given the same value. */
  lemma MiddleValue(o: Object, final: Job, start: nat, r: Rel, len: nat)
    requires Carried(o, final, start) && r in o.rels && start + |o.contents| <= len < TWO31
    ensures RelOk(r, |o.values|, |o.contents|)
    ensures var mid := Middle(o, final.section, r);
            && RelOk(mid, |final.values|, len) && mid.kind == r.kind && mid.address == start + r.address
            && Congruent(ValueOf(final, mid), ValueOf(Direct(o, final), r))
  {
    hide SameLayout, Congruent, Discrepancy, FinalValue, PlaceOf, SectionOfIndex, IndexOfSection;
    var k :| 0 <= k < |o.rels| && o.rels[k] == r;
    assert RelOk(o.rels[k], |o.symbols|, |o.contents|);
    var sym, mid := SymbolOf(o, r), Middle(o, final.section, r);
    var index := if r.extern then o.map_[r.index] else 0;
    if r.extern {
      assert SameResolution(o, final, r.index);
      if sym.Here? {
        SectionIndexReadsBack(sym.section);
      }
    }
    var given := if r.extern then o.values[r.index] else 0;
    var howto := howtoTableExt[r.kind];
    PartialLinkMeans(o.first, final.layout, o.once, final.section, howto, r, sym, index, given);
    IgnoresSymbol(final.layout, final.section, howto, mid, FinalAddress(final.layout, sym, given), 0);
    IgnoresSymbol(o.once, final.section, howto, r, FinalAddress(final.layout, sym, given), 0);
  }

  /** A reloc against a section does not look at symbols. */
  lemma IgnoresSymbol(l: Layout, s: Section, howto: Howto, r: Rel, a: int, b: int)
    requires r.extern || SectionOfIndex(r.index).Some?
    ensures !r.extern ==> FinalValue(l, s, howto, r, a) == FinalValue(l, s, howto, r, b)
  {
  }

  lemma SameBytes(big: bool, kind: nat, was: seq<Byte>, v: int, w: int)
    requires kind < |howtoTableExt| && Congruent(v, w)
    ensures NewBytes(big, kind, was, v) == NewBytes(big, kind, was, w)
  {
    hide Field;
    if kind == RELOC_SPARC_REV32 {
      var x := Get(big, was);
      ModOfSum(x + v, TWO32, (v - w) / TWO32, x + w);
    } else {
      ExtFits(kind);
      FieldSame(howtoTableExt[kind], v, w);
    }
  }

  /** A patch inside the middle part. */
  lemma PatchedInside(final: Job, direct: Job, pre: seq<Byte>, c: seq<Byte>, post: seq<Byte>, mid: Rel, r: Rel)
    requires RelOk(r, |direct.values|, |c|) && RelOk(mid, |final.values|, |pre| + |c| + |post|)
    requires mid.kind == r.kind && mid.address == |pre| + r.address && final.big == direct.big
    requires Congruent(ValueOf(final, mid), ValueOf(direct, r))
    ensures Patched(final, pre + c + post, mid) == pre + Patched(direct, c, r) + post
  {
    hide ValueOf, NewBytes, Congruent;
    var all, end := pre + c + post, r.address + howtoTableExt[r.kind].size;
    assert all[mid.address..|pre| + end] == c[r.address..end];
    assert all[..mid.address] == pre + c[..r.address];
    assert all[|pre| + end..] == c[end..] + post;
    SameBytes(final.big, r.kind, c[r.address..end], ValueOf(final, mid), ValueOf(direct, r));
  }

  function Middles(o: Object, s: Section, rels: seq<Rel>): (r: seq<Rel>)
    requires RelsOk(rels, |o.symbols|, |o.contents|) && |o.map_| == |o.symbols|
    ensures |r| == |rels|
  {
    if rels == [] then []
    else Middles(o, s, rels[..|rels| - 1]) + [Middle(o, s, rels[|rels| - 1])]
  }

  /** The relocs of one file, applied to the intermediate section, patch that file's part as a direct link does. */
  lemma {:induction false} Embedded(o: Object, final: Job, pre: seq<Byte>, post: seq<Byte>, rels: seq<Rel>)
    requires Carried(o, final, |pre|) && rels <= o.rels && |pre| + |o.contents| + |post| < TWO31
    ensures RelsOk(rels, |o.symbols|, |o.contents|) && |o.map_| == |o.symbols|
    ensures var mids := Middles(o, final.section, rels);
            && RelsOk(mids, |final.values|, |pre| + |o.contents| + |post|)
            && Linked(final, pre + o.contents + post, mids) == pre + Linked(Direct(o, final), o.contents, rels) + post
  {
    hide Middle, Patched, Congruent, Discrepancy, SameLayout, RelOk, ValueOf, SameResolution;
    if rels != [] {
      var front, r := rels[..|rels| - 1], rels[|rels| - 1];
      Embedded(o, final, pre, post, front);
      MiddleValue(o, final, |pre|, r, |pre| + |o.contents| + |post|);
      var mids, mid := Middles(o, final.section, front), Middle(o, final.section, r);
      assert Middles(o, final.section, rels) == mids + [mid] && (mids + [mid])[..|mids|] == mids;
      PatchedInside(final, Direct(o, final), pre, Linked(Direct(o, final), o.contents, front), post, mid, r);
    }
  }

  lemma {:induction false} LinkedAppend(job: Job, c: seq<Byte>, a: seq<Rel>, b: seq<Rel>)
    requires RelsOk(a, |job.values|, |c|) && RelsOk(b, |job.values|, |c|)
    ensures RelsOk(a + b, |job.values|, |c|)
    ensures Linked(job, c, a + b) == Linked(job, Linked(job, c, a), b)
  {
    hide Patched, RelOk;
    if b == [] {
      assert a + b == a;
    } else {
      var front := b[..|b| - 1];
      LinkedAppend(job, c, a, front);
      assert (a + b)[..|a + b| - 1] == a + front;
    }
  }

  /** The intermediate section: contents one after the other, and the rewritten relocs. */
  function Contents(os: seq<Object>): seq<Byte> {
    if os == [] then [] else Contents(os[..|os| - 1]) + os[|os| - 1].contents
  }

  ghost predicate AllCarried(os: seq<Object>, final: Job) {
    if os == [] then true
    else AllCarried(os[..|os| - 1], final) && Carried(os[|os| - 1], final, |Contents(os[..|os| - 1])|)
  }

  ghost function AllMiddles(os: seq<Object>, final: Job): seq<Rel>
    requires AllCarried(os, final)
  {
    if os == [] then []
    else AllMiddles(os[..|os| - 1], final) + Middles(os[|os| - 1], final.section, os[|os| - 1].rels)
  }

  /** Every file linked directly. */
  ghost function AllDirect(os: seq<Object>, final: Job): (r: seq<Byte>)
    requires AllCarried(os, final)
    ensures |r| == |Contents(os)|
  {
    if os == [] then []
    else
      var o := os[|os| - 1];
      AllDirect(os[..|os| - 1], final) + Linked(Direct(o, final), o.contents, o.rels)
  }

  /** Partial linking preserves meaning, for a section made of any number of files: patching the intermediate
      section gives the bytes that linking every file directly gives. */
  lemma {:induction false} PartialLinkOfSections(os: seq<Object>, final: Job, post: seq<Byte>)
    requires AllCarried(os, final) && |Contents(os)| + |post| < TWO31
    ensures RelsOk(AllMiddles(os, final), |final.values|, |Contents(os)| + |post|)
    ensures Linked(final, Contents(os) + post, AllMiddles(os, final)) == AllDirect(os, final) + post
  {
    hide Carried, Linked, Middles, RelOk;
    if os != [] {
      var front, o := os[..|os| - 1], os[|os| - 1];
      var done := AllDirect(front, final);
      PartialLinkOfSections(front, final, o.contents + post);
      Embedded(o, final, done, post, o.rels);
      var all := Contents(front) + (o.contents + post);
      assert Contents(os) + post == all;
      assert done + (o.contents + post) == done + o.contents + post;
      LinkedAppend(final, all, AllMiddles(front, final), Middles(o, final.section, o.rels));
    } else {
      assert [] + post == post;
      LinkedNone(final, post);
    }
  }

  /** Where file `i` stands in the intermediate section, and that it is carried. */
  lemma {:induction false} DirectPart(os: seq<Object>, final: Job, i: nat)
    requires AllCarried(os, final) && i < |os|
    ensures var o, start := os[i], |Contents(os[..i])|;
            && RelsOk(o.rels, |o.values|, |o.contents|) && start + |o.contents| <= |Contents(os)|
            && At(AllDirect(os, final), start, Linked(Direct(o, final), o.contents, o.rels))
  {
    hide Linked, RelOk;
    var front, o := os[..|os| - 1], os[|os| - 1];
    if i == |os| - 1 {
      AtRight(AllDirect(front, final), Linked(Direct(o, final), o.contents, o.rels));
    } else {
      DirectPart(front, final, i);
      assert front[..i] == os[..i];
      AtLeft(AllDirect(front, final), Linked(Direct(o, final), o.contents, o.rels), |Contents(os[..i])|,
             Linked(Direct(os[i], final), os[i].contents, os[i].rels));
    }
  }

  /** In other words: after both steps every reloc of every file has been carried out on its contents, with the
      addresses of a direct link. */
  lemma PartialLinkIsTrue(os: seq<Object>, final: Job, post: seq<Byte>, i: nat)
    requires AllCarried(os, final) && |Contents(os)| + |post| < TWO31 && i < |os|
    requires RelsOk(AllMiddles(os, final), |final.values|, |Contents(os)| + |post|)
    ensures var o, start, d := os[i], |Contents(os[..i])|, Linked(final, Contents(os) + post, AllMiddles(os, final));
            start + |o.contents| <= |d| && LinkTrue(Direct(o, final), o.contents, d[start..start + |o.contents|], o.rels)
  {
    hide Linked, RelOk, LinkTrue, AllCarried, AllDirect, AllMiddles, Contents;
    var o, start := os[i], |Contents(os[..i])|;
    PartialLinkOfSections(os, final, post);
    DirectPart(os, final, i);
    AtLeft(AllDirect(os, final), post, start, Linked(Direct(o, final), o.contents, o.rels));
    LinkedHolds(Direct(o, final), o.contents, o.rels);
  }

  lemma LinkedNone(job: Job, c: seq<Byte>)
    ensures Linked(job, c, []) == c
  {
  }
}
