/** The a.out final link as it runs: output symbol numbering, header elimination and the three file cursors
    (aout_link_write_other_symbol, aout_link_write_symbols, aout_link_input_section,
    aout_link_reloc_link_order and final_link). */
module AoutLink {
  import opened ByteSeq
  import opened AoutIncludes
  import opened AoutSymbols
  import opened AoutOutput
  import opened AoutReloc
  import opened AoutCopy
  import opened AoutMeaning
  import RelocRecords

  // ----- the spec of aout_link_write_other_symbol -----

  /** The entry it works on: a warning stands for the entry it warns about. */
  function Target(hash: seq<HashEntry>, h: nat): (t: nat)
    requires h < |hash| && LinksInside(hash)
    ensures t < |hash|
  {
    if hash[h].kind == Warning then hash[h].link else h
  }

  /** What it writes. */
  function Wanted(info: Info, hash: seq<HashEntry>, h: nat): Other
    requires h < |hash| && LinksInside(hash)
  {
    if Settled(hash, h) then Nothing else OtherSymbol(info, hash[Target(hash, h)])
  }

  /** There is nothing left to decide. */
  predicate Settled(hash: seq<HashEntry>, h: nat)
    requires h < |hash| && LinksInside(hash)
  {
    hash[Target(hash, h)].written || (hash[h].kind == Warning && hash[Target(hash, h)].kind == New)
  }

  function HashAfter(info: Info, hash: seq<HashEntry>, h: nat, count: nat): (r: seq<HashEntry>)
    requires h < |hash| && LinksInside(hash)
    ensures |r| == |hash| && LinksInside(r)
  {
    var t := Target(hash, h);
    if Settled(hash, h) then hash
    else if Wanted(info, hash, h).Emit? then hash[t := hash[t].(written := true, indx := count)]
    else hash[t := hash[t].(written := true)]
  }

  /** Settled, or a warning about a warning. */
  predicate Decided(hash: seq<HashEntry>, h: nat)
    requires h < |hash| && LinksInside(hash)
  {
    hash[Target(hash, h)].kind == Warning || Settled(hash, h)
  }

  predicate KeepsDecided(hash: seq<HashEntry>, hash': seq<HashEntry>) {
    LinksInside(hash) && LinksInside(hash') && |hash| == |hash'|
    && forall h :: 0 <= h < |hash| && Decided(hash, h) ==> Decided(hash', h)
  }

  /** Forcing an entry out unsettles nothing: `forced` is the table when the entry is cleared for writing. */
  lemma StaysDecided(info: Info, hash: seq<HashEntry>, k: nat, count: nat, forced: seq<HashEntry>, hash': seq<HashEntry>)
    requires k < |hash| && LinksInside(hash) && forced == hash[k := hash[k].(written := false, indx := -2)] && LinksInside(forced)
    requires hash' == HashAfter(info, forced, k, count) && LinksInside(hash')
    ensures |hash'| == |hash| && forall h :: 0 <= h < |hash| && Decided(hash, h) ==> Decided(hash', h)
  {
    hide OtherSymbol;
  }

  /** Writing one entry settles it, and unsettles none. */
  lemma StaysSettled(info: Info, hash: seq<HashEntry>, h: nat, k: nat, count: nat, hash': seq<HashEntry>)
    requires h < |hash| && k < |hash| && LinksInside(hash) && hash' == HashAfter(info, hash, k, count) && LinksInside(hash')
    requires h == k || Settled(hash, h)
    ensures |hash'| == |hash| && Settled(hash', h)
  {
  }

  function SymsOf(o: Other): seq<OutSym> {
    if o.Emit? then [o.sym] else []
  }

  function OwnersOf(o: Other, h: nat): Owners {
    if o.Emit? then [Some(h)] else []
  }

  /** The hash traversal over the first `k` entries: the table, the symbols written and what they stand for. */
  datatype Traversed = Traversed(hash: seq<HashEntry>, syms: seq<OutSym>, owners: Owners)

  function Traverse(info: Info, hash: seq<HashEntry>, k: nat, count: nat): (t: Traversed)
    requires k <= |hash| && LinksInside(hash)
    ensures |t.hash| == |hash| && LinksInside(t.hash)
  {
    if k == 0 then Traversed(hash, [], [])
    else
      var t := Traverse(info, hash, k - 1, count);
      var o := Wanted(info, t.hash, k - 1);
      Traversed(HashAfter(info, t.hash, k - 1, count + |t.syms|), t.syms + SymsOf(o),
                t.owners + OwnersOf(o, Target(t.hash, k - 1)))
  }

  lemma TraverseNone(info: Info, hash: seq<HashEntry>, count: nat)
    requires LinksInside(hash)
    ensures Traverse(info, hash, 0, count) == Traversed(hash, [], [])
  {
  }

  lemma TraverseStep(info: Info, hash: seq<HashEntry>, k: nat, count: nat)
    requires k < |hash| && LinksInside(hash)
    ensures var t, t' := Traverse(info, hash, k, count), Traverse(info, hash, k + 1, count);
            && t'.hash == HashAfter(info, t.hash, k, count + |t.syms|) && t'.syms == t.syms + SymsOf(Wanted(info, t.hash, k))
            && t'.owners == t.owners + OwnersOf(Wanted(info, t.hash, k), Target(t.hash, k))
  {
  }

  /** Entries that were not written, stand for something, and may not be stripped unless a reloc needs them. */
  predicate Unstripped(info: Info, hash: seq<HashEntry>, owners: Owners) {
    forall i :: 0 <= i < |owners| ==>
      && owners[i].Some? && owners[i].value < |hash| && Nameable(hash[owners[i].value]) && !hash[owners[i].value].written
      && (MayStrip(info, hash[owners[i].value]) ==> hash[owners[i].value].indx == -2)
  }

  /** What an entry says until it is written. */
  predicate KeepsUnwritten(hash: seq<HashEntry>, hash': seq<HashEntry>) {
    |hash'| == |hash| && forall h :: 0 <= h < |hash| && !hash'[h].written ==> hash'[h] == hash[h]
  }

  /** The traversal brings out nothing that should be stripped. */
  lemma {:induction false} TraverseStrips(info: Info, hash: seq<HashEntry>, k: nat, count: nat)
    requires k <= |hash| && LinksInside(hash)
    ensures Unstripped(info, hash, Traverse(info, hash, k, count).owners)
    ensures KeepsUnwritten(hash, Traverse(info, hash, k, count).hash)
  {
    hide OtherSymbol, Nameable, MayStrip, LinksInside;
    if k > 0 {
      TraverseStrips(info, hash, k - 1, count);
      var was := Traverse(info, hash, k - 1, count).hash;
      NothingIsStripped(info, was[Target(was, k - 1)]);
    }
  }

  // ----- relocs -----

  /** The type byte of a record.  The kind of a standard record holds its bits, the unused one last. */
  function RelType(big: bool, ext: bool, r: Rel): bv8 {
    if ext then RelocRecords.ExtType(big, r.kind, r.extern)
    else
      RelocRecords.Pack(big, r.extern, RelocRecords.TypeBit(r.kind, 4), RelocRecords.TypeBit(r.kind, 8), RelocRecords.TypeBit(r.kind, 16),
                        RelocRecords.TypeBit(r.kind, 32), RelocRecords.Length(r.kind % 4))
      | RelocRecords.Flag(RelocRecords.TypeBit(r.kind, 64), if big then 0x01 else 0x80)
  }

  /** The space `n` records take. */
  function RelSpace(ext: bool, n: nat): nat {
    if ext then 12 * n else 8 * n
  }

  /** A record as it is stored: address, 24-bit index, type and, in the extended format, the addend. */
  function RelBytes(big: bool, ext: bool, r: Rel): (b: seq<Byte>)
    ensures |b| == RelSpace(ext, 1)
  {
    Put(big, Word(r.address), 4) + Put(big, Word(r.index), 3) + [RelType(big, ext, r) as int]
    + if ext then Put(big, Word(r.addend), 4) else []
  }

  /** The kind of a standard record, as aout_link_input_section_std reads its bits. */
  function ReadStdKind(big: bool, t: bv8): nat {
    RelocRecords.ReadHowto(RelocRecords.Generic, big, t) + RelocRecords.Weight(RelocRecords.Has(t, if big then 0x01 else 0x80), 64)
  }

  function ReadStdRel(big: bool, b: seq<Byte>): Rel
    requires |b| == 8
  {
    var t := b[7] as bv8;
    Rel(SignedWord(Get(big, b[..4])), Get(big, b[4..7]), RelocRecords.ReadExtern(RelocRecords.Generic, big, t), ReadStdKind(big, t), 0)
  }

  /** The fields of a standard record hold the reloc. */
  predicate StdFitsRecord(r: Rel) {
    -TWO31 <= r.address < TWO31 && 0 <= r.index < 0x100_0000 && r.kind < 128 && r.addend == 0
  }

  lemma UnpackUnused(big: bool, extern: bool, pcrel: bool, baserel: bool, jmptable: bool, relative: bool, length: bv8, unused: bool)
    requires length < 4
    ensures var t := RelocRecords.Pack(big, extern, pcrel, baserel, jmptable, relative, length)
                     | RelocRecords.Flag(unused, if big then 0x01 else 0x80);
            && RelocRecords.Has(t, if big then 0x10 else 0x08) == extern && RelocRecords.ReadPcrel(big, t) == pcrel
            && RelocRecords.ReadBaserel(big, t) == baserel && RelocRecords.ReadJmptable(big, t) == jmptable
            && RelocRecords.ReadRelative(big, t) == relative && RelocRecords.ReadLength(big, t) == RelocRecords.Number(length)
            && RelocRecords.Has(t, if big then 0x01 else 0x80) == unused
  {
  }

  lemma TwoBits(n: nat)
    requires n < 4
    ensures RelocRecords.Length(n) < 4 && RelocRecords.Number(RelocRecords.Length(n)) == n
  {
    assert n == 0 || n == 1 || n == 2 || n == 3;
  }

  lemma OneBit(k: nat, m: nat)
    requires m > 0
    ensures k % (2 * m) == k % m + RelocRecords.Weight(RelocRecords.TypeBit(k, m), m)
  {
    var q := k / m;
    assert k == m * q + k % m;
    assert m * q == (2 * m) * (q / 2) + m * (q % 2) by {
      assert q == 2 * (q / 2) + q % 2;
    }
    ModUnique(k, 2 * m, q / 2, m * (q % 2) + k % m);
  }

  lemma SumOfBits(k: nat)
    ensures k % 128 == k % 4 + RelocRecords.Weight(RelocRecords.TypeBit(k, 4), 4) + RelocRecords.Weight(RelocRecords.TypeBit(k, 8), 8)
                       + RelocRecords.Weight(RelocRecords.TypeBit(k, 16), 16) + RelocRecords.Weight(RelocRecords.TypeBit(k, 32), 32)
                       + RelocRecords.Weight(RelocRecords.TypeBit(k, 64), 64)
  {
    hide RelocRecords.TypeBit, RelocRecords.Weight;
    OneBit(k, 4);
    OneBit(k, 8);
    OneBit(k, 16);
    OneBit(k, 32);
    OneBit(k, 64);
  }

  lemma KindFromBits(big: bool, t: bv8, k: nat)
    requires RelocRecords.ReadLength(big, t) == k % 4 && RelocRecords.ReadPcrel(big, t) == RelocRecords.TypeBit(k, 4)
    requires RelocRecords.ReadBaserel(big, t) == RelocRecords.TypeBit(k, 8) && RelocRecords.ReadJmptable(big, t) == RelocRecords.TypeBit(k, 16)
    requires RelocRecords.ReadRelative(big, t) == RelocRecords.TypeBit(k, 32)
    requires RelocRecords.Has(t, if big then 0x01 else 0x80) == RelocRecords.TypeBit(k, 64)
    ensures ReadStdKind(big, t) == k % 128
  {
    hide RelocRecords.Has, RelocRecords.ReadLength, RelocRecords.ReadPcrel, RelocRecords.ReadBaserel, RelocRecords.ReadJmptable,
         RelocRecords.ReadRelative, RelocRecords.Number, RelocRecords.Weight, RelocRecords.TypeBit;
    SumOfBits(k);
  }

  lemma StdTypeReadsBack(big: bool, r: Rel)
    ensures var t := RelType(big, false, r); ReadStdKind(big, t) == r.kind % 128 && RelocRecords.ReadExtern(RelocRecords.Generic, big, t) == r.extern
  {
    hide RelocRecords.Pack, RelocRecords.Flag, RelocRecords.Has, RelocRecords.ReadLength, RelocRecords.ReadPcrel, RelocRecords.ReadBaserel,
         RelocRecords.ReadJmptable, RelocRecords.ReadRelative, RelocRecords.Number, RelocRecords.TypeBit, RelocRecords.Length,
         RelocRecords.ReadHowto, RelocRecords.ExtType, ReadStdKind;
    var k := r.kind;
    TwoBits(k % 4);
    UnpackUnused(big, r.extern, RelocRecords.TypeBit(k, 4), RelocRecords.TypeBit(k, 8), RelocRecords.TypeBit(k, 16),
                 RelocRecords.TypeBit(k, 32), RelocRecords.Length(k % 4), RelocRecords.TypeBit(k, 64));
    KindFromBits(big, RelType(big, false, r), k);
  }

  /** A standard record reads back as the reloc it was written from if and only if its fields hold it. */
  lemma StdRecordReadsBack(big: bool, r: Rel)
    ensures ReadStdRel(big, RelBytes(big, false, r)) == r <==> StdFitsRecord(r)
  {
    hide Get, Put, Word, SignedWord, RelType, ReadStdKind, RelocRecords.ReadExtern;
    var b, t := RelBytes(big, false, r), RelType(big, false, r);
    assert b[..4] == Put(big, Word(r.address), 4) && b[4..7] == Put(big, Word(r.index), 3);
    RelocRecords.BitsAsByte(t);
    StdTypeReadsBack(big, r);
    SignedReadsBack(big, r.address);
    IndexReadsBack(big, r.index);
  }

  /** An extended record as aout_link_input_section_ext reads it. */
  function ReadExtRel(big: bool, b: seq<Byte>): Rel
    requires |b| == 12
  {
    var t := b[7] as bv8;
    Rel(SignedWord(Get(big, b[..4])), Get(big, b[4..7]), RelocRecords.ReadExtExtern(big, t), RelocRecords.ReadExtKind(big, t),
        SignedWord(Get(big, b[8..])))
  }

  /** The fields of an extended record hold the reloc. */
  predicate ExtFitsRecord(r: Rel) {
    && -TWO31 <= r.address < TWO31 && -TWO31 <= r.addend < TWO31
    && 0 <= r.index < 0x100_0000 && r.kind < 32
  }

  /** A word read back with its sign. */
  lemma SignedReadsBack(big: bool, v: int)
    ensures SignedWord(Get(big, Put(big, Word(v), 4))) == SignedWord(v)
    ensures SignedWord(v) == v <==> -TWO31 <= v < TWO31
  {
    GetPut(big, Word(v), 4);
    Pow256Values();
    var k := v / TWO32;
    ModOfSum(v + TWO31, TWO32, k, Word(v) + TWO31);
  }

  lemma IndexReadsBack(big: bool, v: int)
    ensures Get(big, Put(big, Word(v), 3)) == v <==> 0 <= v < 0x100_0000
  {
    GetPut(big, Word(v), 3);
    Pow256Values();
  }

  /** An extended record reads back as the reloc it was written from if and only if its fields hold it. */
  lemma ExtRecordReadsBack(big: bool, r: Rel)
    ensures ReadExtRel(big, RelBytes(big, true, r)) == r <==> ExtFitsRecord(r)
  {
    hide Get, Put, Word, SignedWord, RelocRecords.ExtType, RelocRecords.ReadExtKind, RelocRecords.ReadExtExtern;
    var b, t := RelBytes(big, true, r), RelocRecords.ExtType(big, r.kind, r.extern);
    assert b[..4] == Put(big, Word(r.address), 4) && b[4..7] == Put(big, Word(r.index), 3) && b[8..] == Put(big, Word(r.addend), 4);
    RelocRecords.BitsAsByte(t);
    RelocRecords.ExtTypeReadsBack(big, r.kind, r.extern);
    SignedReadsBack(big, r.address);
    SignedReadsBack(big, r.addend);
    IndexReadsBack(big, r.index);
  }

  function RelsBytes(big: bool, ext: bool, rs: seq<Rel>): (b: seq<Byte>)
    ensures |b| == RelSpace(ext, |rs|)
  {
    if rs == [] then [] else RelsBytes(big, ext, rs[..|rs| - 1]) + RelBytes(big, ext, rs[|rs| - 1])
  }

  /** Record `k` of an area stands after the `k` before it. */
  lemma {:induction false} RelAt(big: bool, ext: bool, rs: seq<Rel>, k: nat)
    requires k < |rs|
    ensures At(RelsBytes(big, ext, rs), RelSpace(ext, k), RelBytes(big, ext, rs[k]))
  {
    hide RelBytes;
    var n := |rs| - 1;
    var front, last := RelsBytes(big, ext, rs[..n]), RelBytes(big, ext, rs[n]);
    if k == n {
      AtRight(front, last);
    } else {
      RelAt(big, ext, rs[..n], k);
      AtLeft(front, last, RelSpace(ext, k), RelBytes(big, ext, rs[k]));
    }
  }

  function HowtoOf(ext: bool, kind: nat): Option<Howto> {
    if ext then if kind < |howtoTableExt| then Some(howtoTableExt[kind]) else None
    else if kind % 64 < 41 then Some(Howto(0, 0, 0, kind / 4 % 2 == 1, false))
    else None
  }

  /** A standard reloc is a displacement if and only if its record says so. */
  lemma StdPcrel(big: bool, r: Rel)
    requires HowtoOf(false, r.kind).Some?
    ensures HowtoOf(false, r.kind).value.pcrel == RelocRecords.ReadPcrel(big, RelType(big, false, r))
  {
    hide RelocRecords.Pack, RelocRecords.Flag, RelocRecords.ReadPcrel, RelocRecords.Length, RelocRecords.Number, RelocRecords.ExtType;
    var k := r.kind;
    TwoBits(k % 4);
    UnpackUnused(big, r.extern, RelocRecords.TypeBit(k, 4), RelocRecords.TypeBit(k, 8), RelocRecords.TypeBit(k, 16),
                 RelocRecords.TypeBit(k, 32), RelocRecords.Length(k % 4), RelocRecords.TypeBit(k, 64));
  }

  /** A rewritten reloc against a symbol: against the section of its definition, or at the position of the
      output symbol that stands for it. */
  predicate RelTrue(hash: seq<HashEntry>, owners: Owners, r: Rel, out: Rel, m: int, h: Option<nat>) {
    && (h.Some? ==> h.value < |hash|)
    && if h.Some? && IsDefined(hash[h.value]) then !out.extern && out.index == IndexOfSection(hash[h.value].section)
       else
         && out.extern && (m != -1 ==> out.index == m) && (m == -1 && h.None? ==> out.index == 0)
         && (m == -1 && h.Some? && (Nameable(hash[h.value]) || out.index >= 0) ==> 0 <= out.index < |owners| && owners[out.index] == h)
  }

  function SymOf(hash: seq<HashEntry>, h: Option<nat>): Resolution {
    if h.Some? && h.value < |hash| then Resolved(hash[h.value]) else Open
  }

  predicate AgainstSymbol(ext: bool, r: Rel) {
    r.extern || (ext && IsBaseRelative(r.kind))
  }

  /** A reloc of section `s` after a relocatable link; base-relative ones only get a new symbol number. */
  predicate RelDone(ext: bool, l: Layout, s: Section, hash: seq<HashEntry>, owners: Owners, r: Rel, out: Rel, m: int, h: Option<nat>) {
    HowtoOf(ext, r.kind).Some? &&
    if ext && IsBaseRelative(r.kind) then
      out == r.(address := SignedWord(r.address + PlaceOf(l, s).outOffset), index := if m == -1 then 0 else m)
    else if r.extern then
      RelTrue(hash, owners, r, out, m, h) && out == Rewritten(l, s, HowtoOf(ext, r.kind).value, r, SymOf(hash, h), out.index)
    else
      SectionOfIndex(r.index).Some? && out == Rewritten(l, s, HowtoOf(ext, r.kind).value, r, Open, 0)
  }

  lemma DoneStays(ext: bool, l: Layout, s: Section, hash: seq<HashEntry>, owners: Owners, hash': seq<HashEntry>, owners': Owners,
                  r: Rel, out: Rel, m: int, h: Option<nat>)
    requires RelDone(ext, l, s, hash, owners, r, out, m, h) && SameTable(hash', hash) && owners <= owners'
    ensures RelDone(ext, l, s, hash', owners', r, out, m, h)
  {
    hide Rewritten, IsBaseRelative, SectionOfIndex, SignedWord, HowtoOf;
  }

  /** The first `|outs|` relocs of a section are done. */
  predicate RelsDone(ext: bool, l: Layout, s: Section, hash: seq<HashEntry>, owners: Owners, rels: seq<Rel>, outs: seq<Rel>,
                     symbolMap: seq<int>, targets: seq<Option<nat>>)
  {
    |outs| <= |rels| && |symbolMap| == |targets| &&
    forall k :: 0 <= k < |outs| ==>
      var (m, h) := MapAt(symbolMap, targets, rels[k].index); RelDone(ext, l, s, hash, owners, rels[k], outs[k], m, h)
  }

  function MapAt(symbolMap: seq<int>, targets: seq<Option<nat>>, index: int): (int, Option<nat>)
    requires |symbolMap| == |targets|
  {
    if 0 <= index < |symbolMap| then (symbolMap[index], targets[index]) else (-1, None)
  }

  lemma OneMoreDone(ext: bool, l: Layout, s: Section, hash: seq<HashEntry>, owners: Owners, hash': seq<HashEntry>, owners': Owners,
                    rels: seq<Rel>, outs: seq<Rel>, symbolMap: seq<int>, targets: seq<Option<nat>>, out: Rel)
    requires RelsDone(ext, l, s, hash, owners, rels, outs, symbolMap, targets) && |outs| < |rels|
    requires SameTable(hash', hash) && owners <= owners'
    requires var (m, h) := MapAt(symbolMap, targets, rels[|outs|].index); RelDone(ext, l, s, hash', owners', rels[|outs|], out, m, h)
    ensures RelsDone(ext, l, s, hash', owners', rels, outs + [out], symbolMap, targets)
  {
    hide RelDone, SameTable, MapAt;
    forall k | 0 <= k < |outs|
      ensures var (m, h) := MapAt(symbolMap, targets, rels[k].index); RelDone(ext, l, s, hash', owners', rels[k], outs[k], m, h)
    {
      var (m, h) := MapAt(symbolMap, targets, rels[k].index);
      DoneStays(ext, l, s, hash, owners, hash', owners', rels[k], outs[k], m, h);
    }
  }

  /** The relocs of an input section; a last record may be cut short. */
  datatype RelArea = RelArea(rels: seq<Rel>, slack: seq<Byte>)

  /** a_trsize or a_drsize of an input file. */
  function AreaSize(ext: bool, a: RelArea): nat {
    RelSpace(ext, |a.rels|) + |a.slack|
  }

  /** An input file: symbols and layout, and the relocs of its text and data. */
  datatype InFile = InFile(inp: Input, text: RelArea, data: RelArea)

  /** The trace of linking a file: the hash table and the headers seen before, where its symbols start among the
      output symbols, and its relocs as rewritten. */
  datatype Done = Done(hash: seq<HashEntry>, before: Seen, at: nat, text: seq<Rel>, data: seq<Rel>)

  predicate Started(f: InFile, d: Done) {
    LinksInside(d.hash) && HashesInside(f.inp, |d.hash|)
  }

  /** What the symbol loop made of the file. */
  function CopyOf(info: Info, f: InFile, d: Done): Copying
    requires Started(f, d)
  {
    Copy(info, f.inp, d.hash, d.before, d.at + |FileSym(info, f.inp)|, |f.inp.syms|)
  }

  /** Its output symbols, and the entries they stand for. */
  function SymsIn(info: Info, f: InFile, d: Done): seq<OutSym>
    requires Started(f, d)
  {
    FileSym(info, f.inp) + CopyOf(info, f, d).syms
  }

  function OwnersIn(info: Info, f: InFile, d: Done): Owners
    requires Started(f, d)
  {
    seq(|FileSym(info, f.inp)|, _ => None) + CopyOf(info, f, d).owners
  }

  /** `part` stands at position `at`. */
  predicate StandsAt<T(==)>(whole: seq<T>, at: nat, part: seq<T>) {
    at + |part| <= |whole| && whole[at..at + |part|] == part
  }

  /** The symbols of a file are in place, with the entries they stand for, its symbol map leads to them, and what
      they say is true. */
  ghost predicate SymbolsDone(info: Info, hash: seq<HashEntry>, owners: Owners, emitted: seq<OutSym>, f: InFile, d: Done) {
    && Started(f, d) && SameTable(hash, d.hash)
    && StandsAt(emitted, d.at, SymsIn(info, f, d)) && StandsAt(owners, d.at, OwnersIn(info, f, d))
    && AllMapOk(owners, emitted, CopyOf(info, f, d).map_, f.inp)
    && SymbolsTrue(info, f.inp, hash, CopyOf(info, f, d).map_, d.at + |FileSym(info, f.inp)|, 0, emitted)
  }

  /** The symbols copied from a file are exactly `n` from position `at` on. */
  ghost predicate PartCopied(copied: seq<bool>, copied': seq<bool>, at: nat, n: nat) {
    copied <= copied' && forall p :: |copied| <= p < |copied'| ==> (copied'[p] <==> at <= p < at + n)
  }

  lemma PartStays(c0: seq<bool>, s1: seq<OutSym>, c1: seq<bool>, s2: seq<OutSym>, c2: seq<bool>, at: nat, n: nat)
    requires PartCopied(c0, c1, at, n) && Forced(s1, c1, s2, c2) && at + n <= |c1|
    ensures PartCopied(c0, c2, at, n) && Depth(s2, Some(0)) == Depth(s1, Some(0)) && s1 <= s2 && at + n <= |c2|
  {
    hide Depth;
  }

  ghost predicate FileDone(info: Info, ext: bool, hash: seq<HashEntry>, owners: Owners, emitted: seq<OutSym>, f: InFile,
                           textMarked: bool, dataMarked: bool, d: Done)
  {
    && SymbolsDone(info, hash, owners, emitted, f, d)
    && var c := CopyOf(info, f, d);
    && (info.relocatable && textMarked ==>
          |d.text| == |f.text.rels| && RelsDone(ext, f.inp.layout, Text, hash, owners, f.text.rels, d.text, c.map_, c.targets))
    && (info.relocatable && dataMarked ==>
          |d.data| == |f.data.rels| && RelsDone(ext, f.inp.layout, Data, hash, owners, f.data.rels, d.data, c.map_, c.targets))
  }

  lemma TrueStays(info: Info, inp: Input, hash: seq<HashEntry>, map_: seq<int>, base: nat, emitted: seq<OutSym>, hash': seq<HashEntry>,
                  emitted': seq<OutSym>)
    requires SymbolsTrue(info, inp, hash, map_, base, 0, emitted) && SameTable(hash', hash) && emitted <= emitted'
    ensures SymbolsTrue(info, inp, hash', map_, base, 0, emitted')
  {
    hide SymbolAt;
    assert emitted'[0..][..|emitted|] == emitted;
    SymbolsStayTrue(info, inp, hash, map_, base, 0, emitted, hash', 0, emitted');
  }

  lemma SymbolsStay(info: Info, hash: seq<HashEntry>, owners: Owners, emitted: seq<OutSym>, hash': seq<HashEntry>, owners': Owners,
                    emitted': seq<OutSym>, f: InFile, d: Done)
    requires SymbolsDone(info, hash, owners, emitted, f, d)
    requires SameTable(hash', hash) && owners <= owners' && emitted <= emitted'
    ensures SymbolsDone(info, hash', owners', emitted', f, d)
  {
    hide SameTable, CopyOf, SymsIn, OwnersIn, AllMapOk, Started, SymbolsTrue, FileSym, LinksInside, HashesInside;
    SameTableTrans(hash', hash, d.hash);
    TrueStays(info, f.inp, hash, CopyOf(info, f, d).map_, d.at + |FileSym(info, f.inp)|, emitted, hash', emitted');
    MoreSymbols(owners, emitted, owners', emitted', CopyOf(info, f, d).map_, f.inp);
  }

  lemma RelsStay(ext: bool, l: Layout, s: Section, hash: seq<HashEntry>, owners: Owners, hash': seq<HashEntry>, owners': Owners,
                 rels: seq<Rel>, outs: seq<Rel>, symbolMap: seq<int>, targets: seq<Option<nat>>)
    requires RelsDone(ext, l, s, hash, owners, rels, outs, symbolMap, targets) && SameTable(hash', hash) && owners <= owners'
    ensures RelsDone(ext, l, s, hash', owners', rels, outs, symbolMap, targets)
  {
    hide RelDone, SameTable, MapAt;
    forall k | 0 <= k < |outs|
      ensures var (m, h) := MapAt(symbolMap, targets, rels[k].index); RelDone(ext, l, s, hash', owners', rels[k], outs[k], m, h)
    {
      var (m, h) := MapAt(symbolMap, targets, rels[k].index);
      DoneStays(ext, l, s, hash, owners, hash', owners', rels[k], outs[k], m, h);
    }
  }

  /** The relocs do not bear on the symbols. */
  lemma SetRelocs(info: Info, hash: seq<HashEntry>, owners: Owners, emitted: seq<OutSym>, f: InFile, d: Done, text: seq<Rel>, data: seq<Rel>)
    returns (d': Done)
    requires SymbolsDone(info, hash, owners, emitted, f, d)
    ensures d' == d.(text := text, data := data) && SymbolsDone(info, hash, owners, emitted, f, d')
    ensures Started(f, d) && Started(f, d') && CopyOf(info, f, d') == CopyOf(info, f, d) && SymsIn(info, f, d') == SymsIn(info, f, d)
  {
    hide Copy, SameTable, AllMapOk, LinksInside, HashesInside, StandsAt, SymbolsTrue;
    d' := d.(text := text, data := data);
    assert CopyOf(info, f, d') == CopyOf(info, f, d);
  }

  lemma StartedIs(info: Info, hash: seq<HashEntry>, owners: Owners, emitted: seq<OutSym>, f: InFile, d: Done)
    requires SymbolsDone(info, hash, owners, emitted, f, d)
    ensures Started(f, d)
  {
  }

  /** A file that is done stays done as the link goes on. */
  lemma FileStaysDone(info: Info, ext: bool, hash: seq<HashEntry>, owners: Owners, emitted: seq<OutSym>, hash': seq<HashEntry>,
                      owners': Owners, emitted': seq<OutSym>, f: InFile, textMarked: bool, dataMarked: bool, d: Done)
    requires FileDone(info, ext, hash, owners, emitted, f, textMarked, dataMarked, d)
    requires SameTable(hash', hash) && owners <= owners' && emitted <= emitted'
    ensures FileDone(info, ext, hash', owners', emitted', f, textMarked, dataMarked, d)
  {
    hide RelsDone, SymbolsDone, SameTable, CopyOf, Started;
    StartedIs(info, hash, owners, emitted, f, d);
    SymbolsStay(info, hash, owners, emitted, hash', owners', emitted', f, d);
    var c := CopyOf(info, f, d);
    if info.relocatable && textMarked {
      RelsStay(ext, f.inp.layout, Text, hash, owners, hash', owners', f.text.rels, d.text, c.map_, c.targets);
    }
    if info.relocatable && dataMarked {
      RelsStay(ext, f.inp.layout, Data, hash, owners, hash', owners', f.data.rels, d.data, c.map_, c.targets);
    }
  }

  /** The bytes a section adds to its reloc area. */
  function AreaBytes(big: bool, ext: bool, copied: bool, outs: seq<Rel>, a: RelArea): seq<Byte> {
    if copied then RelsBytes(big, ext, outs) + a.slack else []
  }

  /** The counted size is that of the records. */
  lemma AreaSizeIs(big: bool, ext: bool, outs: seq<Rel>, a: RelArea)
    requires |outs| == |a.rels|
    ensures |AreaBytes(big, ext, true, outs, a)| == AreaSize(ext, a)
  {
  }

  lemma NoBytes(big: bool, ext: bool, outs: seq<Rel>, a: RelArea)
    ensures AreaBytes(big, ext, false, outs, a) == []
  {
  }

  predicate FileOk(ext: bool, f: InFile, n: nat) {
    HashesInside(f.inp, n) && RelsInside(ext, f.text.rels, |f.inp.syms|) && RelsInside(ext, f.data.rels, |f.inp.syms|)
  }

  predicate RelsInside(ext: bool, rels: seq<Rel>, n: nat) {
    forall k :: 0 <= k < |rels| && AgainstSymbol(ext, rels[k]) ==> 0 <= rels[k].index < n
  }

  /** Where a symbol went: nowhere, to the output symbol of its hash entry, or to a copy under its own name. */
  predicate MapOk(owners: Owners, syms: seq<OutSym>, m: int, sym: InSym) {
    && m < |owners| && m < |syms|
    && (m >= 0 ==> if owners[m].Some? then owners[m] == sym.hash else syms[m].name == sym.name)
  }

  predicate AllMapOk(owners: Owners, syms: seq<OutSym>, map_: seq<int>, inp: Input) {
    |map_| <= |inp.syms| && forall i :: 0 <= i < |map_| ==> MapOk(owners, syms, map_[i], inp.syms[i])
  }

  predicate TargetsInside(targets: seq<Option<nat>>, n: nat) {
    forall i :: 0 <= i < |targets| && targets[i].Some? ==> targets[i].value < n
  }

  lemma AnotherTarget(targets: seq<Option<nat>>, t: Option<nat>, n: nat)
    requires TargetsInside(targets, n) && (t.Some? ==> t.value < n)
    ensures TargetsInside(targets + [t], n)
  {
  }

  lemma AnotherMap(owners: Owners, syms: seq<OutSym>, map_: seq<int>, inp: Input, m: int)
    requires AllMapOk(owners, syms, map_, inp) && |map_| < |inp.syms|
    requires m == -1 || MapOk(owners, syms, m, inp.syms[|map_|])
    ensures AllMapOk(owners, syms, map_ + [m], inp)
  {
  }

  lemma NoMap(owners: Owners, syms: seq<OutSym>, inp: Input, n: nat)
    ensures AllMapOk(owners, syms, [], inp) && TargetsInside([], n)
  {
  }

  lemma MoreSymbols(owners: Owners, syms: seq<OutSym>, owners': Owners, syms': seq<OutSym>, map_: seq<int>, inp: Input)
    requires AllMapOk(owners, syms, map_, inp) && owners <= owners' && syms <= syms'
    ensures AllMapOk(owners', syms', map_, inp)
  {
    forall i | 0 <= i < |map_| ensures MapOk(owners', syms', map_[i], inp.syms[i]) {
      assert MapOk(owners, syms, map_[i], inp.syms[i]);
    }
  }

  /** A link order that asks for a reloc. */
  datatype RelOrder =
    | SectionReloc(code: int, offset: int, kind: nat, addend: int)
    | SymbolReloc(h: Option<nat>, offset: int, kind: nat, addend: int)

  /** The reloc such an order leads to: at the output symbol that stands for its symbol, if there can be one. */
  predicate OrderDone(hash: seq<HashEntry>, owners: Owners, order: RelOrder, out: Rel) {
    && out == Rel(order.offset, out.index, order.SymbolReloc?, order.kind, order.addend)
    && match order
       case SectionReloc(code, _, _, _) => out.index == code
       case SymbolReloc(h, _, _, _) =>
         && (h.None? ==> out.index == 0)
         && (h.Some? ==> h.value < |hash| && (Nameable(hash[h.value]) || out.index >= 0 ==> 0 <= out.index < |owners| && owners[out.index] == h))
  }

  /** No entry has been written or numbered. */
  predicate Unwritten(hash: seq<HashEntry>) {
    forall h :: 0 <= h < |hash| ==> !hash[h].written && hash[h].indx == -1
  }

  /** What adding the entry's own symbol does to everything that is kept about symbols. */
  lemma EntryAdded(info: Info, big: bool, hash: seq<HashEntry>, owners: Owners, emitted: seq<OutSym>, copied: seq<bool>, tab: Strtab, h: nat)
    requires LinksInside(hash) && Numbered(hash, owners) && Accounted(info, hash) && Labelled(hash, owners, emitted, copied)
    requires TabOk(tab) && AllNamed(tab, emitted) && h < |hash| && hash[h].indx < 0 && Nameable(hash[h])
    ensures var sym, hash' := EntrySym(hash[h]), hash[h := hash[h].(written := true, indx := |owners|)];
            var tab' := AddString(tab, sym.name);
            && LinksInside(hash') && Numbered(hash', owners + [Some(h)]) && Accounted(info, hash')
            && Labelled(hash', owners + [Some(h)], emitted + [sym], copied + [false])
            && Forced(emitted, copied, emitted + [sym], copied + [false])
            && TabOk(tab') && HasString(tab', sym.name) && AllNamed(tab', emitted + [sym])
            && SymTable(big, tab', emitted + [sym]) == SymTable(big, tab, emitted) + NlistBytes(big, StrxOf(tab', sym.name), sym)
  {
    hide Numbered, Accounted, Labelled, Forced, EntrySym, NlistBytes, AddString, SymTable, LinksInside, AllNamed, TabOk;
    var sym := EntrySym(hash[h]);
    AddStringOk(tab, sym.name);
    SymTableGrows(big, tab, emitted, sym);
    EmitOwned(hash, owners, h);
    Touched(hash, h, true, |owners|);
    AccountedTouch(info, hash, h, true, |owners|);
    LabelledEntry(hash, owners, emitted, copied, h, |owners|);
  }

  /** aout_final_link_info and the parts of the output bfd it works on. */
  class FinalLink {
    const info: Info
    const big: bool
    /** Whether relocs are extended records. */
    const ext: bool
    /** rel_filepos of text and data, and obj_sym_filepos, as the backend callback set them. */
    const trelStart: nat
    const drelStart: nat
    const symStart: nat

    var hash: seq<HashEntry>
    var includes: Seen
    var strtab: Strtab
    var symCount: nat
    var symoff: nat
    var treloff: nat
    var dreloff: nat
    var file: seq<Byte>

    /** Every output symbol, the entry it stands for, and whether it was copied from an input file. */
    ghost var emitted: seq<OutSym>
    ghost var owners: Owners
    ghost var copied: seq<bool>
    /** What the two reloc areas hold, and the reloc bytes that were counted but are not yet written. */
    ghost var trel: seq<Byte>
    ghost var drel: seq<Byte>
    ghost var leftT: nat
    ghost var leftD: nat

    /** What holds even while the symbols of one input are being copied. */
    ghost predicate Numbering()
      reads this`hash, this`owners, this`symCount, this`emitted, this`copied, this`strtab
    {
      && LinksInside(hash) && Numbered(hash, owners) && Accounted(info, hash) && Labelled(hash, owners, emitted, copied)
      && |owners| == symCount && |emitted| == symCount && |copied| == symCount
      && TabOk(strtab) && AllNamed(strtab, emitted)
    }

    /** The reloc cursors: each area holds what was written to it, and keeps room for the rest. */
    ghost predicate Relocs()
      reads this`file, this`trel, this`drel, this`treloff, this`dreloff, this`leftT, this`leftD
    {
      && treloff == trelStart + |trel| && Area(file, trelStart, trel)
      && dreloff == drelStart + |drel| && Area(file, drelStart, drel)
      && treloff + leftT <= drelStart && dreloff + leftD <= symStart
    }

    /** The invariant between steps. */
    ghost predicate Inv()
      reads this
    {
      && Numbering() && Relocs()
      && symoff == symStart + EXTERNAL_NLIST_SIZE * symCount
      && Area(file, symStart, SymTable(big, strtab, emitted))
    }

    /** The cursors as MY_final_link_callback sets them: text relocs after the data, data relocs after them,
        then the symbols. */
    constructor (info: Info, big: bool, ext: bool, hash: seq<HashEntry>, dataEnd: nat, trsize: nat, drsize: nat)
      requires LinksInside(hash) && Unwritten(hash)
      ensures Inv() && this.info == info && this.big == big && this.ext == ext && this.hash == hash
      ensures trelStart == dataEnd && drelStart == dataEnd + trsize && symStart == dataEnd + trsize + drsize
      ensures leftT == trsize && leftD == drsize && emitted == [] && copied == [] && trel == [] && drel == [] && includes == map[]
    {
      this.info, this.big, this.ext, this.hash := info, big, ext, hash;
      this.trelStart, this.drelStart, this.symStart := dataEnd, dataEnd + trsize, dataEnd + trsize + drsize;
      includes, strtab, symCount, file := map[], Strtab(map[], []), 0, [];
      treloff, dreloff, symoff := dataEnd, dataEnd + trsize, dataEnd + trsize + drsize;
      emitted, owners, copied, trel, drel, leftT, leftD := [], [], [], [], [], trsize, drsize;
    }

    /** Bytes at the symbol cursor reach neither reloc area. */
    lemma SymbolsKeepRelocs(table: seq<Byte>, bytes: seq<Byte>)
      requires Relocs() && Area(file, symStart, table) && symoff == symStart + |table|
      ensures Area(WriteAt(file, symoff, bytes), trelStart, trel)
      ensures Area(WriteAt(file, symoff, bytes), drelStart, drel)
      ensures Area(WriteAt(file, symoff, bytes), symStart, table + bytes)
    {
      hide Area, WriteAt;
      WriteKeeps(file, symoff, bytes, trelStart, trel);
      WriteKeeps(file, symoff, bytes, drelStart, drel);
      WriteExtends(file, symoff, bytes, symStart, table);
    }

    lemma NothingChanged()
      requires Inv()
      ensures KeepsDecided(hash, hash)
    {
    }

    /** Its tail: an output symbol for entry `h`, written at the symbol cursor. */
    method PutSymbol(h: nat, sym: OutSym)
      requires Inv() && h < |hash| && hash[h].indx < 0 && Nameable(hash[h]) && sym == EntrySym(hash[h])
      modifies this`hash, this`strtab, this`symCount, this`symoff, this`file, this`owners, this`emitted, this`copied
      ensures Inv()
      ensures hash == old(hash)[h := old(hash[h]).(written := true, indx := old(symCount))]
      ensures emitted == old(emitted) + [sym] && owners == old(owners) + [Some(h)] && copied == old(copied) + [false]
      ensures Forced(old(emitted), old(copied), emitted, copied)
    {
      hide Numbered, Accounted, Labelled, Forced, EntrySym, Area, NlistBytes, AddString, SymTable, LinksInside, WriteAt, AllNamed, TabOk,
           Nameable, StrxOf, HasString;
      ghost var table := SymTable(big, strtab, emitted);
      EntryAdded(info, big, hash, owners, emitted, copied, strtab, h);
      strtab := AddString(strtab, sym.name);
      var bytes := NlistBytes(big, StrxOf(strtab, sym.name), sym);
      hash := hash[h := hash[h].(written := true, indx := symCount)];
      symCount := symCount + 1;
      owners, emitted, copied := owners + [Some(h)], emitted + [sym], copied + [false];
      Flush(table, bytes);
    }

    /** A change to an entry that has no index. */
    lemma InvTouched(h: nat, w: bool, i: int)
      requires Inv() && h < |hash| && ((hash[h].indx < 0 && i < 0) || (w && i == hash[h].indx))
      requires w && i < 0 ==> !Nameable(hash[h]) || MayStrip(info, hash[h])
      ensures Accounted(info, hash[h := hash[h].(written := w, indx := i)])
      ensures LinksInside(hash[h := hash[h].(written := w, indx := i)])
      ensures Numbered(hash[h := hash[h].(written := w, indx := i)], owners)
      ensures Labelled(hash[h := hash[h].(written := w, indx := i)], owners, emitted, copied)
      ensures SameTable(hash[h := hash[h].(written := w, indx := i)], hash)
    {
      hide Numbered, Accounted, Labelled, Area, SymTable, LinksInside, AllNamed, TabOk, SameTable;
      Unnumbered(hash, owners, h, w, i);
      Touched(hash, h, w, i);
      AccountedTouch(info, hash, h, w, i);
      LabelledTouch(hash, owners, emitted, copied, h, w, i);
    }

    /** aout_link_write_other_symbol; `ok` is false where the code aborts. */
    method WriteOther(h0: nat) returns (ok: bool)
      requires Inv() && h0 < |hash|
      modifies this`hash, this`strtab, this`symCount, this`symoff, this`file, this`owners, this`emitted, this`copied
      ensures Inv() && SameTable(hash, old(hash))
      ensures ok <==> !Wanted(info, old(hash), h0).Abort?
      ensures hash == HashAfter(info, old(hash), h0, old(symCount))
      ensures emitted == old(emitted) + SymsOf(Wanted(info, old(hash), h0))
      ensures owners == old(owners) + OwnersOf(Wanted(info, old(hash), h0), Target(old(hash), h0))
      ensures Forced(old(emitted), old(copied), emitted, copied)
    {
      hide Forced, EntrySym, Nameable, Numbered, Accounted, Labelled, Area, OtherSymbol, AddString, SymTable, LinksInside, SameTable, AllNamed, TabOk;
      ok := true;
      var h := h0;
      if hash[h].kind == Warning {
        h := hash[h].link;
      }
      assert h == Target(hash, h0);
      SameTableRefl(hash);
      ForcedNone(emitted, copied);
      if hash[h0].kind == Warning && hash[h].kind == New {
        return;
      }
      if hash[h].written {
        return;
      }
      NotYetIndexed(hash, owners, h);
      ghost var before, count := hash, symCount;
      var decision := OtherSymbol(info, hash[h]);
      NothingIsStripped(info, hash[h]);
      Touched(hash, h, true, symCount);
      match decision
      case Emit(sym) =>
        PutSymbol(h, sym);
        assert hash == before[h := before[h].(written := true, indx := count)];
      case _ =>
        InvTouched(h, true, hash[h].indx);
        ok := decision.Nothing?;
        hash := hash[h := hash[h].(written := true)];
    }

    // ----- aout_link_write_symbols -----

    /** A header is opened: has one of the same name and sum been seen?  If so its stabs are struck out. */
    method OneHeader(stabs: seq<Stab>, i: nat, name: Name, marks: array<bool>) returns (total: int, dup: bool)
      requires i < |stabs| == marks.Length
      modifies this`includes, marks
      ensures total == HeaderSum(stabs[i + 1..], 0) && dup == WasSeen(old(includes), name, total)
      ensures includes == if dup then old(includes) else See(old(includes), name, total)
      ensures marks[i + 1..] == if dup then Struck(stabs[i + 1..], 0, old(marks[i + 1..])) else old(marks[i + 1..])
    {
      total := ScanHeader(stabs, i + 1);
      dup := WasSeen(includes, name, total);
      if dup {
        StrikeHeader(stabs, i + 1, marks);
      } else {
        includes := See(includes, name, total);
      }
    }

    /** A symbol is put into the output buffer. */
    method BufferSymbol(sym: OutSym, owner: Option<nat>) returns (bytes: seq<Byte>)
      requires Numbering() && (owner.Some? ==> owner.value < |hash| && hash[owner.value].indx < 0) && LabelOk(hash, owner, sym, true)
      modifies this`hash, this`strtab, this`symCount, this`owners, this`emitted, this`copied
      ensures Numbering()
      ensures hash == if owner.None? then old(hash)
                      else old(hash)[owner.value := old(hash)[owner.value].(written := true, indx := old(symCount))]
      ensures emitted == old(emitted) + [sym] && owners == old(owners) + [owner] && copied == old(copied) + [true]
      ensures SymTable(big, strtab, emitted) == old(SymTable(big, strtab, emitted)) + bytes
    {
      hide Numbered, Accounted, Labelled, NlistBytes, AddString, SymTable, LinksInside, AllNamed, TabOk;
      AddStringOk(strtab, sym.name);
      SymTableGrows(big, strtab, emitted, sym);
      if owner.Some? {
        EmitOwned(hash, owners, owner.value);
        Touched(hash, owner.value, true, symCount);
        AccountedTouch(info, hash, owner.value, true, symCount);
        LabelledTouch(hash, owners, emitted, copied, owner.value, true, symCount);
        hash := hash[owner.value := hash[owner.value].(written := true, indx := symCount)];
      } else {
        EmitFree(hash, owners);
      }
      LabelledMore(hash, owners, emitted, copied, owner, sym, true);
      strtab := AddString(strtab, sym.name);
      bytes := NlistBytes(big, StrxOf(strtab, sym.name), sym);
      symCount := symCount + 1;
      owners, emitted, copied := owners + [owner], emitted + [sym], copied + [true];
    }

    /** One turn of the symbol loop, for a symbol that is not struck out. */
    method OneSymbol(inp: Input, stabs: seq<Stab>, i: nat, marks: array<bool>, v: Verdict)
      returns (mapped: int, bytes: seq<Byte>, ghost out: seq<OutSym>)
      requires Numbering() && i < |inp.syms| == |stabs| == marks.Length && HashesInside(inp, |hash|)
      requires exists pass, skipNext :: v == Judge(info, inp, hash, inp.syms[i], pass, skipNext)
      modifies this`hash, this`includes, this`strtab, this`symCount, this`owners, this`emitted, this`copied, marks
      ensures Numbering() && SameTable(hash, old(hash)) && old(owners) <= owners
      ensures MapOk(owners, emitted, mapped, inp.syms[i])
      ensures emitted == old(emitted) + out && copied == old(copied) + seq(|out|, _ => true)
      ensures SymTable(big, strtab, emitted) == old(SymTable(big, strtab, emitted)) + bytes
      ensures v.Skipped? || v.header.None? ==> includes == old(includes) && marks[i + 1..] == old(marks[i + 1..])
      ensures v.Skipped? ==> out == [] && owners == old(owners) && mapped == v.mapped
      ensures LinksInside(old(hash)) && (v.Skipped? && v.marked.Some? ==> v.marked.value < |old(hash)|)
      ensures v.Skipped? ==> hash == MarkedWritten(old(hash), v.marked)
      ensures v.Copied? ==> owners == old(owners) + [v.owner] && mapped == old(symCount)
      ensures v.Copied? ==> (v.owner.Some? ==> v.owner.value < |old(hash)|) && hash == Owned(old(hash), v.owner, old(symCount))
      ensures v.Copied? && v.header.None? ==> out == [v.sym]
      ensures v.Copied? && v.header.Some? ==>
                var total := HeaderSum(stabs[i + 1..], 0);
                var dup := WasSeen(old(includes), v.header.value, total);
                && out == [HeaderSym(v.sym, total, dup)]
                && includes == (if dup then old(includes) else See(old(includes), v.header.value, total))
                && marks[i + 1..] == if dup then Struck(stabs[i + 1..], 0, old(marks[i + 1..])) else old(marks[i + 1..])
    {
      hide Numbered, Accounted, Labelled, SymTable, AllNamed, TabOk, LinksInside, Judge, SameTable, HeaderSum, Struck, WasSeen, See, Resolve;
      SameTableRefl(hash);
      ghost var pass, skipNext :| v == Judge(info, inp, hash, inp.syms[i], pass, skipNext);
      JudgeMaps(info, inp, hash, inp.syms[i], pass, skipNext);
      ghost var own := inp.syms[i].hash;
      if own.Some? && !hash[own.value].written {
        NotYetIndexed(hash, owners, own.value);
      }
      match v
      case Skipped(marked, m, _) =>
        mapped, bytes, out := m, [], [];
        if own.Some? && m >= 0 {
          IndexInside(hash, owners, own.value);
        }
        if marked.Some? {
          Unnumbered(hash, owners, marked.value, true, hash[marked.value].indx);
          Touched(hash, marked.value, true, hash[marked.value].indx);
          AccountedTouch(info, hash, marked.value, true, hash[marked.value].indx);
          LabelledTouch(hash, owners, emitted, copied, marked.value, true, hash[marked.value].indx);
          hash := hash[marked.value := hash[marked.value].(written := true)];
        }
      case Copied(sym, owner, header, _, _) =>
        var written := sym;
        if header.Some? {
          var total, dup := OneHeader(stabs, i, header.value, marks);
          written := HeaderSym(sym, total, dup);
        }
        if owner.Some? {
          Touched(hash, owner.value, true, symCount);
        }
        mapped, out := symCount, [written];
        bytes := BufferSymbol(written, owner);
    }

    /** The same, against one turn of the specification. */
    method CopyOne(inp: Input, stabs: seq<Stab>, i: nat, marks: array<bool>, pass: bool, skipNext: bool, ghost c: Copying, ghost base: nat)
      returns (mapped: int, target: Option<nat>, bytes: seq<Byte>, pass': bool, skipNext': bool, ghost out: seq<OutSym>, ghost more: Owners)
      requires Numbering() && CopyOk(inp, c, i) && i < |inp.syms| == marks.Length && !marks[i] && stabs == Stabs(inp.syms)
      requires c.hash == hash && c.seen == includes && c.marks == marks[i..] && c.pass == pass && c.skipNext == skipNext
      requires base + |c.syms| == symCount
      modifies this`hash, this`includes, this`strtab, this`symCount, this`owners, this`emitted, this`copied, marks
      ensures Numbering() && SameTable(hash, old(hash)) && |hash| == |old(hash)|
      ensures MapOk(owners, emitted, mapped, inp.syms[i]) && (target.Some? ==> target.value < |hash|)
      ensures emitted == old(emitted) + out && owners == old(owners) + more && copied == old(copied) + seq(|out|, _ => true)
      ensures SymTable(big, strtab, emitted) == old(SymTable(big, strtab, emitted)) + bytes
      ensures Turn(info, inp, c, i, base)
           == Copying(hash, includes, marks[i + 1..], pass', skipNext', c.syms + out, c.owners + more, c.map_ + [mapped], c.targets + [target])
    {
      hide Numbered, Accounted, Labelled, SymTable, AllNamed, TabOk, LinksInside, Judge, SameTable, HeaderSum, Struck, WasSeen, See, Resolve,
           HashesInside, MapOk, Stabs, Turn, Real;
      var sym := inp.syms[i];
      HashInside(inp, |hash|, i);
      assert c.marks[1..] == marks[i + 1..];
      target := if pass || skipNext then sym.hash else Real(hash, sym.hash);
      var v := Judge(info, inp, hash, sym, pass, skipNext);
      TurnJudged(info, inp, c, i, base, v, target);
      mapped, bytes, out := OneSymbol(inp, stabs, i, marks, v);
      SameKinds(hash, old(hash));
      more := if v.Copied? then [v.owner] else [];
      pass', skipNext' := v.Copied? && v.pass, v.skipNext;
    }

    /** The symbol loop: it follows the turns of the specification, keeps the numbering exact, and encodes the
        symbols it writes. */
    method CopySymbols(inp: Input, marks: array<bool>) returns (symbolMap: seq<int>, targets: seq<Option<nat>>, outsyms: seq<Byte>)
      requires Numbering() && HashesInside(inp, |hash|)
      requires marks.Length == |inp.syms| && marks[..] == seq(|inp.syms|, _ => false)
      modifies this`hash, this`includes, this`strtab, this`symCount, this`owners, this`emitted, this`copied, marks
      ensures Numbering() && SameTable(hash, old(hash)) && LinksInside(old(hash))
      ensures SymTable(big, strtab, emitted) == old(SymTable(big, strtab, emitted)) + outsyms
      ensures AllMapOk(owners, emitted, symbolMap, inp) && TargetsInside(targets, |hash|)
      ensures var c := Copy(info, inp, old(hash), old(includes), old(symCount), |inp.syms|);
              && hash == c.hash && includes == c.seen && symbolMap == c.map_ && targets == c.targets
              && emitted == old(emitted) + c.syms && owners == old(owners) + c.owners && copied == old(copied) + seq(|c.syms|, _ => true)
    {
      hide Numbered, Accounted, Labelled, SymTable, AllNamed, TabOk, LinksInside, Judge, SameTable, HeaderSum, Struck, WasSeen, See, Resolve,
           HashesInside, AllMapOk, TargetsInside, MapOk, Stabs, Turn, Real, Copy;
      CopyNone(info, inp, hash, includes, symCount);
      var stabs, n := Stabs(inp.syms), |inp.syms|;
      assert marks[0..] == marks[..];
      SameTableRefl(hash);
      NoMap(owners, emitted, inp, |hash|);
      var pass, skipNext, i := false, false, 0;
      symbolMap, targets, outsyms := [], [], [];
      ghost var own, mine := [], [];
      while i < n
        invariant 0 <= i <= n && |symbolMap| == |targets| == i
        invariant Numbering() && SameTable(hash, old(hash)) && |hash| == |old(hash)| && LinksInside(old(hash))
        invariant emitted == old(emitted) + own && owners == old(owners) + mine && copied == old(copied) + seq(|own|, _ => true)
        invariant SymTable(big, strtab, emitted) == old(SymTable(big, strtab, emitted)) + outsyms
        invariant AllMapOk(owners, emitted, symbolMap, inp) && TargetsInside(targets, |hash|)
        invariant Copy(info, inp, old(hash), old(includes), old(symCount), i)
               == Copying(hash, includes, marks[i..], pass, skipNext, own, mine, symbolMap, targets)
      {
        ghost var before, c := hash, Copy(info, inp, old(hash), old(includes), old(symCount), i);
        var sym := inp.syms[i];
        HashInside(inp, |hash|, i);
        CopyStep(info, inp, old(hash), old(includes), old(symCount), i);
        assert marks[i..] == [marks[i]] + marks[i + 1..];
        if marks[i] {
          TurnStruck(info, inp, c, i, old(symCount));
          AnotherTarget(targets, sym.hash, |hash|);
          AnotherMap(owners, emitted, symbolMap, inp, -1);
          targets, symbolMap := targets + [sym.hash], symbolMap + [-1];
        } else {
          ghost var had, were, out, more := owners, emitted, [], [];
          var mapped, target, bytes;
          mapped, target, bytes, pass, skipNext, out, more := CopyOne(inp, stabs, i, marks, pass, skipNext, c, old(symCount));
          SameTableTrans(hash, before, old(hash));
          AnotherTarget(targets, target, |hash|);
          MoreSymbols(had, were, owners, emitted, symbolMap, inp);
          AnotherMap(owners, emitted, symbolMap, inp, mapped);
          targets, symbolMap, outsyms := targets + [target], symbolMap + [mapped], outsyms + bytes;
          own, mine := own + out, mine + more;
        }
        i := i + 1;
      }
    }

    /** The symbol of the file itself. */
    method PutFileSymbol(inp: Input) returns (bytes: seq<Byte>)
      requires Numbering()
      modifies this`strtab, this`symCount, this`owners, this`emitted, this`copied, this`hash
      ensures Numbering() && hash == old(hash) && symCount == old(symCount) + |FileSym(info, inp)|
      ensures emitted == old(emitted) + FileSym(info, inp) && owners == old(owners) + seq(|FileSym(info, inp)|, _ => None)
      ensures copied == old(copied) + seq(|FileSym(info, inp)|, _ => true)
      ensures SymTable(big, strtab, emitted) == old(SymTable(big, strtab, emitted)) + bytes
    {
      hide Numbered, Accounted, Labelled, SymTable, AllNamed, TabOk, LinksInside;
      bytes := [];
      if info.strip != StripAll && (info.strip != StripSome || inp.filename in info.keep) && info.discard != DiscardAll {
        bytes := BufferSymbol(OutSym(inp.filename, N_TEXT, 0, 0, Address(inp.layout.text)), None);
      }
    }

    /** The buffered symbols go to the file. */
    method Flush(ghost table: seq<Byte>, outsyms: seq<Byte>)
      requires Numbering() && Relocs() && SymTable(big, strtab, emitted) == table + outsyms
      requires Area(file, symStart, table) && symoff == symStart + |table|
      modifies this`file, this`symoff
      ensures Inv()
    {
      hide Numbered, Accounted, Labelled, SymTable, AllNamed, TabOk, LinksInside, Area, WriteAt;
      SymbolsKeepRelocs(table, outsyms);
      file := WriteAt(file, symoff, outsyms);
      symoff := symoff + |outsyms|;
    }

    /** aout_link_write_symbols: the symbol of the file, then what the symbol loop writes, all at the cursor. */
    method WriteSymbols(inp: Input) returns (symbolMap: seq<int>, targets: seq<Option<nat>>)
      requires Inv() && HashesInside(inp, |hash|)
      modifies this`hash, this`includes, this`strtab, this`symCount, this`symoff, this`file, this`owners, this`emitted, this`copied
      ensures Inv() && SameTable(hash, old(hash)) && LinksInside(old(hash))
      ensures AllMapOk(owners, emitted, symbolMap, inp) && TargetsInside(targets, |hash|)
      ensures var first := FileSym(info, inp);
              var c := Copy(info, inp, old(hash), old(includes), old(symCount) + |first|, |inp.syms|);
              && hash == c.hash && includes == c.seen && symbolMap == c.map_ && targets == c.targets
              && emitted == old(emitted) + first + c.syms && owners == old(owners) + seq(|first|, _ => None) + c.owners
              && copied == old(copied) + seq(|first + c.syms|, _ => true)
      ensures SymbolsTrue(info, inp, hash, symbolMap, old(symCount) + |FileSym(info, inp)|, 0, emitted)
      ensures NestedInput(info, inp) && Depth(old(emitted), Some(0)) == Some(0) ==> Depth(emitted, Some(0)) == Some(0)
    {
      hide SymbolsTrue, Depth, NestedInput, Numbered, Accounted, Labelled, SymTable, AllNamed, TabOk, LinksInside, SameTable, HashesInside,
           AllMapOk, TargetsInside, MapOk, Copy, Area, WriteAt;
      NestedPart(info, inp, hash, includes, symCount + |FileSym(info, inp)|, emitted);
      ghost var table := SymTable(big, strtab, emitted);
      var filesym := PutFileSymbol(inp);
      var marks := new bool[|inp.syms|](_ => false);
      assert marks[..] == seq(|inp.syms|, _ => false);
      var rest;
      ghost var hash0, owners0, seen0, emitted0 := hash, owners, includes, emitted;
      symbolMap, targets, rest := CopySymbols(inp, marks);
      SameKinds(hash, hash0);
      LoopIsTrue(info, inp, hash0, owners0, seen0, emitted0, hash);
      assert table + filesym + rest == table + (filesym + rest);
      Flush(table, filesym + rest);
    }

    // ----- relocs -----

    /** The number of a symbol that relocs need: one that was stripped is written after all. */
    method RelocIndex(m: int, h: Option<nat>) returns (ok: bool, r: int)
      requires Inv() && (h.Some? ==> h.value < |hash|)
      modifies this`hash, this`strtab, this`symCount, this`symoff, this`file, this`owners, this`emitted, this`copied
      ensures Inv() && SameTable(hash, old(hash)) && old(owners) <= owners && Forced(old(emitted), old(copied), emitted, copied)
      ensures m != -1 ==> ok && r == m && hash == old(hash) && owners == old(owners) && emitted == old(emitted)
      ensures m == -1 && h.None? ==> ok && r == 0 && hash == old(hash) && owners == old(owners) && emitted == old(emitted)
      ensures m == -1 && h.Some? && old(hash)[h.value].kind != Warning ==> ok
      ensures KeepsDecided(old(hash), hash)
      ensures m == -1 && h.Some? && ok ==>
                && r == hash[h.value].indx
                && (r >= 0 <==> old(hash)[h.value].indx >= 0 || Nameable(old(hash)[h.value]))
                && (r >= 0 ==> r < |owners| && owners[r] == h)
    {
      hide Numbered, Accounted, Labelled, Area, SymTable, LinksInside, SameTable, AllNamed, TabOk, Forced, EntrySym;
      ok, r := true, m;
      SameTableRefl(hash);
      ForcedNone(emitted, copied);
      if m == -1 {
        if h.None? {
          r := 0;
        } else {
          var k := h.value;
          if hash[k].indx < 0 {
            InvTouched(k, false, -2);
            ghost var before := hash;
            hash := hash[k := hash[k].(written := false, indx := -2)];
            ghost var forced := hash;
            ghost var count := symCount;
            ok := WriteOther(k);
            SameTableTrans(hash, forced, before);
            StaysDecided(info, before, k, count, forced, hash);
          }
          r := hash[k].indx;
          if r >= 0 {
            IndexInside(hash, owners, k);
          }
        }
      }
    }

    /** One reloc of section `s` in a relocatable link; not `ok` where the code reports an error or aborts. */
    method OneReloc(l: Layout, s: Section, r: Rel, m: int, h: Option<nat>) returns (ok: bool, out: Rel)
      requires Inv() && (h.Some? ==> h.value < |hash|)
      modifies this`hash, this`strtab, this`symCount, this`symoff, this`file, this`owners, this`emitted, this`copied
      ensures Inv() && SameTable(hash, old(hash)) && old(owners) <= owners && Forced(old(emitted), old(copied), emitted, copied)
      ensures ok ==> RelDone(ext, l, s, hash, owners, r, out, m, h)
    {
      hide Inv, SameTable, SectionOfIndex, SignedWord, PlaceOf, HowtoOf, Adjustment, IndexOfSection, Forced;
      SameTableRefl(hash);
      ForcedNone(emitted, copied);
      out := r;
      var howto := HowtoOf(ext, r.kind);
      ok := howto.Some?;
      if !ok {
        return;
      }
      if ext && IsBaseRelative(r.kind) {
        var index;
        ok, index := RelocIndex(m, None);
        out := r.(address := SignedWord(r.address + PlaceOf(l, s).outOffset), index := index);
      } else if r.extern {
        if h.Some? && IsDefined(hash[h.value]) {
          out := Rewritten(l, s, howto.value, r, Here(hash[h.value].section, hash[h.value].address), 0);
        } else {
          var index;
          ghost var before := hash;
          ok, index := RelocIndex(m, h);
          SameKinds(hash, before);
          out := Rewritten(l, s, howto.value, r, Open, index);
        }
      } else if SectionOfIndex(r.index).Some? {
        out := Rewritten(l, s, howto.value, r, Open, 0);
      } else {
        ok := false;
      }
    }

    /** The relocs of one section, rewritten in order. */
    method RewriteRelocs(l: Layout, s: Section, rels: seq<Rel>, symbolMap: seq<int>, targets: seq<Option<nat>>)
      returns (ok: bool, outs: seq<Rel>)
      requires Inv() && |symbolMap| == |targets| && TargetsInside(targets, |hash|)
      requires RelsInside(ext, rels, |symbolMap|)
      modifies this`hash, this`strtab, this`symCount, this`symoff, this`file, this`owners, this`emitted, this`copied
      ensures Inv() && SameTable(hash, old(hash)) && old(owners) <= owners && Forced(old(emitted), old(copied), emitted, copied)
      ensures ok ==> |outs| == |rels| && RelsDone(ext, l, s, hash, owners, rels, outs, symbolMap, targets)
    {
      hide Inv, SameTable, RelDone, RelsInside, Forced;
      SameTableRefl(hash);
      ForcedNone(emitted, copied);
      ok, outs := true, [];
      var k := 0;
      while k < |rels|
        invariant 0 <= k <= |rels| && |outs| == k && ok
        invariant Inv() && SameTable(hash, old(hash)) && |hash| == |old(hash)| && old(owners) <= owners
        invariant Forced(old(emitted), old(copied), emitted, copied)
        invariant RelsDone(ext, l, s, hash, owners, rels, outs, symbolMap, targets)
      {
        var (m, h) := MapAt(symbolMap, targets, rels[k].index);
        ghost var hash0, owners0, syms, flags := hash, owners, emitted, copied;
        var out;
        ok, out := OneReloc(l, s, rels[k], m, h);
        SameTableTrans(hash, hash0, old(hash));
        ForcedTrans(old(emitted), old(copied), syms, flags, emitted, copied);
        if !ok {
          return;
        }
        OneMoreDone(ext, l, s, hash0, owners0, hash, owners, rels, outs, symbolMap, targets, out);
        outs := outs + [out];
        k := k + 1;
      }
    }

    /** Relocs go to their area and its cursor moves; both in-code assertions are postconditions. */
    method WriteRelocs(text: bool, bytes: seq<Byte>)
      requires Inv() && |bytes| <= if text then leftT else leftD
      modifies this`file, this`treloff, this`dreloff, this`trel, this`drel, this`leftT, this`leftD
      ensures Inv()
      ensures (if text then treloff else dreloff) <= symStart && (text ==> treloff <= drelStart)
      ensures text ==> trel == old(trel) + bytes && drel == old(drel) && leftT == old(leftT) - |bytes| && leftD == old(leftD)
      ensures !text ==> drel == old(drel) + bytes && trel == old(trel) && leftD == old(leftD) - |bytes| && leftT == old(leftT)
    {
      hide Numbered, Accounted, Labelled, Area, SymTable, LinksInside, AllNamed, TabOk, WriteAt;
      ghost var table := SymTable(big, strtab, emitted);
      if text {
        WriteExtends(file, treloff, bytes, trelStart, trel);
        WriteKeeps(file, treloff, bytes, drelStart, drel);
        WriteKeeps(file, treloff, bytes, symStart, table);
        file := WriteAt(file, treloff, bytes);
        treloff, trel, leftT := treloff + |bytes|, trel + bytes, leftT - |bytes|;
      } else {
        WriteKeeps(file, dreloff, bytes, trelStart, trel);
        WriteExtends(file, dreloff, bytes, drelStart, drel);
        WriteKeeps(file, dreloff, bytes, symStart, table);
        file := WriteAt(file, dreloff, bytes);
        dreloff, drel, leftD := dreloff + |bytes|, drel + bytes, leftD - |bytes|;
      }
    }

    /** aout_link_input_section, short of the contents: in a relocatable link the relocs are rewritten and
        written out, otherwise nothing happens here. */
    method LinkInputSection(l: Layout, text: bool, a: RelArea, symbolMap: seq<int>, targets: seq<Option<nat>>)
      returns (ok: bool, ghost outs: seq<Rel>)
      requires Inv() && |symbolMap| == |targets| && TargetsInside(targets, |hash|) && RelsInside(ext, a.rels, |symbolMap|)
      requires info.relocatable ==> AreaSize(ext, a) <= if text then leftT else leftD
      modifies this`hash, this`strtab, this`symCount, this`symoff, this`file, this`owners, this`emitted, this`copied,
               this`treloff, this`dreloff, this`trel, this`drel, this`leftT, this`leftD
      ensures Inv() && SameTable(hash, old(hash)) && old(owners) <= owners && Forced(old(emitted), old(copied), emitted, copied)
      ensures leftT >= old(leftT) - (if text then AreaSize(ext, a) else 0)
      ensures leftD >= old(leftD) - (if text then 0 else AreaSize(ext, a))
      ensures ok && info.relocatable ==>
                |outs| == |a.rels| && RelsDone(ext, l, if text then Text else Data, hash, owners, a.rels, outs, symbolMap, targets)
      ensures ok ==> trel == old(trel) + (if text then AreaBytes(big, ext, info.relocatable, outs, a) else [])
      ensures ok ==> drel == old(drel) + (if text then [] else AreaBytes(big, ext, info.relocatable, outs, a))
    {
      hide Inv, SameTable, RelsDone, RelsInside, TargetsInside, RelsBytes, Forced;
      SameTableRefl(hash);
      ForcedNone(emitted, copied);
      assert trel + [] == trel && drel + [] == drel;
      ok, outs := true, [];
      if info.relocatable {
        var rels;
        ok, rels := RewriteRelocs(l, if text then Text else Data, a.rels, symbolMap, targets);
        outs := rels;
        if ok {
          WriteRelocs(text, RelsBytes(big, ext, rels) + a.slack);
        }
      }
    }

    /** aout_link_input_bfd: the symbols, then the sections that take part in the link. */
    method LinkInput(f: InFile, textMarked: bool, dataMarked: bool) returns (ok: bool, ghost d: Done)
      requires Inv() && FileOk(ext, f, |hash|)
      requires info.relocatable ==> AreaSize(ext, f.text) <= leftT && AreaSize(ext, f.data) <= leftD
      modifies this
      ensures d.hash == old(hash) && d.before == old(includes) && d.at == old(symCount) && Started(f, d) && includes == CopyOf(info, f, d).seen
      ensures Inv() && SameTable(hash, old(hash)) && old(owners) <= owners && old(emitted) <= emitted
      ensures PartCopied(old(copied), copied, d.at, |SymsIn(info, f, d)|)
      ensures NestedInput(info, f.inp) && Depth(old(emitted), Some(0)) == Some(0) ==> Depth(emitted, Some(0)) == Some(0)
      ensures leftT >= old(leftT) - AreaSize(ext, f.text) && leftD >= old(leftD) - AreaSize(ext, f.data)
      ensures ok ==> FileDone(info, ext, hash, owners, emitted, f, textMarked, dataMarked, d)
      ensures ok ==> trel == old(trel) + AreaBytes(big, ext, info.relocatable && textMarked, d.text, f.text)
      ensures ok ==> drel == old(drel) + AreaBytes(big, ext, info.relocatable && dataMarked, d.data, f.data)
    {
      hide Inv, SameTable, TargetsInside, AllMapOk, HashesInside, RelsInside, AreaSize, AreaBytes, CopyOf, SymbolsDone, FileDone, Forced, Depth,
           NestedInput, PartCopied, SymsIn;
      var symbolMap, targets := FileSymbols(f);
      ghost var d0 := Done(old(hash), old(includes), old(symCount), [], []);
      ghost var hash1, emitted1, copied1 := hash, emitted, copied;
      ok, d := LinkSections(f, textMarked, dataMarked, symbolMap, targets, d0);
      SameTableTrans(hash, hash1, old(hash));
      PartStays(old(copied), emitted1, copied1, emitted, copied, d.at, |SymsIn(info, f, d0)|);
    }

    /** Its sections, once the symbols are done. */
    method LinkSections(f: InFile, textMarked: bool, dataMarked: bool, symbolMap: seq<int>, targets: seq<Option<nat>>, ghost d0: Done)
      returns (ok: bool, ghost d: Done)
      requires Inv() && FileOk(ext, f, |hash|) && SymbolsDone(info, hash, owners, emitted, f, d0) && Started(f, d0)
      requires symbolMap == CopyOf(info, f, d0).map_ && targets == CopyOf(info, f, d0).targets
      requires |symbolMap| == |targets| == |f.inp.syms| && TargetsInside(targets, |hash|)
      requires info.relocatable ==> AreaSize(ext, f.text) <= leftT && AreaSize(ext, f.data) <= leftD
      modifies this`hash, this`strtab, this`symCount, this`symoff, this`file, this`owners, this`emitted, this`copied,
               this`treloff, this`dreloff, this`trel, this`drel, this`leftT, this`leftD
      ensures Inv() && SameTable(hash, old(hash)) && old(owners) <= owners && Forced(old(emitted), old(copied), emitted, copied)
      ensures leftT >= old(leftT) - AreaSize(ext, f.text) && leftD >= old(leftD) - AreaSize(ext, f.data)
      ensures d == d0.(text := d.text, data := d.data) && Started(f, d)
      ensures CopyOf(info, f, d) == CopyOf(info, f, d0) && SymsIn(info, f, d) == SymsIn(info, f, d0)
      ensures ok ==> FileDone(info, ext, hash, owners, emitted, f, textMarked, dataMarked, d)
      ensures ok ==> trel == old(trel) + AreaBytes(big, ext, info.relocatable && textMarked, d.text, f.text)
      ensures ok ==> drel == old(drel) + AreaBytes(big, ext, info.relocatable && dataMarked, d.data, f.data)
    {
      hide Inv, SameTable, RelsDone, RelsInside, TargetsInside, RelsBytes, AllMapOk, HashesInside, AreaSize, AreaBytes, CopyOf, SymbolsDone,
           Forced, SymsIn;
      d, ok := d0, true;
      SameTableRefl(hash);
      ForcedNone(emitted, copied);
      NoBytes(big, ext, d.text, f.text);
      NoBytes(big, ext, d.data, f.data);
      ghost var outs;
      if textMarked {
        ok, outs := LinkInputSection(f.inp.layout, true, f.text, symbolMap, targets);
        SameKinds(hash, old(hash));
        ForcedGrows(old(emitted), old(copied), emitted, copied);
        SymbolsStay(info, old(hash), old(owners), old(emitted), hash, owners, emitted, f, d);
        d := SetRelocs(info, hash, owners, emitted, f, d, outs, d.data);
      }
      if ok && dataMarked {
        ghost var hash2, owners2, emitted2, copied2 := hash, owners, emitted, copied;
        ok, outs := LinkInputSection(f.inp.layout, false, f.data, symbolMap, targets);
        SameTableTrans(hash, hash2, old(hash));
        ForcedTrans(old(emitted), old(copied), emitted2, copied2, emitted, copied);
        ForcedGrows(emitted2, copied2, emitted, copied);
        if textMarked && info.relocatable {
          RelsStay(ext, f.inp.layout, Text, hash2, owners2, hash, owners, f.text.rels, d.text, symbolMap, targets);
        }
        SymbolsStay(info, hash2, owners2, emitted2, hash, owners, emitted, f, d);
        d := SetRelocs(info, hash, owners, emitted, f, d, d.text, outs);
      }
    }

    /** The symbols of a file that has nothing else done yet. */
    method FileSymbols(f: InFile) returns (symbolMap: seq<int>, targets: seq<Option<nat>>)
      requires Inv() && FileOk(ext, f, |hash|)
      modifies this`hash, this`includes, this`strtab, this`symCount, this`symoff, this`file, this`owners, this`emitted, this`copied
      ensures Inv() && SameTable(hash, old(hash)) && |hash| == |old(hash)| && old(owners) <= owners && old(emitted) <= emitted
      ensures var d := Done(old(hash), old(includes), old(symCount), [], []);
              && SymbolsDone(info, hash, owners, emitted, f, d) && Started(f, d)
              && var c := CopyOf(info, f, d);
              includes == c.seen && symbolMap == c.map_ && targets == c.targets && |symbolMap| == |targets| == |f.inp.syms|
      ensures TargetsInside(targets, |hash|)
      ensures var n := |SymsIn(info, f, Done(old(hash), old(includes), old(symCount), [], []))|;
              PartCopied(old(copied), copied, old(symCount), n) && old(symCount) + n <= |copied|
      ensures NestedInput(info, f.inp) && Depth(old(emitted), Some(0)) == Some(0) ==> Depth(emitted, Some(0)) == Some(0)
    {
      hide Numbered, Accounted, Labelled, SymTable, AllNamed, TabOk, LinksInside, SameTable, RelsInside, HashesInside, AllMapOk, TargetsInside, Copy,
           Area, Depth, NestedInput, SymbolsTrue;
      ghost var was, had := emitted, owners;
      symbolMap, targets := WriteSymbols(f.inp);
      ghost var d := Done(old(hash), old(includes), old(symCount), [], []);
      SameKinds(hash, old(hash));
      assert emitted == was + SymsIn(info, f, d) && owners == had + OwnersIn(info, f, d);
    }

    /** aout_link_reloc_link_order: a reloc the linker itself asked for, against a section code or a symbol.
        Anywhere but in text or data the code aborts. */
    method RelocLinkOrder(s: Section, order: RelOrder) returns (ok: bool, ghost out: Rel)
      requires Inv() && (order.SymbolReloc? && order.h.Some? ==> order.h.value < |hash|)
      requires s == Text ==> RelSpace(ext, 1) <= leftT
      requires s == Data ==> RelSpace(ext, 1) <= leftD
      modifies this`hash, this`strtab, this`symCount, this`symoff, this`file, this`owners, this`emitted, this`copied,
               this`treloff, this`dreloff, this`trel, this`drel, this`leftT, this`leftD
      ensures Inv() && SameTable(hash, old(hash)) && old(owners) <= owners && Forced(old(emitted), old(copied), emitted, copied)
      ensures KeepsDecided(old(hash), hash)
      ensures leftT >= old(leftT) - (if s == Text then RelSpace(ext, 1) else 0)
      ensures leftD >= old(leftD) - (if s == Data then RelSpace(ext, 1) else 0)
      ensures ok ==> OrderDone(hash, owners, order, out)
      ensures ok ==> if s == Text then trel == old(trel) + RelBytes(big, ext, out) && drel == old(drel)
                     else s == Data && drel == old(drel) + RelBytes(big, ext, out) && trel == old(trel)
    {
      hide Inv, SameTable, RelBytes, Forced;
      SameTableRefl(hash);
      ForcedNone(emitted, copied);
      NothingChanged();
      ok := true;
      ghost var before := hash;
      var index;
      match order {
        case SectionReloc(code, _, _, _) =>
          index := code;
        case SymbolReloc(h, _, _, _) =>
          ok, index := RelocIndex(-1, h);
          SameKinds(hash, before);
      }
      var rel := Rel(order.offset, index, order.SymbolReloc?, order.kind, order.addend);
      out := rel;
      if !ok || HowtoOf(ext, order.kind).None? || (s != Text && s != Data) {
        ok := false;
        return;
      }
      WriteRelocs(s == Text, RelBytes(big, ext, rel));
    }

    /** The hash traversal: afterwards nothing is left to decide for any entry. */
    method WriteRest() returns (ok: bool)
      requires Inv()
      modifies this`hash, this`strtab, this`symCount, this`symoff, this`file, this`owners, this`emitted, this`copied
      ensures Inv() && SameTable(hash, old(hash)) && old(owners) <= owners && Forced(old(emitted), old(copied), emitted, copied)
      ensures ok ==> LinksInside(hash) && forall h :: 0 <= h < |hash| ==> Settled(hash, h)
      ensures ok ==> LinksInside(old(hash)) && var t := Traverse(info, old(hash), |old(hash)|, old(symCount));
                     hash == t.hash && emitted == old(emitted) + t.syms && owners == old(owners) + t.owners
    {
      hide Numbered, Accounted, Labelled, Area, OtherSymbol, SymTable, LinksInside, SameTable, AllNamed, TabOk, HashAfter, Traverse, Settled, Wanted,
           Target, SymsOf, OwnersOf, FinalLink.Relocs, Forced;
      SameTableRefl(hash);
      ForcedNone(emitted, copied);
      TraverseNone(info, hash, symCount);
      var k := 0;
      ok := true;
      while k < |hash|
        invariant 0 <= k <= |hash| && Inv() && SameTable(hash, old(hash)) && |hash| == |old(hash)| && LinksInside(old(hash))
        invariant var t := Traverse(info, old(hash), k, old(symCount));
                  hash == t.hash && emitted == old(emitted) + t.syms && owners == old(owners) + t.owners
        invariant forall h :: 0 <= h < k ==> Settled(hash, h)
        invariant Forced(old(emitted), old(copied), emitted, copied)
      {
        ghost var before, count, syms, flags := hash, symCount, emitted, copied;
        TraverseStep(info, old(hash), k, old(symCount));
        ok := WriteOther(k);
        SameTableTrans(hash, before, old(hash));
        SameKinds(hash, before);
        ForcedTrans(old(emitted), old(copied), syms, flags, emitted, copied);
        if !ok {
          return;
        }
        forall h | 0 <= h <= k ensures Settled(hash, h) {
          StaysSettled(info, before, h, k, count, hash);
        }
        k := k + 1;
      }
    }
  }
}
