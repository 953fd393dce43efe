/** Standard reloc records in the generic, ARM and ns32k formats, and lists of them
    (swap_std_reloc_out and swap_std_reloc_in, put_reloc and reloc_howto, squirt_out_relocs and
    slurp_reloc_table). */
module RelocRecords {
  import opened ByteSeq
  import opened AoutSymbols

  const RELOC_STD_SIZE := 8

  datatype Format = Generic | Arm | Ns32k

  /** A howto as far as records depend on it: its type, its size code and whether it is pc-relative. */
  datatype Howto = Howto(typ: int, size: int, pcrel: bool)

  /** The entries of the format's table that are not empty, by position. */
  function HowtoAt(f: Format, k: nat): Option<Howto> {
    match f
    case Generic =>
      if k < 8 then Some(Howto(k, if k % 4 == 3 then 4 else k % 4, k >= 4))
      else if k == 9 then Some(Howto(9, 1, false))
      else if k == 8 || k == 10 || k == 16 || k == 32 || k == 40 then Some(Howto(k, 2, false))
      else None
    case Arm =>
      if k < 7 then Some(Howto(k, if k == 3 then 2 else k % 4, k >= 3))
      else if k == 7 then Some(Howto(7, 2, false))
      else if k == 9 then Some(Howto(9, -1, false))
      else if k == 10 then Some(Howto(10, -2, false))
      else None
    case Ns32k =>
      if k < 18 then Some(Howto(k, k % 3, k / 3 % 2 == 1)) else None
  }

  /** One bit of the type byte. */
  function Flag(on: bool, mask: bv8): bv8 {
    if on then mask else 0
  }

  predicate Has(t: bv8, mask: bv8) {
    t & mask != 0
  }

  /** Bit `k` of a type number, for the tests on howto->type. */
  predicate TypeBit(typ: int, k: nat)
    requires k > 0
  {
    typ / k % 2 == 1
  }

  /** A size code as the few bits that are shifted into place; -1 and -2 are negative relocs. */
  function Length(size: int): bv8 {
    match size
    case 1 => 1
    case 2 => 2
    case 3 => 3
    case 4 => 4
    case -1 => 1
    case -2 => 2
    case _ => 0
  }

  /** The bits of a record: extern, pc-relative, the three kinds a type number above 7 stands for, length. */
  function Pack(big: bool, extern: bool, pcrel: bool, baserel: bool, jmptable: bool, relative: bool, length: bv8): bv8 {
    if big then
      Flag(extern, 0x10) | Flag(pcrel, 0x80) | Flag(baserel, 0x08) | Flag(jmptable, 0x04) | Flag(relative, 0x02) | (length << 5)
    else
      Flag(extern, 0x08) | Flag(pcrel, 0x01) | Flag(baserel, 0x10) | Flag(jmptable, 0x20) | Flag(relative, 0x40) | (length << 1)
  }

  /** The type byte a writer stores.  Negative ARM relocs use the base-relative bit; ns32k records are
      little-endian whatever the file. */
  function TypeByte(f: Format, big: bool, k: nat, extern: bool): bv8
    requires HowtoAt(f, k).Some?
  {
    var h := HowtoAt(f, k).value;
    match f
    case Generic =>
      Pack(big, extern, h.pcrel, TypeBit(h.typ, 8), TypeBit(h.typ, 16), TypeBit(h.typ, 32), Length(h.size))
    case Arm =>
      var branch := h.typ == 3 || h.typ == 7;
      Pack(big, extern, if branch then h.typ == 7 else h.pcrel, h.size < 0, false, false, if branch then 3 else Length(h.size))
    case Ns32k =>
      Flag(extern, 0x08) | Flag(h.pcrel, 0x01) | (Length(h.size) << 1) | (Storage(k) << 5)
  }

  /** The ns32k storage method: immediate, displacement or plain. */
  function Storage(k: nat): bv8 {
    match k / 6
    case 1 => 1
    case 2 => 2
    case _ => 0
  }

  function Weight(on: bool, w: nat): nat {
    if on then w else 0
  }

  /** A two-bit field as a number. */
  function Number(t: bv8): nat {
    if t == 1 then 1 else if t == 2 then 2 else if t == 3 then 3 else 0
  }

  predicate ReadExtern(f: Format, big: bool, t: bv8) {
    Has(t, if big && f != Ns32k then 0x10 else 0x08)
  }

  predicate ReadPcrel(big: bool, t: bv8) {
    Has(t, if big then 0x80 else 0x01)
  }

  predicate ReadBaserel(big: bool, t: bv8) {
    Has(t, if big then 0x08 else 0x10)
  }

  predicate ReadJmptable(big: bool, t: bv8) {
    Has(t, if big then 0x04 else 0x20)
  }

  predicate ReadRelative(big: bool, t: bv8) {
    Has(t, if big then 0x02 else 0x40)
  }

  function ReadLength(big: bool, t: bv8): nat {
    Number(if big then (t & 0x60) >> 5 else (t & 0x06) >> 1)
  }

  /** The table position a reader computes. */
  function ReadHowto(f: Format, big: bool, t: bv8): nat {
    match f
    case Generic =>
      ReadLength(big, t) + Weight(ReadPcrel(big, t), 4) + Weight(ReadBaserel(big, t), 8)
      + Weight(ReadJmptable(big, t), 16) + Weight(ReadRelative(big, t), 32)
    case Arm =>
      ReadLength(big, t) + Weight(ReadPcrel(big, t), 4) + Weight(ReadBaserel(big, t), 8)
    case Ns32k =>
      ReadLength(false, t) + Weight(ReadPcrel(false, t), 3) + 6 * Number((t & 0x60) >> 5)
  }

  /** The howtos whose records name them: all of ARM and ns32k, and the generic ones that
      reloc_type_lookup can return. */
  predicate Speakable(f: Format, k: nat) {
    f == Generic ==> k == 0 || k == 1 || k == 2 || k == 4 || k == 5 || k == 6 || k == 9 || k == 10
  }

  lemma Unpack(big: bool, extern: bool, pcrel: bool, baserel: bool, jmptable: bool, relative: bool, length: bv8)
    requires length < 4
    ensures var t := Pack(big, extern, pcrel, baserel, jmptable, relative, length);
            && Has(t, if big then 0x10 else 0x08) == extern && ReadPcrel(big, t) == pcrel && ReadBaserel(big, t) == baserel
            && ReadJmptable(big, t) == jmptable && ReadRelative(big, t) == relative && ReadLength(big, t) == Number(length)
  {
  }

  /** A 64-bit length does not fit: it spills into a neighbouring bit. */
  lemma UnpackSpilled(big: bool, extern: bool, pcrel: bool)
    ensures var t := Pack(big, extern, pcrel, false, false, false, 4);
            && ReadLength(big, t) == 0 && ReadPcrel(big, t) == (pcrel || big)
            && !ReadBaserel(big, t) && !ReadJmptable(big, t) && !ReadRelative(big, t)
  {
  }

  lemma UnpackNs32k(extern: bool, pcrel: bool, length: bv8, storage: bv8)
    requires length < 3 && storage < 3
    ensures var t := Flag(extern, 0x08) | Flag(pcrel, 0x01) | (length << 1) | (storage << 5);
            && Has(t, 0x08) == extern && ReadPcrel(false, t) == pcrel
            && ReadLength(false, t) == Number(length) && Number((t & 0x60) >> 5) == Number(storage)
  {
  }

  /** A type byte reads back exactly for those: the others come out as another howto. */
  lemma TypeByteReadsBack(f: Format, big: bool, k: nat, extern: bool)
    requires HowtoAt(f, k).Some?
    ensures ReadHowto(f, big, TypeByte(f, big, k, extern)) == k <==> Speakable(f, k)
    ensures Speakable(f, k) ==> ReadExtern(f, big, TypeByte(f, big, k, extern)) == extern
  {
    hide TypeByte, ReadHowto, ReadExtern, HowtoAt;
    match f
    case Generic => GenericReadsBack(big, k, extern);
    case Arm => ArmReadsBack(big, k, extern);
    case Ns32k => Ns32kReadsBack(big, k, extern);
  }

  lemma GenericReadsBack(big: bool, k: nat, extern: bool)
    requires HowtoAt(Generic, k).Some?
    ensures ReadHowto(Generic, big, TypeByte(Generic, big, k, extern)) == k <==> Speakable(Generic, k)
    ensures Speakable(Generic, k) ==> ReadExtern(Generic, big, TypeByte(Generic, big, k, extern)) == extern
    ensures Speakable(Generic, k) ==> ReadBaserel(big, TypeByte(Generic, big, k, extern)) == (k == 9 || k == 10)
  {
    hide Pack, ReadPcrel, ReadBaserel, ReadJmptable, ReadRelative, ReadLength, Has, Flag, TypeBit, Length, Number;
    var h := HowtoAt(Generic, k).value;
    var base, jump, relative := TypeBit(k, 8), TypeBit(k, 16), TypeBit(k, 32);
    GenericBits(k);
    if h.size == 4 {
      UnpackSpilled(big, extern, h.pcrel);
    } else {
      Unpack(big, extern, h.pcrel, base, jump, relative, Length(h.size));
    }
  }

  lemma GenericBits(k: nat)
    requires HowtoAt(Generic, k).Some?
    ensures var size := HowtoAt(Generic, k).value.size;
            && 0 <= size <= 4 && Length(4) == 4 && (size < 4 ==> Length(size) < 4 && Number(Length(size)) == size)
            && TypeBit(k, 8) == (k == 8 || k == 9 || k == 10 || k == 40)
            && TypeBit(k, 16) == (k == 16) && TypeBit(k, 32) == (k == 32 || k == 40)
  {
  }

  lemma ArmBits(k: nat)
    requires HowtoAt(Arm, k).Some?
    ensures Length(HowtoAt(Arm, k).value.size) < 4 && Number(3) == 3
    ensures k != 3 && k != 7 ==> Number(Length(HowtoAt(Arm, k).value.size)) == k % 4
  {
  }

  lemma ArmReadsBack(big: bool, k: nat, extern: bool)
    requires HowtoAt(Arm, k).Some?
    ensures ReadHowto(Arm, big, TypeByte(Arm, big, k, extern)) == k
    ensures ReadExtern(Arm, big, TypeByte(Arm, big, k, extern)) == extern
  {
    hide Pack, ReadPcrel, ReadBaserel, ReadJmptable, ReadRelative, ReadLength, Has, Flag, Length, Number;
    var h := HowtoAt(Arm, k).value;
    ArmBits(k);
    var branch := k == 3 || k == 7;
    Unpack(big, extern, if branch then k == 7 else h.pcrel, h.size < 0, false, false, if branch then 3 else Length(h.size));
  }

  lemma Ns32kReadsBack(big: bool, k: nat, extern: bool)
    requires HowtoAt(Ns32k, k).Some?
    ensures ReadHowto(Ns32k, big, TypeByte(Ns32k, big, k, extern)) == k
    ensures ReadExtern(Ns32k, big, TypeByte(Ns32k, big, k, extern)) == extern
  {
    hide ReadPcrel, ReadLength, Has, Flag;
    var h := HowtoAt(Ns32k, k).value;
    UnpackNs32k(extern, h.pcrel, Length(h.size), Storage(k));
  }

  // ----- records -----

  /** A reloc as BFD keeps it: `howto` is a position in the table, `index` a symbol number or a section code. */
  datatype Entry = Entry(address: nat, index: nat, extern: bool, howto: nat)

  predicate EntryOk(f: Format, e: Entry) {
    e.address < TWO32 && e.index < 0x100_0000 && HowtoAt(f, e.howto).Some?
  }

  lemma BitsAsByte(t: bv8)
    ensures 0 <= t as int < 256 && (t as int) as bv8 == t
  {
  }

  function Encode(f: Format, big: bool, e: Entry): (r: seq<Byte>)
    requires EntryOk(f, e)
    ensures |r| == RELOC_STD_SIZE
  {
    Put(big, e.address, 4) + Put(big && f != Ns32k, e.index, 3) + [TypeByte(f, big, e.howto, e.extern) as int]
  }

  function Decode(f: Format, big: bool, b: seq<Byte>, symcount: nat): Entry
    requires |b| == RELOC_STD_SIZE
  {
    var address, index, t := Get(big, b[..4]), Get(big && f != Ns32k, b[4..7]), b[7] as bv8;
    var extern := ReadExtern(f, big, t) || (f == Generic && ReadBaserel(big, t));
    if f == Generic && extern && index > symcount then Entry(address, N_ABS, false, ReadHowto(f, big, t))
    else Entry(address, index, extern, ReadHowto(f, big, t))
  }

  /** A record reads back when its howto does, its symbol is in the table, and it is not a base-relative
      reloc against a section: those are always taken to be against a symbol. */
  predicate ReadsBack(f: Format, e: Entry, symcount: nat) {
    && Speakable(f, e.howto)
    && (f == Generic ==> if e.extern then e.index <= symcount
                         else !(e.howto == 9 || e.howto == 10) || (e.index == N_ABS && e.index > symcount))
  }

  /** A record decodes to what was encoded if and only if it reads back. */
  lemma RecordReadsBack(f: Format, big: bool, e: Entry, symcount: nat)
    requires EntryOk(f, e)
    ensures Decode(f, big, Encode(f, big, e), symcount) == e <==> ReadsBack(f, e, symcount)
  {
    hide TypeByte, ReadHowto, ReadExtern, ReadBaserel, Put, Get, HowtoAt, Speakable;
    var b, t := Encode(f, big, e), TypeByte(f, big, e.howto, e.extern);
    assert b[..4] == Put(big, e.address, 4) && b[4..7] == Put(big && f != Ns32k, e.index, 3);
    Fits(big, e.address, 4);
    Fits(big && f != Ns32k, e.index, 3);
    BitsAsByte(t);
    TypeByteReadsBack(f, big, e.howto, e.extern);
    if f == Generic {
      GenericReadsBack(big, e.howto, e.extern);
    }
  }

  lemma Fits(big: bool, v: nat, n: nat)
    requires (n == 4 && v < TWO32) || (n == 3 && v < 0x100_0000)
    ensures Get(big, Put(big, v, n)) == v
  {
    GetPut(big, v, n);
    Pow256Values();
  }

  // ----- lists -----

  predicate AllOk(f: Format, es: seq<Entry>) {
    forall k :: 0 <= k < |es| ==> EntryOk(f, es[k])
  }

  function EncodeAll(f: Format, big: bool, es: seq<Entry>): (r: seq<Byte>)
    requires AllOk(f, es)
    ensures |r| == RELOC_STD_SIZE * |es|
  {
    if es == [] then [] else EncodeAll(f, big, es[..|es| - 1]) + Encode(f, big, es[|es| - 1])
  }

  /** The first `count` records of a table; bytes after them are not looked at. */
  function DecodeAll(f: Format, big: bool, b: seq<Byte>, count: nat, symcount: nat): (r: seq<Entry>)
    requires RELOC_STD_SIZE * count <= |b|
    ensures |r| == count
  {
    if count == 0 then []
    else
      DecodeAll(f, big, b, count - 1, symcount)
      + [Decode(f, big, b[RELOC_STD_SIZE * (count - 1)..RELOC_STD_SIZE * count], symcount)]
  }

  /** squirt_out_relocs */
  method Squirt(f: Format, big: bool, es: seq<Entry>) returns (native: seq<Byte>)
    requires AllOk(f, es)
    ensures native == EncodeAll(f, big, es)
  {
    hide Encode, EntryOk;
    native := [];
    var k := 0;
    while k < |es|
      invariant 0 <= k <= |es| && native == EncodeAll(f, big, es[..k])
    {
      assert es[..k + 1][..k] == es[..k];
      native := native + Encode(f, big, es[k]);
      k := k + 1;
    }
    assert es[..k] == es;
  }

  /** slurp_reloc_table, on the bytes of the table. */
  method Slurp(f: Format, big: bool, b: seq<Byte>, symcount: nat) returns (es: seq<Entry>)
    ensures es == DecodeAll(f, big, b, |b| / RELOC_STD_SIZE, symcount)
  {
    hide Decode;
    var count := |b| / RELOC_STD_SIZE;
    es := [];
    var k := 0;
    while k < count
      invariant 0 <= k <= count && es == DecodeAll(f, big, b, k, symcount)
    {
      es := es + [Decode(f, big, b[RELOC_STD_SIZE * k..RELOC_STD_SIZE * (k + 1)], symcount)];
      k := k + 1;
    }
  }

  /** Reading a list back, whatever follows it. */
  lemma {:induction false} ListDecodes(f: Format, big: bool, es: seq<Entry>, symcount: nat, rest: seq<Byte>)
    requires AllOk(f, es)
    ensures var r := DecodeAll(f, big, EncodeAll(f, big, es) + rest, |es|, symcount);
            forall k :: 0 <= k < |es| ==> r[k] == Decode(f, big, Encode(f, big, es[k]), symcount)
  {
    hide Encode, Decode, EntryOk;
    if es != [] {
      var front, last := es[..|es| - 1], Encode(f, big, es[|es| - 1]);
      var bytes, n := EncodeAll(f, big, front), |es| - 1;
      assert EncodeAll(f, big, es) + rest == bytes + (last + rest);
      ListDecodes(f, big, front, symcount, last + rest);
      assert (bytes + (last + rest))[RELOC_STD_SIZE * n..RELOC_STD_SIZE * (n + 1)] == last;
    }
  }

  /** A list of relocs reads back if and only if each of its records does. */
  lemma ListReadsBack(f: Format, big: bool, es: seq<Entry>, symcount: nat)
    requires AllOk(f, es)
    ensures |EncodeAll(f, big, es)| / RELOC_STD_SIZE == |es|
    ensures DecodeAll(f, big, EncodeAll(f, big, es), |es|, symcount) == es
       <==> forall k :: 0 <= k < |es| ==> ReadsBack(f, es[k], symcount)
  {
    hide Encode, Decode, EntryOk, ReadsBack, DecodeAll;
    var bytes := EncodeAll(f, big, es);
    var r := DecodeAll(f, big, bytes, |es|, symcount);
    ListDecodes(f, big, es, symcount, []);
    assert bytes + [] == bytes;
    forall k | 0 <= k < |es| ensures r[k] == es[k] <==> ReadsBack(f, es[k], symcount) {
      RecordReadsBack(f, big, es[k], symcount);
    }
    if forall k :: 0 <= k < |es| ==> ReadsBack(f, es[k], symcount) {
      assert r == es;
    }
  }

  // ----- extended records -----

  /** The type byte of an extended record. */
  function ExtType(big: bool, kind: nat, extern: bool): bv8 {
    if big then Flag(extern, 0x80) | Five(kind) else Flag(extern, 0x01) | (Five(kind) << 3)
  }

  /** The low five bits of a type number. */
  function Five(kind: nat): bv8 {
    (kind % 32) as bv8
  }

  function ReadExtKind(big: bool, t: bv8): nat {
    (if big then t & 0x1f else (t & 0xf8) >> 3) as int
  }

  predicate ReadExtExtern(big: bool, t: bv8) {
    Has(t, if big then 0x80 else 0x01)
  }

  lemma FiveBits(kind: nat)
    ensures Five(kind) < 32 && Five(kind) as int == kind % 32
  {
  }

  lemma UnpackExt(big: bool, low: bv8, extern: bool)
    requires low < 32
    ensures var t := if big then Flag(extern, 0x80) | low else Flag(extern, 0x01) | (low << 3);
            (if big then t & 0x1f else (t & 0xf8) >> 3) == low && ReadExtExtern(big, t) == extern
  {
  }

  /** Type and extern flag of an extended record come back, the type modulo 32. */
  lemma ExtTypeReadsBack(big: bool, kind: nat, extern: bool)
    ensures ReadExtKind(big, ExtType(big, kind, extern)) == kind % 32 && ReadExtExtern(big, ExtType(big, kind, extern)) == extern
  {
    hide Five;
    FiveBits(kind);
    UnpackExt(big, Five(kind), extern);
  }
}
