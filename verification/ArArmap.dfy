/** The archive symbol index: what goes into it and the three writers
    (_bfd_bsd_write_armap, _bfd_coff_write_armap, _bfd_archive_64_bit_write_armap). */
module ArArmap {
  import opened ByteSeq
  import opened ArHeader

  const SARMAG := 8

  /** What the writers know of a member: parsed_size and extra_size of its areltdata. */
  datatype Part = Part(size: nat, extra: nat)

  /** One index entry before its offset is known: a symbol and the member that defines it. */
  datatype Orl = Orl(name: seq<Byte>, elt: nat)

  datatype Writer = Bsd | Coff | Sym64

  // ----- collecting the symbols -----

  datatype Symbol = Symbol(name: seq<Byte>, visible: bool, common: bool, undefined: bool)

  /** Global, weak, indirect, unique or common, and not undefined. */
  predicate Wanted(s: Symbol) {
    (s.visible || s.common) && !s.undefined
  }

  function FromMember(elt: nat, syms: seq<Symbol>, k: nat): seq<Orl>
    requires k <= |syms|
  {
    if k == 0 then []
    else FromMember(elt, syms, k - 1) + if Wanted(syms[k - 1]) then [Orl(syms[k - 1].name, elt)] else []
  }

  function Collected(members: seq<seq<Symbol>>, k: nat): seq<Orl>
    requires k <= |members|
  {
    if k == 0 then [] else Collected(members, k - 1) + FromMember(k - 1, members[k - 1], |members[k - 1]|)
  }

  // ----- what the index holds -----

  /** A symbol of a member by number, member first. */
  type Place = (nat, nat)

  predicate Before(a: Place, b: Place) {
    a.0 < b.0 || (a.0 == b.0 && a.1 < b.1)
  }

  /** It is there, defined or common, and seen outside its file. */
  predicate Offered(members: seq<seq<Symbol>>, p: Place) {
    && p.0 < |members| && p.1 < |members[p.0]|
    && var s := members[p.0][p.1];
       (s.visible || s.common) && !s.undefined
  }

  /** Entry `i` stands for the symbol at `src[i]`: its name, under the number of its own member.  The symbols come in
      order, each at most once, and every one on offer is there. */
  ghost predicate IsIndex(members: seq<seq<Symbol>>, orls: seq<Orl>, src: seq<Place>) {
    IndexTo(members, orls, src, (|members|, 0)) && forall p :: Offered(members, p) ==> p in src
  }

  /** The same for the symbols before `end`. */
  ghost predicate IndexTo(members: seq<seq<Symbol>>, orls: seq<Orl>, src: seq<Place>, end: Place) {
    && |src| == |orls|
    && (forall i :: 0 <= i < |src| ==>
          Offered(members, src[i]) && Before(src[i], end) && orls[i] == Orl(members[src[i].0][src[i].1].name, src[i].0))
    && (forall i, j :: 0 <= i < j < |src| ==> Before(src[i], src[j]))
    && forall p :: Offered(members, p) && Before(p, end) ==> p in src
  }

  lemma {:induction false} MemberIndex(members: seq<seq<Symbol>>, orls: seq<Orl>, src: seq<Place>, m: nat, k: nat) returns (src': seq<Place>)
    requires m < |members| && k <= |members[m]| && IndexTo(members, orls, src, (m, 0))
    ensures IndexTo(members, orls + FromMember(m, members[m], k), src', (m, k))
    decreases k
  {
    src' := src;
    if k > 0 {
      var was := MemberIndex(members, orls, src, m, k - 1);
      var so := orls + FromMember(m, members[m], k - 1);
      src' := was;
      if Wanted(members[m][k - 1]) {
        src' := was + [(m, k - 1)];
        assert so + [Orl(members[m][k - 1].name, m)] == orls + FromMember(m, members[m], k);
        assert src'[|was|] == (m, k - 1);
      } else {
        assert so == orls + FromMember(m, members[m], k);
      }
      forall p | Offered(members, p) && Before(p, (m, k)) ensures p in src' {
        if Before(p, (m, k - 1)) {
          assert p in was;
        } else {
          assert p == (m, k - 1);
        }
      }
    } else {
      assert orls + [] == orls;
    }
  }

  /** The index holds exactly the symbols on offer. */
  lemma {:induction false} CollectedIndex(members: seq<seq<Symbol>>, k: nat) returns (src: seq<Place>)
    requires k <= |members|
    ensures IndexTo(members, Collected(members, k), src, (k, 0))
    ensures k == |members| ==> IsIndex(members, Collected(members, k), src)
  {
    src := [];
    if k > 0 {
      src := CollectedIndex(members, k - 1);
      src := MemberIndex(members, Collected(members, k - 1), src, k - 1, |members[k - 1]|);
      forall p | Offered(members, p) && Before(p, (k, 0)) ensures p in src {
        assert Before(p, (k - 1, |members[k - 1]|));
      }
    }
  }

  /** Entries are grouped by member, in member order. */
  predicate Sorted(orls: seq<Orl>, parts: nat) {
    && (forall i :: 0 <= i < |orls| ==> orls[i].elt < parts)
    && (forall i, j :: 0 <= i < j < |orls| ==> orls[i].elt <= orls[j].elt)
  }

  lemma SortedAppend(orls: seq<Orl>, o: Orl)
    requires Sorted(orls, o.elt + 1)
    ensures Sorted(orls + [o], o.elt + 1)
  {
  }

  /** The symbols of one member join the map. */
  method CollectMember(orls: seq<Orl>, stridx: nat, elt: nat, syms: seq<Symbol>) returns (orls': seq<Orl>, stridx': nat)
    requires Sorted(orls, elt + 1) && stridx == NamesSize(orls, |orls|)
    ensures orls' == orls + FromMember(elt, syms, |syms|)
    ensures Sorted(orls', elt + 1) && stridx' == NamesSize(orls', |orls'|)
  {
    orls', stridx' := orls, stridx;
    for k := 0 to |syms|
      invariant orls' == orls + FromMember(elt, syms, k)
      invariant Sorted(orls', elt + 1)
      invariant stridx' == NamesSize(orls', |orls'|)
    {
      if (syms[k].visible || syms[k].common) && !syms[k].undefined {
        var o := Orl(syms[k].name, elt);
        NamesSizeAppend(orls', o, |orls'|);
        SortedAppend(orls', o);
        orls' := orls' + [o];
        stridx' := stridx' + |o.name| + 1;
      }
    }
  }

  /** The map-building loops of _bfd_compute_and_write_armap: exactly the wanted symbols, member by
      member, each with the running length of the names before it. */
  method CollectSymbols(members: seq<seq<Symbol>>) returns (orls: seq<Orl>, stridx: nat)
    ensures orls == Collected(members, |members|) && exists src :: IsIndex(members, orls, src)
    ensures Sorted(orls, |members|)
    ensures stridx == NamesSize(orls, |orls|)
  {
    ghost var src := CollectedIndex(members, |members|);
    assert IsIndex(members, Collected(members, |members|), src);
    orls, stridx := [], 0;
    for elt := 0 to |members|
      invariant orls == Collected(members, elt)
      invariant Sorted(orls, elt)
      invariant stridx == NamesSize(orls, |orls|)
    {
      orls, stridx := CollectMember(orls, stridx, elt, members[elt]);
    }
  }

  // ----- member positions -----

  /** The bytes a member really occupies: header, inline name, contents and padding. */
  function ActualSpan(p: Part, thin: bool): nat {
    HDR_SIZE + p.extra + if thin then 0 else RoundUp2(p.size)
  }

  /** The bytes a writer steps over when it predicts the next member position. */
  function StepSpan(w: Writer, p: Part, thin: bool): nat {
    match w
    case Bsd => RoundUp2(HDR_SIZE + p.size + p.extra)
    case Coff => HDR_SIZE + if thin then 0 else RoundUp2(p.size)
    case Sym64 => HDR_SIZE + if thin then 0 else RoundUp2(p.size)
  }

  lemma EvenPlus(p: nat, n: nat)
    requires p % 2 == 0
    ensures (p + n) % 2 == n % 2 && (p + (n + n % 2)) % 2 == 0
  {
    ModUnique(p + n, 2, p / 2 + n / 2, n % 2);
    ModUnique(p + (n + n % 2), 2, p / 2 + n / 2 + n % 2, 0);
  }

  /** The statements that move a writer's position past a member. */
  method StepOver(w: Writer, ptr: nat, p: Part, thin: bool) returns (ptr': nat)
    requires ptr % 2 == 0
    ensures ptr' == ptr + StepSpan(w, p, thin) && ptr' % 2 == 0
  {
    EvenPlus(ptr, HDR_SIZE);
    EvenPlus(ptr, p.size + p.extra + HDR_SIZE);
    EvenPlus(ptr + HDR_SIZE, p.size);
    match w {
      case Bsd =>
        ptr' := ptr + (p.size + p.extra + HDR_SIZE);
        ptr' := ptr' + ptr' % 2;
      case Coff =>
        ptr' := ptr + HDR_SIZE;
        if !thin {
          ptr' := ptr' + p.size;
          ptr' := ptr' + ptr' % 2;
        }
      case Sym64 =>
        ptr' := ptr + HDR_SIZE;
        if !thin {
          ptr' := ptr' + p.size;
        }
        ptr' := ptr' + ptr' % 2;
    }
  }

  function ActualOffset(parts: seq<Part>, k: nat, thin: bool): nat
    requires k <= |parts|
  {
    if k == 0 then 0 else ActualOffset(parts, k - 1, thin) + ActualSpan(parts[k - 1], thin)
  }

  function StepOffset(w: Writer, parts: seq<Part>, k: nat, thin: bool): (r: nat)
    requires k <= |parts|
    ensures r % 2 == 0
  {
    if k == 0 then 0 else StepOffset(w, parts, k - 1, thin) + StepSpan(w, parts[k - 1], thin)
  }

  /** The condition under which a writer's steps are the real ones: the BSD writer counts contents that
      a thin archive does not store, the other two do not count names stored after the header. */
  predicate StepsAreReal(w: Writer, p: Part, thin: bool) {
    if w == Bsd then !thin || p.size == 0 else p.extra == 0
  }

  predicate EvenExtra(parts: seq<Part>) {
    forall i :: 0 <= i < |parts| ==> parts[i].extra % 2 == 0
  }

  lemma SpanExact(w: Writer, p: Part, thin: bool)
    requires p.extra % 2 == 0
    ensures StepSpan(w, p, thin) == ActualSpan(p, thin) <==> StepsAreReal(w, p, thin)
    ensures w == Bsd ==> StepSpan(w, p, thin) >= ActualSpan(p, thin)
    ensures w != Bsd ==> StepSpan(w, p, thin) <= ActualSpan(p, thin)
  {
  }

  /** The predicted distance of member `k` is the real one if and only if every member before it is
      stepped over exactly. */
  lemma {:induction false} StepsExact(w: Writer, parts: seq<Part>, k: nat, thin: bool)
    requires k <= |parts| && EvenExtra(parts)
    ensures StepOffset(w, parts, k, thin) == ActualOffset(parts, k, thin)
       <==> forall i :: 0 <= i < k ==> StepsAreReal(w, parts[i], thin)
    ensures w == Bsd ==> StepOffset(w, parts, k, thin) >= ActualOffset(parts, k, thin)
    ensures w != Bsd ==> StepOffset(w, parts, k, thin) <= ActualOffset(parts, k, thin)
  {
    if k > 0 {
      StepsExact(w, parts, k - 1, thin);
      SpanExact(w, parts[k - 1], thin);
    }
  }

  // ----- sizes -----

  /** The bytes of the first `k` names with their NULs; entry `k` is told this number as its namidx. */
  function NamesSize(orls: seq<Orl>, k: nat): nat
    requires k <= |orls|
  {
    if k == 0 then 0 else NamesSize(orls, k - 1) + |orls[k - 1].name| + 1
  }

  /** The names of the first `k` entries, NUL-terminated. */
  function Strings(orls: seq<Orl>, k: nat): (r: seq<Byte>)
    requires k <= |orls|
    ensures |r| == NamesSize(orls, k)
  {
    if k == 0 then [] else Strings(orls, k - 1) + (orls[k - 1].name + [0])
  }

  lemma {:induction false} NamesSizeAppend(orls: seq<Orl>, o: Orl, k: nat)
    requires k <= |orls|
    ensures NamesSize(orls + [o], k) == NamesSize(orls, k)
    ensures NamesSize(orls + [o], |orls| + 1) == NamesSize(orls + [o], |orls|) + |o.name| + 1
  {
    if k > 0 {
      NamesSizeAppend(orls, o, k - 1);
    }
  }

  /** The pad bytes after the names: to an even size, or to a multiple of eight. */
  function PadSize(w: Writer, count: nat, strings: nat): nat {
    match w
    case Bsd => strings % 2
    case Coff => (strings + 4 * count + 4) % 2
    case Sym64 => (8 - (strings + 8 * count + 8) % 8) % 8
  }

  /** The bytes of the index after its header. */
  function MapSize(w: Writer, count: nat, strings: nat): (r: nat)
    ensures r % 2 == 0
  {
    match w
    case Bsd => 8 + 8 * count + strings + PadSize(w, count, strings)
    case Coff => 4 + 4 * count + strings + PadSize(w, count, strings)
    case Sym64 =>
      PadToEight(strings + 8 * count + 8);
      8 + 8 * count + strings + PadSize(w, count, strings)
  }

  lemma PadToEight(x: nat)
    ensures (x + (8 - x % 8) % 8) % 8 == 0 && (x + (8 - x % 8) % 8) % 2 == 0
  {
    var q, r := x / 8, x % 8;
    var k := if r == 0 then q else q + 1;
    assert (8 - r) % 8 == if r == 0 then 0 else 8 - r;
    var sum := x + (8 - r) % 8;
    assert sum == 8 * k;
    ModUnique(sum, 8, k, 0);
    ModUnique(sum, 2, 4 * k, 0);
  }

  /** The padding is the least that makes the index even, or a multiple of eight. */
  lemma PadIsLeast(w: Writer, count: nat, strings: nat)
    ensures var unit := if w == Sym64 then 8 else 2; PadSize(w, count, strings) < unit && MapSize(w, count, strings) % unit == 0
  {
    if w == Sym64 {
      PadToEight(strings + 8 * count + 8);
    }
  }

  /** elength as _bfd_compute_and_write_armap passes it on: the name table with its header, evened. */
  function NameTableSpan(table: nat): (r: nat)
    ensures r % 2 == 0
  {
    if table == 0 then 0 else RoundUp2(table + HDR_SIZE)
  }

  /** Where the writers expect the first member: map size and table size are added as unsigned ints. */
  function PredictedFirst(w: Writer, count: nat, strings: nat, elength: nat): nat {
    Wrap32(MapSize(w, count, strings) + elength) + HDR_SIZE + SARMAG
  }

  function ActualFirst(w: Writer, count: nat, strings: nat, elength: nat): nat {
    SARMAG + HDR_SIZE + MapSize(w, count, strings) + elength
  }

  lemma EvenSum(a: nat, b: nat)
    requires a % 2 == 0 && b % 2 == 0
    ensures (Wrap32(a + b) + HDR_SIZE + SARMAG) % 2 == 0
  {
    Wrap32Parity(a + b);
  }

  lemma FirstIsEven(w: Writer, count: nat, strings: nat, elength: nat)
    requires elength % 2 == 0
    ensures PredictedFirst(w, count, strings, elength) % 2 == 0
  {
    EvenSum(MapSize(w, count, strings), elength);
  }

  /** The first member is where it was predicted if and only if the sum fits an unsigned int. */
  lemma FirstExact(w: Writer, count: nat, strings: nat, elength: nat)
    ensures PredictedFirst(w, count, strings, elength) == ActualFirst(w, count, strings, elength)
       <==> MapSize(w, count, strings) + elength < TWO32
  {
  }

  // ----- the bytes of an index -----

  /** The position a writer stores for entry `k`. */
  function EntryOffset(w: Writer, orls: seq<Orl>, k: nat, parts: seq<Part>, thin: bool, first: nat): nat
    requires k < |orls| && orls[k].elt < |parts|
  {
    first + StepOffset(w, parts, orls[k].elt, thin)
  }

  /** The positions stored for all entries. */
  function Offsets(w: Writer, orls: seq<Orl>, parts: seq<Part>, thin: bool, first: nat): (r: seq<nat>)
    requires Sorted(orls, |parts|)
    ensures |r| == |orls|
    ensures forall k :: 0 <= k < |orls| ==> r[k] == EntryOffset(w, orls, k, parts, thin, first)
  {
    seq(|orls|, k requires 0 <= k < |orls| => EntryOffset(w, orls, k, parts, thin, first))
  }

  /** The bytes of entry `k`, stored with position `off`. */
  function EntryBytes(w: Writer, orls: seq<Orl>, k: nat, off: nat, big: bool): (r: seq<Byte>)
    requires k < |orls|
    ensures |r| == EntrySize(w)
  {
    match w
    case Bsd => Put(big, NamesSize(orls, k), 4) + Put(big, off, 4)
    case Coff => PutBig(off, 4)
    case Sym64 => PutBig(off, 8)
  }

  function EntrySize(w: Writer): nat {
    if w == Coff then 4 else 8
  }

  /** The size of `k` entries, and so the place of entry `k`. */
  function EntryStart(w: Writer, k: nat): nat {
    if w == Coff then 4 * k else 8 * k
  }

  /** The first `k` stored entries. */
  function Entries(w: Writer, orls: seq<Orl>, offs: seq<nat>, k: nat, big: bool): (r: seq<Byte>)
    requires k <= |orls| == |offs|
    ensures |r| == EntryStart(w, k)
  {
    if k == 0 then [] else Entries(w, orls, offs, k - 1, big) + EntryBytes(w, orls, k - 1, offs[k - 1], big)
  }

  /** "__.SYMDEF", "/" or "/SYM64/". */
  function MapName(w: Writer): (r: seq<Byte>)
    ensures |r| == 16
  {
    SpacePad(match w
             case Bsd => [95, 95, 46, 83, 89, 77, 68, 69, 70]
             case Coff => [SLASH]
             case Sym64 => [SLASH, 83, 89, 77, 54, 52, SLASH], 16)
  }

  function MapBody(w: Writer, orls: seq<Orl>, parts: seq<Part>, thin: bool, first: nat, big: bool): seq<Byte>
    requires Sorted(orls, |parts|)
  {
    var n := |orls|;
    var strings := Strings(orls, n);
    Assemble(w, n, Entries(w, orls, Offsets(w, orls, parts, thin, first), n, big),
             strings + Fill(0, PadSize(w, n, |strings|)), big)
  }

  /** The parts of an index in file order. */
  function Assemble(w: Writer, n: nat, entries: seq<Byte>, strs: seq<Byte>, big: bool): seq<Byte> {
    match w
    case Bsd => Put(big, 8 * n, 4) + entries + Put(big, |strs|, 4) + strs
    case Coff => PutBig(n, 4) + entries + strs
    case Sym64 => PutBig(n, 8) + entries + strs
  }

  /** The size column holds the map size as an unsigned int. */
  function MapHeader(w: Writer, count: nat, strings: nat, meta: seq<Byte>): (r: seq<Byte>)
    requires IsMeta(meta)
    ensures |r| == HDR_SIZE
  {
    SizeFits(Wrap32(MapSize(w, count, strings)));
    Header(MapName(w), meta, SizeField(Wrap32(MapSize(w, count, strings))).value)
  }

  function MapBytes(w: Writer, orls: seq<Orl>, parts: seq<Part>, thin: bool, elength: nat, meta: seq<Byte>, big: bool): seq<Byte>
    requires Sorted(orls, |parts|) && IsMeta(meta)
  {
    var n, strings := |orls|, NamesSize(orls, |orls|);
    MapHeader(w, n, strings, meta) + MapBody(w, orls, parts, thin, PredictedFirst(w, n, strings, elength), big)
  }

  lemma MapBytesLength(w: Writer, orls: seq<Orl>, parts: seq<Part>, thin: bool, elength: nat, meta: seq<Byte>, big: bool)
    requires Sorted(orls, |parts|) && IsMeta(meta)
    ensures |MapBytes(w, orls, parts, thin, elength, meta, big)|
         == HDR_SIZE + MapSize(w, |orls|, NamesSize(orls, |orls|))
  {
  }

  // ----- the writers -----

  /** Some stored position does not fit in four bytes. */
  predicate PastFourGigabytes(offs: seq<nat>) {
    exists k :: 0 <= k < |offs| && offs[k] >= TWO32
  }

  predicate TooFar(w: Writer, orls: seq<Orl>, parts: seq<Part>, thin: bool, elength: nat)
    requires Sorted(orls, |parts|)
  {
    PastFourGigabytes(Offsets(w, orls, parts, thin, PredictedFirst(w, |orls|, NamesSize(orls, |orls|), elength)))
  }

  /** What a writer produces: its own index, the 64-bit index instead, or, without BFD64, a failure. */
  function Written(w: Writer, orls: seq<Orl>, parts: seq<Part>, thin: bool, elength: nat, meta: seq<Byte>, big: bool, bfd64: bool)
    : (r: Result<seq<Byte>>)
    requires Sorted(orls, |parts|) && IsMeta(meta)
    ensures bfd64 || w == Sym64 ==> r.Ok?
  {
    if w != Sym64 && TooFar(w, orls, parts, thin, elength) then
      if bfd64 then Ok(MapBytes(Sym64, orls, parts, thin, elength, meta, big)) else Err(FileTruncated)
    else Ok(MapBytes(w, orls, parts, thin, elength, meta, big))
  }

  /** One walk of the COFF writer (or of the 64-bit writer) over members and entries.  The COFF writer
      runs it twice, as a pre-check in a BFD64 build and as the offset pass, and stops at the first
      position that does not fit in four bytes. */
  method PlaceByMember(w: Writer, orls: seq<Orl>, parts: seq<Part>, thin: bool, first: nat) returns (r: Result<seq<nat>>)
    requires w != Bsd && Sorted(orls, |parts|) && first % 2 == 0
    ensures r == if w == Coff && PastFourGigabytes(Offsets(w, orls, parts, thin, first)) then Err(FileTruncated)
                 else Ok(Offsets(w, orls, parts, thin, first))
  {
    ghost var spec := Offsets(w, orls, parts, thin, first);
    var offs: seq<nat> := [];
    var current, count, ptr := 0, 0, first;
    while current < |parts| && count < |orls|
      invariant 0 <= current <= |parts| && 0 <= count <= |orls|
      invariant ptr % 2 == 0 && ptr == first + StepOffset(w, parts, current, thin)
      invariant offs == spec[..count]
      invariant w == Coff ==> forall i :: 0 <= i < count ==> spec[i] < TWO32
      invariant count < |orls| ==> orls[count].elt >= current
      decreases |parts| - current
    {
      while count < |orls| && orls[count].elt == current
        invariant 0 <= count <= |orls|
        invariant offs == spec[..count]
        invariant w == Coff ==> forall i :: 0 <= i < count ==> spec[i] < TWO32
        invariant count < |orls| ==> orls[count].elt >= current
      {
        assert ptr == spec[count];
        if w == Coff && ptr >= TWO32 {
          return Err(FileTruncated);
        }
        offs := offs + [ptr];
        count := count + 1;
      }
      ptr := StepOver(w, ptr, parts[current], thin);
      current := current + 1;
    }
    assert offs == spec;
    return Ok(offs);
  }

  /** The inner loop of the BSD writer: steps from member to member until it reaches `target`. */
  method StepTo(parts: seq<Part>, start: nat, target: nat, thin: bool, first: nat, ptr: nat) returns (firstreal: nat)
    requires start <= target <= |parts| && first % 2 == 0
    requires ptr == first + StepOffset(Bsd, parts, start, thin)
    ensures firstreal == first + StepOffset(Bsd, parts, target, thin)
  {
    firstreal := ptr;
    var current := start;
    while current != target
      invariant start <= current <= target
      invariant firstreal % 2 == 0
      invariant firstreal == first + StepOffset(Bsd, parts, current, thin)
    {
      firstreal := StepOver(Bsd, firstreal, parts[current], thin);
      current := current + 1;
    }
  }

  /** One walk of the BSD writer over its entries: `current` only moves forward, until it reaches the
      member of the entry. */
  method PlaceByEntry(orls: seq<Orl>, parts: seq<Part>, thin: bool, first: nat) returns (r: Result<seq<nat>>)
    requires Sorted(orls, |parts|) && first % 2 == 0
    ensures r == if PastFourGigabytes(Offsets(Bsd, orls, parts, thin, first)) then Err(FileTruncated)
                 else Ok(Offsets(Bsd, orls, parts, thin, first))
  {
    ghost var spec := Offsets(Bsd, orls, parts, thin, first);
    var offs: seq<nat> := [];
    var current, last, firstreal := 0, 0, first;
    for count := 0 to |orls|
      invariant 0 <= last == current <= |parts|
      invariant firstreal == first + StepOffset(Bsd, parts, current, thin)
      invariant offs == spec[..count]
      invariant forall i :: 0 <= i < count ==> spec[i] < TWO32
      invariant count < |orls| ==> orls[count].elt >= current
    {
      if orls[count].elt != last {
        firstreal := StepTo(parts, current, orls[count].elt, thin, first, firstreal);
        current := orls[count].elt;
      }
      assert firstreal == spec[count];
      if firstreal >= TWO32 {
        return Err(FileTruncated);
      }
      last := current;
      offs := offs + [firstreal];
    }
    assert offs == spec;
    return Ok(offs);
  }

  /** The stored entries, written in order; `namidx` runs ahead with the names. */
  method WriteEntries(w: Writer, orls: seq<Orl>, offs: seq<nat>, big: bool) returns (out: seq<Byte>)
    requires |offs| == |orls|
    ensures out == Entries(w, orls, offs, |orls|, big)
  {
    out := [];
    var namidx := 0;
    for count := 0 to |orls|
      invariant namidx == NamesSize(orls, count)
      invariant out == Entries(w, orls, offs, count, big)
    {
      match w {
        case Bsd => out := out + (Put(big, namidx, 4) + Put(big, offs[count], 4));
        case Coff => out := out + PutBig(offs[count], 4);
        case Sym64 => out := out + PutBig(offs[count], 8);
      }
      namidx := namidx + |orls[count].name| + 1;
    }
  }

  /** The loop that writes the names. */
  method WriteNames(orls: seq<Orl>) returns (out: seq<Byte>)
    ensures out == Strings(orls, |orls|)
  {
    out := [];
    for count := 0 to |orls|
      invariant out == Strings(orls, count)
    {
      out := out + (orls[count].name + [0]);
    }
  }

  /** The loop that writes the pad bytes. */
  method WritePadding(n: nat) returns (pad: seq<Byte>)
    ensures pad == Fill(0, n)
  {
    pad := [];
    var padding := n;
    while padding != 0
      invariant 0 <= padding <= n && pad == Fill(0, n - padding)
    {
      pad := pad + [0];
      padding := padding - 1;
    }
  }

  /** The index in file order: header, count, entries, names, padding. */
  method Emit(w: Writer, orls: seq<Orl>, parts: seq<Part>, thin: bool, elength: nat, offs: seq<nat>, meta: seq<Byte>, big: bool)
    returns (out: seq<Byte>)
    requires Sorted(orls, |parts|) && IsMeta(meta)
    requires offs == Offsets(w, orls, parts, thin, PredictedFirst(w, |orls|, NamesSize(orls, |orls|), elength))
    ensures out == MapBytes(w, orls, parts, thin, elength, meta, big)
  {
    var entries := WriteEntries(w, orls, offs, big);
    var names := WriteNames(orls);
    var n := |orls|;
    var pad := WritePadding(PadSize(w, n, |names|));
    out := MapHeader(w, n, |names|, meta) + Assemble(w, n, entries, names + pad, big);
  }

  /** _bfd_archive_64_bit_write_armap. */
  method Write64(orls: seq<Orl>, parts: seq<Part>, thin: bool, elength: nat, meta: seq<Byte>, big: bool)
    returns (r: Result<seq<Byte>>)
    requires Sorted(orls, |parts|) && IsMeta(meta) && elength % 2 == 0
    ensures r == Written(Sym64, orls, parts, thin, elength, meta, big, true)
  {
    FirstIsEven(Sym64, |orls|, NamesSize(orls, |orls|), elength);
    var offs := PlaceByMember(Sym64, orls, parts, thin, PredictedFirst(Sym64, |orls|, NamesSize(orls, |orls|), elength));
    var out := Emit(Sym64, orls, parts, thin, elength, offs.value, meta, big);
    r := Ok(out);
  }

  /** _bfd_coff_write_armap and _bfd_bsd_write_armap.  In a BFD64 build the pre-check walk makes the
      failure of the second walk unreachable. */
  method Write32(w: Writer, orls: seq<Orl>, parts: seq<Part>, thin: bool, elength: nat, meta: seq<Byte>, big: bool, bfd64: bool)
    returns (r: Result<seq<Byte>>)
    requires w != Sym64 && Sorted(orls, |parts|) && IsMeta(meta) && elength % 2 == 0
    ensures r == Written(w, orls, parts, thin, elength, meta, big, bfd64)
    ensures bfd64 ==> r.Ok?
  {
    var first := PredictedFirst(w, |orls|, NamesSize(orls, |orls|), elength);
    FirstIsEven(w, |orls|, NamesSize(orls, |orls|), elength);
    var placed;
    if bfd64 {
      if w == Bsd {
        placed := PlaceByEntry(orls, parts, thin, first);
      } else {
        placed := PlaceByMember(w, orls, parts, thin, first);
      }
      if placed.Err? {
        r := Write64(orls, parts, thin, elength, meta, big);
        return;
      }
    }
    if w == Bsd {
      placed := PlaceByEntry(orls, parts, thin, first);
    } else {
      placed := PlaceByMember(w, orls, parts, thin, first);
    }
    if placed.Err? {
      return Err(placed.error);
    }
    var out := Emit(w, orls, parts, thin, elength, placed.value, meta, big);
    r := Ok(out);
  }
}
