/** The ARC global offset table: slots and dynamic reloc space are reserved while relocs are checked, values
    and dynamic relocs are filled in later. */
module ArcGot {
  import opened ByteSeq

  datatype GotType = Unknown | Normal | TlsGd | TlsIe | TlsLe

  datatype Existing = NoTls | Mod | Off | ModAndOff

  datatype GotEntry = GotEntry(typ: GotType, offset: nat, processed: bool, created: bool, existing: Existing)

  type DynIndex = i: int | -1 <= i witness -1

  /** A global symbol has a dynamic index (-1 for none), a local one never gets any. */
  datatype Symbol = Symbol(global: bool, dynindx: DynIndex, forcedLocal: bool, defRegular: bool)

  datatype RelaType = Relative | GlobDat | DtpMod | TpOff | DtpOff

  datatype Rela = Rela(offset: nat, sym: nat, typ: RelaType, addend: nat)

  const RELA_SIZE := 12
  const TCB_SIZE := 8

  // ----- lists of entries -----

  /** got_entry_for_type, as a position. */
  function Find(list: seq<GotEntry>, typ: GotType, i: nat): (r: Option<nat>)
    requires i <= |list|
    ensures r.Some? ==> i <= r.value < |list| && list[r.value].typ == typ
    ensures forall k :: i <= k < (if r.Some? then r.value else |list|) ==> list[k].typ != typ
    decreases |list| - i
  {
    if i == |list| then None else if list[i].typ == typ then Some(i) else Find(list, typ, i + 1)
  }

  /** At most one entry of each type. */
  predicate OneEach(list: seq<GotEntry>) {
    forall i, j :: 0 <= i < j < |list| ==> list[i].typ != list[j].typ
  }

  // ----- what a request needs -----

  function Width(t: GotType): nat {
    if t == TlsGd then 8 else 4
  }

  function ExistingFor(t: GotType): Existing {
    if t == Normal then NoTls else if t == TlsGd then ModAndOff else Off
  }

  /** The dynamic relocs space is reserved for. */
  function Reserve(pic: bool, sym: Symbol, t: GotType): nat {
    match t
    case Unknown => 0
    case Normal => if pic || sym.global then 1 else 0
    case TlsGd => 2
    case TlsIe => 1
    case TlsLe => 1
  }

  /** The dynamic relocs that are written for an entry. */
  function RelasFor(pic: bool, symbolic: bool, sym: Symbol, e: GotEntry, word: nat): seq<Rela> {
    if e.typ == Normal then
      if pic && sym.global && (symbolic || sym.dynindx == -1) && sym.defRegular then [Rela(e.offset, 0, Relative, 0)]
      else if sym.global && sym.dynindx >= 0 then [Rela(e.offset, sym.dynindx, GlobDat, 0)]
      else []
    else
      var dynindx := if !sym.global || sym.dynindx < 0 then 0 else sym.dynindx;
      (if e.existing == ModAndOff || e.existing == Mod then [Rela(e.offset, dynindx, DtpMod, 0)] else [])
      + (if e.existing == ModAndOff || e.existing == Off then
           [Rela(e.offset + (if e.existing == ModAndOff then 4 else 0), dynindx,
                 if e.typ == TlsIe then TpOff else DtpOff, if e.typ == TlsIe then word else 0)]
         else [])
  }

  /** The reservation covers the use, whatever becomes of the symbol in between. */
  lemma ReserveCovers(pic: bool, symbolic: bool, then_: Symbol, now: Symbol, e: GotEntry, word: nat)
    requires then_.global == now.global && e.existing == ExistingFor(e.typ) && e.typ != Unknown
    ensures |RelasFor(pic, symbolic, now, e, word)| <= Reserve(pic, then_, e.typ)
  {
  }

  /** And not a reloc more than some symbol will need, except for local symbols in position-independent code: the
      reloc reserved for their normal entries is never written. */
  lemma ReserveIsLeast(pic: bool, then_: Symbol, e: GotEntry)
    requires e.existing == ExistingFor(e.typ) && e.typ != Unknown
    ensures (exists now: Symbol :: now.global == then_.global && |RelasFor(pic, false, now, e, 0)| == Reserve(pic, then_, e.typ))
       <==> !(e.typ == Normal && pic && !then_.global)
  {
    var now := Symbol(then_.global, 1, false, false);
    assert now.global == then_.global;
    if !(e.typ == Normal && pic && !then_.global) {
      assert |RelasFor(pic, false, now, e, 0)| == Reserve(pic, then_, e.typ);
    }
  }

  // ----- what the dynamic loader makes of the relocs -----

  /** The world at run time: where the object was loaded, and what each dynamic symbol stands for.  Symbol 0 is the
      object itself. */
  datatype Env = Env(base: int, addr: nat -> int, modul: nat -> int, dtpoff: nat -> int, tpoff: nat -> int)

  function Low(v: int): nat {
    v % TWO32
  }

  /** What one reloc does to the word it is for. */
  function Applied(env: Env, r: Rela, w: int): nat {
    match r.typ
    case Relative => Low(w + env.base)
    case GlobDat => Low(env.addr(r.sym))
    case DtpMod => Low(env.modul(r.sym))
    case DtpOff => Low(env.dtpoff(r.sym) + r.addend)
    case TpOff => Low(env.tpoff(r.sym) + r.addend)
  }

  /** The word at `p` after all of them. */
  function Loaded(env: Env, relas: seq<Rela>, p: nat, w: int): int {
    if relas == [] then w
    else
      var n := |relas| - 1;
      var before := Loaded(env, relas[..n], p, w);
      if relas[n].offset == p then Applied(env, relas[n], before) else before
  }

  /** The relocs for `n` bytes at `p`. */
  function Within(relas: seq<Rela>, p: nat, n: nat): seq<Rela> {
    if relas == [] then []
    else
      var k := |relas| - 1;
      Within(relas[..k], p, n) + if p <= relas[k].offset < p + n then [relas[k]] else []
  }

  lemma WithinOne(relas: seq<Rela>, r: Rela, p: nat, n: nat)
    ensures Within(relas + [r], p, n) == Within(relas, p, n) + if p <= r.offset < p + n then [r] else []
    ensures Within([], p, n) == []
  {
    assert (relas + [r])[..|relas|] == relas;
  }

  lemma {:induction false} WithinMore(relas: seq<Rela>, more: seq<Rela>, p: nat, n: nat)
    ensures Within(relas + more, p, n) == Within(relas, p, n) + Within(more, p, n)
  {
    hide Within;
    if more == [] {
      assert relas + more == relas;
      WithinOne([], Rela(0, 0, Relative, 0), p, n);
      assert Within(relas, p, n) + [] == Within(relas, p, n);
    } else {
      var front, r := more[..|more| - 1], more[|more| - 1];
      WithinMore(relas, front, p, n);
      WithinOne(relas + front, r, p, n);
      WithinOne(front, r, p, n);
      assert relas + more == relas + front + [r] && more == front + [r];
    }
  }

  lemma {:induction false} AllWithin(relas: seq<Rela>, p: nat, n: nat)
    requires forall i :: 0 <= i < |relas| ==> p <= relas[i].offset < p + n
    ensures Within(relas, p, n) == relas
  {
    if relas != [] {
      var k := |relas| - 1;
      AllWithin(relas[..k], p, n);
      assert relas[..k] + [relas[k]] == relas;
    }
  }

  lemma {:induction false} NoneWithin(relas: seq<Rela>, p: nat, n: nat)
    requires forall i :: 0 <= i < |relas| ==> relas[i].offset < p || p + n <= relas[i].offset
    ensures Within(relas, p, n) == []
  {
    if relas != [] {
      var k := |relas| - 1;
      NoneWithin(relas[..k], p, n);
    }
  }

  /** Relocs for other places do not matter. */
  lemma {:induction false} LoadedWithin(env: Env, relas: seq<Rela>, p: nat, n: nat, q: nat, w: int)
    requires p <= q < p + n
    ensures Loaded(env, Within(relas, p, n), q, w) == Loaded(env, relas, q, w)
  {
    if relas != [] {
      var k := |relas| - 1;
      LoadedWithin(env, relas[..k], p, n, q, w);
      var front := Within(relas[..k], p, n);
      assert (front + [relas[k]])[..|front|] == front && front + [] == front;
    }
  }

  lemma LoadedOne(env: Env, r: Rela, p: nat, w: int)
    ensures Loaded(env, [r], p, w) == if r.offset == p then Applied(env, r, w) else w
  {
    assert [r][..0] == [];
  }

  lemma LoadedTwo(env: Env, q: Rela, r: Rela, p: nat, w: int)
    ensures Loaded(env, [q, r], p, w) == if r.offset == p then Applied(env, r, Loaded(env, [q], p, w)) else Loaded(env, [q], p, w)
  {
    assert [q, r][..1] == [q];
  }

  /** The symbol may be bound elsewhere at run time. */
  predicate Preemptible(pic: bool, symbolic: bool, sym: Symbol) {
    sym.global && sym.dynindx != -1 && !(pic && symbolic && sym.defRegular)
  }

  /** The symbol of a thread-local reloc. */
  function TlsSymbol(sym: Symbol): nat {
    if sym.global && sym.dynindx != -1 then sym.dynindx else 0
  }

  /** What the program finds in a slot at run time, given the relocs `own` for it.  A preemptible symbol has one reloc,
      which names it, and its address is what is read; one defined here, in code that can move, moves along with it; a
      general-dynamic pair is module and offset; an initial-exec word is the offset from the thread pointer, beyond
      what the word said when the reloc was made. */
  ghost predicate SlotMeans(pic: bool, symbolic: bool, sym: Symbol, slot: Slot, word: nat, own: seq<Rela>) {
    && (forall i :: 0 <= i < |own| ==> slot.offset <= own[i].offset && own[i].offset + 4 <= slot.offset + Width(slot.typ))
    && match slot.typ
       case Unknown => own == []
       case Normal =>
         if Preemptible(pic, symbolic, sym) then
           |own| == 1 && own[0].sym == sym.dynindx && forall env, w :: Loaded(env, own, slot.offset, w) == Low(env.addr(sym.dynindx))
         else if pic && sym.global && sym.defRegular then
           |own| == 1 && forall env, w :: Loaded(env, own, slot.offset, w) == Low(w + env.base)
         else own == []
       case TlsGd =>
         var first, second := slot.offset, slot.offset + 4;
         && |own| == 2
         && (forall env, w :: Loaded(env, own, first, w) == Low(env.modul(TlsSymbol(sym))))
         && (forall env, w :: Loaded(env, own, second, w) == Low(env.dtpoff(TlsSymbol(sym))))
       case TlsIe => |own| == 1 && forall env, w :: Loaded(env, own, slot.offset, w) == Low(env.tpoff(TlsSymbol(sym)) + word)
       case TlsLe => |own| == 1 && forall env, w :: Loaded(env, own, slot.offset, w) == Low(env.dtpoff(TlsSymbol(sym)))
  }

  lemma NormalMeans(pic: bool, symbolic: bool, sym: Symbol, e: GotEntry, slot: Slot, word: nat)
    requires slot.typ == e.typ == Normal && slot.offset == e.offset && e.existing == NoTls
    ensures SlotMeans(pic, symbolic, sym, slot, word, RelasFor(pic, symbolic, sym, e, word))
  {
    hide Loaded, Low;
    var own := RelasFor(pic, symbolic, sym, e, word);
    if own != [] {
      forall env, w ensures Loaded(env, own, slot.offset, w) == Applied(env, own[0], w) {
        assert own == [own[0]];
        LoadedOne(env, own[0], slot.offset, w);
      }
    }
  }

  lemma PairMeans(pic: bool, symbolic: bool, sym: Symbol, e: GotEntry, slot: Slot, word: nat)
    requires slot.typ == e.typ == TlsGd && slot.offset == e.offset && e.existing == ModAndOff
    ensures SlotMeans(pic, symbolic, sym, slot, word, RelasFor(pic, symbolic, sym, e, word))
  {
    hide Loaded, Low;
    var own, first, second := RelasFor(pic, symbolic, sym, e, word), slot.offset, slot.offset + 4;
    assert own == [own[0], own[1]];
    forall env, w ensures Loaded(env, own, first, w) == Applied(env, own[0], w) && Loaded(env, own, second, w) == Applied(env, own[1], w) {
      LoadedOne(env, own[0], first, w);
      LoadedOne(env, own[0], second, w);
      LoadedTwo(env, own[0], own[1], first, w);
      LoadedTwo(env, own[0], own[1], second, w);
    }
  }

  lemma OffsetMeans(pic: bool, symbolic: bool, sym: Symbol, e: GotEntry, slot: Slot, word: nat)
    requires slot.typ == e.typ && (e.typ == TlsIe || e.typ == TlsLe) && slot.offset == e.offset && e.existing == Off
    ensures SlotMeans(pic, symbolic, sym, slot, word, RelasFor(pic, symbolic, sym, e, word))
  {
    hide Loaded, Low;
    var own := RelasFor(pic, symbolic, sym, e, word);
    assert own == [own[0]];
    forall env, w ensures Loaded(env, own, slot.offset, w) == Applied(env, own[0], w) {
      LoadedOne(env, own[0], slot.offset, w);
    }
  }

  /** The relocs written for an entry make of its slot what the program should find there. */
  lemma RelasMean(pic: bool, symbolic: bool, sym: Symbol, e: GotEntry, slot: Slot, word: nat)
    requires slot.typ == e.typ != Unknown && slot.offset == e.offset && e.existing == ExistingFor(e.typ)
    ensures SlotMeans(pic, symbolic, sym, slot, word, RelasFor(pic, symbolic, sym, e, word))
  {
    hide SlotMeans, RelasFor;
    match e.typ
    case Normal => NormalMeans(pic, symbolic, sym, e, slot, word);
    case TlsGd => PairMeans(pic, symbolic, sym, e, slot, word);
    case _ => OffsetMeans(pic, symbolic, sym, e, slot, word);
  }

  // ----- the allocation log -----

  /** One successful allocation. */
  datatype Slot = Slot(symbol: nat, typ: GotType, offset: nat, reserve: nat)

  /** Where the first `k` slots end. */
  function EndOf(log: seq<Slot>, start: nat, k: nat): nat
    requires k <= |log|
  {
    if k == 0 then start else EndOf(log, start, k - 1) + Width(log[k - 1].typ)
  }

  /** The slots follow each other without gap or overlap, from `start` to `size`. */
  predicate Tiles(log: seq<Slot>, start: nat, size: nat) {
    size == EndOf(log, start, |log|) && forall j :: 0 <= j < |log| ==> log[j].offset == EndOf(log, start, j)
  }

  lemma {:induction false} EndGrows(log: seq<Slot>, start: nat, i: nat, j: nat)
    requires i <= j <= |log|
    ensures EndOf(log, start, i) <= EndOf(log, start, j)
    decreases j
  {
    if i < j {
      EndGrows(log, start, i, j - 1);
    }
  }

  lemma {:induction false} EndSame(log: seq<Slot>, more: Slot, start: nat, k: nat)
    requires k <= |log|
    ensures EndOf(log + [more], start, k) == EndOf(log, start, k)
  {
    if k > 0 {
      EndSame(log, more, start, k - 1);
    }
  }

  lemma EndStep(log: seq<Slot>, start: nat, k: nat)
    requires k < |log|
    ensures EndOf(log, start, k + 1) == EndOf(log, start, k) + Width(log[k].typ)
    ensures EndOf(log, start, 0) == start
  {
  }

  lemma TileMore(log: seq<Slot>, start: nat, size: nat, more: Slot)
    requires Tiles(log, start, size) && more.offset == size
    ensures Tiles(log + [more], start, size + Width(more.typ))
  {
    hide EndOf;
    forall j | 0 <= j <= |log| ensures (log + [more])[j].offset == EndOf(log + [more], start, j) {
      EndSame(log, more, start, j);
    }
    EndSame(log, more, start, |log|);
    EndStep(log + [more], start, |log|);
  }

  /** Slot ranges are pairwise disjoint. */
  lemma SlotsDisjoint(log: seq<Slot>, start: nat, size: nat, i: nat, j: nat)
    requires Tiles(log, start, size) && i < j < |log|
    ensures log[i].offset + Width(log[i].typ) <= log[j].offset
    ensures start <= log[i].offset && log[j].offset + Width(log[j].typ) <= size
  {
    hide EndOf;
    SlotInside(log, start, size, i);
    SlotInside(log, start, size, j);
    EndStep(log, start, i);
    EndGrows(log, start, i + 1, j);
  }

  lemma SlotInside(log: seq<Slot>, start: nat, size: nat, j: nat)
    requires Tiles(log, start, size) && j < |log|
    ensures start <= log[j].offset && log[j].offset + Width(log[j].typ) <= size
  {
    hide EndOf;
    EndStep(log, start, j);
    EndGrows(log, start, 0, j);
    EndGrows(log, start, j + 1, |log|);
  }

  lemma EndNone(log: seq<Slot>, start: nat)
    ensures EndOf(log, start, 0) == start
  {
  }

  /** Every byte of the growth belongs to a slot (and, the slots being disjoint, to one only). */
  lemma {:induction false} ByteHasSlot(log: seq<Slot>, start: nat, size: nat, k: nat, b: nat) returns (j: nat)
    requires Tiles(log, start, size) && k <= |log| && start <= b < EndOf(log, start, k)
    ensures j < k && log[j].offset <= b < log[j].offset + Width(log[j].typ)
  {
    hide EndOf;
    if k == 0 {
      EndNone(log, start);
      assert false;
    }
    EndStep(log, start, k - 1);
    if b < EndOf(log, start, k - 1) {
      j := ByteHasSlot(log, start, size, k - 1, b);
    } else {
      j := k - 1;
    }
  }

  // ----- reservations still open -----

  function Pending(log: seq<Slot>, done: seq<bool>, k: nat): nat
    requires k <= |log| == |done|
  {
    if k == 0 then 0 else Pending(log, done, k - 1) + if done[k - 1] then 0 else log[k - 1].reserve
  }

  lemma {:induction false} PendingSame(log: seq<Slot>, done: seq<bool>, more: Slot, k: nat)
    requires k <= |log| == |done|
    ensures Pending(log + [more], done + [false], k) == Pending(log, done, k)
  {
    if k > 0 {
      PendingSame(log, done, more, k - 1);
    }
  }

  lemma PendingAppend(log: seq<Slot>, done: seq<bool>, more: Slot)
    requires |log| == |done|
    ensures Pending(log + [more], done + [false], |log| + 1) == Pending(log, done, |log|) + more.reserve
  {
    PendingSame(log, done, more, |log|);
  }

  lemma {:induction false} PendingBelow(log: seq<Slot>, done: seq<bool>, j: nat, k: nat)
    requires k <= j < |log| == |done|
    ensures Pending(log, done[j := true], k) == Pending(log, done, k)
  {
    if k > 0 {
      PendingBelow(log, done, j, k - 1);
    }
  }

  lemma {:induction false} PendingDrops(log: seq<Slot>, done: seq<bool>, j: nat, k: nat)
    requires j < k <= |log| == |done| && !done[j]
    ensures Pending(log, done, k) == Pending(log, done[j := true], k) + log[j].reserve
  {
    if j == k - 1 {
      PendingBelow(log, done, j, k - 1);
    } else {
      PendingDrops(log, done, j, k - 1);
    }
  }

  // ----- the lists against the log -----

  /** The entry a slot was allocated for; `value` is what has been stored for it. */
  predicate EntryOf(list: seq<GotEntry>, slot: Slot, done: bool, value: Option<int>) {
    var k := Find(list, slot.typ, 0);
    && k.Some? && list[k.value].offset == slot.offset && list[k.value].created == done
    && list[k.value].existing == ExistingFor(slot.typ) && slot.typ != Unknown
    && (value.Some? ==> list[k.value].processed)
  }

  predicate SlotOk(symbols: seq<Symbol>, lists: seq<seq<GotEntry>>, pic: bool, slot: Slot, done: bool, value: Option<int>) {
    && slot.symbol < |lists| == |symbols| && slot.reserve == Reserve(pic, symbols[slot.symbol], slot.typ)
    && EntryOf(lists[slot.symbol], slot, done, value)
  }

  ghost predicate HasSlot(log: seq<Slot>, s: nat, t: GotType) {
    exists j :: 0 <= j < |log| && log[j].symbol == s && log[j].typ == t
  }

  /** Each slot has its entry, and each entry its slot. */
  ghost predicate Agree(symbols: seq<Symbol>, lists: seq<seq<GotEntry>>, pic: bool, log: seq<Slot>, done: seq<bool>,
                        values: seq<Option<int>>)
  {
    && |lists| == |symbols| && |done| == |log| == |values|
    && (forall s :: 0 <= s < |lists| ==> OneEach(lists[s]))
    && (forall j :: 0 <= j < |log| ==> SlotOk(symbols, lists, pic, log[j], done[j], values[j]))
    && (forall s, k :: 0 <= s < |lists| && 0 <= k < |lists[s]| ==> HasSlot(log, s, lists[s][k].typ))
  }

  /** The position of a type in a list with one entry of each. */
  lemma FindUnique(list: seq<GotEntry>, k: nat)
    requires OneEach(list) && k < |list|
    ensures Find(list, list[k].typ, 0) == Some(k)
  {
  }

  lemma FindAppend(list: seq<GotEntry>, e: GotEntry, t: GotType)
    requires OneEach(list) && Find(list, e.typ, 0).None?
    ensures OneEach(list + [e])
    ensures Find(list + [e], t, 0) == if t == e.typ then Some(|list|) else Find(list, t, 0)
  {
    var r := Find(list + [e], t, 0);
    var q := Find(list, t, 0);
    if t == e.typ {
      assert (list + [e])[|list|].typ == t;
    } else if q.Some? {
      assert (list + [e])[q.value].typ == t;
    }
  }

  lemma FindUpdate(list: seq<GotEntry>, k: nat, e: GotEntry, t: GotType)
    requires OneEach(list) && k < |list| && e.typ == list[k].typ
    ensures OneEach(list[k := e]) && Find(list[k := e], t, 0) == Find(list, t, 0)
  {
    var r, q, after := Find(list[k := e], t, 0), Find(list, t, 0), list[k := e];
    assert forall i :: 0 <= i < |list| ==> after[i].typ == list[i].typ;
  }

  /** A new entry and its slot. */
  lemma AgreeAdd(symbols: seq<Symbol>, lists: seq<seq<GotEntry>>, pic: bool, log: seq<Slot>, done: seq<bool>,
                 values: seq<Option<int>>, s: nat, e: GotEntry, slot: Slot)
    requires Agree(symbols, lists, pic, log, done, values) && s < |lists| && Find(lists[s], e.typ, 0).None?
    requires e.typ != Unknown && e.existing == ExistingFor(e.typ) && !e.created
    requires slot == Slot(s, e.typ, e.offset, Reserve(pic, symbols[s], e.typ))
    ensures Agree(symbols, lists[s := lists[s] + [e]], pic, log + [slot], done + [false], values + [None])
  {
    hide Find, Reserve, OneEach;
    var after, log' := lists[s := lists[s] + [e]], log + [slot];
    FindAppend(lists[s], e, e.typ);
    forall j | 0 <= j < |log'| ensures SlotOk(symbols, after, pic, log'[j], (done + [false])[j], (values + [None])[j]) {
      if j < |log| {
        assert SlotOk(symbols, lists, pic, log[j], done[j], values[j]);
        FindAppend(lists[s], e, log[j].typ);
      }
    }
    forall t, k | 0 <= t < |after| && 0 <= k < |after[t]| ensures HasSlot(log', t, after[t][k].typ) {
      if t == s && k == |lists[s]| {
        assert log'[|log|] == slot;
      } else {
        assert HasSlot(log, t, lists[t][k].typ);
        var j :| 0 <= j < |log| && log[j].symbol == t && log[j].typ == lists[t][k].typ;
        assert log'[j] == log[j];
      }
    }
  }

  /** A change of the flags of entry `k` of symbol `s`, whose slot is `j`. */
  lemma AgreeUpdate(symbols: seq<Symbol>, lists: seq<seq<GotEntry>>, pic: bool, log: seq<Slot>, done: seq<bool>,
                    values: seq<Option<int>>, start: nat, size: nat, s: nat, k: nat, e: GotEntry, j: nat, value: Option<int>)
    requires Tiles(log, start, size) && Agree(symbols, lists, pic, log, done, values) && s < |lists| && k < |lists[s]| && j < |log|
    requires log[j].symbol == s && log[j].typ == lists[s][k].typ
    requires e == lists[s][k].(processed := e.processed, created := e.created) && (value.Some? ==> e.processed)
    ensures Agree(symbols, lists[s := lists[s][k := e]], pic, log, done[j := e.created], values[j := value])
  {
    hide Find, Reserve, OneEach, Tiles;
    var after, done', values' := lists[s := lists[s][k := e]], done[j := e.created], values[j := value];
    FindUnique(lists[s], k);
    FindUpdate(lists[s], k, e, e.typ);
    assert SlotOk(symbols, lists, pic, log[j], done[j], values[j]);
    forall i | 0 <= i < |log| ensures SlotOk(symbols, after, pic, log[i], done'[i], values'[i]) {
      assert SlotOk(symbols, lists, pic, log[i], done[i], values[i]);
      FindUpdate(lists[s], k, e, log[i].typ);
      if i < j {
        SlotsDisjoint(log, start, size, i, j);
      } else if j < i {
        SlotsDisjoint(log, start, size, j, i);
      }
    }
    forall t, i | 0 <= t < |after| && 0 <= i < |after[t]| ensures HasSlot(log, t, after[t][i].typ) {
      assert HasSlot(log, t, lists[t][i].typ);
    }
  }

  lemma AgreeRecorded(symbols: seq<Symbol>, lists: seq<seq<GotEntry>>, pic: bool, log: seq<Slot>, done: seq<bool>,
                      values: seq<Option<int>>, s: nat, d: nat)
    requires Agree(symbols, lists, pic, log, done, values) && s < |symbols|
    ensures Agree(symbols[s := symbols[s].(dynindx := d)], lists, pic, log, done, values)
  {
    hide OneEach, EntryOf, HasSlot;
    var after := symbols[s := symbols[s].(dynindx := d)];
    forall j | 0 <= j < |log| ensures SlotOk(after, lists, pic, log[j], done[j], values[j]) {
      assert SlotOk(symbols, lists, pic, log[j], done[j], values[j]);
    }
  }

  /** The slot of entry `k` of symbol `s`. */
  lemma SlotOfEntry(symbols: seq<Symbol>, lists: seq<seq<GotEntry>>, pic: bool, log: seq<Slot>, done: seq<bool>,
                    values: seq<Option<int>>, s: nat, k: nat) returns (j: nat)
    requires Agree(symbols, lists, pic, log, done, values) && s < |lists| && k < |lists[s]|
    ensures j < |log| && log[j].symbol == s && log[j].typ == lists[s][k].typ && log[j].offset == lists[s][k].offset
    ensures done[j] == lists[s][k].created && (values[j].Some? ==> lists[s][k].processed)
    ensures log[j].reserve == Reserve(pic, symbols[s], lists[s][k].typ)
    ensures lists[s][k].existing == ExistingFor(lists[s][k].typ) && lists[s][k].typ != Unknown
  {
    hide Find, Reserve;
    assert HasSlot(log, s, lists[s][k].typ);
    j :| 0 <= j < |log| && log[j].symbol == s && log[j].typ == lists[s][k].typ;
    assert SlotOk(symbols, lists, pic, log[j], done[j], values[j]);
    FindUnique(lists[s], k);
  }

  // ----- the relocs against the log -----

  /** The relocs made for a slot, and the word it held then. */
  datatype Made = Made(word: nat, relas: seq<Rela>)

  ghost predicate SlotLoads(pic: bool, symbolic: bool, dynamic: bool, symbols: seq<Symbol>, slot: Slot, done: bool, made: Made, relas: seq<Rela>) {
    && slot.symbol < |symbols| && made.relas == Within(relas, slot.offset, Width(slot.typ))
    && if done && dynamic then SlotMeans(pic, symbolic, symbols[slot.symbol], slot, made.word, made.relas) else made.relas == []
  }

  /** Every slot that has been dealt with means what it should at run time. */
  ghost predicate Loads(pic: bool, symbolic: bool, dynamic: bool, symbols: seq<Symbol>, log: seq<Slot>, done: seq<bool>, made: seq<Made>,
                        relas: seq<Rela>)
  {
    && |done| == |log| == |made|
    && forall j :: 0 <= j < |log| ==> SlotLoads(pic, symbolic, dynamic, symbols, log[j], done[j], made[j], relas)
  }

  predicate NoneDone(done: seq<bool>) {
    forall j :: 0 <= j < |done| ==> !done[j]
  }

  lemma LoadsAppend(pic: bool, symbolic: bool, dynamic: bool, symbols: seq<Symbol>, log: seq<Slot>, done: seq<bool>, made: seq<Made>, slot: Slot)
    requires Loads(pic, symbolic, dynamic, symbols, log, done, made, []) && NoneDone(done) && slot.symbol < |symbols|
    ensures Loads(pic, symbolic, dynamic, symbols, log + [slot], done + [false], made + [Made(0, [])], []) && NoneDone(done + [false])
  {
    hide SlotMeans;
  }

  lemma LoadsRecorded(pic: bool, symbolic: bool, dynamic: bool, symbols: seq<Symbol>, log: seq<Slot>, done: seq<bool>, made: seq<Made>,
                      relas: seq<Rela>, symbols': seq<Symbol>)
    requires Loads(pic, symbolic, dynamic, symbols, log, done, made, relas) && NoneDone(done) && |symbols'| == |symbols|
    ensures Loads(pic, symbolic, dynamic, symbols', log, done, made, relas)
  {
    hide SlotMeans, Within;
  }

  /** The relocs of one slot are written. */
  lemma LoadsCreate(pic: bool, symbolic: bool, dynamic: bool, symbols: seq<Symbol>, log: seq<Slot>, done: seq<bool>, made: seq<Made>,
                    relas: seq<Rela>, start: nat, size: nat, j: nat, word: nat, more: seq<Rela>)
    requires Loads(pic, symbolic, dynamic, symbols, log, done, made, relas) && Tiles(log, start, size) && j < |log| && !done[j]
    requires if dynamic then SlotMeans(pic, symbolic, symbols[log[j].symbol], log[j], word, more) else more == []
    ensures Loads(pic, symbolic, dynamic, symbols, log, done[j := true], made[j := Made(word, more)], relas + more)
  {
    hide Loaded, Within, Tiles;
    var done', made' := done[j := true], made[j := Made(word, more)];
    forall i | 0 <= i < |log| ensures SlotLoads(pic, symbolic, dynamic, symbols, log[i], done'[i], made'[i], relas + more) {
      var p, n := log[i].offset, Width(log[i].typ);
      assert SlotLoads(pic, symbolic, dynamic, symbols, log[i], done[i], made[i], relas);
      WithinMore(relas, more, p, n);
      if i == j {
        AllWithin(more, p, n);
        assert [] + more == more;
      } else {
        if i < j {
          SlotsDisjoint(log, start, size, i, j);
        } else {
          SlotsDisjoint(log, start, size, j, i);
        }
        NoneWithin(more, p, n);
        assert made[i].relas + [] == made[i].relas;
      }
    }
  }

  /** All entries of a symbol have been dealt with, so all its slots have. */
  lemma CreatedIsDone(symbols: seq<Symbol>, lists: seq<seq<GotEntry>>, pic: bool, log: seq<Slot>, done: seq<bool>, values: seq<Option<int>>,
                      s: nat, j: nat)
    requires Agree(symbols, lists, pic, log, done, values) && s < |lists| && j < |log| && log[j].symbol == s
    requires forall k :: 0 <= k < |lists[s]| ==> lists[s][k].created
    ensures done[j]
  {
    assert SlotOk(symbols, lists, pic, log[j], done[j], values[j]);
  }

  // ----- stored values -----

  /** The word of a slot that a value is stored in: of a general-dynamic pair, the second. */
  function ValueAt(typ: GotType, offset: nat): nat {
    if typ == TlsGd then offset + 4 else offset
  }

  function Word(big: bool, v: int): (r: seq<Byte>)
    ensures |r| == 4
  {
    Put(big, v % TWO32, 4)
  }

  predicate Holds(contents: seq<Byte>, big: bool, slot: Slot, value: Option<int>) {
    value.Some? ==> At(contents, ValueAt(slot.typ, slot.offset), Word(big, value.value))
  }

  /** Every value stored so far is still there. */
  predicate Stored(contents: seq<Byte>, big: bool, log: seq<Slot>, values: seq<Option<int>>) {
    |values| == |log| && forall j :: 0 <= j < |log| ==> Holds(contents, big, log[j], values[j])
  }

  function Put32(contents: seq<Byte>, p: nat, word: seq<Byte>): seq<Byte>
    requires |word| == 4 && p + 4 <= |contents|
  {
    contents[..p] + word + contents[p + 4..]
  }

  lemma PutKeeps(contents: seq<Byte>, p: nat, word: seq<Byte>, q: nat, other: seq<Byte>)
    requires |word| == 4 && p + 4 <= |contents| && At(contents, q, other) && (q + |other| <= p || p + 4 <= q)
    ensures At(Put32(contents, p, word), q, other)
  {
    var after := Put32(contents, p, word);
    forall i | 0 <= i < |other| ensures after[q + i] == other[i] {
      assert contents[q..q + |other|][i] == other[i];
    }
  }

  /** Storing into one slot leaves the values of all others alone. */
  lemma StoredMore(contents: seq<Byte>, big: bool, log: seq<Slot>, values: seq<Option<int>>, start: nat, size: nat, j: nat, v: int)
    requires Stored(contents, big, log, values) && Tiles(log, start, size) && |contents| == size && j < |log|
    ensures ValueAt(log[j].typ, log[j].offset) + 4 <= size
    ensures Stored(Put32(contents, ValueAt(log[j].typ, log[j].offset), Word(big, v)), big, log, values[j := Some(v)])
  {
    hide Tiles, At, Word;
    SlotInside(log, start, size, j);
    var p, word := ValueAt(log[j].typ, log[j].offset), Word(big, v);
    var after := Put32(contents, p, word);
    PutHolds(contents, p, word);
    forall i | 0 <= i < |log| ensures Holds(after, big, log[i], values[j := Some(v)][i]) {
      assert Holds(contents, big, log[i], values[i]);
      if i < j {
        SlotsDisjoint(log, start, size, i, j);
      } else if j < i {
        SlotsDisjoint(log, start, size, j, i);
      }
      if i != j && values[i].Some? {
        PutKeeps(contents, p, word, ValueAt(log[i].typ, log[i].offset), Word(big, values[i].value));
      }
    }
  }

  lemma StoredAppend(contents: seq<Byte>, big: bool, log: seq<Slot>, values: seq<Option<int>>, slot: Slot)
    requires Stored(contents, big, log, values)
    ensures Stored(contents, big, log + [slot], values + [None])
  {
    hide At, Word;
    forall j | 0 <= j <= |log| ensures Holds(contents, big, (log + [slot])[j], (values + [None])[j]) {
      assert j < |log| ==> Holds(contents, big, log[j], values[j]);
    }
  }

  lemma PutHolds(contents: seq<Byte>, p: nat, word: seq<Byte>)
    requires |word| == 4 && p + 4 <= |contents|
    ensures At(Put32(contents, p, word), p, word)
  {
  }

  // ----- the table -----

  /** What a reloc knows about its symbol when values are filled in: its address and that of the thread-local section
      in the output, and, for a local symbol, the address the reloc itself was given. */
  datatype Target = Target(refsLocal: bool, undefWeak: bool, address: int, tlsVma: int, normal: int)

  /** What the program makes of a settled word `w`: added to the start of the thread-local block (which the thread
      pointer of a static program precedes by the control block), or taken as it is, it is the address of the symbol. */
  predicate LeadsTo(dynamic: bool, sym: Symbol, t: GotType, to: Target, w: nat) {
    match t
    case TlsGd => (to.tlsVma + w - to.address) % TWO32 == 0
    case TlsIe =>
      var threadPointer := if dynamic then to.tlsVma else to.tlsVma - TCB_SIZE;
      (threadPointer + w - to.address) % TWO32 == 0
    case Normal => w == (if sym.global then to.address else to.normal) % TWO32
    case _ => false
  }

  lemma WordReads(big: bool, v: int, other: int)
    requires other + v == 0
    ensures Get(big, Word(big, v)) == v % TWO32 && (other + Get(big, Word(big, v))) % TWO32 == 0
  {
    GetPut(big, v % TWO32, 4);
    Pow256Values();
  }

  lemma WordIsThere(contents: seq<Byte>, p: nat, word: seq<Byte>)
    requires |word| == 4 && p + 4 <= |contents|
    ensures |Put32(contents, p, word)| == |contents| && Put32(contents, p, word)[p..p + 4] == word
  {
  }

  class Got {
    const pic: bool
    const symbolic: bool
    const dynamic: bool
    const big: bool

    var symbols: seq<Symbol>
    var lists: seq<seq<GotEntry>>
    /** sgot->size and srelgot->size, in bytes. */
    var size: nat
    var relSize: nat
    /** sgot->contents, once the sections have been sized. */
    var sized: bool
    var contents: seq<Byte>
    /** The relocs written into srelgot. */
    var relas: seq<Rela>

    ghost const start: nat
    ghost var log: seq<Slot>
    ghost var done: seq<bool>
    ghost var values: seq<Option<int>>
    ghost var made: seq<Made>

    ghost predicate Valid()
      reads this
    {
      && |lists| == |symbols| && |done| == |log| == |values|
      && Agree(symbols, lists, pic, log, done, values) && Tiles(log, start, size)
      && RELA_SIZE * (|relas| + Pending(log, done, |log|)) <= relSize
      && (if sized then |contents| == size else contents == [] && forall j :: 0 <= j < |values| ==> values[j].None?)
      && Loads(pic, symbolic, dynamic, symbols, log, done, made, relas) && (!sized ==> relas == [] && NoneDone(done))
      && Stored(contents, big, log, values)
    }

    constructor (pic: bool, symbolic: bool, dynamic: bool, big: bool, symbols: seq<Symbol>, size: nat, relSize: nat)
      ensures Valid() && !sized && this.symbols == symbols && this.size == size && this.relSize == relSize && log == []
    {
      this.pic, this.symbolic, this.dynamic, this.big := pic, symbolic, dynamic, big;
      this.symbols, this.lists, this.size, this.relSize := symbols, seq(|symbols|, _ => []), size, relSize;
      sized, contents, relas := false, [], [];
      start, log, done, values, made := size, [], [], [], [];
    }

    /** ADD_SYMBOL_REF_SEC_AND_RELOC, all but the growth of the table itself: `recorded` is the dynamic index
        the symbol gets if it needs one, None when that fails. */
    method Refer(s: nat, needsRela: bool, recorded: Option<nat>) returns (ok: bool)
      requires Valid() && !sized && s < |symbols|
      modifies this`relSize, this`symbols
      ensures Valid() && relSize == old(relSize) + (if needsRela then RELA_SIZE else 0)
      ensures |symbols| == |old(symbols)| && symbols[s].global == old(symbols)[s].global
      ensures forall t :: 0 <= t < |symbols| && t != s ==> symbols[t] == old(symbols)[t]
      ensures ok ==> !NeedsIndex(symbols[s])
      ensures old(!NeedsIndex(symbols[s])) ==> ok && symbols == old(symbols)
      ensures old(NeedsIndex(symbols[s])) ==>
                ok == recorded.Some? && symbols == if ok then old(symbols)[s := old(symbols)[s].(dynindx := recorded.value)] else old(symbols)
    {
      hide Agree, Tiles, Stored, Pending, Loads, NoneDone;
      ok := true;
      if needsRela {
        relSize := relSize + RELA_SIZE;
      }
      if symbols[s].global && symbols[s].dynindx == -1 && !symbols[s].forcedLocal {
        if recorded.None? {
          ok := false;
        } else {
          AgreeRecorded(symbols, lists, pic, log, done, values, s, recorded.value);
          LoadsRecorded(pic, symbolic, dynamic, symbols, log, done, made, relas, symbols[s := symbols[s].(dynindx := recorded.value)]);
          symbols := symbols[s := symbols[s].(dynindx := recorded.value)];
        }
      }
    }

    /** A slot at the end of the table, for which the reloc space has already been added. */
    method Append(s: nat, t: GotType, width: nat, existing: Existing)
      requires width == Width(t) && existing == ExistingFor(t)
      requires Valid() && !sized && s < |symbols| && t != Unknown && Find(lists[s], t, 0).None?
      requires RELA_SIZE * (|relas| + Pending(log, done, |log|) + Reserve(pic, symbols[s], t)) <= relSize
      modifies this`lists, this`size, this`log, this`done, this`values, this`made
      ensures Valid() && size == old(size) + Width(t)
      ensures lists == old(lists)[s := old(lists)[s] + [GotEntry(t, old(size), false, false, ExistingFor(t))]]
      ensures log == old(log) + [Slot(s, t, old(size), Reserve(pic, symbols[s], t))]
    {
      hide Agree, Tiles, OneEach, Find, Reserve, Loads, NoneDone, Stored, Pending;
      var e := GotEntry(t, size, false, false, existing);
      ghost var slot := Slot(s, t, size, Reserve(pic, symbols[s], t));
      AgreeAdd(symbols, lists, pic, log, done, values, s, e, slot);
      TileMore(log, start, size, slot);
      PendingAppend(log, done, slot);
      StoredAppend(contents, big, log, values, slot);
      LoadsAppend(pic, symbolic, dynamic, symbols, log, done, made, slot);
      lists := lists[s := lists[s] + [e]];
      size := size + width;
      log, done, values, made := log + [slot], done + [false], values + [None], made + [Made(0, [])];
    }

    /** arc_fill_got_info_for_reloc */
    method Fill(s: nat, t: GotType, recorded: Option<nat>) returns (ok: bool)
      requires Valid() && !sized && s < |symbols|
      modifies this
      ensures Valid() && !sized && relas == old(relas) && |symbols| == |old(symbols)|
      ensures Find(old(lists)[s], t, 0).Some? ==>
                ok && lists == old(lists) && size == old(size) && relSize == old(relSize) && log == old(log) && symbols == old(symbols)
      ensures ok && Find(old(lists)[s], t, 0).None? ==>
                && t != Unknown && size == old(size) + Width(t)
                && relSize == old(relSize) + RELA_SIZE * Reserve(pic, old(symbols)[s], t)
                && lists == old(lists)[s := old(lists)[s] + [GotEntry(t, old(size), false, false, ExistingFor(t))]]
      ensures !ok ==> lists == old(lists) && size == old(size) && log == old(log)
      ensures t == Unknown && Find(old(lists)[s], t, 0).None? ==> !ok && relSize == old(relSize)
      ensures t != Unknown && Find(old(lists)[s], t, 0).None? ==> (ok <==> (NeedsIndex(old(symbols)[s]) ==> recorded.Some?))
      ensures ok && Find(old(lists)[s], t, 0).None? ==>
                symbols == if NeedsIndex(old(symbols)[s]) then old(symbols)[s := old(symbols)[s].(dynindx := recorded.value)] else old(symbols)
    {
      hide Agree, Tiles, OneEach, Find, Stored, Pending, Loads, NoneDone;
      ok := true;
      if Find(lists[s], t, 0).Some? {
        return;
      }
      var width, existing := 4, Off;
      match t {
        case Unknown =>
          ok := false;
          return;
        case Normal =>
          ok := Refer(s, pic || symbols[s].global, recorded);
          existing := NoTls;
        case TlsGd =>
          ok := Refer(s, true, recorded);
          if ok {
            ok := Refer(s, true, recorded);
          }
          width, existing := width + 4, ModAndOff;
        case TlsIe | TlsLe =>
          ok := Refer(s, true, recorded);
      }
      if ok {
        Append(s, t, width, existing);
      }
    }

    /** The sections are allocated, zeroed. */
    method Size()
      requires Valid() && !sized
      modifies this`sized, this`contents
      ensures Valid() && sized && contents == ByteSeq.Fill(0, size)
    {
      hide Agree, Tiles, Pending, Loads;
      sized, contents := true, ByteSeq.Fill(0, size);
    }

    /** The value relocate_fix_got_relocs_for_got_info stores, if it stores one. */
    function ValueFor(sym: Symbol, t: GotType, to: Target): Option<int> {
      match t
      case TlsGd => Some(to.address - to.tlsVma)
      case TlsIe => Some(to.address - to.tlsVma + if dynamic then 0 else TCB_SIZE)
      case Normal => if sym.global then if to.undefWeak then None else Some(to.address) else Some(to.normal)
      case _ => None
    }

    /** There is a value unless the symbol is weak and undefined, and it leads to the symbol. */
    lemma ValueMeans(sym: Symbol, t: GotType, to: Target)
      requires t != Unknown && t != TlsLe
      ensures ValueFor(sym, t, to).None? <==> t == Normal && sym.global && to.undefWeak
      ensures ValueFor(sym, t, to).Some? ==> LeadsTo(dynamic, sym, t, to, Get(big, Word(big, ValueFor(sym, t, to).value)))
    {
      hide Word, Get;
      var v := ValueFor(sym, t, to);
      if v.Some? {
        WordReads(big, v.value, -v.value);
      }
    }

    ghost predicate WordLeads(sym: Symbol, t: GotType, to: Target, p: nat)
      reads this
    {
      p + 4 <= |contents| && LeadsTo(dynamic, sym, t, to, Get(big, contents[p..p + 4]))
    }

    /** Whether the table entry is settled at link time. */
    predicate Settled(sym: Symbol, to: Target) {
      !sym.global || !dynamic || (pic && to.refsLocal)
    }

    /** relocate_fix_got_relocs_for_got_info: the first time, the value goes into the slot; every value stored
        earlier stays, and later calls change nothing. */
    method Fix(s: nat, t: GotType, to: Target) returns (offset: nat)
      requires Valid() && sized && s < |symbols|
      requires t != Unknown && t != TlsLe ==> Find(lists[s], t, 0).Some?
      modifies this`lists, this`contents, this`values
      ensures Valid() && |values| == |old(values)|
      ensures forall j :: 0 <= j < |log| && old(values)[j].Some? ==> values[j] == old(values)[j]
      ensures forall j :: 0 <= j < |log| && values[j] != old(values)[j] ==> log[j].symbol == s && log[j].typ == t
      ensures t == Unknown || t == TlsLe ==> offset == 0 && lists == old(lists) && contents == old(contents)
      ensures t != Unknown && t != TlsLe ==>
                var k := Find(old(lists)[s], t, 0).value;
                var e := old(lists)[s][k];
                && offset == e.offset
                && (e.processed || !Settled(symbols[s], to) ==> lists == old(lists) && contents == old(contents))
                && (!e.processed && Settled(symbols[s], to) ==>
                      && lists == old(lists)[s := old(lists)[s][k := e.(processed := true)]]
                      && (ValueFor(symbols[s], t, to).None? ==> contents == old(contents))
                      && (ValueFor(symbols[s], t, to).Some? ==>
                            && ValueAt(t, e.offset) + 4 <= |old(contents)|
                            && contents == Put32(old(contents), ValueAt(t, e.offset), Word(big, ValueFor(symbols[s], t, to).value)))
                      && (!(t == Normal && symbols[s].global && to.undefWeak) ==>
                            WordLeads(symbols[s], t, to, e.offset + if t == TlsGd then 4 else 0)))
    {
      hide Agree, Tiles, OneEach, Stored, Pending, Word, Loads, NoneDone, Got.ValueFor, LeadsTo, Get, Find, Put32, Got.WordLeads;
      if t == Unknown || t == TlsLe {
        return 0;
      }
      var k := Find(lists[s], t, 0).value;
      var e := lists[s][k];
      offset := e.offset;
      if (!symbols[s].global || !dynamic || (pic && to.refsLocal)) && !e.processed {
        Settle(s, k, t, to);
      }
    }

    /** The value is stored and the entry marked. */
    method Settle(s: nat, k: nat, t: GotType, to: Target)
      requires Valid() && sized && s < |symbols| && k < |lists[s]| && lists[s][k].typ == t != Unknown && t != TlsLe && !lists[s][k].processed
      modifies this`lists, this`contents, this`values
      ensures Valid() && |values| == |old(values)|
      ensures forall j :: 0 <= j < |log| && old(values)[j].Some? ==> values[j] == old(values)[j]
      ensures forall j :: 0 <= j < |log| && values[j] != old(values)[j] ==> log[j].symbol == s && log[j].typ == t
      ensures lists == old(lists)[s := old(lists)[s][k := old(lists)[s][k].(processed := true)]]
      ensures ValueFor(symbols[s], t, to).None? ==> contents == old(contents)
      ensures var p, value := ValueAt(t, old(lists)[s][k].offset), ValueFor(symbols[s], t, to);
              value.Some? ==> p + 4 <= |old(contents)| && contents == Put32(old(contents), p, Word(big, value.value))
      ensures (t == Normal && symbols[s].global && to.undefWeak) || WordLeads(symbols[s], t, to, ValueAt(t, old(lists)[s][k].offset))
    {
      hide Agree, Tiles, OneEach, Stored, Pending, Word, Loads, NoneDone, Got.ValueFor, LeadsTo, Get, Put32, ValueAt;
      var e := lists[s][k];
      ghost var j := SlotOfEntry(symbols, lists, pic, log, done, values, s, k);
      var value := ValueFor(symbols[s], t, to);
      ValueMeans(symbols[s], t, to);
      ghost var now := if value.Some? then value else values[j];
      AgreeUpdate(symbols, lists, pic, log, done, values, start, size, s, k, e.(processed := true), j, now);
      assert done[j := e.created] == done;
      if value.Some? {
        StoredMore(contents, big, log, values, start, size, j, value.value);
        WordIsThere(contents, ValueAt(t, e.offset), Word(big, value.value));
        contents := Put32(contents, ValueAt(t, e.offset), Word(big, value.value));
      }
      assert value.None? ==> values[j := now] == values;
      values := values[j := now];
      lists := lists[s := lists[s][k := e.(processed := true)]];
    }

    /** Slot `j` is one of symbol `s`, and the relocs written for its bytes, if any are needed, make of it what the
        program should find there. */
    ghost predicate Dealt(s: nat, j: nat)
      reads this
    {
      && s < |symbols| && j < |log| && j < |done| && j < |made| && log[j].symbol == s && done[j]
      && var own := Within(relas, log[j].offset, Width(log[j].typ));
         if dynamic then SlotMeans(pic, symbolic, symbols[s], log[j], made[j].word, own) else own == []
    }

    /** create_got_dynrelocs_for_single_entry: the relocs stay within the space reserved and within the slot, and make
        of its words what the program should find there. */
    method CreateRelas(s: nat, k: nat) returns (ghost j: nat)
      requires Valid() && sized && s < |symbols| && k < |lists[s]|
      modifies this`lists, this`relas, this`done, this`made
      ensures Dealt(s, j) && log[j].typ == old(lists)[s][k].typ && log[j].offset == old(lists)[s][k].offset
      ensures Valid() && RELA_SIZE * |relas| <= relSize
      ensures |lists| == |old(lists)| && |lists[s]| == |old(lists)[s]|
      ensures old(lists)[s][k].created ==> lists == old(lists) && relas == old(relas)
      ensures !old(lists)[s][k].created ==>
                var e := old(lists)[s][k];
                && lists == old(lists)[s := old(lists)[s][k := e.(created := true)]]
                && e.offset + 4 <= |contents| && made[j].word == Get(big, contents[e.offset..e.offset + 4])
                && relas == old(relas) + if dynamic then RelasFor(pic, symbolic, symbols[s], e, Get(big, contents[e.offset..e.offset + 4])) else []
    {
      hide Agree, Tiles, OneEach, Stored, Pending, RelasFor, Reserve, SlotMeans, Within, NoneDone;
      var e := lists[s][k];
      j := SlotOfEntry(symbols, lists, pic, log, done, values, s, k);
      assert SlotLoads(pic, symbolic, dynamic, symbols, log[j], done[j], made[j], relas);
      if !e.created {
        SlotInside(log, start, size, j);
        var word := Get(big, contents[e.offset..e.offset + 4]);
        var more := if dynamic then RelasFor(pic, symbolic, symbols[s], e, word) else [];
        ReserveCovers(pic, symbolic, symbols[s], symbols[s], e, word);
        PendingDrops(log, done, j, |log|);
        AgreeUpdate(symbols, lists, pic, log, done, values, start, size, s, k, e.(created := true), j, values[j]);
        assert values[j := values[j]] == values;
        RelasMean(pic, symbolic, symbols[s], e, log[j], word);
        LoadsCreate(pic, symbolic, dynamic, symbols, log, done, made, relas, start, size, j, word, more);
        relas := relas + more;
        done, made := done[j := true], made[j := Made(word, more)];
        assert SlotLoads(pic, symbolic, dynamic, symbols, log[j], done[j], made[j], relas);
        lists := lists[s := lists[s][k := e.(created := true)]];
      }
    }

    /** create_got_dynrelocs_for_got_info */
    method CreateAllRelas(s: nat)
      requires Valid() && sized && s < |symbols| && |lists| == |symbols|
      modifies this`lists, this`relas, this`done, this`made
      ensures Valid() && RELA_SIZE * |relas| <= relSize
      ensures |lists| == |symbols| && forall k :: 0 <= k < |lists[s]| ==> lists[s][k].created
      ensures forall j :: 0 <= j < |log| && log[j].symbol == s ==> Dealt(s, j)
    {
      hide Agree, Tiles, Stored, Pending, RelasFor, SlotMeans, Within, NoneDone;
      var k := 0;
      while k < |lists[s]|
        invariant Valid() && |lists| == |symbols| && 0 <= k <= |lists[s]|
        invariant forall i :: 0 <= i < k ==> lists[s][i].created
      {
        ghost var j := CreateRelas(s, k);
        k := k + 1;
      }
      forall j | 0 <= j < |log| && log[j].symbol == s
        ensures Dealt(s, j)
      {
        CreatedIsDone(symbols, lists, pic, log, done, values, s, j);
        assert SlotLoads(pic, symbolic, dynamic, symbols, log[j], done[j], made[j], relas);
      }
    }
  }

  predicate NeedsIndex(sym: Symbol) {
    sym.global && sym.dynindx == -1 && !sym.forcedLocal
  }
}
