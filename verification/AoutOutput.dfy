/** What the a.out final link produces: numbered output symbols, the bytes of the symbol and string tables,
    and a file that is written at several cursors. */
module AoutOutput {
  import opened ByteSeq
  import opened AoutSymbols

  // ----- numbering -----

  /** Which hash entry each output symbol stands for, if any. */
  type Owners = seq<Option<nat>>

  /** An entry has an index exactly when one output symbol stands for it, at that index. */
  ghost predicate Numbered(hash: seq<HashEntry>, owners: Owners) {
    && (forall h :: 0 <= h < |hash| && hash[h].indx >= 0 ==>
          hash[h].written && hash[h].indx < |owners| && owners[hash[h].indx] == Some(h))
    && (forall p :: 0 <= p < |owners| && owners[p].Some? ==>
          owners[p].value < |hash| && hash[owners[p].value].indx == p)
  }

  /** The positions of the output symbols that stand for entry `h`. */
  function Positions(owners: Owners, h: nat): set<nat> {
    set p | 0 <= p < |owners| && owners[p] == Some(h)
  }

  /** Exactly one output symbol for each indexed entry, none for the others. */
  lemma NumberedIsExact(hash: seq<HashEntry>, owners: Owners, h: nat)
    requires Numbered(hash, owners) && h < |hash|
    ensures Positions(owners, h) == if hash[h].indx >= 0 then {hash[h].indx} else {}
  {
  }

  lemma NotYetIndexed(hash: seq<HashEntry>, owners: Owners, h: nat)
    requires Numbered(hash, owners) && h < |hash| && !hash[h].written
    ensures hash[h].indx < 0
  {
  }

  lemma IndexInside(hash: seq<HashEntry>, owners: Owners, h: nat)
    requires Numbered(hash, owners) && h < |hash| && hash[h].indx >= 0
    ensures hash[h].indx < |owners| && owners[hash[h].indx] == Some(h)
  {
  }

  lemma EmitFree(hash: seq<HashEntry>, owners: Owners)
    requires Numbered(hash, owners)
    ensures Numbered(hash, owners + [None])
  {
  }

  lemma EmitOwned(hash: seq<HashEntry>, owners: Owners, h: nat)
    requires Numbered(hash, owners) && h < |hash| && hash[h].indx < 0
    ensures Numbered(hash[h := hash[h].(written := true, indx := |owners|)], owners + [Some(h)])
  {
  }

  /** A change of `written`, or of one negative index into another, numbers nothing. */
  lemma Unnumbered(hash: seq<HashEntry>, owners: Owners, h: nat, w: bool, i: int)
    requires Numbered(hash, owners) && h < |hash| && ((hash[h].indx < 0 && i < 0) || (w && i == hash[h].indx))
    ensures Numbered(hash[h := hash[h].(written := w, indx := i)], owners)
  {
  }

  /** An entry that counts as written but has no symbol stands for nothing or may be stripped. */
  ghost predicate Accounted(info: Info, hash: seq<HashEntry>) {
    forall h :: 0 <= h < |hash| && hash[h].written && hash[h].indx < 0 ==> !Nameable(hash[h]) || MayStrip(info, hash[h])
  }

  lemma AccountedTouch(info: Info, hash: seq<HashEntry>, h: nat, w: bool, i: int)
    requires Accounted(info, hash) && h < |hash| && (w && i < 0 ==> !Nameable(hash[h]) || MayStrip(info, hash[h]))
    ensures Accounted(info, hash[h := hash[h].(written := w, indx := i)])
  {
  }

  // ----- what the numbers lead to -----

  /** The symbol that stands for an entry.  One copied from an input file carries the name of its entry (a warning
      entry has none of its own) and is no stab; one that was forced out or left over is the entry's own symbol. */
  predicate LabelOk(hash: seq<HashEntry>, owner: Option<nat>, sym: OutSym, copied: bool) {
    && (owner.Some? ==> owner.value < |hash| && sym.typ < 32)
    && if copied then owner.Some? && hash[owner.value].kind != Warning ==> sym.name == hash[owner.value].name
       else owner.Some? && Nameable(hash[owner.value]) && sym == EntrySym(hash[owner.value])
  }

  /** Every output symbol is that of the entry it stands for. */
  ghost predicate Labelled(hash: seq<HashEntry>, owners: Owners, syms: seq<OutSym>, copied: seq<bool>) {
    && |owners| == |syms| == |copied|
    && forall p :: 0 <= p < |owners| ==> LabelOk(hash, owners[p], syms[p], copied[p])
  }

  lemma LabelledTouch(hash: seq<HashEntry>, owners: Owners, syms: seq<OutSym>, copied: seq<bool>, h: nat, w: bool, i: int)
    requires Labelled(hash, owners, syms, copied) && h < |hash|
    ensures Labelled(hash[h := hash[h].(written := w, indx := i)], owners, syms, copied)
  {
    var after := hash[h := hash[h].(written := w, indx := i)];
    forall p | 0 <= p < |owners| ensures LabelOk(after, owners[p], syms[p], copied[p]) {
      assert LabelOk(hash, owners[p], syms[p], copied[p]);
    }
  }

  lemma LabelledMore(hash: seq<HashEntry>, owners: Owners, syms: seq<OutSym>, copied: seq<bool>, owner: Option<nat>, sym: OutSym, c: bool)
    requires Labelled(hash, owners, syms, copied) && LabelOk(hash, owner, sym, c)
    ensures Labelled(hash, owners + [owner], syms + [sym], copied + [c])
  {
    hide LabelOk;
  }

  /** The symbol at the number of an entry has the name of the entry. */
  lemma NumberLeadsToName(hash: seq<HashEntry>, owners: Owners, syms: seq<OutSym>, copied: seq<bool>, h: nat)
    requires Numbered(hash, owners) && Labelled(hash, owners, syms, copied) && h < |hash| && hash[h].indx >= 0
    ensures hash[h].indx < |syms| && (hash[h].kind != Warning ==> syms[hash[h].indx].name == hash[h].name)
    ensures !copied[hash[h].indx] ==> Nameable(hash[h]) && syms[hash[h].indx] == EntrySym(hash[h])
  {
    assert LabelOk(hash, owners[hash[h].indx], syms[hash[h].indx], copied[hash[h].indx]);
  }

  // ----- headers in the output -----

  /** How many headers are open after these symbols, starting with `from` open; None if more were closed. */
  function Depth(syms: seq<OutSym>, from: Option<nat>): Option<nat> {
    if syms == [] then from
    else
      var d := Depth(syms[..|syms| - 1], from);
      if d.None? then None
      else
        match StabKind(syms[|syms| - 1].typ)
        case Begin => Some(d.value + 1)
        case End => if d.value == 0 then None else Some(d.value - 1)
        case Plain => d
  }

  lemma DepthMore(syms: seq<OutSym>, sym: OutSym, from: Option<nat>)
    requires sym.typ < 32
    ensures Depth(syms + [sym], from) == Depth(syms, from)
  {
    assert (syms + [sym])[..|syms|] == syms;
  }

  lemma {:induction false} DepthAppend(a: seq<OutSym>, b: seq<OutSym>, from: Option<nat>)
    ensures Depth(a + b, from) == Depth(b, Depth(a, from))
  {
    if b == [] {
      assert a + b == a;
    } else {
      var n := |b| - 1;
      DepthAppend(a, b[..n], from);
      assert (a + b)[..|a + b| - 1] == a + b[..n];
    }
  }

  /** Only symbols of hash entries were added: no header is opened or closed by them. */
  ghost predicate Forced(syms: seq<OutSym>, copied: seq<bool>, syms': seq<OutSym>, copied': seq<bool>) {
    && syms <= syms' && copied <= copied' && Depth(syms', Some(0)) == Depth(syms, Some(0))
    && forall p :: |copied| <= p < |copied'| ==> !copied'[p]
  }

  lemma ForcedNone(syms: seq<OutSym>, copied: seq<bool>)
    ensures Forced(syms, copied, syms, copied)
  {
  }

  lemma ForcedOne(syms: seq<OutSym>, copied: seq<bool>, sym: OutSym)
    requires sym.typ < 32
    ensures Forced(syms, copied, syms + [sym], copied + [false])
  {
    DepthMore(syms, sym, Some(0));
  }

  lemma ForcedTrans(s0: seq<OutSym>, c0: seq<bool>, s1: seq<OutSym>, c1: seq<bool>, s2: seq<OutSym>, c2: seq<bool>)
    requires Forced(s0, c0, s1, c1) && Forced(s1, c1, s2, c2)
    ensures Forced(s0, c0, s2, c2)
  {
  }

  lemma ForcedGrows(s0: seq<OutSym>, c0: seq<bool>, s1: seq<OutSym>, c1: seq<bool>)
    requires Forced(s0, c0, s1, c1)
    ensures s0 <= s1 && c0 <= c1
  {
  }

  /** The entry's own symbol is added under the next number. */
  lemma LabelledEntry(hash: seq<HashEntry>, owners: Owners, syms: seq<OutSym>, copied: seq<bool>, h: nat, count: nat)
    requires Labelled(hash, owners, syms, copied) && h < |hash| && Nameable(hash[h])
    ensures Labelled(hash[h := hash[h].(written := true, indx := count)], owners + [Some(h)], syms + [EntrySym(hash[h])], copied + [false])
    ensures Forced(syms, copied, syms + [EntrySym(hash[h])], copied + [false])
  {
    hide Labelled, Forced;
    LabelledTouch(hash, owners, syms, copied, h, true, count);
    EntryIsNoStab(hash[h]);
    LabelledMore(hash[h := hash[h].(written := true, indx := count)], owners, syms, copied, Some(h), EntrySym(hash[h]), false);
    ForcedOne(syms, copied, EntrySym(hash[h]));
  }

  /** Nothing but `written` and `indx` ever changes in the hash table. */
  predicate SameTable(a: seq<HashEntry>, b: seq<HashEntry>) {
    |a| == |b| && forall h :: 0 <= h < |a| ==> a[h] == b[h].(written := a[h].written, indx := a[h].indx)
  }

  lemma SameTableRefl(a: seq<HashEntry>)
    ensures SameTable(a, a)
  {
  }

  lemma SameTableTrans(a: seq<HashEntry>, b: seq<HashEntry>, c: seq<HashEntry>)
    requires SameTable(a, b) && SameTable(b, c)
    ensures SameTable(a, c)
  {
  }

  lemma SameKinds(a: seq<HashEntry>, b: seq<HashEntry>)
    requires SameTable(a, b)
    ensures |a| == |b|
    ensures forall h :: 0 <= h < |a| ==> a[h].kind == b[h].kind && a[h].section == b[h].section && a[h].address == b[h].address
  {
  }

  lemma Touched(hash: seq<HashEntry>, h: nat, w: bool, i: int)
    requires h < |hash| && LinksInside(hash)
    ensures SameTable(hash[h := hash[h].(written := w, indx := i)], hash)
    ensures LinksInside(hash[h := hash[h].(written := w, indx := i)])
  {
    var after := hash[h := hash[h].(written := w, indx := i)];
    forall k | 0 <= k < |after| && IsLink(after[k]) ensures after[k].link < |after| {
      assert IsLink(hash[k]);
    }
  }

  // ----- the output file -----

  /** bfd_seek and bfd_bwrite: a gap before the written bytes reads as zero. */
  function WriteAt(file: seq<Byte>, pos: nat, bytes: seq<Byte>): seq<Byte> {
    if bytes == [] then file
    else
      (if pos <= |file| then file[..pos] else file + Fill(0, pos - |file|))
      + bytes + (if pos + |bytes| < |file| then file[pos + |bytes|..] else [])
  }

  /** What has been written from `p` on; nothing may have been written yet. */
  predicate Area(file: seq<Byte>, p: nat, bs: seq<Byte>) {
    bs == [] || At(file, p, bs)
  }

  lemma WriteKeeps(file: seq<Byte>, pos: nat, bytes: seq<Byte>, q: nat, other: seq<Byte>)
    requires Area(file, q, other) && (q + |other| <= pos || pos + |bytes| <= q)
    ensures Area(WriteAt(file, pos, bytes), q, other)
  {
    var after := WriteAt(file, pos, bytes);
    forall i | 0 <= i < |other| ensures q + i < |after| && after[q + i] == other[i] {
      assert file[q..q + |other|][i] == other[i];
    }
  }

  lemma WriteExtends(file: seq<Byte>, pos: nat, bytes: seq<Byte>, q: nat, other: seq<Byte>)
    requires Area(file, q, other) && pos == q + |other|
    ensures Area(WriteAt(file, pos, bytes), q, other + bytes)
  {
    var after := WriteAt(file, pos, bytes);
    if bytes == [] {
      assert other + bytes == other;
    } else {
      assert At(after, pos, bytes);
      WriteKeeps(file, pos, bytes, q, other);
      if other == [] {
        assert other + bytes == bytes;
      } else {
        AtSplit(after, q, other, bytes);
      }
    }
  }

  // ----- the string table -----

  /** The strings written so far, each once, and where they are; offsets count the leading size word. */
  datatype Strtab = Strtab(index: map<Name, nat>, bytes: seq<Byte>)

  ghost predicate TabOk(tab: Strtab) {
    forall n :: n in tab.index ==> tab.index[n] >= 4 && At(tab.bytes, tab.index[n] - 4, n + [0])
  }

  /** add_to_stringtab: the empty name is index zero and is not stored. */
  function AddString(tab: Strtab, n: Name): Strtab {
    if n == [] || n in tab.index then tab
    else Strtab(tab.index[n := |tab.bytes| + 4], tab.bytes + n + [0])
  }

  predicate HasString(tab: Strtab, n: Name) {
    n == [] || n in tab.index
  }

  function StrxOf(tab: Strtab, n: Name): nat
    requires HasString(tab, n)
  {
    if n == [] then 0 else tab.index[n]
  }

  predicate AllNamed(tab: Strtab, syms: seq<OutSym>) {
    forall p :: 0 <= p < |syms| ==> HasString(tab, syms[p].name)
  }

  lemma AddStringOk(tab: Strtab, n: Name)
    requires TabOk(tab)
    ensures TabOk(AddString(tab, n)) && HasString(AddString(tab, n), n)
  {
    var after := AddString(tab, n);
    if !HasString(tab, n) {
      assert after.bytes == tab.bytes + (n + [0]);
      forall m | m in after.index ensures after.index[m] >= 4 && At(after.bytes, after.index[m] - 4, m + [0]) {
        if m == n {
          AtRight(tab.bytes, n + [0]);
        } else {
          AtLeft(tab.bytes, n + [0], tab.index[m] - 4, m + [0]);
        }
      }
    }
  }

  // ----- the symbol table -----

  const EXTERNAL_NLIST_SIZE := 12

  /** A value as PUT_WORD stores it. */
  function Word(v: int): (r: nat)
    ensures r < TWO32
  {
    v % TWO32
  }

  function NlistBytes(big: bool, strx: nat, s: OutSym): (r: seq<Byte>)
    ensures |r| == EXTERNAL_NLIST_SIZE
  {
    Put(big, strx, 4) + [s.typ, s.other] + Put(big, s.desc, 2) + Put(big, Word(s.value), 4)
  }

  /** An entry as a reader takes it apart: the string index, and the symbol without its name. */
  function ReadNlist(big: bool, b: seq<Byte>): (nat, OutSym)
    requires |b| == EXTERNAL_NLIST_SIZE
  {
    (Get(big, b[..4]), OutSym([], b[4], b[5], Get(big, b[6..8]), Get(big, b[8..])))
  }

  /** An entry reads back as written if and only if index and value are unsigned words and the description a half
      word; in any case index and value come back modulo 2^32, the description modulo 2^16. */
  lemma NlistReadsBack(big: bool, strx: nat, s: OutSym)
    ensures var (x, r) := ReadNlist(big, NlistBytes(big, strx, s));
            && x == strx % TWO32 && r == OutSym([], s.typ, s.other, s.desc % TWO16, s.value % TWO32)
            && (x == strx && r == s.(name := []) <==> strx < TWO32 && s.desc < TWO16 && 0 <= s.value < TWO32)
  {
    hide Get, Put;
    var b := NlistBytes(big, strx, s);
    assert b[..4] == Put(big, strx, 4) && b[6..8] == Put(big, s.desc, 2) && b[8..] == Put(big, Word(s.value), 4);
    GetPut(big, strx, 4);
    GetPut(big, s.desc, 2);
    GetPut(big, Word(s.value), 4);
    Pow256Values();
  }

  function SymTable(big: bool, tab: Strtab, syms: seq<OutSym>): (r: seq<Byte>)
    requires AllNamed(tab, syms)
    ensures |r| == EXTERNAL_NLIST_SIZE * |syms|
  {
    if syms == [] then []
    else var k := |syms| - 1; SymTable(big, tab, syms[..k]) + NlistBytes(big, StrxOf(tab, syms[k].name), syms[k])
  }

  /** A symbol is added and its name is stored: the table grows by one entry and keeps the others. */
  lemma SymTableGrows(big: bool, tab: Strtab, syms: seq<OutSym>, s: OutSym)
    requires AllNamed(tab, syms)
    ensures AllNamed(AddString(tab, s.name), syms + [s])
    ensures SymTable(big, AddString(tab, s.name), syms + [s])
         == SymTable(big, tab, syms) + NlistBytes(big, StrxOf(AddString(tab, s.name), s.name), s)
  {
    var after := AddString(tab, s.name);
    assert (syms + [s])[..|syms|] == syms;
    assert AllNamed(after, syms);
    StableTable(big, tab, s.name, syms);
  }

  lemma {:induction false} StableTable(big: bool, tab: Strtab, n: Name, syms: seq<OutSym>)
    requires AllNamed(tab, syms) && AllNamed(AddString(tab, n), syms)
    ensures SymTable(big, AddString(tab, n), syms) == SymTable(big, tab, syms)
  {
    if syms != [] {
      StableTable(big, tab, n, syms[..|syms| - 1]);
    }
  }

  /** Entry `p` of the table is the encoding of output symbol `p`. */
  lemma {:induction false} EntryAt(big: bool, tab: Strtab, syms: seq<OutSym>, p: nat)
    requires AllNamed(tab, syms) && p < |syms|
    ensures At(SymTable(big, tab, syms), EXTERNAL_NLIST_SIZE * p, NlistBytes(big, StrxOf(tab, syms[p].name), syms[p]))
  {
    var k := |syms| - 1;
    var front, last := SymTable(big, tab, syms[..k]), NlistBytes(big, StrxOf(tab, syms[k].name), syms[k]);
    if p == k {
      AtRight(front, last);
    } else {
      EntryAt(big, tab, syms[..k], p);
      AtLeft(front, last, EXTERNAL_NLIST_SIZE * p, NlistBytes(big, StrxOf(tab, syms[p].name), syms[p]));
    }
  }
}
