/** What the symbols copied from an input file say: each keeps its place in its section, or takes over what its
    hash entry resolves to; and which symbols are copied at all. */
module AoutMeaning {
  import opened ByteSeq
  import opened AoutIncludes
  import opened AoutSymbols
  import opened AoutOutput
  import opened AoutCopy

  // ----- one symbol -----

  /** A symbol keeps its distance from the start of its section. */
  predicate KeepsDistance(p: Place, was: int, now: int) {
    now - (p.outVma + p.outOffset) == was - p.vma
  }

  predicate MovesAlong(l: Layout, s: Section, was: int, now: int) {
    match s
    case Text => KeepsDistance(l.text, was, now)
    case Data => KeepsDistance(l.data, was, now)
    case Bss => KeepsDistance(l.bss, was, now)
    case Abs => now == was
  }

  /** The section a type code is about, stab or not; the weak codes only by themselves. */
  function HomeOf(typ: Byte): Option<Section> {
    match typ
    case 14 => Some(Abs)
    case 15 => Some(Text)
    case 16 => Some(Data)
    case 17 => Some(Bss)
    case _ =>
      match typ % 32 / 2
      case 1 => Some(Abs)
      case 2 => Some(Text)
      case 3 => Some(Data)
      case 4 => Some(Bss)
      case _ => None
  }

  /** The section of an element of a constructed set. */
  function SetSection(typ: Byte): Option<Section> {
    match typ % 32 / 2
    case 10 => Some(Abs)
    case 11 => Some(Text)
    case 12 => Some(Data)
    case 13 => Some(Bss)
    case _ => None
  }

  /** Indirect, or a warning. */
  predicate IsLinkType(typ: Byte) {
    typ % 32 / 2 == 5 || typ == 30
  }

  /** The same in the terms of the code. */
  lemma Codes(typ: Byte)
    ensures SectionOf(typ) == HomeOf(typ)
    ensures SetSection(typ)
         == if TypeField(typ) == N_SETT then Some(Text)
            else if TypeField(typ) == N_SETD then Some(Data)
            else if TypeField(typ) == N_SETB then Some(Bss)
            else if TypeField(typ) == N_SETA then Some(Abs)
            else None
    ensures IsLinkType(typ) <==> TypeField(typ) == N_INDR || typ == N_WARNING
    ensures TypeField(N_WARNING) != N_INDR && (IsLinkType(typ) ==> SectionOf(typ).None?)
  {
    assert TypeField(typ) == typ % 32 / 2 * 2;
  }

  /** The symbol before, not counting any that were left out, is indirect or a warning, and this one its target. */
  predicate AfterLink(inp: Input, map_: seq<int>, i: nat)
    requires i <= |map_| <= |inp.syms|
  {
    i > 0 && (IsLinkType(inp.syms[i - 1].typ) || (map_[i - 1] == -1 && AfterLink(inp, map_, i - 1)))
  }

  lemma {:induction false} AfterLinkStays(inp: Input, map_: seq<int>, more: seq<int>, i: nat)
    requires i <= |map_| && |map_ + more| <= |inp.syms|
    ensures AfterLink(inp, map_ + more, i) == AfterLink(inp, map_, i)
  {
    if i > 0 {
      AfterLinkStays(inp, map_, more, i - 1);
    }
  }

  function Behind(hash: seq<HashEntry>, h: nat): HashEntry
    requires h < |hash| && LinksInside(hash)
  {
    hash[Resolve(hash, h, |hash|)]
  }

  /** An indirection that leads to no definition, or a warning. */
  predicate Dangling(hash: seq<HashEntry>, sym: InSym)
    requires LinksInside(hash) && SymOk(sym, |hash|)
  {
    || sym.typ == 30
    || (IsLinkType(sym.typ)
        && (sym.hash.None? || !(IsDefined(Behind(hash, sym.hash.value)) || Behind(hash, sym.hash.value).kind == Common)))
  }

  /** Whether the symbol is seen outside its file once it is written. */
  predicate External(typ: Byte) {
    typ % 2 == 1 || typ == N_SETT || typ == N_SETD || typ == N_SETB || typ == N_SETA
  }

  /** A symbol that takes over what its entry stands for: the address and section of the definition (an external weak
      one in data or absolute gets the wrong section), the size of a common block, or nothing. */
  predicate TakesOver(r: HashEntry, typ: Byte, out: OutSym) {
    if IsDefined(r) then
      && out.value == r.address
      && (HomeOf(out.typ) == Some(r.section) <==> !(r.kind == DefWeak && (r.section == Data || r.section == Abs) && External(typ)))
    else if r.kind == Common then out.typ == typ && out.value == r.size
    else out.typ == (if r.kind == UndefWeak then N_WEAKU else typ) && out.value == 0
  }

  /** The output symbol for input symbol `i`. */
  predicate Relocated(inp: Input, hash: seq<HashEntry>, i: nat, out: OutSym)
    requires i < |inp.syms| && LinksInside(hash) && SymOk(inp.syms[i], |hash|)
  {
    var sym := inp.syms[i];
    var t := sym.typ;
    && out.other == sym.other && out.desc == sym.desc
    && if t == N_BINCL then
         (out.typ == N_BINCL || out.typ == N_EXCL) && out.value == HeaderSum(Stabs(inp.syms)[i + 1..], 0)
       else if HomeOf(t).Some? then out.typ == t && MovesAlong(inp.layout, HomeOf(t).value, sym.value, out.value)
       else if Dangling(hash, sym) || t >= 32 then out.typ == t && out.value == sym.value
       else if sym.hash.Some? then TakesOver(Behind(hash, sym.hash.value), t, out)
       else if SetSection(t).Some? then out.typ == t && MovesAlong(inp.layout, SetSection(t).value, sym.value, out.value)
       else out.typ == t && out.value == 0
  }

  /** The same, or the target of an indirection or warning, which is copied as it is. */
  predicate SymTrue(inp: Input, hash: seq<HashEntry>, linked: bool, i: nat, out: OutSym)
    requires i < |inp.syms| && LinksInside(hash) && SymOk(inp.syms[i], |hash|)
  {
    var sym := inp.syms[i];
    || Relocated(inp, hash, i, out)
    || (linked && out == OutSym(sym.name, sym.typ, sym.other, sym.desc, sym.value))
  }

  /** The name stripping goes by. */
  function NameOf(hash: seq<HashEntry>, sym: InSym): Name
    requires SymOk(sym, |hash|)
  {
    if sym.hash.Some? && hash[sym.hash.value].kind != Warning then hash[sym.hash.value].name else sym.name
  }

  /** What the user lets stay: by the strip rules, and for local symbols by the discard rules. */
  predicate MayStay(info: Info, hash: seq<HashEntry>, sym: InSym)
    requires SymOk(sym, |hash|)
  {
    && info.strip != StripAll
    && (info.strip == StripDebugger ==> sym.typ < 32)
    && (info.strip == StripSome ==> NameOf(hash, sym) in info.keep)
    && (sym.hash.None? && SetSection(sym.typ).None? ==>
          && info.discard != DiscardAll
          && (info.discard == DiscardLocals ==> sym.typ >= 32 || sym.name !in info.localLabels))
  }

  /** A local symbol, or one whose entry stands for something. */
  predicate HasMeaning(hash: seq<HashEntry>, sym: InSym)
    requires SymOk(sym, |hash|)
  {
    sym.hash.Some? ==> Nameable(hash[sym.hash.value])
  }

  lemma ShapeTakesOver(inp: Input, sym: InSym, h: HashEntry, r: HashEntry)
    requires !IsStab(sym.typ) && SectionOf(sym.typ).None? && sym.typ != N_WARNING
    requires TypeField(sym.typ) == N_INDR ==> IsDefined(r) || r.kind == Common
    ensures var s := ShapeOf(inp, sym, Some(h), Some(r));
            TakesOver(r, sym.typ, OutSym(sym.name, s.typ, sym.other, sym.desc, s.value))
  {
    hide HomeOf, WithType, SectionOf, TypeField;
    if IsDefined(r) {
      var t := sym.typ;
      var t' := if t == N_SETT || t == N_SETD || t == N_SETB || t == N_SETA then t + 1 else t;
      TypeWith(t', DefinedType(r));
      DefinedHome(r, t' % 2);
      assert t' % 2 == 1 <==> External(t);
    }
  }

  /** The section a reader sees in the type of a definition, with the external bit or-ed in or not. */
  lemma DefinedHome(r: HashEntry, low: int)
    requires IsDefined(r) && 0 <= low < 2
    ensures var typ := if DefinedType(r) % 2 == 1 then DefinedType(r) else DefinedType(r) + low;
            HomeOf(typ) == Some(r.section) <==> !(r.kind == DefWeak && (r.section == Data || r.section == Abs) && low == 1)
  {
  }

  /** The section of a type put together from a symbol's own bits and a code. */
  lemma TypeWith(t: Byte, code: Byte)
    requires t < 32 && 2 <= code <= 17 && (code % 2 == 0 || code == 15 || code == 17)
    ensures WithType(t, code) == if code % 2 == 1 then code else code + t % 2
  {
  }

  /** Stripping and discarding remove exactly what may not stay. */
  lemma JudgeStays(info: Info, inp: Input, hash: seq<HashEntry>, sym: InSym)
    requires LinksInside(hash) && SymOk(sym, |hash|)
    ensures var v := Judge(info, inp, hash, sym, false, false);
            && (v.Copied? ==> MayStay(info, hash, sym))
            && (v.Skipped? && !(sym.hash.Some? && hash[sym.hash.value].written) ==> !MayStay(info, hash, sym))
  {
    Codes(sym.typ);
    hide Resolve, SectionOf, TypeField, TakesOver, Moved, WithType, SetSection;
    if sym.hash.None? {
      LocalShape(inp, sym);
    }
  }

  /** A symbol gets no number only if it may not stay or its entry stands for nothing. */
  lemma JudgeSkips(info: Info, inp: Input, hash: seq<HashEntry>, sym: InSym)
    requires LinksInside(hash) && SymOk(sym, |hash|) && Accounted(info, hash)
    ensures var v := Judge(info, inp, hash, sym, false, false);
            v.Skipped? && v.mapped < 0 ==> !MayStay(info, hash, sym) || !HasMeaning(hash, sym)
  {
    hide Resolve, SectionOf, TypeField, TakesOver, Moved, WithType, ShapeOf;
    JudgeStays(info, inp, hash, sym);
  }

  lemma LocalShape(inp: Input, sym: InSym)
    ensures ShapeOf(inp, sym, None, None).typ == sym.typ
  {
    hide SectionOf, TypeField, Moved;
  }

  /** Only an indirection or a warning touches the symbol after it: a copied one that leads nowhere lets it through
      unchanged, any other drops it. */
  lemma JudgeFlags(info: Info, inp: Input, hash: seq<HashEntry>, sym: InSym)
    requires LinksInside(hash) && SymOk(sym, |hash|)
    ensures var v := Judge(info, inp, hash, sym, false, false);
            && (v.skipNext || (v.Copied? && v.pass) ==> IsLinkType(sym.typ))
            && !(v.Copied? && v.pass && v.skipNext)
            && (IsLinkType(sym.typ) && v.Copied? ==> v.pass == Dangling(hash, sym) && v.skipNext == !Dangling(hash, sym))
            && (IsLinkType(sym.typ) && v.Skipped? && v.mapped >= 0 ==> v.skipNext)
  {
    Codes(sym.typ);
    hide IsLinkType, Resolve, SectionOf, TypeField, Moved, WithType, IsStripped, IsDiscarded;
  }

  /** The shape of a symbol that is no header. */
  lemma ShapeRelocates(inp: Input, hash: seq<HashEntry>, i: nat, name: Name)
    requires i < |inp.syms| && LinksInside(hash) && SymOk(inp.syms[i], |hash|) && inp.syms[i].typ != N_BINCL
    ensures var sym := inp.syms[i];
            var h := if sym.hash.Some? then Some(hash[sym.hash.value]) else None;
            var r := if sym.hash.Some? then Some(Behind(hash, sym.hash.value)) else None;
            var s := ShapeOf(inp, sym, h, r);
            Relocated(inp, hash, i, OutSym(name, s.typ, sym.other, sym.desc, s.value))
  {
    hide Behind, HeaderSum, Stabs, WithType, SectionOf, HomeOf, SetSection, IsLinkType;
    var sym := inp.syms[i];
    Codes(sym.typ);
    if sym.hash.Some? && SectionOf(sym.typ).None? && !Dangling(hash, sym) {
      hide TypeField;
      ShapeTakesOver(inp, sym, hash[sym.hash.value], Behind(hash, sym.hash.value));
    }
  }

  /** A symbol that is looked at in full (neither passed through nor skipped) and copied comes out relocated. */
  lemma JudgeRelocates(info: Info, inp: Input, hash: seq<HashEntry>, i: nat)
    requires i < |inp.syms| && LinksInside(hash) && SymOk(inp.syms[i], |hash|)
    ensures var v, sym := Judge(info, inp, hash, inp.syms[i], false, false), inp.syms[i];
            v.Copied? ==>
              && v.sym.other == sym.other && v.sym.desc == sym.desc && (v.header.Some? <==> sym.typ == N_BINCL)
              && (v.header.None? ==> Relocated(inp, hash, i, v.sym))
  {
    hide ShapeOf, Resolve, HeaderSum, Stabs, IsStripped, IsDiscarded, Relocated, SectionOf;
    var sym := inp.syms[i];
    var v := Judge(info, inp, hash, sym, false, false);
    JudgeTypes(info, inp, hash, sym, false, false);
    if sym.hash.None? {
      LocalShape(inp, sym);
    }
    if v.Copied? && sym.typ != N_BINCL {
      ShapeRelocates(inp, hash, i, v.sym.name);
    }
  }

  // ----- only `written` and `indx` change -----

  lemma {:induction false} SameResolve(a: seq<HashEntry>, b: seq<HashEntry>, h: nat, fuel: nat)
    requires SameTable(a, b) && h < |a| && LinksInside(a) && LinksInside(b)
    ensures Resolve(a, h, fuel) == Resolve(b, h, fuel)
    decreases fuel
  {
    if fuel > 0 && IsLink(a[h]) {
      SameResolve(a, b, a[h].link, fuel - 1);
    }
  }

  /** What a symbol should say does not depend on how far the link has come. */
  lemma SameMeaning(info: Info, inp: Input, a: seq<HashEntry>, b: seq<HashEntry>, linked: bool, i: nat, out: OutSym)
    requires SameTable(a, b) && LinksInside(a) && LinksInside(b) && i < |inp.syms| && SymOk(inp.syms[i], |a|)
    ensures SymTrue(inp, a, linked, i, out) == SymTrue(inp, b, linked, i, out)
    ensures Relocated(inp, a, i, out) == Relocated(inp, b, i, out)
    ensures MayStay(info, a, inp.syms[i]) == MayStay(info, b, inp.syms[i])
    ensures HasMeaning(a, inp.syms[i]) == HasMeaning(b, inp.syms[i]) && Dangling(a, inp.syms[i]) == Dangling(b, inp.syms[i])
  {
    hide Resolve, HeaderSum, Stabs, SectionOf, TypeField, LinksInside;
    var sym := inp.syms[i];
    if sym.hash.Some? {
      SameResolve(a, b, sym.hash.value, |a|);
      var x, y := Behind(a, sym.hash.value), Behind(b, sym.hash.value);
      assert x == y.(written := x.written, indx := x.indx);
    }
  }

  // ----- all symbols of a file -----

  /** No earlier symbol was mapped to the same place: this one was copied there. */
  predicate First(map_: seq<int>, i: nat)
    requires i < |map_|
  {
    forall j :: 0 <= j < i ==> map_[j] != map_[i]
  }

  /** An earlier header was found to be a duplicate. */
  ghost predicate AfterExcl(inp: Input, map_: seq<int>, base: nat, off: nat, syms: seq<OutSym>, i: nat)
    requires i <= |map_| <= |inp.syms|
  {
    exists j :: 0 <= j < i && inp.syms[j].typ == N_BINCL && map_[j] >= base && 0 <= map_[j] - off < |syms| && syms[map_[j] - off].typ == N_EXCL
  }

  /** The symbol before is an indirection or a warning, itself no target of one, that leads to an output symbol. */
  predicate JustLinked(inp: Input, map_: seq<int>, i: nat)
    requires i <= |map_| <= |inp.syms|
  {
    i > 0 && IsLinkType(inp.syms[i - 1].typ) && !AfterLink(inp, map_, i - 1) && map_[i - 1] >= 0
  }

  /** It was copied as it is, for it leads nowhere; its target has to follow it. */
  predicate Wants(inp: Input, hash: seq<HashEntry>, map_: seq<int>, base: nat, i: nat)
    requires 0 < i <= |map_| <= |inp.syms| && LinksInside(hash) && SymOk(inp.syms[i - 1], |hash|)
  {
    map_[i - 1] >= base && First(map_, i - 1) && Dangling(hash, inp.syms[i - 1])
  }

  /** Where symbol `i` went and what stands there; `syms` starts at position `off`, the symbols of the file at `base`. */
  ghost predicate SymbolAt(info: Info, inp: Input, hash: seq<HashEntry>, map_: seq<int>, base: nat, off: nat, syms: seq<OutSym>, i: nat)
    requires i < |map_| <= |inp.syms| && off <= base && LinksInside(hash) && HashesInside(inp, |hash|)
  {
    var m, sym, linked := map_[i], inp.syms[i], AfterLink(inp, map_, i);
    && (m >= base ==> m - off < |syms|)
    && (m >= base && First(map_, i) ==> SymTrue(inp, hash, linked, i, syms[m - off]) && (linked || MayStay(info, hash, sym)))
    && (m < 0 && !linked ==> !MayStay(info, hash, sym) || !HasMeaning(hash, sym) || AfterExcl(inp, map_, base, off, syms, i))
    && (JustLinked(inp, map_, i) ==>
          if !Wants(inp, hash, map_, base, i) then m == -1
          else if m < base then m == -1 && AfterExcl(inp, map_, base, off, syms, i)
          else syms[m - off] == OutSym(sym.name, sym.typ, sym.other, sym.desc, sym.value))
  }

  /** Every symbol of the file: copied with its meaning, or left out for a reason. */
  ghost predicate SymbolsTrue(info: Info, inp: Input, hash: seq<HashEntry>, map_: seq<int>, base: nat, off: nat, syms: seq<OutSym>) {
    && |map_| <= |inp.syms| && off <= base && LinksInside(hash) && HashesInside(inp, |hash|)
    && forall i :: 0 <= i < |map_| ==> SymbolAt(info, inp, hash, map_, base, off, syms, i)
  }

  lemma WantsStays(info: Info, inp: Input, hash: seq<HashEntry>, map_: seq<int>, base: nat, i: nat, hash': seq<HashEntry>, more: seq<int>)
    requires 0 < i <= |map_| && |map_ + more| <= |inp.syms| && LinksInside(hash) && SymOk(inp.syms[i - 1], |hash|)
    requires SameTable(hash', hash) && LinksInside(hash') && SymOk(inp.syms[i - 1], |hash'|)
    ensures JustLinked(inp, map_ + more, i) == JustLinked(inp, map_, i)
    ensures Wants(inp, hash', map_ + more, base, i) == Wants(inp, hash, map_, base, i)
  {
    hide LinksInside, SameTable, AfterLink, Dangling;
    AfterLinkStays(inp, map_, more, i - 1);
    SameMeaning(info, inp, hash', hash, false, i - 1, OutSym([], 0, 0, 0, 0));
    assert forall j :: 0 <= j <= i - 1 ==> (map_ + more)[j] == map_[j];
  }

  /** Later symbols, and later changes of the table, change nothing about it. */
  lemma SymbolStays(info: Info, inp: Input, hash: seq<HashEntry>, map_: seq<int>, base: nat, off: nat, syms: seq<OutSym>, i: nat,
                    hash': seq<HashEntry>, more: seq<int>, off': nat, syms': seq<OutSym>)
    requires i < |map_| && |map_ + more| <= |inp.syms| && off <= base && off' <= off && LinksInside(hash) && HashesInside(inp, |hash|)
    requires SymbolAt(info, inp, hash, map_, base, off, syms, i)
    requires SameTable(hash', hash) && LinksInside(hash') && HashesInside(inp, |hash'|)
    requires |syms| + (off - off') <= |syms'| && syms'[off - off'..][..|syms|] == syms
    ensures SymbolAt(info, inp, hash', map_ + more, base, off', syms', i)
  {
    hide SymTrue, MayStay, LinksInside, SameTable, AfterLink;
    HashInside(inp, |hash|, i);
    var m, map' := map_[i], map_ + more;
    assert forall j :: 0 <= j <= i ==> map'[j] == map_[j];
    forall k | 0 <= k < |syms| ensures syms'[k + (off - off')] == syms[k] {
      assert syms'[off - off'..][..|syms|][k] == syms[k];
    }
    AfterLinkStays(inp, map_, more, i);
    if i > 0 {
      WantsStays(info, inp, hash, map_, base, i, hash', more);
    }
    SameMeaning(info, inp, hash', hash, AfterLink(inp, map_, i), i, if 0 <= m - off < |syms| then syms[m - off] else OutSym([], 0, 0, 0, 0));
    if AfterExcl(inp, map_, base, off, syms, i) {
      var j :| 0 <= j < i && inp.syms[j].typ == N_BINCL && map_[j] >= base && 0 <= map_[j] - off < |syms| && syms[map_[j] - off].typ == N_EXCL;
      assert syms'[map_[j] - off'] == syms[(map_[j] - off)];
      assert AfterExcl(inp, map', base, off', syms', i);
    }
  }

  lemma SymbolsStayTrue(info: Info, inp: Input, hash: seq<HashEntry>, map_: seq<int>, base: nat, off: nat, syms: seq<OutSym>,
                        hash': seq<HashEntry>, off': nat, syms': seq<OutSym>)
    requires SymbolsTrue(info, inp, hash, map_, base, off, syms) && off' <= off
    requires SameTable(hash', hash) && LinksInside(hash') && HashesInside(inp, |hash'|)
    requires |syms| + (off - off') <= |syms'| && syms'[off - off'..][..|syms|] == syms
    ensures SymbolsTrue(info, inp, hash', map_, base, off', syms')
  {
    hide SymbolAt, SameTable, LinksInside, HashesInside;
    forall i | 0 <= i < |map_| ensures SymbolAt(info, inp, hash', map_, base, off', syms', i) {
      SymbolStays(info, inp, hash, map_, base, off, syms, i, hash', [], off', syms');
      assert map_ + [] == map_;
    }
  }

  // ----- the symbol loop -----

  /** Every number handed out by the loop belongs to a symbol that was mapped to it. */
  ghost predicate AllMapped(map_: seq<int>, base: nat, n: nat) {
    forall p :: base <= p < base + n ==> p in map_
  }

  ghost predicate IndicesBelow(hash: seq<HashEntry>, n: nat) {
    forall h :: 0 <= h < |hash| ==> hash[h].indx < n
  }

  /** The state after `i` symbols: all of them true, the flags set only by links, the marks only by duplicates. */
  ghost predicate CopyTrue(info: Info, inp: Input, hash: seq<HashEntry>, c: Copying, i: nat, base: nat) {
    && CopyOk(inp, c, i) && SameTable(c.hash, hash) && LinksInside(hash) && HashesInside(inp, |hash|)
    && SymbolsTrue(info, inp, hash, c.map_, base, base, c.syms)
    && IndicesBelow(c.hash, base + |c.syms|) && AllMapped(c.map_, base, |c.syms|)
    && (c.pass || c.skipNext ==> AfterLink(inp, c.map_, i)) && !(c.pass && c.skipNext) && Accounted(info, c.hash)
    && FlagsTrue(inp, hash, c, i, base)
    && ((exists k :: 0 <= k < |c.marks| && c.marks[k]) ==> AfterExcl(inp, c.map_, base, base, c.syms, i))
  }

  predicate FlagsTrue(inp: Input, hash: seq<HashEntry>, c: Copying, i: nat, base: nat) {
    i <= |c.map_| <= |inp.syms| && LinksInside(hash) && HashesInside(inp, |hash|)
    && (JustLinked(inp, c.map_, i) ==> if Wants(inp, hash, c.map_, base, i) then c.pass else c.skipNext)
  }

  /** One more symbol in the map, and perhaps one more written. */
  lemma MapMore(info: Info, inp: Input, hash: seq<HashEntry>, c: Copying, i: nat, base: nat, m: int, out: seq<OutSym>)
    requires CopyTrue(info, inp, hash, c, i, base) && i < |inp.syms| && |out| <= 1
    requires (m < base && out == []) || (base <= m < base + |c.syms| && out == []) || (m == base + |c.syms| && |out| == 1)
    requires m < 0 && !AfterLink(inp, c.map_, i) ==> !MustStayAt(info, inp, hash, i) || AfterExcl(inp, c.map_, base, base, c.syms, i)
    requires c.skipNext ==> m == -1
    requires c.pass ==> if |out| == 1 then RawAt(inp, i, out[0]) else m == -1 && AfterExcl(inp, c.map_, base, base, c.syms, i)
    requires |out| == 1 ==> SymTrueAt(inp, hash, AfterLink(inp, c.map_, i), i, out[0]) && (AfterLink(inp, c.map_, i) || MayStayAt(info, inp, hash, i))
    ensures SymbolsTrue(info, inp, hash, c.map_ + [m], base, base, c.syms + out)
    ensures AllMapped(c.map_ + [m], base, |c.syms + out|)
    ensures AfterExcl(inp, c.map_, base, base, c.syms, i) ==> AfterExcl(inp, c.map_ + [m], base, base, c.syms + out, i + 1)
  {
    hide SymTrue, MayStay, LinksInside, AfterLink, Dangling;
    var map', syms' := c.map_ + [m], c.syms + out;
    SameTableRefl(hash);
    assert syms'[0..][..|c.syms|] == c.syms;
    HashInside(inp, |hash|, i);
    AfterLinkStays(inp, c.map_, [m], i);
    forall k | 0 <= k < |map'| ensures SymbolAt(info, inp, hash, map', base, base, syms', k) {
      if k < i {
        assert SymbolAt(info, inp, hash, c.map_, base, base, c.syms, k);
        SymbolStays(info, inp, hash, c.map_, base, base, c.syms, k, hash, [m], base, syms');
      } else {
        ExclStays(inp, c.map_, base, c.syms, i, m, out);
        if i > 0 {
          WantsStays(info, inp, hash, c.map_, base, i, hash, [m]);
        }
        if base <= m < base + |c.syms| {
          assert m in c.map_;
          var j :| 0 <= j < |c.map_| && c.map_[j] == m;
          assert map'[j] == m && !First(map', i);
        }
      }
    }
    forall p | base <= p < base + |syms'| ensures p in map' {
      if p < base + |c.syms| {
        assert p in c.map_;
      } else {
        assert map'[i] == p;
      }
    }
    ExclStays(inp, c.map_, base, c.syms, i, m, out);
  }

  predicate MayStayAt(info: Info, inp: Input, hash: seq<HashEntry>, i: nat) {
    i < |inp.syms| && SymOk(inp.syms[i], |hash|) && MayStay(info, hash, inp.syms[i])
  }

  predicate MustStayAt(info: Info, inp: Input, hash: seq<HashEntry>, i: nat) {
    MayStayAt(info, inp, hash, i) && HasMeaning(hash, inp.syms[i])
  }

  predicate RawAt(inp: Input, i: nat, out: OutSym) {
    i < |inp.syms| && out == OutSym(inp.syms[i].name, inp.syms[i].typ, inp.syms[i].other, inp.syms[i].desc, inp.syms[i].value)
  }

  predicate SymTrueAt(inp: Input, hash: seq<HashEntry>, linked: bool, i: nat, out: OutSym) {
    i < |inp.syms| && LinksInside(hash) && SymOk(inp.syms[i], |hash|) && SymTrue(inp, hash, linked, i, out)
  }

  lemma ExclStays(inp: Input, map_: seq<int>, base: nat, syms: seq<OutSym>, i: nat, m: int, out: seq<OutSym>)
    requires i == |map_| < |inp.syms|
    ensures AfterExcl(inp, map_, base, base, syms, i) ==> AfterExcl(inp, map_ + [m], base, base, syms + out, i)
    ensures AfterExcl(inp, map_, base, base, syms, i) ==> AfterExcl(inp, map_ + [m], base, base, syms + out, i + 1)
  {
    var map', syms' := map_ + [m], syms + out;
    if AfterExcl(inp, map_, base, base, syms, i) {
      var j :| 0 <= j < i && inp.syms[j].typ == N_BINCL && map_[j] >= base && 0 <= map_[j] - base < |syms| && syms[map_[j] - base].typ == N_EXCL;
      assert map'[j] == map_[j] && syms'[map_[j] - base] == syms[map_[j] - base];
    }
  }

  /** A symbol struck out. */
  lemma StruckTrue(info: Info, inp: Input, hash: seq<HashEntry>, c: Copying, i: nat, base: nat)
    requires CopyTrue(info, inp, hash, c, i, base) && i < |inp.syms| && c.marks[0]
    ensures CopyTrue(info, inp, hash, Turn(info, inp, c, i, base), i + 1, base)
  {
    hide Turn, SymbolsTrue, AllMapped, IndicesBelow, SameTable, AfterExcl, AfterLink, FlagsTrue;
    TurnStruck(info, inp, c, i, base);
    MapMore(info, inp, hash, c, i, base, -1, []);
    assert c.syms + [] == c.syms;
    LinkCarries(inp, c.map_, -1, i);
    FlagsCarried(inp, hash, Turn(info, inp, c, i, base), c.map_, i, base);
  }

  /** The flags after symbol `i`, which was struck out or is no link that leads to a symbol. */
  lemma FlagsCarried(inp: Input, hash: seq<HashEntry>, c: Copying, map_: seq<int>, i: nat, base: nat)
    requires i == |map_| < |inp.syms| && LinksInside(hash) && HashesInside(inp, |hash|)
    requires |c.map_| == i + 1 && c.map_[..i] == map_
    requires c.map_[i] < 0 || !IsLinkType(inp.syms[i].typ) || AfterLink(inp, map_, i)
    ensures FlagsTrue(inp, hash, c, i + 1, base)
  {
    hide AfterLink, LinksInside;
    HashInside(inp, |hash|, i);
    assert c.map_ == map_ + [c.map_[i]];
    AfterLinkStays(inp, map_, [c.map_[i]], i);
  }

  lemma MapsBelow(info: Info, inp: Input, hash: seq<HashEntry>, map_: seq<int>, base: nat, syms: seq<OutSym>)
    requires SymbolsTrue(info, inp, hash, map_, base, base, syms)
    ensures forall j :: 0 <= j < |map_| ==> map_[j] < base + |syms|
  {
    forall j | 0 <= j < |map_| ensures map_[j] < base + |syms| {
      assert SymbolAt(info, inp, hash, map_, base, base, syms, j);
    }
  }

  /** The flags after a link. */
  lemma FlagsSet(info: Info, inp: Input, hash: seq<HashEntry>, was: Copying, c: Copying, i: nat, base: nat, v: Verdict)
    requires i < |inp.syms| && CopyOk(inp, was, i) && LinksInside(hash) && HashesInside(inp, |hash|) && SameTable(was.hash, hash)
    requires SymOk(inp.syms[i], |was.hash|) && v == Judge(info, inp, was.hash, inp.syms[i], false, false)
    requires |c.map_| == i + 1 && c.map_[..i] == was.map_ && AllMapped(was.map_, base, |was.syms|)
    requires v.Copied? ==> c.map_[i] == base + |was.syms| && c.pass == v.pass && forall j :: 0 <= j < i ==> was.map_[j] < base + |was.syms|
    requires v.Skipped? ==> c.map_[i] == v.mapped < base + |was.syms|
    requires c.skipNext == v.skipNext
    ensures FlagsTrue(inp, hash, c, i + 1, base)
  {
    hide AfterLink, LinksInside, Judge, Dangling, SameTable;
    HashInside(inp, |hash|, i);
    JudgeFlags(info, inp, was.hash, inp.syms[i]);
    SameMeaning(info, inp, was.hash, hash, false, i, OutSym([], 0, 0, 0, 0));
    assert forall j :: 0 <= j < i ==> c.map_[j] == was.map_[j];
    if v.Skipped? && v.mapped >= base {
      assert v.mapped in was.map_;
      assert !First(c.map_, i);
    }
  }

  lemma LinkCarries(inp: Input, map_: seq<int>, m: int, i: nat)
    requires i == |map_| < |inp.syms|
    ensures m == -1 && AfterLink(inp, map_, i) ==> AfterLink(inp, map_ + [m], i + 1)
    ensures IsLinkType(inp.syms[i].typ) ==> AfterLink(inp, map_ + [m], i + 1)
  {
    AfterLinkStays(inp, map_, [m], i);
  }

  lemma IndicesTouched(hash: seq<HashEntry>, n: nat, h: Option<nat>, count: nat)
    requires IndicesBelow(hash, n) && LinksInside(hash) && (h.Some? ==> h.value < |hash|)
    ensures IndicesBelow(MarkedWritten(hash, h), n) && SameTable(MarkedWritten(hash, h), hash)
    ensures count == n ==> IndicesBelow(Owned(hash, h, count), n + 1) && SameTable(Owned(hash, h, count), hash)
  {
  }

  /** A symbol that is skipped. */
  lemma SkippedTrue(info: Info, inp: Input, hash: seq<HashEntry>, c: Copying, i: nat, base: nat, v: Verdict)
    requires CopyTrue(info, inp, hash, c, i, base) && i < |inp.syms| && !c.marks[0] && IndicesBelow(c.hash, base + |c.syms|)
    requires v == Judge(info, inp, c.hash, inp.syms[i], c.pass, c.skipNext) && v.Skipped?
    ensures CopyTrue(info, inp, hash, Turn(info, inp, c, i, base), i + 1, base)
  {
    hide Turn, SymbolsTrue, AllMapped, SameTable, AfterExcl, AfterLink, Real, MayStay, HeaderSum, Struck, Stabs, WasSeen, See, Resolve, ShapeOf,
         FlagsTrue, Accounted, HasMeaning, Nameable, MayStrip;
    var sym := inp.syms[i];
    HashInside(inp, |c.hash|, i);
    var target := if c.pass || c.skipNext then sym.hash else Real(c.hash, sym.hash);
    JudgeMaps(info, inp, c.hash, sym, c.pass, c.skipNext);
    TurnJudged(info, inp, c, i, base, v, target);
    if !c.pass && !c.skipNext {
      JudgeSkips(info, inp, c.hash, sym);
      JudgeFlags(info, inp, c.hash, sym);
    }
    SameMeaning(info, inp, c.hash, hash, false, i, OutSym([], 0, 0, 0, 0));
    MapMore(info, inp, hash, c, i, base, v.mapped, []);
    assert c.syms + [] == c.syms;
    LinkCarries(inp, c.map_, v.mapped, i);
    IndicesTouched(c.hash, base + |c.syms|, v.marked, 0);
    if v.marked.Some? {
      AccountedTouch(info, c.hash, v.marked.value, true, c.hash[v.marked.value].indx);
    }
    if c.pass || c.skipNext {
      FlagsCarried(inp, hash, Turn(info, inp, c, i, base), c.map_, i, base);
    } else {
      FlagsSet(info, inp, hash, c, Turn(info, inp, c, i, base), i, base, v);
    }
    SameTableTrans(MarkedWritten(c.hash, v.marked), c.hash, hash);
  }

  /** What is written for a copied symbol is true. */
  lemma CopiedOut(info: Info, inp: Input, hash: seq<HashEntry>, c: Copying, i: nat, base: nat, v: Verdict, dup: bool)
    requires CopyTrue(info, inp, hash, c, i, base) && i < |inp.syms|
    requires v == Judge(info, inp, c.hash, inp.syms[i], c.pass, c.skipNext) && v.Copied?
    ensures var out := if v.header.Some? then HeaderSym(v.sym, HeaderSum(Stabs(inp.syms)[i + 1..], 0), dup) else v.sym;
            && SymTrueAt(inp, hash, AfterLink(inp, c.map_, i), i, out) && (AfterLink(inp, c.map_, i) || MayStayAt(info, inp, hash, i))
            && (v.pass || v.skipNext ==> IsLinkType(inp.syms[i].typ)) && !(v.pass && v.skipNext)
            && (v.header.Some? ==> inp.syms[i].typ == N_BINCL) && (c.pass ==> RawAt(inp, i, out)) && !c.skipNext
  {
    hide FlagsTrue, Accounted, SymbolsTrue, AllMapped, SameTable, AfterExcl, AfterLink, MayStay, HeaderSum, Stabs, Resolve, ShapeOf, IndicesBelow;
    var sym := inp.syms[i];
    HashInside(inp, |c.hash|, i);
    HashInside(inp, |hash|, i);
    var out := if v.header.Some? then HeaderSym(v.sym, HeaderSum(Stabs(inp.syms)[i + 1..], 0), dup) else v.sym;
    if !c.pass {
      JudgeStays(info, inp, c.hash, sym);
      JudgeFlags(info, inp, c.hash, sym);
      JudgeRelocates(info, inp, c.hash, i);
    }
    SameMeaning(info, inp, c.hash, hash, AfterLink(inp, c.map_, i), i, out);
  }

  lemma CopiedFlags(info: Info, inp: Input, hash: seq<HashEntry>, c: Copying, c': Copying, i: nat, base: nat, v: Verdict)
    requires CopyTrue(info, inp, hash, c, i, base) && i < |inp.syms| && !c.skipNext && SymOk(inp.syms[i], |c.hash|)
    requires v == Judge(info, inp, c.hash, inp.syms[i], c.pass, c.skipNext) && v.Copied?
    requires c'.map_ == c.map_ + [base + |c.syms|] && c'.pass == v.pass && c'.skipNext == v.skipNext
    ensures FlagsTrue(inp, hash, c', i + 1, base)
  {
    hide SymbolsTrue, AllMapped, SameTable, AfterExcl, AfterLink, FlagsTrue, Judge, IndicesBelow, Accounted;
    if c.pass {
      FlagsCarried(inp, hash, c', c.map_, i, base);
    } else {
      MapsBelow(info, inp, hash, c.map_, base, c.syms);
      FlagsSet(info, inp, hash, c, c', i, base, v);
    }
  }

  /** A symbol that is copied. */
  lemma CopiedTrue(info: Info, inp: Input, hash: seq<HashEntry>, c: Copying, i: nat, base: nat, v: Verdict)
    requires CopyTrue(info, inp, hash, c, i, base) && i < |inp.syms| && !c.marks[0]
    requires v == Judge(info, inp, c.hash, inp.syms[i], c.pass, c.skipNext) && v.Copied?
    ensures CopyTrue(info, inp, hash, Turn(info, inp, c, i, base), i + 1, base)
  {
    hide Turn, SymbolsTrue, AllMapped, SameTable, AfterExcl, AfterLink, Real, MayStay, HeaderSum, Struck, Stabs, WasSeen, See, Resolve,
         ShapeOf, SymTrueAt, MayStayAt, IndicesBelow, Judge, FlagsTrue, Accounted, HasMeaning, Nameable, MayStrip;
    var sym, n := inp.syms[i], base + |c.syms|;
    HashInside(inp, |c.hash|, i);
    var target := if c.pass || c.skipNext then sym.hash else Real(c.hash, sym.hash);
    var total := HeaderSum(Stabs(inp.syms)[i + 1..], 0);
    var dup := v.header.Some? && WasSeen(c.seen, v.header.value, total);
    TurnJudged(info, inp, c, i, base, v, target);
    CopiedOut(info, inp, hash, c, i, base, v, dup);
    var out := if v.header.Some? then HeaderSym(v.sym, total, dup) else v.sym;
    MapMore(info, inp, hash, c, i, base, n, [out]);
    LinkCarries(inp, c.map_, n, i);
    IndicesTouched(c.hash, n, v.owner, n);
    if v.owner.Some? {
      AccountedTouch(info, c.hash, v.owner.value, true, n);
    }
    CopiedFlags(info, inp, hash, c, Turn(info, inp, c, i, base), i, base, v);
    SameTableTrans(Owned(c.hash, v.owner, n), c.hash, hash);
    if dup {
      NowExcl(inp, c.map_, base, c.syms, i, out);
    }
  }

  lemma NowExcl(inp: Input, map_: seq<int>, base: nat, syms: seq<OutSym>, i: nat, out: OutSym)
    requires i == |map_| < |inp.syms| && inp.syms[i].typ == N_BINCL && out.typ == N_EXCL
    ensures AfterExcl(inp, map_ + [base + |syms|], base, base, syms + [out], i + 1)
  {
    assert (map_ + [base + |syms|])[i] == base + |syms| && (syms + [out])[|syms|] == out;
  }

  /** The symbol loop copies each symbol with its meaning, or leaves it out for a reason. */
  lemma {:induction false} CopyIsTrue(info: Info, inp: Input, hash: seq<HashEntry>, seen: Seen, base: nat, i: nat)
    requires i <= |inp.syms| && LinksInside(hash) && HashesInside(inp, |hash|) && IndicesBelow(hash, base) && Accounted(info, hash)
    ensures CopyTrue(info, inp, hash, Copy(info, inp, hash, seen, base, i), i, base)
  {
    hide Turn, SymbolsTrue, SameTable, AfterExcl, AfterLink, Judge, IndicesBelow, AllMapped, LinksInside, HashesInside, Accounted;
    var c := Copy(info, inp, hash, seen, base, i);
    if i == 0 {
      SameTableRefl(hash);
      NothingCopied(info, inp, hash, base);
    } else {
      var was := Copy(info, inp, hash, seen, base, i - 1);
      CopyIsTrue(info, inp, hash, seen, base, i - 1);
      if was.marks[0] {
        StruckTrue(info, inp, hash, was, i - 1, base);
      } else {
        HashInside(inp, |was.hash|, i - 1);
        var v := Judge(info, inp, was.hash, inp.syms[i - 1], was.pass, was.skipNext);
        if v.Skipped? {
          SkippedTrue(info, inp, hash, was, i - 1, base, v);
        } else {
          CopiedTrue(info, inp, hash, was, i - 1, base, v);
        }
      }
    }
  }

  lemma NothingCopied(info: Info, inp: Input, hash: seq<HashEntry>, base: nat)
    requires LinksInside(hash) && HashesInside(inp, |hash|)
    ensures SymbolsTrue(info, inp, hash, [], base, base, []) && AllMapped([], base, 0)
  {
  }

  // ----- indirections -----

  /** The entry `n` links further on. */
  function Follow(hash: seq<HashEntry>, h: nat, n: nat): (r: nat)
    requires h < |hash| && LinksInside(hash)
    ensures r < |hash|
  {
    if n == 0 then h else var r := Follow(hash, h, n - 1); if IsLink(hash[r]) then hash[r].link else r
  }

  /** `r` is the first entry behind `h` that is no indirection and no warning. */
  ghost predicate EndsAt(hash: seq<HashEntry>, h: nat, r: nat)
    requires h < |hash| && LinksInside(hash)
  {
    r < |hash| && !IsLink(hash[r]) && exists n: nat :: Follow(hash, h, n) == r
  }

  lemma {:induction false} FollowFirst(hash: seq<HashEntry>, h: nat, n: nat)
    requires h < |hash| && LinksInside(hash) && IsLink(hash[h])
    ensures Follow(hash, h, n + 1) == Follow(hash, hash[h].link, n)
  {
    if n == 0 {
      assert Follow(hash, h, 0) == h;
    } else {
      FollowFirst(hash, h, n - 1);
    }
  }

  lemma {:induction false} FollowResolves(hash: seq<HashEntry>, h: nat, fuel: nat, n: nat)
    requires h < |hash| && LinksInside(hash) && n <= fuel && !IsLink(hash[Follow(hash, h, n)])
    ensures Resolve(hash, h, fuel) == Follow(hash, h, n)
    decreases n
  {
    if !IsLink(hash[h]) {
      FollowStays(hash, h, n);
    } else {
      assert n > 0 by { assert Follow(hash, h, 0) == h; }
      FollowFirst(hash, h, n - 1);
      FollowResolves(hash, hash[h].link, fuel - 1, n - 1);
    }
  }

  lemma {:induction false} FollowStays(hash: seq<HashEntry>, h: nat, n: nat)
    requires h < |hash| && LinksInside(hash) && !IsLink(hash[h])
    ensures Follow(hash, h, n) == h
  {
    if n > 0 {
      FollowStays(hash, h, n - 1);
    }
  }

  /** The first `k` entries of a chain. */
  function Chain(hash: seq<HashEntry>, h: nat, k: nat): set<nat>
    requires h < |hash| && LinksInside(hash)
  {
    set m | 0 <= m < k :: Follow(hash, h, m)
  }

  /** A chain that ends never comes back to an entry. */
  lemma {:induction false} ChainSize(hash: seq<HashEntry>, h: nat, n: nat, k: nat)
    requires h < |hash| && LinksInside(hash) && k <= n && !IsLink(hash[Follow(hash, h, n)])
    requires forall m :: 0 <= m < n ==> IsLink(hash[Follow(hash, h, m)])
    ensures |Chain(hash, h, k)| == k
  {
    hide Follow, LinksInside;
    if k > 0 {
      ChainSize(hash, h, n, k - 1);
      var next := Follow(hash, h, k - 1);
      forall j | 0 <= j < k - 1 ensures Follow(hash, h, j) != next {
        FollowSum(hash, h, k - 1, n - (k - 1));
        FollowSum(hash, h, j, n - (k - 1));
      }
      assert Chain(hash, h, k) == Chain(hash, h, k - 1) + {next};
    }
  }

  lemma {:induction false} FollowSum(hash: seq<HashEntry>, h: nat, p: nat, q: nat)
    requires h < |hash| && LinksInside(hash)
    ensures Follow(hash, h, p + q) == Follow(hash, Follow(hash, h, p), q)
  {
    if q > 0 {
      FollowSum(hash, h, p, q - 1);
    }
  }

  lemma {:induction false} BoundedSet(seen: set<nat>, n: nat)
    requires forall x :: x in seen ==> x < n
    ensures |seen| <= n
  {
    if n == 0 {
      assert seen == {};
    } else {
      BoundedSet(seen - {n - 1}, n - 1);
    }
  }

  /** The first of the links from `n` back that is none. */
  lemma {:induction false} FirstEnd(hash: seq<HashEntry>, h: nat, n: nat) returns (k: nat)
    requires h < |hash| && LinksInside(hash) && !IsLink(hash[Follow(hash, h, n)])
    ensures k <= n && !IsLink(hash[Follow(hash, h, k)]) && forall m :: 0 <= m < k ==> IsLink(hash[Follow(hash, h, m)])
    ensures Follow(hash, h, k) == Follow(hash, h, n)
  {
    k := n;
    if m :| 0 <= m < n && !IsLink(hash[Follow(hash, h, m)]) {
      k := FirstEnd(hash, h, m);
      FollowSum(hash, h, k, n - k);
      FollowStays(hash, Follow(hash, h, k), n - k);
    }
  }

  /** As many steps as there are entries find the end of any chain that has one. */
  lemma ResolveEnds(hash: seq<HashEntry>, h: nat, r: nat)
    requires h < |hash| && LinksInside(hash) && EndsAt(hash, h, r)
    ensures Resolve(hash, h, |hash|) == r
  {
    hide LinksInside;
    var n: nat :| Follow(hash, h, n) == r;
    var k := FirstEnd(hash, h, n);
    ChainSize(hash, h, k, k);
    BoundedSet(Chain(hash, h, k), |hash|);
    FollowResolves(hash, h, |hash|, k);
  }

  // ----- what relocs against a symbol lead to -----

  /** The entry relocs against symbol `i` go by: the one its own leads to, if it leads anywhere.  The target of an
      indirection or warning, and what a repeated header makes superfluous, are not followed. */
  ghost predicate TargetTrue(inp: Input, hash: seq<HashEntry>, map_: seq<int>, base: nat, syms: seq<OutSym>, i: nat, target: Option<nat>)
    requires i < |map_| <= |inp.syms| && LinksInside(hash) && HashesInside(inp, |hash|)
  {
    if inp.syms[i].hash.None? then target.None?
    else
      var h := inp.syms[i].hash.value;
      && target.Some? && (h < |hash| && !IsLink(hash[h]) ==> target.value == h)
      && (h < |hash| && !AfterLink(inp, map_, i) && !AfterExcl(inp, map_, base, base, syms, i) ==>
            forall r: nat :: EndsAt(hash, h, r) ==> target.value == r)
  }

  lemma RealEnds(hash: seq<HashEntry>, h: nat)
    requires h < |hash| && LinksInside(hash)
    ensures !IsLink(hash[h]) ==> Real(hash, Some(h)) == Some(h)
    ensures forall r: nat :: EndsAt(hash, h, r) ==> Real(hash, Some(h)) == Some(r)
  {
    forall r: nat | EndsAt(hash, h, r) ensures Real(hash, Some(h)) == Some(r) {
      ResolveEnds(hash, h, r);
    }
  }

  /** One turn: the map and the targets grow by one. */
  lemma TurnExtends(info: Info, inp: Input, c: Copying, i: nat, base: nat) returns (m: int, out: seq<OutSym>, target: Option<nat>)
    requires CopyOk(inp, c, i) && i < |inp.syms|
    ensures var r := Turn(info, inp, c, i, base);
            && r.map_ == c.map_ + [m] && r.syms == c.syms + out && r.targets == c.targets + [target]
            && SymOk(inp.syms[i], |c.hash|)
            && target == if c.marks[0] || c.pass || c.skipNext then inp.syms[i].hash else Real(c.hash, inp.syms[i].hash)
  {
    hide Judge, HeaderSum, WasSeen, See, Struck, Stabs, Real, LinksInside, Turn, HashesInside;
    HashInside(inp, |c.hash|, i);
    var sym := inp.syms[i];
    assert c.syms + [] == c.syms;
    if c.marks[0] {
      TurnStruck(info, inp, c, i, base);
      m, out, target := -1, [], sym.hash;
    } else {
      target := if c.pass || c.skipNext then sym.hash else Real(c.hash, sym.hash);
      var v := Judge(info, inp, c.hash, sym, c.pass, c.skipNext);
      TurnJudged(info, inp, c, i, base, v, target);
      var r := Turn(info, inp, c, i, base);
      m, out := r.map_[i], r.syms[|c.syms|..];
    }
  }

  lemma SameReal(a: seq<HashEntry>, b: seq<HashEntry>, h: Option<nat>)
    requires SameTable(a, b) && LinksInside(a) && LinksInside(b) && |a| == |b| && (h.Some? ==> h.value < |a|)
    ensures Real(a, h) == Real(b, h)
  {
    if h.Some? {
      SameResolve(a, b, h.value, |a|);
    }
  }

  /** The symbol loop gives relocs the right entries. */
  lemma {:induction false} TargetsAreReal(info: Info, inp: Input, hash: seq<HashEntry>, seen: Seen, base: nat, i: nat, j: nat)
    requires j < i <= |inp.syms| && LinksInside(hash) && HashesInside(inp, |hash|) && IndicesBelow(hash, base) && Accounted(info, hash)
    ensures var c := Copy(info, inp, hash, seen, base, i); TargetTrue(inp, hash, c.map_, base, c.syms, j, c.targets[j])
    decreases i
  {
    hide Turn, Copy, SymbolsTrue, SameTable, AfterExcl, AfterLink, IndicesBelow, AllMapped, LinksInside, HashesInside, Accounted, Resolve,
         EndsAt, FlagsTrue;
    var was := Copy(info, inp, hash, seen, base, i - 1);
    CopyStep(info, inp, hash, seen, base, i - 1);
    CopyIsTrue(info, inp, hash, seen, base, i - 1);
    var m, out, target := TurnExtends(info, inp, was, i - 1, base);
    HashInside(inp, |hash|, j);
    AfterLinkStays(inp, was.map_, [m], j);
    ExclLater(inp, was.map_, base, was.syms, j, m, out);
    if j < i - 1 {
      TargetsAreReal(info, inp, hash, seen, base, i - 1, j);
    } else if inp.syms[j].hash.Some? {
      SameReal(was.hash, hash, inp.syms[j].hash);
      RealEnds(hash, inp.syms[j].hash.value);
      assert was.marks[0] ==> AfterExcl(inp, was.map_, base, base, was.syms, j);
      assert was.pass || was.skipNext ==> AfterLink(inp, was.map_, j);
    }
  }

  lemma ExclLater(inp: Input, map_: seq<int>, base: nat, syms: seq<OutSym>, j: nat, m: int, out: seq<OutSym>)
    requires j <= |map_| < |inp.syms|
    ensures AfterExcl(inp, map_, base, base, syms, j) ==> AfterExcl(inp, map_ + [m], base, base, syms + out, j)
  {
    var map', syms' := map_ + [m], syms + out;
    if AfterExcl(inp, map_, base, base, syms, j) {
      var k :| 0 <= k < j && inp.syms[k].typ == N_BINCL && map_[k] >= base && 0 <= map_[k] - base < |syms| && syms[map_[k] - base].typ == N_EXCL;
      assert map'[k] == map_[k] && syms'[map_[k] - base] == syms[map_[k] - base];
    }
  }

  lemma NumbersBelow(hash: seq<HashEntry>, owners: Owners, n: nat)
    requires Numbered(hash, owners) && |owners| <= n
    ensures IndicesBelow(hash, n)
  {
  }

  /** The same among all output symbols, `base` of which were there before, and for the table as it is afterwards. */
  lemma LoopIsTrue(info: Info, inp: Input, hash: seq<HashEntry>, owners: Owners, seen: Seen, before: seq<OutSym>, hash': seq<HashEntry>)
    requires LinksInside(hash) && HashesInside(inp, |hash|) && Numbered(hash, owners) && |owners| <= |before| && Accounted(info, hash)
    requires SameTable(hash', hash) && LinksInside(hash') && |hash'| == |hash|
    ensures var c := Copy(info, inp, hash, seen, |before|, |inp.syms|);
            SymbolsTrue(info, inp, hash', c.map_, |before|, 0, before + c.syms)
  {
    hide Copy, SymbolsTrue, SameTable, LinksInside, HashesInside, Numbered, IndicesBelow, Accounted, AfterExcl, FlagsTrue, AllMapped;
    var c := Copy(info, inp, hash, seen, |before|, |inp.syms|);
    NumbersBelow(hash, owners, |before|);
    CopyIsTrue(info, inp, hash, seen, |before|, |inp.syms|);
    assert (before + c.syms)[|before|..][..|c.syms|] == c.syms;
    SymbolsStayTrue(info, inp, hash, c.map_, |before|, |before|, c.syms, hash', 0, before + c.syms);
  }

  /** The symbol of a file: a text symbol at the start of its text in the output, unless such symbols must go. */
  lemma FileSymMeans(info: Info, inp: Input)
    ensures var fs := FileSym(info, inp);
            var gone := info.strip == StripAll || (info.strip == StripSome && inp.filename !in info.keep) || info.discard == DiscardAll;
            |fs| == (if gone then 0 else 1) &&
            forall s :: s in fs ==> s.name == inp.filename && s.typ == N_TEXT && KeepsDistance(inp.layout.text, inp.layout.text.vma, s.value)
  {
  }
}
