/** a.out symbol types and link hash entries, and the two decisions the linker takes about a symbol:
    what to write for a hash entry, and what to write for an input symbol. */
module AoutSymbols {
  import opened ByteSeq
  import opened AoutIncludes

  type Name = seq<Byte>

  // include/aout/aout64.h and include/aout/stab.def
  const N_UNDF: Byte := 0
  const N_EXT: Byte := 1
  const N_ABS: Byte := 2
  const N_TEXT: Byte := 4
  const N_DATA: Byte := 6
  const N_BSS: Byte := 8
  const N_INDR: Byte := 10
  const N_WEAKU: Byte := 13
  const N_WEAKA: Byte := 14
  const N_WEAKT: Byte := 15
  const N_WEAKD: Byte := 16
  const N_WEAKB: Byte := 17
  const N_SETA: Byte := 20
  const N_SETT: Byte := 22
  const N_SETD: Byte := 24
  const N_SETB: Byte := 26
  const N_WARNING: Byte := 30
  const N_BINCL: Byte := 0x82
  const N_EINCL: Byte := 0xa2
  const N_EXCL: Byte := 0xc2

  /** type & N_TYPE, the bits 0x1e. */
  function TypeField(t: Byte): Byte {
    t / 2 % 16 * 2
  }

  /** type & N_STAB, the bits 0xe0. */
  predicate IsStab(t: Byte) {
    t >= 32
  }

  /** (type & ~N_TYPE) | code. */
  function WithType(t: Byte, code: Byte): Byte
    requires code < 32
  {
    var high, low := t / 32 * 32, t % 2;
    if code % 2 == 1 then high + code else high + low + code
  }

  datatype Section = Text | Data | Bss | Abs

  datatype HashKind = New | Undefined | UndefWeak | Defined | DefWeak | Common | Indirect | Warning

  /** A link hash entry.  `section` and `address` are where a definition ends up in the output, `size` is
      that of a common symbol, `link` the target of an indirect or warning entry. */
  datatype HashEntry = HashEntry(name: Name, kind: HashKind, section: Section, address: int, size: int,
                                 link: nat, written: bool, indx: int)

  predicate IsLink(h: HashEntry) {
    h.kind == Indirect || h.kind == Warning
  }

  predicate IsDefined(h: HashEntry) {
    h.kind == Defined || h.kind == DefWeak
  }

  /** The kinds of entry for which there is always something to write. */
  predicate Nameable(h: HashEntry) {
    h.kind == Undefined || h.kind == UndefWeak || h.kind == Common || IsDefined(h)
  }

  /** The N_ code of a definition. */
  function DefinedType(h: HashEntry): Byte {
    if h.kind == Defined then
      match h.section
      case Text => N_TEXT
      case Data => N_DATA
      case Bss => N_BSS
      case Abs => N_ABS
    else
      match h.section
      case Text => N_WEAKT
      case Data => N_WEAKD
      case Bss => N_WEAKB
      case Abs => N_WEAKA
  }

  /** An nlist entry; the name is kept in the string table. */
  datatype OutSym = OutSym(name: Name, typ: Byte, other: Byte, desc: nat, value: int)

  datatype Strip = StripNone | StripDebugger | StripSome | StripAll
  datatype Discard = DiscardNone | DiscardLocals | DiscardAll

  datatype Info = Info(strip: Strip, keep: set<Name>, discard: Discard, localLabels: set<Name>,
                       keepMemory: bool, relocatable: bool)

  /** Stripping may remove this entry; debugging symbols, which are stabs, have none. */
  predicate MayStrip(info: Info, h: HashEntry) {
    match info.strip
    case StripNone => false
    case StripDebugger => false
    case StripSome => h.name !in info.keep
    case StripAll => true
  }

  // ----- aout_link_write_other_symbol -----

  datatype Other = Emit(sym: OutSym) | Nothing | Abort

  /** The output symbol for an entry that stands for something. */
  function EntrySym(h: HashEntry): OutSym
    requires Nameable(h)
  {
    match h.kind
    case Undefined => OutSym(h.name, 1, 0, 0, 0)
    case Defined => OutSym(h.name, DefinedType(h) + 1, 0, 0, h.address)
    case DefWeak => OutSym(h.name, DefinedType(h) / 2 * 2 + 1, 0, 0, h.address)
    case Common => OutSym(h.name, 1, 0, 0, h.size)
    case UndefWeak => OutSym(h.name, N_WEAKU, 0, 0, 0)
  }

  lemma EntryIsNoStab(h: HashEntry)
    requires Nameable(h)
    ensures EntrySym(h).typ < 32
  {
  }

  /** What is written for an unwritten entry that is no warning.  An indx of -2 overrides stripping. */
  function OtherSymbol(info: Info, h: HashEntry): Other {
    if h.indx != -2 && (info.strip == StripAll || (info.strip == StripSome && h.name !in info.keep)) then Nothing
    else if h.kind == Warning then Abort
    else if Nameable(h) then Emit(EntrySym(h))
    else Nothing
  }

  // ----- how a reader takes a symbol -----

  /** What aout_link_add_symbols makes of an external symbol: a reference, a common block of some size, or a
      definition in a section at an address. */
  datatype Reading = Reference(weak: bool) | CommonBlock(size: int) | Definition(section: Section, address: int, weak: bool) | Unclear

  function ReadGlobal(typ: Byte, value: int): Reading {
    match typ
    case 1 => if value == 0 then Reference(false) else CommonBlock(value)
    case 3 => Definition(Abs, value, false)
    case 5 => Definition(Text, value, false)
    case 7 => Definition(Data, value, false)
    case 9 => Definition(Bss, value, false)
    case 13 => Reference(true)
    case 14 => Definition(Abs, value, true)
    case 15 => Definition(Text, value, true)
    case 16 => Definition(Data, value, true)
    case 17 => Definition(Bss, value, true)
    case _ => Unclear
  }

  /** What the entry itself says. */
  function EntryMeans(h: HashEntry): Reading {
    match h.kind
    case Undefined => Reference(false)
    case UndefWeak => Reference(true)
    case Common => CommonBlock(h.size)
    case Defined => Definition(h.section, h.address, false)
    case DefWeak => Definition(h.section, h.address, true)
    case _ => Unclear
  }

  /** The entries whose meaning an a.out symbol can carry. */
  predicate Expressible(h: HashEntry) {
    !(h.kind == DefWeak && (h.section == Data || h.section == Abs)) && !(h.kind == Common && h.size == 0)
  }

  /** A reader takes the symbol of an entry for what the entry is if and only if it is no weak definition in data
      or absolute and no common block of size zero. */
  lemma EntryReadsBack(h: HashEntry)
    requires Nameable(h)
    ensures ReadGlobal(EntrySym(h).typ, EntrySym(h).value) == EntryMeans(h) <==> Expressible(h)
    ensures EntrySym(h).name == h.name
  {
  }

  /** Nothing is written only for entries that stand for nothing or may be stripped. */
  lemma NothingIsStripped(info: Info, h: HashEntry)
    ensures !OtherSymbol(info, h).Emit? ==> !Nameable(h) || MayStrip(info, h)
    ensures h.indx == -2 && Nameable(h) ==> OtherSymbol(info, h).Emit?
    ensures OtherSymbol(info, h).Emit? ==> Nameable(h) && OtherSymbol(info, h).sym == EntrySym(h)
    ensures OtherSymbol(info, h).Emit? ==> !MayStrip(info, h) || h.indx == -2
    ensures OtherSymbol(info, h).Abort? ==> h.kind == Warning
  {
  }

  /** The section a reader takes a written definition to be in is the right one if and only if it is not a
      weak definition in the data or absolute section: or-ing in N_EXT turns those codes into others. */
  lemma WrittenSection(info: Info, h: HashEntry)
    requires IsDefined(h) && OtherSymbol(info, h).Emit?
    ensures SectionOf(OtherSymbol(info, h).sym.typ) == Some(h.section)
       <==> !(h.kind == DefWeak && (h.section == Data || h.section == Abs))
  {
    assert TypeField(5) == 4 && TypeField(7) == 6 && TypeField(9) == 8 && TypeField(3) == 2;
    assert TypeField(15) == 14 && TypeField(17) == 16;
  }

  /** For instance, a weak definition in data is written as one in bss. */
  lemma WeakDataIsMisread(info: Info, h: HashEntry)
    requires h.kind == DefWeak && h.section == Data && OtherSymbol(info, h).Emit?
    ensures OtherSymbol(info, h).sym.typ == N_WEAKB && SectionOf(OtherSymbol(info, h).sym.typ) == Some(Bss)
  {
    assert TypeField(17) == 16;
  }

  // ----- aout_link_write_symbols -----

  /** An input symbol and its hash entry, if it has one. */
  datatype InSym = InSym(name: Name, typ: Byte, other: Byte, desc: nat, value: int, hash: Option<nat>)

  /** A section of an input file: its own vma, that of its output section, and its offset there. */
  datatype Place = Place(vma: int, outVma: int, outOffset: int)

  datatype Layout = Layout(text: Place, data: Place, bss: Place)

  /** The absolute section never moves. */
  function PlaceOf(l: Layout, s: Section): Place {
    match s
    case Text => l.text
    case Data => l.data
    case Bss => l.bss
    case Abs => Place(0, 0, 0)
  }

  function Address(p: Place): int {
    p.outVma + p.outOffset
  }

  /** How far a section moves. */
  function Moved(l: Layout, s: Section): int {
    Address(PlaceOf(l, s)) - PlaceOf(l, s).vma
  }

  datatype Input = Input(filename: Name, syms: seq<InSym>, layout: Layout)

  predicate IsStripped(info: Info, typ: Byte, name: Name) {
    match info.strip
    case StripNone => false
    case StripDebugger => IsStab(typ)
    case StripSome => name !in info.keep
    case StripAll => true
  }

  predicate IsSet(typ: Byte) {
    TypeField(typ) == N_SETT || TypeField(typ) == N_SETD || TypeField(typ) == N_SETB || TypeField(typ) == N_SETA
  }

  /** A local symbol the user wants gone. */
  predicate IsDiscarded(info: Info, typ: Byte, name: Name) {
    !IsSet(typ)
    && match info.discard
       case DiscardNone => false
       case DiscardLocals => !IsStab(typ) && name in info.localLabels
       case DiscardAll => true
  }

  /** The section an input symbol is relative to, if any. */
  function SectionOf(typ: Byte): Option<Section> {
    if TypeField(typ) == N_TEXT || typ == N_WEAKT then Some(Text)
    else if TypeField(typ) == N_DATA || typ == N_WEAKD then Some(Data)
    else if TypeField(typ) == N_BSS || typ == N_WEAKB then Some(Bss)
    else if TypeField(typ) == N_ABS || typ == N_WEAKA then Some(Abs)
    else None
  }

  /** Type and value for the output, and what happens to the next symbol: passed through unchanged, or
      skipped because an indirection has been resolved. */
  datatype Shape = Shape(typ: Byte, value: int, pass: bool, skipNext: bool)

  /** `h` is the hash entry of the symbol, `r` the one it resolves to. */
  function ShapeOf(inp: Input, sym: InSym, h: Option<HashEntry>, r: Option<HashEntry>): Shape {
    var t := sym.typ;
    var isIndr := TypeField(t) == N_INDR;
    if SectionOf(t).Some? then Shape(t, Moved(inp.layout, SectionOf(t).value) + sym.value, false, false)
    else if (isIndr && (r.None? || !(IsDefined(r.value) || r.value.kind == Common))) || t == N_WARNING then
      Shape(t, sym.value, true, false)
    else if IsStab(t) then Shape(t, sym.value, false, false)
    else if h.None? then
      if TypeField(t) == N_SETT then Shape(t, Moved(inp.layout, Text) + sym.value, false, isIndr)
      else if TypeField(t) == N_SETD then Shape(t, Moved(inp.layout, Data) + sym.value, false, isIndr)
      else if TypeField(t) == N_SETB then Shape(t, Moved(inp.layout, Bss) + sym.value, false, isIndr)
      else if TypeField(t) == N_SETA then Shape(t, Moved(inp.layout, Abs) + sym.value, false, isIndr)
      else Shape(t, 0, false, isIndr)
    else if r.None? then Shape(t, 0, false, isIndr)
    else if IsDefined(r.value) then
      var t' := if t == N_SETT || t == N_SETD || t == N_SETB || t == N_SETA then t + 1 else t;
      Shape(WithType(t', DefinedType(r.value)), r.value.address, false, isIndr)
    else if r.value.kind == Common then Shape(t, r.value.size, false, isIndr)
    else if r.value.kind == UndefWeak then Shape(N_WEAKU, 0, false, isIndr)
    else Shape(t, 0, false, isIndr)
  }

  /** What becomes of an input symbol.  Skipped: it is not copied, `marked` is the entry that counts as
      written, `mapped` what the symbol map records.  Copied: the symbol as written, the entry it stands
      for, and the header name when it opens a header. */
  datatype Verdict =
    | Skipped(marked: Option<nat>, mapped: int, skipNext: bool)
    | Copied(sym: OutSym, owner: Option<nat>, header: Option<Name>, pass: bool, skipNext: bool)

  /** The body of the symbol loop up to header elimination. */
  function Judge(info: Info, inp: Input, hash: seq<HashEntry>, sym: InSym, pass: bool, skipNext: bool): Verdict
    requires LinksInside(hash) && (sym.hash.Some? ==> sym.hash.value < |hash|)
  {
    if pass then Copied(OutSym(sym.name, sym.typ, sym.other, sym.desc, sym.value), None, None, false, skipNext)
    else if skipNext then Skipped(None, -1, false)
    else
      var h := if sym.hash.Some? then Some(hash[sym.hash.value]) else None;
      var r := if sym.hash.Some? then Some(hash[Resolve(hash, sym.hash.value, |hash|)]) else None;
      var name := if h.Some? && h.value.kind != Warning then h.value.name else sym.name;
      if h.Some? && h.value.written then
        Skipped(None, h.value.indx, TypeField(sym.typ) == N_INDR || sym.typ == N_WARNING)
      else if IsStripped(info, sym.typ, name) then Skipped(sym.hash, -1, false)
      else
        var s := ShapeOf(inp, sym, h, r);
        if h.None? && IsDiscarded(info, s.typ, name) then Skipped(None, -1, s.skipNext)
        else
          var kept := if h.Some? && !info.keepMemory then h.value.name else name;
          Copied(OutSym(kept, s.typ, sym.other, sym.desc, s.value), sym.hash,
                 if s.typ == N_BINCL then Some(name) else None, s.pass, s.skipNext)
  }

  /** A symbol of an input file whose entry is one of `n`.  Debugging symbols are not entered into the table. */
  predicate SymOk(sym: InSym, n: nat) {
    sym.hash.Some? ==> sym.hash.value < n && !IsStab(sym.typ)
  }

  /** The name of a copied symbol: that of its entry, unless the entry is a warning, or its own. */
  predicate NamedAfter(hash: seq<HashEntry>, h: Option<nat>, own: Name, name: Name) {
    if h.None? then name == own
    else h.value < |hash| && (hash[h.value].kind != Warning ==> name == hash[h.value].name)
  }

  /** Only a copied symbol gets a position, and a skipped one that has a position shares that of its entry. */
  lemma JudgeMaps(info: Info, inp: Input, hash: seq<HashEntry>, sym: InSym, pass: bool, skipNext: bool)
    requires LinksInside(hash) && SymOk(sym, |hash|)
    ensures var v := Judge(info, inp, hash, sym, pass, skipNext);
            if v.Skipped? then
              && (v.mapped == -1 || (sym.hash.Some? && v.mapped == hash[sym.hash.value].indx))
              && (v.marked.Some? ==> v.marked == sym.hash && !hash[sym.hash.value].written)
              && (v.marked.Some? ==> !Nameable(hash[sym.hash.value]) || MayStrip(info, hash[sym.hash.value]))
            else
              && (v.owner.Some? ==> v.owner == sym.hash && !hash[sym.hash.value].written)
              && NamedAfter(hash, v.owner, sym.name, v.sym.name) && (v.owner.Some? ==> v.header.None? && v.sym.typ < 32)
  {
    hide Resolve;
    JudgeTypes(info, inp, hash, sym, pass, skipNext);
  }

  /** A symbol written for an entry is no stab. */
  lemma JudgeTypes(info: Info, inp: Input, hash: seq<HashEntry>, sym: InSym, pass: bool, skipNext: bool)
    requires LinksInside(hash) && SymOk(sym, |hash|)
    ensures var v := Judge(info, inp, hash, sym, pass, skipNext);
            v.Copied? && v.owner.Some? ==> v.header.None? && v.sym.typ < 32
  {
    hide Resolve;
    if sym.hash.Some? {
      var r := hash[Resolve(hash, sym.hash.value, |hash|)];
      ShapeIsNoStab(inp, sym, hash[sym.hash.value], r);
    }
  }

  lemma ShapeIsNoStab(inp: Input, sym: InSym, h: HashEntry, r: HashEntry)
    requires !IsStab(sym.typ)
    ensures ShapeOf(inp, sym, Some(h), Some(r)).typ < 32
  {
    hide TypeField;
  }

  /** Neither stripped nor discarded, no indirection and no warning: only header elimination is at work. */
  predicate PlainSym(info: Info, sym: InSym) {
    && info.strip == StripNone && info.discard == DiscardNone
    && TypeField(sym.typ) != N_INDR && sym.typ != N_WARNING
  }

  /** A local one is copied as it is; a global one is copied under its entry, unless it has been written already. */
  lemma JudgePlain(info: Info, inp: Input, hash: seq<HashEntry>, sym: InSym)
    requires LinksInside(hash) && SymOk(sym, |hash|) && PlainSym(info, sym)
    ensures var v := Judge(info, inp, hash, sym, false, false);
            && !v.skipNext
            && (v.Copied? ==> !v.pass && v.owner == sym.hash)
            && (sym.hash.None? ==>
                  && v.Copied? && v.sym.name == sym.name && v.sym.typ == sym.typ
                  && v.header == if sym.typ == N_BINCL then Some(sym.name) else None)
            && (sym.hash.Some? && v.Copied? ==> v.header.None? && v.sym.typ < 32)
  {
    hide Resolve, TypeField;
    JudgeTypes(info, inp, hash, sym, false, false);
  }

  /** Following indirect and warning entries to the real one, at most `fuel` times. */
  function Resolve(hash: seq<HashEntry>, h: nat, fuel: nat): (r: nat)
    requires h < |hash| && LinksInside(hash)
    ensures r < |hash|
    decreases fuel
  {
    if fuel > 0 && IsLink(hash[h]) then Resolve(hash, hash[h].link, fuel - 1) else h
  }

  predicate LinksInside(hash: seq<HashEntry>) {
    forall h :: 0 <= h < |hash| && IsLink(hash[h]) ==> hash[h].link < |hash|
  }

  function StabKind(t: Byte): Kind {
    if t == N_BINCL then Begin else if t == N_EINCL then End else Plain
  }

  /** The symbols as header elimination sees them. */
  function Stabs(syms: seq<InSym>): (r: seq<Stab>)
    ensures |r| == |syms|
  {
    seq(|syms|, i requires 0 <= i < |syms| => Stab(StabKind(syms[i].typ), syms[i].name, syms[i].hash.Some?))
  }
}
