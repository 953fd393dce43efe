/** The symbol loop of aout_link_write_symbols as a function of its inputs, and what it does to plain symbols. */
module AoutCopy {
  import opened ByteSeq
  import opened AoutIncludes
  import opened AoutSymbols
  import opened AoutOutput

  predicate HashesInside(inp: Input, n: nat) {
    forall i :: 0 <= i < |inp.syms| ==> SymOk(inp.syms[i], n)
  }

  predicate PlainInput(info: Info, inp: Input) {
    forall i :: 0 <= i < |inp.syms| ==> PlainSym(info, inp.syms[i])
  }

  /** An output symbol that header elimination calls `o`. */
  predicate Matches(o: Out, s: OutSym) {
    s.name == o.stab.name && if o.Excl? then s.typ == N_EXCL else StabKind(s.typ) == o.stab.kind
  }

  predicate AllMatch(os: seq<Out>, ss: seq<OutSym>) {
    |os| == |ss| && forall k :: 0 <= k < |os| ==> Matches(os[k], ss[k])
  }

  /** The symbol that ends up in the table for a header. */
  function HeaderSym(sym: OutSym, total: int, dup: bool): OutSym {
    sym.(typ := if dup then N_EXCL else N_BINCL, value := total)
  }

  /** The symbol for the object file itself, unless such symbols are discarded. */
  function FileSym(info: Info, inp: Input): seq<OutSym> {
    if info.strip != StripAll && (info.strip != StripSome || inp.filename in info.keep) && info.discard != DiscardAll
    then [OutSym(inp.filename, N_TEXT, 0, 0, Address(inp.layout.text))]
    else []
  }

  /** The entry behind indirections and warnings, as sym_hashes keeps it for the relocs. */
  function Real(hash: seq<HashEntry>, h: Option<nat>): (r: Option<nat>)
    requires LinksInside(hash) && (h.Some? ==> h.value < |hash|)
    ensures r.Some? ==> r.value < |hash|
  {
    if h.Some? then Some(Resolve(hash, h.value, |hash|)) else None
  }

  lemma HashInside(inp: Input, n: nat, i: nat)
    requires HashesInside(inp, n) && i < |inp.syms|
    ensures SymOk(inp.syms[i], n)
  {
  }

  lemma PlainAt(info: Info, inp: Input, i: nat)
    requires PlainInput(info, inp) && i < |inp.syms|
    ensures PlainSym(info, inp.syms[i])
  {
  }

  lemma StabAt(inp: Input, i: nat)
    requires i < |inp.syms|
    ensures Stabs(inp.syms)[i] == Stab(StabKind(inp.syms[i].typ), inp.syms[i].name, inp.syms[i].hash.Some?)
  {
  }

  // ----- the loop -----

  /** Its state: the hash table, the headers seen, the marks of the symbols still to come, the two flags, and what
      has been written, numbered and mapped so far. */
  datatype Copying = Copying(hash: seq<HashEntry>, seen: Seen, marks: seq<bool>, pass: bool, skipNext: bool,
                             syms: seq<OutSym>, owners: Owners, map_: seq<int>, targets: seq<Option<nat>>)

  predicate CopyOk(inp: Input, c: Copying, i: nat) {
    && i <= |inp.syms| && LinksInside(c.hash) && HashesInside(inp, |c.hash|) && |c.marks| == |inp.syms| - i
    && |c.map_| == |c.targets| == i
  }

  /** An entry that counts as written without a symbol. */
  function MarkedWritten(hash: seq<HashEntry>, h: Option<nat>): (r: seq<HashEntry>)
    requires LinksInside(hash) && (h.Some? ==> h.value < |hash|)
    ensures |r| == |hash| && LinksInside(r)
  {
    if h.None? then hash else hash[h.value := hash[h.value].(written := true)]
  }

  /** An entry whose symbol is number `count`. */
  function Owned(hash: seq<HashEntry>, h: Option<nat>, count: nat): (r: seq<HashEntry>)
    requires LinksInside(hash) && (h.Some? ==> h.value < |hash|)
    ensures |r| == |hash| && LinksInside(r)
  {
    if h.None? then hash else hash[h.value := hash[h.value].(written := true, indx := count)]
  }

  /** One turn, for the symbol after the first `i`; `base` symbols were there before the loop. */
  function Turn(info: Info, inp: Input, c: Copying, i: nat, base: nat): (r: Copying)
    requires CopyOk(inp, c, i) && i < |inp.syms|
    ensures CopyOk(inp, r, i + 1) && |r.hash| == |c.hash|
  {
    var sym, later := inp.syms[i], c.marks[1..];
    if c.marks[0] then c.(marks := later, map_ := c.map_ + [-1], targets := c.targets + [sym.hash])
    else
      var target := if c.pass || c.skipNext then sym.hash else Real(c.hash, sym.hash);
      JudgeMaps(info, inp, c.hash, sym, c.pass, c.skipNext);
      match Judge(info, inp, c.hash, sym, c.pass, c.skipNext)
      case Skipped(marked, mapped, skipNext) =>
        c.(hash := MarkedWritten(c.hash, marked), marks := later, pass := false, skipNext := skipNext,
           map_ := c.map_ + [mapped], targets := c.targets + [target])
      case Copied(out, owner, header, pass, skipNext) =>
        var count, stabs := base + |c.syms|, Stabs(inp.syms)[i + 1..];
        var total := HeaderSum(stabs, 0);
        var dup := header.Some? && WasSeen(c.seen, header.value, total);
        Copying(Owned(c.hash, owner, count),
                if header.Some? && !dup then See(c.seen, header.value, total) else c.seen,
                if dup then Struck(stabs, 0, later) else later,
                pass, skipNext,
                c.syms + [if header.Some? then HeaderSym(out, total, dup) else out],
                c.owners + [owner], c.map_ + [count], c.targets + [target])
  }

  /** The first `i` turns. */
  function Copy(info: Info, inp: Input, hash: seq<HashEntry>, seen: Seen, base: nat, i: nat): (c: Copying)
    requires i <= |inp.syms| && LinksInside(hash) && HashesInside(inp, |hash|)
    ensures CopyOk(inp, c, i) && |c.hash| == |hash|
  {
    if i == 0 then Copying(hash, seen, seq(|inp.syms|, _ => false), false, false, [], [], [], [])
    else Turn(info, inp, Copy(info, inp, hash, seen, base, i - 1), i - 1, base)
  }

  lemma CopyNone(info: Info, inp: Input, hash: seq<HashEntry>, seen: Seen, base: nat)
    requires LinksInside(hash) && HashesInside(inp, |hash|)
    ensures Copy(info, inp, hash, seen, base, 0) == Copying(hash, seen, seq(|inp.syms|, _ => false), false, false, [], [], [], [])
  {
  }

  lemma CopyStep(info: Info, inp: Input, hash: seq<HashEntry>, seen: Seen, base: nat, i: nat)
    requires i < |inp.syms| && LinksInside(hash) && HashesInside(inp, |hash|)
    ensures Copy(info, inp, hash, seen, base, i + 1) == Turn(info, inp, Copy(info, inp, hash, seen, base, i), i, base)
  {
  }

  lemma TurnStruck(info: Info, inp: Input, c: Copying, i: nat, base: nat)
    requires CopyOk(inp, c, i) && i < |inp.syms| && c.marks[0]
    ensures Turn(info, inp, c, i, base)
         == c.(marks := c.marks[1..], map_ := c.map_ + [-1], targets := c.targets + [inp.syms[i].hash])
  {
  }

  lemma TurnJudged(info: Info, inp: Input, c: Copying, i: nat, base: nat, v: Verdict, target: Option<nat>)
    requires CopyOk(inp, c, i) && i < |inp.syms| && !c.marks[0]
    requires v == Judge(info, inp, c.hash, inp.syms[i], c.pass, c.skipNext)
    requires target == if c.pass || c.skipNext then inp.syms[i].hash else Real(c.hash, inp.syms[i].hash)
    ensures v.Skipped? && v.marked.Some? ==> v.marked.value < |c.hash|
    ensures v.Copied? && v.owner.Some? ==> v.owner.value < |c.hash|
    ensures var stabs, r := Stabs(inp.syms)[i + 1..], Turn(info, inp, c, i, base);
            var total := HeaderSum(stabs, 0);
            && r.targets == c.targets + [target] && r.skipNext == v.skipNext && r.pass == (v.Copied? && v.pass)
            && (v.Skipped? ==> r == c.(hash := MarkedWritten(c.hash, v.marked), marks := c.marks[1..], map_ := c.map_ + [v.mapped],
                                       pass := r.pass, skipNext := r.skipNext, targets := r.targets))
            && (v.Copied? ==>
                  && r.hash == Owned(c.hash, v.owner, base + |c.syms|) && r.owners == c.owners + [v.owner]
                  && r.map_ == c.map_ + [base + |c.syms|]
                  && (v.header.None? ==> r.syms == c.syms + [v.sym] && r.seen == c.seen && r.marks == c.marks[1..])
                  && (v.header.Some? ==>
                        var dup := WasSeen(c.seen, v.header.value, total);
                        && r.syms == c.syms + [HeaderSym(v.sym, total, dup)]
                        && r.seen == (if dup then c.seen else See(c.seen, v.header.value, total))
                        && r.marks == if dup then Struck(stabs, 0, c.marks[1..]) else c.marks[1..]))
  {
    hide Judge, HeaderSum, WasSeen, See, Struck, Stabs, Resolve, LinksInside;
    JudgeMaps(info, inp, c.hash, inp.syms[i], c.pass, c.skipNext);
  }

  // ----- plain symbols: only header elimination is at work -----

  /** What header elimination leaves of the symbols without a hash entry. */
  function Locals(os: seq<Out>): seq<Out> {
    if os == [] then [] else Locals(os[..|os| - 1]) + if os[|os| - 1].stab.global then [] else [os[|os| - 1]]
  }

  /** The output symbols that stand for no entry. */
  function LocalSyms(syms: seq<OutSym>, owners: Owners): seq<OutSym>
    requires |syms| == |owners|
  {
    if syms == [] then []
    else var n := |syms| - 1; LocalSyms(syms[..n], owners[..n]) + if owners[n].Some? then [] else [syms[n]]
  }

  lemma LocalsMore(os: seq<Out>, o: Out)
    ensures Locals(os + [o]) == Locals(os) + if o.stab.global then [] else [o]
  {
    assert (os + [o])[..|os|] == os;
  }

  lemma LocalSymsMore(syms: seq<OutSym>, owners: Owners, sym: OutSym, owner: Option<nat>)
    requires |syms| == |owners|
    ensures LocalSyms(syms + [sym], owners + [owner]) == LocalSyms(syms, owners) + if owner.Some? then [] else [sym]
  {
    assert (syms + [sym])[..|syms|] == syms && (owners + [owner])[..|owners|] == owners;
  }

  /** The headers open after these outputs of header elimination. */
  function OutDepth(os: seq<Out>): Option<nat> {
    if os == [] then Some(0)
    else
      var d, o := OutDepth(os[..|os| - 1]), os[|os| - 1];
      if d.None? then None
      else if o.Excl? || o.stab.kind == Plain then d
      else if o.stab.kind == Begin then Some(d.value + 1)
      else if d.value == 0 then None else Some(d.value - 1)
  }

  lemma OutDepthMore(os: seq<Out>, o: Out)
    ensures var d := OutDepth(os);
            OutDepth(os + [o]) == if d.None? then None
                                  else if o.Excl? || o.stab.kind == Plain then d
                                  else if o.stab.kind == Begin then Some(d.value + 1)
                                  else if d.value == 0 then None else Some(d.value - 1)
  {
    assert (os + [o])[..|os|] == os;
  }

  /** Well-nested outputs close every header they open. */
  lemma {:induction false} NestedDepth(a: seq<Out>, b: seq<Out>, d: nat)
    requires OutDepth(a) == Some(d) && NestedOut(b, d)
    ensures OutDepth(a + b) == Some(0)
    decreases |b|
  {
    if b == [] {
      assert a + b == a;
    } else {
      var o := b[0];
      OutDepthMore(a, o);
      assert a + b == (a + [o]) + b[1..];
      NestedDepth(a + [o], b[1..], OutDepth(a + [o]).value);
    }
  }

  /** Part of the symbols is done: `outs` came out of header elimination, `syms` was written.  The local symbols
      agree one by one, and the same headers are open. */
  ghost predicate Eliminating(whole: Pass, outs: seq<Out>, syms: seq<OutSym>, owners: Owners, s: seq<Stab>, marks: seq<bool>, seen: Seen)
    requires |s| == |marks|
  {
    && whole == Prepend(outs, Run(s, marks, seen)) && |syms| == |owners|
    && AllMatch(Locals(outs), LocalSyms(syms, owners)) && Depth(syms, Some(0)) == OutDepth(outs)
  }

  /** A local symbol. */
  lemma EliminatingLocal(whole: Pass, outs: seq<Out>, syms: seq<OutSym>, owners: Owners, o: Out, sym: OutSym, s: seq<Stab>,
                         marks: seq<bool>, seen: Seen, s': seq<Stab>, marks': seq<bool>, seen': Seen)
    requires |s| == |marks| && |s'| == |marks'| && Eliminating(whole, outs, syms, owners, s, marks, seen)
    requires Run(s, marks, seen) == Prepend([o], Run(s', marks', seen')) && Matches(o, sym) && !o.stab.global
    requires o.Excl? ==> o.stab.kind == Begin
    ensures Eliminating(whole, outs + [o], syms + [sym], owners + [None], s', marks', seen')
  {
    hide Run, Locals, LocalSyms, OutDepth;
    PrependTwice(outs, [o], Run(s', marks', seen'));
    LocalsMore(outs, o);
    LocalSymsMore(syms, owners, sym, None);
    OutDepthMore(outs, o);
    assert (syms + [sym])[..|syms|] == syms;
  }

  /** A global one, copied under its entry or written before. */
  lemma EliminatingGlobal(whole: Pass, outs: seq<Out>, syms: seq<OutSym>, owners: Owners, x: Stab, out: seq<OutSym>, more: Owners,
                          s: seq<Stab>, marks: seq<bool>, seen: Seen)
    requires |s| == |marks| && Eliminating(whole, outs, syms, owners, [x] + s, [false] + marks, seen)
    requires x.global && x.kind == Plain
    requires (out == [] && more == []) || (|out| == |more| == 1 && out[0].typ < 32 && more[0].Some?)
    ensures Eliminating(whole, outs + [Kept(x)], syms + out, owners + more, s, marks, seen)
  {
    hide Run, Locals, LocalSyms, OutDepth, Depth;
    RunCopied(x, s, marks, seen);
    PrependTwice(outs, [Kept(x)], Run(s, marks, seen));
    LocalsMore(outs, Kept(x));
    OutDepthMore(outs, Kept(x));
    if out == [] {
      assert syms + out == syms && owners + more == owners;
    } else {
      assert out == [out[0]] && more == [more[0]];
      LocalSymsMore(syms, owners, out[0], more[0]);
      DepthMore(syms, out[0], Some(0));
    }
  }

  lemma EliminatingNone(whole: Pass, outs: seq<Out>, syms: seq<OutSym>, owners: Owners, x: Stab, s: seq<Stab>, marks: seq<bool>, seen: Seen)
    requires |s| == |marks| && Eliminating(whole, outs, syms, owners, [x] + s, [true] + marks, seen)
    ensures Eliminating(whole, outs, syms, owners, s, marks, seen)
  {
    hide Run, Locals, LocalSyms, OutDepth, Depth;
    RunMarked(x, s, marks, seen);
  }

  /** One turn on a plain symbol. */
  lemma PlainTurn(info: Info, inp: Input, c: Copying, i: nat, base: nat, whole: Pass, outs: seq<Out>) returns (outs': seq<Out>)
    requires CopyOk(inp, c, i) && i < |inp.syms| && PlainInput(info, inp) && !c.pass && !c.skipNext
    requires Eliminating(whole, outs, c.syms, c.owners, Stabs(inp.syms)[i..], c.marks, c.seen)
    ensures var r := Turn(info, inp, c, i, base);
            !r.pass && !r.skipNext && Eliminating(whole, outs', r.syms, r.owners, Stabs(inp.syms)[i + 1..], r.marks, r.seen)
  {
    hide Run, Eliminating, HeaderSum, Struck, WasSeen, See, Judge, Stabs, PlainSym, Resolve, Turn, Real;
    var stabs, sym, later := Stabs(inp.syms), inp.syms[i], c.marks[1..];
    var x, rest := stabs[i], stabs[i + 1..];
    assert stabs[i..] == [x] + rest && c.marks == [c.marks[0]] + later;
    HashInside(inp, |c.hash|, i);
    if c.marks[0] {
      TurnStruck(info, inp, c, i, base);
      EliminatingNone(whole, outs, c.syms, c.owners, x, rest, later, c.seen);
      outs' := outs;
    } else {
      PlainAt(info, inp, i);
      StabAt(inp, i);
      JudgePlain(info, inp, c.hash, sym);
      var v, target := Judge(info, inp, c.hash, sym, false, false), Real(c.hash, sym.hash);
      TurnJudged(info, inp, c, i, base, v, target);
      if sym.hash.Some? {
        var out, more := if v.Copied? then [v.sym] else [], if v.Copied? then [v.owner] else [];
        EliminatingGlobal(whole, outs, c.syms, c.owners, x, out, more, rest, later, c.seen);
        assert c.syms + [] == c.syms && c.owners + [] == c.owners;
        outs' := outs + [Kept(x)];
      } else {
        outs' := LocalTurn(info, inp, c, i, base, whole, outs, v);
      }
    }
  }

  lemma LocalTurn(info: Info, inp: Input, c: Copying, i: nat, base: nat, whole: Pass, outs: seq<Out>, v: Verdict) returns (outs': seq<Out>)
    requires CopyOk(inp, c, i) && i < |inp.syms| && PlainInput(info, inp) && !c.pass && !c.skipNext && !c.marks[0]
    requires inp.syms[i].hash.None? && v == Judge(info, inp, c.hash, inp.syms[i], false, false)
    requires Eliminating(whole, outs, c.syms, c.owners, Stabs(inp.syms)[i..], c.marks, c.seen)
    ensures var r := Turn(info, inp, c, i, base);
            Eliminating(whole, outs', r.syms, r.owners, Stabs(inp.syms)[i + 1..], r.marks, r.seen)
  {
    hide Run, Eliminating, HeaderSum, Struck, WasSeen, See, Judge, Stabs, PlainSym, Resolve, Turn, Real;
    var stabs, sym, later := Stabs(inp.syms), inp.syms[i], c.marks[1..];
    var x, rest := stabs[i], stabs[i + 1..];
    assert stabs[i..] == [x] + rest && c.marks == [false] + later;
    HashInside(inp, |c.hash|, i);
    PlainAt(info, inp, i);
    StabAt(inp, i);
    JudgePlain(info, inp, c.hash, sym);
    TurnJudged(info, inp, c, i, base, v, Real(c.hash, sym.hash));
    var r, total := Turn(info, inp, c, i, base), HeaderSum(rest, 0);
    if sym.typ == N_BINCL {
      RunBegin(x, rest, later, c.seen, total);
      var dup := WasSeen(c.seen, x.name, total);
      var o := if dup then Excl(x) else Kept(x);
      EliminatingLocal(whole, outs, c.syms, c.owners, o, HeaderSym(v.sym, total, dup), [x] + rest, [false] + later, c.seen,
                       rest, r.marks, r.seen);
      outs' := outs + [o];
    } else {
      RunCopied(x, rest, later, c.seen);
      EliminatingLocal(whole, outs, c.syms, c.owners, Kept(x), v.sym, [x] + rest, [false] + later, c.seen, rest, r.marks, r.seen);
      outs' := outs + [Kept(x)];
    }
  }

  lemma NothingEliminated(s: seq<Stab>, marks: seq<bool>, seen: Seen)
    requires |s| == |marks|
    ensures Eliminating(Run(s, marks, seen), [], [], [], s, marks, seen)
  {
    hide Run;
    var whole := Run(s, marks, seen);
    assert [] + whole.out == whole.out;
  }

  lemma AllEliminated(whole: Pass, outs: seq<Out>, syms: seq<OutSym>, owners: Owners, s: seq<Stab>, marks: seq<bool>, seen: Seen)
    requires |s| == |marks| == 0 && Eliminating(whole, outs, syms, owners, s, marks, seen)
    ensures |syms| == |owners| && AllMatch(Locals(whole.out), LocalSyms(syms, owners)) && seen == whole.seen
    ensures Depth(syms, Some(0)) == OutDepth(whole.out)
  {
    hide AllMatch, Locals, LocalSyms, OutDepth, Depth;
    assert outs + [] == outs;
  }

  lemma {:induction false} PlainCopy(info: Info, inp: Input, hash: seq<HashEntry>, seen: Seen, base: nat, i: nat) returns (outs: seq<Out>)
    requires i <= |inp.syms| && LinksInside(hash) && HashesInside(inp, |hash|) && PlainInput(info, inp)
    ensures var c := Copy(info, inp, hash, seen, base, i);
            && !c.pass && !c.skipNext
            && Eliminating(Run(Stabs(inp.syms), seq(|inp.syms|, _ => false), seen), outs, c.syms, c.owners, Stabs(inp.syms)[i..], c.marks, c.seen)
  {
    hide Run, Eliminating, Turn, Stabs, PlainInput;
    var stabs, marks := Stabs(inp.syms), seq(|inp.syms|, _ => false);
    if i == 0 {
      NothingEliminated(stabs, marks, seen);
      assert stabs[0..] == stabs;
      outs := [];
    } else {
      var before := PlainCopy(info, inp, hash, seen, base, i - 1);
      outs := PlainTurn(info, inp, Copy(info, inp, hash, seen, base, i - 1), i - 1, base, Run(stabs, marks, seen), before);
    }
  }

  /** Symbols that are neither stripped nor discarded, indirect or warnings: the local ones come out of the loop
      exactly as header elimination says; global ones are no headers, so the same headers open and close. */
  lemma PlainSymbolsEliminated(info: Info, inp: Input, hash: seq<HashEntry>, seen: Seen, base: nat)
    requires LinksInside(hash) && HashesInside(inp, |hash|) && PlainInput(info, inp)
    ensures var c := Copy(info, inp, hash, seen, base, |inp.syms|);
            var whole := Run(Stabs(inp.syms), seq(|inp.syms|, _ => false), seen);
            && |c.syms| == |c.owners| && AllMatch(Locals(whole.out), LocalSyms(c.syms, c.owners)) && c.seen == whole.seen
            && Depth(c.syms, Some(0)) == OutDepth(whole.out)
  {
    hide Run, Eliminating, Copy, Stabs, AllMatch, Locals, LocalSyms, OutDepth, Depth;
    var c := Copy(info, inp, hash, seen, base, |inp.syms|);
    var outs := PlainCopy(info, inp, hash, seen, base, |inp.syms|);
    var stabs := Stabs(inp.syms);
    AllEliminated(Run(stabs, seq(|inp.syms|, _ => false), seen), outs, c.syms, c.owners, stabs[|inp.syms|..], c.marks, c.seen);
  }

  /** A file with well-nested headers and no symbol that would get in the way. */
  predicate NestedInput(info: Info, inp: Input) {
    PlainInput(info, inp) && Nested(Stabs(inp.syms), 0)
  }

  /** Well-nested headers come out well nested. */
  lemma NestedStaysNested(info: Info, inp: Input, hash: seq<HashEntry>, seen: Seen, base: nat)
    requires LinksInside(hash) && HashesInside(inp, |hash|) && NestedInput(info, inp)
    ensures Depth(Copy(info, inp, hash, seen, base, |inp.syms|).syms, Some(0)) == Some(0)
  {
    hide Run, Copy, Stabs, OutDepth, Depth, PlainInput, Nested;
    PlainSymbolsEliminated(info, inp, hash, seen, base);
    var f := EliminationIsExact(Stabs(inp.syms), seen);
    var out := Run(Stabs(inp.syms), seq(|inp.syms|, _ => false), seen).out;
    assert OutDepth([]) == Some(0) by { NoneOpen(); }
    NestedDepth([], out, 0);
    assert [] + out == out;
  }

  /** So does the part of the symbol table that a file adds. */
  lemma NestedPart(info: Info, inp: Input, hash: seq<HashEntry>, seen: Seen, base: nat, before: seq<OutSym>)
    requires LinksInside(hash) && HashesInside(inp, |hash|)
    ensures NestedInput(info, inp) && Depth(before, Some(0)) == Some(0) ==>
              Depth(before + FileSym(info, inp) + Copy(info, inp, hash, seen, base, |inp.syms|).syms, Some(0)) == Some(0)
  {
    hide Copy, Depth, NestedInput;
    if NestedInput(info, inp) {
      var first, syms := FileSym(info, inp), Copy(info, inp, hash, seen, base, |inp.syms|).syms;
      NestedStaysNested(info, inp, hash, seen, base);
      if first == [] {
        assert before + first == before;
      } else {
        assert first == [first[0]];
        DepthMore(before, first[0], Some(0));
      }
      DepthAppend(before + first, syms, Some(0));
    }
  }

  lemma NoneOpen()
    ensures OutDepth([]) == Some(0)
  {
  }
}
