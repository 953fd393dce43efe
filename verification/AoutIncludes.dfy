/** Duplicate header elimination in aout_link_write_symbols: stabs between N_BINCL and N_EINCL are
    dropped when a header of the same name and the same sum has been seen before. */
module AoutIncludes {
  import opened ByteSeq
  import opened Decimal

  const OPEN_PAREN: Byte := 40

  // ----- the sum of a string -----

  /** A char, signed as on the hosts BFD is built for. */
  function CharValue(b: Byte): int {
    if b < 128 then b else b - 256
  }

  function SumTo(s: seq<Byte>, k: nat): int
    requires k <= |s|
  {
    if k == 0 then 0 else SumTo(s, k - 1) + CharValue(s[k - 1])
  }

  /** The string from `i` on with the digit run after each open parenthesis erased. */
  function Erased(s: seq<Byte>, i: nat): seq<Byte>
    requires i <= |s|
    decreases |s| - i
  {
    if i == |s| then []
    else if s[i] == OPEN_PAREN then [s[i]] + Erased(s, DigitEnd(s, i + 1))
    else [s[i]] + Erased(s, i + 1)
  }

  /** What a name adds to the sum of its header: all its characters but the file numbers. */
  function NameSum(s: seq<Byte>): int {
    SumTo(Erased(s, 0), |Erased(s, 0)|)
  }

  lemma {:induction false} SumCons(x: Byte, t: seq<Byte>, k: nat)
    requires k <= |t|
    ensures SumTo([x] + t, k + 1) == CharValue(x) + SumTo(t, k)
  {
    if k > 0 {
      SumCons(x, t, k - 1);
    } else {
      assert SumTo([x] + t, 1) == SumTo([x] + t, 0) + CharValue(([x] + t)[0]);
    }
  }

  /** The character loop: after an open parenthesis the pointer skips digits and steps back once. */
  method SumString(s: seq<Byte>) returns (val: int)
    ensures val == NameSum(s)
  {
    val := 0;
    var p := 0;
    while p < |s|
      invariant 0 <= p <= |s|
      invariant val + SumTo(Erased(s, p), |Erased(s, p)|) == NameSum(s)
      decreases |s| - p
    {
      ghost var from := p;
      var c: int := s[p];
      val := val + if c >= 128 then c - 256 else c;
      if s[p] == OPEN_PAREN {
        p := p + 1;
        while p < |s| && IsDigit(s[p])
          invariant from + 1 <= p <= |s| && DigitEnd(s, p) == DigitEnd(s, from + 1)
        {
          p := p + 1;
        }
        p := p - 1;
      }
      p := p + 1;
      SumCons(s[from], Erased(s, p), |Erased(s, p)|);
    }
  }

  // ----- scanning and marking a header -----

  datatype Kind = Begin | End | Plain

  /** A symbol as header elimination sees it; `global` ones have a link hash entry and are never stabs. */
  datatype Stab = Stab(kind: Kind, name: seq<Byte>, global: bool)

  /** The sum of the stabs at nesting depth zero up to the matching N_EINCL. */
  function HeaderSum(s: seq<Stab>, nest: nat): int {
    if s == [] then 0
    else match s[0].kind
         case End => if nest == 0 then 0 else HeaderSum(s[1..], nest - 1)
         case Begin => HeaderSum(s[1..], nest + 1)
         case Plain => (if nest == 0 then NameSum(s[0].name) else 0) + HeaderSum(s[1..], nest)
  }

  /** The marks after the stabs at depth zero and the matching N_EINCL have been struck out. */
  function Struck(s: seq<Stab>, nest: nat, marks: seq<bool>): (r: seq<bool>)
    requires |s| == |marks|
    ensures |r| == |marks|
  {
    if s == [] then []
    else match s[0].kind
         case End => if nest == 0 then [true] + marks[1..] else [marks[0]] + Struck(s[1..], nest - 1, marks[1..])
         case Begin => [marks[0]] + Struck(s[1..], nest + 1, marks[1..])
         case Plain => [marks[0] || nest == 0] + Struck(s[1..], nest, marks[1..])
  }

  /** The first scan loop. */
  method ScanHeader(syms: seq<Stab>, start: nat) returns (val: int)
    requires start <= |syms|
    ensures val == HeaderSum(syms[start..], 0)
  {
    val := 0;
    var nest := 0;
    var j := start;
    while j < |syms|
      invariant start <= j <= |syms| && nest >= 0
      invariant val + HeaderSum(syms[j..], nest) == HeaderSum(syms[start..], 0)
    {
      assert syms[j..][1..] == syms[j + 1..];
      match syms[j].kind {
        case End =>
          if nest == 0 {
            break;
          }
          nest := nest - 1;
        case Begin =>
          nest := nest + 1;
        case Plain =>
          if nest == 0 {
            var add := SumString(syms[j].name);
            val := val + add;
          }
      }
      j := j + 1;
    }
  }

  /** What one stab does to the nesting depth, short of the end of the header. */
  function Deeper(k: Kind, nest: nat): nat
    requires !(k == End && nest == 0)
  {
    match k
    case End => nest - 1
    case Begin => nest + 1
    case Plain => nest
  }

  lemma StruckStep(x: Stab, s: seq<Stab>, nest: nat, mark: bool, marks: seq<bool>)
    requires |s| == |marks| && !(x.kind == End && nest == 0)
    ensures Struck([x] + s, nest, [mark] + marks)
         == [mark || (x.kind == Plain && nest == 0)] + Struck(s, Deeper(x.kind, nest), marks)
  {
    assert ([x] + s)[1..] == s && ([mark] + marks)[1..] == marks;
  }

  lemma StruckEnd(x: Stab, s: seq<Stab>, mark: bool, marks: seq<bool>)
    requires |s| == |marks| && x.kind == End
    ensures Struck([x] + s, 0, [mark] + marks) == [true] + marks
  {
    assert ([mark] + marks)[1..] == marks;
  }

  /** The second scan loop, in place. */
  method StrikeHeader(syms: seq<Stab>, start: nat, marks: array<bool>)
    requires start <= |syms| == marks.Length
    modifies marks
    ensures marks[..start] == old(marks[..start])
    ensures marks[start..] == Struck(syms[start..], 0, old(marks[start..]))
  {
    hide Struck;
    var nest := 0;
    var j := start;
    ghost var goal := marks[..start] + Struck(syms[start..], 0, marks[start..]);
    while j < |syms|
      invariant start <= j <= |syms| && nest >= 0
      invariant goal == marks[..j] + Struck(syms[j..], nest, marks[j..])
    {
      ghost var front, mark, back := marks[..j], marks[j], marks[j + 1..];
      assert syms[j..] == [syms[j]] + syms[j + 1..] && marks[j..] == [mark] + back;
      if syms[j].kind == End && nest == 0 {
        StruckEnd(syms[j], syms[j + 1..], mark, back);
        marks[j] := true;
        assert marks[..] == front + ([true] + back);
        break;
      }
      StruckStep(syms[j], syms[j + 1..], nest, mark, back);
      match syms[j].kind {
        case End =>
          nest := nest - 1;
        case Begin =>
          nest := nest + 1;
        case Plain =>
          if nest == 0 {
            marks[j] := true;
          }
      }
      assert marks[..j + 1] == front + [marks[j]] && marks[j + 1..] == back;
      Shifted(front, marks[j], Struck(syms[j + 1..], nest, back));
      j := j + 1;
    }
    assert marks[..] == goal;
    assert marks[start..] == goal[start..] && marks[..start] == goal[..start];
  }

  lemma Shifted(a: seq<bool>, x: bool, b: seq<bool>)
    ensures a + ([x] + b) == (a + [x]) + b
  {
  }

  // ----- the whole pass -----

  /** Totals seen so far, header by header. */
  type Seen = map<seq<Byte>, seq<int>>

  predicate WasSeen(seen: Seen, name: seq<Byte>, total: int) {
    name in seen && total in seen[name]
  }

  function See(seen: Seen, name: seq<Byte>, total: int): Seen {
    seen[name := [total] + if name in seen then seen[name] else []]
  }

  /** An output symbol: one copied as it is, or a header turned into N_EXCL. */
  datatype Out = Kept(stab: Stab) | Excl(stab: Stab)

  datatype Pass = Pass(out: seq<Out>, seen: Seen)

  /** The symbol loop, for symbols that are all copied or struck out. */
  function Run(s: seq<Stab>, marks: seq<bool>, seen: Seen): Pass
    requires |s| == |marks|
    decreases |s|
  {
    if s == [] then Pass([], seen)
    else if marks[0] then Run(s[1..], marks[1..], seen)
    else if s[0].kind == Begin then
      var total := HeaderSum(s[1..], 0);
      if WasSeen(seen, s[0].name, total) then
        Prepend([Excl(s[0])], Run(s[1..], Struck(s[1..], 0, marks[1..]), seen))
      else
        Prepend([Kept(s[0])], Run(s[1..], marks[1..], See(seen, s[0].name, total)))
    else Prepend([Kept(s[0])], Run(s[1..], marks[1..], seen))
  }

  function Prepend(front: seq<Out>, p: Pass): Pass {
    Pass(front + p.out, p.seen)
  }

  // ----- well-nested symbols -----

  /** Headers and the stabs around them, as first child and next sibling. */
  datatype Forest =
    | Nil
    | Leaf(stab: Stab, rest: Forest)
    | Header(begin: Stab, kids: Forest, end: Stab, rest: Forest)

  predicate WellFormed(f: Forest) {
    match f
    case Nil => true
    case Leaf(s, rest) => s.kind == Plain && WellFormed(rest)
    case Header(b, kids, e, rest) => b.kind == Begin && e.kind == End && WellFormed(kids) && WellFormed(rest)
  }

  function Flat(f: Forest): seq<Stab> {
    match f
    case Nil => []
    case Leaf(s, rest) => [s] + Flat(rest)
    case Header(b, kids, e, rest) => [b] + (Flat(kids) + ([e] + Flat(rest)))
  }

  /** The sum of the stabs that belong to no inner header. */
  function OwnSum(f: Forest): int {
    match f
    case Nil => 0
    case Leaf(s, rest) => NameSum(s.name) + OwnSum(rest)
    case Header(_, _, _, rest) => OwnSum(rest)
  }

  /** Elimination as it is meant: a header seen before loses its own stabs and its end, inner headers stay. */
  function Eliminate(f: Forest, drop: bool, seen: Seen): Pass {
    match f
    case Nil => Pass([], seen)
    case Leaf(s, rest) => Prepend(if drop then [] else [Kept(s)], Eliminate(rest, drop, seen))
    case Header(b, kids, e, rest) =>
      var total := OwnSum(kids);
      if WasSeen(seen, b.name, total) then
        var inner := Eliminate(kids, true, seen);
        Prepend([Excl(b)] + inner.out, Eliminate(rest, drop, inner.seen))
      else
        var inner := Eliminate(kids, false, See(seen, b.name, total));
        Prepend([Kept(b)] + inner.out + [Kept(e)], Eliminate(rest, drop, inner.seen))
  }

  /** The marks of a forest whose own stabs are struck out (or not). */
  function Marks(f: Forest, drop: bool): (r: seq<bool>)
    ensures |r| == |Flat(f)|
  {
    match f
    case Nil => []
    case Leaf(_, rest) => [drop] + Marks(rest, drop)
    case Header(_, kids, _, rest) => [false] + (Marks(kids, false) + ([false] + Marks(rest, drop)))
  }

  lemma FlatTail(f: Forest, t: seq<Stab>)
    requires f.Header?
    ensures Flat(f) + t == [f.begin] + (Flat(f.kids) + ([f.end] + (Flat(f.rest) + t)))
  {
  }

  lemma MarksTail(f: Forest, drop: bool, mt: seq<bool>)
    requires f.Header?
    ensures Marks(f, drop) + mt == [false] + (Marks(f.kids, false) + ([false] + (Marks(f.rest, drop) + mt)))
  {
  }

  /** Scanning a forest adds the stabs of its own and passes over the rest. */
  lemma {:induction false} SumOverForest(f: Forest, t: seq<Stab>, nest: nat)
    requires WellFormed(f)
    ensures HeaderSum(Flat(f) + t, nest) == (if nest == 0 then OwnSum(f) else 0) + HeaderSum(t, nest)
  {
    match f
    case Nil =>
      assert Flat(f) + t == t;
    case Leaf(s, rest) =>
      assert Flat(f) + t == [s] + (Flat(rest) + t);
      SumOverForest(rest, t, nest);
    case Header(b, kids, e, rest) =>
      FlatTail(f, t);
      SumOverForest(kids, [e] + (Flat(rest) + t), nest + 1);
      SumOverForest(rest, t, nest);
  }

  /** Inside an inner header nothing is struck out. */
  lemma {:induction false} StruckDeep(f: Forest, t: seq<Stab>, nest: nat, m: seq<bool>, mt: seq<bool>)
    requires WellFormed(f) && nest > 0 && |m| == |Flat(f)| && |mt| == |t|
    ensures Struck(Flat(f) + t, nest, m + mt) == m + Struck(t, nest, mt)
  {
    hide Struck;
    match f
    case Nil =>
      assert Flat(f) + t == t && m + mt == mt;
    case Leaf(s, rest) =>
      assert Flat(f) + t == [s] + (Flat(rest) + t);
      assert m + mt == [m[0]] + (m[1..] + mt);
      StruckStep(s, Flat(rest) + t, nest, m[0], m[1..] + mt);
      StruckDeep(rest, t, nest, m[1..], mt);
    case Header(b, kids, e, rest) =>
      var k := |Flat(kids)|;
      var mk, me, mr := m[1..k + 1], m[k + 1], m[k + 2..];
      FlatTail(f, t);
      var after := Flat(rest) + t;
      SplitMarks(m, k, mt);
      StruckStep(b, Flat(kids) + ([e] + after), nest, m[0], mk + ([me] + (mr + mt)));
      StruckDeep(kids, [e] + after, nest + 1, mk, [me] + (mr + mt));
      StruckStep(e, after, nest + 1, me, mr + mt);
      StruckDeep(rest, t, nest, mr, mt);
      SplitMarks(m, k, Struck(t, nest, mt));
  }

  lemma SplitMarks(m: seq<bool>, k: nat, mt: seq<bool>)
    requires |m| >= k + 2
    ensures m + mt == [m[0]] + (m[1..k + 1] + ([m[k + 1]] + (m[k + 2..] + mt)))
  {
  }

  /** Striking out a header marks exactly its own stabs. */
  lemma {:induction false} StruckOverForest(f: Forest, t: seq<Stab>, mt: seq<bool>)
    requires WellFormed(f) && |mt| == |t|
    ensures Struck(Flat(f) + t, 0, Marks(f, false) + mt) == Marks(f, true) + Struck(t, 0, mt)
  {
    hide Struck;
    match f
    case Nil =>
      assert Flat(f) + t == t && Marks(f, false) + mt == mt;
    case Leaf(s, rest) =>
      assert Flat(f) + t == [s] + (Flat(rest) + t);
      assert Marks(f, false) + mt == [false] + (Marks(rest, false) + mt);
      StruckStep(s, Flat(rest) + t, 0, false, Marks(rest, false) + mt);
      StruckOverForest(rest, t, mt);
    case Header(b, kids, e, rest) =>
      FlatTail(f, t);
      MarksTail(f, false, mt);
      MarksTail(f, true, Struck(t, 0, mt));
      var after, marks := Flat(rest) + t, Marks(rest, false) + mt;
      StruckStep(b, Flat(kids) + ([e] + after), 0, false, Marks(kids, false) + ([false] + marks));
      StruckDeep(kids, [e] + after, 1, Marks(kids, false), [false] + marks);
      StruckStep(e, after, 1, false, marks);
      StruckOverForest(rest, t, mt);
  }

  lemma PrependTwice(a: seq<Out>, b: seq<Out>, p: Pass)
    ensures Prepend(a, Prepend(b, p)) == Prepend(a + b, p)
  {
  }

  // One step of the loop on each kind of symbol.

  lemma RunMarked(x: Stab, s: seq<Stab>, marks: seq<bool>, seen: Seen)
    requires |s| == |marks|
    ensures Run([x] + s, [true] + marks, seen) == Run(s, marks, seen)
  {
    assert ([x] + s)[1..] == s && ([true] + marks)[1..] == marks;
  }

  lemma RunCopied(x: Stab, s: seq<Stab>, marks: seq<bool>, seen: Seen)
    requires |s| == |marks| && x.kind != Begin
    ensures Run([x] + s, [false] + marks, seen) == Prepend([Kept(x)], Run(s, marks, seen))
  {
    assert ([x] + s)[1..] == s && ([false] + marks)[1..] == marks;
  }

  lemma RunBegin(x: Stab, s: seq<Stab>, marks: seq<bool>, seen: Seen, total: int)
    requires |s| == |marks| && x.kind == Begin && total == HeaderSum(s, 0)
    ensures Run([x] + s, [false] + marks, seen)
         == if WasSeen(seen, x.name, total) then Prepend([Excl(x)], Run(s, Struck(s, 0, marks), seen))
            else Prepend([Kept(x)], Run(s, marks, See(seen, x.name, total)))
  {
    assert ([x] + s)[1..] == s && ([false] + marks)[1..] == marks;
  }

  /** The loop does to a forest what elimination means, whatever follows it. */
  lemma {:induction false} RunOverForest(f: Forest, drop: bool, t: seq<Stab>, mt: seq<bool>, seen: Seen)
    requires WellFormed(f) && |mt| == |t|
    ensures var e := Eliminate(f, drop, seen);
            Run(Flat(f) + t, Marks(f, drop) + mt, seen) == Prepend(e.out, Run(t, mt, e.seen))
    decreases f, 1
  {
    hide Run;
    match f
    case Nil =>
      assert Flat(f) + t == t && Marks(f, drop) + mt == mt;
    case Leaf(s, rest) =>
      assert Flat(f) + t == [s] + (Flat(rest) + t);
      assert Marks(f, drop) + mt == [drop] + (Marks(rest, drop) + mt);
      if drop {
        RunMarked(s, Flat(rest) + t, Marks(rest, drop) + mt, seen);
      } else {
        RunCopied(s, Flat(rest) + t, Marks(rest, drop) + mt, seen);
      }
      RunOverForest(rest, drop, t, mt, seen);
      PrependTwice(if drop then [] else [Kept(s)], Eliminate(rest, drop, seen).out, Run(t, mt, Eliminate(rest, drop, seen).seen));
    case Header(b, kids, e, rest) =>
      FlatTail(f, t);
      MarksTail(f, drop, mt);
      var total, after, marks := OwnSum(kids), Flat(rest) + t, Marks(rest, drop) + mt;
      SumOverForest(kids, [e] + after, 0);
      assert HeaderSum([e] + after, 0) == 0;
      RunBegin(b, Flat(kids) + ([e] + after), Marks(kids, false) + ([false] + marks), seen, total);
      if WasSeen(seen, b.name, total) {
        RunOverDuplicate(f, drop, t, mt, seen);
      } else {
        RunOverNew(f, drop, t, mt, seen);
      }
  }

  lemma {:induction false} RunOverDuplicate(f: Forest, drop: bool, t: seq<Stab>, mt: seq<bool>, seen: Seen)
    requires WellFormed(f) && f.Header? && |mt| == |t| && WasSeen(seen, f.begin.name, OwnSum(f.kids))
    ensures var s, marks := Flat(f.kids) + ([f.end] + (Flat(f.rest) + t)), Marks(f.kids, false) + ([false] + (Marks(f.rest, drop) + mt));
            var e := Eliminate(f, drop, seen);
            Prepend([Excl(f.begin)], Run(s, Struck(s, 0, marks), seen)) == Prepend(e.out, Run(t, mt, e.seen))
    decreases f, 0
  {
    hide Run, Struck;
    var Header(b, kids, e, rest) := f;
    var after, marks := Flat(rest) + t, Marks(rest, drop) + mt;
    StruckOverForest(kids, [e] + after, [false] + marks);
    StruckEnd(e, after, false, marks);
    var inner := Eliminate(kids, true, seen);
    RunOverForest(kids, true, [e] + after, [true] + marks, seen);
    RunMarked(e, after, marks, inner.seen);
    RunOverForest(rest, drop, t, mt, inner.seen);
    var last := Eliminate(rest, drop, inner.seen);
    PrependTwice([Excl(b)], inner.out, Prepend(last.out, Run(t, mt, last.seen)));
    PrependTwice([Excl(b)] + inner.out, last.out, Run(t, mt, last.seen));
  }

  lemma {:induction false} RunOverNew(f: Forest, drop: bool, t: seq<Stab>, mt: seq<bool>, seen: Seen)
    requires WellFormed(f) && f.Header? && |mt| == |t| && !WasSeen(seen, f.begin.name, OwnSum(f.kids))
    ensures var s, marks := Flat(f.kids) + ([f.end] + (Flat(f.rest) + t)), Marks(f.kids, false) + ([false] + (Marks(f.rest, drop) + mt));
            var e := Eliminate(f, drop, seen);
            Prepend([Kept(f.begin)], Run(s, marks, See(seen, f.begin.name, OwnSum(f.kids)))) == Prepend(e.out, Run(t, mt, e.seen))
    decreases f, 0
  {
    hide Run;
    var Header(b, kids, e, rest) := f;
    var after, marks, seen' := Flat(rest) + t, Marks(rest, drop) + mt, See(seen, b.name, OwnSum(kids));
    var inner := Eliminate(kids, false, seen');
    RunOverForest(kids, false, [e] + after, [false] + marks, seen');
    RunCopied(e, after, marks, inner.seen);
    RunOverForest(rest, drop, t, mt, inner.seen);
    var last := Eliminate(rest, drop, inner.seen);
    var done := Prepend(last.out, Run(t, mt, last.seen));
    PrependTwice(inner.out, [Kept(e)], done);
    PrependTwice([Kept(b)], inner.out + [Kept(e)], done);
    assert [Kept(b)] + (inner.out + [Kept(e)]) == [Kept(b)] + inner.out + [Kept(e)];
    PrependTwice([Kept(b)] + inner.out + [Kept(e)], last.out, Run(t, mt, last.seen));
  }

  // ----- well-nested in, well-nested out -----

  /** N_BINCL and N_EINCL match up, starting inside `depth` headers. */
  predicate Nested(s: seq<Stab>, depth: nat) {
    if s == [] then depth == 0
    else match s[0].kind
         case Begin => Nested(s[1..], depth + 1)
         case End => depth > 0 && Nested(s[1..], depth - 1)
         case Plain => Nested(s[1..], depth)
  }

  /** The same for output symbols; N_EXCL stands for a whole header. */
  predicate NestedOut(s: seq<Out>, depth: nat) {
    if s == [] then depth == 0
    else if s[0].Excl? then NestedOut(s[1..], depth)
    else match s[0].stab.kind
         case Begin => NestedOut(s[1..], depth + 1)
         case End => depth > 0 && NestedOut(s[1..], depth - 1)
         case Plain => NestedOut(s[1..], depth)
  }

  /** Every well-nested sequence is a forest, up to the end of the header it starts in. */
  lemma {:induction false} Parse(s: seq<Stab>, depth: nat) returns (f: Forest, rest: seq<Stab>)
    requires Nested(s, depth)
    ensures WellFormed(f) && s == Flat(f) + rest
    ensures if depth == 0 then rest == [] else rest != [] && rest[0].kind == End && Nested(rest[1..], depth - 1)
    decreases |s|
  {
    if s == [] {
      f, rest := Nil, [];
    } else {
      match s[0].kind
      case End =>
        f, rest := Nil, s;
      case Plain =>
        var f';
        f', rest := Parse(s[1..], depth);
        f := Leaf(s[0], f');
        assert s == [s[0]] + s[1..];
        assert [s[0]] + (Flat(f') + rest) == [s[0]] + Flat(f') + rest;
      case Begin =>
        var kids, after := Parse(s[1..], depth + 1);
        var f';
        f', rest := Parse(after[1..], depth);
        f := Header(s[0], kids, after[0], f');
        FlatTail(f, rest);
        assert s == [s[0]] + s[1..];
        assert after == [after[0]] + after[1..];
    }
  }

  lemma NestedOutStep(x: Out, s: seq<Out>, depth: nat)
    ensures NestedOut([x] + s, depth)
         == if x.Excl? || x.stab.kind == Plain then NestedOut(s, depth)
            else if x.stab.kind == Begin then NestedOut(s, depth + 1)
            else depth > 0 && NestedOut(s, depth - 1)
  {
    assert ([x] + s)[1..] == s;
  }

  /** What is left of a forest opens and closes the same headers. */
  lemma {:induction false} EliminateNests(f: Forest, drop: bool, seen: Seen, t: seq<Out>, depth: nat)
    requires WellFormed(f)
    ensures NestedOut(Eliminate(f, drop, seen).out + t, depth) == NestedOut(t, depth)
  {
    hide NestedOut;
    var out := Eliminate(f, drop, seen).out;
    match f
    case Nil =>
      assert out + t == t;
    case Leaf(s, rest) =>
      var later := Eliminate(rest, drop, seen).out;
      EliminateNests(rest, drop, seen, t, depth);
      if drop {
        assert out + t == later + t;
      } else {
        assert out + t == [Kept(s)] + (later + t);
        NestedOutStep(Kept(s), later + t, depth);
      }
    case Header(b, kids, e, rest) =>
      var total := OwnSum(kids);
      if WasSeen(seen, b.name, total) {
        var inner := Eliminate(kids, true, seen);
        var later := Eliminate(rest, drop, inner.seen).out;
        EliminateNests(kids, true, seen, later + t, depth);
        EliminateNests(rest, drop, inner.seen, t, depth);
        ExclNests(Excl(b), inner.out, later, t, depth);
      } else {
        var inner := Eliminate(kids, false, See(seen, b.name, total));
        var later := Eliminate(rest, drop, inner.seen).out;
        EliminateNests(kids, false, See(seen, b.name, total), [Kept(e)] + (later + t), depth + 1);
        EliminateNests(rest, drop, inner.seen, t, depth);
        HeaderNests(Kept(b), inner.out, Kept(e), later, t, depth);
      }
  }

  lemma ExclNests(b: Out, inner: seq<Out>, later: seq<Out>, t: seq<Out>, depth: nat)
    requires b.Excl?
    ensures NestedOut([b] + inner + later + t, depth) == NestedOut(inner + (later + t), depth)
  {
    hide NestedOut;
    assert [b] + inner + later + t == [b] + (inner + (later + t));
    NestedOutStep(b, inner + (later + t), depth);
  }

  lemma HeaderNests(b: Out, inner: seq<Out>, e: Out, later: seq<Out>, t: seq<Out>, depth: nat)
    requires b.Kept? && b.stab.kind == Begin && e.Kept? && e.stab.kind == End
    ensures NestedOut([b] + inner + [e] + later + t, depth) == NestedOut(inner + ([e] + (later + t)), depth + 1)
    ensures NestedOut([e] + (later + t), depth + 1) == NestedOut(later + t, depth)
  {
    hide NestedOut;
    assert [b] + inner + [e] + later + t == [b] + (inner + ([e] + (later + t)));
    NestedOutStep(b, inner + ([e] + (later + t)), depth);
    NestedOutStep(e, later + t, depth + 1);
  }

  lemma SeeAdds(seen: Seen, name: seq<Byte>, total: int, n: seq<Byte>, v: int)
    ensures WasSeen(See(seen, name, total), n, v) <==> WasSeen(seen, n, v) || (n == name && v == total)
  {
  }

  // ----- which headers become N_EXCL -----

  /** Position `q` opens a header of this name and sum. */
  predicate IsHeader(s: seq<Stab>, q: nat, name: seq<Byte>, total: int) {
    q < |s| && s[q].kind == Begin && s[q].name == name && HeaderSum(s[q + 1..], 0) == total
  }

  /** The positions that open a header, from `i` on. */
  function Begins(s: seq<Stab>, i: nat): (r: seq<nat>)
    requires i <= |s|
    ensures forall k :: 0 <= k < |r| ==> i <= r[k] < |s| && s[r[k]].kind == Begin
    decreases |s| - i
  {
    if i == |s| then [] else (if s[i].kind == Begin then [i] else []) + Begins(s, i + 1)
  }

  /** The output symbols that stand for headers: N_BINCL kept, or turned into N_EXCL. */
  function HeadOuts(os: seq<Out>): seq<Out> {
    if os == [] then [] else (if os[0].stab.kind == Begin then [os[0]] else []) + HeadOuts(os[1..])
  }

  lemma HeadOutsStep(o: Out, os: seq<Out>)
    ensures HeadOuts([o] + os) == (if o.stab.kind == Begin then [o] else []) + HeadOuts(os)
  {
    assert ([o] + os)[1..] == os;
  }

  /** What has been seen is what was seen at the start, and the headers before `i`. */
  ghost predicate SeenTo(s: seq<Stab>, i: nat, start: Seen, seen: Seen) {
    forall n, v :: WasSeen(seen, n, v) <==> WasSeen(start, n, v) || exists q :: 0 <= q < i && IsHeader(s, q, n, v)
  }

  predicate BeginsUnmarked(s: seq<Stab>, marks: seq<bool>) {
    |s| == |marks| && forall j :: 0 <= j < |s| && s[j].kind == Begin ==> !marks[j]
  }

  /** Striking out a header never strikes out an inner one. */
  lemma {:induction false} StruckKeepsBegins(s: seq<Stab>, nest: nat, marks: seq<bool>)
    requires BeginsUnmarked(s, marks)
    ensures BeginsUnmarked(s, Struck(s, nest, marks))
  {
    if s != [] {
      var t, m := s[1..], marks[1..];
      assert BeginsUnmarked(t, m) by {
        assert forall j :: 0 <= j < |t| ==> t[j] == s[j + 1] && m[j] == marks[j + 1];
      }
      StruckKeepsBegins(t, nest + 1, m);
      StruckKeepsBegins(t, nest, m);
      if nest > 0 {
        StruckKeepsBegins(t, nest - 1, m);
      }
    }
  }

  /** The verdict on each header from `i` on. */
  ghost predicate Verdicts(s: seq<Stab>, i: nat, start: Seen, os: seq<Out>)
    requires i <= |s|
  {
    var b := Begins(s, i);
    && |os| == |b|
    && forall k :: 0 <= k < |b| ==> os[k].stab == s[b[k]] && (os[k].Excl? <==> Repeated(s, b[k], start))
  }

  /** A header of the same name and sum was seen before, or occurs earlier. */
  ghost predicate Repeated(s: seq<Stab>, p: nat, start: Seen)
    requires p < |s|
  {
    var total := HeaderSum(s[p + 1..], 0);
    WasSeen(start, s[p].name, total) || exists q :: 0 <= q < p && IsHeader(s, q, s[p].name, total)
  }

  lemma VerdictsStep(s: seq<Stab>, i: nat, start: Seen, os: seq<Out>, o: Out)
    requires i < |s| && Verdicts(s, i + 1, start, os)
    requires s[i].kind == Begin ==> o.stab == s[i] && (o.Excl? <==> Repeated(s, i, start))
    ensures Verdicts(s, i, start, (if s[i].kind == Begin then [o] else []) + os)
  {
    hide Repeated;
  }

  lemma SeenToNext(s: seq<Stab>, i: nat, start: Seen, seen: Seen)
    requires i < |s| && SeenTo(s, i, start, seen)
    ensures s[i].kind != Begin ==> SeenTo(s, i + 1, start, seen)
    ensures var total := HeaderSum(s[i + 1..], 0);
            s[i].kind == Begin ==>
              && (WasSeen(seen, s[i].name, total) <==> Repeated(s, i, start))
              && SeenTo(s, i + 1, start, if WasSeen(seen, s[i].name, total) then seen else See(seen, s[i].name, total))
  {
    hide WasSeen, See, HeaderSum;
    var total := HeaderSum(s[i + 1..], 0);
    var seen' := if s[i].kind != Begin || WasSeen(seen, s[i].name, total) then seen else See(seen, s[i].name, total);
    forall n, v
      ensures WasSeen(seen', n, v) <==> WasSeen(start, n, v) || exists q :: 0 <= q < i + 1 && IsHeader(s, q, n, v)
    {
      SeeAdds(seen, s[i].name, total, n, v);
      assert WasSeen(seen, n, v) <==> WasSeen(start, n, v) || exists q :: 0 <= q < i && IsHeader(s, q, n, v);
      assert IsHeader(s, i, n, v) <==> s[i].kind == Begin && s[i].name == n && total == v;
    }
  }

  lemma {:induction false} ExclFrom(s: seq<Stab>, i: nat, marks: seq<bool>, start: Seen, seen: Seen)
    requires i <= |s| && |marks| == |s| - i && BeginsUnmarked(s[i..], marks) && SeenTo(s, i, start, seen)
    ensures Verdicts(s, i, start, HeadOuts(Run(s[i..], marks, seen).out))
    decreases |s| - i
  {
    hide Run, WasSeen, See, HeaderSum, SeenTo, Repeated, Struck, Verdicts, HeadOuts;
    if i == |s| {
      NoneLeft(s, i, marks, start, seen);
    } else {
      var x, rest, m := s[i], s[i + 1..], marks[1..];
      var total := HeaderSum(rest, 0);
      assert s[i..] == [x] + rest && marks == [marks[0]] + m;
      assert BeginsUnmarked(rest, m) by {
        assert forall j :: 0 <= j < |rest| ==> rest[j] == s[i..][j + 1] && m[j] == marks[j + 1];
      }
      SeenToNext(s, i, start, seen);
      if marks[0] {
        assert s[i..][0] == x;
        RunMarked(x, rest, m, seen);
        ExclFrom(s, i + 1, m, start, seen);
        var os := HeadOuts(Run(rest, m, seen).out);
        VerdictsStep(s, i, start, os, Kept(x));
        assert [] + os == os;
      } else if x.kind != Begin {
        RunCopied(x, rest, m, seen);
        ExclFrom(s, i + 1, m, start, seen);
        var out := Run(rest, m, seen).out;
        HeadOutsStep(Kept(x), out);
        VerdictsStep(s, i, start, HeadOuts(out), Kept(x));
      } else {
        RunBegin(x, rest, m, seen, total);
        StruckKeepsBegins(rest, 0, m);
        var dup := WasSeen(seen, x.name, total);
        var m', seen' := if dup then Struck(rest, 0, m) else m, if dup then seen else See(seen, x.name, total);
        ExclFrom(s, i + 1, m', start, seen');
        var o, out := if dup then Excl(x) else Kept(x), Run(rest, m', seen').out;
        HeadOutsStep(o, out);
        VerdictsStep(s, i, start, HeadOuts(out), o);
      }
    }
  }

  lemma NoneLeft(s: seq<Stab>, i: nat, marks: seq<bool>, start: Seen, seen: Seen)
    requires i == |s| && marks == []
    ensures Verdicts(s, i, start, HeadOuts(Run(s[i..], marks, seen).out))
  {
  }

  /** N_EXCL replaces a header if and only if one of the same name and the same sum was seen before, or occurs
      earlier; every header comes out, in order. */
  lemma ExclIff(s: seq<Stab>, seen: Seen)
    ensures Verdicts(s, 0, seen, HeadOuts(Run(s, seq(|s|, _ => false), seen).out))
  {
    hide Run, Verdicts, HeadOuts;
    assert s[0..] == s;
    ExclFrom(s, 0, seq(|s|, _ => false), seen, seen);
  }

  lemma {:induction false} NoMarks(f: Forest, n: nat)
    requires n == |Flat(f)|
    ensures Marks(f, false) == seq(n, _ => false)
  {
    match f
    case Nil =>
    case Leaf(_, rest) => NoMarks(rest, n - 1);
    case Header(_, kids, _, rest) =>
      NoMarks(kids, |Flat(kids)|);
      NoMarks(rest, |Flat(rest)|);
  }

  /** Duplicate header elimination: on well-nested symbols the loop is elimination on the forest they form,
      and its output is well nested again. */
  lemma EliminationIsExact(s: seq<Stab>, seen: Seen) returns (f: Forest)
    requires Nested(s, 0)
    ensures WellFormed(f) && Flat(f) == s
    ensures Run(s, seq(|s|, _ => false), seen) == Eliminate(f, false, seen)
    ensures NestedOut(Run(s, seq(|s|, _ => false), seen).out, 0)
  {
    var rest;
    f, rest := Parse(s, 0);
    assert Flat(f) + [] == s && Flat(f) == s;
    NoMarks(f, |s|);
    assert Marks(f, false) + [] == Marks(f, false);
    RunOverForest(f, false, [], [], seen);
    var out := Eliminate(f, false, seen).out;
    assert out + [] == out;
    EliminateNests(f, false, seen, [], 0);
  }
}
