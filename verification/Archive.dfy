/** Writing a whole archive (_bfd_write_archive_contents) from freshly built members, and the round trip
    through the reader. */
module Archive {
  import opened ByteSeq
  import opened Decimal
  import opened ArHeader
  import opened ArNameTable
  import opened ArArmap
  import opened ArArmapRead
  import opened ArWalk
  import opened ArItems

  /** Where long names go: a "//" table, an "ARFILENAMES/" table, or after the header (BSD 4.4). */
  datatype NameStyle = SlashTable | PlainTable | AfterHeader

  /** What the target vector chooses. */
  datatype Target = Target(rules: NameRules, style: NameStyle, armap: Writer, big: bool, bfd64: bool) {
    predicate Valid() {
      rules.Valid()
    }
    predicate Slash() {
      style == SlashTable
    }
  }

  /** A member still to be written: the file it comes from, the date, uid, gid and mode columns of its
      fresh header, its contents, and its symbols if it is an object file. */
  datatype Member = Member(filename: seq<Byte>, meta: seq<Byte>, contents: seq<Byte>, isObject: bool, symbols: seq<Symbol>)

  predicate AreMembers(ms: seq<Member>) {
    forall i :: 0 <= i < |ms| ==> IsMeta(ms[i].meta)
  }

  /** The start of the last path component. */
  function BaseStart(f: seq<Byte>, k: nat): (r: nat)
    requires k <= |f|
    ensures r <= k
    ensures forall i :: r <= i < k ==> f[i] != SLASH
  {
    if k == 0 || f[k - 1] == SLASH then k else BaseStart(f, k - 1)
  }

  /** lbasename. */
  function Basename(f: seq<Byte>): (r: seq<Byte>)
    ensures SLASH !in r
  {
    f[BaseStart(f, |f|)..]
  }

  lemma {:induction false} StartIsAfterSlash(f: seq<Byte>, k: nat)
    requires k <= |f|
    ensures BaseStart(f, k) > 0 ==> f[BaseStart(f, k) - 1] == SLASH
  {
    if k > 0 && f[k - 1] != SLASH {
      StartIsAfterSlash(f, k - 1);
    }
  }

  /** What follows the last slash, or all of it. */
  lemma BasenameIs(f: seq<Byte>)
    ensures var n := Basename(f);
            |n| <= |f| && n == f[|f| - |n|..] && SLASH !in n && (|n| < |f| ==> f[|f| - |n| - 1] == SLASH)
  {
    StartIsAfterSlash(f, |f|);
  }

  function NamesOf(ms: seq<Member>): (r: seq<seq<Byte>>)
    ensures |r| == |ms|
  {
    seq(|ms|, i requires 0 <= i < |ms| => Basename(ms[i].filename))
  }

  // ----- the pieces of the file -----

  predicate IsLong(t: Target, n: seq<Byte>) {
    |n| > t.rules.maxname || (t.style == AfterHeader && SPACE in n)
  }

  /** A name stored after its header is padded with NULs to a multiple of four. */
  function PaddedLength(n: nat): (r: nat)
    ensures n <= r < n + 4 && r % 2 == 0 && r % 4 == 0
  {
    var words := (n + 3) / 4;
    assert 4 * words == 2 * (2 * words);
    4 * words
  }

  function InlineName(t: Target, n: seq<Byte>): (r: seq<Byte>)
    ensures |r| % 2 == 0
  {
    if t.style == AfterHeader && IsLong(t, n) then n + Fill(0, PaddedLength(|n|) - |n|) else []
  }

  /** A blank name field after bfd_dont_truncate_arname. */
  function FreshField(n: seq<Byte>, t: NameRules): (r: seq<Byte>)
    requires t.Valid()
    ensures |r| == 16
  {
    if |n| <= t.maxname then ShortField(n, t) else Fill(SPACE, 16)
  }

  /** The name field of member `i`; offsets refer to the table of all names. */
  function NameField(t: Target, names: seq<seq<Byte>>, i: nat): (r: seq<Byte>)
    requires t.Valid() && i < |names|
    ensures |r| == 16
  {
    var n := names[i];
    if !IsLong(t, n) then ShortField(n, t.rules)
    else if t.style == AfterHeader then InlineField(FreshField(n, t.rules), PaddedLength(|n|), t.rules)
    else TableField(Offset(names, i, t.rules.maxname, t.Slash()), t.rules)
  }

  predicate SizeOk(t: Target, names: seq<seq<Byte>>, ms: seq<Member>, i: nat)
    requires i < |names| == |ms|
  {
    |ms[i].contents| + |InlineName(t, names[i])| < 10_000_000_000
  }

  function ItemOf(t: Target, names: seq<seq<Byte>>, ms: seq<Member>, i: nat): (r: Item)
    requires t.Valid() && i < |names| == |ms| && AreMembers(ms) && SizeOk(t, names, ms, i)
    ensures |r.hdr| == HDR_SIZE
  {
    var inl := InlineName(t, names[i]);
    SizeFits(|ms[i].contents| + |inl|);
    Item(Header(NameField(t, names, i), ms[i].meta, SizeField(|ms[i].contents| + |inl|).value), inl, ms[i].contents, names[i])
  }

  /** The members from `d` on, as they stand in the file. */
  function Items(t: Target, names: seq<seq<Byte>>, ms: seq<Member>, d: nat): (r: seq<Item>)
    requires t.Valid() && d <= |names| == |ms| && AreMembers(ms)
    requires forall i :: d <= i < |ms| ==> SizeOk(t, names, ms, i)
    ensures |r| == |ms| - d
    ensures forall i :: 0 <= i < |r| ==> r[i] == ItemOf(t, names, ms, d + i)
  {
    seq(|ms| - d, i requires 0 <= i < |ms| - d => ItemOf(t, names, ms, d + i))
  }

  function NameTable(t: Target, names: seq<seq<Byte>>): seq<Byte>
    requires t.Valid()
  {
    if t.style == AfterHeader then [] else Table(names, t.rules.maxname, t.Slash())
  }

  const BLANK_META: seq<Byte> := Fill(SPACE, 32)

  /** The name table as a member; its size column is already even. */
  function TablePart(t: Target, table: seq<Byte>): (r: seq<Byte>)
    requires RoundUp2(|table|) < 10_000_000_000
    ensures |r| == NameTableSpan(|table|)
  {
    SizeFits(RoundUp2(|table|));
    if table == [] then []
    else Header(TableName(t.Slash()), BLANK_META, SizeField(RoundUp2(|table|)).value) + (table + Padding(|table|))
  }

  // ----- the index -----

  /** Leading members called __.SYMDEF are dropped when a new index is made. */
  function Dropped(ms: seq<Member>, k: nat): (d: nat)
    requires k <= |ms|
    ensures k <= d <= |ms|
    decreases |ms| - k
  {
    if k < |ms| && ms[k].filename == SYMDEF then Dropped(ms, k + 1) else k
  }

  /** Exactly these. */
  lemma {:induction false} DroppedAre(ms: seq<Member>, k: nat)
    requires k <= |ms|
    ensures forall i :: k <= i < Dropped(ms, k) ==> ms[i].filename == SYMDEF
    ensures Dropped(ms, k) < |ms| ==> ms[Dropped(ms, k)].filename != SYMDEF
    decreases |ms| - k
  {
    if k < |ms| && ms[k].filename == SYMDEF {
      DroppedAre(ms, k + 1);
    }
  }

  predicate MakesMap(ms: seq<Member>, makeMap: bool) {
    makeMap && exists i :: 0 <= i < |ms| && ms[i].isObject
  }

  function SymbolsOf(ms: seq<Member>, d: nat): (r: seq<seq<Symbol>>)
    requires d <= |ms|
    ensures |r| == |ms| - d
  {
    seq(|ms| - d, i requires 0 <= i < |ms| - d => if ms[d + i].isObject then ms[d + i].symbols else [])
  }

  function PartsOf(t: Target, names: seq<seq<Byte>>, ms: seq<Member>, d: nat): (r: seq<Part>)
    requires d <= |ms| == |names|
    ensures |r| == |ms| - d
    ensures forall i :: 0 <= i < |r| ==> r[i] == Part(|ms[d + i].contents|, |InlineName(t, names[d + i])|)
  {
    seq(|ms| - d, i requires 0 <= i < |ms| - d => Part(|ms[d + i].contents|, |InlineName(t, names[d + i])|))
  }

  // ----- the whole file -----

  /** Where the members in the file start: the index writer may have dropped some. */
  function FirstWritten(ms: seq<Member>, makeMap: bool): (d: nat)
    ensures d <= |ms|
  {
    if MakesMap(ms, makeMap) then Dropped(ms, 0) else 0
  }

  function Orls(ms: seq<Member>, d: nat): seq<Orl>
    requires d <= |ms|
  {
    Collected(SymbolsOf(ms, d), |ms| - d)
  }

  lemma {:induction false} CollectedSorted(members: seq<seq<Symbol>>, k: nat)
    requires k <= |members|
    ensures Sorted(Collected(members, k), k)
  {
    if k > 0 {
      CollectedSorted(members, k - 1);
      FromMemberElt(k - 1, members[k - 1], |members[k - 1]|);
    }
  }

  lemma {:induction false} FromMemberElt(elt: nat, syms: seq<Symbol>, k: nat)
    requires k <= |syms|
    ensures forall o :: o in FromMember(elt, syms, k) ==> o.elt == elt
  {
    if k > 0 {
      FromMemberElt(elt, syms, k - 1);
    }
  }

  /** The length of the name table as the index writers hear of it. */
  function Elength(t: Target, names: seq<seq<Byte>>): (r: nat)
    requires t.Valid()
    ensures r % 2 == 0
  {
    NameTableSpan(Wrap32(|NameTable(t, names)|))
  }

  /** The index, or nothing. */
  function MapPart(t: Target, ms: seq<Member>, makeMap: bool, mapMeta: seq<Byte>): Result<seq<Byte>>
    requires t.Valid() && IsMeta(mapMeta)
  {
    if !MakesMap(ms, makeMap) then Ok([])
    else
      var names, d := NamesOf(ms), Dropped(ms, 0);
      CollectedSorted(SymbolsOf(ms, d), |ms| - d);
      Written(t.armap, Orls(ms, d), PartsOf(t, names, ms, d), false, Elength(t, names), mapMeta, t.big, t.bfd64)
  }

  predicate AllSizesOk(t: Target, names: seq<seq<Byte>>, ms: seq<Member>, d: nat)
    requires d <= |ms| == |names|
  {
    forall i :: d <= i < |ms| ==> SizeOk(t, names, ms, i)
  }

  predicate ContentsOk(ms: seq<Member>) {
    forall i :: 0 <= i < |ms| ==> |ms[i].contents| < 10_000_000_000
  }

  /** Everything that has to fit in ten columns, checked before, between and while the members are written. */
  predicate AllFits(t: Target, ms: seq<Member>, makeMap: bool)
    requires t.Valid()
  {
    && ContentsOk(ms)
    && RoundUp2(|NameTable(t, NamesOf(ms))|) < 10_000_000_000
    && AllSizesOk(t, NamesOf(ms), ms, FirstWritten(ms, makeMap))
  }

  /** The magic, the index, the name table and the members. */
  function ArchiveBytes(t: Target, ms: seq<Member>, makeMap: bool, mapMeta: seq<Byte>): Result<seq<Byte>>
    requires t.Valid() && AreMembers(ms) && IsMeta(mapMeta)
  {
    var names, d := NamesOf(ms), FirstWritten(ms, makeMap);
    if !ContentsOk(ms) then Err(FileTooBig)
    else
      match MapPart(t, ms, makeMap, mapMeta)
      case Err(e) => Err(e)
      case Ok(map_) =>
        if !AllFits(t, ms, makeMap) then Err(FileTooBig)
        else Ok(ARMAG + (map_ + (TablePart(t, NameTable(t, names)) + ItemsFrom(Items(t, names, ms, d), 0))))
  }
}
