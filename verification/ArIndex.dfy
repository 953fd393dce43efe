/** Armap offsets against the truth: when the positions stored in the index are those of the members, in archives
    with contents and in thin ones. */
module ArIndex {
  import opened ByteSeq
  import opened ArHeader
  import opened ArNameTable
  import opened ArArmap
  import opened ArArmapRead
  import opened ArWalk
  import opened ArItems
  import opened Archive
  import opened ArRoundTrip

  // ----- archives with contents -----

  /** Where member `elt` of the written members really stands. */
  function TruePosition(t: Target, ms: seq<Member>, mapMeta: seq<Byte>, elt: nat): nat
    requires t.Valid() && IsMeta(mapMeta) && MapPart(t, ms, true, mapMeta).Ok? && AllFits(t, ms, true)
    requires AreMembers(ms) && elt <= |ms| - FirstWritten(ms, true)
  {
    FirstMember(t, ms, true, mapMeta) + Distance(Items(t, NamesOf(ms), ms, FirstWritten(ms, true)), elt)
  }

  /** Where the index writer expected the first member. */
  function AnnouncedFirst(t: Target, ms: seq<Member>): nat
    requires t.Valid()
  {
    var orls := Orls(ms, Dropped(ms, 0));
    PredictedFirst(UsedWriter(t, ms), |orls|, NamesSize(orls, |orls|), Elength(t, NamesOf(ms)))
  }

  /** The name table, and index and name table together, fit an unsigned int. */
  predicate IndexFits(t: Target, ms: seq<Member>)
    requires t.Valid()
  {
    |NameTable(t, NamesOf(ms))| < TWO32 && MapFits(UsedWriter(t, ms), Orls(ms, Dropped(ms, 0)), Elength(t, NamesOf(ms)))
  }

  lemma {:induction false} Wrap32Below(v: nat)
    ensures v >= TWO32 ==> Wrap32(v) <= v - TWO32
  {
    if v >= TWO32 {
      Wrap32Below(v - TWO32);
    }
  }

  /** Cutting sums to 32 bits only ever announces the first member too early. */
  lemma FirstNotLate(w: Writer, count: nat, strings: nat, table: nat)
    ensures var announced, first := PredictedFirst(w, count, strings, NameTableSpan(Wrap32(table))),
                                    ActualFirst(w, count, strings, NameTableSpan(table));
            && announced <= first
            && (announced == first <==> table < TWO32 && MapSize(w, count, strings) + NameTableSpan(Wrap32(table)) < TWO32)
  {
    hide MapSize;
    Wrap32Below(table);
    Wrap32Below(MapSize(w, count, strings) + NameTableSpan(Wrap32(table)));
  }

  lemma MapPartLength(t: Target, ms: seq<Member>, mapMeta: seq<Byte>)
    requires t.Valid() && IsMeta(mapMeta) && MakesMap(ms, true) && MapPart(t, ms, true, mapMeta).Ok?
    ensures |MapPart(t, ms, true, mapMeta).value| == MapLength(t, ms)
  {
    hide MapSize, MapBytes, NameTable, PartsOf, NamesOf, Collected, SymbolsOf, StepOffset, NamesSize, TooFar;
    var names, d, w := NamesOf(ms), Dropped(ms, 0), UsedWriter(t, ms);
    CollectedSorted(SymbolsOf(ms, d), |ms| - d);
    MapBytesLength(w, Orls(ms, d), PartsOf(t, names, ms, d), false, Elength(t, names), mapMeta, t.big);
  }

  lemma FirstAnnounced(t: Target, ms: seq<Member>, mapMeta: seq<Byte>)
    requires t.Valid() && IsMeta(mapMeta) && MakesMap(ms, true) && MapPart(t, ms, true, mapMeta).Ok? && AllFits(t, ms, true)
    ensures AnnouncedFirst(t, ms) <= FirstMember(t, ms, true, mapMeta)
    ensures AnnouncedFirst(t, ms) == FirstMember(t, ms, true, mapMeta) <==> IndexFits(t, ms)
  {
    hide MapPart, NameTable, Orls, UsedWriter, MapSize, NamesSize, NamesOf, AllFits, PredictedFirst, NameTableSpan;
    MapPartLength(t, ms, mapMeta);
    FitsMeansSizes(t, ms, true);
    var orls := Orls(ms, Dropped(ms, 0));
    FirstNotLate(UsedWriter(t, ms), |orls|, NamesSize(orls, |orls|), |NameTable(t, NamesOf(ms))|);
  }

  /** Armap offsets are true: the position stored for entry `k` is where its member stands if and only if index and
      name table fit an unsigned int and the writer steps exactly over every member before it. */
  lemma IndexIsTrue(t: Target, ms: seq<Member>, mapMeta: seq<Byte>, k: nat)
    requires t.Valid() && AreMembers(ms) && IsMeta(mapMeta) && ArchiveBytes(t, ms, true, mapMeta).Ok? && MakesMap(ms, true)
    requires k < |Orls(ms, Dropped(ms, 0))|
    ensures AllFits(t, ms, true) && MapPart(t, ms, true, mapMeta).Ok?
    ensures var d := Dropped(ms, 0);
            var elt := Orls(ms, d)[k].elt;
            && elt < |ms| - d
            && (Stored(t, ms)[k] == TruePosition(t, ms, mapMeta, elt)
                <==> IndexFits(t, ms)
                     && forall i :: 0 <= i < elt ==> StepsAreReal(UsedWriter(t, ms), PartsOf(t, NamesOf(ms), ms, d)[i], false))
  {
    hide MapPart, AllFits, Items, Distance, FirstMember, PredictedFirst, StepOffset,
         ActualOffset, PartsOf, NamesOf, Elength, Collected, SymbolsOf, NamesSize, AllSizesOk, IndexFits;
    FileStands(t, ms, true, mapMeta, ArchiveBytes(t, ms, true, mapMeta).value);
    var d, w := Dropped(ms, 0), UsedWriter(t, ms);
    CollectedSorted(SymbolsOf(ms, d), |ms| - d);
    var orls, parts := Orls(ms, d), PartsOf(t, NamesOf(ms), ms, d);
    FirstAnnounced(t, ms, mapMeta);
    FitsMeansSizes(t, ms, true);
    PartsAreEven(t, NamesOf(ms), ms, d);
    StepsExact(w, parts, orls[k].elt, false);
    DistanceIsOffset(t, NamesOf(ms), ms, d, orls[k].elt);
  }

  /** Reading at the true position of a member finds that member. */
  lemma TruePositionReads(t: Target, ms: seq<Member>, mapMeta: seq<Byte>, file: seq<Byte>, elt: nat)
    requires t.Valid() && AreMembers(ms) && IsMeta(mapMeta) && |file| < TWO63
    requires ArchiveBytes(t, ms, true, mapMeta) == Ok(file) && Writable(t, ms, true)
    requires elt < |ms| - FirstWritten(ms, true)
    ensures AllFits(t, ms, true) && MapPart(t, ms, true, mapMeta).Ok?
    ensures var r := ReadHdr(file, TruePosition(t, ms, mapMeta, elt), ReadTable(t, NamesOf(ms)), t.rules.maxname);
            && r.Ok? && r.value.name == NamesOf(ms)[FirstWritten(ms, true) + elt]
            && Contents(file, r.value) == ms[FirstWritten(ms, true) + elt].contents
  {
    hide ArchiveBytes, MapPart, AllFits, Writable, ItemsFrom, AllSound, Distance, ReadHdr, ReadTable, Contents,
         FirstMember, NamesOf, ItemOf;
    FileStands(t, ms, true, mapMeta, file);
    FitsMeansSizes(t, ms, true);
    var d, first := FirstWritten(ms, true), FirstMember(t, ms, true, mapMeta);
    var items := Items(t, NamesOf(ms), ms, d);
    WalkReadsBack(t, ms, true, mapMeta, file, first);
    ReadAtDistance(file, first, items, elt, TruePosition(t, ms, mapMeta, elt), ReadTable(t, NamesOf(ms)), t.rules.maxname);
    ItemIs(t, NamesOf(ms), ms, d + elt);
    assert items[elt] == ItemOf(t, NamesOf(ms), ms, d + elt);
  }

  // ----- looking a symbol up -----

  /** What a reader finds at `pos` is this member. */
  predicate Leads(t: Target, file: seq<Byte>, table: Option<seq<Byte>>, pos: nat, m: Member)
    requires t.Valid()
  {
    var r := ReadHdr(file, pos, table, t.rules.maxname);
    r.Ok? && r.value.origin <= |file| && r.value.name == Basename(m.filename) && Contents(file, r.value) == m.contents
  }

  /** Symbol `j` of member `i` belongs in the index: `i` is an object that is written, and the symbol is defined or
      common and seen outside. */
  predicate Listed(ms: seq<Member>, i: nat, j: nat) {
    && i < |ms| && ms[i].isObject && j < |ms[i].symbols|
    && (ms[i].symbols[j].visible || ms[i].symbols[j].common) && !ms[i].symbols[j].undefined
    && exists k :: 0 <= k <= i && ms[k].filename != SYMDEF
  }

  /** The writer steps exactly over every member. */
  predicate AllStepsReal(t: Target, ms: seq<Member>)
    requires t.Valid()
  {
    var d := Dropped(ms, 0);
    forall i :: 0 <= i < |ms| - d ==> StepsAreReal(UsedWriter(t, ms), PartsOf(t, NamesOf(ms), ms, d)[i], false)
  }

  /** Entry `k` of the index as it is read back leads to the member it was made for. */
  lemma EntryLeads(t: Target, ms: seq<Member>, mapMeta: seq<Byte>, file: seq<Byte>, k: nat)
    requires t.Valid() && AreMembers(ms) && IsMeta(mapMeta) && |file| < TWO63 && MakesMap(ms, true)
    requires ArchiveBytes(t, ms, true, mapMeta) == Ok(file) && Writable(t, ms, true) && AllStepsReal(t, ms)
    requires k < |Orls(ms, Dropped(ms, 0))|
    ensures var o, d, orl := Open(file, t.rules.maxname, t.big), Dropped(ms, 0), Orls(ms, Dropped(ms, 0))[k];
            && o.Ok? && |o.value.syms| == |Orls(ms, d)| && o.value.syms[k].name == orl.name && d + orl.elt < |ms|
            && Leads(t, file, o.value.table, o.value.syms[k].offset, ms[d + orl.elt])
  {
    hide ArchiveBytes, MapPart, AllFits, ReadHdr, ReadTable, Contents, FirstMember, NamesOf, Basename, Open, Stored, Orls, PartsOf, UsedWriter,
         TruePosition, IndexFits, AllReadable, NotReserved, MapOk, StepsAreReal;
    var d, orl := Dropped(ms, 0), Orls(ms, Dropped(ms, 0))[k];
    OpenReadsBack(t, ms, true, mapMeta, file);
    IndexIsTrue(t, ms, mapMeta, k);
    MapOkFits(t, ms);
    TruePositionReads(t, ms, mapMeta, file, orl.elt);
    NameAt(ms, d + orl.elt);
  }

  lemma MapOkFits(t: Target, ms: seq<Member>)
    requires t.Valid() && MapOk(t, ms)
    ensures IndexFits(t, ms)
  {
  }

  lemma NameAt(ms: seq<Member>, i: nat)
    requires i < |ms|
    ensures NamesOf(ms)[i] == Basename(ms[i].filename)
  {
  }

  lemma OffersListed(ms: seq<Member>, d: nat, p: Place)
    requires d <= |ms| && (forall i :: 0 <= i < d ==> ms[i].filename == SYMDEF) && (d < |ms| ==> ms[d].filename != SYMDEF)
    ensures Offered(SymbolsOf(ms, d), p) <==> Listed(ms, d + p.0, p.1)
    ensures Offered(SymbolsOf(ms, d), p) ==> SymbolsOf(ms, d)[p.0] == ms[d + p.0].symbols
  {
    if Offered(SymbolsOf(ms, d), p) {
      assert SymbolsOf(ms, d)[p.0] == if ms[d + p.0].isObject then ms[d + p.0].symbols else [];
      assert ms[d].filename != SYMDEF;
    }
  }

  /** The index works: every symbol that belongs there is found under its name, and leads to its own member; and
      every entry is such a symbol. */
  lemma IndexFinds(t: Target, ms: seq<Member>, mapMeta: seq<Byte>, file: seq<Byte>)
    requires t.Valid() && AreMembers(ms) && IsMeta(mapMeta) && |file| < TWO63 && MakesMap(ms, true)
    requires ArchiveBytes(t, ms, true, mapMeta) == Ok(file) && Writable(t, ms, true) && AllStepsReal(t, ms)
    ensures var o := Open(file, t.rules.maxname, t.big);
            && o.Ok?
            && (forall i: nat, j: nat :: Listed(ms, i, j) ==> exists k: nat :: Answers(t, file, o.value, k, ms, i, j))
            && (forall k :: 0 <= k < |o.value.syms| ==> IsListed(t, file, o.value, k, ms))
  {
    hide ArchiveBytes, Writable, AllStepsReal, Open, Leads, MakesMap, Orls, SymbolsOf, Listed, ExpectedSyms, AllFits, MapPart, FirstMember,
         Collected, ReadTable;
    var d, o := Dropped(ms, 0), Open(file, t.rules.maxname, t.big);
    var members := SymbolsOf(ms, d);
    DroppedAre(ms, 0);
    OpenReadsBack(t, ms, true, mapMeta, file);
    OrlsAre(ms, d);
    SymsAre(t, ms);
    var src := CollectedIndex(members, |members|);
    forall k | 0 <= k < |src| ensures Listed(ms, d + src[k].0, src[k].1) && Answers(t, file, o.value, k, ms, d + src[k].0, src[k].1) {
      EntryLeads(t, ms, mapMeta, file, k);
      OffersListed(ms, d, src[k]);
      assert Offered(members, src[k]);
    }
    forall k | 0 <= k < |o.value.syms| ensures IsListed(t, file, o.value, k, ms) {
      assert Answers(t, file, o.value, k, ms, d + src[k].0, src[k].1);
    }
    forall i: nat, j: nat | Listed(ms, i, j) ensures exists k: nat :: Answers(t, file, o.value, k, ms, i, j) {
      NotDropped(ms, i, j, d);
      OffersListed(ms, d, (i - d, j));
      assert (i - d, j) in src;
      var k :| 0 <= k < |src| && src[k] == (i - d, j);
      assert Answers(t, file, o.value, k, ms, i, j);
    }
  }

  /** Entry `k` stands for symbol `j` of member `i`. */
  predicate Answers(t: Target, file: seq<Byte>, o: Opened, k: nat, ms: seq<Member>, i: nat, j: nat)
    requires t.Valid()
  {
    && i < |ms| && j < |ms[i].symbols| && k < |o.syms| && o.syms[k].name == ms[i].symbols[j].name
    && Leads(t, file, o.table, o.syms[k].offset, ms[i])
  }

  ghost predicate IsListed(t: Target, file: seq<Byte>, o: Opened, k: nat, ms: seq<Member>)
    requires t.Valid()
  {
    exists i: nat, j: nat :: Listed(ms, i, j) && Answers(t, file, o, k, ms, i, j)
  }

  lemma NotDropped(ms: seq<Member>, i: nat, j: nat, d: nat)
    requires Listed(ms, i, j) && d <= |ms| && forall k :: 0 <= k < d ==> ms[k].filename == SYMDEF
    ensures d <= i
  {
  }

  lemma OrlsAre(ms: seq<Member>, d: nat)
    requires d <= |ms|
    ensures Orls(ms, d) == Collected(SymbolsOf(ms, d), |SymbolsOf(ms, d)|)
  {
  }

  lemma SymsAre(t: Target, ms: seq<Member>)
    requires t.Valid() && MakesMap(ms, true)
    ensures |ExpectedSyms(t, ms, true)| == |Orls(ms, Dropped(ms, 0))|
  {
  }

  // ----- archives whose index is wrong -----

  /** A member without symbols, and an object that defines "s". */
  function Plain(name: seq<Byte>, meta: seq<Byte>, contents: seq<Byte>): Member {
    Member(name, meta, contents, false, [])
  }

  function Object(name: seq<Byte>, meta: seq<Byte>): Member {
    Member(name, meta, [], true, [Symbol([115], true, false, false)])
  }

  lemma OneOrl(ms: seq<Member>, m: Member, meta: seq<Byte>, elt: nat)
    requires (ms == [m] && elt == 0) || (|ms| == 2 && ms[1] == m && elt == 1 && ms[0].symbols == [] && ms[0].filename != SYMDEF)
    requires m == Object(m.filename, meta) && m.filename != SYMDEF
    ensures MakesMap(ms, true) && Dropped(ms, 0) == 0 && Orls(ms, 0) == [Orl([115], elt)]
  {
    assert ms[elt].isObject;
    var syms := SymbolsOf(ms, 0);
    assert FromMember(elt, m.symbols, 0) == [];
    assert FromMember(elt, m.symbols, 1) == [Orl([115], elt)];
    assert Collected(syms, 0) == [];
    if elt == 1 {
      assert syms[0] == [] && FromMember(0, syms[0], 0) == [];
      assert Collected(syms, 1) == [];
      assert syms[1] == m.symbols;
    }
  }

  lemma BaseOfFill(b: Byte, n: nat)
    requires b != SLASH
    ensures Basename(Fill(b, n)) == Fill(b, n)
  {
    StartOf(Fill(b, n), n);
  }

  lemma {:induction false} StartOf(f: seq<Byte>, k: nat)
    requires k <= |f| && SLASH !in f
    ensures BaseStart(f, k) == 0
  {
    if k > 0 {
      StartOf(f, k - 1);
    }
  }

  lemma ArchiveIsOk(t: Target, ms: seq<Member>, meta: seq<Byte>)
    requires t.Valid() && t.bfd64 && AreMembers(ms) && IsMeta(meta) && AllFits(t, ms, true)
    ensures ArchiveBytes(t, ms, true, meta).Ok?
  {
    hide NameTable, NamesOf, PartsOf, Collected, MapBytes, TooFar, AllSizesOk, Items, ItemsFrom;
  }

  /** The first archive, piece by piece: 5 GB under a name of 17 bytes, then an object. */
  function LongNames(meta: seq<Byte>): seq<Member> {
    [Plain(Fill(97, 17), meta, Fill(0, 5_000_000_000)), Object([98], meta)]
  }

  lemma NotSymdef()
    ensures Fill(97, 17) != SYMDEF && [98] != SYMDEF && Fill(97, 4_294_967_290) != SYMDEF
  {
    assert |SYMDEF| == 9;
  }

  lemma LongNamesAre(t: Target, meta: seq<Byte>)
    requires t.Valid() && t.style == AfterHeader && IsMeta(meta)
    ensures var ms := LongNames(meta);
            && AreMembers(ms) && MakesMap(ms, true) && Dropped(ms, 0) == 0 && Orls(ms, 0) == [Orl([115], 1)]
            && NamesOf(ms) == [Fill(97, 17), [98]] && PartsOf(t, NamesOf(ms), ms, 0) == [Part(5_000_000_000, 20), Part(0, 0)]
  {
    hide InlineName, Basename, MakesMap, Dropped, Orls, Fill;
    var ms := LongNames(meta);
    NotSymdef();
    OneOrl(ms, ms[1], meta, 1);
    BaseOfFill(97, 17);
    BaseOfFill(98, 1);
    assert Fill(98, 1)[0] == 98 && Fill(98, 1) == [98];
    assert NamesOf(ms) == [Fill(97, 17), [98]];
    LongNamesInline(t);
    var parts := PartsOf(t, NamesOf(ms), ms, 0);
    assert parts[0] == Part(5_000_000_000, 20) && parts[1] == Part(0, 0);
  }

  lemma LongNamesInline(t: Target)
    requires t.Valid() && t.style == AfterHeader
    ensures |InlineName(t, Fill(97, 17))| == 20 && |InlineName(t, [98])| == 0
  {
  }

  lemma LongNamesFit(t: Target, meta: seq<Byte>)
    requires t.Valid() && t.style == AfterHeader && IsMeta(meta)
    ensures AllFits(t, LongNames(meta), true)
  {
    hide InlineName, NamesOf, MakesMap, Dropped;
    var ms := LongNames(meta);
    LongNamesAre(t, meta);
    LongNamesInline(t);
    assert NameTable(t, NamesOf(ms)) == [];
    forall i | 0 <= i < |ms| ensures SizeOk(t, NamesOf(ms), ms, i) {
    }
  }

  lemma LongNamesFallBack(t: Target, meta: seq<Byte>)
    requires t.Valid() && t.style == AfterHeader && t.armap == Bsd && IsMeta(meta)
    ensures UsedWriter(t, LongNames(meta)) == Sym64
  {
    hide NamesOf, PartsOf, Dropped, Orls, Elength, PredictedFirst, NamesSize;
    var ms := LongNames(meta);
    LongNamesAre(t, meta);
    var orls, parts := Orls(ms, 0), PartsOf(t, NamesOf(ms), ms, 0);
    var first := PredictedFirst(Bsd, |orls|, NamesSize(orls, |orls|), Elength(t, NamesOf(ms)));
    assert StepOffset(Bsd, parts, 0, false) == 0;
    assert StepOffset(Bsd, parts, 1, false) == StepSpan(Bsd, parts[0], false) >= 5_000_000_000;
    assert Offsets(Bsd, orls, parts, false, first)[0] == EntryOffset(Bsd, orls, 0, parts, false, first) >= TWO32;
  }

  /** When a BSD 4.4 archive passes 4 GB and falls back to the 64-bit index, names stored after their headers are
      not counted: a member after one with such a name is announced too early. */
  lemma LongNamesMislead(t: Target, meta: seq<Byte>)
    requires t.Valid() && t.style == AfterHeader && t.armap == Bsd && t.bfd64 && IsMeta(meta)
    ensures var ms := LongNames(meta);
            && AreMembers(ms) && ArchiveBytes(t, ms, true, meta).Ok? && UsedWriter(t, ms) == Sym64
            && AllFits(t, ms, true) && MapPart(t, ms, true, meta).Ok? && FirstWritten(ms, true) == 0
            && |Stored(t, ms)| == 1 && Stored(t, ms)[0] != TruePosition(t, ms, meta, 1)
  {
    hide NamesOf, PartsOf, Dropped, Orls, UsedWriter, AllFits, MapPart, ArchiveBytes, TruePosition, Stored, IndexFits, MakesMap, LongNames;
    var ms := LongNames(meta);
    LongNamesAre(t, meta);
    LongNamesFit(t, meta);
    LongNamesFallBack(t, meta);
    ArchiveIsOk(t, ms, meta);
    IndexIsTrue(t, ms, meta, 0);
    assert !StepsAreReal(Sym64, PartsOf(t, NamesOf(ms), ms, 0)[0], false);
  }

  /** The second archive: one object, under a name of almost 4 GB. */
  function LongTable(meta: seq<Byte>): seq<Member> {
    [Object(Fill(97, 4_294_967_290), meta)]
  }

  lemma LongTableIs(t: Target, meta: seq<Byte>)
    requires t.Valid() && t.style == SlashTable && IsMeta(meta)
    ensures var ms := LongTable(meta);
            && AreMembers(ms) && MakesMap(ms, true) && Dropped(ms, 0) == 0 && Orls(ms, 0) == [Orl([115], 0)]
            && NamesOf(ms) == [Fill(97, 4_294_967_290)] && |NameTable(t, NamesOf(ms))| == 4_294_967_292
  {
    hide Basename, MakesMap, Dropped, Orls, Fill;
    var ms := LongTable(meta);
    NotSymdef();
    OneOrl(ms, ms[0], meta, 0);
    BaseOfFill(97, 4_294_967_290);
    var names := NamesOf(ms);
    assert names == [Fill(97, 4_294_967_290)];
    assert TableTo(names, 0, t.rules.maxname, true) == [];
    assert TableTo(names, 1, t.rules.maxname, true) == [] + Entry(names[0], true);
  }

  lemma LongTableFits(t: Target, meta: seq<Byte>)
    requires t.Valid() && t.style == SlashTable && IsMeta(meta)
    ensures AllFits(t, LongTable(meta), true) && !IndexFits(t, LongTable(meta))
  {
    hide NameTable, NamesOf, MakesMap, Dropped, UsedWriter, Orls;
    LongTableIs(t, meta);
  }

  /** A name table of almost 4 GB makes the announced position of the first member wrap around. */
  lemma LongTableMisleads(t: Target, meta: seq<Byte>)
    requires t.Valid() && t.style == SlashTable && t.bfd64 && IsMeta(meta)
    ensures var ms := LongTable(meta);
            && AreMembers(ms) && ArchiveBytes(t, ms, true, meta).Ok?
            && AllFits(t, ms, true) && MapPart(t, ms, true, meta).Ok? && FirstWritten(ms, true) == 0
            && |Stored(t, ms)| == 1 && Stored(t, ms)[0] != TruePosition(t, ms, meta, 0)
  {
    hide NamesOf, PartsOf, Dropped, Orls, UsedWriter, AllFits, MapPart, ArchiveBytes, TruePosition, Stored, IndexFits, MakesMap, NameTable,
         LongTable;
    var ms := LongTable(meta);
    LongTableIs(t, meta);
    LongTableFits(t, meta);
    ArchiveIsOk(t, ms, meta);
    IndexIsTrue(t, ms, meta, 0);
  }

  // ----- thin archives -----

  /** The headers of a thin archive, one after the other. */
  function Headers(hdrs: seq<seq<Byte>>, k: nat): seq<Byte>
    requires k <= |hdrs|
  {
    if k == 0 then [] else Headers(hdrs, k - 1) + hdrs[k - 1]
  }

  predicate AreHeaders(hdrs: seq<seq<Byte>>) {
    forall i :: 0 <= i < |hdrs| ==> |hdrs[i]| == HDR_SIZE
  }

  lemma {:induction false} HeadersLength(hdrs: seq<seq<Byte>>, k: nat)
    requires AreHeaders(hdrs) && k <= |hdrs|
    ensures |Headers(hdrs, k)| == HDR_SIZE * k
  {
    if k > 0 {
      HeadersLength(hdrs, k - 1);
    }
  }

  lemma {:induction false} HeaderStands(hdrs: seq<seq<Byte>>, k: nat, n: nat)
    requires AreHeaders(hdrs) && k < n <= |hdrs|
    ensures At(Headers(hdrs, n), HDR_SIZE * k, hdrs[k])
  {
    HeadersLength(hdrs, n - 1);
    if n == k + 1 {
      AtRight(Headers(hdrs, k), hdrs[k]);
    } else {
      HeaderStands(hdrs, k, n - 1);
      AtLeft(Headers(hdrs, n - 1), hdrs[n - 1], HDR_SIZE * k, hdrs[k]);
    }
  }

  lemma {:induction false} ThinSteps(w: Writer, parts: seq<Part>, k: nat)
    requires w != Bsd && k <= |parts|
    ensures StepOffset(w, parts, k, true) == HDR_SIZE * k
  {
    if k > 0 {
      ThinSteps(w, parts, k - 1);
    }
  }

  /** The index format that ends up in a thin archive. */
  function ThinWriter(w: Writer, orls: seq<Orl>, parts: seq<Part>, elength: nat): Writer
    requires Sorted(orls, |parts|)
  {
    if w != Sym64 && TooFar(w, orls, parts, true, elength) then Sym64 else w
  }

  /** A thin archive: magic, index, name table with its header, and one header for each member. */
  function ThinFile(map_: seq<Byte>, table: seq<Byte>, hdrs: seq<seq<Byte>>): seq<Byte> {
    ARMAGT + (map_ + (table + Headers(hdrs, |hdrs|)))
  }

  function ThinPosition(map_: seq<Byte>, table: seq<Byte>, elt: nat): nat {
    SARMAG + |map_| + |table| + HDR_SIZE * elt
  }

  /** In a thin archive the header of each member stands at its position, and that is the position the COFF and
      64-bit writers store for its symbols, if and only if index and name table fit an unsigned int. */
  lemma ThinIndexIsTrue(w: Writer, orls: seq<Orl>, parts: seq<Part>, table: seq<Byte>, meta: seq<Byte>, big: bool, bfd64: bool,
                        hdrs: seq<seq<Byte>>, map_: seq<Byte>, k: nat)
    requires w != Bsd && Sorted(orls, |parts|) && IsMeta(meta) && AreHeaders(hdrs) && |hdrs| == |parts| && k < |orls|
    requires Written(w, orls, parts, true, |table|, meta, big, bfd64) == Ok(map_)
    ensures var used := ThinWriter(w, orls, parts, |table|);
            && map_ == MapBytes(used, orls, parts, true, |table|, meta, big)
            && At(ThinFile(map_, table, hdrs), ThinPosition(map_, table, orls[k].elt), hdrs[orls[k].elt])
            && (StoredOffsets(used, orls, parts, true, |table|)[k] == ThinPosition(map_, table, orls[k].elt)
                <==> MapFits(used, orls, |table|))
  {
    hide MapSize, NamesSize, MapBytes, TooFar, StepOffset, Headers, At, PredictedFirst;
    var used, elt, heads := ThinWriter(w, orls, parts, |table|), orls[k].elt, Headers(hdrs, |hdrs|);
    MapBytesLength(used, orls, parts, true, |table|, meta, big);
    FirstExact(used, |orls|, NamesSize(orls, |orls|), |table|);
    ThinSteps(used, parts, elt);
    HeaderStands(hdrs, elt, |hdrs|);
    ThinFileParts(map_, table, hdrs);
    AtWithin(ThinFile(map_, table, hdrs), SARMAG + |map_| + |table|, heads, HDR_SIZE * elt, hdrs[elt]);
  }

  lemma ThinFileParts(map_: seq<Byte>, table: seq<Byte>, hdrs: seq<seq<Byte>>)
    ensures At(ThinFile(map_, table, hdrs), SARMAG + |map_| + |table|, Headers(hdrs, |hdrs|))
  {
    hide Headers;
    var heads := Headers(hdrs, |hdrs|);
    assert ThinFile(map_, table, hdrs) == (ARMAGT + map_ + table) + heads;
    AtRight(ARMAGT + map_ + table, heads);
  }

  /** The BSD writer steps over contents that a thin archive does not store: the second of two members with 100
      bytes each is announced 100 bytes too late. */
  lemma ThinBsdMisleads(meta: seq<Byte>, big: bool, hdrs: seq<seq<Byte>>)
    requires IsMeta(meta) && AreHeaders(hdrs) && |hdrs| == 2
    ensures var orls, parts := [Orl([115], 1)], [Part(100, 0), Part(100, 0)];
            var map_ := MapBytes(Bsd, orls, parts, true, 0, meta, big);
            && Written(Bsd, orls, parts, true, 0, meta, big, true) == Ok(map_)
            && At(ThinFile(map_, [], hdrs), ThinPosition(map_, [], 1), hdrs[1])
            && StoredOffsets(Bsd, orls, parts, true, 0)[0] == ThinPosition(map_, [], 1) + 100
  {
    hide Headers, At, MapBytes;
    var orls, parts := [Orl([115], 1)], [Part(100, 0), Part(100, 0)];
    var map_ := MapBytes(Bsd, orls, parts, true, 0, meta, big);
    MapBytesLength(Bsd, orls, parts, true, 0, meta, big);
    assert NamesSize(orls, 0) == 0 && NamesSize(orls, 1) == 2;
    assert StepOffset(Bsd, parts, 0, true) == 0 && StepOffset(Bsd, parts, 1, true) == 160;
    HeaderStands(hdrs, 1, 2);
    ThinFileParts(map_, [], hdrs);
    AtWithin(ThinFile(map_, [], hdrs), SARMAG + |map_|, Headers(hdrs, 2), HDR_SIZE, hdrs[1]);
  }
}
