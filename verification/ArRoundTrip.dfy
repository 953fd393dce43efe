/** What was written is what is read: names, contents, order and index of a whole archive. */
module ArRoundTrip {
  import opened ByteSeq
  import opened Decimal
  import opened ArHeader
  import opened ArNameTable
  import opened ArArmap
  import opened ArArmapRead
  import opened ArWalk
  import opened ArItems
  import opened Archive

  /** The names that survive: the guards of the header, of the table clean-up, and of the inline form. */
  predicate Readable(t: Target, n: seq<Byte>) {
    && IsBaseName(n) && |n| + 4 < TWO31
    && (!IsLong(t, n) ==> ShortReadable(n, t.rules))
    && (IsLong(t, n) && t.style != AfterHeader ==> LongReadable(n))
  }

  /** A first member by one of these names would be taken for a table of the archive itself. */
  predicate NotReserved(t: Target, n: seq<Byte>) {
    n != SYMDEF && n != ARFILENAMES && (t.style == AfterHeader ==> !(SYMDEF <= n))
  }

  /** The name table as the reader keeps it. */
  function ReadTable(t: Target, names: seq<seq<Byte>>): Option<seq<Byte>>
    requires t.Valid()
  {
    var table := NameTable(t, names);
    if table == [] then None else Some(Clean(table + Padding(|table|)))
  }

  // ----- each member is found -----

  lemma ShortItemFound(t: Target, names: seq<seq<Byte>>, ms: seq<Member>, i: nat)
    requires t.Valid() && i < |names| == |ms| && AreMembers(ms) && SizeOk(t, names, ms, i)
    requires Readable(t, names[i]) && !IsLong(t, names[i])
    ensures NameIsFound(ItemOf(t, names, ms, i), ReadTable(t, names), t.rules.maxname)
  {
    var it := ItemOf(t, names, ms, i);
    SizeFits(|ms[i].contents| + |it.inl|);
    ShortNameReadsBack(names[i], t.rules, ms[i].meta, SizeField(|ms[i].contents| + |it.inl|).value, ReadTable(t, names).Some?);
  }

  lemma InlineItemFound(t: Target, names: seq<seq<Byte>>, ms: seq<Member>, i: nat)
    requires t.Valid() && i < |names| == |ms| && AreMembers(ms) && SizeOk(t, names, ms, i)
    requires Readable(t, names[i]) && IsLong(t, names[i]) && t.style == AfterHeader
    ensures NameIsFound(ItemOf(t, names, ms, i), ReadTable(t, names), t.rules.maxname)
  {
    var n, it := names[i], ItemOf(t, names, ms, i);
    SizeFits(|ms[i].contents| + |it.inl|);
    InlineFieldReadsBack(FreshField(n, t.rules), PaddedLength(|n|), t.rules, ms[i].meta,
                         SizeField(|ms[i].contents| + |it.inl|).value, ReadTable(t, names).Some?);
    CStringOf(n, Fill(0, PaddedLength(|n|) - |n|));
  }

  lemma TableItemFound(t: Target, names: seq<seq<Byte>>, ms: seq<Member>, i: nat)
    requires t.Valid() && i < |names| == |ms| && AreMembers(ms) && SizeOk(t, names, ms, i)
    requires Readable(t, names[i]) && IsLong(t, names[i]) && t.style != AfterHeader
    requires RoundUp2(|NameTable(t, names)|) < 10_000_000_000
    ensures NameIsFound(ItemOf(t, names, ms, i), ReadTable(t, names), t.rules.maxname)
  {
    var table, off := NameTable(t, names), Offset(names, i, t.rules.maxname, t.Slash());
    var it := ItemOf(t, names, ms, i);
    TableNameReadsBack(names, i, t.rules, t.Slash(), Padding(|table|));
    TableHolds(names, i, t.rules.maxname, t.Slash());
    assert off < |table| && table != [];
    DigitsFit(off, 10);
    TenColumns();
    SizeFits(|ms[i].contents| + |it.inl|);
    TableFieldReadsBack(off, t.rules, ms[i].meta, SizeField(|ms[i].contents| + |it.inl|).value);
  }

  lemma ItemReads(t: Target, names: seq<seq<Byte>>, ms: seq<Member>, i: nat)
    requires t.Valid() && i < |names| == |ms| && AreMembers(ms) && SizeOk(t, names, ms, i)
    ensures var it := ItemOf(t, names, ms, i);
            Reads(it.hdr, StoredSize(it)) && |it.inl| % 2 == 0 && StoredSize(it) < TWO64
  {
    SizeFits(|ms[i].contents| + |InlineName(t, names[i])|);
    HeaderReads(NameField(t, names, i), ms[i].meta, |ms[i].contents| + |InlineName(t, names[i])|);
    assert StoredSize(ItemOf(t, names, ms, i)) == |ms[i].contents| + |InlineName(t, names[i])|;
  }

  lemma ItemNameFound(t: Target, names: seq<seq<Byte>>, ms: seq<Member>, i: nat)
    requires t.Valid() && i < |names| == |ms| && AreMembers(ms) && SizeOk(t, names, ms, i) && Readable(t, names[i])
    requires RoundUp2(|NameTable(t, names)|) < 10_000_000_000
    ensures NameIsFound(ItemOf(t, names, ms, i), ReadTable(t, names), t.rules.maxname)
  {
    if !IsLong(t, names[i]) {
      ShortItemFound(t, names, ms, i);
    } else if t.style == AfterHeader {
      InlineItemFound(t, names, ms, i);
    } else {
      TableItemFound(t, names, ms, i);
    }
  }

  lemma SoundIf(it: Item, table: Option<seq<Byte>>, maxname: nat)
    requires maxname <= 16 && Reads(it.hdr, StoredSize(it)) && |it.inl| % 2 == 0
    requires StoredSize(it) < TWO64 && NameIsFound(it, table, maxname)
    ensures Sound(it, table, maxname)
  {
  }

  /** A member with a readable name is found under that name, by whichever form it was stored in. */
  lemma ItemSound(t: Target, names: seq<seq<Byte>>, ms: seq<Member>, i: nat)
    requires t.Valid() && i < |names| == |ms| && AreMembers(ms) && SizeOk(t, names, ms, i) && Readable(t, names[i])
    requires RoundUp2(|NameTable(t, names)|) < 10_000_000_000
    ensures Sound(ItemOf(t, names, ms, i), ReadTable(t, names), t.rules.maxname)
  {
    ItemReads(t, names, ms, i);
    ItemNameFound(t, names, ms, i);
    SoundIf(ItemOf(t, names, ms, i), ReadTable(t, names), t.rules.maxname);
  }

  predicate AllReadable(t: Target, names: seq<seq<Byte>>, d: nat)
    requires d <= |names|
  {
    forall i :: d <= i < |names| ==> Readable(t, names[i])
  }

  lemma {:induction false} ItemsSound(t: Target, names: seq<seq<Byte>>, ms: seq<Member>, d: nat, k: nat)
    requires t.Valid() && d <= |names| == |ms| && AreMembers(ms) && AllSizesOk(t, names, ms, d) && k <= |ms| - d
    requires AllReadable(t, names, d) && RoundUp2(|NameTable(t, names)|) < 10_000_000_000
    ensures AllSound(Items(t, names, ms, d), k, ReadTable(t, names), t.rules.maxname)
    decreases |ms| - d - k
  {
    hide Sound, ItemOf, ReadTable;
    if k < |ms| - d {
      assert Readable(t, names[d + k]);
      ItemSound(t, names, ms, d + k);
      assert Items(t, names, ms, d)[k] == ItemOf(t, names, ms, d + k);
      ItemsSound(t, names, ms, d, k + 1);
    }
  }

  // ----- opening -----

  /** What stands at `p` is no index and no name table. */
  predicate PlainAt(file: seq<Byte>, p: nat) {
    p == |file| ||
    (p + HDR_SIZE <= |file|
     && var f := file[p..p + 16];
        && f[0] != SLASH
        && f != MapName(Bsd) && f != OLD_LINUX && f != TableName(false)
        && (f == INLINE_20 ==> p + HDR_SIZE + 20 <= |file| && !(SYMDEF <= file[p + HDR_SIZE..p + HDR_SIZE + 20])))
  }

  lemma SpecialNames()
    ensures MapName(Coff)[0] == SLASH && MapName(Sym64)[0] == SLASH && TableName(true)[0] == SLASH
    ensures TableName(true)[1] == SLASH && TableName(false)[0] == 65
  {
  }

  lemma NoMapAt(file: seq<Byte>, maxname: nat, big: bool)
    requires maxname <= 16 && |file| >= SARMAG && PlainAt(file, SARMAG)
    ensures SlurpArmap(file, maxname, big) == Ok(Slurped(false, [], SARMAG))
  {
    SpecialNames();
  }

  lemma NoTableAt(file: seq<Byte>, p: nat, maxname: nat)
    requires maxname <= 16 && PlainAt(file, p)
    ensures SlurpNames(file, p, maxname) == Ok(Names(None, p))
  {
    SpecialNames();
  }

  lemma NoSecondMapAt(file: seq<Byte>, p: nat, maxname: nat)
    requires maxname <= 16
    requires p == |file| || (p + 2 <= |file| && !(file[p] == SLASH && file[p + 1] == SPACE))
    ensures SkipSecondMap(file, p, maxname) == p
  {
    var r := ReadHdr(file, p, None, maxname);
    if r.Ok? {
      HdrKept(file, p, maxname);
    }
  }

  lemma HdrKept(file: seq<Byte>, p: nat, maxname: nat)
    requires maxname <= 16 && ReadHdr(file, p, None, maxname).Ok?
    ensures ReadHdr(file, p, None, maxname).value.hdr == file[p..p + HDR_SIZE]
  {
  }

  /** A name table is read back cleaned up, and what follows starts right behind it. */
  lemma TableAt(file: seq<Byte>, p: nat, maxname: nat, part: seq<Byte>, slash: bool)
    requires maxname <= 16 && p % 2 == 0 && |part| % 2 == 0 && |part| >= HDR_SIZE && At(file, p, part)
    requires Reads(part[..HDR_SIZE], |part| - HDR_SIZE) && part[..16] == TableName(slash)
    ensures SlurpNames(file, p, maxname) == Ok(Names(Some(Clean(part[HDR_SIZE..])), p + |part|))
  {
    hide ReadMap, ScanUnsigned, Clean, MapName;
    SpecialNames();
    assert file[p..p + 16] == part[..16] by {
      assert file[p..p + |part|][..16] == file[p..p + 16];
    }
    assert part[0] == part[..16][0];
    ReadMapAt(file, p, maxname, part);
  }

  lemma TablePartIs(t: Target, table: seq<Byte>)
    requires table != [] && RoundUp2(|table|) < 10_000_000_000
    ensures var part := TablePart(t, table);
            && |part| >= HDR_SIZE && |part| % 2 == 0
            && Reads(part[..HDR_SIZE], |part| - HDR_SIZE) && part[..16] == TableName(t.Slash())
            && part[HDR_SIZE..] == table + Padding(|table|)
  {
    var size, body := RoundUp2(|table|), table + Padding(|table|);
    SizeFits(size);
    var hdr := Header(TableName(t.Slash()), BLANK_META, SizeField(size).value);
    HeaderReads(TableName(t.Slash()), BLANK_META, size);
    var part := TablePart(t, table);
    assert part == hdr + body;
    assert part[..HDR_SIZE] == hdr && part[HDR_SIZE..] == body;
    assert |part| - HDR_SIZE == size;
    assert part[..16] == hdr[..16];
  }

  /** A stored name table. */
  predicate IsTablePart(part: seq<Byte>, slash: bool) {
    && |part| >= HDR_SIZE && |part| % 2 == 0
    && Reads(part[..HDR_SIZE], |part| - HDR_SIZE) && part[..16] == TableName(slash)
  }

  /** Where the name table stands, no index is seen. */
  lemma TableIsNoMap(file: seq<Byte>, p: nat, part: seq<Byte>, slash: bool, maxname: nat, big: bool)
    requires maxname <= 16 && IsTablePart(part, slash) && At(file, p, part)
    ensures p == SARMAG ==> SlurpArmap(file, maxname, big) == Ok(Slurped(false, [], SARMAG))
    ensures SkipSecondMap(file, p, maxname) == p
  {
    hide SlurpMap, ScanUnsigned, SkipSecondMap;
    SpecialNames();
    var name := file[p..p + 16];
    assert name == part[..16] by {
      assert file[p..p + |part|][..16] == name;
    }
    assert name[0] == file[p] && name[1] == file[p + 1];
    assert TableName(true) != MapName(Coff) && TableName(true) != MapName(Sym64) by {
      assert MapName(Coff)[1] == SPACE && MapName(Sym64)[1] == 83;
    }
    assert MapName(Bsd)[0] == 95 && OLD_LINUX[0] == 95 && INLINE_20[0] == 35;
    NoSecondMapAt(file, p, maxname);
  }

  /** Opening finds the index and the name table that stand at the front, and nothing else. */
  lemma OpenFinds(file: seq<Byte>, w: Writer, map_: seq<Byte>, syms: seq<CarSym>, part: seq<Byte>, slash: bool, big: bool, maxname: nat, p: nat)
    requires maxname <= 16 && At(file, 0, ARMAG) && At(file, SARMAG, map_) && p == SARMAG + |map_| && At(file, p, part)
    requires if map_ == [] then syms == [] else IsMap(w, map_, syms, big)
    requires if part == [] then PlainAt(file, p) else IsTablePart(part, slash)
    ensures Open(file, maxname, big)
         == Ok(Opened(false, map_ != [], syms, if part == [] then None else Some(Clean(part[HDR_SIZE..])), p + |part|))
  {
    hide SlurpArmap, SlurpNames, ScanUnsigned, SlurpBody, SkipSecondMap, Clean, MapName;
    assert file[..SARMAG] == ARMAG;
    assert ARMAG != ARMAGT by {
      assert ARMAG[2] != ARMAGT[2];
    }
    var s := Slurped(map_ != [], syms, p);
    assert SlurpArmap(file, maxname, big) == Ok(s) by {
      if part != [] {
        TableIsNoMap(file, p, part, slash, maxname, big);
      } else {
        NoSecondMapAt(file, p, maxname);
      }
      if map_ != [] {
        ArmapReadsBack(w, map_, syms, big, file, maxname);
      } else if part == [] {
        NoMapAt(file, maxname, big);
      }
    }
    if part == [] {
      NoTableAt(file, p, maxname);
    } else {
      assert p % 2 == 0;
      TableAt(file, p, maxname, part, slash);
    }
  }

  // ----- the first member is no table -----

  /** A short header field that spells a reserved word belongs to a member of that name. */
  lemma ShortFieldStem(n: seq<Byte>, t: NameRules, stem: seq<Byte>, c: Byte, field: seq<Byte>)
    requires t.Valid() && IsBaseName(n) && |n| <= t.maxname && ShortReadable(n, t)
    requires |field| == 16 && |stem| < 16 && field[..|stem|] == stem && field[|stem|] == c
    requires SPACE !in stem && SLASH !in stem && (c == SPACE || c == SLASH)
    requires forall i :: |stem| < i < 16 ==> field[i] == SPACE
    requires ShortField(n, t) == field
    ensures n == stem
  {
    assert field[..|n|] == n;
    assert forall i :: 0 <= i < |stem| ==> field[i] == field[..|stem|][i] == stem[i] && stem[i] != SPACE && stem[i] != SLASH;
    assert forall i :: 0 <= i < |n| ==> field[i] == field[..|n|][i] == n[i] && n[i] != SLASH;
    assert SPACE !in n ==> forall i :: 0 <= i < |n| ==> field[i] != SPACE;
    assert |n| < 16 ==> field[|n|] == t.pad;
    assert |n| == |stem|;
  }

  lemma NotInlineTwenty(n: seq<Byte>, t: NameRules)
    requires t.Valid() && IsBaseName(n) && |n| <= t.maxname
    ensures ShortField(n, t) != INLINE_20
  {
    var f := ShortField(n, t);
    assert |n| >= 3 ==> f[2] == n[2] != SLASH;
    assert |n| == 2 ==> f[3] == SPACE;
    assert |n| == 1 ==> f[1] == t.pad;
  }

  lemma FieldIsPlain(t: Target, names: seq<seq<Byte>>, i: nat)
    requires t.Valid() && i < |names| && Readable(t, names[i]) && NotReserved(t, names[i])
    requires IsLong(t, names[i]) ==> t.style == AfterHeader
    ensures var f := NameField(t, names, i);
            && f[0] != SLASH && f != MapName(Bsd) && f != OLD_LINUX && f != TableName(false)
            && (f == INLINE_20 ==> t.style == AfterHeader && IsLong(t, names[i]) && PaddedLength(|names[i]|) == 20)
  {
    var n, f := names[i], NameField(t, names, i);
    if IsLong(t, n) {
      assert f[0] == 35;
      if f == INLINE_20 {
        InlineTwenty(FreshField(n, t.rules), PaddedLength(|n|), t.rules);
      }
    } else {
      assert f[0] == n[0];
      if f == MapName(Bsd) {
        ShortFieldStem(n, t.rules, SYMDEF, SPACE, f);
      }
      if f == OLD_LINUX {
        ShortFieldStem(n, t.rules, SYMDEF, SLASH, f);
      }
      if f == TableName(false) {
        ShortFieldStem(n, t.rules, ARFILENAMES, SLASH, f);
      }
      NotInlineTwenty(n, t.rules);
    }
  }

  lemma TwentyIsRead()
    ensures Atoi(INLINE_20, 3) == 20
  {
    assert DigitEnd(INLINE_20, 5) == 5;
    assert DigitEnd(INLINE_20, 4) == 5;
    assert DigitEnd(INLINE_20, 3) == 5;
    assert Value(INLINE_20, 3, 4) == 2;
    assert Value(INLINE_20, 3, 5) == 20;
  }

  lemma InlineTwenty(was: seq<Byte>, len: nat, t: NameRules)
    requires t.Valid() && |was| == 16 && len < TWO31 && InlineField(was, len, t) == INLINE_20
    ensures len == 20
  {
    hide Digits, Pow10, Atoi, ScanLong;
    DigitsFit(len, 10);
    TenColumns();
    var ds, rest := Digits(len), Fill(SPACE, t.maxname - 3 - |Digits(len)|) + was[t.maxname..];
    assert INLINE_20 == [35, 49, SLASH] + (ds + rest);
    assert INLINE_20[3..] == ds + rest;
    ScanDigitsAt(INLINE_20, 3, len, rest);
    TwentyIsRead();
  }

  lemma PlainItemAt(t: Target, names: seq<seq<Byte>>, ms: seq<Member>, i: nat, file: seq<Byte>, p: nat)
    requires t.Valid() && i < |names| == |ms| && AreMembers(ms) && SizeOk(t, names, ms, i)
    requires Readable(t, names[i]) && NotReserved(t, names[i]) && (IsLong(t, names[i]) ==> t.style == AfterHeader)
    requires At(file, p, ItemBytes(ItemOf(t, names, ms, i)))
    ensures PlainAt(file, p)
  {
    hide NameField, SizeField, TableName, MapName, Readable;
    var n, it, f := names[i], ItemOf(t, names, ms, i), NameField(t, names, i);
    FieldIsPlain(t, names, i);
    ItemParts(file, p, it);
    assert file[p..p + 16] == f by {
      assert file[p..p + HDR_SIZE][..16] == file[p..p + 16];
    }
    if f == INLINE_20 {
      assert it.inl == n + Fill(0, PaddedLength(|n|) - |n|) && |it.inl| == 20;
      assert file[p + HDR_SIZE..p + HDR_SIZE + 20] == it.inl;
      assert |n| >= |SYMDEF| && it.inl[..|SYMDEF|] == n[..|SYMDEF|];
    }
  }

  // ----- positions -----

  lemma {:induction false} DistanceIsOffset(t: Target, names: seq<seq<Byte>>, ms: seq<Member>, d: nat, k: nat)
    requires t.Valid() && d <= |names| == |ms| && AreMembers(ms) && AllSizesOk(t, names, ms, d) && k <= |ms| - d
    ensures Distance(Items(t, names, ms, d), k) == ActualOffset(PartsOf(t, names, ms, d), k, false)
  {
    hide InlineName, NameField;
    if k > 0 {
      DistanceIsOffset(t, names, ms, d, k - 1);
      assert Items(t, names, ms, d)[k - 1] == ItemOf(t, names, ms, d + (k - 1));
      assert PartsOf(t, names, ms, d)[k - 1] == Part(|ms[d + (k - 1)].contents|, |InlineName(t, names[d + (k - 1)])|);
    }
  }

  // ----- the whole archive -----

  /** The index format that ends up in the file. */
  function UsedWriter(t: Target, ms: seq<Member>): Writer
    requires t.Valid()
  {
    var names, d := NamesOf(ms), Dropped(ms, 0);
    CollectedSorted(SymbolsOf(ms, d), |ms| - d);
    if t.armap != Sym64 && TooFar(t.armap, Orls(ms, d), PartsOf(t, names, ms, d), false, Elength(t, names)) then Sym64
    else t.armap
  }

  /** Symbol names are C strings, and index and name table together stay within an unsigned int. */
  predicate MapOk(t: Target, ms: seq<Member>)
    requires t.Valid()
  {
    var d := Dropped(ms, 0);
    && NamesAreStrings(Orls(ms, d))
    && |NameTable(t, NamesOf(ms))| < TWO32
    && MapFits(UsedWriter(t, ms), Orls(ms, d), Elength(t, NamesOf(ms)))
  }

  function Stored(t: Target, ms: seq<Member>): (r: seq<nat>)
    requires t.Valid()
    ensures |r| == |Orls(ms, Dropped(ms, 0))|
  {
    var d := Dropped(ms, 0);
    CollectedSorted(SymbolsOf(ms, d), |ms| - d);
    StoredOffsets(UsedWriter(t, ms), Orls(ms, d), PartsOf(t, NamesOf(ms), ms, d), false, Elength(t, NamesOf(ms)))
  }

  /** The symbols a reader should find in the index. */
  function ExpectedSyms(t: Target, ms: seq<Member>, makeMap: bool): seq<CarSym>
    requires t.Valid()
  {
    if MakesMap(ms, makeMap) then Expected(Orls(ms, Dropped(ms, 0)), Stored(t, ms)) else []
  }

  lemma PartsAreEven(t: Target, names: seq<seq<Byte>>, ms: seq<Member>, d: nat)
    requires d <= |ms| == |names|
    ensures EvenExtra(PartsOf(t, names, ms, d))
  {
  }

  lemma {:induction false} StepsGrow(w: Writer, parts: seq<Part>, i: nat, k: nat)
    requires i <= k <= |parts|
    ensures StepOffset(w, parts, i, false) <= StepOffset(w, parts, k, false)
    decreases k - i
  {
    if i < k {
      StepsGrow(w, parts, i, k - 1);
    }
  }

  /** Every position the 64-bit writer stores lies inside the file. */
  lemma Sym64OffsetsFit(orls: seq<Orl>, parts: seq<Part>, elength: nat)
    requires Sorted(orls, |parts|) && EvenExtra(parts) && MapFits(Sym64, orls, elength)
    requires HDR_SIZE + SARMAG + TWO32 + ActualOffset(parts, |parts|, false) < TWO64
    ensures OffsetsFit(Sym64, StoredOffsets(Sym64, orls, parts, false, elength))
  {
    hide MapSize;
    StepsExact(Sym64, parts, |parts|, false);
    forall k | 0 <= k < |orls| ensures StoredOffsets(Sym64, orls, parts, false, elength)[k] < TWO64 {
      StepsGrow(Sym64, parts, orls[k].elt, |parts|);
    }
  }

  /** The bytes of the index with its header. */
  function MapLength(t: Target, ms: seq<Member>): (r: nat)
    requires t.Valid()
    ensures r >= HDR_SIZE
  {
    var orls := Orls(ms, Dropped(ms, 0));
    HDR_SIZE + MapSize(UsedWriter(t, ms), |orls|, NamesSize(orls, |orls|))
  }

  /** The index leaves room: its positions, even added to the whole length, stay below 2^64. */
  predicate OffsetsRoom(t: Target, ms: seq<Member>) {
    var d := Dropped(ms, 0);
    HDR_SIZE + SARMAG + TWO32 + ActualOffset(PartsOf(t, NamesOf(ms), ms, d), |ms| - d, false) < TWO64
  }

  lemma MapPartIsMap(t: Target, ms: seq<Member>, makeMap: bool, mapMeta: seq<Byte>)
    requires t.Valid() && IsMeta(mapMeta) && MakesMap(ms, makeMap) && MapOk(t, ms) && MapPart(t, ms, makeMap, mapMeta).Ok?
    requires OffsetsRoom(t, ms)
    ensures IsMap(UsedWriter(t, ms), MapPart(t, ms, makeMap, mapMeta).value, ExpectedSyms(t, ms, makeMap), t.big)
    ensures |MapPart(t, ms, makeMap, mapMeta).value| == MapLength(t, ms)
  {
    hide MapSize, MapBytes, IsMap, NameTable, PartsOf, NamesOf, Collected, SymbolsOf, StepOffset, Expected, NamesSize;
    var names, d, w := NamesOf(ms), Dropped(ms, 0), UsedWriter(t, ms);
    var orls, parts, elength := Orls(ms, d), PartsOf(t, names, ms, d), Elength(t, names);
    CollectedSorted(SymbolsOf(ms, d), |ms| - d);
    PartsAreEven(t, names, ms, d);
    if w == Sym64 {
      Sym64OffsetsFit(orls, parts, elength);
    }
    WrittenIsMap(w, orls, parts, false, elength, mapMeta, t.big);
    MapBytesLength(w, orls, parts, false, elength, mapMeta, t.big);
  }

  /** The members that are written can be read back, and the first of them is not mistaken for a table. */
  predicate Writable(t: Target, ms: seq<Member>, makeMap: bool)
    requires t.Valid()
  {
    var names, d := NamesOf(ms), FirstWritten(ms, makeMap);
    && AllReadable(t, names, d)
    && (d < |ms| ==> NotReserved(t, names[d]))
    && (MakesMap(ms, makeMap) ==> MapOk(t, ms))
  }

  /** The pieces of a written file and where they stand. */
  predicate Standing(t: Target, ms: seq<Member>, makeMap: bool, file: seq<Byte>, map_: seq<Byte>, part: seq<Byte>, p: nat, first: nat)
    requires t.Valid() && AreMembers(ms) && AllFits(t, ms, makeMap)
  {
    && At(file, 0, ARMAG) && At(file, SARMAG, map_) && p == SARMAG + |map_| && At(file, p, part)
    && first == p + |part| && At(file, first, WrittenItems(t, ms, makeMap)) && first + |WrittenItems(t, ms, makeMap)| == |file|
  }

  function WrittenItems(t: Target, ms: seq<Member>, makeMap: bool): seq<Byte>
    requires t.Valid() && AreMembers(ms) && AllFits(t, ms, makeMap)
  {
    ItemsFrom(Items(t, NamesOf(ms), ms, FirstWritten(ms, makeMap)), 0)
  }

  lemma FileStands(t: Target, ms: seq<Member>, makeMap: bool, mapMeta: seq<Byte>, file: seq<Byte>)
    requires t.Valid() && AreMembers(ms) && IsMeta(mapMeta) && ArchiveBytes(t, ms, makeMap, mapMeta) == Ok(file)
    ensures AllFits(t, ms, makeMap) && MapPart(t, ms, makeMap, mapMeta).Ok?
    ensures var map_, part := MapPart(t, ms, makeMap, mapMeta).value, TablePart(t, NameTable(t, NamesOf(ms)));
            Standing(t, ms, makeMap, file, map_, part, SARMAG + |map_|, SARMAG + |map_| + |part|)
  {
    hide MapPart, TablePart, NameTable, Items, ItemsFrom, FirstWritten, NamesOf;
    var map_, part := MapPart(t, ms, makeMap, mapMeta).value, TablePart(t, NameTable(t, NamesOf(ms)));
    var items := WrittenItems(t, ms, makeMap);
    AtSplit(file, 0, ARMAG, map_ + (part + items));
    AtSplit(file, SARMAG, map_, part + items);
    AtSplit(file, SARMAG + |map_|, part, items);
  }

  lemma {:induction false} TotalIsDistance(items: seq<Item>, k: nat)
    requires k <= |items|
    ensures Distance(items, k) + |ItemsFrom(items, k)| == |ItemsFrom(items, 0)|
  {
    hide ItemBytes;
    if k > 0 {
      TotalIsDistance(items, k - 1);
    }
  }

  /** A member that stands first and is not in a table is no table itself. */
  lemma FirstIsPlain(t: Target, ms: seq<Member>, makeMap: bool, file: seq<Byte>, p: nat)
    requires t.Valid() && AreMembers(ms) && AllFits(t, ms, makeMap) && Writable(t, ms, makeMap)
    requires NameTable(t, NamesOf(ms)) == [] && At(file, p, WrittenItems(t, ms, makeMap)) && p + |WrittenItems(t, ms, makeMap)| == |file|
    ensures PlainAt(file, p)
  {
    hide ItemBytes, PlainAt, Readable, NotReserved;
    var names, d := NamesOf(ms), FirstWritten(ms, makeMap);
    var items := Items(t, names, ms, d);
    if d < |ms| {
      AtSplit(file, p, ItemBytes(items[0]), ItemsFrom(items, 1));
      assert items[0] == ItemOf(t, names, ms, d);
      if t.style != AfterHeader {
        NoLongName(names, d, t.rules.maxname, t.Slash());
      }
      PlainItemAt(t, names, ms, d, file, p);
    } else {
      EmptyIsPlain(file, p);
    }
  }

  lemma EmptyIsPlain(file: seq<Byte>, p: nat)
    requires p == |file|
    ensures PlainAt(file, p)
  {
  }

  /** What opening a written archive yields. */
  function OpenedAs(t: Target, ms: seq<Member>, makeMap: bool, first: nat): Opened
    requires t.Valid()
  {
    Opened(false, MakesMap(ms, makeMap), ExpectedSyms(t, ms, makeMap), ReadTable(t, NamesOf(ms)), first)
  }

  /** The position of the first member. */
  function FirstMember(t: Target, ms: seq<Member>, makeMap: bool, mapMeta: seq<Byte>): nat
    requires t.Valid() && IsMeta(mapMeta) && MapPart(t, ms, makeMap, mapMeta).Ok? && AllFits(t, ms, makeMap)
  {
    SARMAG + |MapPart(t, ms, makeMap, mapMeta).value| + |TablePart(t, NameTable(t, NamesOf(ms)))|
  }

  lemma MapPartSound(t: Target, ms: seq<Member>, makeMap: bool, mapMeta: seq<Byte>, file: seq<Byte>)
    requires t.Valid() && AreMembers(ms) && IsMeta(mapMeta) && |file| < TWO63
    requires ArchiveBytes(t, ms, makeMap, mapMeta) == Ok(file) && Writable(t, ms, makeMap)
    ensures MapPart(t, ms, makeMap, mapMeta).Ok?
    ensures var map_ := MapPart(t, ms, makeMap, mapMeta).value;
            && (map_ == [] <==> !MakesMap(ms, makeMap))
            && (map_ != [] ==> IsMap(UsedWriter(t, ms), map_, ExpectedSyms(t, ms, makeMap), t.big))
            && (map_ != [] ==> |map_| == MapLength(t, ms))
  {
    hide Written, MapOk, AllReadable, IsMap, ExpectedSyms, UsedWriter, MapLength, OffsetsRoom, ArchiveBytes, AllFits;
    FileStands(t, ms, makeMap, mapMeta, file);
    if MakesMap(ms, makeMap) {
      RoomInFile(t, ms, makeMap, mapMeta, file);
      MapPartIsMap(t, ms, makeMap, mapMeta);
    }
  }

  lemma RoomInFile(t: Target, ms: seq<Member>, makeMap: bool, mapMeta: seq<Byte>, file: seq<Byte>)
    requires t.Valid() && AreMembers(ms) && IsMeta(mapMeta) && |file| < TWO63 && MakesMap(ms, makeMap)
    requires ArchiveBytes(t, ms, makeMap, mapMeta) == Ok(file)
    ensures OffsetsRoom(t, ms)
  {
    hide ArchiveBytes, MapPart, ItemsFrom, Items, TablePart, NameTable, ActualOffset, Distance, PartsOf, NamesOf,
         AllFits, AllSizesOk;
    FileStands(t, ms, makeMap, mapMeta, file);
    FitsMeansSizes(t, ms, makeMap);
    var names, d := NamesOf(ms), Dropped(ms, 0);
    var items := Items(t, names, ms, d);
    TotalIsDistance(items, |items|);
    DistanceIsOffset(t, names, ms, d, |ms| - d);
  }

  lemma FitsMeansSizes(t: Target, ms: seq<Member>, makeMap: bool)
    requires t.Valid() && AllFits(t, ms, makeMap)
    ensures AllSizesOk(t, NamesOf(ms), ms, FirstWritten(ms, makeMap))
    ensures RoundUp2(|NameTable(t, NamesOf(ms))|) < 10_000_000_000
  {
  }

  /** Opening a written archive finds its index entry by entry, its name table, and the first member at
      the position the writers predicted for it. */
  lemma OpenReadsBack(t: Target, ms: seq<Member>, makeMap: bool, mapMeta: seq<Byte>, file: seq<Byte>)
    requires t.Valid() && AreMembers(ms) && IsMeta(mapMeta) && |file| < TWO63
    requires ArchiveBytes(t, ms, makeMap, mapMeta) == Ok(file) && Writable(t, ms, makeMap)
    ensures AllFits(t, ms, makeMap) && MapPart(t, ms, makeMap, mapMeta).Ok?
    ensures Open(file, t.rules.maxname, t.big) == Ok(OpenedAs(t, ms, makeMap, FirstMember(t, ms, makeMap, mapMeta)))
  {
    hide Open, MapPart, IsMap, ExpectedSyms, UsedWriter, TablePart, NameTable, NamesOf, PlainAt, Clean, AllFits,
         Writable, ArchiveBytes, MakesMap, ReadTable, MapLength, WrittenItems, Reads, TableName;
    FileStands(t, ms, makeMap, mapMeta, file);
    MapPartSound(t, ms, makeMap, mapMeta, file);
    FitsMeansSizes(t, ms, makeMap);
    var table := NameTable(t, NamesOf(ms));
    var map_, part := MapPart(t, ms, makeMap, mapMeta).value, TablePart(t, table);
    var p := SARMAG + |map_|;
    if table == [] {
      EmptyPart(t, table);
      FirstIsPlain(t, ms, makeMap, file, p);
    } else {
      TablePartIs(t, table);
    }
    NoSymbols(t, ms, makeMap);
    OpenFinds(file, UsedWriter(t, ms), map_, ExpectedSyms(t, ms, makeMap), part, t.Slash(), t.big, t.rules.maxname, p);
    ReadTableIs(t, NamesOf(ms));
    assert FirstMember(t, ms, makeMap, mapMeta) == p + |part|;
  }

  lemma ReadTableIs(t: Target, names: seq<seq<Byte>>)
    requires t.Valid() && RoundUp2(|NameTable(t, names)|) < 10_000_000_000
    ensures var part := TablePart(t, NameTable(t, names));
            && (part == [] <==> NameTable(t, names) == [])
            && (part != [] ==> |part| >= HDR_SIZE)
            && ReadTable(t, names) == if part == [] then None else Some(Clean(part[HDR_SIZE..]))
  {
    hide NameTable, Clean, TablePart;
    var table := NameTable(t, names);
    if table == [] {
      EmptyPart(t, table);
    } else {
      TablePartIs(t, table);
    }
  }

  lemma EmptyPart(t: Target, table: seq<Byte>)
    requires table == [] && RoundUp2(|table|) < 10_000_000_000
    ensures TablePart(t, table) == []
  {
  }

  lemma NoSymbols(t: Target, ms: seq<Member>, makeMap: bool)
    requires t.Valid()
    ensures !MakesMap(ms, makeMap) ==> ExpectedSyms(t, ms, makeMap) == []
  {
  }

  lemma {:induction false} FoundAt(items: seq<Item>, k: nat, i: nat, pos: nat, q: nat)
    requires k <= i < |items| && q + Distance(items, k) == pos + Distance(items, i)
    ensures FoundFrom(items, k, pos)[i - k] == FoundElt(items[i], q)
    decreases i - k
  {
    hide ItemBytes, FoundElt;
    DistanceGrows(items, k, i);
    if k < i {
      var next := pos + |ItemBytes(items[k])|;
      FoundStep(items, k, pos, next);
      assert q + Distance(items, k + 1) == next + Distance(items, i);
      FoundAt(items, k + 1, i, next, q);
    } else {
      assert q == pos;
    }
  }

  lemma {:induction false} DistanceGrows(items: seq<Item>, i: nat, k: nat)
    requires i <= k <= |items|
    ensures Distance(items, i) <= Distance(items, k)
    decreases k - i
  {
    hide ItemBytes;
    if i < k {
      DistanceGrows(items, i, k - 1);
    }
  }

  /** The walk from the first member finds the items of the written members. */
  lemma WalkReadsBack(t: Target, ms: seq<Member>, makeMap: bool, mapMeta: seq<Byte>, file: seq<Byte>, first: nat)
    requires t.Valid() && AreMembers(ms) && IsMeta(mapMeta) && |file| < TWO63
    requires ArchiveBytes(t, ms, makeMap, mapMeta) == Ok(file) && Writable(t, ms, makeMap)
    requires AllFits(t, ms, makeMap) && MapPart(t, ms, makeMap, mapMeta).Ok? && first == FirstMember(t, ms, makeMap, mapMeta)
    ensures var items := Items(t, NamesOf(ms), ms, FirstWritten(ms, makeMap));
            && AllSound(items, 0, ReadTable(t, NamesOf(ms)), t.rules.maxname)
            && first % 2 == 0 && At(file, first, ItemsFrom(items, 0))
            && Walk(file, ReadTable(t, NamesOf(ms)), t.rules.maxname, first) == Walked(FoundFrom(items, 0, first), NoMoreFiles)
  {
    hide Walk, ItemsFrom, FoundFrom, ReadTable, TablePart, MapPart, NameTable, AllFits, AllSound, Items,
         ArchiveBytes, AllReadable, AllSizesOk, NamesOf, MapOk, NotReserved, MakesMap;
    FileStands(t, ms, makeMap, mapMeta, file);
    FitsMeansSizes(t, ms, makeMap);
    ItemsSound(t, NamesOf(ms), ms, FirstWritten(ms, makeMap), 0);
    FirstIsEvenPosition(t, ms, makeMap, mapMeta, file);
    WalkFinds(file, first, Items(t, NamesOf(ms), ms, FirstWritten(ms, makeMap)), 0, ReadTable(t, NamesOf(ms)), t.rules.maxname);
  }

  /** Element `i` of the walk carries the name and the contents of its member. */
  lemma EltReadsBack(t: Target, names: seq<seq<Byte>>, ms: seq<Member>, d: nat, file: seq<Byte>, first: nat, i: nat, table: Option<seq<Byte>>)
    requires t.Valid() && AreMembers(ms) && d <= |names| == |ms| && AllSizesOk(t, names, ms, d) && |file| < TWO63
    requires first % 2 == 0 && At(file, first, ItemsFrom(Items(t, names, ms, d), 0)) && i < |ms| - d
    requires AllSound(Items(t, names, ms, d), 0, table, t.rules.maxname)
    ensures var e := FoundFrom(Items(t, names, ms, d), 0, first)[i];
            && e.origin <= |file| && e.name == names[d + i] && Contents(file, e) == ms[d + i].contents
            && |e.hdr| == HDR_SIZE && e.hdr[16..48] == ms[d + i].meta
  {
    hide ItemsFrom, FoundFrom, AllSound, Sound, ItemOf, Distance, Contents, ReadHdr;
    var items := Items(t, names, ms, d);
    var p := first + Distance(items, i);
    ZeroDistance(items);
    FoundAt(items, 0, i, first, p);
    ReadAtDistance(file, first, items, i, p, table, t.rules.maxname);
    ItemIs(t, names, ms, d + i);
    assert items[i] == ItemOf(t, names, ms, d + i);
  }

  /** Whole-archive round trip: opening what was written and stepping through it yields the base names, the date,
      owner and mode columns and the contents of the members, in order, and then the end of the archive.  Without an
      index every member is there; with one, all but the leading ones called __.SYMDEF. */
  lemma ArchiveReadsBack(t: Target, ms: seq<Member>, makeMap: bool, mapMeta: seq<Byte>, file: seq<Byte>)
    requires t.Valid() && AreMembers(ms) && IsMeta(mapMeta) && |file| < TWO63
    requires ArchiveBytes(t, ms, makeMap, mapMeta) == Ok(file) && Writable(t, ms, makeMap)
    ensures var o := Open(file, t.rules.maxname, t.big);
            o.Ok? && !o.value.thin
            && var walked := Walk(file, o.value.table, t.rules.maxname, o.value.first);
               var d := |ms| - |walked.elts|;
               && walked.stop == NoMoreFiles && d >= 0
               && (!makeMap || (forall i :: 0 <= i < |ms| ==> !ms[i].isObject) ==> d == 0)
               && (forall i :: 0 <= i < d ==> ms[i].filename == SYMDEF)
               && (makeMap && (exists i :: 0 <= i < |ms| && ms[i].isObject) && d < |ms| ==> ms[d].filename != SYMDEF)
               && forall i :: 0 <= i < |walked.elts| ==>
                    && walked.elts[i].origin <= |file|
                    && walked.elts[i].name == Basename(ms[d + i].filename)
                    && |walked.elts[i].hdr| == HDR_SIZE && walked.elts[i].hdr[16..48] == ms[d + i].meta
                    && Contents(file, walked.elts[i]) == ms[d + i].contents
  {
    hide Open, Walk, Contents, ItemsFrom, FoundFrom, ReadTable, ExpectedSyms, TablePart, MapPart, NameTable,
         AllFits, AllSound, Items, ArchiveBytes, Writable, Basename;
    OpenReadsBack(t, ms, makeMap, mapMeta, file);
    FitsMeansSizes(t, ms, makeMap);
    var names, d, first := NamesOf(ms), FirstWritten(ms, makeMap), FirstMember(t, ms, makeMap, mapMeta);
    WalkReadsBack(t, ms, makeMap, mapMeta, file, first);
    DroppedAre(ms, 0);
    var elts := FoundFrom(Items(t, names, ms, d), 0, first);
    forall i | 0 <= i < |elts|
      ensures elts[i].origin <= |file| && elts[i].name == names[d + i] && Contents(file, elts[i]) == ms[d + i].contents
      ensures |elts[i].hdr| == HDR_SIZE && elts[i].hdr[16..48] == ms[d + i].meta
    {
      EltReadsBack(t, names, ms, d, file, first, i, ReadTable(t, names));
    }
  }

  lemma ZeroDistance(items: seq<Item>)
    ensures Distance(items, 0) == 0
  {
  }

  lemma ItemIs(t: Target, names: seq<seq<Byte>>, ms: seq<Member>, i: nat)
    requires t.Valid() && i < |names| == |ms| && AreMembers(ms) && SizeOk(t, names, ms, i)
    ensures ItemOf(t, names, ms, i).name == names[i] && ItemOf(t, names, ms, i).contents == ms[i].contents
    ensures ItemOf(t, names, ms, i).hdr[16..48] == ms[i].meta
  {
  }

  lemma FirstIsEvenPosition(t: Target, ms: seq<Member>, makeMap: bool, mapMeta: seq<Byte>, file: seq<Byte>)
    requires t.Valid() && AreMembers(ms) && IsMeta(mapMeta) && |file| < TWO63
    requires ArchiveBytes(t, ms, makeMap, mapMeta) == Ok(file) && Writable(t, ms, makeMap)
    requires AllFits(t, ms, makeMap) && MapPart(t, ms, makeMap, mapMeta).Ok?
    ensures FirstMember(t, ms, makeMap, mapMeta) % 2 == 0
  {
    hide ArchiveBytes, MapPart, NameTable, Writable, AllFits, UsedWriter, ExpectedSyms, MapLength, SlurpBody,
         ScanUnsigned, MapName, Header;
    MapPartSound(t, ms, makeMap, mapMeta, file);
    var map_, table := MapPart(t, ms, makeMap, mapMeta).value, NameTable(t, NamesOf(ms));
    FitsMeansSizes(t, ms, makeMap);
    assert |map_| % 2 == 0;
    EvenAdd(|map_|, |TablePart(t, table)|, |map_| + |TablePart(t, table)|);
    EvenAdd(SARMAG, |map_| + |TablePart(t, table)|, FirstMember(t, ms, makeMap, mapMeta));
  }

  // ----- exactly which names survive -----

  /** A stored member is found under its own name if and only if that name passes the guards of its form. */
  lemma NameFoundIff(t: Target, names: seq<seq<Byte>>, ms: seq<Member>, i: nat)
    requires t.Valid() && i < |names| == |ms| && AreMembers(ms) && SizeOk(t, names, ms, i)
    requires IsBaseName(names[i]) && |names[i]| + 4 < TWO31 && RoundUp2(|NameTable(t, names)|) < 10_000_000_000
    ensures NameIsFound(ItemOf(t, names, ms, i), ReadTable(t, names), t.rules.maxname) <==> Readable(t, names[i])
  {
    if Readable(t, names[i]) {
      ItemNameFound(t, names, ms, i);
    } else if !IsLong(t, names[i]) {
      ShortItemLost(t, names, ms, i);
    } else {
      TableItemLost(t, names, ms, i);
    }
  }

  lemma ShortItemLost(t: Target, names: seq<seq<Byte>>, ms: seq<Member>, i: nat)
    requires t.Valid() && i < |names| == |ms| && AreMembers(ms) && SizeOk(t, names, ms, i)
    requires IsBaseName(names[i]) && !IsLong(t, names[i]) && !ShortReadable(names[i], t.rules)
    ensures !NameIsFound(ItemOf(t, names, ms, i), ReadTable(t, names), t.rules.maxname)
  {
    hide ScanLong, Atoi, ShortLength;
    var n, it := names[i], ItemOf(t, names, ms, i);
    SizeFits(|ms[i].contents| + |it.inl|);
    ShortNameReadsBack(n, t.rules, ms[i].meta, SizeField(|ms[i].contents| + |it.inl|).value, ReadTable(t, names).Some?);
    NotBsd44(n, t.rules, it.hdr);
    assert it.hdr[0] == ShortField(n, t.rules)[0] == n[0];
  }

  lemma TableItemLost(t: Target, names: seq<seq<Byte>>, ms: seq<Member>, i: nat)
    requires t.Valid() && i < |names| == |ms| && AreMembers(ms) && SizeOk(t, names, ms, i)
    requires IsBaseName(names[i]) && |names[i]| > t.rules.maxname && t.style != AfterHeader && !LongReadable(names[i])
    requires RoundUp2(|NameTable(t, names)|) < 10_000_000_000
    ensures !NameIsFound(ItemOf(t, names, ms, i), ReadTable(t, names), t.rules.maxname)
  {
    hide Clean, CString;
    var table, off := NameTable(t, names), Offset(names, i, t.rules.maxname, t.Slash());
    var it := ItemOf(t, names, ms, i);
    TableNameReadsBack(names, i, t.rules, t.Slash(), Padding(|table|));
    TableHolds(names, i, t.rules.maxname, t.Slash());
    assert off < |table| && table != [];
    DigitsFit(off, 10);
    TenColumns();
    SizeFits(|ms[i].contents| + |it.inl|);
    TableFieldReadsBack(off, t.rules, ms[i].meta, SizeField(|ms[i].contents| + |it.inl|).value);
  }
}
