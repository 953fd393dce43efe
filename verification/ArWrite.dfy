/** The writer itself, step by step: _bfd_write_archive_contents and what it calls. */
module ArWrite {
  import opened ByteSeq
  import opened Decimal
  import opened ArHeader
  import opened ArNameTable
  import opened ArArmap
  import opened ArArmapRead
  import opened ArWalk
  import opened ArItems
  import opened Archive

  const DEFAULT_BUFFERSIZE := 8192

  /** The copy loop: whole buffers while there are, then the rest. */
  method CopyContents(contents: seq<Byte>) returns (out: seq<Byte>)
    ensures out == contents
  {
    out := [];
    var remaining := |contents|;
    while remaining != 0
      invariant 0 <= remaining <= |contents|
      invariant out == contents[..|contents| - remaining]
    {
      var amt := if DEFAULT_BUFFERSIZE > remaining then remaining else DEFAULT_BUFFERSIZE;
      var at := |contents| - remaining;
      out := out + contents[at..at + amt];
      assert contents[..at + amt] == contents[..at] + contents[at..at + amt];
      remaining := remaining - amt;
    }
  }

  /** The first loop: fresh headers for all members, or failure on one whose size does not fit. */
  method FreshHeaders(t: Target, ms: seq<Member>) returns (r: Result<seq<seq<Byte>>>)
    requires t.Valid()
    ensures r.Ok? <==> ContentsOk(ms)
    ensures r.Err? ==> r.error == FileTooBig
    ensures r.Ok? ==> |r.value| == |ms| && forall i :: 0 <= i < |ms| ==> r.value[i] == FreshField(NamesOf(ms)[i], t.rules)
  {
    hide ShortField, Basename, Digits;
    var fields := [];
    for i := 0 to |ms|
      invariant |fields| == i
      invariant forall j :: 0 <= j < i ==> |ms[j].contents| < 10_000_000_000 && fields[j] == FreshField(NamesOf(ms)[j], t.rules)
    {
      SizeFits(|ms[i].contents|);
      if SizeField(|ms[i].contents|).Err? {
        return Err(FileTooBig);
      }
      fields := fields + [FreshField(Basename(ms[i].filename), t.rules)];
    }
    return Ok(fields);
  }

  /** The naming pass of the target: a table, or BSD 4.4 headers. */
  method NameHeaders(t: Target, names: seq<seq<Byte>>, fields: seq<seq<Byte>>) returns (table: seq<Byte>, fields': seq<seq<Byte>>)
    requires t.Valid() && |fields| == |names| && forall i :: 0 <= i < |names| ==> fields[i] == FreshField(names[i], t.rules)
    ensures table == NameTable(t, names)
    ensures |fields'| == |names| && forall i :: 0 <= i < |names| ==> fields'[i] == NameField(t, names, i)
  {
    hide ShortField, TableField, InlineField, FixShort, FixLong;
    if t.style == AfterHeader {
      table, fields' := [], [];
      for i := 0 to |names|
        invariant |fields'| == i
        invariant forall j :: 0 <= j < i ==> fields'[j] == NameField(t, names, j)
      {
        if IsLong(t, names[i]) {
          fields' := fields' + [InlineField(fields[i], PaddedLength(|names[i]|), t.rules)];
        } else {
          fields' := fields' + [fields[i]];
        }
      }
    } else {
      table, fields' := ConstructExtendedNameTable(names, fields, t.rules, t.Slash());
      forall i | 0 <= i < |names| ensures fields'[i] == NameField(t, names, i) {
        FreshFields(names[i], Offset(names, i, t.rules.maxname, t.Slash()), t.rules);
      }
    }
  }

  /** One member: header (with the size column of BSD 4.4 names corrected), inline name, contents, padding. */
  method WriteMember(t: Target, names: seq<seq<Byte>>, ms: seq<Member>, i: nat, field: seq<Byte>) returns (r: Result<seq<Byte>>)
    requires t.Valid() && i < |names| == |ms| && AreMembers(ms) && field == NameField(t, names, i)
    ensures r.Ok? <==> SizeOk(t, names, ms, i)
    ensures r.Ok? ==> r.value == ItemBytes(ItemOf(t, names, ms, i))
    ensures r.Err? ==> r.error == FileTooBig
  {
    hide NameField, Digits, InlineName, Pow10;
    var inl := InlineName(t, names[i]);
    SizeFits(|ms[i].contents| + |inl|);
    var size := SizeField(|ms[i].contents| + |inl|);
    if size.Err? {
      return Err(FileTooBig);
    }
    var contents := CopyContents(ms[i].contents);
    r := Ok(Header(field, ms[i].meta, size.value) + (inl + (contents + Padding(|contents|))));
  }

  /** The member loop, from the first member that was not dropped. */
  method WriteMembers(t: Target, names: seq<seq<Byte>>, ms: seq<Member>, fields: seq<seq<Byte>>, d: nat) returns (r: Result<seq<Byte>>)
    requires t.Valid() && d <= |names| == |ms| == |fields| && AreMembers(ms)
    requires forall i :: 0 <= i < |names| ==> fields[i] == NameField(t, names, i)
    ensures r.Ok? <==> AllSizesOk(t, names, ms, d)
    ensures r.Ok? ==> r.value == ItemsFrom(Items(t, names, ms, d), 0)
    ensures r.Err? ==> r.error == FileTooBig
  {
    hide NameField, ItemOf, ItemBytes, SizeOk;
    var out := [];
    ghost var items := if AllSizesOk(t, names, ms, d) then Items(t, names, ms, d) else [];
    var k := d;
    while k < |ms|
      invariant d <= k <= |ms|
      invariant forall i :: d <= i < k ==> SizeOk(t, names, ms, i)
      invariant AllSizesOk(t, names, ms, d) ==> ItemsFrom(items, 0) == out + ItemsFrom(items, k - d)
    {
      var m := WriteMember(t, names, ms, k, fields[k]);
      if m.Err? {
        return Err(FileTooBig);
      }
      if AllSizesOk(t, names, ms, d) {
        assert items[k - d] == ItemOf(t, names, ms, k) by {
          assert d + (k - d) == k;
        }
        assert ItemsFrom(items, k - d) == m.value + ItemsFrom(items, k - d + 1);
        assert out + (m.value + ItemsFrom(items, k - d + 1)) == (out + m.value) + ItemsFrom(items, k - d + 1);
      }
      out := out + m.value;
      k := k + 1;
    }
    return Ok(out);
  }

  /** _bfd_compute_and_write_armap: drop old indexes, collect the symbols, and let the target's writer go. */
  method WriteMap(t: Target, ms: seq<Member>, elength: nat, mapMeta: seq<Byte>) returns (r: Result<seq<Byte>>, d: nat)
    requires t.Valid() && IsMeta(mapMeta) && elength == Elength(t, NamesOf(ms))
    requires MakesMap(ms, true)
    ensures r == MapPart(t, ms, true, mapMeta) && d == FirstWritten(ms, true)
  {
    hide NamesOf, PartsOf, SymbolsOf, Written, Elength;
    d := 0;
    while d < |ms| && ms[d].filename == SYMDEF
      invariant d <= |ms| && Dropped(ms, d) == Dropped(ms, 0)
    {
      d := d + 1;
    }
    var names := NamesOf(ms);
    var parts := PartsOf(t, names, ms, d);
    var orls, stridx := CollectSymbols(SymbolsOf(ms, d));
    if t.armap == Sym64 {
      r := Write64(orls, parts, false, elength, mapMeta, t.big);
      SixtyFourAlways(orls, parts, elength, mapMeta, t.big, t.bfd64);
    } else {
      r := Write32(t.armap, orls, parts, false, elength, mapMeta, t.big, t.bfd64);
    }
  }

  lemma SixtyFourAlways(orls: seq<Orl>, parts: seq<Part>, elength: nat, meta: seq<Byte>, big: bool, bfd64: bool)
    requires Sorted(orls, |parts|) && IsMeta(meta)
    ensures Written(Sym64, orls, parts, false, elength, meta, big, true) == Written(Sym64, orls, parts, false, elength, meta, big, bfd64)
  {
  }

  /** _bfd_write_archive_contents for an archive that is not thin. */
  method WriteArchiveContents(t: Target, ms: seq<Member>, makeMap: bool, mapMeta: seq<Byte>) returns (r: Result<seq<Byte>>)
    requires t.Valid() && AreMembers(ms) && IsMeta(mapMeta)
    ensures r == ArchiveBytes(t, ms, makeMap, mapMeta)
  {
    hide NameTable, MapPart, Items, ItemsFrom, NamesOf, FreshField, NameField, AllSizesOk, TableName, Digits, Pow10;
    var blanks := FreshHeaders(t, ms);
    if blanks.Err? {
      return Err(blanks.error);
    }
    var names := NamesOf(ms);
    var table, fields := NameHeaders(t, names, blanks.value);
    var file := ARMAG;
    var map_: seq<Byte>, d := [], 0;
    NoMapPart(t, ms, makeMap, mapMeta);
    if makeMap && exists i :: 0 <= i < |ms| && ms[i].isObject {
      var m, dropped := WriteMap(t, ms, NameTableSpan(Wrap32(|table|)), mapMeta);
      if m.Err? {
        return Err(m.error);
      }
      map_, d := m.value, dropped;
    }
    var part: seq<Byte> := [];
    if table != [] {
      SizeFits(RoundUp2(|table|));
      var size := SizeField(RoundUp2(|table|));
      if size.Err? {
        return Err(FileTooBig);
      }
      part := Header(TableName(t.Slash()), BLANK_META, size.value) + (table + Padding(|table|));
    }
    var members := WriteMembers(t, names, ms, fields, d);
    if members.Err? {
      return Err(FileTooBig);
    }
    r := Ok(file + (map_ + (part + members.value)));
  }

  lemma NoMapPart(t: Target, ms: seq<Member>, makeMap: bool, mapMeta: seq<Byte>)
    requires t.Valid() && IsMeta(mapMeta)
    ensures !MakesMap(ms, makeMap) ==> MapPart(t, ms, makeMap, mapMeta) == Ok([])
    ensures makeMap ==> MapPart(t, ms, true, mapMeta) == MapPart(t, ms, makeMap, mapMeta)
  {
  }
}
