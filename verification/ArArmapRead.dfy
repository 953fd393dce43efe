/** Reading an archive symbol index (bfd_slurp_armap and the three formats behind it), and the proof
    that every index the writers produce is read back entry by entry. */
module ArArmapRead {
  import opened ByteSeq
  import opened Decimal
  import opened ArHeader
  import opened ArArmap

  datatype CarSym = CarSym(name: seq<Byte>, offset: nat)

  /** has_armap, symdefs and first_file_filepos after slurping. */
  datatype Slurped = Slurped(hasMap: bool, syms: seq<CarSym>, first: nat)

  // ----- the readers -----

  /** A string index into the BSD map; the map is all the memory the model knows. */
  function NameAt(raw: seq<Byte>, p: nat): seq<Byte> {
    if p <= |raw| then CString(raw[p..]) else []
  }

  function BsdSym(raw: seq<Byte>, count: nat, k: nat, big: bool): CarSym
    requires k < count && 4 + 8 * count <= |raw|
  {
    CarSym(NameAt(raw, 8 + 8 * count + Get(big, raw[4 + 8 * k..8 + 8 * k])), Get(big, raw[8 + 8 * k..12 + 8 * k]))
  }

  /** Past the C string at the front of `strs`, and past its NUL if there is one. */
  function AfterName(strs: seq<Byte>): (r: seq<Byte>)
    ensures |r| <= |strs|
  {
    var k := IndexOf(strs, 0);
    if k < |strs| then strs[k + 1..] else []
  }

  /** Entries `i..n` of a COFF or 64-bit index: positions from the table, names taken one after the
      other.  A COFF index that runs out of names leaves its remaining entries zeroed. */
  function NamesInOrder(w: Writer, raw: seq<Byte>, strs: seq<Byte>, i: nat, n: nat): (r: seq<CarSym>)
    requires i <= n && |raw| == EntryStart(w, n)
    ensures |r| == n - i
    decreases n - i
  {
    if i == n then []
    else if w == Coff && strs == [] then seq(n - i, _ => CarSym([], 0))
    else [CarSym(CString(strs), Position(w, raw, i, n))] + NamesInOrder(w, raw, AfterName(strs), i + 1, n)
  }

  function Position(w: Writer, raw: seq<Byte>, i: nat, n: nat): nat
    requires i < n && |raw| == EntryStart(w, n)
  {
    if w == Coff then GetBig(raw[4 * i..4 * i + 4]) else GetBig(raw[8 * i..8 * i + 8])
  }

  /** The contents of an index: do_slurp_bsd_armap, do_slurp_coff_armap and
      _bfd_archive_64_bit_slurp_armap between their header and what follows. */
  function SlurpBody(w: Writer, raw: seq<Byte>, big: bool): Result<seq<CarSym>> {
    var width := EntrySize(w);
    if w == Bsd then
      if |raw| < 4 then Err(WrongFormat)
      else
        var count := Get(big, raw[..4]) / 8;
        if count * 8 > |raw| - 4 then Err(WrongFormat)
        else Ok(seq(count, k requires 0 <= k < count => BsdSym(raw, count, k, big)))
    else if |raw| < width then Err(Malformed)
    else
      var n := GetBig(raw[..width]);
      var strs := width + EntryStart(w, n);
      if |raw| < strs then Err(Malformed)
      else Ok(NamesInOrder(w, raw[width..strs], raw[strs..], 0, n))
  }

  /** The contents of the index at `pos`, and the even position behind them. */
  function ReadMap(file: seq<Byte>, pos: nat, maxname: nat): Result<(seq<Byte>, nat)>
    requires maxname <= 16
  {
    match ReadHdr(file, pos, None, maxname)
    case Err(e) => Err(e)
    case Ok(h) =>
      if h.origin + h.size > |file| then Err(Malformed)
      else Ok((file[h.origin..h.origin + h.size], RoundUp2(h.origin + h.size)))
  }

  function SlurpMap(w: Writer, file: seq<Byte>, pos: nat, maxname: nat, big: bool): Result<Slurped>
    requires maxname <= 16
  {
    match ReadMap(file, pos, maxname)
    case Err(e) => Err(e)
    case Ok((raw, first)) =>
      match SlurpBody(w, raw, big)
      case Err(e) => Err(e)
      case Ok(syms) => Ok(Slurped(true, syms, first))
  }

  /** A second index, as PE archives have one, is skipped; its size is masked to 32 bits. */
  function SkipSecondMap(file: seq<Byte>, first: nat, maxname: nat): nat
    requires maxname <= 16
  {
    match ReadHdr(file, first, None, maxname)
    case Err(_) => first
    case Ok(h) =>
      if h.hdr[0] == SLASH && h.hdr[1] == SPACE then
        first + Wrap32(RoundUp2(h.size + HDR_SIZE))
      else first
  }

  /** "__.SYMDEF/      ", an old Linux spelling. */
  const OLD_LINUX: seq<Byte> := [95, 95, 46, 83, 89, 77, 68, 69, 70, SLASH, 32, 32, 32, 32, 32, 32]
  /** "#1/20           " */
  const INLINE_20: seq<Byte> := [35, 49, SLASH, 50, 48, 32, 32, 32, 32, 32, 32, 32, 32, 32, 32, 32]
  /** "__.SYMDEF" */
  const SYMDEF: seq<Byte> := [95, 95, 46, 83, 89, 77, 68, 69, 70]

  /** bfd_slurp_armap in a BFD64 build, right after the archive magic. */
  function SlurpArmap(file: seq<Byte>, maxname: nat, big: bool): Result<Slurped>
    requires maxname <= 16
  {
    var none := Slurped(false, [], SARMAG);
    if |file| <= SARMAG then Ok(none)
    else if |file| < SARMAG + 16 then Err(WrongFormat)
    else
      var name := file[SARMAG..SARMAG + 16];
      if name == MapName(Bsd) || name == OLD_LINUX then SlurpMap(Bsd, file, SARMAG, maxname, big)
      else if name == MapName(Coff) then
        match SlurpMap(Coff, file, SARMAG, maxname, big)
        case Err(e) => Err(e)
        case Ok(s) => Ok(s.(first := SkipSecondMap(file, s.first, maxname)))
      else if name == MapName(Sym64) then SlurpMap(Sym64, file, SARMAG, maxname, big)
      else if name == INLINE_20 then
        if |file| < SARMAG + HDR_SIZE + 20 then Err(WrongFormat)
        else if SYMDEF <= file[SARMAG + HDR_SIZE..SARMAG + HDR_SIZE + 20] then SlurpMap(Bsd, file, SARMAG, maxname, big)
        else Ok(none)
      else Ok(none)
  }

  lemma Associate(a: seq<CarSym>, x: CarSym, b: seq<CarSym>)
    ensures a + ([x] + b) == (a + [x]) + b
  {
  }

  /** The carsym loop of the two in-order readers. */
  method FillCarsyms(w: Writer, raw: seq<Byte>, strs: seq<Byte>, n: nat) returns (syms: seq<CarSym>)
    requires w != Bsd && |raw| == EntryStart(w, n)
    ensures syms == NamesInOrder(w, raw, strs, 0, n)
  {
    hide CString, Position, AfterName;
    syms := [];
    var rest := strs;
    var i := 0;
    while i < n && !(w == Coff && rest == [])
      invariant i <= n
      invariant NamesInOrder(w, raw, strs, 0, n) == syms + NamesInOrder(w, raw, rest, i, n)
      decreases n - i
    {
      var sym := CarSym(CString(rest), Position(w, raw, i, n));
      Associate(syms, sym, NamesInOrder(w, raw, AfterName(rest), i + 1, n));
      syms := syms + [sym];
      rest := AfterName(rest);
      i := i + 1;
    }
    syms := syms + seq(n - i, _ => CarSym([], 0));
  }

  // ----- what is written is read -----

  lemma {:induction false} NamesGrow(orls: seq<Orl>, k: nat, n: nat)
    requires k <= n <= |orls|
    ensures NamesSize(orls, k) <= NamesSize(orls, n)
  {
    if k < n {
      NamesGrow(orls, k, n - 1);
    }
  }

  lemma {:induction false} StringsAt(orls: seq<Orl>, k: nat, n: nat)
    requires k < n <= |orls|
    ensures At(Strings(orls, n), NamesSize(orls, k), orls[k].name + [0])
  {
    if n == k + 1 {
      AtRight(Strings(orls, k), orls[k].name + [0]);
    } else {
      StringsAt(orls, k, n - 1);
      AtLeft(Strings(orls, n - 1), orls[n - 1].name + [0], NamesSize(orls, k), orls[k].name + [0]);
    }
  }

  lemma {:induction false} EntriesAt(w: Writer, orls: seq<Orl>, offs: seq<nat>, k: nat, n: nat, big: bool)
    requires k < n <= |orls| == |offs|
    ensures At(Entries(w, orls, offs, n, big), EntryStart(w, k), EntryBytes(w, orls, k, offs[k], big))
  {
    var last := EntryBytes(w, orls, n - 1, offs[n - 1], big);
    if n == k + 1 {
      AtRight(Entries(w, orls, offs, k, big), last);
    } else {
      EntriesAt(w, orls, offs, k, n - 1, big);
      AtLeft(Entries(w, orls, offs, n - 1, big), last, EntryStart(w, k), EntryBytes(w, orls, k, offs[k], big));
    }
  }

  /** A header with a plain name is read without a name table as its size and nothing more. */
  lemma ReadPlainHdr(file: seq<Byte>, pos: nat, hdr: seq<Byte>, size: nat, maxname: nat)
    requires At(file, pos, hdr) && Reads(hdr, size) && hdr[0] != 35 && maxname <= 16
    ensures var r := ReadHdr(file, pos, None, maxname);
            r.Ok? && r.value.size == size && r.value.origin == pos + HDR_SIZE && r.value.hdr == hdr
  {
  }

  /** The entries as the reader should find them. */
  function Expected(orls: seq<Orl>, offs: seq<nat>): (r: seq<CarSym>)
    requires |orls| == |offs|
  {
    seq(|orls|, k requires 0 <= k < |orls| => CarSym(orls[k].name, offs[k]))
  }

  /** Symbol names are C strings. */
  predicate NamesAreStrings(orls: seq<Orl>) {
    forall k :: 0 <= k < |orls| ==> 0 !in orls[k].name
  }

  predicate OffsetsFit(w: Writer, offs: seq<nat>) {
    forall k :: 0 <= k < |offs| ==> offs[k] < if w == Sym64 then TWO64 else TWO32
  }

  lemma GetStored4(v: nat, big: bool)
    requires v < TWO32
    ensures Get(big, Put(big, v, 4)) == v && GetBig(PutBig(v, 4)) == v
  {
    Pow256Values();
    GetPut(big, v, 4);
    GetPutBig(v, 4);
  }

  lemma GetStored8(v: nat)
    requires v < TWO64
    ensures GetBig(PutBig(v, 8)) == v
  {
    Pow256Values();
    GetPutBig(v, 8);
  }

  lemma CStringInside(buf: seq<Byte>, p: nat, name: seq<Byte>)
    requires At(buf, p, name + [0]) && 0 !in name
    ensures p + |name| + 1 <= |buf|
    ensures CString(buf[p..]) == name && AfterName(buf[p..]) == buf[p + |name| + 1..]
  {
    var here := buf[p..];
    AtSplit(buf, p, name, [0]);
    assert here[..|name|] == name;
    assert here[|name|] == buf[p + |name|] == buf[p + |name|..p + |name| + 1][0] == 0;
    IndexOfUnique(here, 0, |name|);
  }

  /** The string area from the place of name `k` on. */
  function NamesFrom(orls: seq<Orl>, k: nat, pad: seq<Byte>): seq<Byte>
    requires k <= |orls|
  {
    NamesGrow(orls, k, |orls|);
    (Strings(orls, |orls|) + pad)[NamesSize(orls, k)..]
  }

  /** Reading the string area at the place of name `k` gives that name and moves to the next place. */
  lemma NameInStrings(orls: seq<Orl>, k: nat, pad: seq<Byte>)
    requires k < |orls| && NamesAreStrings(orls)
    ensures NamesFrom(orls, k, pad) != [] && CString(NamesFrom(orls, k, pad)) == orls[k].name
    ensures AfterName(NamesFrom(orls, k, pad)) == NamesFrom(orls, k + 1, pad)
  {
    StringsAt(orls, k, |orls|);
    AtLeft(Strings(orls, |orls|), pad, NamesSize(orls, k), orls[k].name + [0]);
    CStringInside(Strings(orls, |orls|) + pad, NamesSize(orls, k), orls[k].name);
  }

  /** The position column of entry `i`. */
  lemma PositionReadsBack(w: Writer, orls: seq<Orl>, offs: seq<nat>, i: nat, big: bool)
    requires w != Bsd && i < |orls| == |offs| && OffsetsFit(w, offs)
    ensures Position(w, Entries(w, orls, offs, |orls|, big), i, |orls|) == offs[i]
  {
    EntriesAt(w, orls, offs, i, |orls|, big);
    if w == Coff {
      GetStored4(offs[i], big);
    } else {
      GetStored8(offs[i]);
    }
  }

  lemma {:induction false} InOrderReadsBack(w: Writer, orls: seq<Orl>, offs: seq<nat>, i: nat, pad: seq<Byte>, big: bool)
    requires w != Bsd && i <= |orls| == |offs| && NamesAreStrings(orls) && OffsetsFit(w, offs)
    ensures NamesInOrder(w, Entries(w, orls, offs, |orls|, big),
                         NamesFrom(orls, i, pad), i, |orls|)
         == Expected(orls, offs)[i..]
    decreases |orls| - i
  {
    hide Entries, NamesFrom, CString, AfterName, Position, OffsetsFit, NamesAreStrings;
    if i < |orls| {
      InOrderReadsBack(w, orls, offs, i + 1, pad, big);
      NameInStrings(orls, i, pad);
      PositionReadsBack(w, orls, offs, i, big);
      assert Expected(orls, offs)[i..] == [Expected(orls, offs)[i]] + Expected(orls, offs)[i + 1..];
    }
  }

  /** The stored words of an entry, and the names behind the entries. */
  lemma BsdEntryAt(count: seq<Byte>, entries: seq<Byte>, total: seq<Byte>, strs: seq<Byte>, p: nat, name: seq<Byte>, off: seq<Byte>, q: nat)
    requires At(entries, p, name + off) && |count| == |total| == |name| == 4 && q <= |strs|
    ensures var raw := count + entries + total + strs;
            && At(raw, 4 + p, name) && At(raw, 8 + p, off) && raw[8 + |entries| + q..] == strs[q..]
  {
    var raw := count + entries + total + strs;
    FourParts(count, entries, total, strs);
    AtWithin(raw, 4, entries, p, name + off);
    AtSplit(raw, 4 + p, name, off);
    assert raw[8 + |entries| + q..] == raw[8 + |entries|..][q..];
  }

  lemma BsdSymAt(count: seq<Byte>, entries: seq<Byte>, total: seq<Byte>, strs: seq<Byte>, n: nat, k: nat, big: bool, name: seq<Byte>, off: seq<Byte>)
    requires k < n && |entries| == 8 * n && At(entries, 8 * k, name + off)
    requires |count| == |total| == |name| == |off| == 4 && Get(big, name) <= |strs|
    ensures BsdSym(count + entries + total + strs, n, k, big) == CarSym(CString(strs[Get(big, name)..]), Get(big, off))
  {
    BsdEntryAt(count, entries, total, strs, 8 * k, name, off, Get(big, name));
    var raw := count + entries + total + strs;
    assert raw[4 + 8 * k..8 + 8 * k] == name && raw[8 + 8 * k..12 + 8 * k] == off;
    assert 8 + 8 * n + Get(big, name) == 8 + |entries| + Get(big, name) <= |raw|;
  }

  /** Entry `k` of a stored BSD map. */
  lemma BsdEntryReadsBack(orls: seq<Orl>, offs: seq<nat>, pad: seq<Byte>, k: nat, big: bool)
    requires k < |orls| == |offs| && NamesAreStrings(orls) && OffsetsFit(Bsd, offs)
    requires 8 * |orls| + NamesSize(orls, |orls|) + |pad| < TWO32
    ensures var raw := Assemble(Bsd, |orls|, Entries(Bsd, orls, offs, |orls|, big), Strings(orls, |orls|) + pad, big);
            4 + 8 * |orls| <= |raw| && BsdSym(raw, |orls|, k, big) == CarSym(orls[k].name, offs[k])
  {
    var n, strs, namidx := |orls|, Strings(orls, |orls|) + pad, NamesSize(orls, k);
    NamesGrow(orls, k, n);
    GetStored4(namidx, big);
    GetStored4(offs[k], big);
    EntriesAt(Bsd, orls, offs, k, n, big);
    assert CString(strs[namidx..]) == orls[k].name by {
      NameInStrings(orls, k, pad);
    }
    BsdSymAt(Put(big, 8 * n, 4), Entries(Bsd, orls, offs, n, big), Put(big, |strs|, 4), strs, n, k, big,
             Put(big, namidx, 4), Put(big, offs[k], 4));
  }

  lemma FourParts(a: seq<Byte>, b: seq<Byte>, c: seq<Byte>, d: seq<Byte>)
    ensures var raw := a + b + c + d;
            && At(raw, 0, a) && At(raw, |a|, b) && raw[|a| + |b| + |c|..] == d
  {
    assert a + b + c + d == a + (b + (c + d));
    AtRight(a, b + (c + d));
    AtSplit(a + b + c + d, |a|, b, c + d);
  }

  /** The three kinds of index have different names, none of them the old spellings. */
  lemma MapNamesDiffer()
    ensures MapName(Bsd) != MapName(Coff) && MapName(Bsd) != MapName(Sym64) && MapName(Coff) != MapName(Sym64)
    ensures MapName(Coff) != OLD_LINUX && MapName(Sym64) != OLD_LINUX
    ensures forall w :: MapName(w)[0] != 35
  {
    assert MapName(Bsd)[0] == 95 && MapName(Coff)[0] == SLASH && MapName(Sym64)[0] == SLASH;
    assert MapName(Coff)[1] == SPACE && MapName(Sym64)[1] == 83;
    assert OLD_LINUX[0] == 95;
  }

  /** The map and the name table together stay within an unsigned int. */
  predicate MapFits(w: Writer, orls: seq<Orl>, elength: nat) {
    MapSize(w, |orls|, NamesSize(orls, |orls|)) + elength < TWO32
  }

  function StoredOffsets(w: Writer, orls: seq<Orl>, parts: seq<Part>, thin: bool, elength: nat): (r: seq<nat>)
    requires Sorted(orls, |parts|)
    ensures |r| == |orls|
  {
    Offsets(w, orls, parts, thin, PredictedFirst(w, |orls|, NamesSize(orls, |orls|), elength))
  }

  function MapContents(w: Writer, orls: seq<Orl>, offs: seq<nat>, big: bool): (r: seq<Byte>)
    requires |offs| == |orls|
    ensures |r| == MapSize(w, |orls|, NamesSize(orls, |orls|))
  {
    Assemble(w, |orls|, Entries(w, orls, offs, |orls|, big),
             Strings(orls, |orls|) + Fill(0, PadSize(w, |orls|, NamesSize(orls, |orls|))), big)
  }

  lemma BsdBodyOf(raw: seq<Byte>, n: nat, syms: seq<CarSym>, big: bool)
    requires |syms| == n && 4 + 8 * n <= |raw| && Get(big, raw[..4]) == 8 * n
    requires forall k :: 0 <= k < n ==> BsdSym(raw, n, k, big) == syms[k]
    ensures SlurpBody(Bsd, raw, big) == Ok(syms)
  {
    assert 8 * n / 8 == n;
    assert seq(n, k requires 0 <= k < n => BsdSym(raw, n, k, big)) == syms;
  }

  lemma BsdBodyReadsBack(orls: seq<Orl>, offs: seq<nat>, big: bool)
    requires |offs| == |orls| && MapFits(Bsd, orls, 0) && NamesAreStrings(orls) && OffsetsFit(Bsd, offs)
    ensures SlurpBody(Bsd, MapContents(Bsd, orls, offs, big), big) == Ok(Expected(orls, offs))
  {
    var n, pad := |orls|, Fill(0, PadSize(Bsd, |orls|, NamesSize(orls, |orls|)));
    var entries, strs := Entries(Bsd, orls, offs, n, big), Strings(orls, n) + pad;
    var raw := Put(big, 8 * n, 4) + entries + Put(big, |strs|, 4) + strs;
    FourParts(Put(big, 8 * n, 4), entries, Put(big, |strs|, 4), strs);
    GetStored4(8 * n, big);
    forall k | 0 <= k < n ensures BsdSym(raw, n, k, big) == Expected(orls, offs)[k] {
      BsdEntryReadsBack(orls, offs, pad, k, big);
    }
    BsdBodyOf(raw, n, Expected(orls, offs), big);
  }

  lemma InOrderBodyReadsBack(w: Writer, orls: seq<Orl>, offs: seq<nat>, big: bool)
    requires w != Bsd && |offs| == |orls| && MapFits(w, orls, 0) && NamesAreStrings(orls) && OffsetsFit(w, offs)
    ensures SlurpBody(w, MapContents(w, orls, offs, big), big) == Ok(Expected(orls, offs))
  {
    var n, width := |orls|, EntrySize(w);
    var entries := Entries(w, orls, offs, n, big);
    var pad := Fill(0, PadSize(w, n, NamesSize(orls, n)));
    var strs := Strings(orls, n) + pad;
    var count := if w == Coff then PutBig(n, 4) else PutBig(n, 8);
    var raw := count + entries + strs;
    assert raw == MapContents(w, orls, offs, big);
    assert raw[..width] == count && raw[width..width + |entries|] == entries && raw[width + |entries|..] == strs;
    GetStored4(n, big);
    GetStored8(n);
    InOrderReadsBack(w, orls, offs, 0, pad, big);
    assert NamesFrom(orls, 0, pad) == strs;
    assert Expected(orls, offs)[0..] == Expected(orls, offs);
  }

  /** The bytes of an index of kind `w` from which a reader takes exactly `syms`. */
  predicate IsMap(w: Writer, map_: seq<Byte>, syms: seq<CarSym>, big: bool) {
    && |map_| >= HDR_SIZE && |map_| % 2 == 0
    && Reads(map_[..HDR_SIZE], |map_| - HDR_SIZE) && map_[..16] == MapName(w)
    && SlurpBody(w, map_[HDR_SIZE..], big) == Ok(syms)
  }

  lemma MapIs(w: Writer, hdr: seq<Byte>, body: seq<Byte>, syms: seq<CarSym>, big: bool)
    requires Reads(hdr, |body|) && hdr[..16] == MapName(w) && |body| % 2 == 0 && SlurpBody(w, body, big) == Ok(syms)
    ensures IsMap(w, hdr + body, syms, big)
  {
    hide SlurpBody, ScanUnsigned, MapName;
    var map_ := hdr + body;
    assert map_[..HDR_SIZE] == hdr && map_[HDR_SIZE..] == body;
    assert |map_| - HDR_SIZE == |body|;
    assert map_[..16] == hdr[..16];
  }

  lemma MapHeaderReads(w: Writer, orls: seq<Orl>, meta: seq<Byte>)
    requires IsMeta(meta) && MapFits(w, orls, 0)
    ensures var hdr := MapHeader(w, |orls|, NamesSize(orls, |orls|), meta);
            Reads(hdr, MapSize(w, |orls|, NamesSize(orls, |orls|))) && hdr[..16] == MapName(w)
  {
    SizeFits(MapSize(w, |orls|, NamesSize(orls, |orls|)));
    HeaderReads(MapName(w), meta, MapSize(w, |orls|, NamesSize(orls, |orls|)));
  }

  /** What a writer emits is an index from which its own entries are read back. */
  lemma WrittenIsMap(w: Writer, orls: seq<Orl>, parts: seq<Part>, thin: bool, elength: nat, meta: seq<Byte>, big: bool)
    requires Sorted(orls, |parts|) && IsMeta(meta) && MapFits(w, orls, 0) && NamesAreStrings(orls)
    requires OffsetsFit(w, StoredOffsets(w, orls, parts, thin, elength))
    ensures IsMap(w, MapBytes(w, orls, parts, thin, elength, meta, big),
                  Expected(orls, StoredOffsets(w, orls, parts, thin, elength)), big)
  {
    var offs := StoredOffsets(w, orls, parts, thin, elength);
    if w == Bsd {
      BsdBodyReadsBack(orls, offs, big);
    } else {
      InOrderBodyReadsBack(w, orls, offs, big);
    }
    MapHeaderReads(w, orls, meta);
    MapIs(w, MapHeader(w, |orls|, NamesSize(orls, |orls|), meta), MapContents(w, orls, offs, big), Expected(orls, offs), big);
  }

  lemma ReadMapAt(file: seq<Byte>, pos: nat, maxname: nat, map_: seq<Byte>)
    requires maxname <= 16 && pos % 2 == 0 && |map_| % 2 == 0 && |map_| >= HDR_SIZE && At(file, pos, map_)
    requires Reads(map_[..HDR_SIZE], |map_| - HDR_SIZE) && map_[0] != 35
    ensures ReadMap(file, pos, maxname) == Ok((map_[HDR_SIZE..], pos + |map_|))
  {
    hide ReadHdr, ScanUnsigned;
    assert map_ == map_[..HDR_SIZE] + map_[HDR_SIZE..];
    AtSplit(file, pos, map_[..HDR_SIZE], map_[HDR_SIZE..]);
    ReadPlainHdr(file, pos, map_[..HDR_SIZE], |map_| - HDR_SIZE, maxname);
  }

  /** Another index right behind is stepped over, whatever it holds. */
  lemma SecondMapSkipped(map_: seq<Byte>, syms: seq<CarSym>, big: bool, file: seq<Byte>, first: nat, maxname: nat)
    requires maxname <= 16 && IsMap(Coff, map_, syms, big) && |map_| < TWO32 && At(file, first, map_)
    ensures SkipSecondMap(file, first, maxname) == first + |map_|
  {
    hide ReadHdr, ScanUnsigned, SlurpBody;
    var hdr := map_[..HDR_SIZE];
    assert map_ == hdr + map_[HDR_SIZE..];
    AtSplit(file, first, hdr, map_[HDR_SIZE..]);
    assert hdr[0] == map_[..16][0] == SLASH && hdr[1] == map_[..16][1] == SPACE;
    ReadPlainHdr(file, first, hdr, |map_| - HDR_SIZE, maxname);
  }

  lemma SlurpMapIs(w: Writer, file: seq<Byte>, pos: nat, maxname: nat, big: bool, body: seq<Byte>, first: nat, syms: seq<CarSym>)
    requires maxname <= 16 && ReadMap(file, pos, maxname) == Ok((body, first)) && SlurpBody(w, body, big) == Ok(syms)
    ensures SlurpMap(w, file, pos, maxname, big) == Ok(Slurped(true, syms, first))
  {
  }

  lemma SlurpArmapIs(w: Writer, file: seq<Byte>, maxname: nat, big: bool, s: Slurped)
    requires maxname <= 16 && |file| >= SARMAG + 16 && file[SARMAG..SARMAG + 16] == MapName(w)
    requires SlurpMap(w, file, SARMAG, maxname, big) == Ok(s)
    requires w == Coff ==> SkipSecondMap(file, s.first, maxname) == s.first
    ensures SlurpArmap(file, maxname, big) == Ok(s)
  {
    MapNamesDiffer();
  }

  /** Armap round trip: an index is read back as its symbols with their positions, whatever follows it,
      and what follows starts right behind it. */
  lemma ArmapReadsBack(w: Writer, map_: seq<Byte>, syms: seq<CarSym>, big: bool, file: seq<Byte>, maxname: nat)
    requires maxname <= 16 && IsMap(w, map_, syms, big) && At(file, SARMAG, map_)
    requires w == Coff ==> SkipSecondMap(file, SARMAG + |map_|, maxname) == SARMAG + |map_|
    ensures SlurpArmap(file, maxname, big) == Ok(Slurped(true, syms, SARMAG + |map_|))
  {
    hide SlurpBody, ReadMap, SlurpMap, ScanUnsigned, SlurpArmap, SkipSecondMap;
    MapNamesDiffer();
    assert file[SARMAG..SARMAG + 16] == map_[..16] by {
      assert file[SARMAG..SARMAG + |map_|][..16] == file[SARMAG..SARMAG + 16];
    }
    assert map_[0] == map_[..16][0];
    ReadMapAt(file, SARMAG, maxname, map_);
    SlurpMapIs(w, file, SARMAG, maxname, big, map_[HDR_SIZE..], SARMAG + |map_|, syms);
    SlurpArmapIs(w, file, maxname, big, Slurped(true, syms, SARMAG + |map_|));
  }
}
