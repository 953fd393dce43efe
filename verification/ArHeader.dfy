/** The 60-byte archive member header: how the writers fill it and how
    _bfd_generic_read_ar_hdr_mag takes it apart again. */
module ArHeader {
  import opened ByteSeq
  import opened Decimal

  const NEWLINE: Byte := 10
  const SLASH: Byte := 47
  const BACKSLASH: Byte := 92

  const HDR_SIZE := 60
  /** "`\n" */
  const ARFMAG: seq<Byte> := [96, 10]

  datatype ArError =
    | NoMoreFiles
    | Malformed
    | WrongFormat
    | FileTruncated
    | FileTooBig

  datatype Result<+T> = Ok(value: T) | Err(error: ArError)

  /** What a target vector says about archive names: the padding character and the longest
      name kept in the header (ar_pad_char and ar_max_namelen). */
  datatype NameRules = NameRules(pad: Byte, maxname: nat) {
    predicate Valid() {
      (pad == SPACE || pad == SLASH) && 14 <= maxname <= 16
    }
  }

  // ----- writing -----

  /** _bfd_ar_spacepad on an already printed text. */
  function SpacePad(text: seq<Byte>, n: nat): (r: seq<Byte>)
    ensures |r| == n
  {
    if |text| < n then text + Fill(SPACE, n - |text|) else text[..n]
  }

  /** bfd_dont_truncate_arname into a blank name field, for a name that fits. */
  function ShortField(n: seq<Byte>, t: NameRules): (r: seq<Byte>)
    requires t.Valid() && |n| <= t.maxname
    ensures |r| == 16
  {
    if |n| < 16 then n + [t.pad] + Fill(SPACE, 15 - |n|) else n
  }

  /** The padding character and the offset of the name in the name table. */
  function TableField(off: nat, t: NameRules): (r: seq<Byte>)
    requires t.Valid()
    ensures |r| == 16
  {
    [t.pad] + SpacePad(Digits(off), t.maxname - 1) + Fill(SPACE, 16 - t.maxname)
  }

  /** "#1/" and the stored length of the name that follows the header, over the first columns of `was`. */
  function InlineField(was: seq<Byte>, len: nat, t: NameRules): (r: seq<Byte>)
    requires t.Valid() && |was| == 16
    ensures |r| == 16
  {
    SpacePad([35, 49, SLASH] + Digits(len), t.maxname) + was[t.maxname..]
  }

  /** _bfd_ar_sizepad: fails when the number needs more than ten columns. */
  function SizeField(size: nat): (r: Result<seq<Byte>>)
    ensures r.Ok? ==> |r.value| == 10
  {
    if |Digits(size)| > 10 then Err(FileTooBig) else Ok(Digits(size) + Fill(SPACE, 10 - |Digits(size)|))
  }

  /** A size can be written exactly when it is below ten to the ten. */
  lemma SizeFits(size: nat)
    ensures SizeField(size).Ok? <==> size < 10_000_000_000
  {
    DigitsFit(size, 10);
    TenColumns();
  }

  lemma TenColumns()
    ensures Pow10(10) == 10_000_000_000
  {
    assert Pow10(5) == 100_000;
    assert Pow10(10) == 100_000 * Pow10(5);
  }

  predicate IsMeta(meta: seq<Byte>) {
    |meta| == 32
  }

  /** A whole header; `meta` is the date, uid, gid and mode columns, whatever they hold. */
  function Header(name: seq<Byte>, meta: seq<Byte>, size: seq<Byte>): (r: seq<Byte>)
    requires |name| == 16 && IsMeta(meta) && |size| == 10
    ensures |r| == HDR_SIZE
    ensures r[..16] == name && r[16..48] == meta && r[48..58] == size && r[58..60] == ARFMAG
  {
    name + meta + size + ARFMAG
  }

  // ----- reading -----

  /** How a header names its member. */
  datatype NameForm =
    | InTable(index: int)
    | Inline(len: int)
    | Short(name: seq<Byte>)

  predicate IsBsd44(hdr: seq<Byte>)
    requires |hdr| == HDR_SIZE
  {
    hdr[0] == 35 && hdr[1] == 49 && hdr[2] == SLASH && IsDigit(hdr[3])
  }

  function NameOf(hdr: seq<Byte>, hasTable: bool, maxname: nat): NameForm
    requires |hdr| == HDR_SIZE && maxname <= 16
    ensures NameOf(hdr, hasTable, maxname).Inline? ==> NameOf(hdr, hasTable, maxname).len < TWO31
  {
    var field := hdr[..maxname];
    if (hdr[0] == SLASH || (hdr[0] == SPACE && SLASH !in field)) && hasTable then
      InTable(ScanLong(hdr, 1))
    else if IsBsd44(hdr) then
      Inline(Atoi(hdr, 3))
    else
      Short(field[..ShortLength(field)])
  }

  /** The end of a name is the first NUL, else the first slash, else the first space, else the field. */
  function ShortLength(field: seq<Byte>): (k: nat)
    ensures k <= |field|
  {
    if 0 in field then IndexOf(field, 0)
    else if SLASH in field then IndexOf(field, SLASH)
    else IndexOf(field, SPACE)
  }

  /** What areltdata keeps of a header that was read. */
  datatype Elt = Elt(name: seq<Byte>, size: nat, extra: nat, hdr: seq<Byte>, origin: nat)

  /** _bfd_generic_read_ar_hdr at `pos`; `table` is the slurped name table, and `origin`
      of the result is the file position after the header and any inline name. */
  function ReadHdr(file: seq<Byte>, pos: nat, table: Option<seq<Byte>>, maxname: nat): (r: Result<Elt>)
    requires maxname <= 16
    ensures r.Ok? ==> pos + HDR_SIZE + r.value.extra == r.value.origin <= |file| && r.value.size < TWO64
  {
    if pos + HDR_SIZE > |file| then Err(NoMoreFiles)
    else ParseHdr(file, pos, file[pos..pos + HDR_SIZE], table, maxname)
  }

  function ParseHdr(file: seq<Byte>, pos: nat, hdr: seq<Byte>, table: Option<seq<Byte>>, maxname: nat): (r: Result<Elt>)
    requires maxname <= 16 && |hdr| == HDR_SIZE && pos + HDR_SIZE <= |file|
    ensures r.Ok? ==> pos + HDR_SIZE + r.value.extra == r.value.origin <= |file| && r.value.size < TWO64
  {
    if hdr[58..60] != ARFMAG then Err(Malformed)
    else
      match ScanUnsigned(hdr[48..58])
      case None => Err(Malformed)
      case Some(size) =>
        match NameOf(hdr, table.Some?, maxname)
        case InTable(index) =>
          if index < 0 || index >= |table.value| then Err(Malformed)
          else Ok(Elt(CString(table.value[index..]), size, 0, hdr, pos + HDR_SIZE))
        case Inline(len) =>
          if len < 0 || pos + HDR_SIZE + len > |file| then Err(NoMoreFiles)
          else
            var size' := if len <= size then size - len else size - len + TWO64;
            Ok(Elt(CString(file[pos + HDR_SIZE..pos + HDR_SIZE + len]), size', len, hdr, pos + HDR_SIZE + len))
        case Short(name) =>
          Ok(Elt(name, size, 0, hdr, pos + HDR_SIZE))
  }

  /** A header whose size column and magic are in order. */
  predicate Reads(hdr: seq<Byte>, size: nat) {
    |hdr| == HDR_SIZE && hdr[58..60] == ARFMAG && ScanUnsigned(hdr[48..58]) == Some(size)
  }

  lemma HeaderReads(name: seq<Byte>, meta: seq<Byte>, size: nat)
    requires |name| == 16 && IsMeta(meta) && SizeField(size).Ok?
    ensures Reads(Header(name, meta, SizeField(size).value), size)
  {
    ReadSize(size);
  }

  // ----- what is written is read back -----

  lemma ReadSize(size: nat)
    requires SizeField(size).Ok?
    ensures ScanUnsigned(SizeField(size).value) == Some(size)
  {
    ScanDigits(size, Fill(SPACE, 10 - |Digits(size)|));
  }

  /** A base name as the writer can see one: it comes from lbasename, it is a C string, and it does
      not start with a space ("you can't have filenames that start with a space"). */
  predicate IsBaseName(n: seq<Byte>) {
    n != [] && 0 !in n && SLASH !in n && n[0] != SPACE
  }

  /** The guard the reader's search for the end of a short name puts on embedded spaces. */
  predicate ShortReadable(n: seq<Byte>, t: NameRules) {
    SPACE !in n || (t.pad == SLASH && |n| < t.maxname)
  }

  lemma ShortFieldParts(n: seq<Byte>, t: NameRules)
    requires t.Valid() && |n| <= t.maxname && IsBaseName(n)
    ensures var field := ShortField(n, t)[..t.maxname];
            && field[..|n|] == n
            && 0 !in field
            && (SLASH in field <==> t.pad == SLASH && |n| < t.maxname)
            && (|n| < t.maxname ==> field[|n|] == t.pad)
            && field[0] != SPACE && field[0] != SLASH
  {
    var field := ShortField(n, t)[..t.maxname];
    assert forall i :: 0 <= i < |n| ==> field[i] == n[i];
    assert forall i :: |n| < i < t.maxname ==> field[i] == SPACE;
    if |n| < t.maxname {
      assert field[|n|] == t.pad;
    }
  }

  /** A short name is read back as itself if and only if its spaces are guarded by a slash. */
  lemma ShortNameReadsBack(n: seq<Byte>, t: NameRules, meta: seq<Byte>, size: seq<Byte>, hasTable: bool)
    requires t.Valid() && |n| <= t.maxname && IsBaseName(n) && IsMeta(meta) && |size| == 10
    ensures NameOf(Header(ShortField(n, t), meta, size), hasTable, t.maxname) == Short(n)
       <==> ShortReadable(n, t)
  {
    var hdr := Header(ShortField(n, t), meta, size);
    var field := hdr[..t.maxname];
    assert field == ShortField(n, t)[..t.maxname];
    ShortFieldParts(n, t);
    assert hdr[0] == field[0] && hdr[1] == field[1] && hdr[2] == field[2] && hdr[3] == field[3];
    NotBsd44(n, t, hdr);
    if t.pad == SLASH && |n| < t.maxname {
      IndexOfUnique(field, SLASH, |n|);
    } else if SPACE !in n {
      assert SPACE !in field[..|n|];
      IndexOfUnique(field, SPACE, |n|);
    } else {
      var k := IndexOf(n, SPACE);
      assert SPACE !in field[..k] by {
        assert field[..k] == n[..k];
      }
      IndexOfUnique(field, SPACE, k);
    }
  }

  lemma NotBsd44(n: seq<Byte>, t: NameRules, hdr: seq<Byte>)
    requires t.Valid() && |n| <= t.maxname && IsBaseName(n)
    requires |hdr| == HDR_SIZE && hdr[..16] == ShortField(n, t)
    ensures !IsBsd44(hdr)
  {
    assert forall i :: 0 <= i < 4 ==> hdr[i] == ShortField(n, t)[i];
  }

  /** An offset of at most ten digits comes back out of a name-table header. */
  lemma TableFieldReadsBack(off: nat, t: NameRules, meta: seq<Byte>, size: seq<Byte>)
    requires t.Valid() && IsMeta(meta) && |size| == 10 && |Digits(off)| <= 10
    ensures NameOf(Header(TableField(off, t), meta, size), true, t.maxname) == InTable(off)
  {
    hide ScanLong, Atoi, ShortLength, Digits;
    var hdr := Header(TableField(off, t), meta, size);
    var ds := Digits(off);
    var pad := Fill(SPACE, t.maxname - 1 - |ds|);
    var rest := pad + Fill(SPACE, 16 - t.maxname) + meta + size + ARFMAG;
    assert hdr[1..] == ds + rest;
    assert rest[0] == SPACE;
    ScanDigitsAt(hdr, 1, off, rest);
    if t.pad == SPACE {
      TableFieldHasNoSlash(off, t);
    }
    assert hdr[..t.maxname] == TableField(off, t)[..t.maxname];
    assert hdr[0] == t.pad;
  }

  lemma TableFieldHasNoSlash(off: nat, t: NameRules)
    requires t.Valid() && t.pad == SPACE && |Digits(off)| <= 10
    ensures SLASH !in TableField(off, t)[..t.maxname]
  {
    var ds := Digits(off);
    assert TableField(off, t)[..t.maxname] == [SPACE] + ds + Fill(SPACE, t.maxname - 1 - |ds|);
    assert SLASH !in ds;
  }

  /** A BSD 4.4 header gives back the stored length, with or without a name table. */
  lemma InlineFieldReadsBack(was: seq<Byte>, len: nat, t: NameRules, meta: seq<Byte>, size: seq<Byte>, hasTable: bool)
    requires t.Valid() && |was| == 16 && IsMeta(meta) && |size| == 10 && len < TWO31
    ensures NameOf(Header(InlineField(was, len, t), meta, size), hasTable, t.maxname) == Inline(len)
  {
    hide ScanLong, Atoi, ShortLength, Digits, Pow10;
    DigitsFit(len, 10);
    TenColumns();
    var hdr := Header(InlineField(was, len, t), meta, size);
    var ds := Digits(len);
    var rest := Fill(SPACE, t.maxname - 3 - |ds|) + was[t.maxname..] + meta + size + ARFMAG;
    assert hdr == [35, 49, SLASH] + (ds + rest);
    assert hdr[3..] == ds + rest;
    assert rest[0] == SPACE;
    ScanDigitsAt(hdr, 3, len, rest);
  }
}
