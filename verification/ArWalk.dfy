/** Opening an archive and stepping through its members (bfd_generic_archive_p,
    _bfd_slurp_extended_name_table, _bfd_get_elt_at_filepos, bfd_generic_openr_next_archived_file),
    on arbitrary bytes. */
module ArWalk {
  import opened ByteSeq
  import opened ArHeader
  import opened ArNameTable
  import opened ArArmap
  import opened ArArmapRead

  /** "!<arch>\n", "!<bout>\n" and "!<thin>\n". */
  const ARMAG: seq<Byte> := [33, 60, 97, 114, 99, 104, 62, 10]
  const ARMAGB: seq<Byte> := [33, 60, 98, 111, 117, 116, 62, 10]
  const ARMAGT: seq<Byte> := [33, 60, 116, 104, 105, 110, 62, 10]

  /** "ARFILENAMES" */
  const ARFILENAMES: seq<Byte> := [65, 82, 70, 73, 76, 69, 78, 65, 77, 69, 83]

  /** "//" or "ARFILENAMES/". */
  function TableName(slash: bool): (r: seq<Byte>)
    ensures |r| == 16
  {
    SpacePad(if slash then [SLASH, SLASH] else ARFILENAMES + [SLASH], 16)
  }

  datatype Names = Names(table: Option<seq<Byte>>, first: nat)

  /** _bfd_slurp_extended_name_table: the cleaned-up table, if the next header names one. */
  function SlurpNames(file: seq<Byte>, first: nat, maxname: nat): Result<Names>
    requires maxname <= 16
  {
    if first + 16 > |file| then Ok(Names(None, first))
    else
      var name := file[first..first + 16];
      if name != TableName(false) && name != TableName(true) then Ok(Names(None, first))
      else
        match ReadMap(file, first, maxname)
        case Err(e) => Err(e)
        case Ok((raw, next)) => Ok(Names(Some(Clean(raw)), next))
  }

  /** artdata after the archive has been recognised. */
  datatype Opened = Opened(thin: bool, hasMap: bool, syms: seq<CarSym>, table: Option<seq<Byte>>, first: nat)

  function Open(file: seq<Byte>, maxname: nat, big: bool): Result<Opened>
    requires maxname <= 16
  {
    if |file| < SARMAG || file[..SARMAG] !in {ARMAG, ARMAGB, ARMAGT} then Err(WrongFormat)
    else
      match SlurpArmap(file, maxname, big)
      case Err(e) => Err(e)
      case Ok(s) =>
        match SlurpNames(file, s.first, maxname)
        case Err(e) => Err(e)
        case Ok(n) => Ok(Opened(file[..SARMAG] == ARMAGT, s.hasMap, s.syms, n.table, n.first))
  }

  // ----- stepping -----

  /** A sum of two unsigned 64-bit numbers. */
  function Add64(a: nat, b: nat): (r: nat)
    requires a < TWO64 && b < TWO64
    ensures a + b < TWO64 ==> r == a + b
    ensures a + b >= TWO64 ==> r == a + b - TWO64
  {
    if a + b < TWO64 then a + b else a + b - TWO64
  }

  /** Where the member after `e` starts, in an archive that is not thin: the padded end of `e`, refused
      when the 64-bit sum came out below the start of its contents. */
  function NextStart(e: Elt): (r: Result<nat>)
    requires e.origin < TWO63 && e.size < TWO64
    ensures r.Ok? ==> r.value >= e.origin
  {
    var end := Add64(e.origin, e.size);
    var start := Add64(end, end % 2);
    if start < e.origin then Err(Malformed) else Ok(start)
  }

  /** The elements found by stepping from `pos` on, and why the walk stopped. */
  datatype Walked = Walked(elts: seq<Elt>, stop: ArError)

  /** Stepping through an archive that is not thin.  Every step reads a whole header, so the walk ends
      whatever the bytes are. */
  function Walk(file: seq<Byte>, table: Option<seq<Byte>>, maxname: nat, pos: nat): Walked
    requires maxname <= 16 && |file| < TWO63
    decreases if pos <= |file| then |file| - pos else 0
  {
    if pos >= TWO63 then Walked([], FileTruncated)
    else
      match ReadHdr(file, pos, table, maxname)
      case Err(e) => Walked([], e)
      case Ok(elt) =>
        match NextStart(elt)
        case Err(e) => Walked([elt], e)
        case Ok(next) =>
          var rest := Walk(file, table, maxname, next);
          Walked([elt] + rest.elts, rest.stop)
  }

  /** Iteration always progresses: on any bytes the elements of a walk start at least a header apart,
      in order, and inside the file, so there are never more than fit. */
  lemma {:induction false} WalkProgresses(file: seq<Byte>, table: Option<seq<Byte>>, maxname: nat, pos: nat)
    requires maxname <= 16 && |file| < TWO63
    ensures var elts := Walk(file, table, maxname, pos).elts;
            && (forall i :: 0 <= i < |elts| ==> pos + HDR_SIZE <= elts[i].origin <= |file|)
            && (forall i, j :: 0 <= i < j < |elts| ==> elts[i].origin + HDR_SIZE <= elts[j].origin)
            && (elts != [] ==> pos + HDR_SIZE * |elts| <= |file|)
    decreases if pos <= |file| then |file| - pos else 0
  {
    if pos < TWO63 {
      var r := ReadHdr(file, pos, table, maxname);
      if r.Ok? {
        var next := NextStart(r.value);
        if next.Ok? {
          WalkProgresses(file, table, maxname, next.value);
        }
      }
    }
  }

  /** The contents a reader of element `e` can get: no more than its size, no more than the file has. */
  function Contents(file: seq<Byte>, e: Elt): seq<Byte>
    requires e.origin <= |file|
  {
    if e.origin + e.size <= |file| then file[e.origin..e.origin + e.size] else file[e.origin..]
  }
}
