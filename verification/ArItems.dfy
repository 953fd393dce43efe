/** Members as they stand in an archive file, and the proof that a walk over them finds each one. */
module ArItems {
  import opened ByteSeq
  import opened Decimal
  import opened ArHeader
  import opened ArWalk

  /** A member in the file: its header, the name stored after it, its contents; and the name a reader
      should find. */
  datatype Item = Item(hdr: seq<Byte>, inl: seq<Byte>, contents: seq<Byte>, name: seq<Byte>)

  function Padding(n: nat): (r: seq<Byte>)
    ensures n + |r| == RoundUp2(n) && (r == [] || r == [NEWLINE])
  {
    if n % 2 == 1 then [NEWLINE] else []
  }

  /** Contents and inline name are part of the size column; an odd member is padded with a newline. */
  function ItemBytes(it: Item): (r: seq<Byte>)
    ensures |r| == |it.hdr| + |it.inl| + RoundUp2(|it.contents|)
  {
    it.hdr + (it.inl + (it.contents + Padding(|it.contents|)))
  }

  function ItemsFrom(items: seq<Item>, k: nat): seq<Byte>
    requires k <= |items|
    decreases |items| - k
  {
    if k == |items| then [] else ItemBytes(items[k]) + ItemsFrom(items, k + 1)
  }

  /** The header of the item leads to its name, with this name table or without one. */
  predicate NameIsFound(it: Item, table: Option<seq<Byte>>, maxname: nat)
    requires |it.hdr| == HDR_SIZE && maxname <= 16
  {
    match NameOf(it.hdr, table.Some?, maxname)
    case InTable(index) => it.inl == [] && table.Some? && 0 <= index < |table.value| && CString(table.value[index..]) == it.name
    case Inline(len) => len == |it.inl| && CString(it.inl) == it.name
    case Short(name) => it.inl == [] && name == it.name
  }

  /** What the size column counts. */
  function StoredSize(it: Item): nat {
    |it.contents| + |it.inl|
  }

  predicate Sound(it: Item, table: Option<seq<Byte>>, maxname: nat)
    requires maxname <= 16
  {
    && |it.inl| % 2 == 0
    && StoredSize(it) < TWO64
    && Reads(it.hdr, StoredSize(it))
    && NameIsFound(it, table, maxname)
  }

  /** All items from `k` on are sound. */
  predicate AllSound(items: seq<Item>, k: nat, table: Option<seq<Byte>>, maxname: nat)
    requires k <= |items| && maxname <= 16
    decreases |items| - k
  {
    k == |items| || (Sound(items[k], table, maxname) && AllSound(items, k + 1, table, maxname))
  }

  lemma {:induction false} SoundAt(items: seq<Item>, k: nat, i: nat, table: Option<seq<Byte>>, maxname: nat)
    requires k <= i < |items| && maxname <= 16 && AllSound(items, k, table, maxname)
    ensures Sound(items[i], table, maxname)
    decreases i - k
  {
    if k < i {
      SoundAt(items, k + 1, i, table, maxname);
    }
  }

  function FoundElt(it: Item, pos: nat): Elt {
    Elt(it.name, |it.contents|, |it.inl|, it.hdr, pos + HDR_SIZE + |it.inl|)
  }

  lemma ParseItem(file: seq<Byte>, pos: nat, it: Item, table: Option<seq<Byte>>, maxname: nat)
    requires maxname <= 16 && Sound(it, table, maxname) && pos + HDR_SIZE <= |file| && At(file, pos + HDR_SIZE, it.inl)
    ensures ParseHdr(file, pos, it.hdr, table, maxname) == Ok(FoundElt(it, pos))
  {
    hide ScanUnsigned, NameOf, CString;
    var size := StoredSize(it);
    assert size - |it.inl| == |it.contents|;
    var name := NameOf(it.hdr, table.Some?, maxname);
    if name.Inline? {
      assert file[pos + HDR_SIZE..pos + HDR_SIZE + name.len] == it.inl;
    } else {
      assert |it.inl| == 0 && size == |it.contents| && pos + HDR_SIZE + |it.inl| == pos + HDR_SIZE;
    }
  }

  lemma NextAfter(it: Item, pos: nat, next: nat)
    requires |it.hdr| == HDR_SIZE && pos % 2 == 0 && |it.inl| % 2 == 0 && next == pos + |ItemBytes(it)| < TWO63
    ensures NextStart(FoundElt(it, pos)) == Ok(next)
  {
    var e := FoundElt(it, pos);
    assert (e.origin + e.size) % 2 == e.size % 2;
    assert e.origin + e.size + e.size % 2 == next;
  }

  lemma ItemParts(file: seq<Byte>, pos: nat, it: Item)
    requires At(file, pos, ItemBytes(it))
    ensures At(file, pos, it.hdr) && At(file, pos + |it.hdr|, it.inl)
    ensures At(file, pos + |it.hdr| + |it.inl|, it.contents)
  {
    var tail := it.contents + Padding(|it.contents|);
    AtSplit(file, pos, it.hdr, it.inl + tail);
    AtSplit(file, pos + |it.hdr|, it.inl, tail);
    AtSplit(file, pos + |it.hdr| + |it.inl|, it.contents, Padding(|it.contents|));
  }

  lemma ReadHdrIs(file: seq<Byte>, pos: nat, hdr: seq<Byte>, table: Option<seq<Byte>>, maxname: nat)
    requires maxname <= 16 && |hdr| == HDR_SIZE && At(file, pos, hdr)
    ensures ReadHdr(file, pos, table, maxname) == ParseHdr(file, pos, hdr, table, maxname)
  {
  }

  lemma ContentsIs(file: seq<Byte>, e: Elt, contents: seq<Byte>)
    requires At(file, e.origin, contents) && e.size == |contents|
    ensures Contents(file, e) == contents
  {
  }

  /** One step of a walk: the item at `pos` is found whole, and the next one starts right behind it. */
  lemma StepFinds(file: seq<Byte>, pos: nat, it: Item, next: nat, table: Option<seq<Byte>>, maxname: nat)
    requires maxname <= 16 && |file| < TWO63 && pos % 2 == 0 && Sound(it, table, maxname) && At(file, pos, ItemBytes(it))
    requires next == pos + |ItemBytes(it)|
    ensures ReadHdr(file, pos, table, maxname) == Ok(FoundElt(it, pos))
    ensures NextStart(FoundElt(it, pos)) == Ok(next) && FoundElt(it, pos).origin < TWO63
    ensures Contents(file, FoundElt(it, pos)) == it.contents
  {
    hide ReadHdr, ParseHdr, NextStart, Contents, NameIsFound, ScanUnsigned;
    ItemParts(file, pos, it);
    ParseItem(file, pos, it, table, maxname);
    ReadHdrIs(file, pos, it.hdr, table, maxname);
    NextAfter(it, pos, next);
    ContentsIs(file, FoundElt(it, pos), it.contents);
  }

  /** The elements a walk should find. */
  function FoundFrom(items: seq<Item>, k: nat, pos: nat): (r: seq<Elt>)
    requires k <= |items|
    ensures |r| == |items| - k
    decreases |items| - k
  {
    if k == |items| then [] else [FoundElt(items[k], pos)] + FoundFrom(items, k + 1, pos + |ItemBytes(items[k])|)
  }

  lemma FoundStep(items: seq<Item>, k: nat, pos: nat, next: nat)
    requires k < |items| && next == pos + |ItemBytes(items[k])|
    ensures FoundFrom(items, k, pos) == [FoundElt(items[k], pos)] + FoundFrom(items, k + 1, next)
  {
  }

  lemma EvenStep(pos: nat, it: Item, next: nat, table: Option<seq<Byte>>, maxname: nat)
    requires maxname <= 16 && pos % 2 == 0 && Sound(it, table, maxname) && next == pos + |ItemBytes(it)|
    ensures next % 2 == 0
  {
    hide NameIsFound, ScanUnsigned;
  }

  lemma WalkStep(file: seq<Byte>, pos: nat, table: Option<seq<Byte>>, maxname: nat, elt: Elt, next: nat)
    requires maxname <= 16 && |file| < TWO63 && pos < TWO63
    requires elt.origin < TWO63 && elt.size < TWO64
    requires ReadHdr(file, pos, table, maxname) == Ok(elt) && NextStart(elt) == Ok(next)
    ensures var rest := Walk(file, table, maxname, next);
            Walk(file, table, maxname, pos) == Walked([elt] + rest.elts, rest.stop)
  {
  }

  lemma WalkEnds(file: seq<Byte>, pos: nat, table: Option<seq<Byte>>, maxname: nat)
    requires maxname <= 16 && |file| < TWO63 && pos == |file|
    ensures Walk(file, table, maxname, pos) == Walked([], NoMoreFiles)
  {
  }

  lemma WalkFindsOne(file: seq<Byte>, pos: nat, it: Item, next: nat, rest: seq<Elt>, table: Option<seq<Byte>>, maxname: nat)
    requires maxname <= 16 && |file| < TWO63 && pos % 2 == 0 && Sound(it, table, maxname)
    requires At(file, pos, ItemBytes(it)) && next == pos + |ItemBytes(it)|
    requires Walk(file, table, maxname, next) == Walked(rest, NoMoreFiles)
    ensures Walk(file, table, maxname, pos) == Walked([FoundElt(it, pos)] + rest, NoMoreFiles)
  {
    hide Sound, Walk, ReadHdr, NextStart, ItemBytes, Contents;
    StepFinds(file, pos, it, next, table, maxname);
    WalkStep(file, pos, table, maxname, FoundElt(it, pos), next);
  }

  /** A walk over sound items finds exactly them, in order, and then the end of the file. */
  lemma {:induction false} WalkFinds(file: seq<Byte>, pos: nat, items: seq<Item>, k: nat, table: Option<seq<Byte>>, maxname: nat)
    requires maxname <= 16 && |file| < TWO63 && pos % 2 == 0 && k <= |items|
    requires AllSound(items, k, table, maxname)
    requires At(file, pos, ItemsFrom(items, k)) && pos + |ItemsFrom(items, k)| == |file|
    ensures Walk(file, table, maxname, pos) == Walked(FoundFrom(items, k, pos), NoMoreFiles)
    decreases |items| - k
  {
    hide Sound, Walk, ItemBytes, FoundElt;
    if k == |items| {
      WalkEnds(file, pos, table, maxname);
    } else {
      var it, next := items[k], pos + |ItemBytes(items[k])|;
      AtSplit(file, pos, ItemBytes(it), ItemsFrom(items, k + 1));
      AtRest(file, pos, ItemBytes(it), ItemsFrom(items, k + 1), next);
      assert next + |ItemsFrom(items, k + 1)| == |file|;
      EvenStep(pos, it, next, table, maxname);
      WalkFinds(file, next, items, k + 1, table, maxname);
      WalkFindsOne(file, pos, it, next, FoundFrom(items, k + 1, next), table, maxname);
      FoundStep(items, k, pos, next);
    }
  }

  // ----- positions -----

  /** The distance of item `k` from the first one. */
  function Distance(items: seq<Item>, k: nat): nat
    requires k <= |items|
  {
    if k == 0 then 0 else Distance(items, k - 1) + |ItemBytes(items[k - 1])|
  }

  lemma {:induction false} ItemAt(file: seq<Byte>, pos: nat, items: seq<Item>, k: nat, q: nat)
    requires k <= |items| && At(file, pos, ItemsFrom(items, 0)) && q == pos + Distance(items, k)
    ensures At(file, q, ItemsFrom(items, k))
  {
    if k > 0 {
      var p := pos + Distance(items, k - 1);
      ItemAt(file, pos, items, k - 1, p);
      AtRest(file, p, ItemBytes(items[k - 1]), ItemsFrom(items, k), q);
    }
  }

  lemma {:induction false} DistanceIsEven(items: seq<Item>, k: nat, table: Option<seq<Byte>>, maxname: nat)
    requires k <= |items| && maxname <= 16 && AllSound(items, 0, table, maxname)
    ensures Distance(items, k) % 2 == 0
  {
    hide Sound, ItemBytes;
    if k > 0 {
      DistanceIsEven(items, k - 1, table, maxname);
      SoundAt(items, 0, k - 1, table, maxname);
      EvenStep(Distance(items, k - 1), items[k - 1], Distance(items, k), table, maxname);
    }
  }

  /** Reading at the true position of item `k` gives that item. */
  lemma ReadAtDistance(file: seq<Byte>, pos: nat, items: seq<Item>, k: nat, p: nat, table: Option<seq<Byte>>, maxname: nat)
    requires maxname <= 16 && |file| < TWO63 && pos % 2 == 0 && k < |items|
    requires AllSound(items, 0, table, maxname) && At(file, pos, ItemsFrom(items, 0))
    requires p == pos + Distance(items, k)
    ensures ReadHdr(file, p, table, maxname) == Ok(FoundElt(items[k], p))
    ensures Contents(file, FoundElt(items[k], p)) == items[k].contents
  {
    hide Sound, ItemBytes, FoundElt, ReadHdr, Contents;
    ItemAt(file, pos, items, k, p);
    DistanceIsEven(items, k, table, maxname);
    SoundAt(items, 0, k, table, maxname);
    AtSplit(file, p, ItemBytes(items[k]), ItemsFrom(items, k + 1));
    EvenAdd(pos, Distance(items, k), p);
    StepFinds(file, p, items[k], p + |ItemBytes(items[k])|, table, maxname);
  }
}
