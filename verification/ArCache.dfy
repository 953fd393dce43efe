/** The element cache of an archive: one bfd per file position, for as long as it is open
    (_bfd_look_for_bfd_in_cache, _bfd_add_bfd_to_archive_cache, _bfd_get_elt_at_filepos,
    _bfd_archive_close_and_cleanup). */
module ArCache {
  import opened ByteSeq
  import opened ArHeader

  /** The bfd of an archive member, with the key it is cached under. */
  class Element {
    const data: Elt
    const key: nat
    var live: bool

    constructor (data: Elt, key: nat)
      ensures this.data == data && this.key == key && live
    {
      this.data, this.key, live := data, key, true;
    }
  }

  class ArchiveBfd {
    const file: seq<Byte>
    const table: Option<seq<Byte>>
    const maxname: nat

    var cache: map<nat, Element>

    /** Every element that was ever opened. */
    ghost var elements: set<Element>

    /** The header at a file position. */
    function At(p: nat): Result<Elt>
      requires maxname <= 16
    {
      ReadHdr(file, p, table, maxname)
    }

    /** Position `p` is cached as `e` if and only if `e` is the live element with key `p`, and it is what the
        file holds there. */
    ghost predicate Coherent()
      reads this, elements
    {
      && maxname <= 16
      && (forall p, e :: p in cache && cache[p] == e ==> e in elements && e.live && e.key == p && At(p) == Ok(e.data))
      && (forall e :: e in elements && e.live ==> e.key in cache && cache[e.key] == e)
    }

    constructor (file: seq<Byte>, table: Option<seq<Byte>>, maxname: nat)
      requires maxname <= 16
      ensures Coherent() && cache == map[] && elements == {}
      ensures this.file == file && this.table == table && this.maxname == maxname
    {
      this.file, this.table, this.maxname := file, table, maxname;
      cache, elements := map[], {};
    }

    /** _bfd_get_elt_at_filepos: the cached element, or a new one if there is a header.  Whatever was opened
        and closed before, the outcome is that of reading the file. */
    method GetElement(p: nat) returns (e: Element?)
      requires Coherent()
      modifies this`cache, this`elements
      ensures Coherent() && old(elements) <= elements
      ensures e == null <==> At(p).Err?
      ensures e != null ==> p in cache && cache[p] == e && e.key == p && e.live && At(p) == Ok(e.data)
      ensures p in old(cache) ==> e == old(cache)[p] && cache == old(cache) && elements == old(elements)
      ensures p !in old(cache) && e != null ==> fresh(e) && cache == old(cache)[p := e] && elements == old(elements) + {e}
      ensures e == null ==> cache == old(cache) && elements == old(elements)
    {
      hide ReadHdr;
      if p in cache {
        e := cache[p];
        assert At(p) == Ok(e.data);
        return;
      }
      match At(p)
      case Err(_) =>
        return null;
      case Ok(data) =>
        e := new Element(data, p);
        cache := cache[p := e];
        elements := elements + {e};
    }

    /** Closing an element clears its slot.  The slot is there and holds the element: the assertion in the code
        never fails. */
    method Close(e: Element)
      requires Coherent() && e in elements && e.live
      modifies this`cache, e
      ensures Coherent() && !e.live && elements == old(elements)
      ensures cache == map p | p in old(cache) && p != e.key :: old(cache)[p]
      ensures e.key !in cache
      ensures forall x :: x in elements && x != e ==> x.live == old(x.live)
    {
      hide ReadHdr;
      assert e.key in cache && cache[e.key] == e;
      cache := map p | p in cache && p != e.key :: cache[p];
      e.live := false;
    }

    /** Closing the archive closes all its elements. */
    method CloseAll()
      requires Coherent()
      modifies this`cache, elements
      ensures Coherent() && elements == old(elements) && cache == map[] && forall e :: e in elements ==> !e.live
    {
      hide ReadHdr;
      while cache != map[]
        invariant Coherent() && elements == old(elements)
        decreases |cache|
      {
        ghost var before := cache;
        var p :| p in cache;
        Close(cache[p]);
        Smaller(before, cache, p);
      }
    }
  }

  lemma Smaller(before: map<nat, Element>, after: map<nat, Element>, p: nat)
    requires p in before && after == map q | q in before && q != p :: before[q]
    ensures |after| < |before|
  {
    assert after.Keys == before.Keys - {p};
    assert |after| == |after.Keys| && |before| == |before.Keys|;
  }
}
