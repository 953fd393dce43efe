/** The doubly linked section list of a bfd.  A removed section keeps its pointers, and they may point into the
    list; the test for removal still has to tell. */
module SectionList {

  class Section {
    var next: Section?
    var prev: Section?

    constructor ()
      ensures next == null && prev == null
    {
      next, prev := null, null;
    }
  }

  // ----- pointers as values -----

  datatype Link = Link(next: Section?, prev: Section?)

  /** The pointers of every section of a bfd, in the list or not. */
  type Picture = map<Section, Link>

  /** The section at position `i`, null just outside. */
  function Elem(es: seq<Section>, i: int): Section? {
    if 0 <= i < |es| then es[i] else null
  }

  /** The sections on both sides of gap `i` point at each other. */
  predicate Joint(pic: Picture, es: seq<Section>, i: nat) {
    && (i > 0 && i <= |es| ==> es[i - 1] in pic && pic[es[i - 1]].next == Elem(es, i))
    && (i < |es| ==> es[i] in pic && pic[es[i]].prev == Elem(es, i - 1))
  }

  /** A section outside the list: what it points at does not point back. */
  predicate Unlinked(pic: Picture, s: Section)
    requires s in pic
  {
    pic[s].next != null ==> pic[s].next in pic && pic[pic[s].next].prev != s
  }

  ghost predicate NoRepeats(es: seq<Section>) {
    forall i, j :: 0 <= i < j < |es| ==> es[i] != es[j]
  }

  /** The pointers represent the sequence `es`. */
  ghost predicate Shape(pic: Picture, es: seq<Section>, first: Section?, last: Section?) {
    && NoRepeats(es) && first == Elem(es, 0) && last == Elem(es, |es| - 1)
    && (forall i :: 0 <= i <= |es| ==> Joint(pic, es, i))
    && forall s :: s in pic && s !in es ==> Unlinked(pic, s)
  }

  // ----- insertion and removal on pictures -----

  /** `s` goes between `prev` and `next`, either of which may be null: all four insertions do this. */
  function Spliced(pic: Picture, prev: Section?, s: Section, next: Section?): Picture
    requires (prev != null ==> prev in pic) && (next != null ==> next in pic)
  {
    var p1 := pic[s := Link(next, prev)];
    var p2 := if prev != null then p1[prev := p1[prev].(next := s)] else p1;
    if next != null then p2[next := p2[next].(prev := s)] else p2
  }

  /** `prev` and `next` are joined, the section between them keeps its pointers. */
  function Bridged(pic: Picture, prev: Section?, next: Section?): Picture
    requires (prev != null ==> prev in pic) && (next != null ==> next in pic)
  {
    var p1 := if prev != null then pic[prev := pic[prev].(next := next)] else pic;
    if next != null then p1[next := p1[next].(prev := prev)] else p1
  }

  function Inserted(es: seq<Section>, p: nat, s: Section): seq<Section>
    requires p <= |es|
  {
    es[..p] + [s] + es[p..]
  }

  function Removed(es: seq<Section>, p: nat): seq<Section>
    requires p < |es|
  {
    es[..p] + es[p + 1..]
  }

  lemma InsertedElems(es: seq<Section>, p: nat, s: Section)
    requires p <= |es| && NoRepeats(es) && s !in es
    ensures |Inserted(es, p, s)| == |es| + 1 && NoRepeats(Inserted(es, p, s)) && s in Inserted(es, p, s)
    ensures forall x :: x in es ==> x in Inserted(es, p, s)
  {
    var after := Inserted(es, p, s);
    assert after[p] == s;
    forall x | x in es ensures x in after {
      var i :| 0 <= i < |es| && es[i] == x;
      assert after[if i < p then i else i + 1] == x;
    }
  }

  lemma RemovedElems(es: seq<Section>, p: nat)
    requires p < |es| && NoRepeats(es)
    ensures |Removed(es, p)| == |es| - 1 && NoRepeats(Removed(es, p))
    ensures forall x :: x in es && x != es[p] ==> x in Removed(es, p)
  {
    var after := Removed(es, p);
    forall x | x in es && x != es[p] ensures x in after {
      var i :| 0 <= i < |es| && es[i] == x;
      assert after[if i < p then i else i - 1] == x;
    }
  }

  lemma InsertedAt(es: seq<Section>, p: nat, s: Section, k: int)
    requires p <= |es|
    ensures Elem(Inserted(es, p, s), k) == if k < p then Elem(es, k) else if k == p then s else Elem(es, k - 1)
  {
  }

  lemma RemovedAt(es: seq<Section>, p: nat, k: int)
    requires p < |es|
    ensures Elem(Removed(es, p), k) == if k < p then Elem(es, k) else Elem(es, k + 1)
  {
  }

  lemma Neighbours(pic: Picture, es: seq<Section>, first: Section?, last: Section?, p: nat)
    requires Shape(pic, es, first, last) && p <= |es|
    ensures (Elem(es, p - 1) != null ==> Elem(es, p - 1) in pic) && (Elem(es, p) != null ==> Elem(es, p) in pic)
  {
    assert Joint(pic, es, p);
  }

  /** Insertion keeps the shape. */
  lemma InsertShape(pic: Picture, es: seq<Section>, first: Section?, last: Section?, p: nat, s: Section)
    requires Shape(pic, es, first, last) && p <= |es| && s !in es && s in pic
    ensures (Elem(es, p - 1) != null ==> Elem(es, p - 1) in pic) && (Elem(es, p) != null ==> Elem(es, p) in pic)
    ensures Shape(Spliced(pic, Elem(es, p - 1), s, Elem(es, p)), Inserted(es, p, s),
                  if p == 0 then s else first, if p == |es| then s else last)
  {
    hide Inserted, Spliced;
    Neighbours(pic, es, first, last, p);
    var prev, next := Elem(es, p - 1), Elem(es, p);
    var pic', es' := Spliced(pic, prev, s, next), Inserted(es, p, s);
    InsertedElems(es, p, s);
    SplicedAt(pic, prev, s, next);
    forall k | 0 <= k <= |es'| ensures Joint(pic', es', k) {
      InsertedAt(es, p, s, k);
      InsertedAt(es, p, s, k - 1);
      if k < p {
        assert Joint(pic, es, k);
      } else if k > p + 1 {
        assert Joint(pic, es, k - 1);
      }
    }
    InsertedAt(es, p, s, 0);
    InsertedAt(es, p, s, |es|);
    forall t | t in pic' && t !in es' ensures Unlinked(pic', t) {
      assert Unlinked(pic, t);
    }
  }

  lemma SplicedAt(pic: Picture, prev: Section?, s: Section, next: Section?)
    requires (prev != null ==> prev in pic) && (next != null ==> next in pic) && s in pic
    requires prev != s && next != s && (prev == null || prev != next)
    ensures var after := Spliced(pic, prev, s, next);
            && after.Keys == pic.Keys && after[s] == Link(next, prev)
            && forall t :: t in pic && t != s ==>
                 after[t] == Link(if t == prev then s else pic[t].next, if t == next then s else pic[t].prev)
  {
  }

  /** So does removal. */
  lemma RemoveShape(pic: Picture, es: seq<Section>, first: Section?, last: Section?, p: nat)
    requires Shape(pic, es, first, last) && p < |es|
    ensures (Elem(es, p - 1) != null ==> Elem(es, p - 1) in pic) && (Elem(es, p + 1) != null ==> Elem(es, p + 1) in pic)
    ensures Shape(Bridged(pic, Elem(es, p - 1), Elem(es, p + 1)), Removed(es, p),
                  if p == 0 then Elem(es, 1) else first, if p == |es| - 1 then Elem(es, p - 1) else last)
  {
    hide Removed, Bridged;
    Neighbours(pic, es, first, last, p);
    Neighbours(pic, es, first, last, p + 1);
    var prev, next := Elem(es, p - 1), Elem(es, p + 1);
    var pic', es' := Bridged(pic, prev, next), Removed(es, p);
    RemovedElems(es, p);
    BridgedAt(pic, prev, next);
    forall k | 0 <= k <= |es'| ensures Joint(pic', es', k) {
      RemovedAt(es, p, k);
      RemovedAt(es, p, k - 1);
      assert Joint(pic, es, k) && Joint(pic, es, k + 1);
    }
    RemovedAt(es, p, 0);
    RemovedAt(es, p, |es'| - 1);
    forall t | t in pic' && t !in es' ensures Unlinked(pic', t) {
      if t == es[p] {
        assert Joint(pic, es, p + 1);
      } else {
        assert Unlinked(pic, t);
      }
    }
  }

  lemma BridgedAt(pic: Picture, prev: Section?, next: Section?)
    requires (prev != null ==> prev in pic) && (next != null ==> next in pic) && (prev == null || prev != next)
    ensures var after := Bridged(pic, prev, next);
            && after.Keys == pic.Keys
            && forall t :: t in pic ==>
                 after[t] == Link(if t == prev then next else pic[t].next, if t == next then prev else pic[t].prev)
  {
  }

  /** bfd_section_removed_from_list, on pictures. */
  lemma RemovalTest(pic: Picture, es: seq<Section>, first: Section?, last: Section?, s: Section)
    requires Shape(pic, es, first, last) && s in pic
    ensures pic[s].next != null ==> pic[s].next in pic
    ensures s !in es <==> if pic[s].next == null then last != s else pic[pic[s].next].prev != s
  {
    if s in es {
      var i :| 0 <= i < |es| && es[i] == s;
      assert Joint(pic, es, i + 1);
    } else {
      assert Unlinked(pic, s);
    }
  }

  // ----- the list itself -----

  class Sections {
    var first: Section?
    var last: Section?

    /** The sections in the list, in order, and all sections that ever belonged to this bfd. */
    ghost var elems: seq<Section>
    ghost var owned: set<Section>

    ghost function Pointers(): (pic: Picture)
      reads this`owned, owned
      ensures pic.Keys == owned
    {
      map s | s in owned :: Link(s.next, s.prev)
    }

    ghost predicate Valid()
      reads this, owned
    {
      Shape(Pointers(), elems, first, last)
    }

    constructor ()
      ensures Valid() && elems == [] && owned == {}
    {
      first, last := null, null;
      elems, owned := [], {};
    }

    /** A new section, not yet in the list. */
    method Create() returns (s: Section)
      requires Valid()
      modifies this`owned
      ensures Valid() && fresh(s) && owned == old(owned) + {s} && s !in elems
    {
      s := new Section();
      owned := owned + {s};
      ghost var was := old(Pointers());
      assert Pointers() == was[s := Link(null, null)];
      CreateShape(was, elems, first, last, s);
    }

    /** bfd_section_removed_from_list: despite stale pointers, it tells exactly which sections are out. */
    method RemovedFromList(s: Section) returns (removed: bool)
      requires Valid() && s in owned
      ensures removed <==> s !in elems
    {
      RemovalTest(Pointers(), elems, first, last, s);
      removed := if s.next == null then last != s else s.next.prev != s;
    }

    /** bfd_section_list_remove */
    method Remove(s: Section, ghost i: nat)
      requires Valid() && i < |elems| && elems[i] == s
      modifies this, owned
      ensures Valid() && owned == old(owned) && elems == Removed(old(elems), i)
    {
      hide Removed, Shape;
      RemoveShape(Pointers(), elems, first, last, i);
      ghost var prev0, next0, was := Elem(elems, i - 1), Elem(elems, i + 1), Pointers();
      AtElem(was, elems, first, last, i);
      var next, prev := s.next, s.prev;
      if prev != null {
        prev.next := next;
      } else {
        first := next;
      }
      if next != null {
        next.prev := prev;
      } else {
        last := prev;
      }
      elems := Removed(elems, i);
      assert Pointers() == Bridged(was, prev0, next0);
    }

    /** bfd_section_list_append */
    method Append(s: Section)
      requires Valid() && s in owned && s !in elems
      modifies this, owned
      ensures Valid() && owned == old(owned) && elems == Inserted(old(elems), |old(elems)|, s)
    {
      hide Inserted;
      ghost var p, was := |elems|, Pointers();
      InsertShape(was, elems, first, last, p, s);
      s.next := null;
      if last != null {
        s.prev := last;
        last.next := s;
      } else {
        s.prev := null;
        first := s;
      }
      last := s;
      elems := Inserted(elems, p, s);
      assert Pointers() == Spliced(was, old(last), s, null);
    }

    /** bfd_section_list_prepend */
    method Prepend(s: Section)
      requires Valid() && s in owned && s !in elems
      modifies this, owned
      ensures Valid() && owned == old(owned) && elems == Inserted(old(elems), 0, s)
    {
      hide Inserted;
      ghost var was := Pointers();
      InsertShape(was, elems, first, last, 0, s);
      s.prev := null;
      if first != null {
        s.next := first;
        first.prev := s;
      } else {
        s.next := null;
        last := s;
      }
      first := s;
      elems := Inserted(elems, 0, s);
      assert Pointers() == Spliced(was, null, s, old(first));
    }

    /** bfd_section_list_insert_after */
    method InsertAfter(a: Section, s: Section, ghost i: nat)
      requires Valid() && s in owned && s !in elems && i < |elems| && elems[i] == a
      modifies this, owned
      ensures Valid() && owned == old(owned) && elems == Inserted(old(elems), i + 1, s)
    {
      hide Inserted, Shape;
      ghost var was, next0 := Pointers(), Elem(elems, i + 1);
      InsertShape(was, elems, first, last, i + 1, s);
      AtElem(was, elems, first, last, i);
      var next := a.next;
      s.next := next;
      s.prev := a;
      a.next := s;
      if next != null {
        next.prev := s;
      } else {
        last := s;
      }
      elems := Inserted(elems, i + 1, s);
      assert Pointers() == Spliced(was, a, s, next0);
    }

    /** bfd_section_list_insert_before */
    method InsertBefore(b: Section, s: Section, ghost i: nat)
      requires Valid() && s in owned && s !in elems && i < |elems| && elems[i] == b
      modifies this, owned
      ensures Valid() && owned == old(owned) && elems == Inserted(old(elems), i, s)
    {
      hide Inserted, Shape;
      ghost var was, prev0 := Pointers(), Elem(elems, i - 1);
      InsertShape(was, elems, first, last, i, s);
      AtElem(was, elems, first, last, i);
      var prev := b.prev;
      s.prev := prev;
      s.next := b;
      b.prev := s;
      if prev != null {
        prev.next := s;
      } else {
        first := s;
      }
      elems := Inserted(elems, i, s);
      assert Pointers() == Spliced(was, prev0, s, b);
    }
  }

  /** The pointers of a section in the list. */
  lemma AtElem(pic: Picture, es: seq<Section>, first: Section?, last: Section?, i: nat)
    requires Shape(pic, es, first, last) && i < |es|
    ensures es[i] in pic && pic[es[i]] == Link(Elem(es, i + 1), Elem(es, i - 1))
    ensures i > 0 ==> es[i - 1] in pic && es[i - 1] != es[i]
    ensures i + 1 < |es| ==> es[i + 1] in pic && es[i + 1] != es[i]
    ensures Elem(es, i - 1) != null ==> Elem(es, i - 1) != Elem(es, i + 1)
  {
    assert Joint(pic, es, i) && Joint(pic, es, i + 1);
  }

  lemma CreateShape(pic: Picture, es: seq<Section>, first: Section?, last: Section?, s: Section)
    requires Shape(pic, es, first, last) && s !in pic
    ensures Shape(pic[s := Link(null, null)], es, first, last) && s !in es
  {
    var after := pic[s := Link(null, null)];
    forall i | 0 <= i < |es| ensures es[i] in pic {
      assert Joint(pic, es, i);
    }
    forall i | 0 <= i <= |es| ensures Joint(after, es, i) {
      assert Joint(pic, es, i);
    }
    forall t | t in after && t !in es ensures Unlinked(after, t) {
      if t != s {
        assert Unlinked(pic, t);
      }
    }
  }
}
