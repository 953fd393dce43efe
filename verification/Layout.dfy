/** Section sizes, addresses and file positions of an a.out file by magic number (adjust_o_magic,
    adjust_z_magic).  Addresses do not wrap unless a modulus is written. */
module Layout {
  import opened ByteSeq
  import opened AoutReloc

  ghost predicate IsPowerOfTwo(n: nat) {
    exists k: nat :: n == Pow2(k)
  }

  lemma PowerIsPositive(n: nat)
    requires IsPowerOfTwo(n)
    ensures n > 0
  {
  }

  /** BFD_ALIGN short of its wrap-around test, and align_power, with the boundary in bytes. */
  function Align(v: nat, boundary: nat): (r: nat)
    requires boundary > 0
  {
    Quotient(v + boundary - 1, boundary);
    (v + boundary - 1) / boundary * boundary
  }

  predicate IsMultiple(v: int, d: nat)
    requires d > 0
  {
    v % d == 0
  }

  lemma Quotient(v: nat, d: nat)
    requires d > 0
    ensures v / d * d >= 0 && v == v / d * d + v % d
  {
    if v / d < 0 {
      MulSign(d, v / d);
      assert false;
    }
  }

  /** The least multiple of the boundary that is not below `v`. */
  lemma AlignIsLeast(v: nat, boundary: nat, m: nat)
    requires boundary > 0
    ensures IsMultiple(Align(v, boundary), boundary) && v <= Align(v, boundary) < v + boundary
    ensures m % boundary == 0 && m >= v ==> m >= Align(v, boundary)
  {
    var q := (v + boundary - 1) / boundary;
    Quotient(v + boundary - 1, boundary);
    ModUnique(q * boundary, boundary, q, 0);
    if m % boundary == 0 && m >= v && m < q * boundary {
      var j := m / boundary;
      assert m == boundary * j;
      assert boundary * (q - j) == q * boundary - m;
      MulSign(boundary, q - j);
      assert false;
    }
  }

  /** BFD_ALIGN on 64-bit addresses: the sum is computed modulo 2^64, and a wrap gives the last address. */
  function BfdAlign(v: nat, boundary: nat): nat
    requires boundary > 0
  {
    if Wrap64(v + boundary - 1) >= v then Align(v, boundary) else TWO64 - 1
  }

  /** It never wraps around: it aligns exactly when there is room below 2^64, and is the last address otherwise. */
  lemma BfdAlignNeverWraps(v: nat, boundary: nat)
    requires v < TWO64 && 0 < boundary < TWO64
    ensures v <= BfdAlign(v, boundary) < TWO64
    ensures v + boundary - 1 < TWO64 ==> BfdAlign(v, boundary) == Align(v, boundary)
    ensures v + boundary - 1 >= TWO64 ==> BfdAlign(v, boundary) == TWO64 - 1
  {
    hide Align;
    AlignIsLeast(v, boundary, 0);
    AlignBelow(v, boundary);
    if v + boundary - 1 >= TWO64 {
      ModUnique(v + boundary - 1, TWO64, 1, v + boundary - 1 - TWO64);
    }
  }

  lemma AlignBelow(v: nat, boundary: nat)
    requires boundary > 0
    ensures Align(v, boundary) <= v + boundary - 1
  {
    Quotient(v + boundary - 1, boundary);
  }

  /** The padding from `v` to the next multiple of `page`, as a mask takes it from the negated address. */
  lemma PadsToMultiple(v: int, page: nat, aligned: nat)
    requires page > 0 && aligned % page == 0
    ensures (v + (-v) % page + aligned) % page == 0
  {
    var k := (-v) / page;
    assert -v == page * k + (-v) % page;
    assert aligned == page * (aligned / page);
    assert page * (aligned / page - k) == page * (aligned / page) - page * k;
    ModUnique(v + (-v) % page + aligned, page, aligned / page - k, 0);
  }

  datatype Sec = Sec(vma: int, size: nat, filepos: nat, userVma: bool)

  /** What the target says.  `withHeader`: the text section includes the exec header. */
  datatype Target = Target(withHeader: bool, headerNotCounted: bool, contiguous: bool, defaultTextVma: nat,
                           execBytes: nat, diskBlock: nat, page: nat, segment: nat)

  /** Text nobody placed: an object that is still to be relocated starts at 0; otherwise the first byte that is mapped,
      which is the header if text includes it, gets the default address of the target. */
  predicate StartsAt(t: Target, hasReloc: bool, text: Sec) {
    if hasReloc then text.vma == 0
    else if t.withHeader then text.vma - text.filepos == t.defaultTextVma
    else text.vma == t.defaultTextVma
  }

  lemma SumWraps(size: nat, distance: int, pad: nat)
    requires pad == Wrap64(distance - size) && 0 <= distance < TWO64
    ensures pad > 0 ==> Wrap64(size + pad) == distance
    ensures pad == 0 && size < TWO64 ==> size == distance
  {
    var k := (distance - size) / TWO64;
    ModUnique(size + pad, TWO64, -k, distance);
  }

  class Exec {
    var text: Sec
    var data: Sec
    var bss: Sec
    var aText: nat
    var aData: nat
    var aBss: nat

    /** adjust_o_magic: the file never has a gap.  Without addresses set by the user memory has none either,
        and a bss address set above the end of the data makes the data grow up to it. */
    method AdjustO(execBytes: nat)
      modifies this
      ensures text.filepos == execBytes && data.filepos == text.filepos + text.size && bss.filepos == data.filepos + data.size
      ensures text.size == old(text.size) && bss.size == old(bss.size) && data.size >= old(data.size)
      ensures text.vma == if old(text.userVma) then old(text.vma) else 0
      ensures data.vma == if old(data.userVma) then old(data.vma) else text.vma + text.size
      ensures !old(bss.userVma) ==> bss.vma == data.vma + data.size && data.size == old(data.size)
      ensures old(bss.userVma) ==> bss.vma == old(bss.vma)
      ensures old(bss.userVma) && bss.vma - (data.vma + old(data.size)) < TWO31 && bss.vma - (data.vma + old(data.size)) >= -TWO31 ==>
                (bss.vma == data.vma + data.size <==> bss.vma >= data.vma + old(data.size))
      ensures aText == text.size && aData == data.size && aBss == bss.size
    {
      var pos, vma := execBytes, 0;
      text := text.(filepos := pos);
      if !text.userVma {
        text := text.(vma := vma);
      } else {
        vma := text.vma;
      }
      pos, vma := pos + text.size, vma + text.size;
      if !data.userVma {
        data := data.(vma := vma);
      } else {
        vma := data.vma;
      }
      data := data.(filepos := pos);
      pos, vma := pos + data.size, vma + data.size;
      AdjustOBss(pos, vma);
      aText, aData, aBss := text.size, data.size, bss.size;
    }

    /** Its last part, with position and address at the end of the data. */
    method AdjustOBss(pos: nat, vma: int)
      modifies this`data, this`bss
      ensures data == old(data).(size := data.size) && bss == old(bss).(vma := bss.vma, filepos := bss.filepos)
      ensures data.size >= old(data.size) && bss.filepos == pos + (data.size - old(data.size))
      ensures !old(bss.userVma) ==> bss.vma == vma && data.size == old(data.size)
      ensures old(bss.userVma) ==> bss.vma == old(bss.vma)
      ensures old(bss.userVma) && -TWO31 <= bss.vma - vma < TWO31 ==>
                (bss.vma == vma + (data.size - old(data.size)) <==> bss.vma >= vma)
    {
      hide SignedWord;
      var end := pos;
      if !bss.userVma {
        bss := bss.(vma := vma);
      } else {
        var pad := SignedWord(bss.vma - vma);
        if pad > 0 {
          data := data.(size := data.size + pad);
          end := end + pad;
        }
      }
      bss := bss.(filepos := end);
    }

    /** adjust_z_magic: text padded so that data starts on a page, data rounded up in the header, and bss made
        to look smaller by what the last data page already provides. */
    method AdjustZ(t: Target, hasReloc: bool, bssAlign: nat)
      requires IsPowerOfTwo(t.page) && IsPowerOfTwo(t.segment) && IsPowerOfTwo(bssAlign)
      requires text.vma >= 0 && data.vma >= 0 && bss.vma >= 0
      modifies this
      ensures t.page > 0 && t.segment > 0 && bssAlign > 0 && text.vma >= 0 && data.vma >= 0 && bss.vma >= 0
      ensures text.filepos == (if t.withHeader then t.execBytes else t.diskBlock) && data.filepos == text.filepos + text.size
      ensures old(text.userVma) && !t.contiguous ==> text.vma == old(text.vma) && IsMultiple(text.vma + text.size, t.page)
      ensures !old(text.userVma) && !t.contiguous ==> IsMultiple((if t.withHeader then text.filepos else 0) + text.size, t.page)
      ensures !old(text.userVma) ==> StartsAt(t, hasReloc, text)
      ensures !t.contiguous ==> old(text.size) <= text.size < old(text.size) + if old(text.userVma) then 2 * t.page else t.page
      ensures t.contiguous && 0 <= data.vma - text.vma < TWO64 && text.size < TWO64 ==> text.vma + text.size == data.vma
      ensures old(data.userVma) ==> data.vma == old(data.vma)
      ensures bss.vma == if old(bss.userVma) then old(bss.vma) else data.vma + data.size
      ensures !old(data.userVma) ==> IsMultiple(data.vma, t.segment)
      ensures !old(data.userVma) && !t.contiguous ==> text.vma + text.size <= data.vma < text.vma + text.size + t.segment
      ensures data.size == Align(old(data.size), bssAlign) && bss.size == old(bss.size)
      ensures aText == text.size + if t.withHeader && !t.headerNotCounted then t.execBytes else 0
      ensures IsMultiple(aData, t.page) && data.size <= aData < data.size + t.page
      ensures Align(bss.vma, bssAlign) == data.vma + data.size ==>
                aData + aBss == if aData > data.size + bss.size then aData else data.size + bss.size
      ensures Align(bss.vma, bssAlign) != data.vma + data.size ==> aBss == bss.size
    {
      hide Align, IsPowerOfTwo, Wrap64, IsMultiple;
      PowerIsPositive(t.page);
      PowerIsPositive(t.segment);
      PowerIsPositive(bssAlign);
      PadText(t, hasReloc);
      PlaceData(t);
      aText := text.size + (if t.withHeader && !t.headerNotCounted then t.execBytes else 0);
      AdjustBss(t.page, bssAlign);
    }

    /** Its first half: where text starts and how far it is padded. */
    method PadText(t: Target, hasReloc: bool)
      requires t.page > 0 && text.vma >= 0
      modifies this`text
      ensures text.filepos == (if t.withHeader then t.execBytes else t.diskBlock) && text.userVma == old(text.userVma)
      ensures text.vma >= 0 && old(text.size) <= text.size < old(text.size) + if old(text.userVma) then 2 * t.page else t.page
      ensures !text.userVma ==> StartsAt(t, hasReloc, text)
      ensures text.userVma ==> text.vma == old(text.vma) && IsMultiple(text.vma + text.size, t.page)
      ensures !text.userVma ==> IsMultiple((if t.withHeader then text.filepos else 0) + text.size, t.page)
    {
      var pad := 0;
      text := text.(filepos := if t.withHeader then t.execBytes else t.diskBlock);
      if !text.userVma {
        text := text.(vma := if hasReloc then 0 else t.defaultTextVma + if t.withHeader then t.execBytes else 0);
      } else if t.withHeader {
        pad := (text.filepos - text.vma) % t.page;
      } else {
        pad := (-text.vma) % t.page;
      }
      var end := if t.withHeader then text.filepos + text.size else text.size;
      AlignIsLeast(end, t.page, 0);
      AlignBelow(end, t.page);
      PadsToMultiple(text.vma - (if t.withHeader then text.filepos else 0), t.page, Align(end, t.page));
      pad := pad + Align(end, t.page) - end;
      text := text.(size := text.size + pad);
    }

    /** Where data goes, and text stretched up to it on targets that map them contiguously. */
    method PlaceData(t: Target)
      requires t.segment > 0 && text.vma >= 0 && data.vma >= 0
      modifies this`text, this`data
      ensures text == old(text).(size := text.size) && data == old(data).(vma := data.vma, filepos := data.filepos)
      ensures data.filepos == text.filepos + text.size && data.vma >= 0
      ensures old(data.userVma) ==> data.vma == old(data.vma)
      ensures !old(data.userVma) ==> IsMultiple(data.vma, t.segment)
      ensures !old(data.userVma) ==> text.vma + old(text.size) <= data.vma < text.vma + old(text.size) + t.segment
      ensures !t.contiguous ==> text.size == old(text.size)
      ensures t.contiguous && 0 <= data.vma - text.vma < TWO64 && text.size < TWO64 ==> text.vma + text.size == data.vma
    {
      hide Align, Wrap64, IsMultiple;
      if !data.userVma {
        AlignIsLeast(text.vma + text.size, t.segment, 0);
        data := data.(vma := Align(text.vma + text.size, t.segment));
      }
      if t.contiguous {
        var pad := Wrap64(data.vma - (text.vma + text.size));
        if 0 <= data.vma - text.vma < TWO64 {
          SumWraps(text.size, data.vma - text.vma, pad);
        }
        if pad > 0 {
          text := text.(size := Wrap64(text.size + pad));
        }
      }
      data := data.(filepos := text.filepos + text.size);
    }

    /** Its last part: the header sizes of data and bss. */
    method AdjustBss(page: nat, bssAlign: nat)
      requires page > 0 && bssAlign > 0 && data.vma >= 0 && bss.vma >= 0
      modifies this`data, this`bss, this`aData, this`aBss
      ensures data == old(data).(size := Align(old(data.size), bssAlign)) && bss.size == old(bss.size) && bss.vma >= 0
      ensures bss.vma == if old(bss.userVma) then old(bss.vma) else data.vma + data.size
      ensures IsMultiple(aData, page) && data.size <= aData < data.size + page
      ensures Align(bss.vma, bssAlign) == data.vma + data.size ==>
                aData + aBss == if aData > data.size + bss.size then aData else data.size + bss.size
      ensures Align(bss.vma, bssAlign) != data.vma + data.size ==> aBss == bss.size
    {
      hide Align;
      data := data.(size := Align(data.size, bssAlign));
      AlignIsLeast(data.size, page, 0);
      aData := Align(data.size, page);
      var pad := aData - data.size;
      if !bss.userVma {
        bss := bss.(vma := data.vma + data.size);
      }
      if Align(bss.vma, bssAlign) == data.vma + data.size {
        aBss := if pad > bss.size then 0 else bss.size - pad;
      } else {
        aBss := bss.size;
      }
    }
  }
}
