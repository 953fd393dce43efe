/** The extended name table: building it in two passes and reading it back. */
module ArNameTable {
  import opened ByteSeq
  import opened Decimal
  import opened ArHeader

  // ----- the table -----

  /** One stored name: SVR4 tables end it with a slash and a newline, BSD tables with a newline. */
  function Entry(n: seq<Byte>, slash: bool): (r: seq<Byte>)
    ensures |r| == |n| + (if slash then 2 else 1)
  {
    n + if slash then [SLASH, NEWLINE] else [NEWLINE]
  }

  /** The table of the first `k` names: those longer than `maxname`, stored one after the other. */
  function TableTo(names: seq<seq<Byte>>, k: nat, maxname: nat, slash: bool): seq<Byte>
    requires k <= |names|
  {
    if k == 0 then []
    else if |names[k - 1]| > maxname then TableTo(names, k - 1, maxname, slash) + Entry(names[k - 1], slash)
    else TableTo(names, k - 1, maxname, slash)
  }

  function Table(names: seq<seq<Byte>>, maxname: nat, slash: bool): seq<Byte> {
    TableTo(names, |names|, maxname, slash)
  }

  /** Where name `i` starts in the table. */
  function Offset(names: seq<seq<Byte>>, i: nat, maxname: nat, slash: bool): nat
    requires i <= |names|
  {
    |TableTo(names, i, maxname, slash)|
  }

  lemma {:induction false} TablePrefix(names: seq<seq<Byte>>, i: nat, j: nat, maxname: nat, slash: bool)
    requires i <= j <= |names|
    ensures TableTo(names, i, maxname, slash) <= TableTo(names, j, maxname, slash)
    decreases j - i
  {
    if i < j {
      TablePrefix(names, i, j - 1, maxname, slash);
    }
  }

  /** Every table is empty or ends in a newline. */
  lemma {:induction false} TableEndsInNewline(names: seq<seq<Byte>>, k: nat, maxname: nat, slash: bool)
    requires k <= |names|
    ensures var t := TableTo(names, k, maxname, slash); t != [] ==> t[|t| - 1] == NEWLINE
  {
    if k > 0 {
      TableEndsInNewline(names, k - 1, maxname, slash);
    }
  }

  /** The long name `i` stands at its offset, after nothing or after a newline. */
  lemma TableHolds(names: seq<seq<Byte>>, i: nat, maxname: nat, slash: bool)
    requires i < |names| && |names[i]| > maxname
    ensures var t := Table(names, maxname, slash);
            var p := Offset(names, i, maxname, slash);
            && At(t, p, Entry(names[i], slash))
            && (p > 0 ==> t[p - 1] == NEWLINE)
  {
    var t := Table(names, maxname, slash);
    var front := TableTo(names, i, maxname, slash);
    TablePrefix(names, i + 1, |names|, maxname, slash);
    assert At(t, 0, front + Entry(names[i], slash));
    AtSplit(t, 0, front, Entry(names[i], slash));
    TableEndsInNewline(names, i, maxname, slash);
    assert front != [] ==> t[|front| - 1] == front[|front| - 1];
  }

  // ----- construction -----

  predicate AreFields(fields: seq<seq<Byte>>) {
    forall i :: 0 <= i < |fields| ==> |fields[i]| == 16
  }

  /** The header name field of a short name: kept if it already holds the name and the padding
      character, rewritten in place otherwise. */
  function FixShort(was: seq<Byte>, n: seq<Byte>, t: NameRules): (r: seq<Byte>)
    requires t.Valid() && |was| == 16 && |n| <= t.maxname
    ensures |r| == 16
  {
    if was[..|n|] == n && (|n| < 16 ==> was[|n|] == t.pad) then was
    else if |n| < 16 then n + [t.pad] + was[|n| + 1..]
    else n
  }

  /** The header name field of a long name; the columns past `maxname` are left alone. */
  function FixLong(was: seq<Byte>, off: nat, t: NameRules): (r: seq<Byte>)
    requires t.Valid() && |was| == 16
    ensures |r| == 16
  {
    [t.pad] + SpacePad(Digits(off), t.maxname - 1) + was[t.maxname..]
  }

  function NewField(names: seq<seq<Byte>>, fields: seq<seq<Byte>>, i: nat, t: NameRules, slash: bool): (r: seq<Byte>)
    requires t.Valid() && |fields| == |names| && AreFields(fields) && i < |names|
    ensures |r| == 16
  {
    if |names[i]| > t.maxname then FixLong(fields[i], Offset(names, i, t.maxname, slash), t)
    else FixShort(fields[i], names[i], t)
  }

  /** First pass: the exact number of table bytes, and the short header names in order. */
  method CountPass(names: seq<seq<Byte>>, fields: seq<seq<Byte>>, t: NameRules, slash: bool)
    returns (total: nat, fields': seq<seq<Byte>>)
    requires t.Valid() && |fields| == |names| && AreFields(fields)
    ensures total == |Table(names, t.maxname, slash)|
    ensures |fields'| == |names| && AreFields(fields')
    ensures forall j :: 0 <= j < |names| ==>
              fields'[j] == if |names[j]| <= t.maxname then FixShort(fields[j], names[j], t) else fields[j]
  {
    total := 0;
    fields' := [];
    for i := 0 to |names|
      invariant total == Offset(names, i, t.maxname, slash)
      invariant |fields'| == i && AreFields(fields')
      invariant forall j :: 0 <= j < i ==>
                  fields'[j] == if |names[j]| <= t.maxname then FixShort(fields[j], names[j], t) else fields[j]
    {
      if |names[i]| > t.maxname {
        total := total + |names[i]| + 1;
        if slash {
          total := total + 1;
        }
        fields' := fields' + [fields[i]];
      } else {
        fields' := fields' + [FixShort(fields[i], names[i], t)];
      }
    }
  }

  /** strcpy of a name and its terminator into the table. */
  method StoreEntry(tab: array<Byte>, strptr: nat, n: seq<Byte>, slash: bool)
    requires strptr + |Entry(n, slash)| <= tab.Length
    modifies tab
    ensures tab[..strptr + |Entry(n, slash)|] == old(tab[..strptr]) + Entry(n, slash)
  {
    ghost var before := tab[..strptr];
    forall k | 0 <= k < |n| {
      tab[strptr + k] := n[k];
    }
    if !slash {
      tab[strptr + |n|] := NEWLINE;
    } else {
      tab[strptr + |n|] := SLASH;
      tab[strptr + |n| + 1] := NEWLINE;
    }
    ghost var len := |Entry(n, slash)|;
    assert tab[strptr..strptr + len] == Entry(n, slash);
    assert tab[..strptr] == before;
    assert tab[..strptr + len] == tab[..strptr] + tab[strptr..strptr + len];
  }

  /** Second pass over the names: fills a buffer of `total` bytes and notes where each long name went. */
  method FillPass(names: seq<seq<Byte>>, total: nat, maxname: nat, slash: bool)
    returns (table: seq<Byte>, stroffs: seq<nat>)
    requires total == |Table(names, maxname, slash)|
    ensures table == Table(names, maxname, slash)
    ensures |stroffs| == |names|
    ensures forall j :: 0 <= j < |names| ==> stroffs[j] == Offset(names, j, maxname, slash)
  {
    var tab := new Byte[total](_ => 0);
    var strptr := 0;
    stroffs := [];
    for i := 0 to |names|
      invariant strptr == Offset(names, i, maxname, slash) <= total
      invariant tab[..strptr] == TableTo(names, i, maxname, slash)
      invariant |stroffs| == i
      invariant forall j :: 0 <= j < i ==> stroffs[j] == Offset(names, j, maxname, slash)
    {
      TablePrefix(names, i + 1, |names|, maxname, slash);
      stroffs := stroffs + [strptr];
      if |names[i]| > maxname {
        StoreEntry(tab, strptr, names[i], slash);
        strptr := strptr + |names[i]| + 1;
        if slash {
          strptr := strptr + 1;
        }
      }
    }
    table := tab[..];
    assert tab[..total] == tab[..];
  }

  /** _bfd_construct_extended_name_table for an archive that is not thin: one pass counts the bytes
      and repairs short header names, the other fills a buffer of exactly that size and points the
      headers of the long names into it. */
  method ConstructExtendedNameTable(names: seq<seq<Byte>>, fields: seq<seq<Byte>>, t: NameRules, slash: bool)
    returns (table: seq<Byte>, fields': seq<seq<Byte>>)
    requires t.Valid() && |fields| == |names| && AreFields(fields)
    ensures table == Table(names, t.maxname, slash)
    ensures |fields'| == |names| && AreFields(fields')
    ensures forall i :: 0 <= i < |names| ==> fields'[i] == NewField(names, fields, i, t, slash)
  {
    var total, counted := CountPass(names, fields, t, slash);
    if total == 0 {
      forall i | 0 <= i < |names| ensures counted[i] == NewField(names, fields, i, t, slash) {
        NoLongName(names, i, t.maxname, slash);
      }
      return [], counted;
    }
    var stroffs;
    table, stroffs := FillPass(names, total, t.maxname, slash);
    fields' := [];
    for i := 0 to |names|
      invariant |fields'| == i && AreFields(fields')
      invariant forall j :: 0 <= j < i ==> fields'[j] == NewField(names, fields, j, t, slash)
    {
      var field := if |names[i]| > t.maxname then FixLong(counted[i], stroffs[i], t) else counted[i];
      fields' := fields' + [field];
    }
  }

  lemma NoLongName(names: seq<seq<Byte>>, i: nat, maxname: nat, slash: bool)
    requires i < |names| && Table(names, maxname, slash) == []
    ensures |names[i]| <= maxname
  {
    TablePrefix(names, i + 1, |names|, maxname, slash);
  }

  /** In a freshly blanked header both repairs give the plain fields. */
  lemma FreshFields(n: seq<Byte>, off: nat, t: NameRules)
    requires t.Valid()
    ensures |n| <= t.maxname && IsBaseName(n) ==> FixShort(Fill(SPACE, 16), n, t) == ShortField(n, t)
    ensures |n| <= t.maxname ==> FixShort(ShortField(n, t), n, t) == ShortField(n, t)
    ensures FixLong(Fill(SPACE, 16), off, t) == TableField(off, t)
  {
    var blank := Fill(SPACE, 16);
    assert blank[t.maxname..] == Fill(SPACE, 16 - t.maxname);
    if |n| <= t.maxname {
      assert ShortField(n, t)[..|n|] == n;
      if IsBaseName(n) {
        assert blank[0] != n[0];
        assert blank[..|n|] != n;
        if |n| < 16 {
          assert blank[|n| + 1..] == Fill(SPACE, 15 - |n|);
        }
      }
    }
  }

  // ----- reading -----

  predicate IsSeparator(b: Byte) {
    b == SLASH || b == BACKSLASH
  }

  /** Column `i` of the table after the in-place clean-up. */
  function Cleaned(s: seq<Byte>, i: nat): Byte
    requires i < |s|
  {
    if s[i] == NEWLINE then (if i > 0 && IsSeparator(s[i - 1]) then NEWLINE else 0)
    else if IsSeparator(s[i]) then (if i + 1 < |s| && s[i + 1] == NEWLINE then 0 else SLASH)
    else s[i]
  }

  function Clean(s: seq<Byte>): (r: seq<Byte>)
    ensures |r| == |s|
    ensures forall i :: 0 <= i < |s| ==> r[i] == Cleaned(s, i)
  {
    seq(|s|, i requires 0 <= i < |s| => Cleaned(s, i))
  }

  /** The clean-up loop of _bfd_slurp_extended_name_table: a newline, or the slash before it, becomes
      NUL, and a backslash becomes a slash. */
  method CleanInPlace(tab: array<Byte>)
    modifies tab
    ensures tab[..] == Clean(old(tab[..]))
  {
    ghost var s := tab[..];
    for i := 0 to tab.Length
      invariant forall j :: 0 <= j < i - 1 ==> tab[j] == Cleaned(s, j)
      invariant i > 0 ==> tab[i - 1] == if IsSeparator(s[i - 1]) then SLASH else Cleaned(s, i - 1)
      invariant forall j :: i <= j < tab.Length ==> tab[j] == s[j]
    {
      if tab[i] == NEWLINE {
        if i > 0 && tab[i - 1] == SLASH {
          tab[i - 1] := 0;
        } else {
          tab[i] := 0;
        }
      }
      if tab[i] == BACKSLASH {
        tab[i] := SLASH;
      }
    }
    assert forall j :: 0 <= j < tab.Length ==> tab[..][j] == Cleaned(s, j);
  }

  /** A long name survives the clean-up exactly when it has neither newline nor backslash. */
  predicate LongReadable(n: seq<Byte>) {
    NEWLINE !in n && BACKSLASH !in n
  }

  lemma EntryReadsBack(s: seq<Byte>, p: nat, n: seq<Byte>, slash: bool)
    requires IsBaseName(n) && At(s, p, Entry(n, slash)) && LongReadable(n)
    ensures CString(Clean(s)[p..]) == n
  {
    var e := Entry(n, slash);
    var c := Clean(s);
    assert forall k :: 0 <= k < |e| ==> s[p + k] == s[p..p + |e|][k] == e[k];
    assert forall k :: 0 <= k < |n| ==> c[p..][k] == n[k];
    assert c[p..][|n|] == 0 by {
      assert e[|n| - 1] == n[|n| - 1];
      assert s[p + |n|] == if slash then SLASH else NEWLINE;
    }
    assert c[p..] == n + c[p..][|n|..];
    CStringOf(n, c[p..][|n|..]);
  }

  lemma BadEntryReadsDifferent(s: seq<Byte>, p: nat, n: seq<Byte>, slash: bool)
    requires IsBaseName(n) && At(s, p, Entry(n, slash)) && !LongReadable(n)
    requires p > 0 ==> s[p - 1] == NEWLINE
    ensures CString(Clean(s)[p..]) != n
  {
    var e := Entry(n, slash);
    assert forall k :: 0 <= k < |e| ==> s[p + k] == s[p..p + |e|][k] == e[k];
    var k := FirstBad(n);
    assert s[p + k] == n[k];
    assert k > 0 ==> s[p + k - 1] == n[k - 1];
    var found := CString(Clean(s)[p..]);
    assert k < |found| ==> found[k] == Clean(s)[p + k] == Cleaned(s, p + k);
  }

  lemma FirstBad(n: seq<Byte>) returns (k: nat)
    requires !LongReadable(n)
    ensures k < |n| && (n[k] == NEWLINE || n[k] == BACKSLASH) && LongReadable(n[..k])
  {
    var a, b := IndexOf(n, NEWLINE), IndexOf(n, BACKSLASH);
    k := if a < b then a else b;
  }

  /** Table round trip: the offset kept in the header of long name `i` selects that very name in the
      cleaned-up table, for any names around it, if and only if it has no newline and no backslash.
      `pad` is the byte that evens out the stored table. */
  lemma TableNameReadsBack(names: seq<seq<Byte>>, i: nat, t: NameRules, slash: bool, pad: seq<Byte>)
    requires t.Valid() && i < |names| && |names[i]| > t.maxname && IsBaseName(names[i])
    requires pad == [] || pad == [NEWLINE]
    ensures var p := Offset(names, i, t.maxname, slash);
            var s := Table(names, t.maxname, slash) + pad;
            p < |s| && (CString(Clean(s)[p..]) == names[i] <==> LongReadable(names[i]))
  {
    var tab := Table(names, t.maxname, slash);
    var p := Offset(names, i, t.maxname, slash);
    var e := Entry(names[i], slash);
    var s := tab + pad;
    TableHolds(names, i, t.maxname, slash);
    assert At(s, p, e) by {
      assert s[p..p + |e|] == tab[p..p + |e|];
    }
    if LongReadable(names[i]) {
      EntryReadsBack(s, p, names[i], slash);
    } else {
      BadEntryReadsDifferent(s, p, names[i], slash);
    }
  }
}
