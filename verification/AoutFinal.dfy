/** final_link: one whole run, and what the finished file says. */
module AoutFinal {
  import opened ByteSeq
  import opened AoutIncludes
  import opened AoutSymbols
  import opened AoutOutput
  import opened AoutReloc
  import opened AoutCopy
  import opened AoutLink

  /** A link order of an output section: an input section, a reloc, or something that concerns neither
      symbols nor relocs. */
  datatype Order = FromInput(file: nat, section: Section) | Reloc(order: RelOrder) | Other

  datatype Placed = Placed(out: Section, order: Order)

  predicate OrderOk(p: Placed, files: nat, entries: nat, relocatable: bool) {
    match p.order
    case FromInput(f, _) => f < files
    case Reloc(o) => relocatable && (o.SymbolReloc? && o.h.Some? ==> o.h.value < entries)
    case Other => true
  }

  predicate InputsOk(ext: bool, files: seq<InFile>, orders: seq<Placed>, entries: nat, relocatable: bool) {
    && (forall i :: 0 <= i < |files| ==> FileOk(ext, files[i], entries))
    && forall i :: 0 <= i < |orders| ==> OrderOk(orders[i], |files|, entries, relocatable)
  }

  lemma OrdersInside(ext: bool, files: seq<InFile>, orders: seq<Placed>, entries: nat, relocatable: bool)
    requires InputsOk(ext, files, orders, entries, relocatable)
    ensures forall i :: 0 <= i < |orders| && orders[i].order.FromInput? ==> orders[i].order.file < |files|
  {
    forall i | 0 <= i < |orders| && orders[i].order.FromInput? ensures orders[i].order.file < |files| {
      assert OrderOk(orders[i], |files|, entries, relocatable);
    }
  }

  // ----- how much room the relocs need -----

  function RelsOf(f: InFile, text: bool): RelArea {
    if text then f.text else f.data
  }

  /** The reloc bytes of the first `k` files that have not been handled yet. */
  function FilesNeed(ext: bool, files: seq<InFile>, begun: seq<bool>, text: bool, k: nat): nat
    requires k <= |files| == |begun|
  {
    if k == 0 then 0
    else FilesNeed(ext, files, begun, text, k - 1) + if begun[k - 1] then 0 else AreaSize(ext, RelsOf(files[k - 1], text))
  }

  /** The reloc bytes of the orders from `k` on. */
  function OrdersNeed(ext: bool, orders: seq<Placed>, s: Section, k: nat): nat
    requires k <= |orders|
    decreases |orders| - k
  {
    if k == |orders| then 0
    else OrdersNeed(ext, orders, s, k + 1) + if orders[k].order.Reloc? && orders[k].out == s then RelSpace(ext, 1) else 0
  }

  lemma {:induction false} NeedUnchanged(ext: bool, files: seq<InFile>, begun: seq<bool>, text: bool, k: nat, i: nat)
    requires k <= i < |files| == |begun|
    ensures FilesNeed(ext, files, begun[i := true], text, k) == FilesNeed(ext, files, begun, text, k)
  {
    if k > 0 {
      NeedUnchanged(ext, files, begun, text, k - 1, i);
    }
  }

  /** Handling a file takes its relocs off the need, once. */
  lemma {:induction false} NeedDrops(ext: bool, files: seq<InFile>, begun: seq<bool>, text: bool, k: nat, i: nat)
    requires i < k <= |files| == |begun| && !begun[i]
    ensures FilesNeed(ext, files, begun, text, k) == FilesNeed(ext, files, begun[i := true], text, k) + AreaSize(ext, RelsOf(files[i], text))
  {
    if i == k - 1 {
      NeedUnchanged(ext, files, begun, text, k - 1, i);
    } else {
      NeedDrops(ext, files, begun, text, k - 1, i);
    }
  }

  /** linker_mark */
  predicate Marked(orders: seq<Placed>, file: nat, s: Section) {
    exists i :: 0 <= i < |orders| && orders[i].order == FromInput(file, s)
  }

  // ----- the run -----

  /** final_link marks every input section that a link order puts into the output. */
  method MarkSections(files: nat, orders: seq<Placed>) returns (text: seq<bool>, data: seq<bool>)
    requires forall i :: 0 <= i < |orders| && orders[i].order.FromInput? ==> orders[i].order.file < files
    ensures |text| == |data| == files
    ensures forall i :: 0 <= i < files ==> (text[i] <==> Marked(orders, i, Text)) && (data[i] <==> Marked(orders, i, Data))
  {
    text, data := seq(files, _ => false), seq(files, _ => false);
    for k := 0 to |orders|
      invariant |text| == |data| == files
      invariant forall i :: 0 <= i < files ==> (text[i] <==> Marked(orders[..k], i, Text)) && (data[i] <==> Marked(orders[..k], i, Data))
    {
      MarkedMore(orders, k);
      var order := orders[k].order;
      if order.FromInput? {
        match order.section
        case Text => text := text[order.file := true];
        case Data => data := data[order.file := true];
        case _ =>
      }
    }
    assert orders[..|orders|] == orders;
  }

  lemma MarkedMore(orders: seq<Placed>, k: nat)
    requires k < |orders|
    ensures forall i, s :: Marked(orders[..k + 1], i, s) <==> Marked(orders[..k], i, s) || orders[k].order == FromInput(i, s)
  {
    forall i, s ensures Marked(orders[..k + 1], i, s) <==> Marked(orders[..k], i, s) || orders[k].order == FromInput(i, s) {
      assert forall j :: 0 <= j < k ==> orders[..k + 1][j] == orders[..k][j];
      if orders[k].order == FromInput(i, s) {
        assert orders[..k + 1][k].order == FromInput(i, s);
      }
      if Marked(orders[..k], i, s) {
        var j :| 0 <= j < |orders[..k]| && orders[..k][j].order == FromInput(i, s);
        assert orders[..k + 1][j].order == FromInput(i, s);
      }
    }
  }

  /** The sizes of the two reloc areas: every file once, and every reloc order. */
  method CountRelocs(ext: bool, files: seq<InFile>, orders: seq<Placed>, text: bool) returns (size: nat)
    ensures size == FilesNeed(ext, files, seq(|files|, _ => false), text, |files|) + OrdersNeed(ext, orders, if text then Text else Data, 0)
  {
    ghost var none := seq(|files|, _ => false);
    ghost var s := if text then Text else Data;
    size := 0;
    for i := 0 to |files|
      invariant size == FilesNeed(ext, files, none, text, i)
    {
      size := size + AreaSize(ext, RelsOf(files[i], text));
    }
    ghost var inFiles := size;
    var j := |orders|;
    while j > 0
      invariant 0 <= j <= |orders| && size == inFiles + OrdersNeed(ext, orders, s, j)
    {
      j := j - 1;
      if orders[j].order.Reloc? && orders[j].out == if text then Text else Data {
        size := size + RelSpace(ext, 1);
      }
    }
  }

  /** Room is left for the files not yet handled and the reloc orders from `k` on. */
  ghost predicate Room(link: FinalLink, files: seq<InFile>, begun: seq<bool>, orders: seq<Placed>, k: nat)
    requires |files| == |begun| && k <= |orders|
    reads link
  {
    link.info.relocatable ==>
      && link.leftT >= FilesNeed(link.ext, files, begun, true, |files|) + OrdersNeed(link.ext, orders, Text, k)
      && link.leftD >= FilesNeed(link.ext, files, begun, false, |files|) + OrdersNeed(link.ext, orders, Data, k)
  }

  // ----- what the run leaves behind -----

  /** The files that the first `k` orders mention, each once, in the order of their first mention. */
  function FirstUses(orders: seq<Placed>, k: nat): (r: seq<nat>)
    requires k <= |orders|
  {
    if k == 0 then []
    else
      var before, order := FirstUses(orders, k - 1), orders[k - 1].order;
      if order.FromInput? && order.file !in before then before + [order.file] else before
  }

  /** The relocs of the linked files, one after the other, in one of the two areas. */
  function FileRelocs(big: bool, ext: bool, relocatable: bool, files: seq<InFile>, orders: seq<Placed>, used: seq<nat>,
                      dones: seq<Done>, text: bool): seq<Byte>
    requires |used| == |dones| && forall i :: 0 <= i < |used| ==> used[i] < |files|
  {
    if used == [] then []
    else
      var n := |used| - 1;
      var f, d := files[used[n]], dones[n];
      FileRelocs(big, ext, relocatable, files, orders, used[..n], dones[..n], text)
      + if text then AreaBytes(big, ext, relocatable && Marked(orders, used[n], Text), d.text, f.text)
        else AreaBytes(big, ext, relocatable && Marked(orders, used[n], Data), d.data, f.data)
  }

  /** Each file starts from the headers that the one before left, up to those in `seen`. */
  ghost predicate Chained(info: Info, files: seq<InFile>, used: seq<nat>, dones: seq<Done>, seen: Seen)
    requires |used| == |dones| && forall i :: 0 <= i < |used| ==> used[i] < |files|
  {
    if dones == [] then seen == map[]
    else
      var n := |dones| - 1;
      var f, d := files[used[n]], dones[n];
      Started(f, d) && seen == CopyOf(info, f, d).seen && Chained(info, files, used[..n], dones[..n], d.before)
  }

  /** Every file in `used` has been linked, in this order, the headers seen by one being known to the next. */
  ghost predicate FilesDone(info: Info, ext: bool, hash: seq<HashEntry>, owners: Owners, emitted: seq<OutSym>, files: seq<InFile>,
                            orders: seq<Placed>, used: seq<nat>, dones: seq<Done>, seen: Seen)
  {
    && |used| == |dones| && (forall i :: 0 <= i < |used| ==> used[i] < |files|)
    && (forall i :: 0 <= i < |used| ==>
          FileDone(info, ext, hash, owners, emitted, files[used[i]], Marked(orders, used[i], Text), Marked(orders, used[i], Data), dones[i]))
    && Chained(info, files, used, dones, seen)
  }

  lemma FilesStayDone(info: Info, ext: bool, hash: seq<HashEntry>, owners: Owners, emitted: seq<OutSym>, hash': seq<HashEntry>,
                      owners': Owners, emitted': seq<OutSym>, files: seq<InFile>, orders: seq<Placed>, used: seq<nat>,
                      dones: seq<Done>, seen: Seen)
    requires FilesDone(info, ext, hash, owners, emitted, files, orders, used, dones, seen)
    requires SameTable(hash', hash) && owners <= owners' && emitted <= emitted'
    ensures FilesDone(info, ext, hash', owners', emitted', files, orders, used, dones, seen)
  {
    hide FileDone, SameTable, Marked;
    forall i | 0 <= i < |used|
      ensures FileDone(info, ext, hash', owners', emitted', files[used[i]], Marked(orders, used[i], Text), Marked(orders, used[i], Data), dones[i])
    {
      FileStaysDone(info, ext, hash, owners, emitted, hash', owners', emitted', files[used[i]],
                    Marked(orders, used[i], Text), Marked(orders, used[i], Data), dones[i]);
    }
  }

  lemma OneMoreFile(info: Info, ext: bool, hash: seq<HashEntry>, owners: Owners, emitted: seq<OutSym>, files: seq<InFile>,
                    orders: seq<Placed>, used: seq<nat>, dones: seq<Done>, seen: Seen, i: nat, d: Done, seen': Seen)
    requires FilesDone(info, ext, hash, owners, emitted, files, orders, used, dones, seen) && i < |files| && d.before == seen
    requires Started(files[i], d) && seen' == CopyOf(info, files[i], d).seen
    requires FileDone(info, ext, hash, owners, emitted, files[i], Marked(orders, i, Text), Marked(orders, i, Data), d)
    ensures FilesDone(info, ext, hash, owners, emitted, files, orders, used + [i], dones + [d], seen')
  {
    hide FileDone, Marked, CopyOf, Started;
    var used', dones' := used + [i], dones + [d];
    forall k | 0 <= k < |used'|
      ensures FileDone(info, ext, hash, owners, emitted, files[used'[k]], Marked(orders, used'[k], Text), Marked(orders, used'[k], Data), dones'[k])
    {
      if k < |used| {
        assert used'[k] == used[k] && dones'[k] == dones[k];
      }
    }
    assert dones'[..|dones|] == dones && used'[..|used|] == used;
  }

  lemma MoreRelocs(big: bool, ext: bool, relocatable: bool, files: seq<InFile>, orders: seq<Placed>, used: seq<nat>,
                   dones: seq<Done>, i: nat, d: Done)
    requires |used| == |dones| && (forall i :: 0 <= i < |used| ==> used[i] < |files|) && i < |files|
    ensures FileRelocs(big, ext, relocatable, files, orders, used + [i], dones + [d], true)
         == FileRelocs(big, ext, relocatable, files, orders, used, dones, true)
            + AreaBytes(big, ext, relocatable && Marked(orders, i, Text), d.text, files[i].text)
    ensures FileRelocs(big, ext, relocatable, files, orders, used + [i], dones + [d], false)
         == FileRelocs(big, ext, relocatable, files, orders, used, dones, false)
            + AreaBytes(big, ext, relocatable && Marked(orders, i, Data), d.data, files[i].data)
  {
    hide AreaBytes, Marked;
    assert (used + [i])[..|used|] == used && (dones + [d])[..|dones|] == dones;
  }

  /** Position `p` is in the part of the symbol table that the file linked `k`-th added. */
  ghost predicate InPart(info: Info, files: seq<InFile>, used: seq<nat>, dones: seq<Done>, k: nat, p: nat) {
    && k < |used| && k < |dones| && used[k] < |files| && Started(files[used[k]], dones[k])
    && dones[k].at <= p < dones[k].at + |SymsIn(info, files[used[k]], dones[k])|
  }

  /** Every copied symbol belongs to one of the files. */
  ghost predicate FromFiles(info: Info, files: seq<InFile>, used: seq<nat>, dones: seq<Done>, copied: seq<bool>) {
    forall p :: 0 <= p < |copied| && copied[p] ==> exists k: nat :: InPart(info, files, used, dones, k, p)
  }

  lemma FromFilesForced(info: Info, files: seq<InFile>, used: seq<nat>, dones: seq<Done>, syms: seq<OutSym>, copied: seq<bool>,
                        syms': seq<OutSym>, copied': seq<bool>)
    requires FromFiles(info, files, used, dones, copied) && Forced(syms, copied, syms', copied')
    ensures FromFiles(info, files, used, dones, copied') && Depth(syms', Some(0)) == Depth(syms, Some(0))
    ensures syms <= syms' && copied <= copied' && forall p :: |copied| <= p < |copied'| ==> !copied'[p]
  {
    hide InPart, Depth;
    forall p | 0 <= p < |copied'| && copied'[p] ensures exists k: nat :: InPart(info, files, used, dones, k, p) {
      assert p < |copied| && copied[p];
    }
  }

  lemma FromOneMore(info: Info, files: seq<InFile>, used: seq<nat>, dones: seq<Done>, copied: seq<bool>, copied': seq<bool>, i: nat, d: Done)
    requires FromFiles(info, files, used, dones, copied) && |used| == |dones| && i < |files| && Started(files[i], d)
    requires PartCopied(copied, copied', d.at, |SymsIn(info, files[i], d)|)
    ensures FromFiles(info, files, used + [i], dones + [d], copied')
  {
    hide SymsIn, Started;
    var used', dones' := used + [i], dones + [d];
    forall p | 0 <= p < |copied'| && copied'[p] ensures exists k: nat :: InPart(info, files, used', dones', k, p) {
      if p < |copied| {
        var k: nat :| InPart(info, files, used, dones, k, p);
        assert used'[k] == used[k] && dones'[k] == dones[k];
        assert InPart(info, files, used', dones', k, p);
      } else {
        assert InPart(info, files, used', dones', |used|, p);
      }
    }
  }

  /** The headers of every file are well nested, and nothing gets in the way of their elimination. */
  predicate AllNested(info: Info, files: seq<InFile>) {
    forall i :: 0 <= i < |files| ==> NestedInput(info, files[i].inp)
  }

  /** What a link has done so far with the files `used`. */
  ghost predicate Linked(link: FinalLink, files: seq<InFile>, orders: seq<Placed>, used: seq<nat>, dones: seq<Done>)
    reads link
  {
    && FromFiles(link.info, files, used, dones, link.copied)
    && (AllNested(link.info, files) ==> Depth(link.emitted, Some(0)) == Some(0))
    && FilesDone(link.info, link.ext, link.hash, link.owners, link.emitted, files, orders, used, dones, link.includes)
    && link.trel == FileRelocs(link.big, link.ext, link.info.relocatable, files, orders, used, dones, true)
    && link.drel == FileRelocs(link.big, link.ext, link.info.relocatable, files, orders, used, dones, false)
  }

  /** One file that has not been handled yet. */
  method LinkFile(link: FinalLink, files: seq<InFile>, ghost orders: seq<Placed>, i: nat, text: bool, data: bool,
                  ghost used: seq<nat>, ghost dones: seq<Done>)
    returns (ok: bool, ghost d: Done)
    requires text == Marked(orders, i, Text) && data == Marked(orders, i, Data)
    requires link.Inv() && Linked(link, files, orders, used, dones) && i < |files| && FileOk(link.ext, files[i], |link.hash|)
    requires link.info.relocatable ==> AreaSize(link.ext, files[i].text) <= link.leftT && AreaSize(link.ext, files[i].data) <= link.leftD
    modifies link
    ensures link.Inv() && SameTable(link.hash, old(link.hash))
    ensures link.leftT >= old(link.leftT) - AreaSize(link.ext, files[i].text)
    ensures link.leftD >= old(link.leftD) - AreaSize(link.ext, files[i].data)
    ensures ok ==> Linked(link, files, orders, used + [i], dones + [d])
  {
    hide FinalLink.Inv, SameTable, Marked, FileOk, FileDone, FilesDone, FileRelocs, AreaBytes, AreaSize, FromFiles, PartCopied, Depth,
         NestedInput, SymsIn;
    ghost var hash0, owners0, emitted0, copied0, seen := link.hash, link.owners, link.emitted, link.copied, link.includes;
    assert |used| == |dones| && forall k :: 0 <= k < |used| ==> used[k] < |files| by {
      Indices(link.info, link.ext, hash0, owners0, emitted0, files, orders, used, dones, seen);
    }
    ok, d := link.LinkInput(files[i], text, data);
    if ok {
      FilesStayDone(link.info, link.ext, hash0, owners0, emitted0, link.hash, link.owners, link.emitted, files, orders, used, dones, seen);
      OneMoreFile(link.info, link.ext, link.hash, link.owners, link.emitted, files, orders, used, dones, seen, i, d, link.includes);
      MoreRelocs(link.big, link.ext, link.info.relocatable, files, orders, used, dones, i, d);
      FromOneMore(link.info, files, used, dones, copied0, link.copied, i, d);
    }
  }

  lemma Indices(info: Info, ext: bool, hash: seq<HashEntry>, owners: Owners, emitted: seq<OutSym>, files: seq<InFile>,
                orders: seq<Placed>, used: seq<nat>, dones: seq<Done>, seen: Seen)
    requires FilesDone(info, ext, hash, owners, emitted, files, orders, used, dones, seen)
    ensures |used| == |dones| && forall k :: 0 <= k < |used| ==> used[k] < |files|
  {
  }

  /** The flags agree with the list of files handled. */
  ghost predicate Begun(started: seq<bool>, used: seq<nat>) {
    forall i: nat :: i < |started| ==> (started[i] <==> i in used)
  }

  /** The link orders: each file is handled when the first of its sections comes up, and never again. */
  method LinkOrders(link: FinalLink, files: seq<InFile>, orders: seq<Placed>)
    returns (ok: bool, ghost begun: seq<bool>, ghost dones: seq<Done>)
    requires link.Inv() && InputsOk(link.ext, files, orders, |link.hash|, link.info.relocatable)
    requires Room(link, files, seq(|files|, _ => false), orders, 0) && Linked(link, files, orders, [], [])
    modifies link
    ensures link.Inv() && SameTable(link.hash, old(link.hash)) && |begun| == |files|
    ensures ok ==> Room(link, files, begun, orders, 0) && Linked(link, files, orders, FirstUses(orders, |orders|), dones)
  {
    hide SameTable, Marked, AreaSize, FilesNeed, OrdersNeed, FileOk, FinalLink.Inv, Linked;
    var started := seq(|files|, _ => false);
    begun, dones, ok := started, [], true;
    SameTableRefl(link.hash);
    OrdersInside(link.ext, files, orders, |link.hash|, link.info.relocatable);
    var text, data := MarkSections(|files|, orders);
    var k := 0;
    while k < |orders|
      invariant 0 <= k <= |orders| && |started| == |files| && begun == started && ok
      invariant link.Inv() && SameTable(link.hash, old(link.hash)) && |link.hash| == |old(link.hash)|
      invariant Room(link, files, started, orders, 0) && Linked(link, files, orders, FirstUses(orders, k), dones)
      invariant Begun(started, FirstUses(orders, k))
    {
      var order := orders[k].order;
      assert OrderOk(orders[k], |files|, |link.hash|, link.info.relocatable);
      if order.FromInput? && !started[order.file] {
        var i := order.file;
        ghost var before, used := link.hash, FirstUses(orders, k);
        assert i !in used;
        NeedDrops(link.ext, files, started, true, |files|, i);
        NeedDrops(link.ext, files, started, false, |files|, i);
        ghost var d;
        ok, d := LinkFile(link, files, orders, i, text[i], data[i], used, dones);
        SameTableTrans(link.hash, before, old(link.hash));
        SameKinds(link.hash, before);
        if !ok {
          return;
        }
        started := started[i := true];
        begun, dones := started, dones + [d];
      }
      k := k + 1;
    }
  }

  // ----- reloc orders -----

  /** The relocs that the first `k` orders ask for in section `s`; `outs` has one reloc for each order. */
  function OrderRelocs(big: bool, ext: bool, orders: seq<Placed>, outs: seq<Rel>, s: Section, k: nat): seq<Byte>
    requires k <= |outs| <= |orders|
  {
    if k == 0 then []
    else
      OrderRelocs(big, ext, orders, outs, s, k - 1)
      + if orders[k - 1].order.Reloc? && orders[k - 1].out == s then RelBytes(big, ext, outs[k - 1]) else []
  }

  lemma {:induction false} OrdersGrow(big: bool, ext: bool, orders: seq<Placed>, outs: seq<Rel>, out: Rel, s: Section, k: nat)
    requires k <= |outs| < |orders|
    ensures OrderRelocs(big, ext, orders, outs + [out], s, k) == OrderRelocs(big, ext, orders, outs, s, k)
  {
    if k > 0 {
      OrdersGrow(big, ext, orders, outs, out, s, k - 1);
    }
  }

  /** Every reloc order has led to the reloc it asks for. */
  ghost predicate OrdersDone(hash: seq<HashEntry>, owners: Owners, orders: seq<Placed>, outs: seq<Rel>) {
    |outs| <= |orders| && forall i :: 0 <= i < |outs| && orders[i].order.Reloc? ==> OrderDone(hash, owners, orders[i].order.order, outs[i])
  }

  lemma OneMoreOrder(hash: seq<HashEntry>, owners: Owners, hash': seq<HashEntry>, owners': Owners, orders: seq<Placed>, outs: seq<Rel>, out: Rel)
    requires OrdersDone(hash, owners, orders, outs) && SameTable(hash', hash) && owners <= owners' && |outs| < |orders|
    requires orders[|outs|].order.Reloc? ==> OrderDone(hash', owners', orders[|outs|].order.order, out)
    ensures OrdersDone(hash', owners', orders, outs + [out])
  {
    hide SameTable, OrderDone;
    forall i | 0 <= i < |outs| && orders[i].order.Reloc? ensures OrderDone(hash', owners', orders[i].order.order, outs[i]) {
      OrderStaysDone(hash, owners, hash', owners', orders[i].order.order, outs[i]);
    }
  }

  lemma OrderStaysDone(hash: seq<HashEntry>, owners: Owners, hash': seq<HashEntry>, owners': Owners, order: RelOrder, out: Rel)
    requires OrderDone(hash, owners, order, out) && SameTable(hash', hash) && owners <= owners'
    ensures OrderDone(hash', owners', order, out)
  {
  }

  /** One reloc order. */
  method RelocOrder(link: FinalLink, order: Placed, ghost orders: seq<Placed>, ghost outs: seq<Rel>, ghost t: seq<Byte>, ghost d: seq<Byte>)
    returns (ok: bool, ghost out: Rel)
    requires link.Inv() && |outs| < |orders| && orders[|outs|] == order && OrderOk(order, 0, |link.hash|, link.info.relocatable) && order.order.Reloc?
    requires OrdersDone(link.hash, link.owners, orders, outs)
    requires link.trel == t + OrderRelocs(link.big, link.ext, orders, outs, Text, |outs|)
    requires link.drel == d + OrderRelocs(link.big, link.ext, orders, outs, Data, |outs|)
    requires order.out == Text ==> RelSpace(link.ext, 1) <= link.leftT
    requires order.out == Data ==> RelSpace(link.ext, 1) <= link.leftD
    modifies link`hash, link`strtab, link`symCount, link`symoff, link`file, link`owners, link`emitted, link`copied,
             link`treloff, link`dreloff, link`trel, link`drel, link`leftT, link`leftD
    ensures link.Inv() && SameTable(link.hash, old(link.hash)) && old(link.owners) <= link.owners
    ensures Forced(old(link.emitted), old(link.copied), link.emitted, link.copied) && KeepsDecided(old(link.hash), link.hash)
    ensures link.leftT >= old(link.leftT) - (if order.out == Text then RelSpace(link.ext, 1) else 0)
    ensures link.leftD >= old(link.leftD) - (if order.out == Data then RelSpace(link.ext, 1) else 0)
    ensures ok ==> OrdersDone(link.hash, link.owners, orders, outs + [out])
    ensures ok ==> link.trel == t + OrderRelocs(link.big, link.ext, orders, outs + [out], Text, |outs| + 1)
    ensures ok ==> link.drel == d + OrderRelocs(link.big, link.ext, orders, outs + [out], Data, |outs| + 1)
  {
    hide FinalLink.Inv, SameTable, OrderDone, OrdersDone, RelBytes, RelSpace, Forced;
    ghost var hash0, owners0 := link.hash, link.owners;
    ok, out := link.RelocLinkOrder(order.out, order.order.order);
    if ok {
      OneMoreOrder(hash0, owners0, link.hash, link.owners, orders, outs, out);
      OrdersGrow(link.big, link.ext, orders, outs, out, Text, |outs|);
      OrdersGrow(link.big, link.ext, orders, outs, out, Data, |outs|);
    }
  }

  /** The relocs the linker was asked to create, after all symbols. */
  method RelocOrders(link: FinalLink, ghost files: seq<InFile>, ghost begun: seq<bool>, orders: seq<Placed>)
    returns (ok: bool, ghost outs: seq<Rel>)
    requires link.Inv() && InputsOk(link.ext, files, orders, |link.hash|, link.info.relocatable) && |begun| == |files|
    requires Room(link, files, begun, orders, 0)
    modifies link`hash, link`strtab, link`symCount, link`symoff, link`file, link`owners, link`emitted, link`copied,
             link`treloff, link`dreloff, link`trel, link`drel, link`leftT, link`leftD
    ensures link.Inv() && SameTable(link.hash, old(link.hash)) && old(link.owners) <= link.owners
    ensures Forced(old(link.emitted), old(link.copied), link.emitted, link.copied) && KeepsDecided(old(link.hash), link.hash)
    ensures ok ==> |outs| == |orders| && OrdersDone(link.hash, link.owners, orders, outs)
    ensures ok ==> link.trel == old(link.trel) + OrderRelocs(link.big, link.ext, orders, outs, Text, |orders|)
    ensures ok ==> link.drel == old(link.drel) + OrderRelocs(link.big, link.ext, orders, outs, Data, |orders|)
  {
    hide SameTable, FilesNeed, FileOk, OrderDone, FinalLink.Inv, RelBytes, Decided, LinksInside, Forced;
    link.NothingChanged();
    ForcedNone(link.emitted, link.copied);
    ok, outs := true, [];
    SameTableRefl(link.hash);
    assert link.trel + [] == link.trel && link.drel + [] == link.drel;
    ghost var none: Rel := *;
    var k := 0;
    while k < |orders|
      invariant 0 <= k <= |orders| && |outs| == k && ok
      invariant link.Inv() && SameTable(link.hash, old(link.hash)) && |link.hash| == |old(link.hash)|
      invariant old(link.owners) <= link.owners && KeepsDecided(old(link.hash), link.hash)
      invariant Forced(old(link.emitted), old(link.copied), link.emitted, link.copied)
      invariant Room(link, files, begun, orders, k) && OrdersDone(link.hash, link.owners, orders, outs)
      invariant link.trel == old(link.trel) + OrderRelocs(link.big, link.ext, orders, outs, Text, k)
      invariant link.drel == old(link.drel) + OrderRelocs(link.big, link.ext, orders, outs, Data, k)
    {
      assert OrderOk(orders[k], |files|, |link.hash|, link.info.relocatable);
      ghost var out := none;
      if orders[k].order.Reloc? {
        ghost var before, syms, flags := link.hash, link.emitted, link.copied;
        ok, out := RelocOrder(link, orders[k], orders, outs, old(link.trel), old(link.drel));
        SameTableTrans(link.hash, before, old(link.hash));
        ForcedTrans(old(link.emitted), old(link.copied), syms, flags, link.emitted, link.copied);
        SameKinds(link.hash, before);
        if !ok {
          return;
        }
      } else {
        SameTableRefl(link.hash);
        OneMoreOrder(link.hash, link.owners, link.hash, link.owners, orders, outs, out);
        OrdersGrow(link.big, link.ext, orders, outs, out, Text, k);
        OrdersGrow(link.big, link.ext, orders, outs, out, Data, k);
      }
      outs := outs + [out];
      k := k + 1;
    }
  }

  // ----- the finished file -----

  /** The string table as it is emitted: a size word and the strings. */
  function StrtabBytes(big: bool, tab: Strtab, symbols: nat): seq<Byte> {
    if symbols > 0 then Put(big, Word(|tab.bytes| + 4), 4) + tab.bytes else Fill(0, 4)
  }

  /** Output symbol `p` is in the file at its position, and its string index leads to its name. */
  predicate SymbolInFile(file: seq<Byte>, big: bool, symStart: nat, strStart: nat, tab: Strtab, syms: seq<OutSym>, p: nat)
    requires p < |syms| && HasString(tab, syms[p].name)
  {
    && At(file, symStart + EXTERNAL_NLIST_SIZE * p, NlistBytes(big, StrxOf(tab, syms[p].name), syms[p]))
    && (syms[p].name != [] ==> At(file, strStart + StrxOf(tab, syms[p].name), syms[p].name + [0]))
    && EntryReads(file, big, symStart + EXTERNAL_NLIST_SIZE * p, StrxOf(tab, syms[p].name), syms[p])
  }

  /** A reader finds type, description and value there, cut to the width of their fields. */
  predicate EntryReads(file: seq<Byte>, big: bool, at: nat, strx: nat, s: OutSym) {
    && at + EXTERNAL_NLIST_SIZE <= |file|
    && ReadNlist(big, file[at..at + EXTERNAL_NLIST_SIZE]) == (strx % TWO32, OutSym([], s.typ, s.other, s.desc % TWO16, s.value % TWO32))
  }

  lemma Reads(file: seq<Byte>, big: bool, at: nat, strx: nat, s: OutSym)
    requires At(file, at, NlistBytes(big, strx, s))
    ensures EntryReads(file, big, at, strx, s)
  {
    hide NlistBytes, ReadNlist;
    NlistReadsBack(big, strx, s);
  }

  lemma SymbolIsInFile(file: seq<Byte>, big: bool, symStart: nat, strStart: nat, tab: Strtab, syms: seq<OutSym>, p: nat)
    requires p < |syms| && AllNamed(tab, syms) && TabOk(tab)
    requires At(file, symStart, SymTable(big, tab, syms)) && At(file, strStart, StrtabBytes(big, tab, |syms|))
    ensures SymbolInFile(file, big, symStart, strStart, tab, syms, p)
  {
    hide SymTable, NlistBytes, At, Put, ReadNlist;
    var entry, name := NlistBytes(big, StrxOf(tab, syms[p].name), syms[p]), syms[p].name;
    EntryAt(big, tab, syms, p);
    AtWithin(file, symStart, SymTable(big, tab, syms), EXTERNAL_NLIST_SIZE * p, entry);
    Reads(file, big, symStart + EXTERNAL_NLIST_SIZE * p, StrxOf(tab, name), syms[p]);
    if name != [] {
      AtRest(file, strStart, Put(big, Word(|tab.bytes| + 4), 4), tab.bytes, strStart + 4);
      AtWithin(file, strStart + 4, tab.bytes, tab.index[name] - 4, name + [0]);
    }
  }

  /** The word at `at`; the size of a string table counts itself, and is zero if there are no symbols. */
  predicate SizeWord(file: seq<Byte>, big: bool, at: nat, size: nat) {
    at + 4 <= |file| && Get(big, file[at..at + 4]) == Word(size)
  }

  lemma ZeroWord(big: bool)
    ensures Get(big, Fill(0, 4)) == 0 == Word(0)
  {
    assert Put(big, 0, 4) == Fill(0, 4) by {
      assert ByteOf(0, 0) == ByteOf(0, 1) == ByteOf(0, 2) == ByteOf(0, 3) == 0;
    }
    GetPut(big, 0, 4);
  }

  lemma SizeIsInFile(file: seq<Byte>, big: bool, strStart: nat, tab: Strtab, symbols: nat)
    requires At(file, strStart, StrtabBytes(big, tab, symbols))
    ensures SizeWord(file, big, strStart, if symbols == 0 then 0 else |tab.bytes| + 4)
  {
    hide Put, Get, Word;
    var bytes := StrtabBytes(big, tab, symbols);
    assert file[strStart..strStart + 4] == file[strStart..strStart + |bytes|][..4] == bytes[..4];
    if symbols == 0 {
      ZeroWord(big);
    } else {
      assert bytes[..4] == Put(big, Word(|tab.bytes| + 4), 4);
      GetPut(big, Word(|tab.bytes| + 4), 4);
      Pow256Values();
    }
  }

  /** Everything the file holds once the link has finished. */
  ghost predicate Written(link: FinalLink)
    requires link.Inv()
    reads link
  {
    var strStart := link.symStart + EXTERNAL_NLIST_SIZE * link.symCount;
    && At(link.file, strStart, StrtabBytes(link.big, link.strtab, link.symCount))
    && SizeWord(link.file, link.big, strStart, if link.symCount == 0 then 0 else |link.strtab.bytes| + 4)
    && forall p :: 0 <= p < |link.emitted| ==>
         SymbolInFile(link.file, link.big, link.symStart, strStart, link.strtab, link.emitted, p)
  }

  /** The tail of final_link: the string table goes after the last symbol. */
  method Finish(link: FinalLink)
    requires link.Inv()
    modifies link`file
    ensures link.Inv() && Written(link)
  {
    hide Numbered, Accounted, Labelled, SymTable, LinksInside, TabOk, WriteAt, StrtabBytes, SymbolInFile, NlistBytes, SizeWord;
    ghost var table := SymTable(link.big, link.strtab, link.emitted);
    var strStart := link.symStart + EXTERNAL_NLIST_SIZE * link.symCount;
    var bytes := StrtabBytes(link.big, link.strtab, link.symCount);
    WriteKeeps(link.file, strStart, bytes, link.trelStart, link.trel);
    WriteKeeps(link.file, strStart, bytes, link.drelStart, link.drel);
    WriteKeeps(link.file, strStart, bytes, link.symStart, table);
    Emitted(link.big, link.strtab, link.symCount);
    WriteExtends(link.file, strStart, bytes, strStart, []);
    assert [] + bytes == bytes;
    link.file := WriteAt(link.file, strStart, bytes);
    SizeIsInFile(link.file, link.big, strStart, link.strtab, link.symCount);
    forall p | 0 <= p < |link.emitted|
      ensures SymbolInFile(link.file, link.big, link.symStart, strStart, link.strtab, link.emitted, p)
    {
      SymbolIsInFile(link.file, link.big, link.symStart, strStart, link.strtab, link.emitted, p);
    }
  }

  lemma Emitted(big: bool, tab: Strtab, symbols: nat)
    ensures StrtabBytes(big, tab, symbols) != []
  {
  }

  /** The state when the hash traversal starts: the table, and the number of symbols written so far. */
  datatype Rest = Rest(hash: seq<HashEntry>, count: nat)

  /** From there on the traversal wrote what each entry called for, nothing that should be stripped, and after it
      only reloc orders added symbols. */
  ghost predicate RestDone(info: Info, hash: seq<HashEntry>, owners: Owners, emitted: seq<OutSym>, copied: seq<bool>, rest: Rest) {
    && LinksInside(rest.hash) && SameTable(hash, rest.hash)
    && (var t := Traverse(info, rest.hash, |rest.hash|, rest.count);
        StandsAt(emitted, rest.count, t.syms) && StandsAt(owners, rest.count, t.owners) && Unstripped(info, rest.hash, t.owners))
    && forall p :: rest.count <= p < |copied| ==> !copied[p]
  }

  /** The finished link: every file an order mentions was linked once, in order of first mention, every reloc
      order led to its reloc, and the two reloc areas hold these relocs and nothing else.  Every output symbol is
      part of a file, or the own symbol of the entry it stands for; headers are as well nested as in the files. */
  ghost predicate Complete(link: FinalLink, files: seq<InFile>, orders: seq<Placed>, dones: seq<Done>, outs: seq<Rel>, rest: Rest)
    reads link
  {
    var used := FirstUses(orders, |orders|);
    && FilesDone(link.info, link.ext, link.hash, link.owners, link.emitted, files, orders, used, dones, link.includes)
    && FromFiles(link.info, files, used, dones, link.copied)
    && RestDone(link.info, link.hash, link.owners, link.emitted, link.copied, rest)
    && (AllNested(link.info, files) ==> Depth(link.emitted, Some(0)) == Some(0))
    && |outs| == |orders| && OrdersDone(link.hash, link.owners, orders, outs)
    && link.trel == FileRelocs(link.big, link.ext, link.info.relocatable, files, orders, used, dones, true)
                    + OrderRelocs(link.big, link.ext, orders, outs, Text, |orders|)
    && link.drel == FileRelocs(link.big, link.ext, link.info.relocatable, files, orders, used, dones, false)
                    + OrderRelocs(link.big, link.ext, orders, outs, Data, |orders|)
  }

  lemma RestStays(info: Info, hash: seq<HashEntry>, owners: Owners, emitted: seq<OutSym>, copied: seq<bool>, rest: Rest,
                  hash': seq<HashEntry>, owners': Owners, emitted': seq<OutSym>, copied': seq<bool>)
    requires RestDone(info, hash, owners, emitted, copied, rest) && SameTable(hash', hash) && owners <= owners'
    requires Forced(emitted, copied, emitted', copied')
    ensures RestDone(info, hash', owners', emitted', copied', rest)
  {
    hide SameTable, Traverse, Depth, LinksInside;
    SameTableTrans(hash', hash, rest.hash);
  }

  /** The traversal itself. */
  method Leftovers(link: FinalLink) returns (ok: bool, ghost rest: Rest)
    requires link.Inv()
    modifies link`hash, link`strtab, link`symCount, link`symoff, link`file, link`owners, link`emitted, link`copied
    ensures link.Inv() && SameTable(link.hash, old(link.hash)) && old(link.owners) <= link.owners
    ensures Forced(old(link.emitted), old(link.copied), link.emitted, link.copied)
    ensures ok ==> RestDone(link.info, link.hash, link.owners, link.emitted, link.copied, rest)
    ensures ok ==> LinksInside(link.hash) && forall h :: 0 <= h < |link.hash| ==> Settled(link.hash, h)
  {
    hide Numbered, Accounted, Labelled, SymTable, TabOk, AllNamed, Area, SameTable, Traverse, Settled, Depth, LinksInside, Unstripped;
    rest := Rest(link.hash, link.symCount);
    ok := link.WriteRest();
    if ok {
      TraverseStrips(link.info, rest.hash, |rest.hash|, rest.count);
    }
  }

  /** Every entry that stands for something and may not be stripped has been numbered. */
  ghost predicate AllNumbered(info: Info, hash: seq<HashEntry>) {
    forall h :: 0 <= h < |hash| && Nameable(hash[h]) && !MayStrip(info, hash[h]) ==> hash[h].indx >= 0
  }

  lemma DecidedIsNumbered(info: Info, hash: seq<HashEntry>)
    requires LinksInside(hash) && Accounted(info, hash) && forall h :: 0 <= h < |hash| ==> Decided(hash, h)
    ensures AllNumbered(info, hash)
  {
    forall h | 0 <= h < |hash| && Nameable(hash[h]) && !MayStrip(info, hash[h]) ensures hash[h].indx >= 0 {
      assert Decided(hash, h);
    }
  }

  lemma SettledIsDecided(hash: seq<HashEntry>)
    requires LinksInside(hash) && forall h :: 0 <= h < |hash| ==> Settled(hash, h)
    ensures forall h :: 0 <= h < |hash| ==> Decided(hash, h)
  {
  }

  /** After the traversal and whatever reloc orders force out, all entries are numbered that should be. */
  lemma NumberedAtLast(link: FinalLink, before: seq<HashEntry>)
    requires link.Inv() && KeepsDecided(before, link.hash) && forall h :: 0 <= h < |before| ==> Settled(before, h)
    ensures AllNumbered(link.info, link.hash)
  {
    hide Decided, Settled, Accounted, AllNumbered, Numbered;
    SettledIsDecided(before);
    DecidedIsNumbered(link.info, link.hash);
  }

  /** The symbol at the number of entry `h`: it has the name of the entry, and unless it was copied from a file it
      is the entry's own symbol, which a reader takes for what the entry is exactly when a.out can express it. */
  ghost predicate SymbolOf(link: FinalLink, h: nat)
    reads link
  {
    && h < |link.hash| && 0 <= link.hash[h].indx < |link.emitted| == |link.copied|
    && var sym := link.emitted[link.hash[h].indx];
    && (link.hash[h].kind != Warning ==> sym.name == link.hash[h].name)
    && (!link.copied[link.hash[h].indx] ==>
          && Nameable(link.hash[h]) && sym == EntrySym(link.hash[h])
          && (ReadGlobal(sym.typ, sym.value) == EntryMeans(link.hash[h]) <==> Expressible(link.hash[h])))
  }

  /** The whole run.  At the end every entry with an index has exactly one output symbol, at that index, and every
      entry that stands for something and may not be stripped has one; the symbols and their names are in the
      file; and the reloc areas hold exactly the relocs of files and orders, within the space counted for them. */
  method Link(info: Info, big: bool, ext: bool, hash: seq<HashEntry>, files: seq<InFile>, orders: seq<Placed>,
              dataEnd: nat, dynamic: Option<nat>) returns (ok: bool, link: FinalLink, ghost dones: seq<Done>, ghost outs: seq<Rel>, ghost rest: Rest)
    requires LinksInside(hash) && Unwritten(hash) && InputsOk(ext, files, orders, |hash|, info.relocatable)
    requires dynamic.Some? ==> dynamic.value < |hash|
    ensures fresh(link) && link.Inv() && SameTable(link.hash, hash)
    ensures link.info == info && link.big == big && link.ext == ext && link.trelStart == dataEnd
    ensures forall h :: 0 <= h < |hash| ==>
              Positions(link.owners, h) == if link.hash[h].indx >= 0 then {link.hash[h].indx} else {}
    ensures forall h :: 0 <= h < |hash| && link.hash[h].indx >= 0 ==> SymbolOf(link, h)
    ensures link.treloff <= link.drelStart && link.dreloff <= link.symStart
    ensures ok ==> Complete(link, files, orders, dones, outs, rest) && Written(link) && AllNumbered(link.info, link.hash)
  {
    hide SameTable, LinksInside, Numbered, SymTable, TabOk, AllNamed, FilesNeed, OrdersNeed, InputsOk, Unwritten, Area, Written,
         Positions, Complete, AllNumbered, Accounted, Labelled;
    var trsize, drsize := 0, 0;
    if info.relocatable {
      trsize := CountRelocs(ext, files, orders, true);
      drsize := CountRelocs(ext, files, orders, false);
    }
    link := new FinalLink(info, big, ext, hash, dataEnd, trsize, drsize);
    ok, dones, outs, rest := Steps(link, files, orders, dynamic);
    SameKinds(link.hash, hash);
    forall h | 0 <= h < |hash| && link.hash[h].indx >= 0 ensures SymbolOf(link, h) {
      NumberLeadsToName(link.hash, link.owners, link.emitted, link.copied, h);
      if Nameable(link.hash[h]) {
        EntryReadsBack(link.hash[h]);
      }
    }
    forall h | 0 <= h < |hash|
      ensures Positions(link.owners, h) == if link.hash[h].indx >= 0 then {link.hash[h].indx} else {}
    {
      NumberedIsExact(link.hash, link.owners, h);
    }
  }

  lemma NothingLinked(link: FinalLink, files: seq<InFile>, orders: seq<Placed>)
    requires link.trel == [] && link.drel == [] && link.includes == map[]
    requires (forall p :: 0 <= p < |link.copied| ==> !link.copied[p]) && Depth(link.emitted, Some(0)) == Some(0)
    ensures Linked(link, files, orders, [], [])
  {
  }

  /** __DYNAMIC first, then the link orders, the remaining symbols, the reloc orders and the string table. */
  method Steps(link: FinalLink, files: seq<InFile>, orders: seq<Placed>, dynamic: Option<nat>)
    returns (ok: bool, ghost dones: seq<Done>, ghost outs: seq<Rel>, ghost rest: Rest)
    requires link.Inv() && InputsOk(link.ext, files, orders, |link.hash|, link.info.relocatable)
    requires dynamic.Some? ==> dynamic.value < |link.hash|
    requires Room(link, files, seq(|files|, _ => false), orders, 0)
    requires link.trel == [] && link.drel == [] && link.includes == map[] && link.emitted == [] && link.copied == []
    modifies link
    ensures link.Inv() && SameTable(link.hash, old(link.hash))
    ensures ok ==> Complete(link, files, orders, dones, outs, rest) && Written(link) && AllNumbered(link.info, link.hash)
  {
    hide SameTable, FilesNeed, OrdersNeed, InputsOk, Written, FinalLink.Inv, HashAfter, Wanted, FilesDone, OrdersDone, FileRelocs,
         OrderRelocs, Settled, LinksInside, KeepsDecided, AllNumbered, Forced, FromFiles, RestDone, AllNested;
    ok, dones, outs, rest := true, [], [], Rest([], 0);
    SameTableRefl(link.hash);
    ForcedNone(link.emitted, link.copied);
    if dynamic.Some? {
      ok := link.WriteOther(dynamic.value);
      if !ok {
        return;
      }
      SameKinds(link.hash, old(link.hash));
    }
    ghost var hash0, begun := link.hash, [];
    NothingCopied(link.emitted, link.copied);
    NothingLinked(link, files, orders);
    ok, begun, dones := LinkOrders(link, files, orders);
    SameTableTrans(link.hash, hash0, old(link.hash));
    if !ok {
      return;
    }
    ghost var used, seen := FirstUses(orders, |orders|), link.includes;
    ghost var hash1, owners1, emitted1, copied1 := link.hash, link.owners, link.emitted, link.copied;
    ok, rest := Leftovers(link);
    SameTableTrans(link.hash, hash1, old(link.hash));
    if !ok {
      return;
    }
    FromFilesForced(link.info, files, used, dones, emitted1, copied1, link.emitted, link.copied);
    FilesStayDone(link.info, link.ext, hash1, owners1, emitted1, link.hash, link.owners, link.emitted, files, orders, used, dones, seen);
    ghost var hash2, owners2, emitted2, copied2 := link.hash, link.owners, link.emitted, link.copied;
    SameKinds(link.hash, old(link.hash));
    ok, outs := RelocOrders(link, files, begun, orders);
    SameTableTrans(link.hash, hash2, old(link.hash));
    if !ok {
      return;
    }
    NumberedAtLast(link, hash2);
    FromFilesForced(link.info, files, used, dones, emitted2, copied2, link.emitted, link.copied);
    FilesStayDone(link.info, link.ext, hash2, owners2, emitted2, link.hash, link.owners, link.emitted, files, orders, used, dones, seen);
    RestStays(link.info, hash2, owners2, emitted2, copied2, rest, link.hash, link.owners, link.emitted, link.copied);
    Finish(link);
  }

  lemma NothingCopied(syms: seq<OutSym>, copied: seq<bool>)
    requires Forced([], [], syms, copied)
    ensures (forall p :: 0 <= p < |copied| ==> !copied[p]) && Depth(syms, Some(0)) == Some(0)
  {
    assert Depth([], Some(0)) == Some(0);
  }

  /** Not every reloc order gets a number: an entry that was named and never defined or referred to (a set that is
      not being built) stands for nothing, and a reloc against it is written with a negative one. */
  method StrandedReloc() returns (r: int)
    ensures r < 0
  {
    var entry := HashEntry([115], New, Abs, 0, 0, 0, false, -1);
    var link := new FinalLink(Info(StripNone, {}, DiscardNone, {}, true, true), true, true, [entry], 32, 12, 0);
    assert link.hash[0] == entry;
    var ok;
    ok, r := link.RelocIndex(-1, Some(0));
  }
}
