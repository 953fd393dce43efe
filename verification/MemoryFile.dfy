/** The in-memory file of bfdio.c: a growing buffer with spare capacity that behaves like a plain byte sequence. */
module MemoryFile {
  import opened ByteSeq

  // ----- a plain file -----

  /** Bytes and a position. */
  datatype Plain = Plain(bytes: seq<Byte>, where_: nat)

  /** `data` over the bytes from `at` on. */
  function Overwritten(bytes: seq<Byte>, at: nat, data: seq<Byte>): (r: seq<Byte>)
    requires at <= |bytes|
    ensures |r| == if at + |data| > |bytes| then at + |data| else |bytes|
  {
    bytes[..at] + data + (if at + |data| < |bytes| then bytes[at + |data|..] else [])
  }

  function Extended(bytes: seq<Byte>, n: nat): (r: seq<Byte>)
    ensures |r| == if n > |bytes| then n else |bytes|
  {
    if n > |bytes| then bytes + Fill(0, n - |bytes|) else bytes
  }

  datatype Op = Read(n: nat) | Write(data: seq<Byte>) | Seek(position: int, set_: bool)

  function SeekTarget(s: Plain, position: int, set_: bool): int {
    if set_ then position else s.where_ + position
  }

  /** A seek past the end opens a gap of zeros in write mode and fails otherwise; one before the start fails
      and leaves the position at the start. */
  function Step(s: Plain, writable: bool, op: Op): (r: Plain)
    requires s.where_ <= |s.bytes|
    ensures r.where_ <= |r.bytes|
  {
    match op
    case Read(n) => s.(where_ := if s.where_ + n > |s.bytes| then |s.bytes| else s.where_ + n)
    case Write(data) => Plain(Overwritten(s.bytes, s.where_, data), s.where_ + |data|)
    case Seek(position, set_) =>
      var to := SeekTarget(s, position, set_);
      if to < 0 then s.(where_ := 0)
      else if to <= |s.bytes| then s.(where_ := to)
      else if writable then Plain(Extended(s.bytes, to), to)
      else s.(where_ := |s.bytes|)
  }

  function Run(s: Plain, writable: bool, ops: seq<Op>): (r: Plain)
    requires s.where_ <= |s.bytes|
    ensures r.where_ <= |r.bytes|
  {
    if ops == [] then s else Step(Run(s, writable, ops[..|ops| - 1]), writable, ops[|ops| - 1])
  }

  // ----- what a run leaves at a position -----

  /** Write `op`, if it is one, made at `at`, covers position `p`. */
  predicate Covers(op: Op, at: nat, p: nat) {
    op.Write? && at <= p < at + |op.data|
  }

  /** The byte the last write over `p` put there, zero if there was none. */
  function LastWritten(ops: seq<Op>, p: nat): Byte {
    if ops == [] then 0
    else
      var before := Run(Plain([], 0), true, ops[..|ops| - 1]).where_;
      var op := ops[|ops| - 1];
      if Covers(op, before, p) then op.data[p - before] else LastWritten(ops[..|ops| - 1], p)
  }

  /** A file written from scratch holds at each position what was last written there; gaps are zero. */
  lemma {:induction false} RunHoldsLast(ops: seq<Op>, p: nat)
    requires p < |Run(Plain([], 0), true, ops).bytes|
    ensures Run(Plain([], 0), true, ops).bytes[p] == LastWritten(ops, p)
  {
    var front := ops[..|ops| - 1];
    var s := Run(Plain([], 0), true, front);
    if p < |s.bytes| {
      RunHoldsLast(front, p);
    } else {
      NothingBeyond(front, p);
    }
  }

  lemma {:induction false} NothingBeyond(ops: seq<Op>, p: nat)
    requires p >= |Run(Plain([], 0), true, ops).bytes|
    ensures LastWritten(ops, p) == 0
  {
    if ops != [] {
      NothingBeyond(ops[..|ops| - 1], p);
    }
  }

  // ----- the buffer -----

  /** (n + 127) & ~127 */
  function RoundUp128(n: nat): (r: nat)
    ensures n <= r < n + 128 && r % 128 == 0
  {
    (n + 127) / 128 * 128
  }

  lemma RoundUpMonotone(m: nat, n: nat)
    requires m <= n
    ensures RoundUp128(m) <= RoundUp128(n)
  {
  }

  /** Before the position the old bytes, then the data, then what was there. */
  lemma CopiedOver(was: seq<Byte>, at: nat, data: seq<Byte>, now: seq<Byte>)
    requires at <= |was| && |now| == |Overwritten(was, at, data)|
    requires forall i :: 0 <= i < |now| ==> now[i] == if at <= i < at + |data| then data[i - at] else was[i]
    ensures now == Overwritten(was, at, data)
  {
  }

  class Memory {
    /** write_direction or both_direction. */
    var writable: bool
    var buffer: array<Byte>
    var size: nat
    var where_: nat

    ghost predicate Valid()
      reads this, buffer
    {
      && buffer.Length == RoundUp128(size) && where_ <= size
      && forall i :: size <= i < buffer.Length ==> buffer[i] == 0
    }

    ghost function Abstract(): Plain
      requires Valid()
      reads this, buffer
    {
      Plain(buffer[..size], where_)
    }

    constructor (writable: bool)
      ensures Valid() && this.writable == writable && Abstract() == Plain([], 0)
    {
      this.writable, size, where_ := writable, 0, 0;
      buffer := new Byte[0];
    }

    /** bfd_make_readable: what was written can now be read from the start, and no longer grows. */
    method MakeReadable()
      requires Valid() && writable
      modifies this`writable, this`where_
      ensures Valid() && !writable && Abstract() == Plain(old(Abstract()).bytes, 0)
    {
      writable, where_ := false, 0;
    }

    /** bfd_realloc: the old bytes are kept, the new ones are whatever they are. */
    method Realloc(n: nat)
      requires n >= buffer.Length
      modifies this`buffer
      ensures fresh(buffer) && buffer.Length == n && buffer[..old(buffer.Length)] == old(buffer[..])
    {
      var bigger := new Byte[n];
      forall i | 0 <= i < buffer.Length {
        bigger[i] := buffer[i];
      }
      buffer := bigger;
    }

    method Clear(from: nat)
      requires from <= buffer.Length
      modifies buffer
      ensures buffer[..from] == old(buffer[..from])
      ensures forall i :: from <= i < buffer.Length ==> buffer[i] == 0
    {
      forall i | from <= i < buffer.Length {
        buffer[i] := 0;
      }
    }

    /** bfd_bread on memory_bread: the read may come up short. */
    method BRead(n: nat) returns (data: seq<Byte>, truncated: bool)
      requires Valid()
      modifies this`where_
      ensures Valid() && Abstract() == Step(old(Abstract()), writable, Read(n))
      ensures data == buffer[old(where_)..where_] && buffer[..] == old(buffer[..]) && size == old(size)
      ensures truncated <==> |data| < n
    {
      var get := n;
      truncated := false;
      if where_ + get > size {
        get := size - where_;
        truncated := true;
      }
      data := buffer[where_..where_ + get];
      where_ := where_ + get;
    }

    /** Room for a write that goes past the end: what it will cover is left as it is. */
    method Enlarge(n: nat)
      requires Valid() && n > size
      modifies this`size, this`buffer, buffer
      ensures size == n && buffer.Length == RoundUp128(n) && (buffer == old(buffer) || fresh(buffer))
      ensures forall i :: 0 <= i < old(size) ==> buffer[i] == old(buffer[i])
      ensures forall i :: n <= i < buffer.Length ==> buffer[i] == 0
    {
      hide RoundUp128;
      RoundUpMonotone(size, n);
      ghost var was := buffer[..size];
      var oldsize := RoundUp128(size);
      size := n;
      var newsize := RoundUp128(size);
      if newsize > oldsize {
        Realloc(newsize);
        assert buffer[..|was|] == was;
        ghost var kept := buffer[..size];
        Clear(size);
        assert buffer[..|was|] == kept[..|was|];
      }
    }

    /** bfd_bwrite on memory_bwrite. */
    method BWrite(data: seq<Byte>)
      requires Valid()
      modifies this`buffer, this`size, this`where_, buffer
      ensures Valid() && Abstract() == Step(old(Abstract()), writable, Write(data))
      ensures buffer == old(buffer) || fresh(buffer)
    {
      hide RoundUp128, Overwritten;
      ghost var was := buffer[..size];
      if where_ + |data| > size {
        Enlarge(where_ + |data|);
      }
      assert forall i :: 0 <= i < |was| ==> buffer[i] == was[i];
      Copy(data);
      CopiedOver(was, where_, data, buffer[..size]);
      where_ := where_ + |data|;
    }

    /** memcpy to the current position. */
    method Copy(data: seq<Byte>)
      requires where_ + |data| <= size <= buffer.Length
      modifies buffer
      ensures forall i :: 0 <= i < buffer.Length ==> buffer[i] == if where_ <= i < where_ + |data| then data[i - where_] else old(buffer[i])
    {
      forall i | 0 <= i < |data| {
        buffer[where_ + i] := data[i];
      }
    }

    /** bfd_seek on memory_bseek. */
    method BSeek(position: int, set_: bool) returns (ok: bool)
      requires Valid()
      modifies this`buffer, this`size, this`where_, buffer
      ensures Valid() && Abstract() == Step(old(Abstract()), writable, Seek(position, set_))
      ensures var to := SeekTarget(old(Abstract()), position, set_);
              ok <==> 0 <= to && (writable || to <= |old(Abstract()).bytes|)
      ensures buffer == old(buffer) || fresh(buffer)
    {
      hide RoundUp128;
      ghost var was, before := buffer[..size], size;
      ok := true;
      if (!set_ && position == 0) || (set_ && position == where_) {
        return;
      }
      var to := if set_ then position else where_ + position;
      if to < 0 {
        where_ := 0;
        return false;
      }
      if to > size {
        if writable {
          var oldsize := RoundUp128(size);
          size := to;
          var newsize := RoundUp128(size);
          RoundUpMonotone(before, size);
          if newsize > oldsize {
            Realloc(newsize);
            Clear(oldsize);
          }
          assert buffer[..size] == Extended(was, to);
        } else {
          where_ := size;
          return false;
        }
      }
      where_ := to;
    }
  }

  /** Any run of operations refines the plain file. */
  method Perform(m: Memory, ops: seq<Op>)
    requires m.Valid()
    modifies m`buffer, m`size, m`where_, m.buffer
    ensures m.Valid() && m.Abstract() == Run(old(m.Abstract()), m.writable, ops)
  {
    hide Step;
    var k := 0;
    ghost var start := m.Abstract();
    while k < |ops|
      invariant 0 <= k <= |ops| && m.Valid() && m.Abstract() == Run(start, m.writable, ops[..k])
      invariant m.buffer == old(m.buffer) || fresh(m.buffer)
    {
      assert ops[..k + 1][..k] == ops[..k];
      match ops[k] {
        case Read(n) =>
          var data, truncated := m.BRead(n);
        case Write(data) =>
          m.BWrite(data);
        case Seek(position, set_) =>
          var ok := m.BSeek(position, set_);
      }
      k := k + 1;
    }
    assert ops[..k] == ops;
  }
}
