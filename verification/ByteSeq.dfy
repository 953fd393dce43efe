/** Bytes, byte sequences and the fixed-width encodings BFD reads and writes. */
module ByteSeq {
  type Byte = b: int | 0 <= b < 256 witness 0

  const TWO16 := 0x1_0000
  const TWO31 := 0x8000_0000
  const TWO32 := 0x1_0000_0000
  const TWO63 := 0x8000_0000_0000_0000
  const TWO64 := 0x1_0000_0000_0000_0000

  datatype Option<+T> = None | Some(value: T)

  /** `n` copies of `b`: the model of memset. */
  function Fill(b: Byte, n: nat): (r: seq<Byte>)
    ensures |r| == n
    ensures forall i :: 0 <= i < n ==> r[i] == b
  {
    seq(n, _ => b)
  }

  /** The bytes `bs` stand at offset `p` of `file`. */
  predicate At(file: seq<Byte>, p: nat, bs: seq<Byte>) {
    p + |bs| <= |file| && file[p..p + |bs|] == bs
  }

  lemma AtSplit(file: seq<Byte>, p: nat, a: seq<Byte>, b: seq<Byte>)
    ensures At(file, p, a + b) <==> At(file, p, a) && At(file, p + |a|, b)
  {
    if p + |a| + |b| <= |file| {
      assert file[p..p + |a| + |b|] == file[p..p + |a|] + file[p + |a|..p + |a| + |b|];
      if file[p..p + |a| + |b|] == a + b {
        assert file[p..p + |a|] == (a + b)[..|a|] == a;
        assert file[p + |a|..p + |a| + |b|] == (a + b)[|a|..] == b;
      }
    }
  }

  /** The second half, at a position given by name. */
  lemma AtRest(file: seq<Byte>, p: nat, a: seq<Byte>, b: seq<Byte>, q: nat)
    requires At(file, p, a + b) && q == p + |a|
    ensures At(file, q, b)
  {
    AtSplit(file, p, a, b);
  }

  lemma AtLeft(a: seq<Byte>, b: seq<Byte>, p: nat, bs: seq<Byte>)
    requires At(a, p, bs)
    ensures At(a + b, p, bs)
  {
    assert (a + b)[p..p + |bs|] == a[p..p + |bs|];
  }

  lemma AtRight(a: seq<Byte>, b: seq<Byte>)
    ensures At(a + b, |a|, b)
  {
  }

  /** A piece of a piece. */
  lemma AtWithin(file: seq<Byte>, p: nat, bs: seq<Byte>, q: nat, cs: seq<Byte>)
    requires At(file, p, bs) && At(bs, q, cs)
    ensures At(file, p + q, cs)
  {
    forall i | 0 <= i < |cs| ensures file[p + q + i] == cs[i] {
      assert file[p..p + |bs|][q + i] == bs[q + i];
      assert bs[q..q + |cs|][i] == cs[i];
    }
  }

  /** The number of bytes before the first `b`, or the whole length when there is none (memchr, strnlen). */
  function IndexOf(s: seq<Byte>, b: Byte): (k: nat)
    ensures k <= |s|
    ensures forall i :: 0 <= i < k ==> s[i] != b
    ensures k < |s| ==> s[k] == b
  {
    IndexFrom(s, b, 0)
  }

  function IndexFrom(s: seq<Byte>, b: Byte, i: nat): (k: nat)
    requires i <= |s|
    ensures i <= k <= |s|
    ensures forall j :: i <= j < k ==> s[j] != b
    ensures k < |s| ==> s[k] == b
    decreases |s| - i
  {
    if i == |s| || s[i] == b then i else IndexFrom(s, b, i + 1)
  }

  lemma IndexOfUnique(s: seq<Byte>, b: Byte, k: nat)
    requires k <= |s| && b !in s[..k] && (k < |s| ==> s[k] == b)
    ensures IndexOf(s, b) == k
  {
    assert forall i :: 0 <= i < k ==> s[i] == s[..k][i] != b;
  }

  /** The C string that starts at the front of `s`: up to the first NUL, or the end of the buffer. */
  function CString(s: seq<Byte>): (r: seq<Byte>)
    ensures r <= s && 0 !in r
  {
    s[..IndexOf(s, 0)]
  }

  lemma CStringOf(name: seq<Byte>, rest: seq<Byte>)
    requires 0 !in name
    requires rest == [] || rest[0] == 0
    ensures CString(name + rest) == name
  {
    assert (name + rest)[..|name|] == name;
    IndexOfUnique(name + rest, 0, |name|);
  }

  function RoundUp2(n: nat): (r: nat)
    ensures r % 2 == 0 && n <= r <= n + 1
  {
    n + n % 2
  }

  lemma EvenAdd(a: nat, b: nat, c: nat)
    requires a % 2 == 0 && b % 2 == 0 && c == a + b
    ensures c % 2 == 0
  {
  }

  // ----- fixed-width integers -----

  /** A number cut to 32 bits, as an unsigned int keeps it. */
  function Wrap32(v: nat): (r: nat)
    ensures r < TWO32
    ensures v < TWO32 ==> r == v
  {
    if v < TWO32 then v else Wrap32(v - TWO32)
  }

  /** A number cut to 64 bits, as a bfd_vma keeps it. */
  function Wrap64(v: int): (r: nat)
    ensures r < TWO64
  {
    v % TWO64
  }

  lemma {:induction false} Wrap32Parity(v: nat)
    ensures Wrap32(v) % 2 == v % 2
  {
    if v >= TWO32 {
      Wrap32Parity(v - TWO32);
    }
  }

  function Pow256(n: nat): (r: nat)
    ensures r > 0
  {
    if n == 0 then 1 else 256 * Pow256(n - 1)
  }

  /** The low `n` bytes of `v`, most significant first (bfd_putb32, bfd_putb64). */
  function PutBig(v: nat, n: nat): (r: seq<Byte>)
    ensures |r| == n
  {
    seq(n, i requires 0 <= i < n => ByteOf(v, n - 1 - i))
  }

  /** Byte `k` of `v`, counted from the least significant one. */
  function ByteOf(v: nat, k: nat): Byte {
    if k == 0 then v % 256 else ByteOf(v / 256, k - 1)
  }

  function GetBig(s: seq<Byte>): nat {
    if s == [] then 0 else 256 * GetBig(s[..|s| - 1]) + s[|s| - 1]
  }

  /** Reading back a stored integer loses exactly the bytes above the field. */
  lemma {:induction false} GetPutBig(v: nat, n: nat)
    ensures GetBig(PutBig(v, n)) == v % Pow256(n)
  {
    if n > 0 {
      GetPutBig(v / 256, n - 1);
      PutBigStep(v, n);
      ModSplit(v, Pow256(n - 1));
    }
  }

  lemma PutBigStep(v: nat, n: nat)
    requires n > 0
    ensures PutBig(v, n)[..n - 1] == PutBig(v / 256, n - 1)
    ensures PutBig(v, n)[n - 1] == v % 256
  {
    assert ByteOf(v, 0) == v % 256;
    forall i | 0 <= i < n - 1 ensures PutBig(v, n)[i] == PutBig(v / 256, n - 1)[i] {
      var k := n - 2 - i;
      assert PutBig(v, n)[i] == ByteOf(v, k + 1);
      assert PutBig(v / 256, n - 1)[i] == ByteOf(v / 256, k);
    }
  }

  lemma ModSplit(v: nat, m: nat)
    requires m > 0
    ensures v % (256 * m) == 256 * (v / 256 % m) + v % 256
  {
    var q, r := v / 256 / m, v / 256 % m;
    var w := 256 * r + v % 256;
    assert v / 256 == q * m + r;
    assert v == 256 * (v / 256) + v % 256;
    assert v == (256 * m) * q + w;
    assert w < 256 * m by { assert r <= m - 1; }
    ModUnique(v, 256 * m, q, w);
  }

  lemma ModUnique(v: int, d: int, q: int, w: int)
    requires d > 0 && v == d * q + w && 0 <= w < d
    ensures v % d == w && v / d == q
  {
    var k := q - v / d;
    assert d * k == v % d - w by {
      assert v == d * (v / d) + v % d;
      assert d * (q - v / d) == d * q - d * (v / d);
    }
    MulSign(d, k);
  }

  lemma MulSign(d: int, k: int)
    requires d >= 0
    ensures k >= 1 ==> d * k >= d
    ensures k <= -1 ==> d * k <= -d
  {
    if k >= 1 {
      assert d * k == d + d * (k - 1);
    } else if k <= -1 {
      assert d * k == -d + d * (k + 1);
    }
  }

  /** Target-order storage: H_PUT_32 and friends follow the byte order of the target. */
  function Put(big: bool, v: nat, n: nat): (r: seq<Byte>)
    ensures |r| == n
  {
    if big then PutBig(v, n) else Reverse(PutBig(v, n))
  }

  function Get(big: bool, s: seq<Byte>): nat {
    if big then GetBig(s) else GetBig(Reverse(s))
  }

  function Reverse(s: seq<Byte>): (r: seq<Byte>)
    ensures |r| == |s|
    ensures forall i :: 0 <= i < |s| ==> r[i] == s[|s| - 1 - i]
  {
    seq(|s|, i requires 0 <= i < |s| => s[|s| - 1 - i])
  }

  lemma GetPut(big: bool, v: nat, n: nat)
    ensures Get(big, Put(big, v, n)) == v % Pow256(n)
  {
    GetPutBig(v, n);
    assert Reverse(Reverse(PutBig(v, n))) == PutBig(v, n);
  }

  lemma Pow256Values()
    ensures Pow256(1) == 256 && Pow256(2) == TWO16 && Pow256(3) == 0x100_0000
    ensures Pow256(4) == TWO32 && Pow256(8) == TWO64
  {
    assert Pow256(1) == 256 * Pow256(0);
    assert Pow256(2) == 256 * Pow256(1);
    assert Pow256(3) == 256 * Pow256(2);
    assert Pow256(4) == 256 * Pow256(3);
    assert Pow256(5) == 256 * Pow256(4);
    assert Pow256(6) == 256 * Pow256(5);
    assert Pow256(7) == 256 * Pow256(6);
    assert Pow256(8) == 256 * Pow256(7);
  }
}
