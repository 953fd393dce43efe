/** Overflow checks of two branch relocs: the C30 16-bit pc-relative field and the ARM 26-bit branch.  A bfd_vma
    is a number below 2^64; masks and shifts are written as remainders and quotients. */
module RelocOverflow {
  import opened ByteSeq

  datatype Status = RelocOk | RelocOverflow | RelocOutOfRange | RelocUndefined

  /** A bfd_vma read as a bfd_signed_vma. */
  function Signed(u: nat): int
    requires u < TWO64
  {
    if u < TWO63 then u else u - TWO64
  }

  // ----- C30 -----

  const TWO15 := 0x8000

  /** A 16-bit field, sign-extended. */
  function Field16(x: nat): int
    requires x < TWO16
  {
    if x < TWO15 then x else x - TWO16
  }

  /** signed_check: the relocation shifted right by two with the sign kept, plus the sign-extended field. */
  function SignedCheck(u: nat, x: nat): int
    requires u < TWO64 && x < TWO16
  {
    var check := u / 4;
    (if u < TWO63 then check else check + 3 * (TWO64 / 4) - TWO64) + Field16(x)
  }

  /** tic30_aout_relocate_contents for the PCREL howto: overflow, and the field it stores in any case. */
  function Tic30Overflows(u: nat, x: nat): bool
    requires u < TWO64 && x < TWO16
  {
    SignedCheck(u, x) > TWO15 - 1 || SignedCheck(u, x) < -TWO15
  }

  function Tic30Field(u: nat, x: nat): (r: nat)
    requires u < TWO64 && x < TWO16
    ensures r < TWO16
  {
    (x + u / 4) % TWO16
  }

  /** No overflow is reported exactly when a quarter of the relocation plus the old field fits into 16 signed
      bits; then the stored field is that sum. */
  lemma Tic30IsExact(u: nat, x: nat)
    requires u < TWO64 && x < TWO16
    ensures !Tic30Overflows(u, x) <==> -TWO15 <= Signed(u) / 4 + Field16(x) < TWO15
    ensures !Tic30Overflows(u, x) ==> Field16(Tic30Field(u, x)) == Signed(u) / 4 + Field16(x)
  {
    var sum := Signed(u) / 4 + Field16(x);
    Quarter(u);
    if !Tic30Overflows(u, x) {
      FieldWraps(x + u / 4, sum, if u < TWO63 then 0 else TWO64 / 4, x < TWO15);
    }
  }

  lemma Quarter(u: nat)
    requires u < TWO64
    ensures Signed(u) / 4 == if u < TWO63 then u / 4 else u / 4 - TWO64 / 4
  {
  }

  lemma FieldWraps(v: nat, sum: int, high: nat, positive: bool)
    requires -TWO15 <= sum < TWO15 && (high == 0 || high == TWO64 / 4)
    requires v == sum + high + if positive then 0 else TWO16
    ensures Field16(v % TWO16) == sum
  {
    var k := (if high == 0 then 0 else TWO64 / 4 / TWO16) + (if positive then 0 else 1);
    assert v == TWO16 * k + sum;
    if sum >= 0 {
      ModUnique(v, TWO16, k, sum);
    } else {
      ModUnique(v, TWO16, k - 1, sum + TWO16);
    }
  }

  /** tic30_aout_final_link_relocate with the PCREL howto, in place: the two bytes at `address`. */
  method Tic30FinalLink(big: bool, contents: array<Byte>, address: nat, value: int, addend: int, place: int) returns (status: Status)
    requires address <= contents.Length ==> address + 2 <= contents.Length
    modifies contents
    ensures address > contents.Length ==> status == RelocOutOfRange && contents[..] == old(contents[..])
    ensures address <= contents.Length ==>
              var distance := Signed(Wrap64(value + addend - place - address));
              var was := Get(big, old(contents[address..address + 2]));
              && was < TWO16
              && (status == RelocOk <==> -TWO15 <= distance / 4 + Field16(was) < TWO15) && (status == RelocOk || status == RelocOverflow)
              && contents[..address] == old(contents[..address]) && contents[address + 2..] == old(contents[address + 2..])
              && Get(big, contents[address..address + 2]) < TWO16
              && (status == RelocOk ==> Field16(Get(big, contents[address..address + 2])) == distance / 4 + Field16(was))
  {
    hide Get, Put, Tic30Field, Tic30Overflows, Wrap64, Signed;
    if address > contents.Length {
      return RelocOutOfRange;
    }
    var relocation := Wrap64(value + addend - place - address);
    var x := Get(big, contents[address..address + 2]);
    Width16(big, contents[address..address + 2]);
    Tic30IsExact(relocation, x);
    var bytes := Put(big, Tic30Field(relocation, x), 2);
    Stored16(big, Tic30Field(relocation, x));
    contents[address], contents[address + 1] := bytes[0], bytes[1];
    assert contents[address..address + 2] == bytes;
    status := if Tic30Overflows(relocation, x) then RelocOverflow else RelocOk;
  }

  lemma Width16(big: bool, s: seq<Byte>)
    requires |s| == 2
    ensures Get(big, s) < TWO16
  {
    TwoBytes(s);
    TwoBytes(Reverse(s));
  }

  lemma TwoBytes(s: seq<Byte>)
    requires |s| == 2
    ensures GetBig(s) < TWO16
  {
    var high: int, low: int := s[0], s[1];
    assert GetBig(s) == 256 * GetBig(s[..1]) + low;
    assert GetBig(s[..1]) == 256 * GetBig(s[..1][..0]) + high;
  }

  lemma Stored16(big: bool, v: nat)
    requires v < TWO16
    ensures Get(big, Put(big, v, 2)) == v
  {
    GetPut(big, v, 2);
    Pow256Values();
  }

  // ----- ARM -----

  const TWO24 := 0x100_0000
  const TWO25 := 0x200_0000
  const TWO26 := 0x400_0000

  /** The displacement in a branch instruction: 24 bits, times four, sign-extended. */
  function Branch(target: nat): int {
    var field := target % TWO24;
    if field < TWO24 / 2 then 4 * field else 4 * field - TWO26
  }

  /** What fix_pcrel_26 works out, and its two checks. */
  function ArmRelocation(target: nat, change: int): (r: nat)
    ensures r < TWO64
  {
    Wrap64(Branch(target) + change)
  }

  predicate ArmOverflows(u: nat) {
    if u / TWO25 % 2 == 1 then u / TWO26 != TWO64 / TWO26 - 1 else u / TWO26 != 0
  }

  function ArmTarget(target: nat, u: nat): nat {
    target / TWO24 * TWO24 + u / 4 % TWO24
  }

  /** The branch check is exact, and what is stored is the displacement; the other bits stay. */
  lemma ArmIsExact(target: nat, u: nat)
    requires u < TWO64
    ensures u % 4 == 0 ==> Signed(u) % 4 == 0
    ensures u % 4 != 0 ==> Signed(u) % 4 != 0
    ensures !ArmOverflows(u) <==> -TWO25 <= Signed(u) < TWO25
    ensures ArmTarget(target, u) / TWO24 == target / TWO24
    ensures u % 4 == 0 && !ArmOverflows(u) ==> Branch(ArmTarget(target, u)) == Signed(u)
  {
    var q := target / TWO24;
    ModUnique(ArmTarget(target, u), TWO24, q, u / 4 % TWO24);
    InRange(u);
    if u % 4 == 0 && !ArmOverflows(u) {
      StoredBranch(u);
    }
  }

  lemma InRange(u: nat)
    requires u < TWO64
    ensures !ArmOverflows(u) <==> -TWO25 <= Signed(u) < TWO25
  {
  }

  lemma StoredBranch(u: nat)
    requires u < TWO64 && u % 4 == 0 && -TWO25 <= Signed(u) < TWO25
    ensures var field := u / 4 % TWO24;
            (if field < TWO24 / 2 then 4 * field else 4 * field - TWO26) == Signed(u)
  {
    if u < TWO63 {
      ModUnique(u / 4, TWO24, 0, u / 4);
    } else {
      var k := TWO64 / 4 / TWO24 - 1;
      ModUnique(u / 4, TWO24, k, u / 4 - TWO24 * k);
    }
  }

  /** A branch reloc as fix_pcrel_26 sees it.  `change` is symbol value plus addend less the place. */
  datatype BranchFix = BranchFix(undefined: bool, weak: bool, partial: bool, sameSection: bool, change: int)

  /** Whether the fix is performed at all. */
  predicate Performed(fix: BranchFix) {
    !(fix.undefined && !fix.weak) && !(fix.partial && !fix.sameSection)
  }

  /** fix_pcrel_26 on the instruction word; `done` says that the reloc is now marked as done. */
  method FixPcrel26(target: nat, fix: BranchFix) returns (status: Status, now: nat, done: bool)
    requires target < TWO32
    ensures !Performed(fix) ==> now == target && !done
    ensures !Performed(fix) ==> status == if fix.undefined && !fix.weak && !fix.partial then RelocUndefined else RelocOk
    ensures Performed(fix) ==>
              var distance := Signed(Wrap64(Branch(target) + fix.change));
              && (status == RelocOk <==> distance % 4 == 0 && -TWO25 <= distance < TWO25)
              && (status == RelocOk || status == RelocOverflow)
              && now / TWO24 == target / TWO24 && done == (distance % 4 == 0)
              && (status == RelocOk ==> Branch(now) == distance)
              && (!done ==> now == target)
  {
    status, now, done := RelocOk, target, false;
    if fix.undefined && !fix.weak {
      return if fix.partial then RelocOk else RelocUndefined, target, false;
    }
    if !fix.sameSection && fix.partial {
      return;
    }
    var relocation := ArmRelocation(target, fix.change);
    ArmIsExact(target, relocation);
    if relocation % 4 != 0 {
      return RelocOverflow, target, false;
    }
    if ArmOverflows(relocation) {
      status := RelocOverflow;
    }
    now, done := ArmTarget(target, relocation), true;
  }
}
