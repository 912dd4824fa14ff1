/** The end-around-carry checksum, as the reference loop in the comments of
    apps/test/checksumbench_asm.s defines it, and its arithmetic. */
module EndAroundCarry {
  import opened MachineInts
  import opened Permutations

  /** One round of the reference loop: add, then fold the carry back in. */
  function Fold(chk: Byte, b: Byte): Byte {
    var sum := chk + b;
    sum % 0x100 + sum / 0x100
  }

  function ChecksumFrom(chk: Byte, data: seq<Byte>): Byte
    decreases |data|
  {
    if data == [] then chk else ChecksumFrom(Fold(chk, data[0]), data[1..])
  }

  function Checksum(data: seq<Byte>): Byte { ChecksumFrom(0, data) }

  function Sum(data: seq<Byte>): nat {
    if data == [] then 0 else data[0] + Sum(data[1..])
  }

  /** The representative of a byte sum: 0 only for 0, otherwise in 1..255 and congruent mod 255. */
  function Residue(sum: nat): (r: Byte)
    ensures r == 0 <==> sum == 0
    ensures r % 255 == sum % 255
  {
    if sum == 0 then 0 else 1 + (sum - 1) % 255
  }

  /** The loop of the reference algorithm. */
  method Compute(data: seq<Byte>) returns (chk: Byte)
    ensures chk == Residue(Sum(data))
  {
    hide Residue, Sum, ChecksumFrom;
    chk := 0;
    ClosedForm(0, data);
    assert data[0..] == data;
    var i := 0;
    while i < |data|
      invariant 0 <= i <= |data|
      invariant ChecksumFrom(chk, data[i..]) == Residue(0 + Sum(data))
    {
      assert data[i..][1..] == data[i + 1..];
      OneRound(chk, data[i..]);
      var sum := chk + data[i];
      chk := sum % 0x100 + sum / 0x100;
      i := i + 1;
    }
    assert data[i..] == [];
    NoRound(chk);
  }

  lemma OneRound(chk: Byte, data: seq<Byte>)
    requires data != []
    ensures ChecksumFrom(chk, data) == ChecksumFrom(Fold(chk, data[0]), data[1..])
  {
    hide Fold;
  }

  lemma NoRound(chk: Byte)
    ensures ChecksumFrom(chk, []) == chk
  {
  }

  lemma {:induction false} ClosedForm(chk: Byte, data: seq<Byte>)
    ensures ChecksumFrom(chk, data) == Residue(chk + Sum(data))
    decreases |data|
  {
    hide Residue, Fold;
    if data == [] {
      ResidueOfByte(chk);
    } else {
      ClosedForm(Fold(chk, data[0]), data[1..]);
      ResidueOfFold(chk, data[0], Sum(data[1..]));
    }
  }

  lemma ResidueOfFold(chk: Byte, b: Byte, rest: nat)
    ensures Residue(Fold(chk, b) + rest) == Residue(chk + b + rest)
  {
    hide Residue;
    if chk + b >= 0x100 {
      assert Fold(chk, b) == chk + b - 255;
      ResidueOfShift(chk + b - 255 + rest, 1);
    }
  }

  lemma {:induction false} SumConcat(a: seq<Byte>, b: seq<Byte>)
    ensures Sum(a + b) == Sum(a) + Sum(b)
  {
    if a == [] {
      assert a + b == b;
    } else {
      SumConcat(a[1..], b);
      assert (a + b)[1..] == a[1..] + b;
    }
  }

  lemma SumCons(x: Byte, t: seq<Byte>)
    ensures Sum([x] + t) == x + Sum(t)
  {
    assert ([x] + t)[1..] == t;
  }

  lemma RemoveAt(b: seq<Byte>, k: nat)
    requires k < |b|
    ensures Sum(b) == b[k] + Sum(b[..k] + b[k + 1..])
  {
    hide Sum;
    assert b == b[..k] + ([b[k]] + b[k + 1..]);
    SumConcat(b[..k], b[k + 1..]);
    SumConcat(b[..k], [b[k]] + b[k + 1..]);
    SumCons(b[k], b[k + 1..]);
  }

  lemma FirstOne(a: seq<Byte>)
    requires a != []
    ensures Sum(a) == a[0] + Sum(a[1..]) && multiset(a[1..]) == multiset(a) - multiset{a[0]} && a[0] in multiset(a)
  {
    assert a == [a[0]] + a[1..];
  }

  lemma NoneLeft(a: seq<Byte>, b: seq<Byte>)
    requires a == [] && multiset(a) == multiset(b)
    ensures b == []
  {
    assert |multiset(b)| == |b|;
  }

  lemma PositionOf(b: seq<Byte>, x: Byte) returns (k: nat)
    requires x in multiset(b)
    ensures k < |b| && b[k] == x
  {
    assert x in b;
    k :| k < |b| && b[k] == x;
  }

  lemma {:induction false} SumOfPermutation(a: seq<Byte>, b: seq<Byte>)
    requires multiset(a) == multiset(b)
    ensures Sum(a) == Sum(b)
    decreases |a|
  {
    hide Sum;
    if a == [] {
      NoneLeft(a, b);
    } else {
      FirstOne(a);
      var k := PositionOf(b, a[0]);
      RemoveAt(b, k);
      RemovedOne(b, k);
      SumOfPermutation(a[1..], b[..k] + b[k + 1..]);
    }
  }

  /** 0 when every byte is 0, otherwise 1 + (sum - 1) mod 255. */
  lemma ChecksumClosedForm(data: seq<Byte>)
    ensures Checksum(data) == if Sum(data) == 0 then 0 else 1 + (Sum(data) - 1) % 255
  {
    hide Sum, ChecksumFrom;
    ClosedForm(0, data);
  }

  /** The order of the bytes does not matter. */
  lemma ChecksumOfPermutation(a: seq<Byte>, b: seq<Byte>)
    requires multiset(a) == multiset(b)
    ensures Checksum(a) == Checksum(b)
  {
    hide Sum, ChecksumFrom, Residue;
    SumOfPermutation(a, b);
    ClosedForm(0, a);
    ClosedForm(0, b);
  }

  /** Two blocks can be summed apart and their checksums folded together. */
  lemma ChecksumOfConcat(a: seq<Byte>, b: seq<Byte>)
    ensures Checksum(a + b) == Fold(Checksum(a), Checksum(b))
  {
    hide Sum, ChecksumFrom, Residue, Fold;
    SumConcat(a, b);
    ClosedForm(0, a);
    ClosedForm(0, b);
    ClosedForm(0, a + b);
    FoldOfResidues(Sum(a), Sum(b));
  }

  lemma {:induction false} ResidueOfShift(x: nat, q: nat)
    requires x > 0
    ensures Residue(x + 255 * q) == Residue(x)
  {
    if q > 0 {
      ResidueOfShift(x, q - 1);
      assert (x - 1 + 255 * (q - 1) + 255) % 255 == (x - 1 + 255 * (q - 1)) % 255;
    }
  }

  lemma ResidueAbsorbs(s: nat, t: nat)
    ensures Residue(Residue(s) + t) == Residue(s + t)
  {
    if s > 0 {
      ResidueOfShift(Residue(s) + t, (s - 1) / 255);
    }
  }

  lemma ResidueOfByte(v: Byte)
    ensures Residue(v) == v
  {
  }

  lemma FoldOfResidues(s: nat, t: nat)
    ensures Fold(Residue(s), Residue(t)) == Residue(s + t)
  {
    hide Residue, Fold;
    ResidueOfByte(Fold(Residue(s), Residue(t)));
    ResidueOfFold(Residue(s), Residue(t), 0);
    ResidueAbsorbs(s, Residue(t));
    ResidueAbsorbs(t, s);
  }

  /** Replacing one byte goes unnoticed exactly when 0x00 and 0xFF are exchanged
      and some other byte is non-zero. */
  lemma SingleByteChange(data: seq<Byte>, i: nat, b: Byte)
    requires i < |data| && b != data[i]
    ensures Checksum(data[i := b]) == Checksum(data)
       <==> {b, data[i]} == {0, 0xFF} && Sum(data[..i] + data[i + 1..]) > 0
  {
    hide ChecksumFrom, Residue, Sum;
    var rest := Sum(data[..i] + data[i + 1..]);
    RemoveAt(data, i);
    RemoveAt(data[i := b], i);
    assert data[i := b][..i] == data[..i] && data[i := b][i + 1..] == data[i + 1..];
    ClosedForm(0, data);
    ClosedForm(0, data[i := b]);
    ResidueClash(rest + data[i], rest + b);
    assert {b, data[i]} == {0, 0xFF} <==> b - data[i] == 255 || data[i] - b == 255;
  }

  /** Two byte sums that agree modulo 255 and lie this close are equal or exactly 255 apart. */
  lemma CloseSums(s: nat, t: nat)
    requires s % 255 == t % 255 && t < s <= t + 255
    ensures s == t + 255
  {
    var q, p := s / 255, t / 255;
    assert s - t == 255 * (q - p);
  }

  lemma ResidueClash(s: nat, t: nat)
    requires s != t && -255 <= s - t <= 255
    ensures Residue(s) == Residue(t) <==> (s - t == 255 || t - s == 255) && s > 0 && t > 0
  {
    hide Residue;
    if s - t == 255 && t > 0 { ResidueOfShift(t, 1); }
    if t - s == 255 && s > 0 { ResidueOfShift(s, 1); }
    if Residue(s) == Residue(t) {
      if s > t { CloseSums(s, t); } else { CloseSums(t, s); }
    }
  }
}
