/** Fixed-width unsigned integers and the little-endian accessors every codec here shares.
    The subset types keep values in range; truncating casts and wrapping sums are written out. */
module MachineInts {
  type Byte = x: int | 0 <= x < 0x100
  type U16 = x: int | 0 <= x < 0x1_0000
  type U32 = x: int | 0 <= x < 0x1_0000_0000

  const TWO16: int := 0x1_0000
  const TWO32: int := 0x1_0000_0000

  /** The C cast `(uint16_t) x`. */
  function Trunc16(x: nat): (r: U16)
    ensures x < TWO16 ==> r == x
  {
    x % TWO16
  }

  /** The C cast `(uint32_t) x`; a negative argument is a difference that borrowed. */
  function Trunc32(x: int): (r: U32)
    ensures 0 <= x < TWO32 ==> r == x
  {
    x % TWO32
  }

  function GetU16le(p: seq<Byte>, at: nat): U16
    requires at + 2 <= |p|
  {
    var lo: int, hi: int := p[at], p[at + 1];
    lo + 0x100 * hi
  }

  function GetU32le(p: seq<Byte>, at: nat): U32
    requires at + 4 <= |p|
  {
    var b0: int, b1: int, b2: int, b3: int := p[at], p[at + 1], p[at + 2], p[at + 3];
    b0 + 0x100 * b1 + 0x1_0000 * b2 + 0x100_0000 * b3
  }

  function PutU16le(v: U16): (p: seq<Byte>)
    ensures |p| == 2
  {
    [v % 0x100, v / 0x100]
  }

  function PutU32le(v: U32): (p: seq<Byte>)
    ensures |p| == 4
  {
    [v % 0x100, v / 0x100 % 0x100, v / 0x1_0000 % 0x100, v / 0x100_0000]
  }

  /** The low byte comes first, in 16 and in 32 bits. */
  lemma LittleEndian(p: seq<Byte>, at: nat)
    requires at + 2 <= |p|
    ensures GetU16le(p, at) % 0x100 == p[at] && GetU16le(p, at) / 0x100 == p[at + 1]
    ensures at + 4 <= |p| ==>
      GetU32le(p, at) % TWO16 == GetU16le(p, at) && GetU32le(p, at) / TWO16 == GetU16le(p, at + 2)
  {
    if at + 4 <= |p| {
      assert GetU32le(p, at) == GetU16le(p, at) + TWO16 * GetU16le(p, at + 2);
    }
  }

  /** Reading a stored 16-bit value back from inside any buffer yields the value. */
  lemma U16RoundTrip(pre: seq<Byte>, v: U16, post: seq<Byte>)
    ensures GetU16le(pre + PutU16le(v) + post, |pre|) == v
  {
    var p := pre + PutU16le(v) + post;
    assert p[|pre|] == PutU16le(v)[0] && p[|pre| + 1] == PutU16le(v)[1];
  }

  /** Reading a stored 32-bit value back from inside any buffer yields the value. */
  lemma U32RoundTrip(pre: seq<Byte>, v: U32, post: seq<Byte>)
    ensures GetU32le(pre + PutU32le(v) + post, |pre|) == v
  {
    var w := PutU32le(v);
    var p := pre + w + post;
    assert forall i | 0 <= i < 4 :: p[|pre| + i] == w[i];
    assert p[|pre| + 0] == w[0] && p[|pre| + 1] == w[1] && p[|pre| + 2] == w[2] && p[|pre| + 3] == w[3];
    assert v == v % 0x100 + 0x100 * (v / 0x100);
    assert v / 0x100 == v / 0x100 % 0x100 + 0x100 * (v / 0x1_0000);
    assert v / 0x1_0000 == v / 0x1_0000 % 0x100 + 0x100 * (v / 0x100_0000);
  }

  /** As much of v as fits in n bytes. */
  function First(v: seq<Byte>, n: nat): (r: seq<Byte>)
    ensures r <= v && |r| == if |v| <= n then |v| else n
  {
    if |v| <= n then v else v[..n]
  }

  /** What a reader of a C string sees: the bytes before the first NUL, or all of them. */
  function UpToNul(s: seq<Byte>): (r: seq<Byte>)
    ensures r <= s
    ensures 0 !in r
    ensures |r| < |s| ==> s[|r|] == 0
  {
    if s == [] || s[0] == 0 then [] else [s[0]] + UpToNul(s[1..])
  }

  lemma {:induction false} UpToNulOfClean(s: seq<Byte>)
    requires 0 !in s
    ensures UpToNul(s) == s
  {
    if s != [] {
      assert s[0] in s;
      UpToNulOfClean(s[1..]);
    }
  }

  /** The string ends at the first NUL. */
  lemma {:induction false} UpToNulIs(s: seq<Byte>, i: nat)
    requires i < |s| && s[i] == 0 && forall j | 0 <= j < i :: s[j] != 0
    ensures UpToNul(s) == s[..i]
  {
    if i > 0 {
      UpToNulIs(s[1..], i - 1);
    }
  }

  /** What follows a terminator does not belong to the string. */
  lemma {:induction false} UpToNulOfTerminated(s: seq<Byte>, rest: seq<Byte>)
    ensures UpToNul(s + [0] + rest) == UpToNul(s)
  {
    if s == [] {
      assert (s + [0] + rest)[0] == 0;
    } else {
      UpToNulOfTerminated(s[1..], rest);
      assert (s + [0] + rest)[1..] == s[1..] + [0] + rest;
    }
  }

  lemma {:induction false} UpToNulShorter(s: seq<Byte>)
    requires 0 in s
    ensures |UpToNul(s)| < |s|
  {
    if s[0] != 0 {
      assert s == [s[0]] + s[1..];
      UpToNulShorter(s[1..]);
    }
  }
}
