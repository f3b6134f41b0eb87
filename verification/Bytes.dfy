/** Bytes, byte strings and the little-endian integers that headers hold. */
module Bytes {

  /** An unsigned 8-bit byte. */
  type Byte = b: int | 0 <= b < 0x100

  const UINT_MAX: nat := 0xFFFF_FFFF

  datatype Option<+T> = None | Some(value: T)

  /** The 32-bit truncation that unsigned arithmetic of the source performs. */
  function U32(n: int): (r: nat)
    ensures r <= UINT_MAX
  {
    n % 0x1_0000_0000
  }

  function Min(a: int, b: int): (m: int) {
    if a <= b then a else b
  }

  ghost function Pow256(width: nat): nat {
    if width == 0 then 1 else 0x100 * Pow256(width - 1)
  }

  /** `width` bytes of `n`, least significant byte first. */
  function Le(n: nat, width: nat): (s: seq<Byte>)
    ensures |s| == width
  {
    if width == 0 then [] else [n % 0x100] + Le(n / 0x100, width - 1)
  }

  function FromLe(s: seq<Byte>): (n: nat) {
    if s == [] then 0 else s[0] + 0x100 * FromLe(s[1..])
  }

  lemma {:induction false} FromLeInvertsLe(n: nat, width: nat)
    requires n < Pow256(width)
    ensures FromLe(Le(n, width)) == n
  {
    if width > 0 {
      FromLeInvertsLe(n / 0x100, width - 1);
      assert Le(n, width)[1..] == Le(n / 0x100, width - 1);
    }
  }

  lemma {:induction false} LeInvertsFromLe(s: seq<Byte>)
    ensures FromLe(s) < Pow256(|s|)
    ensures Le(FromLe(s), |s|) == s
  {
    if s != [] {
      LeInvertsFromLe(s[1..]);
      assert FromLe(s) % 0x100 == s[0] && FromLe(s) / 0x100 == FromLe(s[1..]);
    }
  }

  /** The least significant byte comes first. */
  lemma {:induction false} LittleEndian(a: Byte, b: Byte, c: Byte, d: Byte)
    ensures FromLe([a]) == a
    ensures FromLe([a, b]) == a + 0x100 * b
    ensures FromLe([a, b, c, d]) == a + 0x100 * b + 0x1_0000 * c + 0x100_0000 * d
  {
    assert [a, b][1..] == [b] && [a, b, c, d][1..] == [b, c, d] && [b, c, d][1..] == [c, d] && [c, d][1..] == [d];
    assert FromLe([d]) == d + 0x100 * FromLe([]);
    assert FromLe([a]) == a + 0x100 * FromLe([]);
    assert FromLe([c, d]) == c + 0x100 * FromLe([d]);
  }

  lemma {:induction false} PowersOf256()
    ensures Pow256(1) == 0x100
    ensures Pow256(2) == 0x1_0000
    ensures Pow256(3) == 0x100_0000
    ensures Pow256(4) == 0x1_0000_0000
    ensures Pow256(8) == 0x1_0000_0000_0000_0000
  {
    assert Pow256(3) == 0x100 * Pow256(2);
    assert Pow256(4) == 0x100 * Pow256(3);
    assert Pow256(5) == 0x100 * Pow256(4);
    assert Pow256(6) == 0x100 * Pow256(5);
    assert Pow256(7) == 0x100 * Pow256(6);
  }

  /** `s` with the bytes from `pos` on replaced by `bytes`. */
  function Overwrite(s: seq<Byte>, pos: nat, bytes: seq<Byte>): (r: seq<Byte>)
    requires pos + |bytes| <= |s|
    ensures |r| == |s|
  {
    s[..pos] + bytes + s[pos + |bytes|..]
  }

  lemma {:induction false} OverwriteNothing(s: seq<Byte>, at: nat)
    requires at <= |s|
    ensures Overwrite(s, at, []) == s
  {
  }

  lemma {:induction false} OverwriteOneMore(s: seq<Byte>, at: nat, bytes: seq<Byte>, k: nat)
    requires k < |bytes| && at + |bytes| <= |s|
    ensures Overwrite(s, at, bytes[..k])[at + k := bytes[k]] == Overwrite(s, at, bytes[..k + 1])
  {
    assert bytes[..k + 1] == bytes[..k] + [bytes[k]];
  }

  lemma {:induction false} OverwriteJoins(s: seq<Byte>, pos: nat, a: seq<Byte>, b: seq<Byte>)
    requires pos + |a| + |b| <= |s|
    ensures Overwrite(Overwrite(s, pos, a), pos + |a|, b) == Overwrite(s, pos, a + b)
  {
  }

  lemma {:induction false} SliceOfSlice(s: seq<Byte>, offset: nat, part: seq<Byte>, i: nat, j: nat)
    requires offset + |part| <= |s| && s[offset..offset + |part|] == part
    requires i <= j <= |part|
    ensures s[offset + i..offset + j] == part[i..j]
  {
    forall k | 0 <= k < j - i
      ensures s[offset + i..offset + j][k] == part[i..j][k]
    {
      assert s[offset..offset + |part|][i + k] == part[i + k];
    }
  }

  function Repeat(b: Byte, n: nat): (s: seq<Byte>)
    ensures |s| == n
    ensures forall i :: 0 <= i < n ==> s[i] == b
  {
    if n == 0 then [] else [b] + Repeat(b, n - 1)
  }

  /** An upper-case hexadecimal digit. */
  function HexDigit(v: nat): Byte
    requires v < 16
  {
    if v < 10 then 48 + v else 55 + v
  }
}
