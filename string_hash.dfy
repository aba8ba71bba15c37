/** The string hash of stringSet.h: a rotate-multiply-xor fold over the
    bytes of a C string, in 32-bit wrap-around arithmetic. */
module StringHash {
  import opened Common

  /** Fibonacci hashing multiplier. */
  const GOLDEN_RATIO_U32: bv32 := 0x9E37_79B9

  /** rotateLeft; a shift by 32 is undefined in C, hence the bounds. The low
      `32 - amount` bits of `x` become the high bits of the result, and the
      `amount` bits pushed out at the top come back in at the bottom. The
      contract states this only for the amount the hash uses, 11: stated for
      every amount, the bit-vector proof is too costly for the solver. */
  function RotateLeft(x: bv32, amount: bv32): (r: bv32)
    requires 0 < amount < 32
    ensures amount == 11 ==> r >> 11 == x & 0x1F_FFFF && r & 0x7FF == x >> 21
  {
    (x << amount) | (x >> (32 - amount))
  }

  /** The hash's rotation by 11 loses no bits: rotating on by 21 undoes it. */
  lemma RotateLeftInverse(x: bv32)
    ensures RotateLeft(RotateLeft(x, 11), 21) == x
  {
  }

  /** `uint32_t asU32 = *str` with a signed `char`: bytes from 0x80 up are
      sign-extended. */
  function CharToU32(c: byte): (r: bv32)
    ensures r & 0xFF == c as bv32
    ensures c < 128 ==> r < 128
    ensures c >= 128 ==> r >= 0xFFFF_FF80
  {
    if c < 128 then c as bv32 else c as bv32 | 0xFFFF_FF00
  }

  /** The accumulator's part of a step: rotated by 11, then multiplied. */
  function Mix(h: bv32): bv32
  {
    GOLDEN_RATIO_U32 * RotateLeft(h, 11)
  }

  /** One step of the hash loop, in uint32 wrap-around arithmetic: the
      rotated accumulator is multiplied first and the byte is xored in
      last, so from 0 the step yields the widened byte itself. */
  function HashStep(h: bv32, c: byte): (r: bv32)
    ensures h == 0 ==> r == CharToU32(c)
  {
    Mix(h) ^ CharToU32(c)
  }

  /** Two fixed values of the hash: the one-byte string 0x01 hashes to 1,
      and "AB" to `(0x9E3779B9 * (0x41 << 11)) ^ 0x42`. */
  lemma HashValues()
    ensures Hash([0x01]) == 0x01
    ensures Hash([0x41, 0x42]) == 0xAF3F_C842
  {
    assert CString([0x01]) == [0x01];
    assert CString([0x41, 0x42]) == [0x41, 0x42] by {
      assert CString([0x42]) == [0x42];
      assert [0x41, 0x42][1..] == [0x42];
    }
    assert HashFrom(0, [0x01]) == HashFrom(HashStep(0, 0x01), []);
    assert [0x41, 0x42][1..] == [0x42];
    assert HashStep(0, 0x41) == 0x41;
    assert RotateLeft(0x41, 11) == 0x2_0800;
  }

  /** The hash loop from accumulator `h` over the bytes of `s`. */
  function HashFrom(h: bv32, s: Str): bv32
    decreases |s|
  {
    if s == [] then h else HashFrom(HashStep(h, s[0]), s[1..])
  }

  /** What `_stringSetHashString` computes: the fold from 0 over the bytes
      before the terminating NUL. */
  function Hash(s: Str): bv32
  {
    HashFrom(0, CString(s))
  }

  /** The fold splits at any point of the string. */
  lemma {:induction false} HashFromAppend(h: bv32, a: Str, b: Str)
    ensures HashFrom(h, a + b) == HashFrom(HashFrom(h, a), b)
    decreases |a|
  {
    if a == [] {
      assert a + b == b;
    } else {
      assert (a + b)[1..] == a[1..] + b;
      HashFromAppend(HashStep(h, a[0]), a[1..], b);
    }
  }

  /** The hash only sees the bytes before the first NUL. */
  lemma HashOfCString(s: Str)
    ensures Hash(CString(s)) == Hash(s)
  {
    CStringOfCString(CString(s));
  }

  /** _stringSetHashString */
  method HashString(str: Str) returns (h: bv32)
    ensures h == Hash(str)
  {
    ghost var cs := CString(str);
    h := 0;
    var i := 0;
    while i < |str| && str[i] != NUL
      invariant i <= |cs| && str[..i] == cs[..i]
      invariant HashFrom(h, cs[i..]) == HashFrom(0, cs)
      decreases |str| - i
    {
      assert cs[i] == str[i];
      assert cs[i..][1..] == cs[i + 1..];
      h := HashStep(h, str[i]);
      i := i + 1;
    }
    assert cs[i..] == [];
  }
}
