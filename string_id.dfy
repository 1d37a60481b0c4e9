// Compile-time string identifiers (include/scythe/string_id.h).
//
// The lookup table is generated from the reflected polynomial 0xEDB88320,
// but the update step shifts the running value LEFT, so the identifiers are
// not the standard CRC-32 check values.  Characters are bytes; a C string is
// a byte sequence that holds a terminating zero.

module StringId {

  const Polynomial: bv32 := 0xEDB88320

  /** One step of the CrcHelper template: `((C & 1) ? 0xEDB88320 : 0) ^ (C >> 1)`. */
  function HelperStep(c: bv32): bv32
  {
    (if c & 1 == 1 then Polynomial else 0) ^ (c >> 1)
  }

  /** `CrcHelper<C, K>::Value::value`: K more steps from C. */
  function CrcHelper(c: bv32, k: nat): (r: bv32)
    decreases k
  {
    if k == 0 then c else CrcHelper(HelperStep(c), k - 1)
  }

  /** `crc_table[i]`, the expansion of `CRC_A(0)`: entry i is CrcHelper<i, 8>. */
  function CrcTable(i: bv8): (r: bv32)
  {
    CrcHelper(i as bv32, 8)
  }

  /** One step of crc32_impl: `(crc << 8) ^ crc_table[((crc >> 24) ^ byte) & 0xFF]`. */
  function UpdateStep(crc: bv32, b: bv8): bv32
  {
    (crc << 8) ^ CrcTable((((crc >> 24) ^ (b as bv32)) & 0xFF) as bv8)
  }

  /** `crc32_impl(p, len, crc)` over the first `len` bytes of p. */
  function Crc32Impl(p: seq<bv8>, crc: bv32): (r: bv32)
    decreases |p|
  {
    if |p| == 0 then crc else Crc32Impl(p[1..], UpdateStep(crc, p[0]))
  }

  function Crc32(data: seq<bv8>): (r: bv32)
    ensures data == [] ==> r == 0
  {
    Crc32Impl(data, 0)
  }

  /** `strlen_c`: the number of bytes before the first zero byte. */
  function StrLen(s: seq<bv8>): (n: nat)
    requires 0 in s
    ensures n < |s| && s[n] == 0
    ensures forall i :: 0 <= i < n ==> s[i] != 0
    decreases |s|
  {
    if s[0] == 0 then 0 else 1 + StrLen(s[1..])
  }

  /** `ConstexprStringId(str)`: the hash of the bytes before the terminator. */
  function ConstexprStringId(s: seq<bv8>): (id: bv32)
    requires 0 in s
    ensures id == Crc32(s[..StrLen(s)])
    ensures s[0] == 0 ==> id == 0
  {
    Crc32(s[..StrLen(s)])
  }

  /** A zero register stays zero through the helper steps, so the table starts with 0. */
  lemma {:induction false} HelperOfZero(k: nat)
    ensures CrcHelper(0, k) == 0
  {
    if k > 0 {
      assert HelperStep(0) == 0;
      HelperOfZero(k - 1);
    }
  }

  lemma TableStartsWithZero()
    ensures CrcTable(0) == 0
  {
    HelperOfZero(8);
  }

  /** Eight helper steps on entry 1 give the reflected-polynomial value, as in the standard table. */
  lemma TableEntryOne()
    ensures CrcTable(1) == 0x77073096
    ensures CrcTable(128) == Polynomial
  {
  }

  /** Hashing a concatenation is hashing its second part from the first part's value. */
  lemma {:induction false} Crc32ImplAppend(a: seq<bv8>, b: seq<bv8>, crc: bv32)
    ensures Crc32Impl(a + b, crc) == Crc32Impl(b, Crc32Impl(a, crc))
    decreases |a|
  {
    if |a| > 0 {
      assert (a + b)[0] == a[0];
      assert (a + b)[1..] == a[1..] + b;
      Crc32ImplAppend(a[1..], b, UpdateStep(crc, a[0]));
    } else {
      assert a + b == b;
    }
  }

  /** Appending one byte applies exactly one update step. */
  lemma Crc32Snoc(data: seq<bv8>, b: bv8)
    ensures Crc32(data + [b]) == UpdateStep(Crc32(data), b)
  {
    Crc32ImplAppend(data, [b], 0);
  }

  /** Bytes after the terminator do not change the identifier. */
  lemma {:induction false} IdIgnoresTail(s: seq<bv8>, tail: seq<bv8>)
    requires 0 in s
    ensures 0 in s + tail
    ensures ConstexprStringId(s + tail) == ConstexprStringId(s)
    decreases |s|
  {
    assert (s + tail)[..|s|] == s;
    StrLenPrefix(s, tail);
    assert (s + tail)[..StrLen(s)] == s[..StrLen(s)];
  }

  lemma {:induction false} StrLenPrefix(s: seq<bv8>, tail: seq<bv8>)
    requires 0 in s
    ensures 0 in s + tail
    ensures StrLen(s + tail) == StrLen(s)
    decreases |s|
  {
    assert (s + tail)[0] == s[0];
    if s[0] != 0 {
      assert (s + tail)[1..] == s[1..] + tail;
      StrLenPrefix(s[1..], tail);
    }
  }
}
