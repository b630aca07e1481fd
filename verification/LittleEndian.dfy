/** Little-endian integers in byte strings: `from_le_bytes`, `to_le_bytes` and bounded reads. */
module LittleEndian {
  import opened Machine

  function Pow256(n: nat): nat {
    if n == 0 then 1 else 256 * Pow256(n - 1)
  }

  function Value(s: seq<u8>): nat {
    if |s| == 0 then 0 else s[0] + 256 * Value(s[1..])
  }

  function Bytes(v: nat, n: nat): (s: seq<u8>)
    ensures |s| == n
  {
    if n == 0 then [] else [v % 256] + Bytes(v / 256, n - 1)
  }

  lemma {:induction false} ValueBound(s: seq<u8>)
    ensures Value(s) < Pow256(|s|)
  {
    if |s| > 0 {
      ValueBound(s[1..]);
    }
  }

  /** Encoding then decoding is the identity on every value that fits. */
  lemma {:induction false} ValueOfBytes(v: nat, n: nat)
    requires v < Pow256(n)
    ensures Value(Bytes(v, n)) == v
  {
    if n > 0 {
      ValueOfBytes(v / 256, n - 1);
      assert Bytes(v, n)[1..] == Bytes(v / 256, n - 1);
    }
  }

  /** Decoding then encoding is the identity on every byte string. */
  lemma {:induction false} BytesOfValue(s: seq<u8>)
    ensures Bytes(Value(s), |s|) == s
  {
    if |s| > 0 {
      BytesOfValue(s[1..]);
      assert s == [s[0]] + s[1..];
      assert Value(s) % 256 == s[0] && Value(s) / 256 == Value(s[1..]);
    }
  }

  /** A field reads as `v` exactly when its bytes are those of `v`. */
  lemma FieldIs(b: seq<u8>, at: nat, n: nat, v: nat)
    requires at + n <= |b| < 0x8000_0000_0000_0000 && v < Pow256(n)
    ensures Read(b, at, n) == Some(v) <==> b[at..at + n] == Bytes(v, n)
  {
    BytesOfValue(b[at..at + n]);
    ValueOfBytes(v, n);
  }

  /** Cutting the last field off a run of fields. */
  lemma Chop(t: seq<u8>, n: nat, front: seq<u8>, field: seq<u8>)
    requires n <= |t| && t[..n] == front + field
    ensures t[..|front|] == front && t[|front|..n] == field
  {
    assert t[..|front|] == t[..n][..|front|];
    assert t[|front|..n] == t[..n][|front|..];
  }

  /** A value below 256 is its own first byte, followed by zeros. */
  lemma SmallFields(v: u8)
    ensures Bytes(v, 2) == [v, 0] && Bytes(v, 4) == [v, 0, 0, 0]
  {
    assert Bytes(0, 1) == [0] && Bytes(0, 2) == [0, 0] && Bytes(0, 3) == [0, 0, 0];
  }

  /** Four bytes as the number they spell. */
  lemma FourBytes(b: seq<u8>)
    requires |b| == 4
    ensures Value(b) == b[0] as int + 256 * b[1] as int + 65536 * b[2] as int + 16777216 * b[3] as int
  {
    var b1, b2, b3 := b[1..], b[1..][1..], b[1..][1..][1..];
    assert b1[0] == b[1] && b2[0] == b[2] && b3[0] == b[3] && b3[1..] == [];
    assert Value(b3) == b[3] as int;
    assert Value(b2) == b[2] as int + 256 * Value(b3);
    assert Value(b1) == b[1] as int + 256 * Value(b2);
  }

  lemma Widths()
    ensures Pow256(1) == U8_LIMIT
    ensures Pow256(2) == U16_LIMIT
    ensures Pow256(4) == U32_LIMIT
    ensures Pow256(8) == U64_LIMIT
  {
    assert Pow256(3) == 0x100_0000;
    assert Pow256(5) == 0x100_0000_0000;
    assert Pow256(6) == 0x1_0000_0000_0000;
    assert Pow256(7) == 0x100_0000_0000_0000;
  }

  /** `read_array` followed by `from_le_bytes`; `None` when the range overflows or leaves the slice. */
  function Read(bytes: seq<u8>, offset: usize, n: nat): (r: Option<nat>)
    ensures r.Some? ==> offset + n <= |bytes| && r.value < Pow256(n)
  {
    if offset + n < U64_LIMIT && offset + n <= |bytes| then
      ValueBound(bytes[offset..offset + n]);
      Some(Value(bytes[offset..offset + n]))
    else
      None
  }

  function ReadU16(bytes: seq<u8>, offset: usize): (r: Option<u16>)
    ensures r == Read(bytes, offset, 2)
  {
    Widths();
    Read(bytes, offset, 2)
  }

  function ReadU32(bytes: seq<u8>, offset: usize): (r: Option<u32>)
    ensures r == Read(bytes, offset, 4)
  {
    Widths();
    Read(bytes, offset, 4)
  }

  function ReadU64(bytes: seq<u8>, offset: usize): (r: Option<u64>)
    ensures r == Read(bytes, offset, 8)
  {
    Widths();
    Read(bytes, offset, 8)
  }
}
