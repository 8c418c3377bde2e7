// Bytes, little-endian integers, and slices of byte sequences.
module Bytes {

  type byte = x: nat | x < 256
  type bytes = seq<byte>

  // size_t and uint64_t are both 64 bits wide.
  const SIZE_MAX: nat := 0xFFFF_FFFF_FFFF_FFFF

  function Pow256(n: nat): (p: nat)
    ensures p > 0
  {
    if n == 0 then 1 else 256 * Pow256(n - 1)
  }

  // The n low-order bytes of v, least significant first.
  function LittleEndian(v: nat, n: nat): (b: bytes)
    ensures |b| == n
  {
    if n == 0 then [] else [v % 256] + LittleEndian(v / 256, n - 1)
  }

  function FromLittleEndian(b: bytes): (v: nat)
    ensures v < Pow256(|b|)
  {
    if b == [] then 0 else b[0] + 256 * FromLittleEndian(b[1..])
  }

  // Truncation: n bytes hold v exactly when v is below 256^n.
  lemma {:induction false} LittleEndianHolds(v: nat, n: nat)
    ensures FromLittleEndian(LittleEndian(v, n)) == v <==> v < Pow256(n)
  {
    if n > 0 {
      LittleEndianHolds(v / 256, n - 1);
      assert LittleEndian(v, n)[1..] == LittleEndian(v / 256, n - 1);
    }
  }

  lemma {:induction false} Pow256Values()
    ensures Pow256(1) == 0x100 && Pow256(2) == 0x1_0000 && Pow256(4) == 0x1_0000_0000
    ensures Pow256(8) == SIZE_MAX + 1
  {
    assert Pow256(3) == 0x100_0000 && Pow256(5) == 0x100_0000_0000;
    assert Pow256(6) == 0x1_0000_0000_0000 && Pow256(7) == 0x100_0000_0000_0000;
  }

  // A size_t as it lies in the spool.
  function Size(v: nat): (b: bytes)
    ensures |b| == 8
  {
    LittleEndian(v, 8)
  }

  lemma {:induction false} SizeReads(v: nat)
    requires v <= SIZE_MAX
    ensures FromLittleEndian(Size(v)) == v
  {
    Pow256Values();
    LittleEndianHolds(v, 8);
  }

  // s occurs in buf at position pos.
  predicate At(buf: bytes, pos: nat, s: bytes) {
    pos + |s| <= |buf| && buf[pos..pos + |s|] == s
  }

  lemma {:induction false} AtSplit(buf: bytes, pos: nat, a: bytes, b: bytes)
    ensures At(buf, pos, a + b) <==> At(buf, pos, a) && At(buf, pos + |a|, b)
  {
    if At(buf, pos, a + b) {
      assert a == (a + b)[..|a|] == buf[pos..pos + |a|];
      assert b == (a + b)[|a|..] == buf[pos + |a|..pos + |a| + |b|];
    }
    if At(buf, pos, a) && At(buf, pos + |a|, b) {
      assert buf[pos..pos + |a + b|] == buf[pos..pos + |a|] + buf[pos + |a|..pos + |a| + |b|];
    }
  }

  lemma {:induction false} AtWhole(a: bytes, b: bytes, c: bytes)
    ensures At(a + b + c, |a|, b)
  {
  }

  // _bijson_writer_write_minimal_int: fill a byte buffer from the low end.
  method WriteMinimalInt(u: nat, nbytes: nat) returns (buf: bytes)
    ensures buf == LittleEndian(u, nbytes)
  {
    buf := [];
    var rest := u;
    for z := 0 to nbytes
      invariant |buf| == z
      invariant buf + LittleEndian(rest, nbytes - z) == LittleEndian(u, nbytes)
    {
      ghost var before := LittleEndian(rest, nbytes - z);
      buf := buf + [rest % 256];
      rest := rest / 256;
      assert before == [before[0]] + before[1..];
      assert buf + LittleEndian(rest, nbytes - z - 1) == buf[..z] + before;
    }
  }

  lemma {:induction false} FromLittleEndianSnoc(s: bytes, x: byte)
    ensures FromLittleEndian(s + [x]) == FromLittleEndian(s) + Pow256(|s|) * x
  {
    if s == [] {
      assert [x][1..] == [];
    } else {
      FromLittleEndianSnoc(s[1..], x);
      assert (s + [x])[1..] == s[1..] + [x];
      Reassociate(Pow256(|s| - 1), x);
    }
  }

  lemma {:induction false} Reassociate(p: nat, x: nat)
    ensures 256 * (p * x) == (256 * p) * x
  {
  }

  // _bijson_read_minimal_int: the bits or-ed in are disjoint, so the "or" is a sum.
  method ReadMinimalInt(b: bytes) returns (r: nat)
    ensures r == FromLittleEndian(b)
  {
    r := 0;
    for u := 0 to |b|
      invariant r == FromLittleEndian(b[..u])
    {
      FromLittleEndianSnoc(b[..u], b[u]);
      assert b[..u + 1] == b[..u] + [b[u]];
      r := r + Pow256(u) * b[u];
    }
    assert b[..|b|] == b;
  }
}
