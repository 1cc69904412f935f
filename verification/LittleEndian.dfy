/** The kernel's unsigned integers, and their little-endian bytes on disk and in files. */
module LittleEndian {

  type byte = n: nat | n < 256
  type u16 = n: nat | n < 0x1_0000
  type u32 = n: nat | n < 0x1_0000_0000
  type u64 = n: nat | n < 0x1_0000_0000_0000_0000

  function Zeros(n: nat): (z: seq<byte>)
    ensures |z| == n && forall i :: 0 <= i < n ==> z[i] == 0
  {
    seq(n, _ => 0)
  }

  function Pow256(n: nat): (p: nat)
    ensures p >= 1
  {
    if n == 0 then 1 else 256 * Pow256(n - 1)
  }

  /** The n low bytes of v, lowest first. */
  function Le(v: nat, n: nat): (b: seq<byte>)
    ensures |b| == n
  {
    if n == 0 then [] else [v % 256] + Le(v / 256, n - 1)
  }

  function FromLe(b: seq<byte>): (v: nat)
    ensures v < Pow256(|b|)
  {
    if b == [] then 0 else b[0] + 256 * FromLe(b[1..])
  }

  lemma {:induction false} LeRoundTrip(v: nat, n: nat)
    requires v < Pow256(n)
    ensures FromLe(Le(v, n)) == v
  {
    if n > 0 {
      LeRoundTrip(v / 256, n - 1);
      assert Le(v, n)[1..] == Le(v / 256, n - 1);
    }
  }

  lemma {:induction false} FromLeRoundTrip(b: seq<byte>)
    ensures Le(FromLe(b), |b|) == b
  {
    if b != [] {
      FromLeRoundTrip(b[1..]);
      var rest := FromLe(b[1..]);
      assert FromLe(b) % 256 == b[0] && FromLe(b) / 256 == rest;
    }
  }

  /** Numbers of two and four bytes, written out. */
  function Number16(b0: nat, b1: nat): nat {
    b0 + 0x100 * b1
  }

  function Number32(b0: nat, b1: nat, b2: nat, b3: nat): nat {
    b0 + 0x100 * b1 + 0x1_0000 * b2 + 0x100_0000 * b3
  }

  lemma FromLeTwo(b: seq<byte>)
    requires |b| == 2
    ensures FromLe(b) == Number16(b[0], b[1])
  {
    assert FromLe(b[1..]) == b[1] + 256 * FromLe(b[1..][1..]);
  }

  lemma FromLeFour(b: seq<byte>)
    requires |b| == 4
    ensures FromLe(b) == Number32(b[0], b[1], b[2], b[3])
  {
    assert b[1..][1..] == b[2..];
    FromLeTwo(b[2..]);
    assert FromLe(b[1..]) == b[1] + 256 * FromLe(b[2..]);
  }

  /** One more byte on top. */
  lemma {:induction false} FromLeMore(b: seq<byte>, top: byte)
    ensures FromLe(b + [top]) == FromLe(b) + top * Pow256(|b|)
  {
    if b == [] {
      assert b + [top] == [top] && [top][1..] == b;
    } else {
      assert (b + [top])[1..] == b[1..] + [top];
      FromLeMore(b[1..], top);
      Regroup(top, Pow256(|b| - 1));
    }
  }

  lemma Regroup(top: nat, p: nat)
    ensures top * (256 * p) == 256 * (top * p)
  {
  }

  lemma {:induction false} FromLeZeros(n: nat)
    ensures FromLe(Zeros(n)) == 0
  {
    if n > 0 {
      FromLeZeros(n - 1);
      assert Zeros(n)[1..] == Zeros(n - 1);
    }
  }

  lemma Pow256Values()
    ensures Pow256(3) == 0x100_0000 && Pow256(2) == 0x1_0000 && Pow256(4) == 0x1_0000_0000
            && Pow256(8) == 0x1_0000_0000_0000_0000
  {
    assert Pow256(1) == 256 && Pow256(3) == 0x100_0000;
    assert Pow256(5) == 0x100_0000_0000 && Pow256(6) == 0x1_0000_0000_0000 && Pow256(7) == 0x100_0000_0000_0000;
  }
}
