/** Numbers as little-endian bytes. */
module ByteOrder {
  import opened Numbers

  function LittleEndian(s: seq<Byte>): nat {
    if s == [] then 0 else s[0] + 256 * LittleEndian(s[1..])
  }

  function Bytes(v: nat, n: nat): (s: seq<Byte>)
    ensures |s| == n
  {
    if n == 0 then [] else [v % 256] + Bytes(v / 256, n - 1)
  }

  lemma {:induction false} LittleEndianBound(s: seq<Byte>)
    ensures LittleEndian(s) < Pow2(8 * |s|)
  {
    if s != [] {
      LittleEndianBound(s[1..]);
      Pow2Eight(8 * (|s| - 1));
    }
  }

  /** The low bytes of any number that agrees with the value in its low bits. */
  lemma {:induction false} BytesOfValue(s: seq<Byte>, k: nat)
    ensures Bytes(LittleEndian(s) + k * Pow2(8 * |s|), |s|) == s
  {
    hide Pow2;
    if s != [] {
      var n := |s| - 1;
      var v := LittleEndian(s[1..]);
      Pow2Eight(8 * n);
      assert 8 * n + 8 == 8 * |s|;
      LowByte(s[0], v, k, Pow2(8 * n));
      BytesOfValue(s[1..], k);
    }
  }

  lemma {:induction false} LowByte(b: Byte, v: nat, k: nat, p: nat)
    ensures (b + 256 * v + k * (256 * p)) % 256 == b
    ensures (b + 256 * v + k * (256 * p)) / 256 == v + k * p
  {
    var x := b + 256 * v + k * (256 * p);
    assert k * (256 * p) == 256 * (k * p);
    DivModUnique(x, 256, v + k * p, b);
  }

  /** Different numbers have different bytes. */
  lemma {:induction false} BytesInjective(v: nat, w: nat, n: nat)
    requires v < Pow2(8 * n) && w < Pow2(8 * n) && Bytes(v, n) == Bytes(w, n)
    ensures v == w
  {
    hide Pow2;
    if n == 0 {
      ZeroPower();
    } else {
      var a, b := Bytes(v, n), Bytes(w, n);
      assert a[0] == v % 256 && a[1..] == Bytes(v / 256, n - 1);
      assert b[0] == w % 256 && b[1..] == Bytes(w / 256, n - 1);
      Pow2Eight(8 * (n - 1));
      assert 8 * (n - 1) + 8 == 8 * n;
      BytesInjective(v / 256, w / 256, n - 1);
    }
  }

  lemma {:induction false} ZeroPower()
    ensures Pow2(0) == 1
  {
  }
}
