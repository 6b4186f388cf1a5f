/** Bytes and little-endian integers. */
module Bytes {
  import opened Sequences

  type byte = bv8

  const MAX_PATH: nat := 260

  /** 256 to the power `w`: the number of values a `w`-byte integer can take. */
  function Pow256(w: nat): (p: nat)
    ensures p >= 1
  {
    if w == 0 then 1 else 256 * Pow256(w - 1)
  }

  /** The `w` low bytes of `n`, least significant first. */
  function LE(n: nat, w: nat): (s: seq<byte>)
    ensures |s| == w
  {
    if w == 0 then [] else [(n % 256) as byte] + LE(n / 256, w - 1)
  }

  function FromLE(s: seq<byte>): nat {
    if s == [] then 0 else s[0] as nat + 256 * FromLE(s[1..])
  }

  lemma {:induction false} LERoundTrip(n: nat, w: nat)
    requires n < Pow256(w)
    ensures FromLE(LE(n, w)) == n
  {
    if w > 0 {
      LERoundTrip(n / 256, w - 1);
      LESplit(n, w);
    }
  }

  lemma LESplit(n: nat, w: nat)
    requires w > 0
    ensures LE(n, w) != [] && LE(n, w)[1..] == LE(n / 256, w - 1)
    ensures LE(n, w)[0] as nat == n % 256
  {
    LowByte(n % 256);
  }

  lemma Successor(b: byte)
    requires b != 255
    ensures (b + 1) as nat == b as nat + 1
  {
  }

  lemma {:induction false} HasByte(n: nat) returns (b: byte)
    requires n < 256
    ensures b as nat == n
  {
    if n == 0 {
      b := 0;
    } else {
      b := HasByte(n - 1);
      Successor(b);
      b := b + 1;
    }
  }

  lemma ByteBack(b: byte)
    ensures (b as nat) as byte == b
  {
  }

  lemma ByteBound(b: byte)
    ensures b as nat < 256
  {
  }

  lemma LowByte(n: nat)
    requires n < 256
    ensures (n as byte) as nat == n
  {
    var b := HasByte(n);
    ByteBack(b);
  }

  lemma LEOne(n: nat)
    requires n < 256
    ensures LE(n, 1) == [n as byte]
  {
    assert n % 256 == n;
    assert LE(n / 256, 0) == [];
  }

  lemma LEByte(b: byte)
    ensures LE(b as nat, 1) == [b]
  {
    ByteBack(b);
    ByteBound(b);
    LEOne(b as nat);
  }

  lemma {:induction false} LEOfFromLE(s: seq<byte>)
    ensures LE(FromLE(s), |s|) == s
  {
    if s != [] {
      LEOfFromLE(s[1..]);
      assert FromLE(s) / 256 == FromLE(s[1..]) && FromLE(s) % 256 == s[0] as nat;
      assert s == [s[0]] + s[1..];
    }
  }

  lemma {:induction false} FromLEBounded(s: seq<byte>)
    ensures FromLE(s) < Pow256(|s|)
  {
    if s != [] {
      FromLEBounded(s[1..]);
    }
  }

  /** Two bytes at `i`, low byte first. */
  function Two(s: seq<byte>, i: nat): nat
    requires i + 2 <= |s|
  {
    s[i] as nat + 0x100 * s[i + 1] as nat
  }

  /** Four bytes at `i`, low byte first. */
  function Four(s: seq<byte>, i: nat): nat
    requires i + 4 <= |s|
  {
    s[i] as nat + 0x100 * s[i + 1] as nat + 0x1_0000 * s[i + 2] as nat + 0x100_0000 * s[i + 3] as nat
  }

  lemma Value2(s: seq<byte>)
    requires |s| == 2
    ensures FromLE(s) == Two(s, 0)
  {
    assert FromLE(s[1..][1..]) == 0;
  }

  lemma Value4(s: seq<byte>)
    requires |s| == 4
    ensures FromLE(s) == Four(s, 0)
  {
    Value2(s[2..]);
    assert s[1..][1..] == s[2..];
  }

  lemma Value8(s: seq<byte>)
    requires |s| == 8
    ensures FromLE(s) == Four(s, 0) + 0x1_0000_0000 * Four(s, 4)
  {
    Value4(s[4..]);
    assert s[1..][1..][1..][1..] == s[4..];
    assert FromLE(s) == s[0] as nat + 256 * FromLE(s[1..]);
    assert FromLE(s[1..]) == s[1] as nat + 256 * FromLE(s[1..][1..]);
    assert FromLE(s[1..][1..]) == s[2] as nat + 256 * FromLE(s[1..][1..][1..]);
    assert FromLE(s[1..][1..][1..]) == s[3] as nat + 256 * FromLE(s[4..]);
  }

  /** The concatenation of a list of byte strings. */
  function Flatten(parts: seq<seq<byte>>): seq<byte> {
    if parts == [] then [] else parts[0] + Flatten(parts[1..])
  }

  lemma {:induction false} FlattenAppend(a: seq<seq<byte>>, b: seq<seq<byte>>)
    ensures Flatten(a + b) == Flatten(a) + Flatten(b)
  {
    if a == [] {
      assert a + b == b;
    } else {
      FlattenAppend(a[1..], b);
      assert (a + b)[1..] == a[1..] + b;
      ConcatAssociates(a[0], Flatten(a[1..]), Flatten(b));
    }
  }
}
