/** Typed fields of a packet body: their bytes, how they are read back, and the byte mask. */
module Fields {
  import opened Sequences
  import opened Bytes

  type u16 = n: nat | n < 0x1_0000
  type u32 = n: nat | n < 0x1_0000_0000
  type u64 = n: nat | n < 0x1_0000_0000_0000_0000
  type wstring = seq<u16>

  datatype Field =
    | Byte(b: byte)
    | Word(w: u16)
    | Uint(u: u32)
    | Int64(q: u64)
    | Str(s: seq<byte>)
    | Wide(ws: wstring)

  datatype Kind = KByte | KWord | KUint | KInt64 | KStr | KWide

  function KindOf(f: Field): Kind {
    match f
    case Byte(_) => KByte
    case Word(_) => KWord
    case Uint(_) => KUint
    case Int64(_) => KInt64
    case Str(_) => KStr
    case Wide(_) => KWide
  }

  function KindsOf(fs: seq<Field>): (ks: seq<Kind>) {
    if fs == [] then [] else [KindOf(fs[0])] + KindsOf(fs[1..])
  }

  // ---------- Writing ----------

  /** UTF-16 code units as bytes, low byte first. */
  function WideBytes(ws: wstring): (s: seq<byte>)
    ensures |s| == 2 * |ws|
  {
    if ws == [] then [] else LE(ws[0], 2) + WideBytes(ws[1..])
  }

  function Encode(f: Field): seq<byte> {
    match f
    case Byte(b) => [b]
    case Word(w) => LE(w, 2)
    case Uint(u) => LE(u, 4)
    case Int64(q) => LE(q, 8)
    case Str(s) => LE(|s|, 4) + s
    case Wide(ws) => LE(|ws|, 4) + WideBytes(ws)
  }

  function EncodeAll(fs: seq<Field>): seq<byte> {
    if fs == [] then [] else Encode(fs[0]) + EncodeAll(fs[1..])
  }

  lemma EncodeStep(fs: seq<Field>, i: nat)
    requires i < |fs|
    ensures EncodeAll(fs[i..]) == Encode(fs[i]) + EncodeAll(fs[i + 1..])
  {
    assert fs[i..][1..] == fs[i + 1..];
  }

  lemma {:induction false} EncodeAllAppend(a: seq<Field>, b: seq<Field>)
    ensures EncodeAll(a + b) == EncodeAll(a) + EncodeAll(b)
  {
    hide Encode;
    if a == [] {
      assert a + b == b;
    } else {
      EncodeAllAppend(a[1..], b);
      assert (a + b)[1..] == a[1..] + b;
      ConcatAssociates(Encode(a[0]), EncodeAll(a[1..]), EncodeAll(b));
    }
  }

  lemma EncodeNone(fs: seq<Field>)
    ensures EncodeAll(fs[|fs|..]) == []
  {
  }

  // ---------- Reading ----------

  /** The used bytes of a buffer and the read offset. */
  datatype Cursor = Cursor(bytes: seq<byte>, off: nat) {
    predicate Has(n: nat) {
      off + n <= |bytes|
    }

    function Next(n: nat): seq<byte>
      requires Has(n)
    {
      bytes[off..off + n]
    }

    function Skip(n: nat): Cursor {
      Cursor(bytes, off + n)
    }
  }

  /** A fixed-size integer; 0, and no move, when the bytes are not there. */
  function ReadUint(c: Cursor, w: nat): (r: (nat, Cursor))
    ensures r.0 < Pow256(w)
  {
    if c.Has(w) then
      FromLEBounded(c.Next(w));
      (FromLE(c.Next(w)), c.Skip(w))
    else (0, c)
  }

  function WideChars(s: seq<byte>): (ws: wstring)
    requires |s| % 2 == 0
    ensures |ws| == |s| / 2
  {
    if s == [] then [] else
      FromLEBounded(s[..2]);
      Powers();
      [FromLE(s[..2])] + WideChars(s[2..])
  }

  /** What appending characters to an empty C string leaves in it: it stops at a zero. */
  function UpToZero<C(==)>(s: seq<C>, zero: C): (r: seq<C>)
    ensures r <= s && zero !in r && (r == s || s[|r|] == zero)
  {
    if s == [] || s[0] == zero then [] else [s[0]] + UpToZero(s[1..], zero)
  }

  /** A size of 0 means that a length prefix says how much to read. */
  function ReadStr(c: Cursor, size: u32): (seq<byte>, Cursor) {
    var (n, d) := if size == 0 then ReadUint(c, 4) else (size, c);
    if d.Has(n) then (UpToZero(d.Next(n), 0), d.Skip(n)) else ([], d)
  }

  /** A prefixed length is cut to MAX_PATH characters. */
  function ReadWide(c: Cursor, size: u32): (r: (wstring, Cursor))
    ensures size == 0 ==> Readable(Wide(r.0))
  {
    var (n, d) := if size == 0 then ReadWideLength(c) else (size, c);
    if d.Has(2 * n) then (UpToZero(WideChars(d.Next(2 * n)), 0), d.Skip(2 * n)) else ([], d)
  }

  function ReadWideLength(c: Cursor): (nat, Cursor) {
    var (n, d) := ReadUint(c, 4);
    (if n < MAX_PATH then n else MAX_PATH, d)
  }

  /** A string must be free of zeros, and a wide one no longer than MAX_PATH. */
  predicate Readable(f: Field) {
    match f
    case Str(s) => 0 !in s
    case Wide(ws) => 0 !in ws && |ws| <= MAX_PATH
    case _ => true
  }

  function ReadField(k: Kind, c: Cursor): (Field, Cursor) {
    Powers();
    match k
    case KByte => var (n, d) := ReadUint(c, 1); (Byte(n as byte), d)
    case KWord => var (n, d) := ReadUint(c, 2); (Word(n), d)
    case KUint => var (n, d) := ReadUint(c, 4); (Uint(n), d)
    case KInt64 => var (n, d) := ReadUint(c, 8); (Int64(n), d)
    case KStr => var (s, d) := ReadStr(c, 0); (Str(s), d)
    case KWide => var (ws, d) := ReadWide(c, 0); (Wide(ws), d)
  }

  function ReadFields(ks: seq<Kind>, c: Cursor): (seq<Field>, Cursor) {
    if ks == [] then ([], c)
    else
      var (f, d) := ReadField(ks[0], c);
      var (fs, e) := ReadFields(ks[1..], d);
      ([f] + fs, e)
  }

  // ---------- Round trip ----------

  lemma Powers()
    ensures Pow256(1) == 0x100 && Pow256(2) == 0x1_0000
    ensures Pow256(4) == 0x1_0000_0000 && Pow256(8) == 0x1_0000_0000_0000_0000
  {
    assert Pow256(3) == 0x100_0000;
    assert Pow256(5) == 0x100_0000_0000;
    assert Pow256(6) == 0x1_0000_0000_0000;
    assert Pow256(7) == 0x100_0000_0000_0000;
  }

  lemma {:induction false} WideRoundTrip(ws: wstring)
    ensures WideChars(WideBytes(ws)) == ws
  {
    if ws != [] {
      WideRoundTrip(ws[1..]);
      var s := WideBytes(ws);
      assert s[..2] == LE(ws[0], 2) && s[2..] == WideBytes(ws[1..]);
      Powers();
      LERoundTrip(ws[0], 2);
    }
  }

  lemma UintRoundTrip(pre: seq<byte>, n: nat, w: nat, post: seq<byte>)
    requires n < Pow256(w)
    ensures ReadUint(Cursor(pre + LE(n, w) + post, |pre|), w) == (n, Cursor(pre + LE(n, w) + post, |pre| + w))
  {
    LERoundTrip(n, w);
    assert (pre + LE(n, w) + post)[|pre|..|pre| + w] == LE(n, w);
  }

  lemma StrRoundTrip(pre: seq<byte>, s: seq<byte>, post: seq<byte>)
    requires |s| < 0x1_0000_0000
    ensures var bytes := pre + Encode(Str(s)) + post; var r := ReadStr(Cursor(bytes, |pre|), 0);
      if Readable(Str(s)) then r == (s, Cursor(bytes, |pre| + 4 + |s|)) else r.0 != s
  {
    hide LE, ReadUint, UpToZero;
    var bytes := pre + Encode(Str(s)) + post;
    ConcatAssociates(pre, LE(|s|, 4) + s, post);
    ConcatAssociates(LE(|s|, 4), s, post);
    ConcatAssociates(pre, LE(|s|, 4), s + post);
    Powers();
    UintRoundTrip(pre, |s|, 4, s + post);
    assert bytes[|pre| + 4..|pre| + 4 + |s|] == s;
  }

  lemma WideFieldRoundTrip(pre: seq<byte>, ws: wstring, post: seq<byte>)
    requires |ws| < 0x1_0000_0000
    ensures var bytes := pre + Encode(Wide(ws)) + post; var r := ReadWide(Cursor(bytes, |pre|), 0);
      if Readable(Wide(ws)) then r == (ws, Cursor(bytes, |pre| + 4 + 2 * |ws|)) else r.0 != ws
  {
    hide LE, ReadUint, WideBytes, WideChars, UpToZero;
    var bytes, chars := pre + Encode(Wide(ws)) + post, WideBytes(ws);
    ConcatAssociates(pre, LE(|ws|, 4) + chars, post);
    ConcatAssociates(LE(|ws|, 4), chars, post);
    ConcatAssociates(pre, LE(|ws|, 4), chars + post);
    Powers();
    UintRoundTrip(pre, |ws|, 4, chars + post);
    if Readable(Wide(ws)) {
      assert bytes[|pre| + 4..|pre| + 4 + 2 * |ws|] == chars;
      WideRoundTrip(ws);
    }
  }

  lemma FieldRoundTrip(pre: seq<byte>, f: Field, post: seq<byte>)
    requires |Encode(f)| < 0x1_0000_0000
    ensures var bytes := pre + Encode(f) + post; var r := ReadField(KindOf(f), Cursor(bytes, |pre|));
      if Readable(f) then r == (f, Cursor(bytes, |pre| + |Encode(f)|)) else r.0 != f
  {
    hide Pow256, ReadStr, ReadWide, LE, ReadUint;
    Powers();
    match f
    case Byte(b) =>
      LEByte(b);
      UintRoundTrip(pre, b as nat, 1, post);
    case Word(w) =>
      UintRoundTrip(pre, w, 2, post);
    case Uint(u) =>
      UintRoundTrip(pre, u, 4, post);
    case Int64(q) =>
      UintRoundTrip(pre, q, 8, post);
    case Str(s) =>
      StrRoundTrip(pre, s, post);
    case Wide(ws) =>
      WideFieldRoundTrip(pre, ws, post);
  }

  /** Reading a body field by field gives back the fields, ending behind the last, iff every string is readable. */
  lemma {:induction false} FieldsRoundTrip(pre: seq<byte>, fs: seq<Field>, post: seq<byte>)
    requires |EncodeAll(fs)| < 0x1_0000_0000
    ensures var bytes := pre + EncodeAll(fs) + post; var r := ReadFields(KindsOf(fs), Cursor(bytes, |pre|));
      && (r.0 == fs <==> forall f :: f in fs ==> Readable(f))
      && (r.0 == fs ==> r.1 == Cursor(bytes, |pre| + |EncodeAll(fs)|))
    decreases fs
  {
    hide Encode, ReadField;
    if fs == [] {
    } else {
      var f, rest, more := fs[0], fs[1..], EncodeAll(fs[1..]) + post;
      var bytes := pre + EncodeAll(fs) + post;
      assert fs == [f] + rest;
      assert bytes == pre + Encode(f) + more && bytes == pre + Encode(f) + EncodeAll(rest) + post by {
        hide *;
        EncodeCons(fs);
        ConcatAssociates(Encode(f), EncodeAll(rest), post);
        ConcatAssociates(pre, EncodeAll(fs), post);
        ConcatAssociates(pre, Encode(f), more);
        ConcatAssociates(pre + Encode(f), EncodeAll(rest), post);
      }
      FieldRoundTrip(pre, f, more);
      if Readable(f) {
        FieldsRoundTrip(pre + Encode(f), rest, post);
      }
    }
  }

  /** What a peer finds in the bytes of a field: integers with the low byte first, strings behind their lengths. */
  lemma WireFormat(f: Field)
    requires |Encode(f)| < 0x1_0000_0000
    ensures var e := Encode(f);
      match f
      case Byte(b) => e == [b]
      case Word(w) => |e| == 2 && Two(e, 0) == w
      case Uint(u) => |e| == 4 && Four(e, 0) == u
      case Int64(q) => |e| == 8 && Four(e, 0) + 0x1_0000_0000 * Four(e, 4) == q
      case Str(s) => |e| == 4 + |s| && Four(e, 0) == |s| && e[4..] == s
      case Wide(ws) =>
        |e| == 4 + 2 * |ws| && Four(e, 0) == |ws| && forall i :: 0 <= i < |ws| ==> Two(e, 4 + 2 * i) == ws[i]
  {
    hide LE, FromLE, Pow256, WideBytes, Four, Two;
    var e := Encode(f);
    Powers();
    match f
    case Byte(b) =>
    case Word(w) =>
      LERoundTrip(w, 2);
      Value2(e);
    case Uint(u) =>
      LERoundTrip(u, 4);
      Value4(e);
    case Int64(q) =>
      LERoundTrip(q, 8);
      Value8(e);
    case Str(s) =>
      LengthPrefix(|s|, s);
    case Wide(ws) =>
      LengthPrefix(|ws|, WideBytes(ws));
      forall i | 0 <= i < |ws|
        ensures Two(e, 4 + 2 * i) == ws[i]
      {
        WideBytesAt(ws, i);
        TwoShift(LE(|ws|, 4), WideBytes(ws), 2 * i);
      }
  }

  lemma LengthPrefix(n: nat, s: seq<byte>)
    requires n < 0x1_0000_0000
    ensures var e := LE(n, 4) + s; Four(e, 0) == n && e[4..] == s
  {
    hide LE, FromLE;
    Powers();
    LERoundTrip(n, 4);
    Value4(LE(n, 4));
  }

  lemma TwoShift(a: seq<byte>, b: seq<byte>, i: nat)
    requires i + 2 <= |b|
    ensures Two(a + b, |a| + i) == Two(b, i)
  {
  }

  lemma {:induction false} WideBytesAt(ws: wstring, i: nat)
    requires i < |ws|
    ensures Two(WideBytes(ws), 2 * i) == ws[i]
  {
    hide LE, FromLE;
    var head, tail := LE(ws[0], 2), WideBytes(ws[1..]);
    assert WideBytes(ws) == head + tail;
    if i == 0 {
      Powers();
      LERoundTrip(ws[0], 2);
      Value2(head);
    } else {
      WideBytesAt(ws[1..], i - 1);
      TwoShift(head, tail, 2 * (i - 1));
    }
  }

  /** What is not there is not read: an integer is 0, and a string is empty, its length prefix being gone. */
  lemma ReadMissing(c: Cursor, w: nat)
    ensures !c.Has(w) ==> ReadUint(c, w) == (0, c)
    ensures c.Has(4) ==>
      var n := FromLE(c.Next(4));
      && (!c.Skip(4).Has(n) ==> ReadStr(c, 0) == ([], c.Skip(4)))
      && (!c.Skip(4).Has(2 * if n < 260 then n else 260) ==> ReadWide(c, 0) == ([], c.Skip(4)))
  {
    hide FromLE;
  }

  /** A string of a given size is read without a prefix. */
  lemma ReadSized(c: Cursor, size: u32)
    requires size > 0
    ensures ReadStr(c, size) == if c.Has(size) then (UpToZero(c.Next(size), 0), c.Skip(size)) else ([], c)
    ensures ReadWide(c, size) ==
      if c.Has(2 * size) then (UpToZero(WideChars(c.Next(2 * size)), 0), c.Skip(2 * size)) else ([], c)
  {
    hide UpToZero, WideChars;
  }

  /** Two fields that are written and not read back: a string with a zero, and a wide string that is one too long. */
  lemma UnreadableOccur()
    ensures ReadField(KStr, Cursor(Encode(Str([0])), 0)).0 != Str([0])
    ensures var ws: wstring := seq(MAX_PATH + 1, _ => 1);
      |Encode(Wide(ws))| == 526 && ReadField(KWide, Cursor(Encode(Wide(ws)), 0)).0 != Wide(ws)
  {
    hide ReadField;
    var ws: wstring := seq(MAX_PATH + 1, _ => 1);
    FieldRoundTrip([], Str([0]), []);
    FieldRoundTrip([], Wide(ws), []);
    assert [] + Encode(Str([0])) + [] == Encode(Str([0]));
    assert [] + Encode(Wide(ws)) + [] == Encode(Wide(ws));
  }

  lemma EncodeCons(fs: seq<Field>)
    requires fs != []
    ensures EncodeAll(fs) == Encode(fs[0]) + EncodeAll(fs[1..])
  {
  }

  // ---------- The mask ----------

  function MaskByte(b: byte, key: byte): byte {
    255 - b + key
  }

  function Masked(s: seq<byte>, key: byte): (m: seq<byte>)
    ensures |m| == |s|
  {
    seq(|s|, i requires 0 <= i < |s| => MaskByte(s[i], key))
  }

  /** A masked byte and the byte itself add up to 255 and the key byte, modulo 256. */
  lemma MaskSum(s: seq<byte>, key: byte)
    ensures forall i :: 0 <= i < |s| ==> Masked(s, key)[i] + s[i] == 255 + key
  {
    hide MaskByte;
    forall i | 0 <= i < |s|
      ensures Masked(s, key)[i] + s[i] == 255 + key
    {
      ByteSum(s[i], key);
    }
  }

  lemma ByteSum(b: byte, key: byte)
    ensures MaskByte(b, key) + b == 255 + key
  {
  }

  /** The same pass with the same key masks and unmasks. */
  lemma MaskTwice(s: seq<byte>, key: byte)
    ensures Masked(Masked(s, key), key) == s
  {
    forall b: byte
      ensures MaskByte(MaskByte(b, key), key) == b
    {
    }
  }
}
