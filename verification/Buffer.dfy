/** The packet buffer: a six-byte header (opcode, length, mask key) and a body, in a fixed array. */
module Buffers {
  import opened Sequences
  import opened Bytes
  import opened Fields

  const MAX_BUFFER_SIZE: nat := 4000
  const REAL_BUFFER_OFFSET: nat := 6

  /** The bytes of a package: opcode, little-endian body length, key byte, body. */
  function Package(op: byte, tag: byte, body: seq<byte>): (s: seq<byte>)
    ensures |s| == REAL_BUFFER_OFFSET + |body|
  {
    [op] + LE(|body|, 4) + [tag] + body
  }

  /** What a nested read finds at the cursor. */
  datatype Nest = NoHeader | TooShort(size: nat) | Whole(size: nat, op: byte, body: seq<byte>)

  function Nested(c: Cursor): Nest {
    if !c.Has(REAL_BUFFER_OFFSET) then NoHeader
    else
      var size := REAL_BUFFER_OFFSET + FromLE(c.bytes[c.off + 1..c.off + 5]);
      if !c.Has(size) then TooShort(size)
      else Whole(size, c.bytes[c.off], c.bytes[c.off + REAL_BUFFER_OFFSET..c.off + size])
  }

  /** A nested package comes back whole, and the cursor ends behind it. */
  lemma NestedRoundTrip(pre: seq<byte>, op: byte, tag: byte, body: seq<byte>, post: seq<byte>)
    requires |body| < 0x1_0000_0000
    ensures Nested(Cursor(pre + Package(op, tag, body) + post, |pre|)) == Whole(REAL_BUFFER_OFFSET + |body|, op, body)
  {
    var p := Package(op, tag, body);
    var bytes := pre + p + post;
    assert bytes[|pre|..|pre| + |p|] == p;
    assert bytes[|pre| + 1..|pre| + 5] == p[1..5] == LE(|body|, 4);
    Powers();
    LERoundTrip(|body|, 4);
    assert bytes[|pre| + REAL_BUFFER_OFFSET..|pre| + |p|] == p[REAL_BUFFER_OFFSET..] == body;
  }

  class Buffer {
    var used: nat
    var readoffset: nat
    const bufferinternal: array<byte>

    ghost predicate Valid()
      reads this
    {
      bufferinternal.Length == MAX_BUFFER_SIZE && used <= MAX_BUFFER_SIZE && readoffset <= MAX_BUFFER_SIZE
    }

    /** A package has been started: the header is there. */
    ghost predicate Open()
      reads this
    {
      Valid() && REAL_BUFFER_OFFSET <= used
    }

    ghost function Bytes(): seq<byte>
      requires Valid()
      reads this, bufferinternal
    {
      bufferinternal[..used]
    }

    ghost function Opcode(): byte
      requires Valid()
      reads this, bufferinternal
    {
      bufferinternal[0]
    }

    ghost function Tag(): byte
      requires Valid()
      reads this, bufferinternal
    {
      bufferinternal[5]
    }

    ghost function LengthField(): nat
      requires Valid()
      reads this, bufferinternal
    {
      FromLE(bufferinternal[1..5])
    }

    ghost function Body(): seq<byte>
      requires Open()
      reads this, bufferinternal
    {
      bufferinternal[REAL_BUFFER_OFFSET..used]
    }

    /** The length field agrees with `used`. */
    ghost predicate InSync()
      reads this, bufferinternal
    {
      Open() && LengthField() == used - REAL_BUFFER_OFFSET
    }

    ghost function At(): Cursor
      requires Valid()
      reads this, bufferinternal
    {
      Cursor(Bytes(), readoffset)
    }

    lemma InSyncIsPackage()
      requires InSync()
      ensures Bytes() == Package(Opcode(), Tag(), Body())
    {
      LEOfFromLE(bufferinternal[1..5]);
    }

    constructor ()
      ensures Valid() && fresh(bufferinternal)
      ensures used == 0 && readoffset == REAL_BUFFER_OFFSET
    {
      bufferinternal := new byte[MAX_BUFFER_SIZE];
      used := 0;
      readoffset := REAL_BUFFER_OFFSET;
    }

    method EmptyUsed()
      requires Valid()
      modifies this
      ensures Valid() && used == 0 && readoffset == REAL_BUFFER_OFFSET
    {
      readoffset := REAL_BUFFER_OFFSET;
      used := 0;
    }

    method PutLength(n: u32)
      requires Valid()
      modifies bufferinternal
      ensures LengthField() == n
      ensures bufferinternal[0] == old(bufferinternal[0]) && bufferinternal[5..] == old(bufferinternal[5..])
    {
      var s := LE(n, 4);
      bufferinternal[1], bufferinternal[2], bufferinternal[3], bufferinternal[4] := s[0], s[1], s[2], s[3];
      Powers();
      LERoundTrip(n, 4);
      assert bufferinternal[1..5] == s;
    }

    /** The key byte keeps whatever the array held before. */
    method CreatePackage(op: byte)
      requires Valid()
      modifies this, bufferinternal
      ensures InSync() && Opcode() == op && Tag() == old(Tag()) && Body() == []
      ensures readoffset == REAL_BUFFER_OFFSET
    {
      EmptyUsed();
      used := REAL_BUFFER_OFFSET;
      bufferinternal[0] := op;
      PutLength(0);
    }

    method CopyIn(start: nat, data: seq<byte>)
      requires Valid() && start + |data| <= MAX_BUFFER_SIZE
      modifies bufferinternal
      ensures bufferinternal[..start] == old(bufferinternal[..start])
      ensures bufferinternal[start..start + |data|] == data
      ensures bufferinternal[start + |data|..] == old(bufferinternal[start + |data|..])
    {
      for i := 0 to |data|
        invariant bufferinternal[..start] == old(bufferinternal[..start])
        invariant forall x :: 0 <= x < i ==> bufferinternal[start + x] == data[x]
        invariant bufferinternal[start + i..] == old(bufferinternal[start + i..])
      {
        bufferinternal[start + i] := data[i];
      }
    }

    /** The copy at the end of the used bytes; the header is not touched. */
    method Append(data: seq<byte>)
      requires Open() && used + |data| <= MAX_BUFFER_SIZE
      modifies this, bufferinternal
      ensures Open() && used == old(used) + |data| && readoffset == old(readoffset)
      ensures bufferinternal[..REAL_BUFFER_OFFSET] == old(bufferinternal[..REAL_BUFFER_OFFSET])
      ensures Body() == old(Body()) + data
    {
      CopyIn(used, data);
      ghost var head := bufferinternal[..used];
      assert head == old(bufferinternal[..used]);
      assert bufferinternal[..REAL_BUFFER_OFFSET] == head[..REAL_BUFFER_OFFSET];
      assert bufferinternal[REAL_BUFFER_OFFSET..used + |data|] == head[REAL_BUFFER_OFFSET..] + data;
      used := used + |data|;
    }

    /** The caller must leave room: nothing here checks the size of the array. */
    method AddData(data: seq<byte>, dontChangeLength: bool)
      requires Open() && used + |data| <= MAX_BUFFER_SIZE
      modifies this, bufferinternal
      ensures Open() && used == old(used) + |data| && readoffset == old(readoffset)
      ensures Opcode() == old(Opcode()) && Tag() == old(Tag()) && Body() == old(Body()) + data
      ensures LengthField() == (old(LengthField()) + if dontChangeLength then 0 else |data|) % 0x1_0000_0000
      ensures old(InSync()) && !dontChangeLength ==> InSync()
    {
      hide FromLE;
      ghost var head := bufferinternal[..REAL_BUFFER_OFFSET];
      Append(data);
      assert bufferinternal[1..5] == head[1..5] == old(bufferinternal[1..5]);
      assert bufferinternal[0] == head[0] && bufferinternal[5] == head[5];
      var length := FromLE(bufferinternal[1..5]);
      Powers();
      FromLEBounded(bufferinternal[1..5]);
      if !dontChangeLength {
        ghost var rest := bufferinternal[5..];
        PutLength((length + |data|) % 0x1_0000_0000);
        assert bufferinternal[5] == rest[0];
        assert bufferinternal[REAL_BUFFER_OFFSET..used] == rest[1..used - 5];
      }
    }

    // ---------- Typed writes ----------

    /** An integer of `w` bytes. */
    method AddUint(n: nat, w: nat)
      requires Open() && used + w <= MAX_BUFFER_SIZE
      modifies this, bufferinternal
      ensures Open() && used == old(used) + w && readoffset == old(readoffset)
      ensures Opcode() == old(Opcode()) && Tag() == old(Tag()) && Body() == old(Body()) + LE(n, w)
      ensures old(InSync()) ==> InSync()
    {
      AddData(LE(n, w), false);
    }

    /** The length prefix is left out when a size is given; the whole string is written either way. */
    method AddStr(str: seq<byte>, size: u32)
      requires Open() && used + (if size == 0 then 4 else 0) + |str| <= MAX_BUFFER_SIZE
      modifies this, bufferinternal
      ensures Open() && readoffset == old(readoffset)
      ensures used == old(used) + (if size == 0 then 4 else 0) + |str|
      ensures Opcode() == old(Opcode()) && Tag() == old(Tag())
      ensures Body() == old(Body()) + ((if size == 0 then LE(|str|, 4) else []) + str)
      ensures old(InSync()) ==> InSync()
    {
      hide Body, InSync, Opcode, Tag, LE;
      ghost var prefix := if size == 0 then LE(|str|, 4) else [];
      if size == 0 {
        AddUint(|str|, 4);
      }
      AddData(str, false);
      assert old(Body()) + prefix + str == old(Body()) + (prefix + str);
    }

    method AddWide(str: wstring, size: u32)
      requires Open() && used + (if size == 0 then 4 else 0) + 2 * |str| <= MAX_BUFFER_SIZE
      modifies this, bufferinternal
      ensures Open() && readoffset == old(readoffset)
      ensures used == old(used) + (if size == 0 then 4 else 0) + 2 * |str|
      ensures Opcode() == old(Opcode()) && Tag() == old(Tag())
      ensures Body() == old(Body()) + ((if size == 0 then LE(|str|, 4) else []) + WideBytes(str))
      ensures old(InSync()) ==> InSync()
    {
      hide Body, InSync, Opcode, Tag, LE;
      ghost var prefix := if size == 0 then LE(|str|, 4) else [];
      if size == 0 {
        AddUint(|str|, 4);
      }
      AddData(WideBytes(str), false);
      assert old(Body()) + prefix + WideBytes(str) == old(Body()) + (prefix + WideBytes(str));
    }

    method AddField(f: Field)
      requires Open() && used + |Encode(f)| <= MAX_BUFFER_SIZE
      modifies this, bufferinternal
      ensures Open() && used == old(used) + |Encode(f)| && readoffset == old(readoffset)
      ensures Opcode() == old(Opcode()) && Tag() == old(Tag()) && Body() == old(Body()) + Encode(f)
      ensures old(InSync()) ==> InSync()
    {
      hide Body, InSync, Opcode, Tag, LE;
      if f.Byte? {
        LEByte(f.b);
      }
      match f {
        case Byte(b) => AddUint(b as nat, 1);
        case Word(w) => AddUint(w, 2);
        case Uint(u) => AddUint(u, 4);
        case Int64(q) => AddUint(q, 8);
        case Str(str) => AddStr(str, 0);
        case Wide(str) => AddWide(str, 0);
      }
    }

    /** One after the other, in the order of a format string. */
    method AddFields(fields: seq<Field>)
      requires InSync() && used + |EncodeAll(fields)| <= MAX_BUFFER_SIZE
      modifies this, bufferinternal
      ensures Open() && InSync() && readoffset == old(readoffset)
      ensures Opcode() == old(Opcode()) && Tag() == old(Tag()) && Body() == old(Body()) + EncodeAll(fields)
    {
      hide EncodeAll, Encode, FromLE;
      ghost var body, rest, all := Body(), EncodeAll(fields), old(Body()) + EncodeAll(fields);
      assert fields[0..] == fields;
      for i := 0 to |fields|
        invariant Valid() && Open() && InSync() && readoffset == old(readoffset)
        invariant Opcode() == old(Opcode()) && Tag() == old(Tag())
        invariant Body() == body && rest == EncodeAll(fields[i..]) && body + rest == all
        invariant used + |rest| <= MAX_BUFFER_SIZE
      {
        EncodeStep(fields, i);
        AddField(fields[i]);
        rest := EncodeAll(fields[i + 1..]);
        ConcatAssociates(body, Encode(fields[i]), rest);
        body := body + Encode(fields[i]);
      }
      EncodeNone(fields);
    }

    // ---------- Typed reads ----------

    method ReadStart()
      requires Valid()
      modifies `readoffset
      ensures Valid() && readoffset == REAL_BUFFER_OFFSET
    {
      readoffset := REAL_BUFFER_OFFSET;
    }

    method ReadUint(w: nat) returns (n: nat)
      requires Valid()
      modifies `readoffset
      ensures Valid() && (n, At()) == Fields.ReadUint(old(At()), w)
    {
      if readoffset + w > used {
        return 0;
      }
      n := FromLE(bufferinternal[readoffset..readoffset + w]);
      assert Bytes()[readoffset..readoffset + w] == bufferinternal[readoffset..readoffset + w];
      readoffset := readoffset + w;
    }

    /** `n` bytes at the read offset, if they are there. */
    method Take(n: nat) returns (ok: bool, bytes: seq<byte>)
      requires Valid() && readoffset + n < 0x1_0000_0000
      modifies `readoffset
      ensures Valid() && ok == old(At()).Has(n)
      ensures ok ==> bytes == old(At()).Next(n) && At() == old(At()).Skip(n)
      ensures !ok ==> At() == old(At())
    {
      ok := (readoffset + n) % 0x1_0000_0000 <= used;
      bytes := [];
      if ok {
        bytes := bufferinternal[readoffset..readoffset + n];
        assert Bytes()[readoffset..readoffset + n] == bytes;
        readoffset := readoffset + n;
      }
    }

    /** Past 2^32 the sum of offset and size would wrap. */
    method ReadMultiString(size: u32) returns (str: seq<byte>)
      requires Valid()
      requires var n := if size == 0 then Fields.ReadUint(At(), 4).0 else size; readoffset + 4 + n < 0x1_0000_0000
      modifies `readoffset
      ensures Valid() && (str, At()) == ReadStr(old(At()), size)
    {
      hide FromLE;
      var n := size;
      if n == 0 {
        n := ReadUint(4);
      }
      var ok, chars := Take(n);
      str := if ok then UpToZero(chars, 0) else [];
    }

    method ReadWideString(size: u32) returns (str: wstring)
      requires Valid() && readoffset + 2 * size < 0x1_0000_0000
      modifies `readoffset
      ensures Valid() && (str, At()) == ReadWide(old(At()), size)
    {
      hide FromLE, WideChars;
      var n := size;
      if n == 0 {
        n := ReadUint(4);
        n := if n < MAX_PATH then n else MAX_PATH;
      }
      var ok, chars := Take(n * 2);
      str := if ok then UpToZero(WideChars(chars), 0) else [];
    }

    // ---------- Nested packages ----------

    /** Appends the whole of this buffer, header included. */
    method Write(buffer: Buffer)
      requires Valid() && buffer.Open() && buffer.used + used <= MAX_BUFFER_SIZE
      requires buffer.bufferinternal != bufferinternal && buffer != this
      modifies buffer, buffer.bufferinternal
      ensures buffer.Open() && buffer.readoffset == old(buffer.readoffset)
      ensures buffer.Opcode() == old(buffer.Opcode()) && buffer.Tag() == old(buffer.Tag())
      ensures buffer.Body() == old(buffer.Body()) + Bytes()
      ensures old(buffer.InSync()) ==> buffer.InSync()
    {
      buffer.AddData(bufferinternal[..used], false);
    }

    /** Takes a nested package out of `buffer`; the key byte is not taken along. Past 2^32 the sum would wrap. */
    method Read(buffer: Buffer)
      requires Valid() && buffer.Valid()
      requires buffer.bufferinternal != bufferinternal && buffer != this
      requires var n := Nested(buffer.At()); n.TooShort? ==> buffer.readoffset + n.size < 0x1_0000_0000
      modifies this, bufferinternal, buffer`readoffset
      ensures Valid() && buffer.Valid()
      ensures match Nested(old(buffer.At()))
        case NoHeader => used == old(used) && buffer.readoffset == old(buffer.readoffset)
        case TooShort(_) => used == 0 && buffer.readoffset == old(buffer.readoffset)
        case Whole(size, op, body) =>
          && InSync() && Opcode() == op && Body() == body
          && buffer.readoffset == old(buffer.readoffset) + size
    {
      hide Body, InSync, Opcode, Tag, LengthField, FromLE;
      if buffer.readoffset + REAL_BUFFER_OFFSET > buffer.used {
        return;
      }
      var off := buffer.readoffset;
      ghost var bytes := buffer.Bytes();
      var size := FromLE(buffer.bufferinternal[off + 1..off + 5]);
      assert bytes[off + 1..off + 5] == buffer.bufferinternal[off + 1..off + 5];
      EmptyUsed();
      if (off + size + REAL_BUFFER_OFFSET) % 0x1_0000_0000 > buffer.used {
        return;
      }
      var op, body := buffer.bufferinternal[off], buffer.bufferinternal[off + REAL_BUFFER_OFFSET..off + REAL_BUFFER_OFFSET + size];
      assert body == bytes[off + REAL_BUFFER_OFFSET..off + REAL_BUFFER_OFFSET + size];
      Fill(op, body);
      buffer.readoffset := off + size + REAL_BUFFER_OFFSET;
    }

    method Fill(op: byte, body: seq<byte>)
      requires Valid() && REAL_BUFFER_OFFSET + |body| <= MAX_BUFFER_SIZE
      modifies this, bufferinternal
      ensures Open() && InSync() && Opcode() == op && Body() == body && readoffset == REAL_BUFFER_OFFSET
    {
      CreatePackage(op);
      AddData(body, false);
    }

    // ---------- Copying and masking ----------

    method Copy(buffer: Buffer)
      requires Valid() && buffer.Valid() && buffer.bufferinternal != bufferinternal
      modifies this, bufferinternal
      ensures Valid() && At() == buffer.At()
    {
      used := buffer.used;
      readoffset := buffer.readoffset;
      forall i | 0 <= i < used {
        bufferinternal[i] := buffer.bufferinternal[i];
      }
    }

    /** The pass over the body shared by masking and unmasking. */
    method MaskBody()
      requires Valid()
      modifies bufferinternal
      ensures bufferinternal[..REAL_BUFFER_OFFSET] == old(bufferinternal[..REAL_BUFFER_OFFSET])
      ensures Open() ==> Body() == Masked(old(Body()), Tag())
    {
      hide MaskByte;
      var i := REAL_BUFFER_OFFSET;
      while i < used
        invariant REAL_BUFFER_OFFSET <= i <= MAX_BUFFER_SIZE
        invariant bufferinternal[..REAL_BUFFER_OFFSET] == old(bufferinternal[..REAL_BUFFER_OFFSET])
        invariant forall x :: REAL_BUFFER_OFFSET <= x < used ==>
          bufferinternal[x] == if x < i then MaskByte(old(bufferinternal[x]), Tag()) else old(bufferinternal[x])
      {
        bufferinternal[i] := MaskByte(bufferinternal[i], bufferinternal[REAL_BUFFER_OFFSET - 1]);
        assert bufferinternal[..REAL_BUFFER_OFFSET][5] == Tag();
        i := i + 1;
      }
    }

    /** `key` is the random key byte. */
    method Encrypt(key: byte)
      requires Valid()
      modifies bufferinternal
      ensures Opcode() == old(Opcode()) && LengthField() == old(LengthField()) && Tag() == key
      ensures Open() ==> Body() == Masked(old(Body()), key)
      ensures Open() ==> forall i :: 0 <= i < |Body()| ==> Body()[i] + old(Body())[i] == 255 + key
      ensures old(InSync()) ==> InSync()
    {
      hide Masked, FromLE;
      ghost var field := bufferinternal[1..5];
      bufferinternal[REAL_BUFFER_OFFSET - 1] := key;
      assert bufferinternal[1..5] == field;
      assert Open() ==> Body() == old(Body());
      ghost var head, body := bufferinternal[..REAL_BUFFER_OFFSET], if Open() then Body() else [];
      MaskBody();
      MaskSum(body, key);
      assert head[1..5] == field && head[1..5] == bufferinternal[1..5];
    }

    method Decrypt()
      requires Valid()
      modifies bufferinternal
      ensures bufferinternal[..REAL_BUFFER_OFFSET] == old(bufferinternal[..REAL_BUFFER_OFFSET])
      ensures Opcode() == old(Opcode()) && LengthField() == old(LengthField()) && Tag() == old(Tag())
      ensures Open() ==> Body() == Masked(old(Body()), Tag())
      ensures Open() ==> forall i :: 0 <= i < |Body()| ==> Body()[i] + old(Body())[i] == 255 + Tag()
      ensures old(InSync()) ==> InSync()
    {
      hide Masked, FromLE;
      ghost var head, body := bufferinternal[..REAL_BUFFER_OFFSET], if Open() then Body() else [];
      MaskBody();
      MaskSum(body, Tag());
      assert head[1..5] == old(bufferinternal[1..5]) && head[1..5] == bufferinternal[1..5];
    }
  }
}
