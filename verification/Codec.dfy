/** The stand-alone buffer codec: pad, shuffle, append the key, chain; and back, given only the key's length. */
module Codec {
  import opened Bytes
  import opened Shuffle
  import opened Chain

  const MARKER: byte := 0x40 // '@'
  // '+', '-', '[', ']', '^', '%', '&', '#', '$', '!', '/', '*', '(', ')', '{', '}'
  const PUNCTUATION: seq<byte> :=
    [0x2B, 0x2D, 0x5B, 0x5D, 0x5E, 0x25, 0x26, 0x23, 0x24, 0x21, 0x2F, 0x2A, 0x28, 0x29, 0x7B, 0x7D]

  predicate IsAlnum(b: byte) {
    (0x41 <= b <= 0x5A) || (0x61 <= b <= 0x7A) || (0x30 <= b <= 0x39)
  }

  // ---------- Encryption on sequences ----------
  // `draw(i)` is the value of the i-th call of rand().

  /** Bytes appended to reach a multiple of `k`, plus a whole extra row. */
  function FillLength(len: nat, k: nat): (f: nat)
    requires 0 < k
    ensures f > k
  {
    2 * k - Column(len, k)
  }

  function Fill(len: nat, k: nat, draw: nat -> nat): (s: seq<byte>)
    requires 0 < k
    ensures |s| == FillLength(len, k)
  {
    seq(FillLength(len, k), i requires 0 <= i => if i == 0 then MARKER else PUNCTUATION[draw(i - 1) % 16])
  }

  function PaddedLength(len: nat, k: nat): (n: nat)
    requires 0 < k
    ensures n % 2 == 0 && len + k < n
  {
    var n := len + FillLength(len, k);
    if n % 2 == 1 then n + 1 else n
  }

  /** The message, the marker, the padding, and one more byte when the length would be odd. */
  function Padded(msg: seq<byte>, k: nat, draw: nat -> nat): (s: seq<byte>)
    requires 0 < k
    ensures |s| == PaddedLength(|msg|, k)
  {
    var s := msg + Fill(|msg|, k, draw);
    if |s| % 2 == 1 then s + [PUNCTUATION[draw(FillLength(|msg|, k) - 1) % 10]] else s
  }

  function TailLength(len: nat, k: nat): nat
    requires 0 < k
  {
    var over := Column(len, k);
    if over > 0 then k - over else 0
  }

  /** Padding after the key, up to a whole number of rows; its first draw is number `first`. */
  function Tail(len: nat, k: nat, first: nat, draw: nat -> nat): (s: seq<byte>)
    requires 0 < k
    ensures |s| == TailLength(len, k)
  {
    seq(TailLength(len, k), i requires 0 <= i => PUNCTUATION[draw(first + i) % 10])
  }

  /** The text that enters the XOR chain. */
  function Prepared(msg: seq<byte>, key: seq<byte>, draw: nat -> nat): (s: seq<byte>)
    requires 0 < |key|
  {
    var padded := Padded(msg, |key|, draw);
    Rounds(padded, |padded| / 2) + key + Tail(|padded| + |key|, |key|, |padded| - |msg| - 1, draw)
  }

  function Encrypted(msg: seq<byte>, key: seq<byte>, draw: nat -> nat): seq<byte>
    requires 0 < |key|
  {
    Chained(Prepared(msg, key, draw), key)
  }

  // ---------- Decryption on sequences ----------

  /** Whether a backward scan stops at `b`; the second scan also stops at the marker. */
  predicate Stops(b: byte, marker: bool) {
    IsAlnum(b) || (marker && b == MARKER)
  }

  /** Where a backward scan from the end of `s` stops; -1 when it would leave `s` or classify a non-ASCII byte. */
  function ScanBack(s: seq<byte>, marker: bool): (i: int)
    ensures -1 <= i < |s|
  {
    if s == [] then -1
    else
      var last := s[|s| - 1];
      if last >= 0x80 then -1
      else if Stops(last, marker) then |s| - 1
      else ScanBack(s[..|s| - 1], marker)
  }

  /** The result of decryption, or none where the scans have no defined stopping place. */
  datatype Outcome = Undecodable | Plain(msg: seq<byte>, key: seq<byte>)

  /** The buffer after the keyless pass over its whole rows. */
  function WithoutChain(c: seq<byte>, k: nat): (p: seq<byte>)
    requires 0 < k
    ensures |p| == |c|
  {
    WholeRowsFit(|c|, k);
    var whole := Row(|c|, k) * k;
    Unchained(c[..whole], k) + c[whole..]
  }

  /** The text under the padding once the end of the key is known. */
  function Unwrapped(p: seq<byte>, k: nat): (s: seq<byte>)
    requires k <= |p|
    ensures |s| == |p| - k
  {
    var n := |p| - k;
    var masked := FirstRowMasked(p[..n], p[n..]);
    Unrounds(masked, |masked| / 2)
  }

  function Decrypted(c: seq<byte>, k: nat): Outcome
    requires 0 < k
  {
    AfterChain(WithoutChain(c, k), k)
  }

  /** The first scan finds the end of the key in the unchained text. */
  function AfterChain(p: seq<byte>, k: nat): Outcome
    requires 0 < k
  {
    var end := ScanBack(p + [0], false) + 1;
    if end < k || end > |p| then Undecodable else UpToMarker(Unwrapped(p[..end], k), p[end - k..end])
  }

  /** The second scan finds the end of the message in the unshuffled text. */
  function UpToMarker(s: seq<byte>, key: seq<byte>): Outcome {
    var len := ScanBack(s + [0], true);
    if len < 0 || len > |s| then Undecodable else Plain(s[..len], key)
  }

  // ---------- Arithmetic of the lengths ----------

  lemma WholeRowsFit(n: nat, k: nat)
    requires 0 < k
    ensures Row(n, k) * k <= n
    ensures Column(n, k) == 0 ==> Row(n, k) * k == n
    ensures Column(Row(n, k) * k, k) == 0
  {
    DivMod(0, Row(n, k), k);
  }

  /** The length of the ciphertext, from the length of the message alone. */
  function EncryptedLength(len: nat, k: nat): nat
    requires 0 < k
  {
    var n := k * (Row(len, k) + 2);
    if n % 2 == 0 then n + k else n + 2 * k
  }

  /** The key goes right behind the shuffled text, and the tail completes the last row. */
  lemma KeyPlace(len: nat, k: nat)
    requires 0 < k
    ensures var n := PaddedLength(len, k) + k;
      EncryptedLength(len, k) == n + TailLength(n, k) && Column(EncryptedLength(len, k), k) == 0
    ensures len < EncryptedLength(len, k) <= len + 4 * k
  {
    var rows := Row(len, k) + 2;
    FillToRows(len, k);
    hide Row, Column, FillLength;
    DivMod(0, rows + 1, k);
    DivMod(0, rows + 2, k);
    if k > 1 {
      DivMod(1, rows + 1, k);
    }
    Distribute(rows, k);
  }

  lemma FillToRows(len: nat, k: nat)
    requires 0 < k
    ensures len + FillLength(len, k) == k * (Row(len, k) + 2)
  {
    RowColumn(len, k);
    Distribute(Row(len, k), k);
  }

  lemma Distribute(r: nat, k: nat)
    ensures k * (r + 1) == (r + 1) * k == k * r + k
    ensures k * (r + 2) == (r + 2) * k == k * r + 2 * k
  {
  }

  lemma PreparedLength(msg: seq<byte>, key: seq<byte>, draw: nat -> nat)
    requires 0 < |key|
    ensures |Prepared(msg, key, draw)| == EncryptedLength(|msg|, |key|)
    ensures Column(|Prepared(msg, key, draw)|, |key|) == 0
  {
    hide Round, Rounds, Padded, PaddedLength, Row, Column, EncryptedLength;
    KeyPlace(|msg|, |key|);
  }

  lemma EncryptedLengthExact(msg: seq<byte>, key: seq<byte>, draw: nat -> nat)
    requires 0 < |key|
    ensures |Encrypted(msg, key, draw)| == EncryptedLength(|msg|, |key|)
    ensures var n := |key| * (|msg| / |key| + 2);
      EncryptedLength(|msg|, |key|) == if n % 2 == 0 then n + |key| else n + 2 * |key|
    ensures Column(EncryptedLength(|msg|, |key|), |key|) == 0
    ensures EncryptedLength(|msg|, |key|) <= |msg| + 4 * |key|
  {
    hide Prepared, Column, Row, EncryptedLength;
    PreparedLength(msg, key, draw);
    KeyPlace(|msg|, |key|);
    LengthIs(|msg|, |key|);
  }

  lemma LengthIs(len: nat, k: nat)
    requires 0 < k
    ensures var n := k * (len / k + 2); EncryptedLength(len, k) == if n % 2 == 0 then n + k else n + 2 * k
  {
  }

  // ---------- The round trip ----------

  lemma PunctuationNeverStops(i: nat)
    requires i < 16
    ensures PUNCTUATION[i] < 0x80 && !Stops(PUNCTUATION[i], true)
  {
  }

  /** A scan passes over any run of padding and stops at the byte before it. */
  lemma {:induction false} ScanSkipsPadding(s: seq<byte>, pad: seq<byte>, marker: bool)
    requires s != [] && forall b :: b in pad ==> b < 0x80 && !Stops(b, true)
    ensures s[|s| - 1] < 0x80 && Stops(s[|s| - 1], marker) ==> ScanBack(s + pad, marker) == |s| - 1
    ensures s[|s| - 1] >= 0x80 || !Stops(s[|s| - 1], marker) ==> ScanBack(s + pad, marker) < |s| - 1
  {
    if pad == [] {
      assert s + pad == s;
    } else {
      var front := pad[..|pad| - 1];
      assert (s + pad)[..|s + pad| - 1] == s + front;
      assert pad[|pad| - 1] in pad && forall b :: b in front ==> b in pad;
      ScanSkipsPadding(s, front, marker);
    }
  }

  /** The first scan finds the end of the key exactly when the key ends in a letter or a digit. */
  lemma KeyScanExact(msg: seq<byte>, key: seq<byte>, draw: nat -> nat)
    requires 0 < |key|
    ensures var n := |Padded(msg, |key|, draw)| + |key|;
      ScanBack(Prepared(msg, key, draw) + [0], false) == n - 1 <==> IsAlnum(key[|key| - 1])
  {
    hide Round, Rounds, Padded, ScanBack, Tail;
    var padded := Padded(msg, |key|, draw);
    var upToKey := Rounds(padded, |padded| / 2) + key;
    var tail := Tail(|upToKey|, |key|, |padded| - |msg| - 1, draw);
    forall b | b in tail + [0]
      ensures b < 0x80 && !Stops(b, true)
    {
      PaddingHarmless(tail, |upToKey|, |key|, |padded| - |msg| - 1, draw, b);
    }
    ScanSkipsPadding(upToKey, tail + [0], false);
    assert upToKey + (tail + [0]) == Prepared(msg, key, draw) + [0];
  }

  lemma PaddingHarmless(tail: seq<byte>, len: nat, k: nat, first: nat, draw: nat -> nat, b: byte)
    requires 0 < k && tail == Tail(len, k, first, draw) && b in tail + [0]
    ensures b < 0x80 && !Stops(b, true)
  {
    if b in tail {
      var i :| 0 <= i < |tail| && tail[i] == b;
      PunctuationNeverStops(draw(first + i) % 10);
    }
  }

  /** The marker, then the padding, then the evening byte, each from the next random value. */
  lemma PaddedBytes(msg: seq<byte>, k: nat, draw: nat -> nat, x: nat)
    requires 0 < k && |msg| <= x < PaddedLength(|msg|, k)
    ensures Padded(msg, k, draw)[x] ==
      if x == |msg| then 0x40
      else if x < |msg| + FillLength(|msg|, k) then PUNCTUATION[draw(x - |msg| - 1) % 16]
      else PUNCTUATION[draw(x - |msg| - 1) % 10]
  {
    hide FillLength, Column, PUNCTUATION;
  }

  /** Behind the marker nothing stops a scan. */
  lemma PaddedHarmless(msg: seq<byte>, k: nat, draw: nat -> nat, x: nat)
    requires 0 < k && |msg| < x < PaddedLength(|msg|, k)
    ensures var b := Padded(msg, k, draw)[x]; b < 0x80 && !Stops(b, true)
  {
    hide Padded, FillLength, Column, PUNCTUATION, Stops;
    PaddedBytes(msg, k, draw, x);
    PunctuationNeverStops(draw(x - |msg| - 1) % 16);
    PunctuationNeverStops(draw(x - |msg| - 1) % 10);
  }

  lemma PaddedPrefix(msg: seq<byte>, k: nat, draw: nat -> nat)
    requires 0 < k
    ensures Padded(msg, k, draw)[..|msg|] == msg
  {
    hide FillLength;
  }

  /** The second scan stops at the marker, right behind the message, whatever the message holds. */
  lemma MessageScanExact(msg: seq<byte>, k: nat, draw: nat -> nat)
    requires 0 < k
    ensures ScanBack(Padded(msg, k, draw) + [0], true) == |msg|
    ensures Padded(msg, k, draw)[..|msg|] == msg
  {
    hide Padded, PaddedLength, ScanBack;
    var padded := Padded(msg, k, draw);
    PaddedPrefix(msg, k, draw);
    var s, pad := padded[..|msg| + 1], padded[|msg| + 1..] + [0];
    forall b | b in pad
      ensures b < 0x80 && !Stops(b, true)
    {
      var i :| 0 <= i < |pad| && pad[i] == b;
      if i < |pad| - 1 {
        PaddedHarmless(msg, k, draw, |msg| + 1 + i);
      }
    }
    PaddedBytes(msg, k, draw, |msg|);
    ScanSkipsPadding(s, pad, true);
    assert s + pad == padded + [0];
  }

  lemma UnwrapUndoesRounds(text: seq<byte>, key: seq<byte>)
    ensures var wrapped := FirstRowMasked(Rounds(text, |text| / 2), key) + key;
      Unwrapped(wrapped, |key|) == text
  {
    hide FirstRowMasked, Rounds, Unrounds;
    var shuffled := Rounds(text, |text| / 2);
    var masked := FirstRowMasked(shuffled, key);
    assert (masked + key)[..|text|] == masked && (masked + key)[|text|..] == key;
    FirstRowMaskTwice(shuffled, key);
    ShuffleInverse(text, |text| / 2);
  }

  lemma ChainUndone(msg: seq<byte>, key: seq<byte>, draw: nat -> nat)
    requires 0 < |key|
    ensures WithoutChain(Encrypted(msg, key, draw), |key|) == FirstRowMasked(Prepared(msg, key, draw), key)
  {
    hide Prepared, Chained, Unchained, FirstRowMasked, Column, Row;
    var c := Encrypted(msg, key, draw);
    PreparedLength(msg, key, draw);
    WholeRowsFit(|c|, |key|);
    assert c[..|c|] == c;
    UnchainRevealsAllButFirstRow(Prepared(msg, key, draw), key);
  }

  lemma {:induction false} ScanStops(s: seq<byte>, marker: bool)
    ensures ScanBack(s, marker) >= 0 ==> Stops(s[ScanBack(s, marker)], marker)
  {
    if s != [] {
      ScanStops(s[..|s| - 1], marker);
    }
  }

  /** Whatever is decrypted, the key that comes out ends in a letter or a digit. */
  lemma KeyEndsAlnum(c: seq<byte>, k: nat)
    requires 0 < k && Decrypted(c, k).Plain?
    ensures var key := Decrypted(c, k).key; |key| == k && IsAlnum(key[k - 1])
  {
    hide WithoutChain, ScanBack, Unwrapped, IsAlnum;
    var p := WithoutChain(c, k);
    ScanStops(p + [0], false);
  }

  /**
   Decryption knows only the key's length. It returns the message and the key, whatever was drawn as padding, exactly
   when the key ends in a letter or a digit.
   */
  lemma RoundTrip(msg: seq<byte>, key: seq<byte>, draw: nat -> nat)
    requires 0 < |key|
    ensures var last := key[|key| - 1];
      Decrypted(Encrypted(msg, key, draw), |key|) == Plain(msg, key) <==>
        (0x30 <= last <= 0x39) || (0x41 <= last <= 0x5A) || (0x61 <= last <= 0x7A)
  {
    hide Encrypted, Decrypted;
    if IsAlnum(key[|key| - 1]) {
      KeyFoundRoundTrip(msg, key, draw);
    } else if Decrypted(Encrypted(msg, key, draw), |key|).Plain? {
      KeyEndsAlnum(Encrypted(msg, key, draw), |key|);
    }
  }

  /** The empty message under the key "+" does not come back. */
  lemma KeyLostOccurs(draw: nat -> nat)
    ensures Decrypted(Encrypted([], [0x2B], draw), 1) != Plain([], [0x2B])
  {
    hide Encrypted, Decrypted;
    RoundTrip([], [0x2B], draw);
  }

  lemma KeyFoundRoundTrip(msg: seq<byte>, key: seq<byte>, draw: nat -> nat)
    requires 0 < |key| && IsAlnum(key[|key| - 1])
    ensures Decrypted(Encrypted(msg, key, draw), |key|) == Plain(msg, key)
  {
    hide Prepared, Padded, PaddedLength, FirstRowMasked, Rounds, ScanBack, Encrypted, WithoutChain, Unwrapped;
    ChainUndone(msg, key, draw);
    KeyEndFound(msg, key, draw);
    UnwrapUndoesRounds(Padded(msg, |key|, draw), key);
    MessageScanExact(msg, |key|, draw);
  }

  lemma KeyEndFound(msg: seq<byte>, key: seq<byte>, draw: nat -> nat)
    requires 0 < |key| && IsAlnum(key[|key| - 1])
    ensures var p, end := FirstRowMasked(Prepared(msg, key, draw), key), |Padded(msg, |key|, draw)| + |key|;
      && end <= |p|
      && ScanBack(p + [0], false) == end - 1
      && p[end - |key|..end] == key
      && p[..end] == FirstRowMasked(Rounds(Padded(msg, |key|, draw), |Padded(msg, |key|, draw)| / 2), key) + key
  {
    hide Prepared, Padded, PaddedLength, FirstRowMasked, Rounds, ScanBack, IsAlnum;
    var prepared := Prepared(msg, key, draw);
    KeyScanExact(msg, key, draw);
    PreparedParts(msg, key, draw);
    var p, at := FirstRowMasked(prepared, key), |Padded(msg, |key|, draw)| + |key| - 1;
    SameScan(prepared + [0], p + [0], |key|, at, false);
  }

  /** The bytes behind the key, each from the next random value. */
  lemma TailBytes(msg: seq<byte>, key: seq<byte>, draw: nat -> nat, x: nat)
    requires 0 < |key| && PaddedLength(|msg|, |key|) + |key| <= x < |Prepared(msg, key, draw)|
    ensures Prepared(msg, key, draw)[x] == PUNCTUATION[draw(x - |key| - |msg| - 1) % 10]
  {
    hide Round, Rounds, Padded, Column, PaddedLength;
  }

  lemma PreparedParts(msg: seq<byte>, key: seq<byte>, draw: nat -> nat)
    requires 0 < |key|
    ensures var k, padded, prepared := |key|, Padded(msg, |key|, draw), Prepared(msg, key, draw);
      var p, end := FirstRowMasked(prepared, key), |padded| + k;
      && k <= |padded|
      && end <= |p|
      && p[..end] == FirstRowMasked(Rounds(padded, |padded| / 2), key) + key
      && p[end - k..end] == key
      && forall i :: k <= i < |p| ==> p[i] == prepared[i]
  {
    hide Round, Rounds, Padded, Tail, Column;
  }

  lemma FirstRowMaskPrefix(s: seq<byte>, n: nat, key: seq<byte>)
    requires n <= |s|
    ensures FirstRowMasked(s, key)[..n] == FirstRowMasked(s[..n], key)
  {
  }

  /** Scans of two texts that agree from `from` on stop at the same place, if the first stops there. */
  lemma {:induction false} SameScan(s: seq<byte>, t: seq<byte>, from: nat, at: nat, marker: bool)
    requires |s| == |t| && ScanBack(s, marker) == at && from <= at
    requires forall i :: from <= i < |s| ==> s[i] == t[i]
    ensures ScanBack(t, marker) == at
  {
    if at < |s| - 1 {
      SameScan(s[..|s| - 1], t[..|t| - 1], from, at, marker);
    }
  }

  // ---------- The in-place procedures ----------

  /** Padding in place; `draws` is the number of random values used. */
  method PadInPlace(a: array<byte>, len: nat, k: nat, draw: nat -> nat) returns (total: nat, draws: nat)
    requires 0 < k && PaddedLength(len, k) <= a.Length
    modifies a
    ensures total == PaddedLength(len, k) && draws == total - len - 1
    ensures a[..total] == Padded(old(a[..len]), k, draw)
    ensures a[total..] == old(a[total..])
  {
    hide Column, Padded, Fill, FillLength;
    ghost var whole := a[..];
    total, draws := FillInPlace(a, len, k, draw);
    ghost var filled := a[..total];
    if total % 2 == 1 {
      a[total] := PUNCTUATION[draw(draws) % 10];
      draws := draws + 1;
      total := total + 1;
    }
    assert a[..len + FillLength(len, k)] == filled;
    assert a[total..] == whole[len + FillLength(len, k)..][total - len - FillLength(len, k)..];
    PaddedIs(whole[..len], a[..total], k, draw);
  }

  /** The marker and the padding behind it. */
  method FillInPlace(a: array<byte>, len: nat, k: nat, draw: nat -> nat) returns (total: nat, draws: nat)
    requires 0 < k && len + FillLength(len, k) <= a.Length
    modifies a
    ensures total == len + FillLength(len, k) && draws == FillLength(len, k) - 1
    ensures a[..total] == old(a[..len]) + Fill(len, k, draw)
    ensures a[total..] == old(a[total..])
  {
    hide Column;
    ghost var whole := a[..];
    ghost var filling := Fill(len, k, draw);
    draws := 0;
    for i := 0 to k - Column(len, k) + k
      invariant draws == if i == 0 then 0 else i - 1
      invariant a[..len] == whole[..len]
      invariant forall x :: 0 <= x < i ==> a[len + x] == filling[x]
      invariant a[len + i..] == whole[len + i..]
    {
      if i == 0 {
        a[len + i] := MARKER;
      } else {
        a[len + i] := PUNCTUATION[draw(draws) % 16];
        draws := draws + 1;
      }
    }
    total := len + k * 2 - Column(len, k);
    assert a[..total] == whole[..len] + filling;
  }

  lemma PaddedIs(msg: seq<byte>, s: seq<byte>, k: nat, draw: nat -> nat)
    requires 0 < k && |s| == PaddedLength(|msg|, k)
    requires var filled := |msg| + FillLength(|msg|, k);
      && s[..filled] == msg + Fill(|msg|, k, draw)
      && (filled < |s| ==> s[filled] == PUNCTUATION[draw(FillLength(|msg|, k) - 1) % 10])
    ensures s == Padded(msg, k, draw)
  {
    hide Fill, FillLength;
  }

  method AppendInPlace(a: array<byte>, n: nat, key: seq<byte>)
    requires n + |key| <= a.Length
    modifies a
    ensures a[..n + |key|] == old(a[..n]) + key
    ensures a[n + |key|..] == old(a[n + |key|..])
  {
    ghost var whole := a[..];
    for i := 0 to |key|
      invariant a[..n] == whole[..n]
      invariant forall x :: 0 <= x < i ==> a[n + x] == key[x]
      invariant a[n + i..] == whole[n + i..]
    {
      a[n + i] := key[i];
    }
  }

  /** The padding of the last row, behind the first `n` bytes. */
  method TailInPlace(a: array<byte>, n: nat, k: nat, draws: nat, draw: nat -> nat) returns (total: nat)
    requires 0 < k && n + |Tail(n, k, draws, draw)| <= a.Length
    modifies a
    ensures total == n + |Tail(n, k, draws, draw)|
    ensures a[..total] == old(a[..n]) + Tail(n, k, draws, draw)
    ensures a[total..] == old(a[total..])
  {
    hide Column;
    ghost var whole := a[..];
    ghost var tail := Tail(n, k, draws, draw);
    var over := Column(n, k);
    if over > 0 {
      for i := 0 to k - over
        invariant a[..n] == whole[..n]
        invariant forall x :: 0 <= x < i ==> a[n + x] == tail[x]
        invariant a[n + i..] == whole[n + i..]
      {
        a[n + i] := PUNCTUATION[draw(draws + i) % 10];
      }
      assert a[..n + k - over] == whole[..n] + tail;
    } else {
      over := k;
    }
    total := n + k - over;
  }

  method EncryptBuffer(a: array<byte>, key: seq<byte>, len: nat, draw: nat -> nat) returns (total: nat)
    requires 0 < |key|
    requires EncryptedLength(len, |key|) < a.Length
    modifies a
    ensures total == EncryptedLength(len, |key|)
    ensures a[..total] == Encrypted(old(a[..len]), key, draw)
    ensures a[total] == 0
    ensures a[total + 1..] == old(a[total + 1..])
  {
    hide Prepared, Column, EncryptedLength, Chained;
    ghost var whole := a[..];
    KeyPlace(len, |key|);
    ghost var msg := whole[..len];
    PreparedLength(msg, key, draw);
    total := EncryptPrefix(a, key, len, draw);
    a[total] := 0;
    ChainInPlace(a, total, key);
    a[total] := 0;
  }

  /** Everything before the XOR chain. */
  method EncryptPrefix(a: array<byte>, key: seq<byte>, len: nat, draw: nat -> nat) returns (total: nat)
    requires 0 < |key| && len < a.Length
    requires |Prepared(a[..len], key, draw)| < a.Length
    modifies a
    ensures total == |Prepared(old(a[..len]), key, draw)|
    ensures a[..total] == Prepared(old(a[..len]), key, draw)
    ensures a[total..] == old(a[total..])
  {
    hide Column, Row, Padded, Tail, Rounds, PaddedLength;
    ghost var whole := a[..];
    var n, draws := PadInPlace(a, len, |key|, draw);
    assert a[n..] == whole[n..];
    ShuffleInPlace(a, n);
    assert a[n..] == whole[n..];
    AppendInPlace(a, n, key);
    assert a[n + |key|..] == whole[n..][|key|..];
    total := TailInPlace(a, n + |key|, |key|, draws, draw);
    assert a[total..] == whole[n + |key|..][total - n - |key|..];
  }

  /** The backward scan of the decoder. */
  method Scan(a: array<byte>, from: nat, marker: bool) returns (i: nat)
    requires from < a.Length
    requires ScanBack(a[..from + 1], marker) >= 0
    ensures i == ScanBack(a[..from + 1], marker)
  {
    i := from;
    while !Stops(a[i], marker)
      invariant i <= from
      invariant ScanBack(a[..i + 1], marker) == ScanBack(a[..from + 1], marker)
      decreases i
    {
      assert a[..i + 1][..i] == a[..i];
      i := i - 1;
    }
  }

  /** The keyless pass over the whole rows of the first `len` cells. */
  method UnchainRows(a: array<byte>, len: nat, k: nat)
    requires 0 < k && len <= a.Length
    modifies a
    ensures a[..len] == WithoutChain(old(a[..len]), k)
    ensures a[len..] == old(a[len..])
  {
    hide Row, Column, Unchained;
    ghost var whole := a[..];
    WholeRowsFit(len, k);
    var rows := Row(len, k) * k;
    UnchainInPlace(a, rows, k);
    assert whole[..len][..rows] == whole[..rows];
    assert a[rows..len] == a[rows..][..len - rows] == whole[..len][rows..];
    assert a[len..] == a[rows..][len - rows..] == whole[len..];
  }

  /** Everything behind the key's last byte is cut off; the key is taken, the first row unmasked, the rounds undone. */
  method UnwrapInPlace(a: array<byte>, end: nat, k: nat) returns (szKey: seq<byte>)
    requires 0 < k <= end < a.Length
    modifies a
    ensures szKey == old(a[end - k..end])
    ensures a[..end - k] == Unwrapped(old(a[..end]), k)
    ensures a[end - k] == 0
    ensures a[end + 1..] == old(a[end + 1..])
  {
    hide FirstRowMasked, Unrounds;
    ghost var whole := a[..];
    var n := end - k;
    a[end] := 0;
    szKey := a[n..end];
    assert a[..end] == whole[..end];
    MaskFirstRow(a, end, szKey);
    FirstRowMaskPrefix(whole[..end], n, szKey);
    ghost var masked := a[..n];
    assert masked == a[..end][..n] == FirstRowMasked(whole[..end][..n], szKey);
    assert szKey == whole[..end][n..];
    a[n] := 0;
    assert a[..n] == masked;
    UnshuffleInPlace(a, n);
    assert a[end + 1..] == a[n..][k + 1..];
  }

  /** The rows are unchained, and the last byte of the key is found. */
  method RevealKeyEnd(a: array<byte>, k: nat, len: nat) returns (at: nat)
    requires 0 < k && len < a.Length && a[len] == 0
    requires ScanBack(WithoutChain(a[..len], k) + [0], false) >= 0
    modifies a
    ensures a[..len] == WithoutChain(old(a[..len]), k)
    ensures a[len..] == old(a[len..])
    ensures at == ScanBack(WithoutChain(old(a[..len]), k) + [0], false)
  {
    hide WithoutChain, ScanBack;
    ghost var p := WithoutChain(a[..len], k);
    ghost var rest := a[len..];
    UnchainRows(a, len, k);
    assert rest[0] == 0;
    assert a[..len + 1] == p + [0];
    at := Scan(a, len, false);
  }

  /** The end of the text is found behind the terminator that UnwrapInPlace leaves, and the padding is cut off. */
  method CutPadding(a: array<byte>, n: nat) returns (plain: nat)
    requires n < a.Length && a[n] == 0 && ScanBack(a[..n] + [0], true) >= 0
    modifies a
    ensures plain == ScanBack(old(a[..n]) + [0], true) && plain <= n
    ensures a[..plain] == old(a[..n])[..plain] && a[plain] == 0
    ensures a[n + 1..] == old(a[n + 1..])
  {
    hide ScanBack;
    assert a[..n + 1] == a[..n] + [0];
    plain := Scan(a, n, true);
    a[plain] := 0;
  }

  /** The terminator left by encryption must still be there, and the scans must have a place to stop. */
  method DecryptBuffer(a: array<byte>, k: nat, len: nat) returns (plain: nat, ghost key: seq<byte>)
    requires 0 < k < MAX_PATH
    requires len < a.Length && a[len] == 0
    requires Decrypted(a[..len], k).Plain?
    modifies a
    ensures plain < a.Length && a[plain] == 0
    ensures Decrypted(old(a[..len]), k) == Plain(a[..plain], key)
    ensures a[len + 1..] == old(a[len + 1..])
  {
    hide Decrypted, WithoutChain, ScanBack, Unwrapped;
    ghost var p := WithoutChain(a[..len], k);
    DecryptedParts(a[..len], k);
    var end := RevealKeyEnd(a, k, len);
    end := end + 1;
    ghost var unchained, behind := a[..], a[len..];
    assert a[..end] == p[..end] && a[end - k..end] == p[end - k..end];
    key := UnwrapInPlace(a, end, k);
    plain := CutPadding(a, end - k);
    assert a[len + 1..] == a[end + 1..][len - end..] == unchained[end + 1..][len - end..] == behind[1..];
  }

  /** Encryption and then decryption of one array: the message is back in place, followed by a terminator. */
  method EncryptThenDecrypt(a: array<byte>, key: seq<byte>, len: nat, draw: nat -> nat)
    returns (plain: nat, ghost szKey: seq<byte>)
    requires 0 < |key| < MAX_PATH && IsAlnum(key[|key| - 1])
    requires len < a.Length && EncryptedLength(len, |key|) < a.Length
    modifies a
    ensures plain == len && szKey == key
    ensures a[..len] == old(a[..len]) && a[len] == 0
    ensures var total := EncryptedLength(len, |key|); a[total + 1..] == old(a[total + 1..])
  {
    hide *;
    KeyPlace(len, |key|);
    ghost var msg := a[..len];
    KeyFoundRoundTrip(msg, key, draw);
    var total := EncryptBuffer(a, key, len, draw);
    plain, szKey := DecryptBuffer(a, |key|, total);
    assert a[..plain] == msg;
  }

  lemma DecryptedParts(c: seq<byte>, k: nat)
    requires 0 < k && Decrypted(c, k).Plain?
    ensures var p := WithoutChain(c, k); var at := ScanBack(p + [0], false);
      && k <= at + 1 <= |c|
      && var text := Unwrapped(p[..at + 1], k); var len := ScanBack(text + [0], true);
      && 0 <= len <= |text|
      && Decrypted(c, k) == Plain(text[..len], p[at + 1 - k..at + 1])
  {
    hide WithoutChain, ScanBack, Unwrapped;
  }
}
