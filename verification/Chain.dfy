/** The column-wise XOR chain of the buffer codec and its undoing without the key. */
module Chain {
  import opened Bytes

  // ---------- Specification: the flat recurrence ----------

  /** Cell `x` of the chained text: the first row is masked by the key, every later row by the row above it. */
  function ChainAt(p: seq<byte>, key: seq<byte>, x: nat): byte
    requires 0 < |key| && x < |p|
  {
    p[x] ^ (if x < |key| then key[x] else ChainAt(p, key, x - |key|))
  }

  function Chained(p: seq<byte>, key: seq<byte>): (c: seq<byte>)
    requires 0 < |key|
    ensures |c| == |p|
  {
    seq(|p|, x requires 0 <= x < |p| => ChainAt(p, key, x))
  }

  /** What the keyless pass leaves: every row but the first is clear again. */
  function Unchained(c: seq<byte>, k: nat): (p: seq<byte>)
    requires 0 < k
    ensures |p| == |c|
  {
    seq(|c|, x requires 0 <= x < |c| => if x < k then c[x] else c[x] ^ c[x - k])
  }

  /** The first |key| cells masked by the key, the others unchanged. */
  function FirstRowMasked(s: seq<byte>, key: seq<byte>): (r: seq<byte>)
    ensures |r| == |s|
  {
    seq(|s|, x requires 0 <= x < |s| => if x < |key| then s[x] ^ key[x] else s[x])
  }

  /** Every cell is masked by the cell above it as it is after chaining, and in the first row by the key. */
  lemma ChainedCells(p: seq<byte>, key: seq<byte>, x: nat)
    requires 0 < |key| && x < |p|
    ensures var c := Chained(p, key); c[x] ^ p[x] == if x < |key| then key[x] else c[x - |key|]
  {
    var above := if x < |key| then key[x] else ChainAt(p, key, x - |key|);
    assert p[x] ^ above ^ p[x] == above;
  }

  lemma UnchainRevealsAllButFirstRow(p: seq<byte>, key: seq<byte>)
    requires 0 < |key|
    ensures Unchained(Chained(p, key), |key|) == FirstRowMasked(p, key)
  {
    forall x: nat | x < |p|
      ensures Unchained(Chained(p, key), |key|)[x] == FirstRowMasked(p, key)[x]
    {
      if x >= |key| {
        var above := ChainAt(p, key, x - |key|);
        assert p[x] ^ above ^ above == p[x];
      }
    }
  }

  lemma FirstRowMaskTwice(s: seq<byte>, key: seq<byte>)
    ensures FirstRowMasked(FirstRowMasked(s, key), key) == s
  {
    forall x: nat | x < |s| && x < |key|
      ensures s[x] ^ key[x] ^ key[x] == s[x]
    {
    }
  }

  // ---------- Columns and rows ----------

  function Column(x: nat, k: nat): (i: nat)
    requires 0 < k
    ensures i < k
  {
    x % k
  }

  function Row(x: nat, k: nat): (j: nat)
    requires 0 < k
  {
    x / k
  }

  /** Cell `i + j * k` is the only one in column `i` and row `j`; the cell above it is one row up. */
  lemma CellAt(i: nat, j: nat, k: nat, n: nat)
    requires i < k && Column(n, k) == 0 && j < Row(n, k)
    ensures var y := i + j * k;
      && y < n
      && (y < k <==> j == 0)
      && (j > 0 ==> Column(y - k, k) == i && Row(y - k, k) == j - 1)
      && forall x: nat :: Column(x, k) == i && Row(x, k) == j <==> x == y
  {
    hide Row, Column;
    RowColumn(n, k);
    RowsBelow(j, Row(n, k), k);
    DivMod(i, j, k);
    if j > 0 {
      RowsBelow(0, j, k);
      OneRowUp(j, k);
      DivMod(i, j - 1, k);
    }
    OnlyCell(i, j, k);
  }

  lemma {:induction false} RowsBelow(j: nat, rows: nat, k: nat)
    requires j < rows
    ensures j * k + k <= rows * k
  {
    OneRowUp(rows, k);
    if j < rows - 1 {
      RowsBelow(j, rows - 1, k);
    }
  }

  lemma OneRowUp(j: nat, k: nat)
    requires 0 < j
    ensures j * k - k == (j - 1) * k
  {
  }

  lemma OnlyCell(i: nat, j: nat, k: nat)
    requires i < k
    ensures forall x: nat :: Column(x, k) == i && Row(x, k) == j <==> x == i + j * k
  {
    hide Row, Column;
    DivMod(i, j, k);
    forall x: nat
      ensures Column(x, k) == i && Row(x, k) == j <==> x == i + j * k
    {
      RowColumn(x, k);
    }
  }

  lemma RowColumn(x: nat, k: nat)
    requires 0 < k
    ensures x == Column(x, k) + Row(x, k) * k
  {
  }

  lemma DivMod(i: nat, j: nat, k: nat)
    requires i < k
    ensures Row(i + j * k, k) == j && Column(i + j * k, k) == i
  {
    var y := i + j * k;
    assert y == (y / k) * k + y % k;
    var d := y / k - j;
    assert d * k == i - y % k;
    assert d > 0 ==> d * k >= k;
    assert d < 0 ==> d * k <= (-1) * k;
  }

  lemma RowsCover(n: nat, k: nat)
    requires 0 < k && Column(n, k) == 0
    ensures forall x: nat :: x < n ==> Row(x, k) < Row(n, k)
    ensures forall x: nat :: Column(x, k) < k
    ensures forall x: nat :: Row(x, k) == 0 <==> x < k
  {
    hide Row, Column;
    forall x: nat
      ensures x < n ==> Row(x, k) < Row(n, k)
      ensures Row(x, k) == 0 <==> x < k
    {
      RowCovers(x, n, k);
    }
  }

  lemma RowCovers(x: nat, n: nat, k: nat)
    requires 0 < k && Column(n, k) == 0
    ensures x < n ==> Row(x, k) < Row(n, k)
    ensures Row(x, k) == 0 <==> x < k
  {
    hide Row, Column;
    RowColumn(x, k);
    RowColumn(n, k);
    if Row(x, k) > Row(n, k) {
      RowsBelow(Row(n, k), Row(x, k), k);
    }
    if Row(x, k) > 0 {
      RowsBelow(0, Row(x, k), k);
    }
  }

  // ---------- The in-place loops ----------

  method ChainInPlace(a: array<byte>, n: nat, key: seq<byte>)
    requires 0 < |key| && n <= a.Length && Column(n, |key|) == 0
    modifies a
    ensures a[..n] == Chained(old(a[..n]), key)
    ensures a[n..] == old(a[n..])
  {
    var k := |key|;
    var rows := Row(n, k);
    ghost var p := a[..n];
    hide Column, Row;
    for i := 0 to k
      invariant forall x: nat :: x < n ==> a[x] == if Column(x, k) < i then ChainAt(p, key, x) else p[x]
      invariant a[n..] == old(a[n..])
    {
      for j := 0 to rows
        invariant forall x: nat :: x < n ==>
          a[x] == if Column(x, k) < i || (Column(x, k) == i && Row(x, k) < j) then ChainAt(p, key, x) else p[x]
        invariant a[n..] == old(a[n..])
      {
        CellAt(i, j, k, n);
        var y := i + j * k;
        if j == 0 {
          a[y] := a[y] ^ key[i];
        } else {
          a[y] := a[y] ^ a[y - k];
        }
        assert a[y] == ChainAt(p, key, y);
      }
      RowsCover(n, k);
    }
    RowsCover(n, k);
  }

  method UnchainInPlace(a: array<byte>, n: nat, k: nat)
    requires 0 < k && n <= a.Length && Column(n, k) == 0
    modifies a
    ensures a[..n] == Unchained(old(a[..n]), k)
    ensures a[n..] == old(a[n..])
  {
    var rows := Row(n, k);
    ghost var c := a[..n];
    ghost var u := Unchained(c, k);
    RowsCover(n, k);
    hide Column, Row;
    for i := 0 to k
      invariant forall x: nat :: x < n ==> a[x] == if Column(x, k) < i then u[x] else c[x]
      invariant a[n..] == old(a[n..])
    {
      var j := rows - 1;
      while j > 0
        invariant j < rows
        invariant rows > 0 ==> j >= 0
        invariant forall x: nat :: x < n ==>
          a[x] == if Column(x, k) < i || (Column(x, k) == i && Row(x, k) > j) then u[x] else c[x]
        invariant a[n..] == old(a[n..])
      {
        CellAt(i, j, k, n);
        var y := i + j * k;
        a[y] := a[y] ^ a[y - k];
        j := j - 1;
      }
    }
  }

  method MaskFirstRow(a: array<byte>, n: nat, key: seq<byte>)
    requires |key| <= n <= a.Length
    modifies a
    ensures a[..n] == FirstRowMasked(old(a[..n]), key)
    ensures a[n..] == old(a[n..])
  {
    for i := 0 to |key|
      invariant forall x :: 0 <= x < n ==> a[x] == if x < i then old(a[x]) ^ key[x] else old(a[x])
      invariant a[n..] == old(a[n..])
    {
      a[i] := a[i] ^ key[i];
    }
  }
}
