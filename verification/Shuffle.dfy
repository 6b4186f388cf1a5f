/** The shuffle rounds of the buffer codec: reversals and swaps, in place, and their inverse. */
module Shuffle {

  // ---------- Specification on sequences ----------

  function Swapped<T>(s: seq<T>, i: nat, j: nat): (r: seq<T>)
    requires i < |s| && j < |s|
    ensures |r| == |s|
  {
    s[i := s[j]][j := s[i]]
  }

  function Reversed<T>(s: seq<T>): (r: seq<T>)
    ensures |r| == |s|
  {
    seq(|s|, i requires 0 <= i < |s| => s[|s| - 1 - i])
  }

  /** One encryption round: reverse, swap the upper middle with `i`, the lower middle with the mirror of `i`. */
  function Round<T>(s: seq<T>, i: nat): (r: seq<T>)
    requires i < |s| / 2
    ensures |r| == |s|
  {
    var h := |s| / 2;
    Swapped(Swapped(Reversed(s), h, i), h - 1, |s| - 1 - i)
  }

  /** One decryption round: the two swaps in the opposite order, then the reversal. */
  function Unround<T>(s: seq<T>, i: nat): (r: seq<T>)
    requires i < |s| / 2
    ensures |r| == |s|
  {
    var h := |s| / 2;
    Reversed(Swapped(Swapped(s, h - 1, |s| - 1 - i), h, i))
  }

  /** Rounds 0 .. m-1, in this order. */
  function Rounds<T>(s: seq<T>, m: nat): (r: seq<T>)
    requires m <= |s| / 2
    ensures |r| == |s|
  {
    if m == 0 then s else Round(Rounds(s, m - 1), m - 1)
  }

  /** Inverse rounds m-1 .. 0, in this order. */
  function Unrounds<T>(s: seq<T>, m: nat): (r: seq<T>)
    requires m <= |s| / 2
    ensures |r| == |s|
    decreases m
  {
    if m == 0 then s else Unrounds(Unround(s, m - 1), m - 1)
  }

  lemma SwappedAt<T>(s: seq<T>, i: nat, j: nat, x: nat)
    requires i < |s| && j < |s| && x < |s|
    ensures Swapped(s, i, j)[x] == s[if x == i then j else if x == j then i else x]
  {
  }

  lemma ReversedAt<T>(s: seq<T>, x: nat)
    requires x < |s|
    ensures Reversed(s)[x] == s[|s| - 1 - x]
  {
  }

  /** Where the element at `x` comes from: a round reverses, then swaps two pairs; the rounds run from 0 upwards. */
  lemma RoundMoves<T>(s: seq<T>, i: nat, x: nat)
    requires i < |s| / 2 && x < |s|
    ensures var h, mirror := |s| / 2, |s| - 1 - i;
      var y := if x == h - 1 then mirror else if x == mirror then h - 1 else x;
      var z := if y == h then i else if y == i then h else y;
      Round(s, i)[x] == s[|s| - 1 - z]
    ensures Rounds(s, i + 1) == Round(Rounds(s, i), i) && Rounds(s, 0) == s
  {
    hide Swapped, Reversed;
    var h, mirror := |s| / 2, |s| - 1 - i;
    var y := if x == h - 1 then mirror else if x == mirror then h - 1 else x;
    var z := if y == h then i else if y == i then h else y;
    SwappedAt(Swapped(Reversed(s), h, i), h - 1, mirror, x);
    SwappedAt(Reversed(s), h, i, y);
    ReversedAt(s, z);
  }

  // ---------- The two directions are inverse, and both permute ----------

  lemma SwapTwice<T>(s: seq<T>, i: nat, j: nat)
    requires i < |s| && j < |s|
    ensures Swapped(Swapped(s, i, j), i, j) == s
  {
  }

  lemma ReverseTwice<T>(s: seq<T>)
    ensures Reversed(Reversed(s)) == s
  {
  }

  lemma RoundInverse<T>(s: seq<T>, i: nat)
    requires i < |s| / 2
    ensures Unround(Round(s, i), i) == s
    ensures Round(Unround(s, i), i) == s
  {
    hide Swapped, Reversed;
    var h, mirror := |s| / 2, |s| - 1 - i;
    SwapTwice(Swapped(Reversed(s), h, i), h - 1, mirror);
    SwapTwice(Reversed(s), h, i);
    ReverseTwice(s);
    ReverseTwice(Swapped(Swapped(s, h - 1, mirror), h, i));
    SwapTwice(Swapped(s, h - 1, mirror), h, i);
    SwapTwice(s, h - 1, mirror);
  }

  lemma {:induction false} ShuffleInverse<T>(s: seq<T>, m: nat)
    requires m <= |s| / 2
    ensures Unrounds(Rounds(s, m), m) == s
    ensures Rounds(Unrounds(s, m), m) == s
    decreases m
  {
    hide Round, Unround;
    if m > 0 {
      RoundInverse(Rounds(s, m - 1), m - 1);
      ShuffleInverse(s, m - 1);
      RoundInverse(s, m - 1);
      ShuffleInverse(Unround(s, m - 1), m - 1);
    }
  }

  lemma SwapPermutes<T>(s: seq<T>, i: nat, j: nat)
    requires i < |s| && j < |s|
    ensures multiset(Swapped(s, i, j)) == multiset(s)
  {
  }

  lemma {:induction false} ReversePermutes<T>(s: seq<T>)
    ensures multiset(Reversed(s)) == multiset(s)
  {
    if s != [] {
      ReversePermutes(s[1..]);
      assert Reversed(s) == Reversed(s[1..]) + [s[0]];
      assert s == [s[0]] + s[1..];
    }
  }

  lemma {:induction false} RoundsPermute<T>(s: seq<T>, m: nat)
    requires m <= |s| / 2
    ensures multiset(Rounds(s, m)) == multiset(s)
  {
    hide Swapped, Reversed;
    if m > 0 {
      RoundsPermute(s, m - 1);
      var r := Rounds(s, m - 1);
      var h := |s| / 2;
      ReversePermutes(r);
      SwapPermutes(Reversed(r), h, m - 1);
      SwapPermutes(Swapped(Reversed(r), h, m - 1), h - 1, |s| - m);
    }
  }

  // ---------- The in-place loops ----------

  /** The inner loop: exchange each of the first n/2 cells with its mirror. */
  method ReverseFront<T>(a: array<T>, n: nat)
    requires n <= a.Length
    modifies a
    ensures a[..n] == Reversed(old(a[..n]))
    ensures a[n..] == old(a[n..])
  {
    for j := 0 to n / 2
      invariant forall x :: 0 <= x < j || n - j <= x < n ==> a[x] == old(a[n - 1 - x])
      invariant forall x :: j <= x < n - j ==> a[x] == old(a[x])
      invariant a[n..] == old(a[n..])
    {
      a[j], a[n - 1 - j] := a[n - 1 - j], a[j];
    }
  }

  method SwapCells<T>(a: array<T>, n: nat, i: nat, j: nat)
    requires i < n && j < n <= a.Length
    modifies a
    ensures a[..n] == Swapped(old(a[..n]), i, j)
    ensures a[n..] == old(a[n..])
  {
    var t := a[i];
    a[i] := a[j];
    a[j] := t;
  }

  /** All rounds of encryption over the first `n` cells. */
  method ShuffleInPlace<T>(a: array<T>, n: nat)
    requires n <= a.Length
    modifies a
    ensures a[..n] == Rounds(old(a[..n]), n / 2)
    ensures a[n..] == old(a[n..])
  {
    hide Swapped, Reversed;
    var h := n / 2;
    for i := 0 to h
      invariant a[..n] == Rounds(old(a[..n]), i)
      invariant a[n..] == old(a[n..])
    {
      ghost var s := a[..n];
      ReverseFront(a, n);
      SwapCells(a, n, h, i);
      SwapCells(a, n, h - 1, n - 1 - i);
      assert a[..n] == Round(s, i);
    }
  }

  /** All rounds of decryption over the first `n` cells, counting down. */
  method UnshuffleInPlace<T>(a: array<T>, n: nat)
    requires n <= a.Length
    modifies a
    ensures a[..n] == Unrounds(old(a[..n]), n / 2)
    ensures a[n..] == old(a[n..])
  {
    hide Swapped, Reversed;
    var h := n / 2;
    for idx := h downto 0
      invariant Unrounds(a[..n], idx) == Unrounds(old(a[..n]), h)
      invariant a[n..] == old(a[n..])
    {
      ghost var s := a[..n];
      SwapCells(a, n, h - 1, n - 1 - idx);
      SwapCells(a, n, h, idx);
      ReverseFront(a, n);
      assert a[..n] == Unround(s, idx);
    }
  }
}
