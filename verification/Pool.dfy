/** The object pool: live objects, and a first-in first-out free list that is only drawn from when it is long enough. */
module Pool {
  import opened Sequences

  const RESERVE: nat := 10

  // ---------- The list operations ----------

  /** Drops every element equal to the one before it. */
  function Unique<X(==)>(s: seq<X>): (r: seq<X>)
  {
    if |s| < 2 then s
    else if s[|s| - 1] == s[|s| - 2] then Unique(s[..|s| - 1])
    else Unique(s[..|s| - 1]) + [s[|s| - 1]]
  }

  /** Drops every element equal to `x`. */
  function Remove<X(==)>(s: seq<X>, x: X): (r: seq<X>)
  {
    if s == [] then [] else Remove(s[..|s| - 1], x) + if s[|s| - 1] == x then [] else [s[|s| - 1]]
  }

  // ---------- The pool ----------

  /** `made` is every object ever created, `log` every effective release in order, `peak` the most ever live at once. */
  datatype State<X(==)> = State(list: seq<X>, free: seq<X>, made: seq<X>, log: seq<X>, peak: nat)

  function Empty<X(==)>(): State<X> {
    State([], [], [], [], 0)
  }

  function Max(a: nat, b: nat): nat {
    if a < b then b else a
  }

  /** The object handed out: the oldest free one, or the new one. */
  function Pick<X(==)>(st: State<X>, new_: X): X {
    if |st.free| >= RESERVE then st.free[0] else new_
  }

  function Allocated<X(==)>(st: State<X>, new_: X): State<X> {
    var list := Unique(st.list + [Pick(st, new_)]);
    var peak := Max(st.peak, |list|);
    if |st.free| >= RESERVE then st.(list := list, peak := peak, free := st.free[1..])
    else st.(list := list, peak := peak, made := st.made + [new_])
  }

  function Released<X(==)>(st: State<X>, p: X): State<X> {
    if p in st.list then
      st.(list := Remove(st.list, p), free := Unique(st.free + [p]), log := st.log + [p])
    else st
  }

  datatype Op<X> = Alloc(new_: X) | Free(p: X)

  function Step<X(==)>(st: State<X>, op: Op<X>): State<X> {
    match op
    case Alloc(x) => Allocated(st, x)
    case Free(p) => Released(st, p)
  }

  /** A created object is one that was never there before. */
  ghost predicate Possible<X>(st: State<X>, op: Op<X>) {
    op.Alloc? && |st.free| < RESERVE ==> op.new_ !in st.made
  }

  ghost predicate PossibleRun<X>(st: State<X>, run: seq<Op<X>>)
    decreases run
  {
    run == [] || (Possible(st, run[0]) && PossibleRun(Step(st, run[0]), run[1..]))
  }

  function Exec<X(==)>(st: State<X>, run: seq<Op<X>>): State<X>
    decreases run
  {
    if run == [] then st else Exec(Step(st, run[0]), run[1..])
  }

  // ---------- Conservation and bound ----------

  /** Every object ever made is in exactly one of the two lists, once. */
  ghost predicate Conserved<X>(st: State<X>) {
    && NoDup(st.made) && NoDup(st.list) && NoDup(st.free)
    && (forall x :: x in st.list ==> x !in st.free)
    && (forall x :: x in st.made ==> x in st.list || x in st.free)
    && (forall x :: x in st.list ==> x in st.made)
    && (forall x :: x in st.free ==> x in st.made)
    && |st.made| == |st.list| + |st.free|
  }

  ghost predicate Bounded<X>(st: State<X>) {
    |st.list| <= st.peak && |st.made| <= st.peak + RESERVE - 1
  }

  /** Where `x` was last released, or -1. */
  function LastRelease<X(==)>(log: seq<X>, x: X): (i: int)
    ensures -1 <= i < |log|
    ensures i >= 0 ==> log[i] == x && x !in log[i + 1..]
    ensures i < 0 ==> x !in log
  {
    if log == [] then -1
    else if log[|log| - 1] == x then |log| - 1
    else
      var i := LastRelease(log[..|log| - 1], x);
      assert log == log[..|log| - 1] + [log[|log| - 1]];
      i
  }

  /** The free list is in the order of the last releases. */
  ghost predicate Ordered<X>(st: State<X>) {
    && (forall p :: p in st.free ==> p in st.log)
    && forall i, j :: 0 <= i < j < |st.free| ==> LastRelease(st.log, st.free[i]) < LastRelease(st.log, st.free[j])
  }

  ghost predicate Inv<X>(st: State<X>) {
    Conserved(st) && Bounded(st) && Ordered(st)
  }

  lemma {:induction false} UniqueNoDup<X>(s: seq<X>)
    requires NoDup(s)
    ensures Unique(s) == s
  {
    if |s| >= 2 {
      UniqueNoDup(s[..|s| - 1]);
      assert s == s[..|s| - 1] + [s[|s| - 1]];
    }
  }

  lemma {:induction false} RemoveOne<X>(s: seq<X>, x: X)
    requires NoDup(s)
    ensures NoDup(Remove(s, x))
    ensures forall y :: y in Remove(s, x) ==> y in s && y != x
    ensures forall y :: y in s && y != x ==> y in Remove(s, x)
    ensures |Remove(s, x)| == if x in s then |s| - 1 else |s|
  {
    if s != [] {
      var front, last := s[..|s| - 1], s[|s| - 1];
      RemoveOne(front, x);
      assert s == front + [last];
      assert last !in front;
      if last == x {
        assert Remove(s, x) == Remove(front, x);
      } else {
        assert Remove(s, x) == Remove(front, x) + [last] && last !in Remove(front, x);
      }
    }
  }

  lemma AppendNoDup<X>(s: seq<X>, x: X)
    requires NoDup(s) && x !in s
    ensures NoDup(s + [x]) && Unique(s + [x]) == s + [x]
  {
    UniqueNoDup(s + [x]);
  }

  lemma AllocateIs<X>(st: State<X>, x: X)
    requires Conserved(st) && Possible(st, Alloc(x))
    ensures Pick(st, x) !in st.list && Allocated(st, x).list == st.list + [Pick(st, x)]
    ensures NoDup(Allocated(st, x).list)
  {
    AppendNoDup(st.list, Pick(st, x));
  }

  lemma AllocateConserves<X>(st: State<X>, x: X)
    requires Conserved(st) && Possible(st, Alloc(x))
    ensures Conserved(Allocated(st, x))
  {
    AllocateIs(st, x);
    hide Unique;
    var r := Allocated(st, x);
    if |st.free| >= RESERVE {
      assert st.free == [st.free[0]] + r.free;
    }
  }

  lemma ReleaseConserves<X>(st: State<X>, p: X)
    requires Conserved(st)
    ensures Conserved(Released(st, p))
    ensures p in st.list ==> Released(st, p).free == st.free + [p]
  {
    hide Unique, Remove;
    if p in st.list {
      RemoveOne(st.list, p);
      AppendNoDup(st.free, p);
      var list, free := Remove(st.list, p), st.free + [p];
      assert forall x :: x in free <==> x in st.free || x == p by {
        assert free[|st.free|] == p;
      }
      assert forall x :: x in list ==> x in st.list;
      assert Released(st, p) == st.(list := list, free := free, log := st.log + [p]);
    }
  }

  lemma AllocateOrdered<X>(st: State<X>, x: X)
    requires Ordered(st)
    ensures Ordered(Allocated(st, x))
  {
  }

  lemma ReleaseOrdered<X>(st: State<X>, p: X)
    requires Conserved(st) && Ordered(st)
    ensures Ordered(Released(st, p))
  {
    ReleaseConserves(st, p);
    if p in st.list {
      var r := Released(st, p);
      assert r.log[..|r.log| - 1] == st.log;
      assert forall q :: q != p ==> LastRelease(r.log, q) == LastRelease(st.log, q);
    }
  }

  /** The pool's invariant is kept by every step, in particular the number of objects made stays within the bound. */
  lemma StepKeeps<X>(st: State<X>, op: Op<X>)
    requires Inv(st) && Possible(st, op)
    ensures Inv(Step(st, op))
  {
    match op
    case Alloc(x) =>
      hide Unique, LastRelease;
      AllocateIs(st, x);
      AllocateConserves(st, x);
      AllocateOrdered(st, x);
    case Free(p) =>
      hide Unique, Remove, LastRelease;
      RemoveOne(st.list, p);
      ReleaseConserves(st, p);
      ReleaseOrdered(st, p);
  }

  lemma {:induction false} RunKeeps<X>(st: State<X>, run: seq<Op<X>>)
    requires Inv(st) && PossibleRun(st, run)
    ensures Inv(Exec(st, run))
    decreases run
  {
    hide Inv, Step;
    if run != [] {
      StepKeeps(st, run[0]);
      RunKeeps(Step(st, run[0]), run[1..]);
    }
  }

  // ---------- Results over every run ----------

  /** Objects are neither lost nor handed out twice, and never more than peak + 9 are made. */
  lemma PoolConservation<X>(run: seq<Op<X>>)
    requires PossibleRun(Empty<X>(), run)
    ensures var st := Exec(Empty<X>(), run); Conserved(st) && |st.made| <= st.peak + 9
  {
    RunKeeps(Empty<X>(), run);
  }

  /** A second release of the same object changes nothing. */
  lemma DoubleRelease<X>(run: seq<Op<X>>, p: X)
    requires PossibleRun(Empty<X>(), run)
    ensures var st := Released(Exec(Empty<X>(), run), p); Released(st, p) == st
  {
    RunKeeps(Empty<X>(), run);
    RemoveOne(Exec(Empty<X>(), run).list, p);
  }

  /** A reused object has rested: nine other objects, at least, were released after it. */
  lemma ReuseQuarantine<X>(run: seq<Op<X>>, x: X)
    requires PossibleRun(Empty<X>(), run)
    ensures var st := Exec(Empty<X>(), run); var p := Pick(st, x);
      |st.free| >= RESERVE ==>
        && p in st.log
        && var t := LastRelease(st.log, p);
        && |st.log| - (t + 1) >= 9
        && p !in st.log[t + 1..]
        && (forall q :: q in st.free[1..] ==> q in st.log[t + 1..] && q != p)
        && NoDup(st.free[1..])
  {
    hide *;
    EmptyInv<X>();
    RunKeeps(Empty<X>(), run);
    var st := Exec(Empty<X>(), run);
    if |st.free| >= RESERVE {
      Rested(st);
      PickOldest(st, x);
    }
  }

  lemma EmptyInv<X>()
    ensures Inv(Empty<X>())
  {
  }

  lemma InvParts<X>(st: State<X>)
    requires Inv(st)
    ensures Conserved(st)
  {
  }

  lemma PickOldest<X>(st: State<X>, x: X)
    ensures |st.free| >= RESERVE ==> Pick(st, x) == st.free[0]
  {
  }

  lemma Rested<X>(st: State<X>)
    requires Inv(st) && |st.free| >= RESERVE
    ensures var p := st.free[0]; var t := LastRelease(st.log, p);
      && p in st.log
      && |st.log| - (t + 1) >= 9
      && p !in st.log[t + 1..]
      && (forall q :: q in st.free[1..] ==> q in st.log[t + 1..] && q != p)
      && NoDup(st.free[1..])
  {
    var t := LastRelease(st.log, st.free[0]);
    forall q | q in st.free[1..]
      ensures q in st.log[t + 1..]
    {
      var i :| 1 <= i < |st.free| && st.free[i] == q;
      var u := LastRelease(st.log, q);
      assert t < u && st.log[t + 1..][u - t - 1] == q;
    }
    Spread(st, 9);
  }

  lemma {:induction false} Spread<X>(st: State<X>, i: nat)
    requires Ordered(st) && i < |st.free|
    ensures LastRelease(st.log, st.free[i]) >= LastRelease(st.log, st.free[0]) + i
  {
    if i > 0 {
      Spread(st, i - 1);
    }
  }

  // ---------- The pool over objects ----------

  /** What Init and Deinit of a pooled object come down to here. */
  class Syncable {
    var ready: bool

    constructor ()
      ensures !ready
    {
      ready := false;
    }

    method Init()
      modifies this
      ensures ready
    {
      ready := true;
    }

    method Deinit()
      modifies this
      ensures !ready
    {
      ready := false;
    }
  }

  class Storage {
    var list: seq<Syncable>
    var freelist: seq<Syncable>
    ghost var view: State<Syncable>

    /** The fields are the lists of a reachable state, and the objects that are ready are those in use. */
    ghost predicate Valid()
      reads this, view.made
    {
      && list == view.list && freelist == view.free
      && Inv(view)
      && (forall p :: p in view.made ==> (p.ready <==> p in list))
    }

    constructor ()
      ensures Valid() && view == Empty<Syncable>()
    {
      list, freelist := [], [];
      view := Empty<Syncable>();
    }

    method Allocate() returns (p: Syncable)
      requires Valid()
      modifies this, view.made
      ensures Valid() && p.ready
      ensures p == Pick(old(view), p) && view == Allocated(old(view), p)
      ensures |old(view).free| < RESERVE ==> fresh(p)
    {
      hide Inv, Unique, Ordered;
      InvParts(view);
      if |freelist| >= RESERVE {
        p := freelist[0];
        assert p in view.free;
        freelist := freelist[1..];
      } else {
        p := new Syncable();
      }
      p.Init();
      StepKeeps(view, Alloc(p));
      AllocateIs(view, p);
      list := Unique(list + [p]);
      view := Allocated(view, p);
    }

    method Release(p: Syncable)
      requires Valid()
      modifies this, view.made
      ensures Valid() && view == Released(old(view), p)
    {
      hide Inv, Unique, Remove, Ordered;
      InvParts(view);
      if p in list {
        p.Deinit();
        list := Remove(list, p);
        freelist := Unique(freelist + [p]);
      }
      StepKeeps(view, Free(p));
      RemoveOne(view.list, p);
      view := Released(view, p);
    }
  }
}
