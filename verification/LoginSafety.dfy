/** What every run of the login handlers keeps, and exactly when one ends the process. */
module LoginSafety {
  import opened Sequences
  import opened Bytes
  import opened Wrappers
  import opened Fields
  import opened Login

  /** The session map and the id lists are two views of one relation. */
  ghost predicate Linked<S>(st: State<S>) {
    && (forall id :: id in st.sessionmap ==> id in st.IdsOf(st.sessionmap[id]))
    && (forall s, id :: s in st.ids && id in st.ids[s] ==> id in st.sessionmap && st.sessionmap[id] == s)
    && (forall s :: s in st.ids ==> NoDup(st.ids[s]))
  }

  /** Sessions that are not in use hold no id. */
  ghost predicate LiveOnly<S>(st: State<S>) {
    forall s :: s in st.ids && s !in st.live ==> st.ids[s] == []
  }

  /**
   The users table says who is connected, and exactly the connected users have a token; `left` are rows of an earlier
   run of the server, which may still stand as they were.
   */
  ghost predicate Agrees<S>(st: State<S>, left: map<u32, Row>) {
    && (forall id :: id in st.sessionmap ==> id in st.users)
    && forall no :: no in st.users ==>
         RowAgrees(st.users[no], no in st.sessionmap) ||
         (no !in st.sessionmap && no in left && st.users[no] == left[no])
  }

  ghost predicate RowAgrees(row: Row, connected: bool) {
    && row.state == (if connected then 1 else 0)
    && (row.token != [] <==> connected)
  }

  ghost predicate EnvWf(env: Env) {
    forall a, b :: a in env.accounts && b in env.accounts && env.accounts[a] == env.accounts[b] ==> a == b
  }

  // ---------- Eviction ----------

  lemma {:induction false} RemoveFirstNoDup(s: seq<u32>, id: u32)
    requires NoDup(s)
    ensures NoDup(RemoveFirst(s, id))
    ensures forall x :: x in RemoveFirst(s, id) ==> x in s && x != id
    ensures forall x :: x in s && x != id ==> x in RemoveFirst(s, id)
  {
    if s != [] && s[0] != id {
      RemoveFirstNoDup(s[1..], id);
      var r := RemoveFirst(s[1..], id);
      assert s == [s[0]] + s[1..] && s[0] !in s[1..];
      assert RemoveFirst(s, id) == [s[0]] + r && s[0] !in r;
    } else if s != [] {
      assert s == [s[0]] + s[1..] && s[0] !in s[1..];
    }
  }

  lemma EvictKeepsLinked<S>(st: State<S>, id: u32, reason: u32)
    requires Linked(st) && id in st.sessionmap
    ensures Linked(Evict(st, id, reason)) && id !in Evict(st, id, reason).sessionmap
  {
    hide ClearUsers, RemoveFirst;
    RemoveFirstNoDup(st.IdsOf(st.sessionmap[id]), id);
  }

  lemma EvictKeepsLiveOnly<S>(st: State<S>, id: u32, reason: u32)
    requires Linked(st) && LiveOnly(st) && id in st.sessionmap
    ensures LiveOnly(Evict(st, id, reason))
  {
    hide ClearUsers, RemoveFirst;
    RemoveFirstNoDup(st.IdsOf(st.sessionmap[id]), id);
  }

  lemma EvictKeepsAgrees<S>(st: State<S>, id: u32, reason: u32, left: map<u32, Row>)
    requires Agrees(st, left) && id in st.sessionmap
    ensures Agrees(Evict(st, id, reason), left)
  {
    hide RemoveFirst;
  }

  lemma EvictKeeps<S>(st: State<S>, id: u32, reason: u32, left: map<u32, Row>)
    requires Linked(st) && id in st.sessionmap
    ensures Linked(Evict(st, id, reason)) && id !in Evict(st, id, reason).sessionmap
    ensures LiveOnly(st) ==> LiveOnly(Evict(st, id, reason))
    ensures Agrees(st, left) ==> Agrees(Evict(st, id, reason), left)
  {
    hide *;
    EvictKeepsLinked(st, id, reason);
    if LiveOnly(st) {
      EvictKeepsLiveOnly(st, id, reason);
    }
    if Agrees(st, left) {
      EvictKeepsAgrees(st, id, reason, left);
    }
  }

  // ---------- Login ----------

  /** The id becomes the session's. */
  function Granted<S(==)>(st: State<S>, s: S, id: u32, row: Row): State<S> {
    st.(users := st.users[id := row], ids := st.ids[s := st.IdsOf(s) + [id]], sessionmap := st.sessionmap[id := s])
  }

  lemma GrantKeepsLinked<S>(st: State<S>, s: S, id: u32, row: Row)
    requires Linked(st) && id !in st.sessionmap
    ensures Linked(Granted(st, s, id, row))
  {
    var r := Granted(st, s, id, row);
    assert id !in st.IdsOf(s);
    assert r.IdsOf(s)[|st.IdsOf(s)|] == id;
    forall x | x in r.sessionmap
      ensures x in r.IdsOf(r.sessionmap[x])
    {
      if x != id {
        assert x in st.IdsOf(st.sessionmap[x]);
      }
    }
  }

  lemma GrantKeepsAgrees<S>(st: State<S>, s: S, id: u32, row: Row, left: map<u32, Row>)
    requires Agrees(st, left) && RowAgrees(row, true)
    ensures Agrees(Granted(st, s, id, row), left)
  {
  }

  lemma DigestTextLength(env: Env, account: wstring, device: wstring, now: nat, id: u32)
    ensures |Token(env, account, device, now, id)| == 40
  {
  }

  lemma LoggedInAgrees(env: Env, row: Row, account: wstring, device: wstring, now: nat, id: u32)
    ensures RowAgrees(LoggedIn(env, row, account, device, now, id), true)
  {
    DigestTextLength(env, account, device, now, id);
  }

  lemma DisplaceFrees<S>(st: State<S>, id: u32, s: S, left: map<u32, Row>)
    requires Linked(st) && id !in st.IdsOf(s)
    ensures var r := Displace(st, id, s);
      && Linked(r) && id !in r.sessionmap
      && (LiveOnly(st) ==> LiveOnly(r))
      && (Agrees(st, left) ==> Agrees(r, left))
      && r.IdsOf(s) == st.IdsOf(s)
      && r.live == st.live && r.aborted == st.aborted
  {
    hide LiveOnly, Agrees, RemoveFirst, ClearUsers;
    assert id in st.sessionmap ==> st.sessionmap[id] != s;
    if id in st.sessionmap {
      EvictKeeps(st, id, LR_DUPLICATE, left);
    }
  }

  /** Account number `i` passes the checks. */
  predicate Admitted(env: Env, users: map<u32, Row>, req: Request, i: nat, now: nat)
    requires req.Wf() && i < |req.accounts|
  {
    !Repeated(req.accounts, i) &&
    LoginCode(env, users, req.accounts[i], req.passwords[i], req.device, now) == LR_SUCCESS
  }

  /** The handler gets past account number `i`, should that pass the checks: the token fits and there is a peer. */
  predicate Completes<S(==)>(env: Env, st: State<S>, s: S, req: Request, i: nat, now: nat, up: nat)
    requires i < |req.accounts|
  {
    TokenFits(env, req.accounts[i], req.device, now) && Answers(st, s, i, up)
  }

  lemma LoginOneIs<S>(env: Env, st: State<S>, s: S, req: Request, i: nat, now: nat, up: nat)
    requires req.Wf() && i < |req.accounts|
    ensures var (after, r) := LoginOne(env, st, s, req, i, now, up);
      if !Admitted(env, st.users, req, i, now) then after == st && r.code != LR_SUCCESS
      else
        var id := env.accounts[req.accounts[i]];
        var row := LoggedIn(env, st.users[id], req.accounts[i], req.device, now, id);
        if Completes(env, st, s, req, i, now, up) then
          after == Granted(Displace(st, id, s), s, id, row) && r == Result(LR_SUCCESS, id, row.end, row.token)
        else after == Displace(st, id, s).(aborted := true) && r.code != LR_SUCCESS
  {
  }

  /** What one account of a request keeps. Only a session in use is given an id. */
  lemma LoginOneKeeps<S>(env: Env, st: State<S>, s: S, req: Request, i: nat, now: nat, up: nat, left: map<u32, Row>)
    requires Linked(st) && !st.aborted && req.Wf() && i < |req.accounts|
    requires Admitted(env, st.users, req, i, now) ==> env.accounts[req.accounts[i]] !in st.IdsOf(s)
    ensures var (after, r) := LoginOne(env, st, s, req, i, now, up);
      var granted := Admitted(env, st.users, req, i, now) && Completes(env, st, s, req, i, now, up);
      && Linked(after) && after.live == st.live
      && (Agrees(st, left) ==> Agrees(after, left))
      && (LiveOnly(st) ==> LiveOnly(after))
      && after.IdsOf(s) == st.IdsOf(s) + (if granted then [env.accounts[req.accounts[i]]] else [])
      && (after.aborted <==> Admitted(env, st.users, req, i, now) && !Completes(env, st, s, req, i, now, up))
  {
    hide LoginOne, Displace, Agrees, Linked, LoggedIn;
    LoginOneIs(env, st, s, req, i, now, up);
    if Admitted(env, st.users, req, i, now) {
      var id := env.accounts[req.accounts[i]];
      var row := LoggedIn(env, st.users[id], req.accounts[i], req.device, now, id);
      var alone := Displace(st, id, s);
      LoggedInAgrees(env, st.users[id], req.accounts[i], req.device, now, id);
      DisplaceFrees(st, id, s, left);
      AbortKeeps(alone, left);
      GrantKeepsLinked(alone, s, id, row);
      if Agrees(alone, left) {
        GrantKeepsAgrees(alone, s, id, row, left);
      }
    }
  }

  lemma AbortKeeps<S>(st: State<S>, left: map<u32, Row>)
    ensures var r := st.(aborted := true);
      && (Linked(r) <==> Linked(st)) && (LiveOnly(r) <==> LiveOnly(st)) && (Agrees(r, left) <==> Agrees(st, left))
  {
  }

  /** The ids of the accounts that pass the checks, among the first `n` of the request. */
  function AdmittedIds(env: Env, users: map<u32, Row>, req: Request, n: nat, now: nat): seq<u32>
    requires req.Wf() && n <= |req.accounts|
  {
    if n == 0 then []
    else AdmittedIds(env, users, req, n - 1, now)
         + if Admitted(env, users, req, n - 1, now) then [env.accounts[req.accounts[n - 1]]] else []
  }

  /** No later account has the id of one that got in: an account that occurs again is refused the first time. */
  lemma {:induction false} AdmittedOnce(env: Env, users: map<u32, Row>, req: Request, n: nat, j: nat, now: nat)
    requires EnvWf(env) && req.Wf() && n <= j < |req.accounts| && req.accounts[j] in env.accounts
    ensures env.accounts[req.accounts[j]] !in AdmittedIds(env, users, req, n, now)
  {
    if n > 0 {
      AdmittedOnce(env, users, req, n - 1, j, now);
      assert req.accounts[n..][j - n] == req.accounts[j];
    }
  }

  /** What a login looks at in the row of an account. */
  ghost predicate SameCredentials(a: Row, b: Row) {
    a.password == b.password && a.device == b.device && a.end == b.end
  }

  ghost predicate Untouched(before: map<u32, Row>, after: map<u32, Row>, ids: seq<u32>) {
    && before.Keys == after.Keys
    && forall no :: no in before && no !in ids ==> SameCredentials(before[no], after[no])
  }

  lemma LoginOneUntouched<S>(env: Env, st: State<S>, s: S, req: Request, i: nat, now: nat, up: nat)
    requires req.Wf() && i < |req.accounts|
    ensures var (after, r) := LoginOne(env, st, s, req, i, now, up);
      var granted := Admitted(env, st.users, req, i, now) && Completes(env, st, s, req, i, now, up);
      Untouched(st.users, after.users, if granted then [env.accounts[req.accounts[i]]] else [])
  {
    hide LoginOne, Token, NULL_TEXT, ZERO_DATE;
    LoginOneIs(env, st, s, req, i, now, up);
  }

  lemma AdmittedStable(env: Env, a: map<u32, Row>, b: map<u32, Row>, req: Request, n: nat, j: nat, now: nat)
    requires EnvWf(env) && req.Wf() && n <= j < |req.accounts|
    requires Untouched(a, b, AdmittedIds(env, a, req, n, now))
    ensures Admitted(env, a, req, j, now) == Admitted(env, b, req, j, now)
  {
    if req.accounts[j] in env.accounts {
      AdmittedOnce(env, a, req, n, j, now);
    }
  }

  /** The handler does not get past account number `i`: it passes the checks, but its login cannot be completed. */
  predicate Stops<S(==)>(env: Env, st: State<S>, s: S, req: Request, i: nat, now: nat, up: nat)
    requires req.Wf() && i < |req.accounts|
  {
    Admitted(env, st.users, req, i, now) && !Completes(env, st, s, req, i, now, up)
  }

  ghost predicate Aborts<S>(env: Env, st: State<S>, s: S, req: Request, n: nat, now: nat, up: nat)
    requires req.Wf() && n <= |req.accounts|
  {
    exists i :: 0 <= i < n && Stops(env, st, s, req, i, now, up)
  }

  /** How many of the first `n` accounts the handler gets past: all before the first at which it stops. */
  function Reach<S(==)>(env: Env, st: State<S>, s: S, req: Request, n: nat, now: nat, up: nat): (m: nat)
    requires req.Wf() && n <= |req.accounts|
    ensures m <= n
    ensures forall i :: 0 <= i < m ==> !Stops(env, st, s, req, i, now, up)
    ensures m < n ==> Stops(env, st, s, req, m, now, up)
  {
    if n == 0 then 0
    else
      var m := Reach(env, st, s, req, n - 1, now, up);
      if m < n - 1 || Stops(env, st, s, req, n - 1, now, up) then m else n
  }

  /**
   Handling a request from a session without ids gives it exactly the ids of the accounts that pass the checks before
   the first one at which the handler stops, each once, whoever held them before; and it ends the process exactly when
   there is such a one. The invariants are kept either way.
   */
  lemma {:induction false} LoginManyKeeps<S>(env: Env, st: State<S>, s: S, req: Request, n: nat, now: nat, up: nat,
                                             left: map<u32, Row>)
    requires EnvWf(env) && Linked(st) && !st.aborted && st.IdsOf(s) == []
    requires req.Wf() && n <= |req.accounts|
    ensures Progress(env, st, s, req, n, now, up, left, LoginMany(env, st, s, req, n, now, up).0)
  {
    hide *;
    if n == 0 {
      NothingYet(env, st, s, req, now, up, left);
    } else {
      LoginManyKeeps(env, st, s, req, n - 1, now, up, left);
      LoginManyStep(env, st, s, req, n, now, up, left);
    }
  }

  /** What is known after the first `n` accounts; `after` stands for the state that they lead to. */
  ghost predicate Progress<S>(env: Env, st: State<S>, s: S, req: Request, n: nat, now: nat, up: nat,
                              left: map<u32, Row>, after: State<S>)
    requires req.Wf() && n <= |req.accounts|
  {
    var ids := AdmittedIds(env, st.users, req, Reach(env, st, s, req, n, now, up), now);
    && Linked(after)
    && (LiveOnly(st) ==> LiveOnly(after))
    && (Agrees(st, left) ==> Agrees(after, left))
    && after.live == st.live && after.IdsOf(s) == ids
    && (after.aborted <==> Aborts(env, st, s, req, n, now, up))
    && Untouched(st.users, after.users, ids)
  }

  lemma NothingYet<S>(env: Env, st: State<S>, s: S, req: Request, now: nat, up: nat, left: map<u32, Row>)
    requires Linked(st) && !st.aborted && st.IdsOf(s) == [] && req.Wf()
    ensures LoginMany(env, st, s, req, 0, now, up) == (st, []) && Progress(env, st, s, req, 0, now, up, left, st)
  {
    hide Linked, LiveOnly, Agrees, LoginOne, Stops;
  }

  lemma LoginManyStep<S>(env: Env, st: State<S>, s: S, req: Request, n: nat, now: nat, up: nat, left: map<u32, Row>)
    requires EnvWf(env) && Linked(st) && req.Wf() && 0 < n <= |req.accounts|
    requires Progress(env, st, s, req, n - 1, now, up, left, LoginMany(env, st, s, req, n - 1, now, up).0)
    ensures Progress(env, st, s, req, n, now, up, left, LoginMany(env, st, s, req, n, now, up).0)
  {
    hide Linked, Agrees, LiveOnly, LoginOne, Untouched, Aborts, AdmittedIds, Admitted, Reach, TokenFits;
    var before := LoginMany(env, st, s, req, n - 1, now, up).0;
    AbortsStep(env, st, s, req, n, now, up);
    if !before.aborted {
      AdmittedStable(env, st.users, before.users, req, n - 1, n - 1, now);
      AdmittedStep(env, st.users, req, n, now);
      LoginOneKeeps(env, before, s, req, n - 1, now, up, left);
      LoginOneUntouched(env, before, s, req, n - 1, now, up);
      var after := LoginOne(env, before, s, req, n - 1, now, up).0;
      var more := if Admitted(env, st.users, req, n - 1, now) && !after.aborted
        then [env.accounts[req.accounts[n - 1]]] else [];
      var ids := AdmittedIds(env, st.users, req, n - 1, now);
      UntouchedThen(st.users, before.users, after.users, ids, more);
      assert LoginMany(env, st, s, req, n, now, up).0 == after;
      assert ids + more == AdmittedIds(env, st.users, req, Reach(env, st, s, req, n, now, up), now);
      assert after.IdsOf(s) == ids + more;
    }
  }

  lemma AbortsStep<S>(env: Env, st: State<S>, s: S, req: Request, n: nat, now: nat, up: nat)
    requires req.Wf() && 0 < n <= |req.accounts|
    ensures var m, k := Reach(env, st, s, req, n - 1, now, up), Reach(env, st, s, req, n, now, up);
      if Aborts(env, st, s, req, n - 1, now, up) then Aborts(env, st, s, req, n, now, up) && k == m
      else
        && m == n - 1 && (Aborts(env, st, s, req, n, now, up) <==> Stops(env, st, s, req, n - 1, now, up))
        && k == if Stops(env, st, s, req, n - 1, now, up) then n - 1 else n
  {
    hide Stops;
  }

  /** An admitted account is known, and its id is not among those of the accounts before it. */
  lemma AdmittedStep(env: Env, users: map<u32, Row>, req: Request, n: nat, now: nat)
    requires EnvWf(env) && req.Wf() && 0 < n <= |req.accounts|
    ensures Admitted(env, users, req, n - 1, now) ==>
      && req.accounts[n - 1] in env.accounts
      && env.accounts[req.accounts[n - 1]] !in AdmittedIds(env, users, req, n - 1, now)
    ensures AdmittedIds(env, users, req, n, now) == AdmittedIds(env, users, req, n - 1, now)
      + if Admitted(env, users, req, n - 1, now) then [env.accounts[req.accounts[n - 1]]] else []
  {
    hide LoginCode, Repeated;
    if Admitted(env, users, req, n - 1, now) {
      AdmittedInEnv(env, users, req, n - 1, now);
      AdmittedOnce(env, users, req, n - 1, n - 1, now);
    }
  }

  lemma UntouchedThen(a: map<u32, Row>, b: map<u32, Row>, c: map<u32, Row>, ids: seq<u32>, more: seq<u32>)
    requires Untouched(a, b, ids) && Untouched(b, c, more)
    ensures Untouched(a, c, ids + more)
  {
  }

  lemma AdmittedInEnv(env: Env, users: map<u32, Row>, req: Request, i: nat, now: nat)
    requires req.Wf() && i < |req.accounts| && Admitted(env, users, req, i, now)
    ensures req.accounts[i] in env.accounts && env.accounts[req.accounts[i]] in users
  {
  }

  // ---------- The handlers ----------

  /** One relation in two views, and only sessions in use take part in it. */
  ghost predicate Consistent<S>(st: State<S>) {
    Linked(st) && LiveOnly(st)
  }

  lemma ForgetKeeps<S>(st: State<S>, s: S, left: map<u32, Row>)
    requires Linked(st)
    ensures Linked(Forget(st, s)) && Forget(st, s).IdsOf(s) == []
    ensures LiveOnly(st) ==> LiveOnly(Forget(st, s))
    ensures Agrees(st, left) ==> Agrees(Forget(st, s), left)
  {
    hide Linked, Agrees;
    ForgetKeepsLinked(st, s);
    if Agrees(st, left) {
      ForgetKeepsAgrees(st, s, left);
    }
  }

  lemma ForgetKeepsLinked<S>(st: State<S>, s: S)
    requires Linked(st)
    ensures Linked(Forget(st, s))
  {
    hide ClearUsers;
    var r := Forget(st, s);
    forall id | id in r.sessionmap
      ensures id in r.IdsOf(r.sessionmap[id])
    {
      assert id in st.IdsOf(st.sessionmap[id]);
    }
    forall t, id | t in r.ids && id in r.ids[t]
      ensures id in r.sessionmap && r.sessionmap[id] == t
    {
      assert id in st.ids[t] && st.sessionmap[id] == t;
    }
  }

  lemma ForgetKeepsAgrees<S>(st: State<S>, s: S, left: map<u32, Row>)
    requires Agrees(st, left)
    ensures Agrees(Forget(st, s), left)
  {
  }

  lemma {:induction false} ExpireKeeps<S>(st: State<S>, nos: seq<u32>, left: map<u32, Row>)
    requires Consistent(st)
    ensures Consistent(Expire(st, nos)) && Expire(st, nos).aborted == st.aborted
    ensures Agrees(st, left) ==> Agrees(Expire(st, nos), left)
    decreases nos
  {
    hide Linked, LiveOnly, Agrees;
    if nos != [] {
      if nos[0] in st.sessionmap {
        EvictKeeps(st, nos[0], LR_EXPIRED, left);
        ExpireKeeps(Evict(st, nos[0], LR_EXPIRED), nos[1..], left);
      } else {
        ExpireKeeps(st, nos[1..], left);
      }
    }
  }

  /** A reset leaves nobody logged in, whatever the users table said before. */
  lemma ResetEstablishes<S>(st: State<S>)
    requires Consistent(st)
    ensures var r := Reset(st);
      && Consistent(r) && Agrees(r, map[])
      && r.sessionmap == map[]
      && (forall s :: s in r.ids ==> r.ids[s] == [])
      && (forall no :: no in r.users ==> r.users[no].state == 0 && r.users[no].token == [])
      && r.live == st.live && r.aborted == st.aborted
  {
    var r := Reset(st);
    forall id | id in st.sessionmap
      ensures id !in r.sessionmap
    {
      var s := st.sessionmap[id];
      assert id in st.IdsOf(s) && s in st.live;
    }
  }

  /** A reset empties the map exactly when every id is held by a session in use. */
  lemma ResetExact<S>(st: State<S>)
    requires Linked(st)
    ensures Reset(st).sessionmap == map[] <==> LiveOnly(st)
  {
    if LiveOnly(st) {
      ResetEstablishes(st);
    } else {
      var s :| s in st.ids && s !in st.live && st.ids[s] != [];
      var id := st.ids[s][0];
      assert id in st.ids[s] && st.sessionmap[id] == s;
      assert id in Reset(st).sessionmap;
    }
  }

  lemma SendKeeps<S>(st: State<S>, s: S, m: Msg, left: map<u32, Row>)
    ensures var r := st.Send(s, m);
      && (Linked(r) <==> Linked(st)) && (LiveOnly(r) <==> LiveOnly(st)) && (Agrees(r, left) <==> Agrees(st, left))
      && r.IdsOf(s) == st.IdsOf(s) && r.live == st.live && r.aborted == st.aborted
  {
  }

  lemma HandleLoginKeeps<S>(env: Env, st: State<S>, s: S, req: Request, now: nat, up: nat, left: map<u32, Row>)
    requires EnvWf(env) && Consistent(st) && !st.aborted && req.Wf() && st.IdsOf(s) == []
    ensures var r, n := HandleLogin(env, st, s, req, now, up), |req.accounts|;
      && Consistent(r)
      && (Agrees(st, left) ==> Agrees(r, left))
      && r.IdsOf(s) == AdmittedIds(env, st.users, req, Reach(env, st, s, req, n, now, up), now)
      && (r.aborted <==> Aborts(env, st, s, req, n, now, up))
  {
    hide Linked, LiveOnly, Agrees, LoginMany, State.Send, Untouched, AdmittedIds, Aborts;
    LoginManyKeeps(env, st, s, req, |req.accounts|, now, up, left);
    var (after, rs) := LoginMany(env, st, s, req, |req.accounts|, now, up);
    SendKeeps(after, s, Msg(OP_LOGIN_ACK, AllAckFields(rs)), left);
  }

  lemma ReceiveKeeps<S>(env: Env, st: State<S>, step: Step<S>, left: map<u32, Row>)
    requires EnvWf(env) && Consistent(st) && step.Received? && Possible(st, step)
    ensures Consistent(Next(env, st, step))
    ensures Agrees(st, left) ==> Agrees(Next(env, st, step), left)
  {
    hide Linked, LiveOnly, Agrees, State.Send, HandleLogin, Forget;
    var Received(s, op, req, now, up) := step;
    SendKeeps(st, s, Msg(OP_KEEPALIVE, []), left);
    SendKeeps(st, s, Msg(OP_FORCE_LOGOUT, []), left);
    ForgetKeeps(st, s, left);
    if op == OP_LOGIN_REQ && req.Some? && st.IdsOf(s) == [] {
      HandleLoginKeeps(env, st, s, req.value, now, up, left);
    }
  }

  lemma AcceptKeeps<S>(st: State<S>, s: S, left: map<u32, Row>)
    requires Consistent(st) && s !in st.live
    ensures Consistent(Accept(st, s))
    ensures Agrees(st, left) ==> Agrees(Accept(st, s), left)
  {
  }

  lemma DisconnectKeeps<S>(st: State<S>, s: S, left: map<u32, Row>)
    requires Consistent(st)
    ensures Consistent(Disconnect(st, s))
    ensures Agrees(st, left) ==> Agrees(Disconnect(st, s), left)
  {
    hide Forget;
    ForgetKeeps(st, s, left);
    var r := Forget(st, s);
    assert r.live == st.live && r.IdsOf(s) == [] by {
      ForgetLive(st, s);
    }
    assert Linked(r.(live := r.live - {s})) && LiveOnly(r.(live := r.live - {s}));
  }

  lemma ForgetLive<S>(st: State<S>, s: S)
    ensures Forget(st, s).live == st.live && s in Forget(st, s).ids && Forget(st, s).ids[s] == []
  {
  }

  /** Every step keeps the invariant, and the agreement of the table as far as it goes. */
  lemma StepKeeps<S>(env: Env, st: State<S>, step: Step<S>, left: map<u32, Row>)
    requires EnvWf(env) && Consistent(st) && Possible(st, step)
    ensures Consistent(Next(env, st, step))
    ensures Agrees(st, left) ==> Agrees(Next(env, st, step), left)
    ensures step.ResetAll? ==> Agrees(Next(env, st, step), map[])
  {
    hide Linked, LiveOnly, Agrees, Forget, Reset, Expire, Accept, Disconnect, Login.Receive;
    match step
    case Accepted(s) => AcceptKeeps(st, s, left);
    case Received(_, _, _, _, _) => ReceiveKeeps(env, st, step, left);
    case Disconnected(s) => DisconnectKeeps(st, s, left);
    case Expired(nos) => ExpireKeeps(st, nos, left);
    case ResetAll =>
      ResetEstablishes(st);
      AgreesMore(Reset(st), left);
  }

  lemma AgreesMore<S>(st: State<S>, left: map<u32, Row>)
    requires Agrees(st, map[])
    ensures Agrees(st, left)
  {
  }

  // ---------- Over every run ----------

  lemma {:induction false} RunKeeps<S>(env: Env, st: State<S>, run: seq<Step<S>>, left: map<u32, Row>)
    requires EnvWf(env) && Consistent(st) && Exec(env, st, run).Some?
    ensures Consistent(Exec(env, st, run).value)
    ensures Agrees(st, left) ==> Agrees(Exec(env, st, run).value, left)
    decreases run
  {
    hide Consistent, Agrees, Next;
    if run != [] {
      StepKeeps(env, st, run[0], left);
      RunKeeps(env, Next(env, st, run[0]), run[1..], left);
    }
  }

  /** The server at start-up: nobody connected, and a users table left by an earlier run. */
  function Startup<S(==)>(users: map<u32, Row>): State<S> {
    State(map[], map[], {}, users, map[], false)
  }

  /**
   From start-up, over every run: the map and the id lists are one relation, no id is held twice, only sessions in use
   hold ids, connected users have a state of 1 and a token, and a row of anybody else is either clear or one that an
   earlier run of the server has left.
   */
  lemma SingleLogin<S>(env: Env, users: map<u32, Row>, run: seq<Step<S>>)
    requires EnvWf(env) && Exec(env, Startup<S>(users), run).Some?
    ensures var st := Exec(env, Startup<S>(users), run).value;
      && Consistent(st)
      && (forall s, t, id :: s in st.ids && t in st.ids && id in st.ids[s] && id in st.ids[t] ==> s == t)
      && (forall id :: id in st.sessionmap ==> st.sessionmap[id] in st.live)
      && (forall id :: id in st.sessionmap ==> id in st.users && RowAgrees(st.users[id], true))
      && (forall no :: no in st.users && no !in st.sessionmap ==>
            RowAgrees(st.users[no], false) || (no in users && st.users[no] == users[no]))
  {
    var start := Startup<S>(users);
    assert Consistent(start) && Agrees(start, users);
    RunKeeps(env, start, run, users);
    var st := Exec(env, start, run).value;
    forall s, t, id | s in st.ids && t in st.ids && id in st.ids[s] && id in st.ids[t]
      ensures s == t
    {
      assert st.sessionmap[id] == s;
    }
    forall id | id in st.sessionmap
      ensures st.sessionmap[id] in st.live
    {
      assert id in st.IdsOf(st.sessionmap[id]);
    }
  }

  /** The id is in the session map after some prefix of the run. */
  ghost predicate EverHeld<S>(env: Env, st: State<S>, run: seq<Step<S>>, no: u32)
    requires Exec(env, st, run).Some?
    decreases run
  {
    no in st.sessionmap || (run != [] && EverHeld(env, Next(env, st, run[0]), run[1..], no))
  }

  /** Whether the row will be right: it was clear, or a reset was made, or somebody was logged in with it meanwhile. */
  ghost predicate Refreshed<S>(env: Env, users: map<u32, Row>, run: seq<Step<S>>, no: u32)
    requires Exec(env, Startup<S>(users), run).Some? && no in users
  {
    RowAgrees(users[no], false) || ResetAll in run || EverHeld(env, Startup<S>(users), run, no)
  }

  /**
   The server makes no reset when it starts. A row of the users table says whether its account is connected exactly
   when it was clear at start-up, or a reset was made in the run, or its id has been in the session map.
   */
  lemma TableAgrees<S>(env: Env, users: map<u32, Row>, run: seq<Step<S>>)
    requires EnvWf(env) && Exec(env, Startup<S>(users), run).Some?
    ensures var st := Exec(env, Startup<S>(users), run).value;
      && st.users.Keys == users.Keys
      && (forall id :: id in st.sessionmap ==> id in st.users)
      && forall no :: no in users ==>
           (RowAgrees(st.users[no], no in st.sessionmap) <==> Refreshed(env, users, run, no))
  {
    hide RowAgrees, Exec, Consistent, Refreshed;
    var start := Startup<S>(users);
    StartsConsistent<S>(users);
    RunRows(env, start, run);
    RunKeeps(env, start, run, users);
    var st := Exec(env, start, run).value;
    forall no | no in users
      ensures RowAgrees(st.users[no], no in st.sessionmap) <==> Refreshed(env, users, run, no)
    {
      if Refreshed(env, users, run, no) {
        RefreshedAgrees(env, users, run, no);
      } else {
        NotRefreshed(env, users, run, no);
      }
    }
  }

  lemma StartsConsistent<S>(users: map<u32, Row>)
    ensures Consistent(Startup<S>(users)) && Agrees(Startup<S>(users), users)
  {
  }

  lemma RefreshedAgrees<S>(env: Env, users: map<u32, Row>, run: seq<Step<S>>, no: u32)
    requires EnvWf(env) && Exec(env, Startup<S>(users), run).Some? && no in users
    requires Refreshed(env, users, run, no) && no in Exec(env, Startup<S>(users), run).value.users
    ensures var st := Exec(env, Startup<S>(users), run).value; RowAgrees(st.users[no], no in st.sessionmap)
  {
    hide RowAgrees, Exec, Consistent, EverHeld;
    var start := Startup<S>(users);
    StartsConsistent<S>(users);
    if ResetAll in run {
      AgreesAfterReset(env, start, run);
    } else if EverHeld(env, start, run, no) {
      AgreesAfterHeld(env, start, run, users, no);
    } else {
      assert Agrees(start, users - {no});
      RunKeeps(env, start, run, users - {no});
    }
  }

  /** From a state in which the id is held, what an earlier run has left in its row no longer matters. */
  lemma {:induction false} AgreesAfterHeld<S>(env: Env, st: State<S>, run: seq<Step<S>>, left: map<u32, Row>, no: u32)
    requires EnvWf(env) && Consistent(st) && Agrees(st, left)
    requires Exec(env, st, run).Some? && EverHeld(env, st, run, no)
    ensures Agrees(Exec(env, st, run).value, left - {no})
    decreases run
  {
    hide Consistent, Agrees, Next;
    if no in st.sessionmap {
      HeldAgrees(st, left, no);
      RunKeeps(env, st, run, left - {no});
    } else {
      StepKeeps(env, st, run[0], left);
      AgreesAfterHeld(env, Next(env, st, run[0]), run[1..], left, no);
    }
  }

  lemma HeldAgrees<S>(st: State<S>, left: map<u32, Row>, no: u32)
    requires Agrees(st, left) && no in st.sessionmap
    ensures Agrees(st, left - {no})
  {
    hide RowAgrees;
  }

  lemma NotRefreshed<S>(env: Env, users: map<u32, Row>, run: seq<Step<S>>, no: u32)
    requires EnvWf(env) && Exec(env, Startup<S>(users), run).Some? && no in users && !Refreshed(env, users, run, no)
    ensures var st := Exec(env, Startup<S>(users), run).value;
      no in st.users && no !in st.sessionmap && !RowAgrees(st.users[no], false)
  {
    hide RowAgrees, Exec, Consistent, EverHeld;
    StartsConsistent<S>(users);
    NeverHeld(env, Startup<S>(users), run, no);
  }

  /** A row whose id is never held, in a run without a reset, stays as it is. */
  lemma {:induction false} NeverHeld<S>(env: Env, st: State<S>, run: seq<Step<S>>, no: u32)
    requires EnvWf(env) && Consistent(st) && Exec(env, st, run).Some? && no in st.users
    requires ResetAll !in run && !EverHeld(env, st, run, no)
    ensures var r := Exec(env, st, run).value;
      no !in r.sessionmap && no in r.users && r.users[no] == st.users[no]
    decreases run
  {
    hide Consistent, Next;
    if run != [] {
      var next := Next(env, st, run[0]);
      assert no !in next.sessionmap && !run[0].ResetAll?;
      StepKeeps(env, st, run[0], map[]);
      StepSpares(env, st, run[0], no);
      NeverHeld(env, next, run[1..], no);
    }
  }

  /** The row is the same, and the id is as it was, not in the map. */
  ghost predicate Spared<S>(a: State<S>, b: State<S>, no: u32) {
    no in a.users && no !in a.sessionmap ==> no !in b.sessionmap && no in b.users && b.users[no] == a.users[no]
  }

  lemma EvictSpares<S>(st: State<S>, id: u32, reason: u32, no: u32)
    requires id in st.sessionmap
    ensures Spared(st, Evict(st, id, reason), no)
  {
    hide RemoveFirst;
  }

  lemma {:induction false} ExpireSpares<S>(st: State<S>, nos: seq<u32>, no: u32)
    ensures Spared(st, Expire(st, nos), no)
    decreases nos
  {
    hide Evict;
    if nos != [] {
      if nos[0] in st.sessionmap {
        EvictSpares(st, nos[0], LR_EXPIRED, no);
        ExpireSpares(Evict(st, nos[0], LR_EXPIRED), nos[1..], no);
      } else {
        ExpireSpares(st, nos[1..], no);
      }
    }
  }

  lemma ForgetSpares<S>(st: State<S>, s: S, no: u32)
    requires Linked(st)
    ensures Spared(st, Forget(st, s), no)
  {
  }

  lemma LoginOneSpares<S>(env: Env, st: State<S>, s: S, req: Request, i: nat, now: nat, up: nat, no: u32)
    requires req.Wf() && i < |req.accounts|
    ensures var r := LoginOne(env, st, s, req, i, now, up).0;
      Spared(st, r, no) || (no in r.sessionmap && r.sessionmap[no] == s)
    ensures var r := LoginOne(env, st, s, req, i, now, up).0;
      no in st.sessionmap && st.sessionmap[no] == s ==> no in r.sessionmap && r.sessionmap[no] == s
  {
    hide LoginOne, LoginCode, LoggedIn, RemoveFirst, Completes;
    LoginOneIs(env, st, s, req, i, now, up);
  }

  /** A row that a request has changed belongs to an id that was held before it or is held by the session after it. */
  lemma {:induction false} LoginManySpares<S>(env: Env, st: State<S>, s: S, req: Request, n: nat, now: nat, up: nat, no: u32)
    requires req.Wf() && n <= |req.accounts|
    ensures var r := LoginMany(env, st, s, req, n, now, up).0;
      Spared(st, r, no) || (no in r.sessionmap && r.sessionmap[no] == s)
  {
    hide LoginOne;
    if n > 0 {
      LoginManySpares(env, st, s, req, n - 1, now, up, no);
      LoginOneSpares(env, LoginMany(env, st, s, req, n - 1, now, up).0, s, req, n - 1, now, up, no);
    }
  }

  lemma StepSpares<S>(env: Env, st: State<S>, step: Step<S>, no: u32)
    requires Consistent(st) && Possible(st, step) && !step.ResetAll?
    requires no in st.users && no !in st.sessionmap && no !in Next(env, st, step).sessionmap
    ensures no in Next(env, st, step).users && Next(env, st, step).users[no] == st.users[no]
  {
    hide Linked, LiveOnly, LoginMany, Forget, Expire;
    match step
    case Accepted(_) =>
    case Received(s, op, req, now, up) =>
      ForgetSpares(st, s, no);
      if req.Some? {
        LoginManySpares(env, st, s, req.value, |req.value.accounts|, now, up, no);
      }
    case Disconnected(s) => ForgetSpares(st, s, no);
    case Expired(nos) => ExpireSpares(st, nos, no);
  }

  /** A start-up table with a row left unclear, and a run after which it is still wrong. */
  lemma UnclearRowOccurs()
    ensures exists env: Env, users: map<u32, Row>, no: u32 ::
      && EnvWf(env) && ShortDates(env, users) && no in users
      && var start, run := Startup<nat>(users), [Accepted(0), Disconnected(0)];
         && Exec(env, start, run).Some?
         && !RowAgrees(Exec(env, start, run).value.users[no], no in Exec(env, start, run).value.sessionmap)
  {
    hide EnvWf, ShortDates, Next, Exec;
    var env, users, req := FirstLogin([3]);
    var unclear: map<u32, Row> := map no | no in users :: users[no].(state := 1, token := [1]);
    var start, run := Startup<nat>(unclear), [Accepted(0), Disconnected(0)];
    GoneFromStart(env, unclear);
    TwoSteps(env, start, run[0], run[1]);
    UnclearShort(env, users, unclear);
    assert 7 in unclear;
  }

  lemma {:induction false} AgreesAfterReset<S>(env: Env, st: State<S>, run: seq<Step<S>>)
    requires EnvWf(env) && Consistent(st) && Exec(env, st, run).Some? && ResetAll in run
    ensures Agrees(Exec(env, st, run).value, map[])
    decreases run
  {
    hide Consistent, Agrees, Next;
    var next := Next(env, st, run[0]);
    StepKeeps(env, st, run[0], map[]);
    if run[0].ResetAll? {
      RunKeeps(env, next, run[1..], map[]);
    } else {
      AgreesAfterReset(env, next, run[1..]);
    }
  }

  // ---------- Logins that cannot be completed ----------

  /**
   A login request ends the process exactly when one of its accounts passes the checks while the ingredients of its
   token do not fit their array or the session has no peer.
   */
  lemma AbortExact<S>(env: Env, st: State<S>, step: Step<S>)
    requires EnvWf(env) && Consistent(st) && Possible(st, step)
    ensures Next(env, st, step).aborted <==>
      && step.Received? && step.op == OP_LOGIN_REQ && step.req.Some? && st.IdsOf(step.s) == []
      && Aborts(env, st, step.s, step.req.value, |step.req.value.accounts|, step.now, step.up)
  {
    hide Linked, LiveOnly, HandleLogin, Aborts, Expire;
    if step.Received? && step.req.Some? && st.IdsOf(step.s) == [] {
      HandleLoginKeeps(env, st, step.s, step.req.value, step.now, step.up, map[]);
    } else if step.Expired? {
      ExpireKeeps(st, step.nos, map[]);
    }
  }

  /** For a session that has been disconnected, that is when any account passes the checks; and it is given no id. */
  lemma LoginAfterDisconnect<S>(env: Env, st: State<S>, step: Step<S>)
    requires EnvWf(env) && Consistent(st) && Possible(st, step)
    requires step.Received? && step.op == OP_LOGIN_REQ && step.req.Some? && step.s !in st.live
    ensures var r, req := Next(env, st, step), step.req.value;
      && r.IdsOf(step.s) == []
      && (r.aborted <==> exists i :: 0 <= i < |req.accounts| && Admitted(env, st.users, req, i, step.now))
  {
    hide Admitted, HandleLogin, TokenFits;
    var req := step.req.value;
    HandleLoginKeeps(env, st, step.s, req, step.now, step.up, map[]);
    var m := Reach(env, st, step.s, req, |req.accounts|, step.now, step.up);
    forall i | 0 <= i < m
      ensures !Admitted(env, st.users, req, i, step.now)
    {
      assert !Stops(env, st, step.s, req, i, step.now, step.up);
    }
    NoneAdmitted(env, st.users, req, m, step.now);
    forall i | 0 <= i < |req.accounts| && Admitted(env, st.users, req, i, step.now)
      ensures Stops(env, st, step.s, req, i, step.now, step.up)
    {
    }
  }

  lemma {:induction false} NoneAdmitted(env: Env, users: map<u32, Row>, req: Request, n: nat, now: nat)
    requires req.Wf() && n <= |req.accounts| && forall i :: 0 <= i < n ==> !Admitted(env, users, req, i, now)
    ensures AdmittedIds(env, users, req, n, now) == []
  {
    if n > 0 {
      NoneAdmitted(env, users, req, n - 1, now);
    }
  }

  /** It can happen: a connection is accepted and lost, and the login received on it is handled after that. */
  lemma LoginAfterDisconnectOccurs()
    ensures exists env: Env, users: map<u32, Row>, run: seq<Step<nat>> ::
      && EnvWf(env) && ShortDates(env, users)
      && Exec(env, Startup<nat>(users), run).Some? && Exec(env, Startup<nat>(users), run).value.aborted
  {
    hide Admitted, Accept, Disconnect, Consistent, EnvWf, Exec, Next, ShortDates;
    var device: wstring := [3];
    var env, users, req := FirstLogin(device);
    var login: Step<nat> := Received(0, OP_LOGIN_REQ, Some(req), 0, 1);
    var start, run := Startup<nat>(users), [Accepted(0), Disconnected(0), login];
    GoneFromStart(env, users);
    LoginAfterDisconnect(env, Disconnect(Accept(start, 0), 0), login);
    ThreeSteps(env, start, run[0], run[1], run[2]);
    assert Exec(env, start, run).value.aborted;
  }

  /** So can the other: the peer is there throughout, but the text of the device is too long. */
  lemma LongDeviceOccurs()
    ensures exists env: Env, users: map<u32, Row>, req: Request ::
      && EnvWf(env) && ShortDates(env, users) && req.Wf() && |req.accounts| == 1 && Readable(Wide(req.device))
      && var start := Startup<nat>(users);
         var run := [Accepted(0), Received(0, OP_LOGIN_REQ, Some(req), 0, 1)];
         && Exec(env, start, run).Some? && Exec(env, start, run).value.aborted
         && Answers(Accept(start, 0), 0, 0, 1)
  {
    hide Consistent, EnvWf, Next, ShortDates, Exec, Admitted;
    var device: wstring := seq(100, _ => 3);
    var env, users, req := FirstLogin(device);
    var start := Startup<nat>(users);
    var login: Step<nat> := Received(0, OP_LOGIN_REQ, Some(req), 0, 1);
    LiveFromStart(env, users);
    AbortExact(env, Accept(start, 0), login);
    assert Stops(env, Accept(start, 0), 0, req, 0, 0, 1) by {
      TooLong(env, users, req);
    }
    TwoSteps(env, start, Accepted(0), login);
  }

  lemma TooLong(env: Env, users: map<u32, Row>, req: Request)
    requires ShortDates(env, users) && |req.accounts| == 1 && |req.device| == 100
    ensures !TokenFits(env, req.accounts[0], req.device, 0)
  {
  }

  lemma FirstLogin(device: wstring) returns (env: Env, users: map<u32, Row>, req: Request)
    requires device != []
    ensures 7 in users
    ensures EnvWf(env) && ShortDates(env, users) && req.Wf() && |req.accounts| == 1 && req.device == device
    ensures Admitted(env, users, req, 0, 0)
  {
    var account: wstring, password: wstring := [1], [2];
    env := Env(map[account := 7], (text: wstring) => Some(1), (t: nat) => seq(19, _ => 0x30),
               (s: seq<byte>) => [0, 0, 0, 0, 0]);
    users := map[7 := Row(password, [], [], [], 0, 0, [])];
    req := Request([account], [password], device);
    assert !Repeated(req.accounts, 0);
    assert LoginCode(env, users, account, password, device, 0) == LR_SUCCESS;
  }

  lemma UnclearShort(env: Env, users: map<u32, Row>, unclear: map<u32, Row>)
    requires ShortDates(env, users) && unclear.Keys == users.Keys
    requires forall no :: no in users ==> unclear[no].end == users[no].end
    ensures ShortDates(env, unclear)
  {
  }

  lemma LiveFromStart(env: Env, users: map<u32, Row>)
    ensures var start := Startup<nat>(users); var st := Accept(start, 0);
      && Possible(start, Accepted(0)) && Next(env, start, Accepted(0)) == st
      && Consistent(st) && 0 in st.live && st.users == users && !st.aborted && st.IdsOf(0) == []
  {
  }

  lemma TwoSteps<S>(env: Env, st: State<S>, a: Step<S>, b: Step<S>)
    requires Possible(st, a) && Possible(Next(env, st, a), b)
    ensures Exec(env, st, [a, b]) == Some(Next(env, Next(env, st, a), b))
  {
    hide Next, Possible;
    var s1 := Next(env, st, a);
    assert [a, b][1..] == [b] && [b][1..] == [];
    assert Exec(env, s1, [b]) == Some(Next(env, s1, b));
  }

  lemma GoneFromStart(env: Env, users: map<u32, Row>)
    ensures var start := Startup<nat>(users); var st := Disconnect(Accept(start, 0), 0);
      && Possible(start, Accepted(0)) && Possible(Accept(start, 0), Disconnected(0))
      && Next(env, start, Accepted(0)) == Accept(start, 0)
      && Next(env, Accept(start, 0), Disconnected(0)) == st
      && Consistent(st) && st.live == {} && st.users == users && !st.aborted && st.IdsOf(0) == []
  {
    var up := Accept(Startup<nat>(users), 0);
    assert up.IdsOf(0) == [] && Elements([]) == {};
    assert ClearUsers(users, {}) == users;
    assert up.live - {0} == {};
  }

  lemma ThreeSteps<S>(env: Env, st: State<S>, a: Step<S>, b: Step<S>, c: Step<S>)
    requires Possible(st, a) && Possible(Next(env, st, a), b) && Possible(Next(env, Next(env, st, a), b), c)
    ensures Exec(env, st, [a, b, c]) == Some(Next(env, Next(env, Next(env, st, a), b), c))
  {
    hide Next, Possible;
    TwoSteps(env, Next(env, st, a), b, c);
    assert [a, b, c][1..] == [b, c];
  }

  // ---------- Nobody is evicted silently ----------

  /** A message that tells the session that it has lost the id. */
  predicate Tells(m: Msg, id: u32) {
    m.op == OP_FORCE_LOGOUT || exists reason: u32 :: m == DisconnectAccount(id, reason)
  }

  /** Between the two states the session was only sent more, and was told about every id it lost. */
  ghost predicate Accounted<S>(a: State<S>, b: State<S>, s: S) {
    && a.Sent(s) <= b.Sent(s)
    && forall id :: id in a.IdsOf(s) && id !in b.IdsOf(s) ==>
         exists i :: |a.Sent(s)| <= i < |b.Sent(s)| && Tells(b.Sent(s)[i], id)
  }

  lemma AccountedTransitive<S>(a: State<S>, b: State<S>, c: State<S>, s: S)
    requires Accounted(a, b, s) && Accounted(b, c, s)
    ensures Accounted(a, c, s)
  {
    forall id | id in a.IdsOf(s) && id !in c.IdsOf(s)
      ensures exists i :: |a.Sent(s)| <= i < |c.Sent(s)| && Tells(c.Sent(s)[i], id)
    {
      if id in b.IdsOf(s) {
        var i :| |b.Sent(s)| <= i < |c.Sent(s)| && Tells(c.Sent(s)[i], id);
      } else {
        var i :| |a.Sent(s)| <= i < |b.Sent(s)| && Tells(b.Sent(s)[i], id);
        assert c.Sent(s)[i] == b.Sent(s)[i];
      }
    }
  }

  lemma {:induction false} RemoveFirstKeepsOthers(s: seq<u32>, id: u32, x: u32)
    requires x in s && x != id
    ensures x in RemoveFirst(s, id)
  {
    if s[0] != id && s[0] != x {
      RemoveFirstKeepsOthers(s[1..], id, x);
    }
  }

  lemma EvictAccounted<S>(st: State<S>, id: u32, reason: u32, s: S)
    requires id in st.sessionmap
    ensures Accounted(st, Evict(st, id, reason), s)
  {
    var r := Evict(st, id, reason);
    if s == st.sessionmap[id] {
      assert r.Sent(s)[|st.Sent(s)|] == DisconnectAccount(id, reason);
      forall x | x in st.IdsOf(s) && x !in r.IdsOf(s)
        ensures x == id
      {
        if x != id {
          RemoveFirstKeepsOthers(st.IdsOf(s), id, x);
        }
      }
    }
  }

  lemma {:induction false} LoginManyAccounted<S>(env: Env, st: State<S>, t: S, req: Request, n: nat, now: nat, up: nat, s: S)
    requires req.Wf() && n <= |req.accounts|
    ensures Accounted(st, LoginMany(env, st, t, req, n, now, up).0, s)
  {
    hide Accounted, LoginOne;
    if n == 0 {
      AccountedReflexive(st, s);
    } else {
      LoginManyAccounted(env, st, t, req, n - 1, now, up, s);
      var before := LoginMany(env, st, t, req, n - 1, now, up).0;
      LoginOneAccounted(env, before, t, req, n - 1, now, up, s);
      AccountedTransitive(st, before, LoginMany(env, st, t, req, n, now, up).0, s);
    }
  }

  lemma LoginOneAccounted<S>(env: Env, st: State<S>, t: S, req: Request, i: nat, now: nat, up: nat, s: S)
    requires req.Wf() && i < |req.accounts|
    ensures Accounted(st, LoginOne(env, st, t, req, i, now, up).0, s)
  {
    hide LoginOne, LoginCode, LoggedIn, Evict;
    LoginOneIs(env, st, t, req, i, now, up);
    if Admitted(env, st.users, req, i, now) {
      AdmittedInEnv(env, st.users, req, i, now);
      var id := env.accounts[req.accounts[i]];
      if id in st.sessionmap && st.sessionmap[id] != t {
        EvictAccounted(st, id, LR_DUPLICATE, s);
      }
    }
  }

  lemma {:induction false} ExpireAccounted<S>(st: State<S>, nos: seq<u32>, s: S)
    ensures Accounted(st, Expire(st, nos), s)
    decreases nos
  {
    hide Accounted, Evict;
    if nos != [] {
      if nos[0] in st.sessionmap {
        var r := Evict(st, nos[0], LR_EXPIRED);
        EvictAccounted(st, nos[0], LR_EXPIRED, s);
        ExpireAccounted(r, nos[1..], s);
        AccountedTransitive(st, r, Expire(st, nos), s);
      } else {
        ExpireAccounted(st, nos[1..], s);
      }
    } else {
      AccountedReflexive(st, s);
    }
  }

  lemma AccountedReflexive<S>(st: State<S>, s: S)
    ensures Accounted(st, st, s)
  {
  }

  /** The steps by which a session itself gives up its ids. */
  predicate OwnDoing<S(==)>(step: Step<S>, s: S) {
    match step
    case Accepted(t) => t == s
    case Received(t, op, _, _, _) => t == s && op == OP_LOGOUT
    case Disconnected(t) => t == s
    case _ => false
  }

  lemma SendAccounted<S>(st: State<S>, t: S, m: Msg, s: S)
    ensures Accounted(st, st.Send(t, m), s)
  {
  }

  lemma ForgetAccounted<S>(st: State<S>, t: S, s: S)
    requires t != s
    ensures Accounted(st, Forget(st, t), s)
  {
  }

  lemma ReceiveAccounted<S>(env: Env, st: State<S>, step: Step<S>, s: S)
    requires step.Received? && Possible(st, step) && !OwnDoing(step, s)
    ensures Accounted(st, Next(env, st, step), s)
  {
    hide Accounted, Forget, State.Send, LoginMany;
    var Received(t, op, req, now, up) := step;
    AccountedReflexive(st, s);
    SendAccounted(st, t, Msg(OP_KEEPALIVE, []), s);
    SendAccounted(st, t, Msg(OP_FORCE_LOGOUT, []), s);
    if t != s {
      ForgetAccounted(st, t, s);
    }
    if req.Some? {
      var (after, rs) := LoginMany(env, st, t, req.value, |req.value.accounts|, now, up);
      LoginManyAccounted(env, st, t, req.value, |req.value.accounts|, now, up, s);
      SendAccounted(after, t, Msg(OP_LOGIN_ACK, AllAckFields(rs)), s);
      AccountedTransitive(st, after, HandleLogin(env, st, t, req.value, now, up), s);
    }
  }

  lemma ResetAccounted<S>(st: State<S>, s: S)
    ensures Accounted(st, Reset(st), s)
  {
    var r := Reset(st);
    if s in st.live {
      assert r.Sent(s)[|st.Sent(s)|] == Msg(OP_FORCE_LOGOUT, []);
    }
  }

  lemma StepAccounted<S>(env: Env, st: State<S>, step: Step<S>, s: S)
    requires Possible(st, step) && !OwnDoing(step, s)
    ensures Accounted(st, Next(env, st, step), s)
  {
    match step
    case Accepted(t) =>
    case Received(_, _, _, _, _) => ReceiveAccounted(env, st, step, s);
    case Disconnected(t) => ForgetAccounted(st, t, s);
    case Expired(nos) => ExpireAccounted(st, nos, s);
    case ResetAll => ResetAccounted(st, s);
  }

  /** Over every run: an id lost without the session's own doing has been announced to the session. */
  lemma {:induction false} NoSilentEviction<S>(env: Env, st: State<S>, run: seq<Step<S>>, s: S)
    requires Exec(env, st, run).Some? && forall step :: step in run ==> !OwnDoing(step, s)
    ensures Accounted(st, Exec(env, st, run).value, s)
    decreases run
  {
    hide Accounted, Next, OwnDoing;
    if run == [] {
      AccountedReflexive(st, s);
    } else {
      var next := Next(env, st, run[0]);
      StepAccounted(env, st, run[0], s);
      NoSilentEviction(env, next, run[1..], s);
      AccountedTransitive(st, next, Exec(env, st, run).value, s);
    }
  }

  // ---------- What an account keeps for good ----------

  /** A device, once bound, stays bound; an account's time, once started, is neither moved nor extended. */
  ghost predicate Kept(a: Row, b: Row) {
    && a.password == b.password && a.accType == b.accType
    && (!Blank(a.device) ==> b.device == a.device)
    && (!NeverStarted(a) ==> b.start == a.start && b.end == a.end)
  }

  ghost predicate AllKept(a: map<u32, Row>, b: map<u32, Row>) {
    a.Keys == b.Keys && forall no :: no in a ==> Kept(a[no], b[no])
  }

  lemma AllKeptTransitive(a: map<u32, Row>, b: map<u32, Row>, c: map<u32, Row>)
    requires AllKept(a, b) && AllKept(b, c)
    ensures AllKept(a, c)
  {
    hide NULL_TEXT, ZERO_DATE;
    forall no | no in a
      ensures Kept(a[no], c[no])
    {
      assert Kept(a[no], b[no]) && Kept(b[no], c[no]);
    }
  }

  lemma LoginOneRows<S>(env: Env, st: State<S>, s: S, req: Request, i: nat, now: nat, up: nat)
    requires req.Wf() && i < |req.accounts|
    ensures AllKept(st.users, LoginOne(env, st, s, req, i, now, up).0.users)
  {
    hide LoginOne, NULL_TEXT, ZERO_DATE, Token;
    LoginOneIs(env, st, s, req, i, now, up);
  }

  lemma {:induction false} LoginManyRows<S>(env: Env, st: State<S>, s: S, req: Request, n: nat, now: nat, up: nat)
    requires req.Wf() && n <= |req.accounts|
    ensures AllKept(st.users, LoginMany(env, st, s, req, n, now, up).0.users)
  {
    hide LoginOne, Kept;
    if n == 0 {
      KeptReflexive(st.users);
    } else {
      var before := LoginMany(env, st, s, req, n - 1, now, up).0;
      LoginManyRows(env, st, s, req, n - 1, now, up);
      if !before.aborted {
        LoginOneRows(env, before, s, req, n - 1, now, up);
        AllKeptTransitive(st.users, before.users, LoginMany(env, st, s, req, n, now, up).0.users);
      }
    }
  }

  lemma KeptReflexive(users: map<u32, Row>)
    ensures AllKept(users, users)
    ensures forall gone :: AllKept(users, ClearUsers(users, gone))
  {
  }

  lemma {:induction false} ExpireRows<S>(st: State<S>, nos: seq<u32>)
    ensures AllKept(st.users, Expire(st, nos).users)
    decreases nos
  {
    hide AllKept, ClearUsers;
    KeptReflexive(st.users);
    if nos != [] {
      var next := if nos[0] in st.sessionmap then Evict(st, nos[0], LR_EXPIRED) else st;
      ExpireRows(next, nos[1..]);
      AllKeptTransitive(st.users, next.users, Expire(st, nos).users);
    }
  }

  lemma StepRows<S>(env: Env, st: State<S>, step: Step<S>)
    requires Possible(st, step)
    ensures AllKept(st.users, Next(env, st, step).users)
  {
    hide AllKept, ClearUsers, LoginMany, Expire, Elements;
    KeptReflexive(st.users);
    match step
    case Received(s, _, req, now, up) =>
      if req.Some? {
        LoginManyRows(env, st, s, req.value, |req.value.accounts|, now, up);
      }
    case Expired(nos) => ExpireRows(st, nos);
    case _ =>
  }

  /** Over every run, whatever the order of logins, evictions and resets. */
  lemma {:induction false} RunRows<S>(env: Env, st: State<S>, run: seq<Step<S>>)
    requires Exec(env, st, run).Some?
    ensures AllKept(st.users, Exec(env, st, run).value.users)
    decreases run
  {
    hide AllKept, Next;
    if run == [] {
      KeptReflexive(st.users);
    } else {
      var next := Next(env, st, run[0]);
      StepRows(env, st, run[0]);
      RunRows(env, next, run[1..]);
      AllKeptTransitive(st.users, next.users, Exec(env, st, run).value.users);
    }
  }

  /** An account that has logged in from a device can never again be logged in from another one. */
  lemma DeviceLock<S>(env: Env, st: State<S>, run: seq<Step<S>>, account: wstring, device: wstring)
    requires Exec(env, st, run).Some? && account in env.accounts && env.accounts[account] in st.users
    requires !Blank(st.users[env.accounts[account]].device) && device != st.users[env.accounts[account]].device
    ensures forall password, now ::
      LoginCode(env, Exec(env, st, run).value.users, account, password, device, now) == LR_INVALID_ACCOUNT
  {
    RunRows(env, st, run);
    assert Kept(st.users[env.accounts[account]], Exec(env, st, run).value.users[env.accounts[account]]);
  }

  /** The first device wins: once it has let an account in, every run refuses that account from any other device. */
  lemma FirstDeviceWins<S>(env: Env, st: State<S>, s: S, req: Request, i: nat, now: nat, up: nat, run: seq<Step<S>>, device: wstring)
    requires req.Wf() && i < |req.accounts| && Admitted(env, st.users, req, i, now)
    requires Completes(env, st, s, req, i, now, up) && !Blank(req.device) && device != req.device
    requires Exec(env, LoginOne(env, st, s, req, i, now, up).0, run).Some?
    ensures var end := Exec(env, LoginOne(env, st, s, req, i, now, up).0, run).value;
      forall password, later ::
        LoginCode(env, end.users, req.accounts[i], password, device, later) == LR_INVALID_ACCOUNT
  {
    hide LoginOne, LoginCode, Exec, Displace, Token, NULL_TEXT, ZERO_DATE;
    LoginOneIs(env, st, s, req, i, now, up);
    AdmittedInEnv(env, st.users, req, i, now);
    DeviceLock(env, LoginOne(env, st, s, req, i, now, up).0, run, req.accounts[i], device);
  }

  /** And an account whose time is over stays refused: logging in again does not restart it. */
  lemma TimeRunsOut<S>(env: Env, st: State<S>, run: seq<Step<S>>, account: wstring, now: nat, up: nat)
    requires Exec(env, st, run).Some? && account in env.accounts && env.accounts[account] in st.users
    requires !NeverStarted(st.users[env.accounts[account]]) && !After(env, st.users[env.accounts[account]].end, now)
    ensures forall password, device, later :: later >= now ==>
      LoginCode(env, Exec(env, st, run).value.users, account, password, device, later) != LR_SUCCESS
  {
    RunRows(env, st, run);
    assert Kept(st.users[env.accounts[account]], Exec(env, st, run).value.users[env.accounts[account]]);
  }

  // ---------- The acknowledgement fits the buffer ----------

  /** Dates have the length of "YYYY-MM-DD HH:MM:SS". */
  ghost predicate ShortDates(env: Env, users: map<u32, Row>) {
    && (forall t :: |env.format(t)| == 19)
    && forall no :: no in users ==> |users[no].end| <= 19
  }

  lemma {:induction false} LoginManyShort<S>(env: Env, st: State<S>, s: S, req: Request, n: nat, now: nat, up: nat)
    requires ShortDates(env, st.users) && req.Wf() && n <= |req.accounts|
    ensures var (after, rs) := LoginMany(env, st, s, req, n, now, up);
      && ShortDates(env, after.users)
      && |rs| <= n && (!after.aborted ==> |rs| == n)
      && (forall r :: r in rs ==> |EncodeAll(AckFields(r))| <= 134)
  {
    hide LoginOne, AckFields, EncodeAll, ShortDates;
    if n > 0 {
      LoginManyShort(env, st, s, req, n - 1, now, up);
      var (before, rs) := LoginMany(env, st, s, req, n - 1, now, up);
      LoginOneShort(env, before, s, req, n - 1, now, up);
    }
  }

  lemma LoginOneShort<S>(env: Env, st: State<S>, s: S, req: Request, i: nat, now: nat, up: nat)
    requires ShortDates(env, st.users) && req.Wf() && i < |req.accounts|
    ensures var (after, r) := LoginOne(env, st, s, req, i, now, up);
      ShortDates(env, after.users) && |EncodeAll(AckFields(r))| <= 134
  {
    hide LoginOne, EncodeAll, Token, Evict, LoginCode;
    LoginOneIs(env, st, s, req, i, now, up);
    var r := LoginOne(env, st, s, req, i, now, up).1;
    AckLength(r);
    if Admitted(env, st.users, req, i, now) {
      AdmittedInEnv(env, st.users, req, i, now);
      var id := env.accounts[req.accounts[i]];
      if id in st.sessionmap {
        EvictKeepsDates(st, id, LR_DUPLICATE);
      }
    }
  }

  lemma EvictKeepsDates<S>(st: State<S>, id: u32, reason: u32)
    requires id in st.sessionmap
    ensures Evict(st, id, reason).users.Keys == st.users.Keys
    ensures forall no :: no in st.users ==> Evict(st, id, reason).users[no].end == st.users[no].end
  {
  }

  lemma AckLength(r: Result)
    ensures |EncodeAll(AckFields(r))| == if r.code == LR_SUCCESS then 16 + 2 * |r.end| + 2 * |r.token| else 4
  {
    hide Encode;
    var code, id, end, token := Uint(r.code), Uint(r.id), Wide(r.end), Wide(r.token);
    EncodeFirst(code, []);
    EncodeFirst(token, []);
    EncodeFirst(end, [token]);
    EncodeFirst(id, [end] + [token]);
    EncodeFirst(code, [id] + ([end] + [token]));
    FieldLengths(r);
    assert [code] + [] == [code] && [token] + [] == [token];
    if r.code == LR_SUCCESS {
      assert AckFields(r) == [code] + ([id] + ([end] + [token]));
    }
  }

  lemma EncodeFirst(f: Field, fs: seq<Field>)
    ensures EncodeAll([f] + fs) == Encode(f) + EncodeAll(fs)
  {
    assert ([f] + fs)[1..] == fs;
  }

  lemma FieldLengths(r: Result)
    ensures |Encode(Uint(r.code))| == 4 && |Encode(Uint(r.id))| == 4
    ensures |Encode(Wide(r.end))| == 4 + 2 * |r.end| && |Encode(Wide(r.token))| == 4 + 2 * |r.token|
  {
  }

  /** The whole acknowledgement, header included, is at most 6 + 29 * 134 = 3892 bytes long. */
  lemma AckFits<S>(env: Env, st: State<S>, s: S, req: Request, now: nat, up: nat)
    requires ShortDates(env, st.users) && req.Wf()
    ensures var (after, rs) := LoginMany(env, st, s, req, |req.accounts|, now, up);
      6 + |EncodeAll(AllAckFields(rs))| <= 3892
  {
    LoginManyShort(env, st, s, req, |req.accounts|, now, up);
    var (after, rs) := LoginMany(env, st, s, req, |req.accounts|, now, up);
    AllAckLength(rs);
  }

  lemma {:induction false} AllAckLength(rs: seq<Result>)
    requires forall r :: r in rs ==> |EncodeAll(AckFields(r))| <= 134
    ensures |EncodeAll(AllAckFields(rs))| <= 134 * |rs|
  {
    if rs != [] {
      var n := |rs| - 1;
      AllAckLength(rs[..n]);
      EncodeAllAppend(AllAckFields(rs[..n]), AckFields(rs[n]));
    }
  }
}
