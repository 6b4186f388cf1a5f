/** What the handlers do to every table, list and queue, said without the functions that compute it. */
module LoginEffects {
  import opened Sequences
  import opened Bytes
  import opened Wrappers
  import opened Fields
  import opened Login
  import opened LoginSafety

  function Text(s: string): (ws: wstring)
    ensures |ws| == |s|
  {
    seq(|s|, i requires 0 <= i < |s| => if s[i] as int < 0x1_0000 then s[i] as int else 0)
  }

  // ---------- The checks of a login ----------

  /** The code for every combination of a missing text, account, row, password, device and time. */
  lemma LoginCodeExact(env: Env, users: map<u32, Row>, account: wstring, password: wstring, device: wstring, now: nat)
    ensures var code := LoginCode(env, users, account, password, device, now);
      var known :=
        && account != [] && password != [] && device != []
        && account in env.accounts && env.accounts[account] in users
        && var row := users[env.accounts[account]];
           && password == row.password
           && (device == row.device || row.device == [] || row.device == Text("(null)"));
      var running := known && env.parse(users[env.accounts[account]].end).Some?
                     && env.parse(users[env.accounts[account]].end).value > now;
      && (code == 1 <==> running)
      && (code == 3 <==> known && !running)
      && (code == 2 <==> !known)
  {
    TextNull();
  }

  lemma TextNull()
    ensures Text("(null)") == NULL_TEXT
  {
  }

  lemma TextZeroDate()
    ensures Text("0000-00-00 00:00:00") == ZERO_DATE
  {
  }

  // ---------- One login ----------

  /** The row after a login: a first login starts the account's time, which then runs for so many days. */
  ghost predicate Started(env: Env, before: Row, after: Row, device: wstring, now: nat) {
    && after.password == before.password && after.accType == before.accType
    && after.device == device && after.state == 1
    && if before.start == [] || before.start == Text("(null)") || before.start == Text("0000-00-00 00:00:00")
       then after.start == env.format(now) && after.end == env.format(now + before.accType * 86400)
       else after.start == before.start && after.end == before.end
  }

  /** What session `t` is told when `s` takes over the id. */
  function Notice<S(==)>(st: State<S>, id: u32, s: S, t: S): seq<Msg> {
    if id in st.sessionmap && st.sessionmap[id] == t && t != s then [Msg(5, [Uint(id), Uint(6)])] else []
  }

  /** The id is free for `s`, as far as session `t` can tell: `t` does not hold it, and has been told if it did. */
  ghost predicate Freed<S>(a: State<S>, b: State<S>, id: u32, s: S, t: S) {
    && b.sessionmap == a.sessionmap - {id} && b.IdsOf(s) == a.IdsOf(s)
    && (t != s ==> forall x: u32 :: x in b.IdsOf(t) <==> x in a.IdsOf(t) && x != id)
    && b.Sent(t) == a.Sent(t) + Notice(a, id, s, t)
    && b.users.Keys == a.users.Keys && (forall no :: no in a.users && no != id ==> b.users[no] == a.users[no])
    && b.live == a.live && b.aborted == a.aborted
  }

  /** The id is the session's and not that of any other session `t`, and the row says so. */
  ghost predicate Taken<S>(env: Env, a: State<S>, b: State<S>, s: S, id: u32, req: Request, i: nat, now: nat, t: S)
    requires req.Wf() && i < |req.accounts|
  {
    && b.sessionmap == a.sessionmap[id := s] && b.IdsOf(s) == a.IdsOf(s) + [id]
    && (t != s ==> forall x: u32 :: x in b.IdsOf(t) <==> x in a.IdsOf(t) && x != id)
    && b.Sent(t) == a.Sent(t) + Notice(a, id, s, t)
    && b.users.Keys == a.users.Keys && (forall no :: no in a.users && no != id ==> b.users[no] == a.users[no])
    && id in a.users && Started(env, a.users[id], b.users[id], req.device, now)
    && b.users[id].token == Token(env, req.accounts[i], req.device, now, id)
    && b.live == a.live && b.aborted == a.aborted
  }

  /** An account that passes the checks, and whose login can be completed, is taken over by the session. */
  lemma LoginTakes<S>(env: Env, st: State<S>, s: S, req: Request, i: nat, now: nat, up: nat, t: S)
    requires Linked(st) && req.Wf() && i < |req.accounts|
    requires Admitted(env, st.users, req, i, now) && Completes(env, st, s, req, i, now, up)
    requires env.accounts[req.accounts[i]] !in st.IdsOf(s)
    ensures var (after, r) := LoginOne(env, st, s, req, i, now, up);
      var id := env.accounts[req.accounts[i]];
      && Taken(env, st, after, s, id, req, i, now, t)
      && r == Result(1, id, after.users[id].end, after.users[id].token)
  {
    hide LoginOne, LoginCode, Displace, LoggedIn, Token, Completes, Taken, Linked, Granted, Repeated, Freed;
    LoginOneIs(env, st, s, req, i, now, up);
    AdmittedInEnv(env, st.users, req, i, now);
    var id := env.accounts[req.accounts[i]];
    var row := LoggedIn(env, st.users[id], req.accounts[i], req.device, now, id);
    RowStarted(env, st.users[id], req.accounts[i], req.device, now, id);
    DisplaceFreed(st, id, s, t);
    GrantTakes(env, st, Displace(st, id, s), s, id, row, req, i, now, t);
  }

  lemma GrantTakes<S>(env: Env, st: State<S>, alone: State<S>, s: S, id: u32, row: Row, req: Request, i: nat, now: nat,
                      t: S)
    requires req.Wf() && i < |req.accounts| && id in st.users
    requires Started(env, st.users[id], row, req.device, now)
    requires row.token == Token(env, req.accounts[i], req.device, now, id)
    requires Freed(st, alone, id, s, t)
    ensures Taken(env, st, Granted(alone, s, id, row), s, id, req, i, now, t)
    ensures Granted(alone, s, id, row).users[id] == row
  {
    hide Started, Token, Notice, Repeated;
  }

  lemma RowStarted(env: Env, row: Row, account: wstring, device: wstring, now: nat, id: u32)
    ensures var after := LoggedIn(env, row, account, device, now, id);
      Started(env, row, after, device, now) && after.token == Token(env, account, device, now, id)
  {
    hide Token, NULL_TEXT, ZERO_DATE;
    TextNull();
    TextZeroDate();
  }

  /** A holder that loses the id is told with the code 6. */
  lemma DisplaceFreed<S>(st: State<S>, id: u32, s: S, t: S)
    requires Linked(st) && id !in st.IdsOf(s)
    ensures Freed(st, Displace(st, id, s), id, s, t)
  {
    hide Evict, Evicted;
    if id in st.sessionmap {
      EvictEffect(st, id, 6, t);
      EvictEffect(st, id, 6, s);
      FreedByEviction(st, Displace(st, id, s), id, s, t);
    }
  }

  /** A session that holds the id already keeps it. */
  lemma OwnIdStays<S>(st: State<S>, id: u32, s: S)
    requires id in st.sessionmap && st.sessionmap[id] == s
    ensures Displace(st, id, s) == st
  {
  }

  lemma FreedByEviction<S>(a: State<S>, b: State<S>, id: u32, s: S, t: S)
    requires Linked(a) && id !in a.IdsOf(s)
    requires id in a.sessionmap && Evicted(a, b, id, 6, t) && Evicted(a, b, id, 6, s)
    ensures Freed(a, b, id, s, t)
  {
  }

  /** The id is in no list `t` any more; only its holder loses it and is told why, and only its row is cleared. */
  ghost predicate Evicted<S>(a: State<S>, b: State<S>, id: u32, reason: u32, t: S)
    requires id in a.sessionmap
  {
    && b.sessionmap == a.sessionmap - {id}
    && (forall x: u32 :: x in b.IdsOf(t) <==> x in a.IdsOf(t) && x != id)
    && (if t == a.sessionmap[id] then b.Sent(t) == a.Sent(t) + [Msg(5, [Uint(id), Uint(reason)])]
        else b.IdsOf(t) == a.IdsOf(t) && b.Sent(t) == a.Sent(t))
    && b.users.Keys == a.users.Keys && (forall no :: no in a.users && no != id ==> b.users[no] == a.users[no])
    && (id in a.users ==> b.users[id] == a.users[id].(state := 0, token := []))
    && b.live == a.live && b.aborted == a.aborted
  }

  lemma EvictEffect<S>(st: State<S>, id: u32, reason: u32, t: S)
    requires Linked(st) && id in st.sessionmap
    ensures Evicted(st, Evict(st, id, reason), id, reason, t)
  {
    hide RemoveFirst, ClearUsers;
    RemoveFirstNoDup(st.IdsOf(st.sessionmap[id]), id);
    EvictTables(st, id, reason);
  }

  lemma EvictTables<S>(st: State<S>, id: u32, reason: u32)
    requires id in st.sessionmap
    ensures var r := Evict(st, id, reason);
      && r.sessionmap == st.sessionmap - {id}
      && r.users.Keys == st.users.Keys && (forall no :: no in st.users && no != id ==> r.users[no] == st.users[no])
      && (id in st.users ==> r.users[id] == st.users[id].(state := 0, token := []))
  {
  }

  // ---------- Who got in knew the password ----------

  /** The step is a request of the session that holds the account's name and the password of its row. */
  ghost predicate Authorizes<S>(env: Env, step: Step<S>, s: S, id: u32, password: wstring) {
    && step.Received? && step.s == s && step.op == 1 && step.req.Some? && step.req.value.Wf()
    && exists i :: 0 <= i < |step.req.value.accounts| && Names(env, step.req.value, i, id, password)
  }

  predicate Names(env: Env, req: Request, i: nat, id: u32, password: wstring)
    requires req.Wf() && i < |req.accounts|
  {
    && req.accounts[i] in env.accounts && env.accounts[req.accounts[i]] == id
    && req.passwords[i] == password
  }

  /** Session `t` has gained no id. */
  ghost predicate GainsNothing<S>(a: State<S>, b: State<S>, t: S) {
    forall id: u32 :: id in b.IdsOf(t) ==> id in a.IdsOf(t)
  }

  lemma {:induction false} RemoveFirstShrinks(s: seq<u32>, id: u32)
    ensures forall x: u32 :: x in RemoveFirst(s, id) ==> x in s
  {
    if s != [] && s[0] != id {
      RemoveFirstShrinks(s[1..], id);
    }
  }

  lemma EvictGains<S>(st: State<S>, id: u32, reason: u32, t: S)
    requires id in st.sessionmap
    ensures GainsNothing(st, Evict(st, id, reason), t)
  {
    hide RemoveFirst, ClearUsers;
    RemoveFirstShrinks(st.IdsOf(st.sessionmap[id]), id);
  }

  lemma LoginOneGains<S>(env: Env, st: State<S>, s: S, req: Request, i: nat, now: nat, up: nat, t: S)
    requires req.Wf() && i < |req.accounts| && t != s
    ensures GainsNothing(st, LoginOne(env, st, s, req, i, now, up).0, t)
  {
    hide LoginOne, LoginCode, LoggedIn, Evict, Completes, Repeated;
    LoginOneIs(env, st, s, req, i, now, up);
    if Admitted(env, st.users, req, i, now) {
      AdmittedInEnv(env, st.users, req, i, now);
      var id := env.accounts[req.accounts[i]];
      if id in st.sessionmap {
        EvictGains(st, id, LR_DUPLICATE, t);
      }
      assert LoginOne(env, st, s, req, i, now, up).0.IdsOf(t) == Displace(st, id, s).IdsOf(t);
    }
  }

  lemma {:induction false} LoginManyGains<S>(env: Env, st: State<S>, s: S, req: Request, n: nat, now: nat, up: nat, t: S)
    requires req.Wf() && n <= |req.accounts| && t != s
    ensures GainsNothing(st, LoginMany(env, st, s, req, n, now, up).0, t)
  {
    hide LoginOne;
    if n > 0 {
      LoginManyGains(env, st, s, req, n - 1, now, up, t);
      LoginOneGains(env, LoginMany(env, st, s, req, n - 1, now, up).0, s, req, n - 1, now, up, t);
    }
  }

  lemma {:induction false} ExpireGains<S>(st: State<S>, nos: seq<u32>, t: S)
    ensures GainsNothing(st, Expire(st, nos), t)
    decreases nos
  {
    hide Evict;
    if nos != [] {
      if nos[0] in st.sessionmap {
        EvictGains(st, nos[0], LR_EXPIRED, t);
        ExpireGains(Evict(st, nos[0], LR_EXPIRED), nos[1..], t);
      } else {
        ExpireGains(st, nos[1..], t);
      }
    }
  }

  lemma {:induction false} AdmittedKnew(env: Env, users: map<u32, Row>, req: Request, n: nat, now: nat, id: u32)
    requires req.Wf() && n <= |req.accounts| && id in AdmittedIds(env, users, req, n, now)
    ensures id in users && exists i :: 0 <= i < n && Names(env, req, i, id, users[id].password)
  {
    hide Repeated;
    if id in AdmittedIds(env, users, req, n - 1, now) {
      AdmittedKnew(env, users, req, n - 1, now, id);
    } else {
      assert Names(env, req, n - 1, id, users[id].password);
    }
  }

  /** An id that is new in a session's list came from a request of that session that held the row's password. */
  lemma GainAuthorized<S>(env: Env, st: State<S>, step: Step<S>, s: S, id: u32)
    requires EnvWf(env) && Consistent(st) && Possible(st, step)
    requires id in Next(env, st, step).IdsOf(s) && id !in st.IdsOf(s)
    ensures id in st.users && Authorizes(env, step, s, id, st.users[id].password)
  {
    hide Linked, LiveOnly, Expire, LoginMany, Names;
    match step
    case Accepted(_) =>
    case Received(t, op, req, now, up) =>
      assert st.IdsOf(t) == [] && op == 1 && req.Some?;
      if t != s {
        LoginManyGains(env, st, t, req.value, |req.value.accounts|, now, up, s);
      }
      HandleLoginKeeps(env, st, t, req.value, now, up, map[]);
      AdmittedKnew(env, st.users, req.value, Reach(env, st, t, req.value, |req.value.accounts|, now, up), now, id);
    case Disconnected(_) =>
    case Expired(nos) => ExpireGains(st, nos, s);
    case ResetAll =>
  }

  /** Over every run: whoever holds an id in the end has sent its account's name and password in a login request. */
  lemma {:induction false} HeldByPassword<S>(env: Env, st: State<S>, run: seq<Step<S>>, s: S, id: u32)
    requires EnvWf(env) && Consistent(st) && Exec(env, st, run).Some?
    requires id in Exec(env, st, run).value.IdsOf(s) && id !in st.IdsOf(s)
    ensures id in st.users && exists step :: step in run && Authorizes(env, step, s, id, st.users[id].password)
    decreases run
  {
    hide Consistent, Next, Authorizes, Kept;
    var next := Next(env, st, run[0]);
    StepKeeps(env, st, run[0], map[]);
    StepRows(env, st, run[0]);
    if id in next.IdsOf(s) {
      GainAuthorized(env, st, run[0], s, id);
    } else {
      HeldByPassword(env, next, run[1..], s, id);
      KeptPassword(st.users, next.users, id);
    }
  }

  lemma KeptPassword(a: map<u32, Row>, b: map<u32, Row>, id: u32)
    requires AllKept(a, b) && id in b
    ensures id in a && a[id].password == b[id].password
  {
  }

  // ---------- The token ----------

  /** The value of a lower-case hexadecimal text. */
  function HexValue(s: wstring): int {
    if s == [] then 0
    else
      var c: int := s[|s| - 1];
      16 * HexValue(s[..|s| - 1]) + if 0x30 <= c <= 0x39 then c - 0x30 else c - 0x61 + 10
  }

  predicate IsHex(s: wstring) {
    forall i :: 0 <= i < |s| ==> 0x30 <= s[i] <= 0x39 || 0x61 <= s[i] <= 0x66
  }

  lemma {:induction false} HexReads(n: nat, w: nat)
    requires n < Pow16(w)
    ensures IsHex(Hex(n, w)) && HexValue(Hex(n, w)) == n
  {
    if w > 0 {
      HexReads(n / 16, w - 1);
    }
  }

  function Pow16(w: nat): nat {
    if w == 0 then 1 else 16 * Pow16(w - 1)
  }

  /** The text of a digest: each of its words in eight lower-case hexadecimal digits. */
  lemma {:induction false} DigestReads(d: seq<u32>, i: nat)
    requires i < |d|
    ensures var s := DigestText(d)[8 * i..8 * i + 8]; IsHex(s) && HexValue(s) == d[i]
  {
    hide Hex, IsHex, HexValue;
    assert DigestText(d) == Hex(d[0], 8) + DigestText(d[1..]);
    if i == 0 {
      Pow16Is();
      HexReads(d[0], 8);
      assert DigestText(d)[..8] == Hex(d[0], 8);
    } else {
      DigestReads(d[1..], i - 1);
      assert DigestText(d)[8 * i..8 * i + 8] == DigestText(d[1..])[8 * (i - 1)..8 * (i - 1) + 8];
    }
  }

  lemma Pow16Is()
    ensures Pow16(8) == 0x1_0000_0000
  {
    assert Pow16(4) == 0x1_0000;
  }

  /** What is digested: the device, the account, the time and the id; it fits exactly when the texts have 79 characters. */
  lemma IngredientsAre(env: Env, account: wstring, device: wstring, now: nat, id: u32)
    ensures var s := Ingredients(env, account, device, now, id); var time := env.format(now);
      var a := 2 * |device|; var b := a + 2 * |account|; var c := b + 2 * |time|;
      && |s| == c + 4 && Four(s, c) == id
      && (forall i :: 0 <= i < |device| ==> Two(s, 2 * i) == device[i])
      && (forall i :: 0 <= i < |account| ==> Two(s, a + 2 * i) == account[i])
      && (forall i :: 0 <= i < |time| ==> Two(s, b + 2 * i) == time[i])
    ensures |env.format(now)| == 19 ==> (TokenFits(env, account, device, now) <==> |device| + |account| <= 79)
  {
    hide WideBytes, LE, Two, Four, Ingredients;
    IdLast(env, account, device, now, id);
    forall i | 0 <= i < |device|
      ensures Two(Ingredients(env, account, device, now, id), 2 * i) == device[i]
    {
      DeviceFirst(env, account, device, now, id, i);
    }
    forall i | 0 <= i < |account|
      ensures Two(Ingredients(env, account, device, now, id), 2 * |device| + 2 * i) == account[i]
    {
      AccountSecond(env, account, device, now, id, i);
    }
    forall i | 0 <= i < |env.format(now)|
      ensures Two(Ingredients(env, account, device, now, id), 2 * |device| + 2 * |account| + 2 * i) == env.format(now)[i]
    {
      TimeThird(env, account, device, now, id, i);
    }
  }

  lemma IdLast(env: Env, account: wstring, device: wstring, now: nat, id: u32)
    ensures Four(Ingredients(env, account, device, now, id), 2 * (|device| + |account| + |env.format(now)|)) == id
  {
    hide WideBytes, LE, FromLE;
    Powers();
    LERoundTrip(id, 4);
    Value4(LE(id, 4));
    FourShift(WideBytes(device) + WideBytes(account) + WideBytes(env.format(now)), LE(id, 4));
  }

  lemma FourShift(a: seq<byte>, b: seq<byte>)
    requires |b| == 4
    ensures Four(a + b, |a|) == Four(b, 0)
  {
  }

  lemma DeviceFirst(env: Env, account: wstring, device: wstring, now: nat, id: u32, i: nat)
    requires i < |device|
    ensures Two(Ingredients(env, account, device, now, id), 2 * i) == device[i]
  {
    hide WideBytes, LE, Two;
    var d, a, t, n := WideBytes(device), WideBytes(account), WideBytes(env.format(now)), LE(id, 4);
    ConcatAssociates(d + a, t, n);
    ConcatAssociates(d, a, t + n);
    assert [] + d == d;
    WideInside([], device, a + (t + n), i);
  }

  lemma AccountSecond(env: Env, account: wstring, device: wstring, now: nat, id: u32, i: nat)
    requires i < |account|
    ensures Two(Ingredients(env, account, device, now, id), 2 * |device| + 2 * i) == account[i]
  {
    hide WideBytes, LE, Two;
    var d, a, t, n := WideBytes(device), WideBytes(account), WideBytes(env.format(now)), LE(id, 4);
    ConcatAssociates(d + a, t, n);
    WideInside(d, account, t + n, i);
  }

  lemma TimeThird(env: Env, account: wstring, device: wstring, now: nat, id: u32, i: nat)
    requires i < |env.format(now)|
    ensures Two(Ingredients(env, account, device, now, id), 2 * |device| + 2 * |account| + 2 * i) == env.format(now)[i]
  {
    hide WideBytes, LE, Two;
    WideInside(WideBytes(device) + WideBytes(account), env.format(now), LE(id, 4), i);
  }

  lemma WideInside(pre: seq<byte>, ws: wstring, post: seq<byte>, i: nat)
    requires i < |ws|
    ensures Two(pre + WideBytes(ws) + post, |pre| + 2 * i) == ws[i]
  {
    hide WideBytes;
    WideBytesAt(ws, i);
    TwoShift(pre, WideBytes(ws), 2 * i);
  }

  // ---------- The acknowledgement ----------

  /** The bytes of one result: the code and, on success, the id, the end of the account's time and the token. */
  lemma AckBytes(r: Result)
    ensures EncodeAll(AckFields(r)) == Encode(Uint(r.code)) +
      (if r.code == 1 then Encode(Uint(r.id)) + (Encode(Wide(r.end)) + Encode(Wide(r.token))) else [])
  {
    hide Encode;
    var code, id, end, token := Uint(r.code), Uint(r.id), Wide(r.end), Wide(r.token);
    EncodeFirst(code, []);
    EncodeFirst(token, []);
    EncodeFirst(end, [token]);
    EncodeFirst(id, [end] + [token]);
    EncodeFirst(code, [id] + ([end] + [token]));
    assert [code] + [] == [code] && [token] + [] == [token];
    if r.code == 1 {
      assert AckFields(r) == [code] + ([id] + ([end] + [token]));
    }
  }

  /** A further result goes behind the others. */
  lemma AckAppends(rs: seq<Result>, r: Result)
    ensures EncodeAll(AllAckFields(rs + [r])) == EncodeAll(AllAckFields(rs)) + EncodeAll(AckFields(r))
    ensures EncodeAll(AllAckFields([])) == []
  {
    assert (rs + [r])[..|rs|] == rs;
    EncodeAllAppend(AllAckFields(rs), AckFields(r));
  }

  // ---------- The results of a request ----------

  /** Result number `i` is that of account number `i`, as the table was before the request. */
  ghost predicate Answered<S>(env: Env, st: State<S>, s: S, req: Request, now: nat, i: nat, r: Result)
    requires req.Wf() && i < |req.accounts|
  {
    var account := req.accounts[i];
    && r.code == (if account in req.accounts[i + 1..] then 6
                  else LoginCode(env, st.users, account, req.passwords[i], req.device, now))
    && (r.code == 1 ==>
          && account in env.accounts && r.id == env.accounts[account]
          && r.token == Token(env, account, req.device, now, r.id))
  }

  lemma LoginOneAnswers<S>(env: Env, st: State<S>, before: State<S>, s: S, req: Request, i: nat, now: nat, up: nat)
    requires EnvWf(env) && req.Wf() && i < |req.accounts|
    requires Untouched(st.users, before.users, AdmittedIds(env, st.users, req, i, now))
    requires !LoginOne(env, before, s, req, i, now, up).0.aborted
    ensures Answered(env, st, s, req, now, i, LoginOne(env, before, s, req, i, now, up).1)
  {
    hide Token, TokenFits, Displace, Untouched, AdmittedIds;
    SameCode(env, st.users, before.users, req, i, now);
  }

  lemma SameCode(env: Env, a: map<u32, Row>, b: map<u32, Row>, req: Request, i: nat, now: nat)
    requires EnvWf(env) && req.Wf() && i < |req.accounts|
    requires Untouched(a, b, AdmittedIds(env, a, req, i, now))
    ensures LoginCode(env, a, req.accounts[i], req.passwords[i], req.device, now)
         == LoginCode(env, b, req.accounts[i], req.passwords[i], req.device, now)
  {
    hide AdmittedIds;
    if req.accounts[i] in env.accounts {
      AdmittedOnce(env, a, req, i, i, now);
    }
  }

  /** One result an account, each the right one, and nothing said to the session meanwhile. */
  lemma {:induction false} ResultsAnswer<S>(env: Env, st: State<S>, s: S, req: Request, n: nat, now: nat, up: nat)
    requires EnvWf(env) && Linked(st) && !st.aborted && st.IdsOf(s) == [] && req.Wf() && n <= |req.accounts|
    requires !LoginMany(env, st, s, req, n, now, up).0.aborted
    ensures var (after, rs) := LoginMany(env, st, s, req, n, now, up);
      && |rs| == n && (forall i :: 0 <= i < n ==> Answered(env, st, s, req, now, i, rs[i]))
      && after.Sent(s) == st.Sent(s)
  {
    hide LoginOne, Answered, Linked, Untouched, AdmittedIds, Aborts, Agrees, LiveOnly;
    if n > 0 {
      var (before, rs) := LoginMany(env, st, s, req, n - 1, now, up);
      assert !before.aborted;
      ResultsAnswer(env, st, s, req, n - 1, now, up);
      LoginManyKeeps(env, st, s, req, n - 1, now, up, map[]);
      ReachAll(env, st, s, req, n - 1, now, up);
      LoginOneAnswers(env, st, before, s, req, n - 1, now, up);
      LoginOneSilent(env, before, s, req, n - 1, now, up);
    }
  }

  lemma ReachAll<S>(env: Env, st: State<S>, s: S, req: Request, n: nat, now: nat, up: nat)
    requires req.Wf() && n <= |req.accounts| && !Aborts(env, st, s, req, n, now, up)
    ensures Reach(env, st, s, req, n, now, up) == n
  {
    hide Stops;
  }

  lemma LoginOneSilent<S>(env: Env, st: State<S>, s: S, req: Request, i: nat, now: nat, up: nat)
    requires req.Wf() && i < |req.accounts|
    ensures LoginOne(env, st, s, req, i, now, up).0.Sent(s) == st.Sent(s)
  {
    hide LoginOne, LoginCode, LoggedIn, RemoveFirst, ClearUsers, Completes;
    LoginOneIs(env, st, s, req, i, now, up);
  }

  // ---------- The handlers ----------

  /** Only the session has been sent something, and nothing else has changed. */
  ghost predicate OnlySent<S>(a: State<S>, b: State<S>, s: S, m: Msg) {
    b.out == a.out[s := a.Sent(s) + [m]] && b == a.(out := b.out)
  }

  /** The session has lost all its ids, in the map, in its list and in the table, and nothing else has changed. */
  ghost predicate LoggedOut<S>(a: State<S>, b: State<S>, s: S) {
    && b.ids == a.ids[s := []]
    && (forall id :: id in b.sessionmap <==> id in a.sessionmap && id !in a.IdsOf(s))
    && (forall id :: id in b.sessionmap ==> b.sessionmap[id] == a.sessionmap[id])
    && b.users.Keys == a.users.Keys
    && (forall no :: no in a.users ==>
          b.users[no] == if no in a.IdsOf(s) then a.users[no].(state := 0, token := []) else a.users[no])
    && b.out == a.out && b.aborted == a.aborted
  }

  lemma ForgetEffect<S>(st: State<S>, s: S)
    ensures LoggedOut(st, Forget(st, s), s) && Forget(st, s).live == st.live
  {
  }

  /** A keepalive is answered by one, whoever sends it. */
  lemma KeepaliveEffect<S>(env: Env, st: State<S>, step: Step<S>)
    requires Possible(st, step) && step.Received? && step.op == 0
    ensures OnlySent(st, Next(env, st, step), step.s, Msg(0, []))
  {
  }

  /** A session without ids is told to log out when it sends anything else than a login request. */
  lemma StrangerEffect<S>(env: Env, st: State<S>, step: Step<S>)
    requires Possible(st, step) && step.Received? && st.IdsOf(step.s) == [] && step.op != 0 && step.op != 1
    ensures OnlySent(st, Next(env, st, step), step.s, Msg(3, []))
  {
  }

  /** Logging out takes away all ids of the session, and clears their rows. */
  lemma LogoutEffect<S>(env: Env, st: State<S>, step: Step<S>)
    requires Possible(st, step) && step.Received? && st.IdsOf(step.s) != [] && step.op == 4
    ensures LoggedOut(st, Next(env, st, step), step.s) && Next(env, st, step).live == st.live
  {
    hide Forget;
    ForgetEffect(st, step.s);
  }

  /** A session with ids is not listened to otherwise, and a request with too many accounts is dropped. */
  lemma IgnoredEffect<S>(env: Env, st: State<S>, step: Step<S>)
    requires Possible(st, step) && step.Received?
    requires if st.IdsOf(step.s) == [] then step.op == 1 && step.req.None? else step.op != 0 && step.op != 4
    ensures Next(env, st, step) == st
  {
  }

  /** A login request that is handled to its end is acknowledged once, with one result an account. */
  lemma LoginRequestEffect<S>(env: Env, st: State<S>, step: Step<S>) returns (rs: seq<Result>)
    requires EnvWf(env) && Consistent(st) && Possible(st, step) && step.Received? && st.IdsOf(step.s) == []
    requires step.op == 1 && step.req.Some? && !Next(env, st, step).aborted
    ensures |rs| == |step.req.value.accounts|
    ensures forall i :: 0 <= i < |rs| ==> Answered(env, st, step.s, step.req.value, step.now, i, rs[i])
    ensures Next(env, st, step).Sent(step.s) == st.Sent(step.s) + [Msg(2, AllAckFields(rs))]
  {
    hide LoginMany, Linked, LiveOnly, Answered, AllAckFields;
    var Received(s, op, req, now, up) := step;
    var (after, results) := LoginMany(env, st, s, req.value, |req.value.accounts|, now, up);
    rs := results;
    SendKeeps(after, s, Msg(2, AllAckFields(rs)), map[]);
    ResultsAnswer(env, st, s, req.value, |req.value.accounts|, now, up);
  }

  /** Disconnecting a session logs it out, and it is no longer in use. */
  lemma DisconnectEffect<S>(env: Env, st: State<S>, step: Step<S>)
    requires Possible(st, step) && step.Disconnected?
    ensures LoggedOut(st, Next(env, st, step), step.s) && Next(env, st, step).live == st.live - {step.s}
  {
    hide Forget;
    ForgetEffect(st, step.s);
  }

  /** A session that is accepted is in use and has no ids, whatever the object was used for before. */
  lemma AcceptEffect<S>(env: Env, st: State<S>, step: Step<S>, t: S)
    requires Consistent(st) && Possible(st, step) && step.Accepted?
    ensures var r := Next(env, st, step);
      && r.live == st.live + {step.s} && step.s in r.ids && r.IdsOf(t) == st.IdsOf(t)
      && r.sessionmap == st.sessionmap && r.users == st.users && r.out == st.out
  {
  }

  /** A reset tells every session in use, and of the rows it changes the state and the token only. */
  lemma ResetEffect<S>(env: Env, st: State<S>, step: Step<S>, t: S)
    requires Consistent(st) && Possible(st, step) && step.ResetAll?
    ensures var r := Next(env, st, step);
      && r.sessionmap == map[] && r.IdsOf(t) == []
      && r.Sent(t) == st.Sent(t) + (if t in st.live then [Msg(3, [])] else [])
      && r.users.Keys == st.users.Keys
      && (forall no :: no in st.users ==> r.users[no] == st.users[no].(state := 0, token := []))
      && r.live == st.live
  {
    ResetEstablishes(st);
  }

  // ---------- Expiry ----------

  /** The ids among `rows` are not in the map any more, and the others are where they were. */
  ghost predicate MapExpired<S>(a: State<S>, b: State<S>, rows: seq<u32>) {
    && (forall id :: id in b.sessionmap <==> id in a.sessionmap && id !in rows)
    && (forall id :: id in b.sessionmap ==> b.sessionmap[id] == a.sessionmap[id])
  }

  /** Nor are they in the list of session `t`. */
  ghost predicate ListExpired<S>(a: State<S>, b: State<S>, rows: seq<u32>, t: S) {
    && (forall id: u32 :: id in b.IdsOf(t) <==> id in a.IdsOf(t) && id !in rows)
    && b.live == a.live && b.aborted == a.aborted
  }

  /** The rows of those that were connected are clear, and the others are as they were. */
  ghost predicate RowsExpired<S>(a: State<S>, b: State<S>, rows: seq<u32>) {
    && b.users.Keys == a.users.Keys
    && forall no :: no in a.users ==>
         b.users[no] == if no in rows && no in a.sessionmap then a.users[no].(state := 0, token := []) else a.users[no]
  }

  /** Session `t` has been told with the code 3 of every one of them that it held. */
  ghost predicate HolderTold<S>(a: State<S>, b: State<S>, rows: seq<u32>, t: S) {
    && (forall id :: id in rows && id in a.sessionmap && a.sessionmap[id] == t ==>
          Told(a, b, t, Msg(5, [Uint(id), Uint(3)])))
    && a.Sent(t) <= b.Sent(t)
  }

  ghost predicate Told<S>(a: State<S>, b: State<S>, s: S, m: Msg) {
    exists i :: |a.Sent(s)| <= i < |b.Sent(s)| && b.Sent(s)[i] == m
  }

  lemma {:induction false} ExpireTables<S>(st: State<S>, rows: seq<u32>)
    requires Linked(st)
    ensures MapExpired(st, Expire(st, rows), rows) && RowsExpired(st, Expire(st, rows), rows)
    decreases rows
  {
    hide Linked, Evict, MapExpired, RowsExpired;
    if rows == [] {
      NoTables(st);
    } else {
      var next := if rows[0] in st.sessionmap then Evict(st, rows[0], 3) else st;
      if rows[0] in st.sessionmap {
        EvictTables(st, rows[0], 3);
        EvictKeepsLinked(st, rows[0], 3);
      }
      ExpireTables(next, rows[1..]);
      MapThen(st, next, Expire(st, rows), rows);
      RowsThen(st, next, Expire(st, rows), rows);
    }
  }

  lemma NoTables<S>(st: State<S>)
    ensures MapExpired(st, st, []) && RowsExpired(st, st, [])
  {
  }

  lemma MapThen<S>(a: State<S>, b: State<S>, c: State<S>, rows: seq<u32>)
    requires rows != [] && b.sessionmap == a.sessionmap - {rows[0]} && MapExpired(b, c, rows[1..])
    ensures MapExpired(a, c, rows)
  {
    assert rows == [rows[0]] + rows[1..];
  }

  lemma RowsThen<S>(a: State<S>, b: State<S>, c: State<S>, rows: seq<u32>)
    requires rows != [] && b.sessionmap == a.sessionmap - {rows[0]} && RowsExpired(b, c, rows[1..])
    requires b.users.Keys == a.users.Keys
    requires forall no :: no in a.users ==>
      b.users[no] == if no == rows[0] && no in a.sessionmap then a.users[no].(state := 0, token := []) else a.users[no]
    ensures RowsExpired(a, c, rows)
  {
    assert rows == [rows[0]] + rows[1..];
  }

  /** The rows that the expiry query returns are gone through, and nothing else happens to session `t`. */
  lemma {:induction false} ExpireEffect<S>(st: State<S>, rows: seq<u32>, t: S)
    requires Linked(st)
    ensures var r := Expire(st, rows);
      MapExpired(st, r, rows) && RowsExpired(st, r, rows) && ListExpired(st, r, rows, t) && HolderTold(st, r, rows, t)
    decreases rows
  {
    hide Linked, Evict, Evicted, ListExpired, HolderTold, MapExpired, RowsExpired;
    ExpireTables(st, rows);
    if rows == [] {
      NothingExpired(st, t);
    } else if rows[0] in st.sessionmap {
      var next, r := Evict(st, rows[0], 3), Expire(st, rows);
      EvictKeepsLinked(st, rows[0], 3);
      EvictEffect(st, rows[0], 3, t);
      ExpireEffect(next, rows[1..], t);
      OneHolder(st, next, r, rows, t);
      OneTold(st, next, r, rows, t);
    } else {
      ExpireEffect(st, rows[1..], t);
      NotHeld(st, Expire(st, rows), rows, t);
    }
  }

  lemma NothingExpired<S>(st: State<S>, t: S)
    ensures ListExpired(st, st, [], t) && HolderTold(st, st, [], t)
  {
  }

  lemma OneHolder<S>(a: State<S>, b: State<S>, c: State<S>, rows: seq<u32>, t: S)
    requires rows != [] && rows[0] in a.sessionmap && Evicted(a, b, rows[0], 3, t) && ListExpired(b, c, rows[1..], t)
    ensures ListExpired(a, c, rows, t)
  {
    hide State.IdsOf, State.Sent;
    assert rows == [rows[0]] + rows[1..];
  }

  lemma OneTold<S>(a: State<S>, b: State<S>, c: State<S>, rows: seq<u32>, t: S)
    requires rows != [] && rows[0] in a.sessionmap && Evicted(a, b, rows[0], 3, t) && HolderTold(b, c, rows[1..], t)
    ensures HolderTold(a, c, rows, t)
  {
    hide State.IdsOf, State.Sent;
    assert rows == [rows[0]] + rows[1..];
    forall x | x in rows && x in a.sessionmap && a.sessionmap[x] == t
      ensures Told(a, c, t, Msg(5, [Uint(x), Uint(3)]))
    {
      if x == rows[0] {
        assert b.Sent(t)[|a.Sent(t)|] == Msg(5, [Uint(x), Uint(3)]) == c.Sent(t)[|a.Sent(t)|];
      } else {
        assert Told(b, c, t, Msg(5, [Uint(x), Uint(3)]));
      }
    }
  }

  lemma NotHeld<S>(a: State<S>, c: State<S>, rows: seq<u32>, t: S)
    requires rows != [] && rows[0] !in a.sessionmap && Linked(a)
    requires ListExpired(a, c, rows[1..], t) && HolderTold(a, c, rows[1..], t)
    ensures ListExpired(a, c, rows, t) && HolderTold(a, c, rows, t)
  {
    hide Told;
    assert rows == [rows[0]] + rows[1..];
    assert rows[0] !in a.IdsOf(t);
  }

  /** The text says a time before `now`. */
  predicate Over(env: Env, text: wstring, now: nat) {
    env.parse(text).Some? && env.parse(text).value < now
  }

  /** After the rows that the expiry query returns, nobody is logged in whose time is over. */
  lemma NobodyOverdue<S>(env: Env, st: State<S>, rows: seq<u32>, now: nat)
    requires Linked(st) && forall id :: id in st.sessionmap ==> id in st.users && st.users[id].state == 1
    requires forall no :: no in rows <==> no in st.users && st.users[no].state == 1 && Over(env, st.users[no].end, now)
    ensures var r := Expire(st, rows);
      forall id :: id in r.sessionmap ==> id in r.users && !Over(env, r.users[id].end, now)
  {
    hide Linked, Expire;
    ExpireTables(st, rows);
  }
}
