/** The engine's handlers over session objects, proved to compute the login protocol. */
module Engine {
  import opened Sequences
  import opened Bytes
  import opened Wrappers
  import opened Fields
  import opened Buffers
  import opened Login
  import opened LoginSafety
  import opened LoginEffects
  import P = Pool

  // ---------- A login request in a packet ----------

  function ReadPairs(c: Cursor, n: nat): (r: (seq<wstring>, seq<wstring>, Cursor))
    ensures |r.0| == |r.1| == n
  {
    if n == 0 then ([], [], c)
    else
      var (accounts, passwords, d) := ReadPairs(c, n - 1);
      var (account, e) := ReadWide(d, 0);
      var (password, f) := ReadWide(e, 0);
      (accounts + [account], passwords + [password], f)
  }

  /** The request at the cursor, or none when it has too many accounts. */
  function ParseRequest(c: Cursor): (r: Option<Request>)
    ensures r.Some? ==> r.value.Wf()
  {
    var (n, d) := ReadUint(c, 4);
    if n >= MAX_ACCOUNT_NUM then None
    else
      var (accounts, passwords, e) := ReadPairs(d, n);
      Some(Request(accounts, passwords, ReadWide(e, 0).0))
  }

  function PairFields(req: Request, n: nat): seq<Field>
    requires req.Wf() && n <= |req.accounts|
  {
    if n == 0 then [] else PairFields(req, n - 1) + [Wide(req.accounts[n - 1]), Wide(req.passwords[n - 1])]
  }

  /** The fields of a login request as a client writes them. */
  function RequestFields(req: Request): seq<Field>
    requires req.Wf()
  {
    [Uint(|req.accounts|)] + (PairFields(req, |req.accounts|) + [Wide(req.device)])
  }

  /** A request is refused exactly when it says that it has 30 accounts or more. */
  lemma TooMany(c: Cursor)
    ensures ParseRequest(c).None? <==> ReadUint(c, 4).0 >= 30
  {
  }

  /** What a client writes: the count, then the name and the password of each account in turn, then the device. */
  lemma RequestLayout(req: Request)
    requires req.Wf()
    ensures var fs, n := RequestFields(req), |req.accounts|;
      && |fs| == 2 * n + 2 && fs[0] == Uint(n) && fs[2 * n + 1] == Wide(req.device)
      && forall i :: 0 <= i < n ==> fs[1 + 2 * i] == Wide(req.accounts[i]) && fs[2 + 2 * i] == Wide(req.passwords[i])
  {
    PairLayout(req, |req.accounts|);
  }

  lemma {:induction false} PairLayout(req: Request, n: nat)
    requires req.Wf() && n <= |req.accounts|
    ensures var fs := PairFields(req, n);
      && |fs| == 2 * n
      && forall i :: 0 <= i < n ==> fs[2 * i] == Wide(req.accounts[i]) && fs[2 * i + 1] == Wide(req.passwords[i])
  {
    if n > 0 {
      PairLayout(req, n - 1);
    }
  }

  ghost predicate Short(req: Request) {
    forall ws :: ws in req.accounts + req.passwords + [req.device] ==> Readable(Wide(ws))
  }

  lemma PairBytes(a: wstring, p: wstring)
    ensures EncodeAll([Wide(a), Wide(p)]) == Encode(Wide(a)) + Encode(Wide(p))
  {
    hide Encode;
    EncodeFirst(Wide(p), []);
    EncodeFirst(Wide(a), [Wide(p)]);
    assert [Wide(p)] + [] == [Wide(p)] && [Wide(a)] + [Wide(p)] == [Wide(a), Wide(p)];
    assert Encode(Wide(p)) + [] == Encode(Wide(p));
  }

  lemma {:induction false} PairsRoundTrip(pre: seq<byte>, req: Request, n: nat, post: seq<byte>)
    requires req.Wf() && Short(req) && n <= |req.accounts|
    ensures var body := EncodeAll(PairFields(req, n)); var bytes := pre + body + post;
      ReadPairs(Cursor(bytes, |pre|), n) == (req.accounts[..n], req.passwords[..n], Cursor(bytes, |pre| + |body|))
  {
    hide Encode, EncodeAll, ReadWide, Short, PairFields;
    if n == 0 {
      NoPairs(req);
    } else {
      var before, ea, ep := PairsBytes(pre, req, n, post);
      PairsRoundTrip(pre, req, n - 1, ea + ep + post);
      WideAt(pre + before, req, req.accounts[n - 1], ep + post);
      WideAt(pre + before + ea, req, req.passwords[n - 1], post);
      assert req.accounts[..n] == req.accounts[..n - 1] + [req.accounts[n - 1]];
      assert req.passwords[..n] == req.passwords[..n - 1] + [req.passwords[n - 1]];
    }
  }

  lemma NoPairs(req: Request)
    requires req.Wf()
    ensures EncodeAll(PairFields(req, 0)) == []
  {
  }

  /** The bytes of the first `n` pairs, and the ways of grouping them. */
  lemma PairsBytes(pre: seq<byte>, req: Request, n: nat, post: seq<byte>)
    returns (before: seq<byte>, ea: seq<byte>, ep: seq<byte>)
    requires req.Wf() && 0 < n <= |req.accounts|
    ensures before == EncodeAll(PairFields(req, n - 1))
    ensures ea == Encode(Wide(req.accounts[n - 1])) && ep == Encode(Wide(req.passwords[n - 1]))
    ensures var bytes := pre + EncodeAll(PairFields(req, n)) + post;
      && bytes == pre + before + (ea + ep + post)
      && bytes == pre + before + ea + (ep + post)
      && bytes == pre + before + ea + ep + post
    ensures |EncodeAll(PairFields(req, n))| == |before| + |ea| + |ep|
  {
    hide Encode, EncodeAll;
    var a, p := req.accounts[n - 1], req.passwords[n - 1];
    before, ea, ep := EncodeAll(PairFields(req, n - 1)), Encode(Wide(a)), Encode(Wide(p));
    EncodeAllAppend(PairFields(req, n - 1), [Wide(a), Wide(p)]);
    PairBytes(a, p);
    Regroup(pre, before, ea, ep, post);
  }

  /** A string of the request is read back from where it stands. */
  lemma WideAt(pre: seq<byte>, req: Request, ws: wstring, post: seq<byte>)
    requires Short(req) && ws in req.accounts + req.passwords + [req.device]
    ensures var bytes := pre + Encode(Wide(ws)) + post;
      ReadWide(Cursor(bytes, |pre|), 0) == (ws, Cursor(bytes, |pre| + |Encode(Wide(ws))|))
  {
    hide ReadWide, WideBytes, LE;
    WideFieldRoundTrip(pre, ws, post);
  }

  lemma Regroup(a: seq<byte>, b: seq<byte>, c: seq<byte>, d: seq<byte>, e: seq<byte>)
    ensures a + (b + (c + d)) + e == a + b + (c + d + e)
    ensures a + (b + (c + d)) + e == a + b + c + (d + e)
    ensures a + (b + (c + d)) + e == a + b + c + d + e
  {
  }

  /** The server reads from a packet the request that the client wrote, iff every string of it is readable. */
  lemma RequestRoundTrip(pre: seq<byte>, req: Request, post: seq<byte>)
    requires req.Wf()
    ensures ParseRequest(Cursor(pre + EncodeAll(RequestFields(req)) + post, |pre|)) == Some(req) <==> Short(req)
  {
    hide *;
    ParsedShort(Cursor(pre + EncodeAll(RequestFields(req)) + post, |pre|));
    if Short(req) {
      ShortRoundTrip(pre, req, post);
    }
  }

  lemma {:induction false} PairsReadable(c: Cursor, n: nat)
    ensures var (accounts, passwords, _) := ReadPairs(c, n);
      forall ws :: ws in accounts + passwords ==> Readable(Wide(ws))
  {
    hide ReadWide, Readable;
    if n > 0 {
      PairsReadable(c, n - 1);
    }
  }

  /** A string that was read is always readable again. */
  lemma ParsedShort(c: Cursor)
    ensures ParseRequest(c).Some? ==> Short(ParseRequest(c).value)
  {
    hide ReadWide, Readable, ReadPairs;
    var (n, d) := ReadUint(c, 4);
    PairsReadable(d, n);
  }

  lemma ShortRoundTrip(pre: seq<byte>, req: Request, post: seq<byte>)
    requires req.Wf() && Short(req)
    ensures ParseRequest(Cursor(pre + EncodeAll(RequestFields(req)) + post, |pre|)) == Some(req)
  {
    hide Encode, EncodeAll, ReadWide, ReadUint, ReadPairs, PairFields, RequestFields, Short;
    var n := |req.accounts|;
    var count, pairs, device := RequestBytes(pre, req, post);
    UintRoundTrip(pre, n, 4, pairs + device + post);
    PairsRoundTrip(pre + count, req, n, device + post);
    WideAt(pre + count + pairs, req, req.device, post);
    assert req.accounts[..n] == req.accounts && req.passwords[..n] == req.passwords;
  }

  lemma RequestBytes(pre: seq<byte>, req: Request, post: seq<byte>)
    returns (count: seq<byte>, pairs: seq<byte>, device: seq<byte>)
    requires req.Wf()
    ensures count == LE(|req.accounts|, 4) && |req.accounts| < Pow256(4)
    ensures pairs == EncodeAll(PairFields(req, |req.accounts|)) && device == Encode(Wide(req.device))
    ensures var bytes := pre + EncodeAll(RequestFields(req)) + post;
      && bytes == pre + count + (pairs + device + post)
      && bytes == pre + count + pairs + (device + post)
      && bytes == pre + count + pairs + device + post
  {
    hide Encode, EncodeAll, PairFields;
    var n := |req.accounts|;
    count, pairs, device := Encode(Uint(n)), EncodeAll(PairFields(req, n)), Encode(Wide(req.device));
    EncodeFirst(Uint(n), PairFields(req, n) + [Wide(req.device)]);
    EncodeAllAppend(PairFields(req, n), [Wide(req.device)]);
    EncodeFirst(Wide(req.device), []);
    TwoUints(0, 0);
    assert [Wide(req.device)] + [] == [Wide(req.device)] && device + [] == device;
    Regroup(pre, count, pairs, device, post);
    CountBytes(n);
  }

  lemma CountBytes(n: u32)
    ensures Encode(Uint(n)) == LE(n, 4) && n < Pow256(4)
  {
    Powers();
  }

  lemma TwoUints(a: u32, b: u32)
    ensures |EncodeAll([Uint(a), Uint(b)])| == 8 && EncodeAll([]) == []
  {
    EncodeFirst(Uint(b), []);
    EncodeFirst(Uint(a), [Uint(b)]);
    assert [Uint(b)] + [] == [Uint(b)] && [Uint(a)] + [Uint(b)] == [Uint(a), Uint(b)];
    assert |Encode(Uint(a))| == 4 && |Encode(Uint(b))| == 4;
  }

  /** Displacing touches no field of a row but the state and the token. */
  lemma DisplaceKeepsRows<S>(st: State<S>, id: u32, s: S)
    ensures var r := Displace(st, id, s);
      && r.users.Keys == st.users.Keys
      && (id in st.users ==> forall state, token :: st.users[id].(state := state, token := token)
                                                    == r.users[id].(state := state, token := token))
      && r.live == st.live && r.aborted == st.aborted
  {
  }

  lemma SuccessHasRow(env: Env, users: map<u32, Row>, account: wstring, password: wstring, device: wstring, now: nat)
    ensures LoginCode(env, users, account, password, device, now) == LR_SUCCESS ==>
      account in env.accounts && env.accounts[account] in users
  {
  }

  lemma ClearTwice(users: map<u32, Row>, gone: set<u32>, id: u32)
    ensures ClearUsers(ClearUsers(users, gone), {id}) == ClearUsers(users, gone + {id})
  {
  }

  lemma RemoveTwice<S>(m: map<u32, S>, gone: set<u32>, id: u32)
    ensures m - gone - {id} == m - (gone + {id})
  {
  }

  lemma NoneGone<S>(st: State<S>)
    ensures st == st.(sessionmap := st.sessionmap - {}, users := ClearUsers(st.users, {}))
  {
  }

  lemma LiveAppend<S>(live: seq<S>, s: S)
    requires NoDup(live) && s !in live
    ensures NoDup(live + [s]) && (set x | x in live + [s]) == (set x | x in live) + {s}
  {
    P.AppendNoDup(live, s);
  }

  // ---------- Resetting one session after the other ----------

  ghost predicate MapPartlyReset<S>(a: State<S>, b: State<S>, done: set<S>) {
    && (forall id :: id in b.sessionmap ==> id in a.sessionmap && b.sessionmap[id] == a.sessionmap[id])
    && (forall s, id :: s in done && id in a.IdsOf(s) ==> id !in b.sessionmap)
    && (forall id :: id in a.sessionmap && id !in b.sessionmap ==> exists s :: s in done && id in a.IdsOf(s))
  }

  ghost predicate SessionsPartlyReset<S>(a: State<S>, b: State<S>, done: set<S>) {
    && b.ids.Keys == a.ids.Keys && b.live == a.live && b.aborted == a.aborted
    && (forall s :: s in a.ids ==> b.ids[s] == if s in done then [] else a.ids[s])
    && b.out.Keys == a.out.Keys + done
    && (forall s :: s in b.out ==> b.out[s] == if s in done then a.Sent(s) + [Msg(OP_FORCE_LOGOUT, [])] else a.out[s])
  }

  ghost predicate UsersPartlyReset(a: map<u32, Row>, b: map<u32, Row>) {
    b.Keys == a.Keys && ClearUsers(b, b.Keys) == ClearUsers(a, a.Keys)
  }

  /** The sessions in `done` have been reset and nothing else has changed, except for what the last query overwrites. */
  ghost predicate PartlyReset<S>(a: State<S>, b: State<S>, done: set<S>) {
    MapPartlyReset(a, b, done) && SessionsPartlyReset(a, b, done) && UsersPartlyReset(a.users, b.users)
  }

  lemma NotYetReset<S>(a: State<S>)
    ensures PartlyReset(a, a, {})
  {
  }

  lemma MapResetStep<S>(a: State<S>, b: State<S>, done: set<S>, s: S)
    requires MapPartlyReset(a, b, done) && b.IdsOf(s) == a.IdsOf(s)
    ensures MapPartlyReset(a, Login.Forget(b, s), done + {s})
  {
    hide ClearUsers;
  }

  lemma SessionsResetStep<S>(a: State<S>, b: State<S>, done: set<S>, s: S)
    requires SessionsPartlyReset(a, b, done) && s in a.ids && s !in done
    ensures SessionsPartlyReset(a, Login.Forget(b, s).Send(s, Msg(OP_FORCE_LOGOUT, [])), done + {s})
  {
    hide ClearUsers;
  }

  lemma PartlyResetStep<S>(a: State<S>, b: State<S>, done: set<S>, s: S)
    requires PartlyReset(a, b, done) && s in a.ids && s !in done
    ensures PartlyReset(a, Login.Forget(b, s).Send(s, Msg(OP_FORCE_LOGOUT, [])), done + {s})
  {
    hide ClearUsers;
    MapResetStep(a, b, done, s);
    SessionsResetStep(a, b, done, s);
    ClearedAnyway(b.users, Elements(b.IdsOf(s)));
  }

  lemma ClearedAnyway(users: map<u32, Row>, gone: set<u32>)
    ensures UsersPartlyReset(users, ClearUsers(users, gone))
  {
  }

  lemma ForgetThenSend<S>(st: State<S>, s: S, m: Msg)
    ensures Login.Forget(st, s).Send(s, m) ==
      var dropped := Login.Forget(st, s).(ids := st.ids).Send(s, m);
      dropped.(ids := dropped.ids[s := []])
  {
  }

  lemma FullyReset<S>(a: State<S>, b: State<S>)
    requires PartlyReset(a, b, a.live) && a.live <= a.ids.Keys
    ensures b.(users := ClearUsers(b.users, b.users.Keys)) == Reset(a)
  {
  }

  lemma DisconnectIs<S>(st: State<S>, s: S)
    ensures var dropped := Login.Forget(st, s); Disconnect(st, s) == dropped.(live := dropped.live - {s})
  {
  }

  /** A list without an id is the list around the first place where the id is. */
  lemma {:induction false} RemoveFirstAt(ids: seq<u32>, id: u32, pos: nat)
    requires pos <= |ids| && (forall k :: 0 <= k < pos ==> ids[k] != id) && (pos < |ids| ==> ids[pos] == id)
    ensures RemoveFirst(ids, id) == if pos < |ids| then ids[..pos] + ids[pos + 1..] else ids
  {
    if pos > 0 {
      RemoveFirstAt(ids[1..], id, pos - 1);
      if pos < |ids| {
        assert ids[..pos] == [ids[0]] + ids[1..][..pos - 1];
      }
    }
  }

  function DisconnectAll<S(==)>(st: State<S>, sessions: seq<S>): State<S>
    decreases sessions
  {
    if sessions == [] then st else DisconnectAll(Disconnect(st, sessions[0]), sessions[1..])
  }

  /** An account after the one that ended the process is not looked at. */
  lemma {:induction false} NothingAfterAbort<S>(env: Env, st: State<S>, s: S, req: Request, i: nat, n: nat,
                                                now: nat, up: nat)
    requires req.Wf() && i <= n <= |req.accounts| && LoginMany(env, st, s, req, i, now, up).0.aborted
    ensures LoginMany(env, st, s, req, n, now, up) == LoginMany(env, st, s, req, i, now, up)
  {
    hide LoginOne;
    if i < n {
      NothingAfterAbort(env, st, s, req, i, n - 1, now, up);
    }
  }

  function Disconnections<S>(sessions: seq<S>): seq<Step<S>> {
    if sessions == [] then [] else [Disconnected(sessions[0])] + Disconnections(sessions[1..])
  }

  /** Disconnecting one session after the other is a run of the protocol, and it takes them all out of use. */
  lemma {:induction false} DisconnectAllIs<S>(env: Env, st: State<S>, sessions: seq<S>)
    ensures DisconnectAll(st, sessions).live == st.live - set s | s in sessions
    ensures !st.aborted ==> Exec(env, st, Disconnections(sessions)) == Some(DisconnectAll(st, sessions))
    decreases sessions
  {
    hide Login.Forget;
    if sessions != [] {
      DisconnectLive(st, sessions[0]);
      DisconnectAllIs(env, Disconnect(st, sessions[0]), sessions[1..]);
      assert sessions == [sessions[0]] + sessions[1..];
      assert Disconnections(sessions)[1..] == Disconnections(sessions[1..]);
    }
  }

  lemma DisconnectLive<S>(st: State<S>, s: S)
    ensures Disconnect(st, s).live == st.live - {s} && Disconnect(st, s).aborted == st.aborted
  {
  }

  // ---------- The token ----------

  /** One of the copies into the array of the ingredients; `ok` says that it stays within the array. */
  method Put(buffer: array<byte>, n: nat, data: seq<byte>) returns (ok: bool, end: nat)
    requires n <= buffer.Length
    modifies buffer
    ensures ok == (n + |data| <= buffer.Length)
    ensures ok ==> end == n + |data| && buffer[..end] == old(buffer[..n]) + data
  {
    ok, end := n + |data| <= buffer.Length, n;
    if ok {
      for i := 0 to |data|
        invariant buffer[..n + i] == old(buffer[..n]) + data[..i]
      {
        buffer[n + i] := data[i];
      }
      end := n + |data|;
    }
  }

  /** The token of a login, or none when a copy would leave the array. */
  method GenerateToken(env: Env, account: wstring, device: wstring, now: nat, id: u32) returns (token: Option<wstring>)
    ensures token == if TokenFits(env, account, device, now) then Some(Token(env, account, device, now, id)) else None
  {
    hide WideBytes, LE, DigestText;
    var buffer := new byte[TOKEN_BUFFER];
    var ok, n := Put(buffer, 0, WideBytes(device));
    if !ok {
      return None;
    }
    ok, n := Put(buffer, n, WideBytes(account));
    if !ok {
      return None;
    }
    ok, n := Put(buffer, n, WideBytes(env.format(now)));
    if !ok {
      return None;
    }
    ok, n := Put(buffer, n, LE(id, 4));
    if !ok {
      return None;
    }
    assert buffer[..n] == Ingredients(env, account, device, now, id);
    token := Some(DigestText(env.sha1(buffer[..n])));
  }

  // ---------- Sessions and the server ----------

  /** `open` says whether the socket is open, `sent` records the packets sent to the session. */
  class Session {
    var ids: seq<u32>
    var lastcommtick: nat
    var open: bool
    ghost var sent: seq<Msg>

    constructor ()
      ensures ids == [] && sent == [] && !open
    {
      ids, lastcommtick, open, sent := [], 0, false, [];
    }
  }

  function Silent(sessions: seq<Session>, now: nat): seq<Session>
    reads sessions
  {
    if sessions == [] then []
    else (if now > sessions[0].lastcommtick + 120 then [sessions[0]] else []) + Silent(sessions[1..], now)
  }

  lemma {:induction false} SilentAre(sessions: seq<Session>, now: nat)
    ensures forall s :: s in Silent(sessions, now) <==> s in sessions && now > s.lastcommtick + 120
  {
    if sessions != [] {
      SilentAre(sessions[1..], now);
      assert sessions == [sessions[0]] + sessions[1..];
    }
  }

  /**
   The global tables and the live list of the session pool. `view` is the protocol state they stand for; its ids are
   those of every session object handed out so far. `aborted` says that a handler could not go on.
   */
  class Server {
    const env: Env
    var sessionmap: map<u32, Session>
    var live: seq<Session>
    var users: map<u32, Row>
    var aborted: bool
    ghost var view: State<Session>

    ghost predicate Valid()
      reads this, view.ids.Keys`ids, view.ids.Keys`sent, view.ids.Keys`open
    {
      && sessionmap == view.sessionmap && users == view.users && aborted == view.aborted
      && (set s | s in live) == view.live && NoDup(live)
      && view.live <= view.ids.Keys && view.out.Keys <= view.ids.Keys
      && (forall id :: id in sessionmap ==> sessionmap[id] in view.ids)
      && (forall s :: s in view.ids ==> s.ids == view.ids[s] && s.sent == view.Sent(s) && (s.open <==> s in view.live))
      && ShortDates(env, users)
    }

    lemma ViewAgrees()
      requires Valid()
      ensures sessionmap == view.sessionmap && users == view.users && aborted == view.aborted
      ensures ShortDates(env, users)
      ensures forall id :: id in sessionmap ==> sessionmap[id] in view.ids
      ensures forall s :: s in live ==> s in view.ids
      ensures forall s :: s in view.ids ==> s.ids == view.ids[s]
      ensures (set s | s in live) == view.live && view.live <= view.ids.Keys
      ensures NoDup(live)
    {
    }

    constructor (env: Env, users: map<u32, Row>)
      requires ShortDates(env, users)
      ensures Valid() && view == Startup(users) && this.env == env
    {
      this.env := env;
      this.users := users;
      sessionmap, live, aborted := map[], [], false;
      view := Startup(users);
    }

    // ---------- Changes of one table ----------

    method SetIds(s: Session, ids: seq<u32>)
      requires Valid() && s in view.ids
      modifies `view, s`ids
      ensures Valid() && view == old(view).(ids := old(view).ids[s := ids]) && view.ids.Keys == old(view.ids.Keys)
    {
      s.ids := ids;
      view := view.(ids := view.ids[s := ids]);
    }

    method Unbind(id: u32)
      requires Valid()
      modifies `view, `sessionmap
      ensures Valid() && view == old(view).(sessionmap := old(view).sessionmap - {id})
    {
      sessionmap := sessionmap - {id};
      view := view.(sessionmap := sessionmap);
    }

    method Bind(id: u32, s: Session)
      requires Valid() && s in view.ids
      modifies `view, `sessionmap
      ensures Valid() && view == old(view).(sessionmap := old(view).sessionmap[id := s])
    {
      sessionmap := sessionmap[id := s];
      view := view.(sessionmap := sessionmap);
    }

    method SetUserConnState(id: u32)
      requires Valid()
      modifies `view, `users
      ensures Valid() && view == old(view).(users := ClearUsers(old(view).users, {id}))
    {
      if id in users {
        users := users[id := users[id].(state := 0, token := [])];
      }
      assert users == ClearUsers(old(users), {id});
      view := view.(users := users);
    }

    /** The query asks for the peer address of the session, which throws when the socket has none. */
    method UpdateUserInfo(id: u32, device: wstring, start: wstring, end: wstring, state: nat, token: wstring,
                          s: Session, peer: bool) returns (ok: bool)
      requires Valid() && id in view.users && |end| <= 19 && s in view.ids
      modifies `view, `users, `aborted
      ensures Valid() && ok == (s in old(view).live && peer)
      ensures view == if !ok then old(view).(aborted := true) else old(view).(users := old(view).users[id :=
        old(view).users[id].(device := device, start := start, end := end, state := state, token := token)])
    {
      ok := s.open && peer;
      if ok {
        users := users[id := users[id].(device := device, start := start, end := end, state := state, token := token)];
      } else {
        aborted := true;
      }
      view := view.(users := users, aborted := aborted);
    }

    /** `m` says what the packet carries. */
    method SendPacket(s: Session, packet: Buffer, ghost m: Msg)
      requires Valid() && s in view.ids
      requires packet.InSync() && packet.Opcode() == m.op && packet.Body() == EncodeAll(m.fields)
      modifies `view, s`sent
      ensures Valid() && view == old(view).Send(s, m) && view.ids == old(view.ids)
    {
      hide ShortDates, EncodeAll, Buffer.InSync, Buffer.Body;
      s.sent := s.sent + [m];
      view := view.Send(s, m);
    }

    method SendFormatedPacket(s: Session, op: byte, fields: seq<Field>)
      requires Valid() && s in view.ids && |EncodeAll(fields)| <= MAX_BUFFER_SIZE - REAL_BUFFER_OFFSET
      modifies `view, s`sent
      ensures Valid() && view == old(view).Send(s, Msg(op, fields)) && view.ids == old(view.ids)
    {
      hide Valid, State.Send, EncodeAll;
      var packet := new Buffer();
      packet.CreatePackage(op);
      packet.AddFields(fields);
      SendPacket(s, packet, Msg(op, fields));
    }

    // ---------- One account ----------

    /** Finds the id and erases it. */
    method Erase(ids: seq<u32>, id: u32) returns (r: seq<u32>)
      ensures r == RemoveFirst(ids, id)
    {
      var pos := 0;
      while pos < |ids| && ids[pos] != id
        invariant pos <= |ids| && forall k :: 0 <= k < pos ==> ids[k] != id
      {
        pos := pos + 1;
      }
      RemoveFirstAt(ids, id, pos);
      r := if pos < |ids| then ids[..pos] + ids[pos + 1..] else ids;
    }

    method EvictHolder(id: u32, reason: u32)
      requires Valid() && id in view.sessionmap
      modifies this, view.ids.Keys`ids, view.ids.Keys`sent
      ensures Valid() && view == Evict(old(view), id, reason) && view.ids.Keys == old(view.ids.Keys)
    {
      hide Valid, EncodeAll, ClearUsers, RemoveFirst;
      ViewAgrees();
      var o := sessionmap[id];
      TwoUints(id, reason);
      SendFormatedPacket(o, OP_DISCONNECT_ACCOUNT, [Uint(id), Uint(reason)]);
      var ids := Erase(o.ids, id);
      SetIds(o, ids);
      Unbind(id);
      SetUserConnState(id);
    }

    method CheckAnotherLogin(id: u32, s: Session)
      requires Valid()
      modifies this, view.ids.Keys`ids, view.ids.Keys`sent
      ensures Valid() && view == Displace(old(view), id, s) && view.ids.Keys == old(view.ids.Keys)
    {
      hide Valid, Evict;
      ViewAgrees();
      if id in sessionmap {
        if s != sessionmap[id] {
          EvictHolder(id, LR_DUPLICATE);
        }
      }
    }

    /** The checks of CheckLogin; the account's time is read and compared last. */
    method Check(account: wstring, password: wstring, device: wstring, now: nat) returns (code: u32)
      requires Valid()
      ensures code == LoginCode(env, view.users, account, password, device, now)
      ensures code == 1 <==>
        && account != [] && password != [] && device != [] && account in env.accounts && env.accounts[account] in users
        && var row := users[env.accounts[account]];
           && password == row.password && (device == row.device || row.device == [] || row.device == Text("(null)"))
           && env.parse(row.end).Some? && env.parse(row.end).value > now
    {
      hide Valid;
      ViewAgrees();
      TextNull();
      if account == [] || password == [] || device == [] {
        return LR_INVALID_ACCOUNT;
      }
      if account !in env.accounts || env.accounts[account] !in users {
        return LR_INVALID_ACCOUNT;
      }
      var row := users[env.accounts[account]];
      if password != row.password {
        return LR_INVALID_ACCOUNT;
      }
      if !(device == row.device || row.device == [] || row.device == NULL_TEXT) {
        return LR_INVALID_ACCOUNT;
      }
      var end := env.parse(row.end);
      var expires := if end.Some? then end.value else now;
      code := if expires > now then LR_SUCCESS else LR_EXPIRED;
    }

    method CheckLogin(s: Session, account: wstring, password: wstring, device: wstring, now: nat, peer: bool)
      returns (r: Result)
      requires Valid() && s in view.ids
      modifies this, view.ids.Keys`ids, view.ids.Keys`sent
      ensures var answers := s in old(view).live && peer;
        Valid() && (view, r) == Login.CheckLogin(env, old(view), s, account, password, device, now, answers)
      ensures view.ids.Keys == old(view.ids.Keys)
    {
      hide Valid, Displace, Token, TokenFits, NULL_TEXT, ZERO_DATE, LoginCode;
      ViewAgrees();
      SuccessHasRow(env, users, account, password, device, now);
      var code := Check(account, password, device, now);
      if code != LR_SUCCESS {
        return Refused(code);
      }
      var id := env.accounts[account];
      var row := users[id];
      var start, end := row.start, row.end;
      if start == [] || start == NULL_TEXT || start == ZERO_DATE {
        start := env.format(now);
        end := env.format(now + row.accType * DAY);
      }
      DisplaceKeepsRows(view, id, s);
      CheckAnotherLogin(id, s);
      r := CompleteLogin(id, account, device, start, end, now, s, peer);
    }

    /** The rest of CheckLogin, once nobody else holds the id: the token, then the row. */
    method CompleteLogin(id: u32, account: wstring, device: wstring, start: wstring, end: wstring, now: nat,
                         s: Session, peer: bool) returns (r: Result)
      requires Valid() && id in view.users && |end| <= 19 && s in view.ids
      modifies `view, `users, `aborted
      ensures Valid()
      ensures var token := Token(env, account, device, now, id); var row := old(view).users[id];
        if TokenFits(env, account, device, now) && s in old(view).live && peer then
          && view == old(view).(users := old(view).users[id :=
               row.(device := device, start := start, end := end, state := 1, token := token)])
          && r == Result(LR_SUCCESS, id, end, token)
        else view == old(view).(aborted := true) && r == Refused(LR_NONE)
    {
      hide Valid, Token, TokenFits;
      var token := GenerateToken(env, account, device, now, id);
      if token.None? {
        Abort();
        return Refused(LR_NONE);
      }
      var ok := UpdateUserInfo(id, device, start, end, 1, token.value, s, peer);
      r := if ok then Result(LR_SUCCESS, id, end, token.value) else Refused(LR_NONE);
    }

    method Abort()
      requires Valid()
      modifies `view, `aborted
      ensures Valid() && view == old(view).(aborted := true)
    {
      hide ShortDates, NoDup;
      aborted := true;
      view := view.(aborted := true);
    }

    // ---------- A login request ----------

    /** The inner loop: whether the account occurs again in the request. */
    method OccursLater(accounts: seq<wstring>, i: nat) returns (found: bool)
      requires i < |accounts|
      ensures found == Repeated(accounts, i)
    {
      found := false;
      var j := i + 1;
      while j < |accounts| && !found
        invariant i < j <= |accounts|
        invariant found <==> accounts[i] in accounts[i + 1..j]
      {
        found := accounts[i] == accounts[j];
        assert accounts[i + 1..j + 1] == accounts[i + 1..j] + [accounts[j]];
        j := j + 1;
      }
      assert accounts[i + 1..j] <= accounts[i + 1..];
      assert !found ==> accounts[i + 1..j] == accounts[i + 1..];
    }

    method LoginAccount(s: Session, req: Request, i: nat, now: nat, up: nat) returns (r: Result)
      requires Valid() && s in view.ids && req.Wf() && i < |req.accounts|
      modifies this, view.ids.Keys`ids, view.ids.Keys`sent
      ensures Valid() && (view, r) == LoginOne(env, old(view), s, req, i, now, up)
      ensures view.ids.Keys == old(view.ids.Keys)
    {
      hide Valid, Repeated, Login.CheckLogin;
      var again := OccursLater(req.accounts, i);
      if again {
        r := Refused(LR_DUPLICATE);
      } else {
        r := CheckLogin(s, req.accounts[i], req.passwords[i], req.device, now, i < up);
      }
      if r.code == LR_SUCCESS {
        ViewAgrees();
        SetIds(s, s.ids + [r.id]);
        Bind(r.id, s);
      }
    }

    method ReadRequest(packet: Buffer) returns (req: Option<Request>)
      requires packet.Valid()
      modifies packet`readoffset
      ensures packet.Valid() && req == ParseRequest(old(packet.At()))
    {
      var n := packet.ReadUint(4);
      if n >= MAX_ACCOUNT_NUM {
        return None;
      }
      ghost var c := packet.At();
      var accounts, passwords := [], [];
      for i := 0 to n
        invariant packet.Valid()
        invariant (accounts, passwords, packet.At()) == ReadPairs(c, i)
      {
        var account := packet.ReadWideString(0);
        var password := packet.ReadWideString(0);
        accounts := accounts + [account];
        passwords := passwords + [password];
      }
      var device := packet.ReadWideString(0);
      req := Some(Request(accounts, passwords, device));
    }

    /** The acknowledgement is sent unless the loop could not be finished. */
    method HandleLogin(packet: Buffer, s: Session, now: nat, up: nat)
      requires Valid() && s in view.ids && packet.Valid()
      modifies this, view.ids.Keys`ids, view.ids.Keys`sent, packet`readoffset
      ensures Valid()
      ensures view == match ParseRequest(old(packet.At()))
        case Some(req) => Login.HandleLogin(env, old(view), s, req, now, up)
        case None => old(view)
    {
      hide Valid, LoginMany, EncodeAll, AllAckFields, ParseRequest, State.Send, Buffer.InSync, Buffer.Body;
      var parsed := ReadRequest(packet);
      if parsed.Some? {
        var ack := new Buffer();
        ack.CreatePackage(OP_LOGIN_ACK);
        ghost var results := LoginAll(s, parsed.value, now, up, ack);
        ViewAgrees();
        if !aborted {
          SendPacket(s, ack, Msg(OP_LOGIN_ACK, AllAckFields(results)));
        }
      }
    }

    /** The loop over the accounts, each result written behind the others, as far as the handler gets. */
    method LoginAll(s: Session, req: Request, now: nat, up: nat, ack: Buffer) returns (ghost results: seq<Result>)
      requires Valid() && s in view.ids && req.Wf()
      requires ack.Open() && ack.InSync() && ack.Body() == []
      modifies this, view.ids.Keys`ids, view.ids.Keys`sent, ack, ack.bufferinternal
      ensures Valid() && view.ids.Keys == old(view.ids.Keys)
      ensures (view, results) == LoginMany(env, old(view), s, req, |req.accounts|, now, up)
      ensures ack.InSync() && ack.Opcode() == old(ack.Opcode()) && ack.Body() == EncodeAll(AllAckFields(results))
    {
      hide Valid, LoginOne, EncodeAll, AckFields, ShortDates, Buffer.InSync, Buffer.Body, Buffer.Opcode;
      ViewAgrees();
      TwoUints(0, 0);
      results := [];
      var i := 0;
      while i < |req.accounts| && !aborted
        invariant i <= |req.accounts| && |results| <= i && aborted == view.aborted
        invariant Valid() && view.ids.Keys == old(view.ids.Keys)
        invariant (view, results) == LoginMany(env, old(view), s, req, i, now, up)
        invariant ack.Open() && ack.InSync() && ack.Opcode() == old(ack.Opcode())
        invariant ack.Body() == EncodeAll(AllAckFields(results))
      {
        results := LoginNext(s, req, i, now, up, ack, old(view), results);
        i := i + 1;
      }
      if aborted {
        NothingAfterAbort(env, old(view), s, req, i, |req.accounts|, now, up);
      }
    }

    /** One round of the loop; `first` is the state before all of them. */
    method LoginNext(s: Session, req: Request, i: nat, now: nat, up: nat, ack: Buffer,
                     ghost first: State<Session>, ghost before: seq<Result>) returns (ghost results: seq<Result>)
      requires Valid() && s in view.ids && req.Wf() && i < |req.accounts| && |before| <= i && !aborted
      requires ShortDates(env, first.users) && (view, before) == LoginMany(env, first, s, req, i, now, up)
      requires ack.Open() && ack.InSync() && ack.Body() == EncodeAll(AllAckFields(before))
      modifies this, view.ids.Keys`ids, view.ids.Keys`sent, ack, ack.bufferinternal
      ensures Valid() && view.ids.Keys == old(view.ids.Keys) && |results| <= i + 1 && aborted == view.aborted
      ensures (view, results) == LoginMany(env, first, s, req, i + 1, now, up)
      ensures ack.Open() && ack.InSync() && ack.Opcode() == old(ack.Opcode())
      ensures ack.Body() == EncodeAll(AllAckFields(results))
    {
      hide Valid, LoginOne, EncodeAll, AckFields, AllAckFields, ShortDates, Buffer.InSync, Buffer.Body, Buffer.Opcode;
      ViewAgrees();
      LoginManyShort(env, first, s, req, i + 1, now, up);
      var r := LoginAccount(s, req, i, now, up);
      ViewAgrees();
      results := before;
      if !aborted {
        AddResult(ack, r, before);
        results := before + [r];
      }
    }

    method AddResult(ack: Buffer, r: Result, ghost before: seq<Result>)
      requires ack.InSync() && |before| < MAX_ACCOUNT_NUM - 1
      requires ack.Body() == EncodeAll(AllAckFields(before))
      requires forall x :: x in before + [r] ==> |EncodeAll(AckFields(x))| <= 134
      modifies ack, ack.bufferinternal
      ensures ack.Open() && ack.InSync() && ack.Opcode() == old(ack.Opcode())
      ensures ack.Body() == EncodeAll(AllAckFields(before + [r]))
    {
      AllAckLength(before);
      AllAckLength(before + [r]);
      assert (before + [r])[..|before|] == before;
      EncodeAllAppend(AllAckFields(before), AckFields(r));
      var fields := AckFields(r);
      ack.AddFields(fields);
    }

    // ---------- The other handlers ----------

    /** The pool hands out a session object for an open socket, with the ids it was left with. */
    method Enter(s: Session)
      requires Valid() && s !in view.live
      requires s !in view.ids ==> s.sent == []
      modifies `view, `live, s`open
      ensures Valid() && view == old(view).(live := old(view).live + {s}, ids := old(view).ids[s := s.ids])
    {
      hide ShortDates, NoDup;
      LiveAppend(live, s);
      s.open := true;
      live := live + [s];
      view := view.(live := view.live + {s}, ids := view.ids[s := s.ids]);
    }

    /** A new connection: the pool hands out a session object, Init sets its clock, and OnAddSession empties its list. */
    method Accept(s: Session, now: nat)
      requires Valid() && s !in view.live
      requires s !in view.ids ==> s.sent == []
      modifies `view, `live, s`ids, s`open, s`lastcommtick
      ensures Valid() && view == Login.Accept(old(view), s) && s.lastcommtick == now
    {
      hide Valid;
      Enter(s);
      s.lastcommtick := now;
      SetIds(s, []);
    }

    /** The loop over the ids of a session; the list itself is cleared by the caller. */
    method DropIds(s: Session)
      requires Valid() && s in view.ids
      modifies `view, `sessionmap, `users
      ensures Valid() && view == Login.Forget(old(view), s).(ids := old(view).ids) && live == old(live)
    {
      hide Valid, ClearUsers;
      NoneGone(view);
      ViewAgrees();
      var ids := s.ids;
      ghost var gone: set<u32> := {};
      for i := 0 to |ids|
        invariant Valid() && gone == Elements(ids[..i])
        invariant view == old(view).(sessionmap := old(view).sessionmap - gone, users := ClearUsers(old(view).users, gone))
      {
        Unbind(ids[i]);
        SetUserConnState(ids[i]);
        ClearTwice(old(view).users, gone, ids[i]);
        RemoveTwice(old(view).sessionmap, gone, ids[i]);
        assert ids[..i + 1] == ids[..i] + [ids[i]];
        gone := gone + {ids[i]};
      }
      assert ids[..|ids|] == ids;
    }

    method OnRemoveSession(s: Session)
      requires Valid() && s in view.ids
      modifies this, view.ids.Keys`ids, view.ids.Keys`sent
      ensures Valid() && view == Login.Forget(old(view), s) && view.ids.Keys == old(view.ids.Keys)
      ensures live == old(live)
    {
      hide Valid, ClearUsers;
      DropIds(s);
      SetIds(s, []);
    }

    /**
     DoDisconnect as the engine sees it: the session's ids go, the socket is closed, and the pool takes the object
     back. The handler is one step, so the order of the three does not show.
     */
    method DoDisconnect(s: Session)
      requires Valid() && s in view.ids
      modifies this, view.ids.Keys`ids, view.ids.Keys`sent, view.ids.Keys`open
      ensures Valid() && view == Disconnect(old(view), s) && view.ids.Keys == old(view.ids.Keys)
    {
      hide Valid, Login.Forget, Disconnect;
      DisconnectIs(view, s);
      OnRemoveSession(s);
      Release(s);
    }

    method Release(s: Session)
      requires Valid() && s in view.ids
      modifies `view, `live, s`open
      ensures Valid() && view == old(view).(live := old(view).live - {s}) && view.ids.Keys == old(view.ids.Keys)
    {
      hide ShortDates, P.Remove, NoDup;
      P.RemoveOne(live, s);
      live := P.Remove(live, s);
      s.open := false;
      view := view.(live := view.live - {s});
    }

    /** Logging out runs the loop of OnRemoveSession over the session's ids. */
    method OnRecvPacket(packet: Buffer, s: Session, now: nat, up: nat)
      requires Valid() && s in view.ids && packet.Valid()
      modifies this, view.ids.Keys`ids, view.ids.Keys`sent, s`lastcommtick, packet`readoffset
      ensures Valid() && s.lastcommtick == now
      ensures view == if packet.used == 0 then old(view) else
        var request := ParseRequest(Cursor(old(packet.Bytes()), REAL_BUFFER_OFFSET));
        Login.Receive(env, old(view), s, old(packet.Opcode()), request, now, up)
    {
      hide Login.HandleLogin, Login.Forget, State.Send, ParseRequest, EncodeAll;
      s.lastcommtick := now;
      packet.ReadStart();
      if packet.used == 0 {
        return;
      }
      TwoUints(0, 0);
      if packet.bufferinternal[0] == OP_KEEPALIVE {
        SendFormatedPacket(s, OP_KEEPALIVE, []);
      } else if s.ids == [] {
        if packet.bufferinternal[0] == OP_LOGIN_REQ {
          HandleLogin(packet, s, now, up);
        } else {
          SendFormatedPacket(s, OP_FORCE_LOGOUT, []);
        }
      } else if packet.bufferinternal[0] == OP_LOGOUT {
        OnRemoveSession(s);
      }
    }

    // ---------- Periodic checks and reset ----------

    lemma Expiring(rows: seq<u32>, now: nat)
      requires Valid()
      requires forall no :: no in rows <==> no in users && users[no].state == 1 && Over(env, users[no].end, now)
      ensures var r := Expire(view, rows);
        Linked(view) ==>
          && MapExpired(view, r, rows) && RowsExpired(view, r, rows)
          && ((forall id :: id in sessionmap ==> id in users && users[id].state == 1) ==>
                forall id :: id in r.sessionmap ==> id in r.users && !Over(env, r.users[id].end, now))
    {
      hide Valid, Linked, MapExpired, RowsExpired, Over;
      ViewAgrees();
      if Linked(view) {
        ExpireTables(view, rows);
        if forall id :: id in sessionmap ==> id in users && users[id].state == 1 {
          NobodyOverdue(env, view, rows, now);
        }
      }
    }

    /** The first half of a round of CheckClients; `rows` is the result of the expiry query, in any order. */
    method CheckExpired(rows: seq<u32>, now: nat)
      requires Valid()
      requires forall no :: no in rows <==> no in users && users[no].state == 1 && Over(env, users[no].end, now)
      modifies this, view.ids.Keys`ids, view.ids.Keys`sent
      ensures Valid() && view == Expire(old(view), rows) && view.ids.Keys == old(view.ids.Keys)
      ensures Linked(old(view)) ==> MapExpired(old(view), view, rows) && RowsExpired(old(view), view, rows)
      ensures Linked(old(view)) && (forall id :: id in old(sessionmap) ==> id in old(users) && old(users)[id].state == 1) ==>
        forall id :: id in sessionmap ==> id in users && !Over(env, users[id].end, now)
    {
      hide Valid, Evict, Linked, MapExpired, RowsExpired;
      Expiring(rows, now);
      for i := 0 to |rows|
        invariant Valid() && view.ids.Keys == old(view.ids.Keys)
        invariant Expire(view, rows[i..]) == Expire(old(view), rows)
      {
        assert rows[i..][1..] == rows[i + 1..];
        ViewAgrees();
        if rows[i] in sessionmap {
          EvictHolder(rows[i], LR_EXPIRED);
        }
      }
      ViewAgrees();
    }

    /** The second half: sessions that have been silent for more than two minutes are disconnected. */
    method CheckSilent(now: nat)
      requires Valid()
      modifies this, view.ids.Keys`ids, view.ids.Keys`sent, view.ids.Keys`open
      ensures Valid() && view == DisconnectAll(old(view), old(Silent(live, now)))
      ensures view.live == old(view).live - old(set s | s in live && now > s.lastcommtick + 120)
      ensures !old(view).aborted ==> Exec(env, old(view), Disconnections(old(Silent(live, now)))) == Some(view)
    {
      hide Valid, Disconnect, Disconnections, Exec;
      ViewAgrees();
      SilentAre(live, now);
      DisconnectAllIs(env, view, Silent(live, now));
      var sessions := live;
      ghost var silent := Silent(sessions, now);
      for i := 0 to |sessions|
        invariant Valid() && view.ids.Keys == old(view.ids.Keys)
        invariant silent == old(Silent(sessions[i..], now))
        invariant DisconnectAll(view, silent) == DisconnectAll(old(view), old(Silent(sessions, now)))
      {
        assert sessions[i..][1..] == sessions[i + 1..];
        ghost var rest := old(Silent(sessions[i + 1..], now));
        if now > sessions[i].lastcommtick + 120 {
          assert silent == [sessions[i]] + rest && silent[1..] == rest;
          DoDisconnect(sessions[i]);
        } else {
          assert silent == [] + rest == rest;
        }
        silent := rest;
      }
    }

    method InitAllConnections()
      requires Valid()
      modifies this, view.ids.Keys`ids, view.ids.Keys`sent
      ensures Valid() && view == Reset(old(view))
    {
      hide Valid, PartlyReset, Login.Forget, State.Send, Reset;
      ViewAgrees();
      var sessions := live;
      ghost var done: set<Session> := {};
      NotYetReset(view);
      for i := 0 to |sessions|
        invariant Valid() && view.ids.Keys == old(view.ids.Keys)
        invariant done == set s | s in sessions[..i]
        invariant PartlyReset(old(view), view, done)
      {
        var s := sessions[i];
        PartlyResetStep(old(view), view, done, s);
        ResetSession(s);
        assert sessions[..i + 1] == sessions[..i] + [s];
        done := done + {s};
      }
      assert sessions[..|sessions|] == sessions;
      FullyReset(old(view), view);
      ClearAllUsers();
    }

    /** The body of the loop over the sessions. */
    method ResetSession(s: Session)
      requires Valid() && s in view.ids
      modifies this, view.ids.Keys`ids, view.ids.Keys`sent
      ensures Valid() && view == Login.Forget(old(view), s).Send(s, Msg(OP_FORCE_LOGOUT, []))
      ensures view.ids.Keys == old(view.ids.Keys)
    {
      hide Valid, Login.Forget, State.Send, EncodeAll;
      TwoUints(0, 0);
      ForgetThenSend(view, s, Msg(OP_FORCE_LOGOUT, []));
      DropIds(s);
      SendFormatedPacket(s, OP_FORCE_LOGOUT, []);
      SetIds(s, []);
    }

    /** The last query of the reset: every row is disconnected and loses its token. */
    method ClearAllUsers()
      requires Valid()
      modifies `view, `users
      ensures Valid() && view == old(view).(users := ClearUsers(old(view).users, old(view).users.Keys))
    {
      users := ClearUsers(users, users.Keys);
      view := view.(users := users);
    }
  }
}
