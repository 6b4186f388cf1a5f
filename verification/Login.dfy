/** The login protocol as functions on a state: who is logged in through which session, and what the users table says. */
module Login {
  import opened Bytes
  import opened Wrappers
  import opened Fields

  const OP_KEEPALIVE: byte := 0
  const OP_LOGIN_REQ: byte := 1
  const OP_LOGIN_ACK: byte := 2
  const OP_FORCE_LOGOUT: byte := 3
  const OP_LOGOUT: byte := 4
  const OP_DISCONNECT_ACCOUNT: byte := 5

  const LR_NONE: u32 := 0
  const LR_SUCCESS: u32 := 1
  const LR_INVALID_ACCOUNT: u32 := 2
  const LR_EXPIRED: u32 := 3
  const LR_DUPLICATE: u32 := 6

  const MAX_ACCOUNT_NUM: nat := 30
  const DAY: nat := 24 * 3600

  // "(null)" and "0000-00-00 00:00:00"
  const NULL_TEXT: wstring := [0x28, 0x6E, 0x75, 0x6C, 0x6C, 0x29]
  const ZERO_DATE: wstring := [0x30, 0x30, 0x30, 0x30, 0x2D, 0x30, 0x30, 0x2D, 0x30, 0x30, 0x20,
                               0x30, 0x30, 0x3A, 0x30, 0x30, 0x3A, 0x30, 0x30]

  // ---------- Data ----------

  /** A row of the users table, apart from its key. `state` is the connection state, 0 or 1. */
  datatype Row = Row(password: wstring, device: wstring, start: wstring, end: wstring, accType: nat, state: nat, token: wstring)

  type Digest = d: seq<u32> | |d| == 5 witness [0, 0, 0, 0, 0]

  /** The outside: which key an account name has, dates as text, and SHA-1. */
  datatype Env = Env(
    accounts: map<wstring, u32>,
    parse: wstring -> Option<nat>,
    format: nat -> wstring,
    sha1: seq<byte> -> Digest)

  /** A packet sent to a session. */
  datatype Msg = Msg(op: byte, fields: seq<Field>)

  function DisconnectAccount(id: u32, reason: u32): Msg {
    Msg(OP_DISCONNECT_ACCOUNT, [Uint(id), Uint(reason)])
  }

  /**
   `sessionmap` gives the session of a logged-in id, `ids` the ids of each session, `live` the sessions in use,
   `out` everything sent to a session so far. `aborted`: a handler could not go on, and the process is gone.
   */
  datatype State<S(==)> = State(
    sessionmap: map<u32, S>,
    ids: map<S, seq<u32>>,
    live: set<S>,
    users: map<u32, Row>,
    out: map<S, seq<Msg>>,
    aborted: bool)
  {
    function IdsOf(s: S): seq<u32> {
      if s in ids then ids[s] else []
    }

    function Sent(s: S): seq<Msg> {
      if s in out then out[s] else []
    }

    function Send(s: S, m: Msg): State<S> {
      this.(out := out[s := Sent(s) + [m]])
    }
  }

  // ---------- Tokens ----------

  function HexDigit(n: nat): u16
    requires n < 16
  {
    if n < 10 then 0x30 + n else 0x61 + n - 10
  }

  /** The low `w` hexadecimal digits of `n`. */
  function Hex(n: nat, w: nat): (s: wstring)
    ensures |s| == w
  {
    if w == 0 then [] else Hex(n / 16, w - 1) + [HexDigit(n % 16)]
  }

  function DigestText(d: seq<u32>): (s: wstring)
    ensures |s| == 8 * |d|
  {
    if d == [] then [] else Hex(d[0], 8) + DigestText(d[1..])
  }

  /** The size of the array in which the ingredients of a token are put together. */
  const TOKEN_BUFFER: nat := 200

  /** The device, the account, the time and the id, one behind the other. */
  function Ingredients(env: Env, account: wstring, device: wstring, now: nat, id: u32): (s: seq<byte>)
    ensures |s| == 2 * (|device| + |account| + |env.format(now)|) + 4
  {
    WideBytes(device) + WideBytes(account) + WideBytes(env.format(now)) + LE(id, 4)
  }

  /** Whether they fit the array; nothing checks that they do. */
  predicate TokenFits(env: Env, account: wstring, device: wstring, now: nat) {
    2 * (|device| + |account| + |env.format(now)|) + 4 <= TOKEN_BUFFER
  }

  function Token(env: Env, account: wstring, device: wstring, now: nat, id: u32): (s: wstring)
    ensures |s| == 40
  {
    DigestText(env.sha1(Ingredients(env, account, device, now, id)))
  }

  // ---------- One account ----------

  function RemoveFirst(s: seq<u32>, id: u32): seq<u32> {
    if s == [] then [] else if s[0] == id then s[1..] else [s[0]] + RemoveFirst(s[1..], id)
  }

  function ClearUsers(users: map<u32, Row>, nos: set<u32>): map<u32, Row> {
    map no | no in users :: if no in nos then users[no].(state := 0, token := []) else users[no]
  }

  /** The session that holds `id` is told the reason and loses it. */
  function Evict<S(==)>(st: State<S>, id: u32, reason: u32): State<S>
    requires id in st.sessionmap
  {
    var o := st.sessionmap[id];
    var told := st.Send(o, DisconnectAccount(id, reason));
    told.(ids := st.ids[o := RemoveFirst(st.IdsOf(o), id)], sessionmap := st.sessionmap - {id},
          users := ClearUsers(st.users, {id}))
  }

  /** CheckAnotherLogin. */
  function Displace<S(==)>(st: State<S>, id: u32, s: S): State<S> {
    if id in st.sessionmap && st.sessionmap[id] != s then Evict(st, id, LR_DUPLICATE) else st
  }

  datatype Result = Result(code: u32, id: u32, end: wstring, token: wstring)

  function Refused(code: u32): Result {
    Result(code, 0, [], [])
  }

  predicate Blank(text: wstring) {
    text == [] || text == NULL_TEXT
  }

  predicate NeverStarted(row: Row) {
    Blank(row.start) || row.start == ZERO_DATE
  }

  /** Whether the time text lies after `now`; a text that cannot be read counts as `now`. */
  predicate After(env: Env, text: wstring, now: nat) {
    match env.parse(text)
    case Some(t) => t > now
    case None => false
  }

  /** The result code of CheckLogin, which depends on the account's row only. */
  function LoginCode(env: Env, users: map<u32, Row>, account: wstring, password: wstring, device: wstring, now: nat): u32 {
    if account == [] || password == [] || device == [] then LR_INVALID_ACCOUNT
    else if account !in env.accounts || env.accounts[account] !in users then LR_INVALID_ACCOUNT
    else
      var row := users[env.accounts[account]];
      if password != row.password then LR_INVALID_ACCOUNT
      else if device != row.device && !Blank(row.device) then LR_INVALID_ACCOUNT
      else if !After(env, row.end, now) then LR_EXPIRED
      else LR_SUCCESS
  }

  /** The row after a successful login: a first login starts the account's time. */
  function LoggedIn(env: Env, row: Row, account: wstring, device: wstring, now: nat, id: u32): Row {
    var token := Token(env, account, device, now, id);
    if NeverStarted(row) then
      row.(device := device, start := env.format(now), end := env.format(now + row.accType * DAY), state := 1, token := token)
    else row.(device := device, state := 1, token := token)
  }

  /**
   Whether the socket of the session still has a peer address when account number `i` of a request is handled. The
   socket of a session that is not in use is closed; on an open one, the peer can be gone from account `up` on.
   */
  predicate Answers<S(==)>(st: State<S>, s: S, i: nat, up: nat) {
    s in st.live && i < up
  }

  /**
   CheckLogin. When any other holder has been displaced, making the token overruns its array if the ingredients do not
   fit, and asking for the peer address throws when there is none; either way the handler gets no further.
   */
  function CheckLogin<S(==)>(env: Env, st: State<S>, s: S, account: wstring, password: wstring, device: wstring,
                             now: nat, answers: bool): (State<S>, Result)
  {
    var code := LoginCode(env, st.users, account, password, device, now);
    if code != LR_SUCCESS then (st, Refused(code))
    else
      var id := env.accounts[account];
      var row := LoggedIn(env, st.users[id], account, device, now, id);
      var alone := Displace(st, id, s);
      if TokenFits(env, account, device, now) && answers then (alone.(users := alone.users[id := row]), Result(LR_SUCCESS, id, row.end, row.token))
      else (alone.(aborted := true), Refused(LR_NONE))
  }

  // ---------- A login request ----------

  datatype Request = Request(accounts: seq<wstring>, passwords: seq<wstring>, device: wstring) {
    predicate Wf() {
      |accounts| == |passwords| < MAX_ACCOUNT_NUM
    }
  }

  predicate Repeated(accounts: seq<wstring>, i: nat)
    requires i < |accounts|
  {
    accounts[i] in accounts[i + 1..]
  }

  /** Account number `i` of the request: an account that occurs again later is refused here. */
  function LoginOne<S(==)>(env: Env, st: State<S>, s: S, req: Request, i: nat, now: nat, up: nat): (State<S>, Result)
    requires req.Wf() && i < |req.accounts|
  {
    if Repeated(req.accounts, i) then (st, Refused(LR_DUPLICATE))
    else
      var (after, r) :=
        CheckLogin(env, st, s, req.accounts[i], req.passwords[i], req.device, now, Answers(st, s, i, up));
      if r.code == LR_SUCCESS then
        (after.(ids := after.ids[s := after.IdsOf(s) + [r.id]], sessionmap := after.sessionmap[r.id := s]), r)
      else (after, r)
  }

  /** The first `n` accounts of the request, in order, up to one that ends the process. */
  function LoginMany<S(==)>(env: Env, st: State<S>, s: S, req: Request, n: nat, now: nat, up: nat)
    : (State<S>, seq<Result>)
    requires req.Wf() && n <= |req.accounts|
  {
    if n == 0 then (st, [])
    else
      var (before, rs) := LoginMany(env, st, s, req, n - 1, now, up);
      if before.aborted then (before, rs)
      else
        var (after, r) := LoginOne(env, before, s, req, n - 1, now, up);
        (after, if after.aborted then rs else rs + [r])
  }

  function AckFields(r: Result): seq<Field> {
    [Uint(r.code)] + if r.code == LR_SUCCESS then [Uint(r.id), Wide(r.end), Wide(r.token)] else []
  }

  function AllAckFields(rs: seq<Result>): seq<Field> {
    if rs == [] then [] else AllAckFields(rs[..|rs| - 1]) + AckFields(rs[|rs| - 1])
  }

  /** HandleLogin, for a request with an acceptable number of accounts. */
  function HandleLogin<S(==)>(env: Env, st: State<S>, s: S, req: Request, now: nat, up: nat): State<S>
    requires req.Wf()
  {
    var (after, rs) := LoginMany(env, st, s, req, |req.accounts|, now, up);
    if after.aborted then after else after.Send(s, Msg(OP_LOGIN_ACK, AllAckFields(rs)))
  }

  // ---------- The handlers ----------

  function Elements(ids: seq<u32>): set<u32> {
    set id | id in ids
  }

  /** OnRemoveSession, and also logging out: every id of the session goes. */
  function Forget<S(==)>(st: State<S>, s: S): State<S> {
    var gone := Elements(st.IdsOf(s));
    st.(ids := st.ids[s := []], sessionmap := st.sessionmap - gone, users := ClearUsers(st.users, gone))
  }

  /** OnRecvPacket; no request stands for one with too many accounts. */
  function Receive<S(==)>(env: Env, st: State<S>, s: S, op: byte, req: Option<Request>, now: nat, up: nat): State<S>
    requires req.Some? ==> req.value.Wf()
  {
    if op == OP_KEEPALIVE then st.Send(s, Msg(OP_KEEPALIVE, []))
    else if st.IdsOf(s) == [] then
      if op == OP_LOGIN_REQ then
        match req
        case Some(r) => HandleLogin(env, st, s, r, now, up)
        case None => st
      else st.Send(s, Msg(OP_FORCE_LOGOUT, []))
    else if op == OP_LOGOUT then Forget(st, s)
    else st
  }

  /** The pool hands out a session that is not in use. */
  function Accept<S(==)>(st: State<S>, s: S): State<S> {
    st.(live := st.live + {s}, ids := st.ids[s := []])
  }

  function Disconnect<S(==)>(st: State<S>, s: S): State<S> {
    Forget(st, s).(live := st.live - {s})
  }

  /** The rows that the expiry query returns, one after the other. */
  function Expire<S(==)>(st: State<S>, nos: seq<u32>): State<S>
    decreases nos
  {
    if nos == [] then st
    else Expire(if nos[0] in st.sessionmap then Evict(st, nos[0], LR_EXPIRED) else st, nos[1..])
  }

  /** InitAllConnections. */
  function Reset<S(==)>(st: State<S>): State<S> {
    var gone := set s, id | s in st.live && id in st.IdsOf(s) :: id;
    State(
      st.sessionmap - gone,
      map s | s in st.ids.Keys + st.live :: if s in st.live then [] else st.ids[s],
      st.live,
      ClearUsers(st.users, st.users.Keys),
      map s | s in st.out.Keys + st.live :: if s in st.live then st.Sent(s) + [Msg(OP_FORCE_LOGOUT, [])] else st.out[s],
      st.aborted)
  }

  datatype Step<S> =
    | Accepted(s: S)
    | Received(s: S, op: byte, req: Option<Request>, now: nat, up: nat)
    | Disconnected(s: S)
    | Expired(nos: seq<u32>)
    | ResetAll

  predicate Possible<S(==)>(st: State<S>, step: Step<S>) {
    && !st.aborted
    && match step
      case Accepted(s) => s !in st.live
      case Received(_, _, req, _, _) => req.Some? ==> req.value.Wf()
      case _ => true
  }

  function Next<S(==)>(env: Env, st: State<S>, step: Step<S>): State<S>
    requires Possible(st, step)
  {
    match step
    case Accepted(s) => Accept(st, s)
    case Received(s, op, req, now, up) => Receive(env, st, s, op, req, now, up)
    case Disconnected(s) => Disconnect(st, s)
    case Expired(nos) => Expire(st, nos)
    case ResetAll => Reset(st)
  }

  function Exec<S(==)>(env: Env, st: State<S>, run: seq<Step<S>>): Option<State<S>>
    decreases run
  {
    if run == [] then Some(st)
    else if Possible(st, run[0]) then Exec(env, Next(env, st, run[0]), run[1..])
    else None
  }
}
