/** The connection pool: connecting with partial failure, closing, and work on numbered connections. */
module ConnectionPool {
  import opened Wrappers
  import opened ConnectionString
  import opened Sessions

  // ---------------------------------------------------------------- The driver and the server behind it

  /** The outcome of one `Driver.Connect`: opening fails, the ping fails, or the connection stands. */
  datatype Dial = OpenFails | PingFails(unknownSessionRole: bool) | Connects

  /** Open handles, the next handle, transactions begun per handle, strings dialed, and all events. */
  datatype Server = Server(
    open: set<Handle>,
    next: Handle,
    begun: map<Handle, nat>,
    dialed: seq<string>,
    log: seq<Event>)

  function OpenHandle(s: Server): Server {
    s.(open := s.open + {s.next}, next := s.next + 1, begun := s.begun[s.next := 0])
  }

  /** Opening is lazy; the ping decides, and a handle that does not answer is closed again. */
  function DialServer(s: Server, dsn: string, outcome: Dial): (Server, Option<Handle>) {
    var dialed := s.(dialed := s.dialed + [dsn]);
    match outcome
    case OpenFails => (dialed, None)
    case PingFails(_) => (CloseHandle(OpenHandle(dialed), s.next), None)
    case Connects => (OpenHandle(dialed), Some(s.next))
  }

  function CloseHandle(s: Server, h: Handle): Server {
    s.(open := s.open - {h})
  }

  function Record(s: Server, e: Event): Server {
    s.(log := s.log + [e])
  }

  function Begun(s: Server, h: Handle): nat {
    if h in s.begun then s.begun[h] else 0
  }

  // ---------------------------------------------------------------- The pool as a value

  datatype Pool = Pool(
    connPool: Option<seq<Option<Handle>>>,
    tx: Option<seq<Option<Tx>>>,
    numConns: int,
    version: string,
    server: Server)

  datatype Error =
    | SizeNotPositive
    | StillOpen
    | BadUtilityMode
    | DialFailed
    | VersionUnknown
    | InProgress
    | NotInProgress
    | DriverError

  /** A call returns with or without an error, or does not return (a fatal exit or an index panic). */
  datatype Outcome = Returned(error: Option<Error>) | Aborted

  /** Outcomes the environment chooses for one `Connect`: of the probe, of each dial, whether the version query
      succeeds, and what its answer parses to. */
  datatype Env = Env(probe: Dial, dials: nat -> Dial, answers: bool, version: Option<string>)

  function CloseAll(s: Server, conns: seq<Option<Handle>>): Server
    decreases |conns|
  {
    if conns == [] then s
    else CloseAll(if conns[0].Some? then CloseHandle(s, conns[0].value) else s, conns[1..])
  }

  function Closed(p: Pool): Pool {
    if p.connPool.None? then p
    else p.(connPool := None, tx := None, numConns := 0, server := CloseAll(p.server, p.connPool.value))
  }

  /** The string to dial after the probe of utility mode, or `None` if the probe failed for another reason. */
  function UtilityMode(s: Server, connStr: string, probe: Dial): (Server, Option<string>) {
    var (t, conn) := DialServer(s, connStr + SESSION_ROLE, probe);
    if conn.Some? then (CloseHandle(t, conn.value), Some(connStr + SESSION_ROLE))
    else if probe.PingFails? && probe.unknownSessionRole then (t, Some(connStr + ROLE))
    else (t, None)
  }

  /** Fills the pool from entry `i` on until a dial fails. */
  function DialAll(s: Server, conns: seq<Option<Handle>>, i: nat, dsn: string, dials: nat -> Dial)
    : (Server, seq<Option<Handle>>, bool)
    requires i <= |conns|
    decreases |conns| - i
  {
    if i == |conns| then (s, conns, true)
    else
      match DialServer(s, dsn, dials(i))
      case (t, None) => (t, conns, false)
      case (t, Some(h)) => DialAll(t, conns[i := Some(h)], i + 1, dsn, dials)
  }

  function Nils<T>(n: nat): seq<Option<T>> { seq(n, _ => None) }

  const VERSION_QUERY := "SELECT pg_catalog.version() AS versionstring"

  function Connected(p: Pool, connStr: string, numConns: int, utilityMode: seq<bool>, env: Env)
    : (Pool, Option<Error>)
  {
    if numConns < 1 then (p, Some(SizeNotPositive))
    else if p.connPool.Some? then (p, Some(StillOpen))
    else
      var q := p.(connPool := Some(Nils(numConns)));
      if |utilityMode| > 1 then (q, Some(BadUtilityMode))
      else
        var (t, dsn) :=
          if |utilityMode| == 1 && utilityMode[0] then UtilityMode(p.server, connStr, env.probe)
          else (p.server, Some(connStr));
        if dsn.None? then (q.(server := t), Some(DialFailed))
        else
          var (u, conns, ok) := DialAll(t, Nils(numConns), 0, dsn.value, env.dials);
          if !ok then (q.(server := u, connPool := Some(conns)), Some(DialFailed))
          else
            var r := q.(server := u, connPool := Some(conns), tx := Some(Nils(numConns)), numConns := numConns);
            var (v, _) := Worked(r, [], Run(VERSION_QUERY, env.answers));
            if !env.answers || env.version.None? then (v, Some(VersionUnknown))
            else (v.(version := env.version.value), None)
  }

  // ---------------------------------------------------------------- Work on one connection

  /** What a caller does on a numbered connection; `ok` is the driver's answer. */
  datatype Work = Begin(ok: bool) | Commit(ok: bool) | Rollback(ok: bool) | Run(statement: string, ok: bool)

  /** The connection number meant by the optional argument; `None` is a fatal exit. */
  function ValidateConnNum(which: seq<int>, numConns: int): Option<int> {
    if |which| == 0 then Some(0)
    else if |which| != 1 then None
    else if which[0] < 0 || which[0] >= numConns then None
    else Some(which[0])
  }

  /** The slices hold a usable connection under this number. */
  predicate Usable(p: Pool, k: int) {
    && p.tx.Some? && 0 <= k < |p.tx.value|
    && p.connPool.Some? && k < |p.connPool.value| && p.connPool.value[k].Some?
  }

  /** What `work` puts in the slot and on record, when the slot holds `tx` on connection `h`. */
  function Effect(tx: Option<Tx>, h: Handle, begun: nat, work: Work): (Option<Tx>, Option<Event>, Option<Error>) {
    match work
    case Begin(ok) =>
      if tx.Some? then (tx, None, Some(InProgress))
      else if ok then (Some(Tx(h, begun)), Some(Began(h, Tx(h, begun))), None)
      else (None, Some(BeginFailed(h)), Some(DriverError))
    case Run(statement, ok) => (tx, Some(Ran(h, tx, statement, ok)), if ok then None else Some(DriverError))
    case _ =>
      if tx.None? then (tx, None, Some(NotInProgress))
      else (None, Some(Ended(h, tx.value, work.Commit?, work.ok)), if work.ok then None else Some(DriverError))
  }

  function Worked(p: Pool, which: seq<int>, work: Work): (Pool, Outcome) {
    match ValidateConnNum(which, p.numConns)
    case None => (p, Aborted)
    case Some(k) =>
      if !Usable(p, k) then (p, Aborted)
      else
        var h := p.connPool.value[k].value;
        var begun := Begun(p.server, h);
        var (tx, event, error) := Effect(p.tx.value[k], h, begun, work);
        var s := if event.Some? then Record(p.server, event.value) else p.server;
        var t := if event.Some? && event.value.Began? then s.(begun := s.begun[h := begun + 1]) else s;
        (p.(tx := Some(p.tx.value[k := tx]), server := t), Returned(error))
  }

  // ---------------------------------------------------------------- Runs

  datatype Call =
    | ConnectCall(connStr: string, numConns: int, utilityMode: seq<bool>, env: Env)
    | CloseCall
    | WorkCall(which: seq<int>, work: Work)

  function Called(p: Pool, call: Call): Pool {
    match call
    case ConnectCall(connStr, numConns, utilityMode, env) => Connected(p, connStr, numConns, utilityMode, env).0
    case CloseCall => Closed(p)
    case WorkCall(which, work) => Worked(p, which, work).0
  }

  function AfterCalls(p: Pool, calls: seq<Call>): Pool
    decreases |calls|
  {
    if calls == [] then p else AfterCalls(Called(p, calls[0]), calls[1..])
  }

  function NewPool(): Pool {
    Pool(None, None, 0, "", Server({}, 0, map[], [], []))
  }

  // ---------------------------------------------------------------- Conservation and session discipline

  function Held(conns: seq<Option<Handle>>): set<Handle> {
    set k | 0 <= k < |conns| && conns[k].Some? :: conns[k].value
  }

  function Entries(p: Pool): seq<Option<Handle>> {
    if p.connPool.Some? then p.connPool.value else []
  }

  predicate Distinct(conns: seq<Option<Handle>>) {
    forall j, k | 0 <= j < k < |conns| :: conns[j].Some? && conns[k].Some? ==> conns[j] != conns[k]
  }

  /** The open handles are exactly the non-nil entries of the pool, each held once. */
  ghost predicate HandlesConserved(p: Pool) {
    && p.server.open == Held(Entries(p))
    && Distinct(Entries(p))
    && (forall h | h in p.server.open :: h < p.server.next)
  }

  /** Either nothing is ready, or pool and transactions have the same positive size and no entry is nil. */
  ghost predicate SizesAgree(p: Pool) {
    if p.tx.None? then p.numConns == 0
    else
      && p.connPool.Some?
      && |p.tx.value| == |p.connPool.value| == p.numConns >= 1
      && forall k | 0 <= k < |p.connPool.value| :: p.connPool.value[k].Some?
  }

  /** Every connection's history is well bracketed, and each slot holds the transaction its history left open. */
  ghost predicate SessionsAgree(p: Pool) {
    && (forall h: Handle :: Track(History(p.server.log, h)).Some?)
    && (forall h: Handle | h >= p.server.next :: History(p.server.log, h) == [])
    && (p.tx.Some? ==> forall k | 0 <= k < |p.tx.value| && Usable(p, k) ::
          Track(History(p.server.log, p.connPool.value[k].value)) == Some(p.tx.value[k]))
  }

  ghost predicate Inv(p: Pool) {
    HandlesConserved(p) && SizesAgree(p) && SessionsAgree(p)
  }
}
