/** Conservation of handles, session discipline and session affinity over whole runs. */
module PoolTheorems {
  import opened Wrappers
  import opened ConnectionString
  import opened Sessions
  import opened ConnectionPool

  // ---------------------------------------------------------------- Dialing and closing

  lemma DialConserves(s: Server, dsn: string, outcome: Dial)
    requires forall h | h in s.open :: h < s.next
    ensures var (t, conn) := DialServer(s, dsn, outcome);
      && t.open == s.open + (if conn.Some? then {conn.value} else {})
      && (conn.Some? <==> outcome.Connects?)
      && (conn.Some? ==> conn.value == s.next < t.next)
      && s.next <= t.next && t.log == s.log && t.dialed == s.dialed + [dsn]
  {
  }

  lemma {:induction false} CloseAllConserves(s: Server, conns: seq<Option<Handle>>)
    ensures CloseAll(s, conns) == s.(open := s.open - Held(conns))
    decreases |conns|
  {
    if conns == [] {
      assert s.open - Held(conns) == s.open;
    } else {
      var t := if conns[0].Some? then CloseHandle(s, conns[0].value) else s;
      CloseAllConserves(t, conns[1..]);
      assert Held(conns) == Held(conns[1..]) + if conns[0].Some? then {conns[0].value} else {} by {
        HeldFirst(conns);
      }
      assert t.open - Held(conns[1..]) == s.open - Held(conns);
    }
  }

  lemma HeldFirst(conns: seq<Option<Handle>>)
    requires conns != []
    ensures Held(conns) == Held(conns[1..]) + if conns[0].Some? then {conns[0].value} else {}
  {
    var more := conns[1..];
    forall h | h in Held(conns)
      ensures h in Held(more) + if conns[0].Some? then {conns[0].value} else {}
    {
      var k :| 0 <= k < |conns| && conns[k].Some? && conns[k].value == h;
      if k > 0 {
        assert more[k - 1] == conns[k];
      }
    }
    forall h | h in Held(more)
      ensures h in Held(conns)
    {
      var k :| 0 <= k < |more| && more[k].Some? && more[k].value == h;
      assert conns[k + 1] == more[k];
    }
  }

  /** The first `i` entries are set, the others nil; they are what the server has open. */
  ghost predicate FilledTo(s: Server, conns: seq<Option<Handle>>, i: nat, from: Handle) {
    && i <= |conns|
    && (forall k | 0 <= k < |conns| :: conns[k].Some? <==> k < i)
    && (forall k | 0 <= k < i :: from <= conns[k].value < s.next)
    && from <= s.next
    && Distinct(conns)
    && s.open == Held(conns)
  }

  lemma FillOne(s: Server, conns: seq<Option<Handle>>, i: nat, from: Handle, dsn: string, outcome: Dial)
    requires FilledTo(s, conns, i, from) && i < |conns|
    ensures var (t, conn) := DialServer(s, dsn, outcome);
      FilledTo(t, if conn.Some? then conns[i := conn] else conns, if conn.Some? then i + 1 else i, from)
  {
    DialConserves(s, dsn, outcome);
    var (t, conn) := DialServer(s, dsn, outcome);
    if conn.Some? {
      var filled := conns[i := conn];
      forall h | h in Held(conns) + {conn.value}
        ensures h in Held(filled)
      {
        if h in Held(conns) {
          var k :| 0 <= k < |conns| && conns[k].Some? && conns[k].value == h;
          assert filled[k] == conns[k];
        } else {
          assert filled[i].value == h;
        }
      }
      forall h | h in Held(filled)
        ensures h in Held(conns) + {conn.value}
      {
        var k :| 0 <= k < |filled| && filled[k].Some? && filled[k].value == h;
        if k != i {
          assert conns[k] == filled[k];
        }
      }
      assert Held(filled) == Held(conns) + {conn.value};
    }
  }

  /** However far dialing gets, the server has open what the pool holds. */
  lemma {:induction false} DialAllConserves(s: Server, conns: seq<Option<Handle>>, i: nat, from: Handle, dsn: string,
                                            dials: nat -> Dial)
    requires FilledTo(s, conns, i, from)
    ensures var (t, filled, ok) := DialAll(s, conns, i, dsn, dials);
      && |filled| == |conns|
      && t.log == s.log
      && (exists j :: FilledTo(t, filled, j, from))
      && (ok ==> FilledTo(t, filled, |conns|, from))
    decreases |conns| - i
  {
    if i < |conns| {
      FillOne(s, conns, i, from, dsn, dials(i));
      DialConserves(s, dsn, dials(i));
      var (t, conn) := DialServer(s, dsn, dials(i));
      if conn.Some? {
        DialAllConserves(t, conns[i := conn], i + 1, from, dsn, dials);
      }
    }
  }

  /** The probe of utility mode leaves no handle behind, whatever its outcome. */
  lemma ProbeConserves(s: Server, connStr: string, probe: Dial)
    requires forall h | h in s.open :: h < s.next
    ensures var (t, dsn) := UtilityMode(s, connStr, probe);
      && t.open == s.open && t.log == s.log && s.next <= t.next
      && (dsn.None? <==> probe.OpenFails? || (probe.PingFails? && !probe.unknownSessionRole))
  {
    DialConserves(s, connStr + SESSION_ROLE, probe);
  }

  // ---------------------------------------------------------------- Every call keeps the invariant

  lemma NilsFilled(s: Server, n: nat)
    requires s.open == {}
    ensures FilledTo(s, Nils(n), 0, s.next)
  {
    assert Held(Nils(n)) == {};
  }

  /** A pool being filled: handles conserved, nothing ready. */
  lemma FilledInv(p: Pool, s: Server, conns: seq<Option<Handle>>, j: nat)
    requires Inv(p) && p.connPool.None? && s.log == p.server.log && FilledTo(s, conns, j, p.server.next)
    ensures Inv(p.(connPool := Some(conns), server := s))
  {
    assert p.tx.None?;
  }

  /** A filled pool with no transactions is ready. */
  lemma ReadyInv(p: Pool, s: Server, conns: seq<Option<Handle>>)
    requires Inv(p) && p.connPool.None? && s.log == p.server.log && |conns| >= 1
    requires FilledTo(s, conns, |conns|, p.server.next)
    ensures Inv(p.(connPool := Some(conns), server := s, tx := Some(Nils(|conns|)), numConns := |conns|))
  {
    var q := p.(connPool := Some(conns), server := s, tx := Some(Nils(|conns|)), numConns := |conns|);
    forall k | 0 <= k < |conns|
      ensures Track(History(q.server.log, conns[k].value)) == Some(q.tx.value[k])
    {
      assert History(q.server.log, conns[k].value) == [];
    }
  }

  lemma ConnectedInv(p: Pool, connStr: string, numConns: int, utilityMode: seq<bool>, env: Env)
    requires Inv(p)
    ensures Inv(Connected(p, connStr, numConns, utilityMode, env).0)
  {
    if numConns >= 1 && p.connPool.None? {
      assert Entries(p) == [] && p.server.open == {};
      var (t, dsn) :=
        if |utilityMode| == 1 && utilityMode[0] then UtilityMode(p.server, connStr, env.probe)
        else (p.server, Some(connStr));
      ProbeConserves(p.server, connStr, env.probe);
      assert FilledTo(p.server, Nils(numConns), 0, p.server.next) by { NilsFilled(p.server, numConns); }
      assert FilledTo(t, Nils(numConns), 0, p.server.next);
      FilledInv(p, p.server, Nils(numConns), 0);
      FilledInv(p, t, Nils(numConns), 0);
      if |utilityMode| <= 1 && dsn.Some? {
        DialAllConserves(t, Nils(numConns), 0, p.server.next, dsn.value, env.dials);
        var (u, conns, ok) := DialAll(t, Nils(numConns), 0, dsn.value, env.dials);
        if !ok {
          var j :| FilledTo(u, conns, j, p.server.next);
          FilledInv(p, u, conns, j);
        } else {
          ReadyInv(p, u, conns);
          var r := p.(connPool := Some(conns), server := u, tx := Some(Nils(numConns)), numConns := numConns);
          WorkedInv(r, [], Run(VERSION_QUERY, env.answers));
          if env.answers && env.version.Some? {
            var v := Worked(r, [], Run(VERSION_QUERY, env.answers)).0;
            VersionInv(v, env.version.value);
          }
        }
      }
    }
  }

  lemma VersionInv(p: Pool, version: string)
    requires Inv(p)
    ensures Inv(p.(version := version))
  {
    var q := p.(version := version);
    assert forall k :: Usable(q, k) == Usable(p, k);
  }

  lemma ClosedInv(p: Pool)
    requires Inv(p)
    ensures Inv(Closed(p))
  {
    if p.connPool.Some? {
      CloseAllConserves(p.server, p.connPool.value);
    }
  }

  /** What work puts in the slot is what its event leaves open. */
  lemma EffectTracks(tx: Option<Tx>, h: Handle, begun: nat, work: Work)
    ensures var (after, event, _) := Effect(tx, h, begun, work);
      if event.Some? then event.value.conn == h && TrackOne(tx, event.value) == Some(after) else after == tx
  {
  }

  /** The pool after an event on the connection of slot `k`. */
  lemma EventInv(p: Pool, q: Pool, k: nat, e: Event)
    requires Inv(p) && p.tx.Some? && k < p.numConns && e.conn == p.connPool.value[k].value
    requires q.connPool == p.connPool && q.numConns == p.numConns && q.tx.Some? && |q.tx.value| == |p.tx.value|
    requires q.server.open == p.server.open && q.server.next == p.server.next && q.server.log == p.server.log + [e]
    requires TrackOne(p.tx.value[k], e) == Some(q.tx.value[k])
    requires forall j | 0 <= j < |p.tx.value| && j != k :: q.tx.value[j] == p.tx.value[j]
    ensures Inv(q)
  {
    assert e.conn in Held(Entries(p));
    forall g: Handle
      ensures History(q.server.log, g) == History(p.server.log, g) + if g == e.conn then [e] else []
      ensures g != e.conn ==> History(q.server.log, g) == History(p.server.log, g)
    {
      HistoryGrows(p.server.log, e, g);
    }
    assert Usable(p, k);
    TrackGrows(History(p.server.log, e.conn), e);
    forall j | 0 <= j < |q.tx.value| && Usable(q, j)
      ensures Track(History(q.server.log, q.connPool.value[j].value)) == Some(q.tx.value[j])
    {
      assert Usable(p, j);
      assert j != k ==> p.connPool.value[j] != p.connPool.value[k];
    }
  }

  lemma WorkedInv(p: Pool, which: seq<int>, work: Work)
    requires Inv(p)
    ensures Inv(Worked(p, which, work).0)
  {
    var valid := ValidateConnNum(which, p.numConns);
    if valid.Some? && Usable(p, valid.value) {
      var q := Worked(p, which, work).0;
      var k := valid.value;
      var h := p.connPool.value[k].value;
      var (tx, event, _) := Effect(p.tx.value[k], h, Begun(p.server, h), work);
      EffectTracks(p.tx.value[k], h, Begun(p.server, h), work);
      if event.Some? {
        EventInv(p, q, k, event.value);
      } else {
        assert q == p by {
          assert p.tx.value[k := tx] == p.tx.value;
        }
      }
    }
  }

  lemma CalledInv(p: Pool, call: Call)
    requires Inv(p)
    ensures Inv(Called(p, call))
  {
    match call
    case ConnectCall(connStr, numConns, utilityMode, env) => ConnectedInv(p, connStr, numConns, utilityMode, env);
    case CloseCall => ClosedInv(p);
    case WorkCall(which, work) => WorkedInv(p, which, work);
  }

  lemma {:induction false} RunsKeepInv(p: Pool, calls: seq<Call>)
    requires Inv(p)
    ensures Inv(AfterCalls(p, calls))
    decreases |calls|
  {
    if calls != [] {
      CalledInv(p, calls[0]);
      RunsKeepInv(Called(p, calls[0]), calls[1..]);
    }
  }

  lemma NewPoolInv()
    ensures Inv(NewPool())
  {
    assert Held(Entries(NewPool())) == {};
  }

  // ---------------------------------------------------------------- Theorems over runs

  /** After any calls, with any failures, the open handles are exactly the pool's entries, and either no
      transaction slots exist and the size is 0, or pool, slots and size agree and no entry is nil. */
  lemma PoolConservation(calls: seq<Call>)
    ensures var p := AfterCalls(NewPool(), calls);
      && HandlesConserved(p)
      && SizesAgree(p)
  {
    NewPoolInv();
    RunsKeepInv(NewPool(), calls);
  }

  /** Closing after any calls leaves nothing open and the pool as good as new, and changes nothing else; so no
      run leaks a handle. */
  lemma CloseReleasesEverything(calls: seq<Call>)
    ensures var p := AfterCalls(NewPool(), calls);
      Closed(p) == p.(connPool := None, tx := None, numConns := 0, server := p.server.(open := {}))
  {
    NewPoolInv();
    RunsKeepInv(NewPool(), calls);
    var p := AfterCalls(NewPool(), calls);
    if p.connPool.Some? {
      CloseAllConserves(p.server, p.connPool.value);
    } else {
      assert Entries(p) == [];
    }
  }

  /** After any calls, work aborts exactly without a filled pool or with anything but no number or one number
      in range; otherwise it concerns the connection of that number, or the first, and that connection exists. */
  lemma AbortsIff(calls: seq<Call>, which: seq<int>, work: Work)
    ensures var p := AfterCalls(NewPool(), calls);
      && (Worked(p, which, work).1 != Aborted <==>
            p.tx.Some? && (which == [] || (|which| == 1 && 0 <= which[0] < |p.tx.value|)))
      && (Worked(p, which, work).1 != Aborted ==>
            ValidateConnNum(which, p.numConns) == Some(if which == [] then 0 else which[0])
            && Usable(p, if which == [] then 0 else which[0]))
      && (Worked(p, which, work).1 == Aborted ==> Worked(p, which, work).0 == p)
  {
    PoolConservation(calls);
  }

  /** Every connection ever opened sees a well-bracketed session. */
  lemma SessionsAreBracketed(calls: seq<Call>, h: Handle)
    ensures Track(History(AfterCalls(NewPool(), calls).server.log, h)).Some?
  {
    NewPoolInv();
    RunsKeepInv(NewPool(), calls);
  }

  /** In any run, every statement a connection sees between a begin and the next end ran in the transaction
      begun, and nothing else was begun in between. */
  lemma StatementsOfRuns(calls: seq<Call>, h: Handle, i: nat, j: nat)
    requires var events := History(AfterCalls(NewPool(), calls).server.log, h);
      i < j < |events| && events[i].Began? && NoneEnds(events, i, j)
    ensures var events := History(AfterCalls(NewPool(), calls).server.log, h);
      && (events[j].Ran? ==> events[j].within == Some(events[i].tx))
      && (events[j].Ended? ==> events[j].tx == events[i].tx)
      && !events[j].Began?
  {
    SessionsAreBracketed(calls, h);
    StatementsGoToTheirTransaction(History(AfterCalls(NewPool(), calls).server.log, h), i, j);
  }

  // ---------------------------------------------------------------- Transactions are not confused

  /** Every begin recorded is of a transaction of its own, on its connection, numbered below the next one there. */
  ghost predicate SerialsAreFresh(s: Server) {
    && (forall i | 0 <= i < |s.log| && s.log[i].Began? ::
          s.log[i].tx.conn == s.log[i].conn < s.next && s.log[i].tx.serial < Begun(s, s.log[i].conn))
    && (forall i, j | 0 <= i < j < |s.log| && s.log[i].Began? && s.log[j].Began? :: s.log[i].tx != s.log[j].tx)
  }

  lemma DialKeepsSerials(s: Server, dsn: string, outcome: Dial)
    requires SerialsAreFresh(s)
    ensures SerialsAreFresh(DialServer(s, dsn, outcome).0)
  {
  }

  lemma {:induction false} DialAllKeepsSerials(s: Server, conns: seq<Option<Handle>>, i: nat, dsn: string,
                                               dials: nat -> Dial)
    requires SerialsAreFresh(s) && i <= |conns|
    ensures SerialsAreFresh(DialAll(s, conns, i, dsn, dials).0)
    decreases |conns| - i
  {
    if i < |conns| {
      DialKeepsSerials(s, dsn, dials(i));
      var (t, conn) := DialServer(s, dsn, dials(i));
      if conn.Some? {
        DialAllKeepsSerials(t, conns[i := conn], i + 1, dsn, dials);
      }
    }
  }

  lemma {:induction false} CloseAllKeepsSerials(s: Server, conns: seq<Option<Handle>>)
    requires SerialsAreFresh(s)
    ensures SerialsAreFresh(CloseAll(s, conns))
  {
    CloseAllConserves(s, conns);
  }

  /** Recording an event on a connection; a begin takes the next number there. */
  lemma EventKeepsSerials(s: Server, t: Server, e: Event)
    requires SerialsAreFresh(s) && e.conn < s.next
    requires t == s.(log := s.log + [e], begun := t.begun)
    requires e.Began? ==> e.tx == Tx(e.conn, Begun(s, e.conn)) && t.begun == s.begun[e.conn := Begun(s, e.conn) + 1]
    requires !e.Began? ==> t.begun == s.begun
    ensures SerialsAreFresh(t)
  {
  }

  lemma WorkedKeepsSerials(p: Pool, which: seq<int>, work: Work)
    requires SerialsAreFresh(p.server)
    requires forall k | 0 <= k < |Entries(p)| && Entries(p)[k].Some? :: Entries(p)[k].value < p.server.next
    ensures SerialsAreFresh(Worked(p, which, work).0.server)
  {
    var valid := ValidateConnNum(which, p.numConns);
    if valid.Some? && Usable(p, valid.value) {
      var h := Entries(p)[valid.value].value;
      var (_, event, _) := Effect(p.tx.value[valid.value], h, Begun(p.server, h), work);
      if event.Some? {
        EventKeepsSerials(p.server, Worked(p, which, work).0.server, event.value);
      }
    }
  }

  lemma ConnectKeepsSerials(p: Pool, connStr: string, numConns: int, utilityMode: seq<bool>, env: Env)
    requires Inv(p) && SerialsAreFresh(p.server)
    ensures SerialsAreFresh(Connected(p, connStr, numConns, utilityMode, env).0.server)
  {
    if numConns >= 1 && p.connPool.None? && |utilityMode| <= 1 {
      var (t, dsn) :=
        if |utilityMode| == 1 && utilityMode[0] then UtilityMode(p.server, connStr, env.probe)
        else (p.server, Some(connStr));
      DialKeepsSerials(p.server, connStr + SESSION_ROLE, env.probe);
      if dsn.Some? {
        assert p.server.open == {} by { assert Held(Entries(p)) == {}; }
        ProbeConserves(p.server, connStr, env.probe);
        NilsFilled(t, numConns);
        DialAllKeepsSerials(t, Nils(numConns), 0, dsn.value, env.dials);
        DialAllConserves(t, Nils(numConns), 0, t.next, dsn.value, env.dials);
        var (u, conns, ok) := DialAll(t, Nils(numConns), 0, dsn.value, env.dials);
        if ok {
          var r := p.(connPool := Some(conns), server := u, tx := Some(Nils(numConns)), numConns := numConns);
          WorkedKeepsSerials(r, [], Run(VERSION_QUERY, env.answers));
        }
      }
    }
  }

  lemma {:induction false} RunsKeepSerials(p: Pool, calls: seq<Call>)
    requires Inv(p) && SerialsAreFresh(p.server)
    ensures SerialsAreFresh(AfterCalls(p, calls).server)
    decreases |calls|
  {
    if calls != [] {
      CalledInv(p, calls[0]);
      match calls[0] {
        case ConnectCall(connStr, numConns, utilityMode, env) =>
          ConnectKeepsSerials(p, connStr, numConns, utilityMode, env);
        case CloseCall => CloseAllKeepsSerials(p.server, Entries(p));
        case WorkCall(which, work) =>
          forall k | 0 <= k < |Entries(p)| && Entries(p)[k].Some?
            ensures Entries(p)[k].value < p.server.next
          {
            assert Entries(p)[k].value in Held(Entries(p));
          }
          WorkedKeepsSerials(p, which, work);
      }
      RunsKeepSerials(Called(p, calls[0]), calls[1..]);
    }
  }

  /** In any run no two begins are of the same transaction, and each is on its transaction's connection. */
  lemma TransactionsAreDistinct(calls: seq<Call>, i: nat, j: nat)
    requires var log := AfterCalls(NewPool(), calls).server.log;
      i < j < |log| && log[i].Began? && log[j].Began?
    ensures var log := AfterCalls(NewPool(), calls).server.log;
      log[i].tx != log[j].tx && log[i].tx.conn == log[i].conn && log[j].tx.conn == log[j].conn
  {
    NewPoolInv();
    RunsKeepSerials(NewPool(), calls);
  }

  // ---------------------------------------------------------------- Connect in utility mode

  lemma {:induction false} DialAllDials(s: Server, conns: seq<Option<Handle>>, i: nat, dsn: string, dials: nat -> Dial)
    requires i <= |conns| && forall k | 0 <= k < |conns| :: conns[k].Some? <==> k < i
    ensures var (t, filled, ok) := DialAll(s, conns, i, dsn, dials);
      && (ok <==> forall k | i <= k < |conns| :: dials(k).Connects?)
      && |filled| == |conns|
      && (forall k | 0 <= k < |conns| :: filled[k].Some? <==> forall m | i <= m <= k :: dials(m).Connects?)
      && s.dialed <= t.dialed
      && (forall m | |s.dialed| <= m < |t.dialed| :: t.dialed[m] == dsn)
      && (ok ==> |t.dialed| == |s.dialed| + |conns| - i)
    decreases |conns| - i
  {
    if i < |conns| {
      var (t, conn) := DialServer(s, dsn, dials(i));
      if conn.Some? {
        DialAllDials(t, conns[i := conn], i + 1, dsn, dials);
      }
    }
  }

  /** The probe, if there is one, accepts one of the two role settings. */
  predicate ProbePasses(utilityMode: seq<bool>, probe: Dial) {
    utilityMode == [true] ==> probe.Connects? || (probe.PingFails? && probe.unknownSessionRole)
  }

  /** What `Connect` answers, and how far it fills the pool: up to the first dial that does not connect. */
  lemma ConnectAnswers(p: Pool, connStr: string, numConns: int, utilityMode: seq<bool>, env: Env)
    ensures var (q, error) := Connected(p, connStr, numConns, utilityMode, env);
      var dialing := numConns >= 1 && p.connPool.None? && |utilityMode| <= 1 && ProbePasses(utilityMode, env.probe);
      var allConnect := forall k | 0 <= k < numConns :: env.dials(k).Connects?;
      && (error == Some(SizeNotPositive) <==> numConns < 1)
      && (error == Some(StillOpen) <==> numConns >= 1 && p.connPool.Some?)
      && (error == Some(BadUtilityMode) <==> numConns >= 1 && p.connPool.None? && |utilityMode| > 1)
      && (error == Some(DialFailed) <==>
            && numConns >= 1 && p.connPool.None? && |utilityMode| <= 1
            && !(ProbePasses(utilityMode, env.probe) && allConnect))
      && (error == Some(VersionUnknown) <==> dialing && allConnect && !(env.answers && env.version.Some?))
      && (error == None <==> dialing && allConnect && env.answers && env.version.Some?)
      && (error == None ==> q.version == env.version.value)
      && (error.Some? && error.value in {SizeNotPositive, StillOpen} ==> q == p)
      && (dialing ==>
            && q.connPool.Some? && |q.connPool.value| == numConns
            && forall k | 0 <= k < numConns ::
                 q.connPool.value[k].Some? <==> forall m | 0 <= m <= k :: env.dials(m).Connects?)
  {
    if numConns >= 1 && p.connPool.None? && |utilityMode| <= 1 {
      var probed := |utilityMode| == 1 && utilityMode[0];
      assert probed <==> utilityMode == [true];
      var (t, dsn) :=
        if probed then UtilityMode(p.server, connStr, env.probe) else (p.server, Some(connStr));
      assert dsn.Some? <==> ProbePasses(utilityMode, env.probe);
      if dsn.Some? {
        DialAllDials(t, Nils(numConns), 0, dsn.value, env.dials);
      }
    }
  }

  /** The pool once its connections stand: as many as asked for, each with an empty transaction slot. */
  ghost predicate IsReady(q: Pool, numConns: int) {
    && q.numConns == numConns
    && q.connPool.Some? && |q.connPool.value| == numConns
    && (forall k | 0 <= k < numConns :: q.connPool.value[k].Some?)
    && q.tx.Some? && |q.tx.value| == numConns
    && (forall k | 0 <= k < numConns :: q.tx.value[k].None?)
  }

  lemma {:induction false} DialAllLogsNothing(s: Server, conns: seq<Option<Handle>>, i: nat, dsn: string,
                                              dials: nat -> Dial)
    requires i <= |conns|
    ensures DialAll(s, conns, i, dsn, dials).0.log == s.log
    decreases |conns| - i
  {
    if i < |conns| {
      var (t, conn) := DialServer(s, dsn, dials(i));
      if conn.Some? {
        DialAllLogsNothing(t, conns[i := conn], i + 1, dsn, dials);
      }
    }
  }

  /** What a `Connect` leaves in the other fields. If all dials connect, the pool is ready, also when the version
      stays unknown, every connection is usable, and the server has seen the version query, outside a
      transaction, on the first one. After any other error transactions, size, version and the server's record
      are as before. */
  lemma ConnectReadies(p: Pool, connStr: string, numConns: int, utilityMode: seq<bool>, env: Env)
    ensures var (q, error) := Connected(p, connStr, numConns, utilityMode, env);
      && (error.None? || error.value == VersionUnknown ==>
            && IsReady(q, numConns)
            && (forall k | 0 <= k < numConns :: Usable(q, k))
            && q.server.log == p.server.log +
                 [Ran(q.connPool.value[0].value, None, "SELECT pg_catalog.version() AS versionstring", env.answers)])
      && (error.Some? ==> q.version == p.version)
      && (error.Some? && error.value != VersionUnknown ==>
            q.tx == p.tx && q.numConns == p.numConns && q.server.log == p.server.log)
  {
    if numConns >= 1 && p.connPool.None? && |utilityMode| <= 1 {
      var (t, dsn) :=
        if |utilityMode| == 1 && utilityMode[0] then UtilityMode(p.server, connStr, env.probe)
        else (p.server, Some(connStr));
      assert t.log == p.server.log;
      if dsn.Some? {
        DialAllDials(t, Nils(numConns), 0, dsn.value, env.dials);
        DialAllLogsNothing(t, Nils(numConns), 0, dsn.value, env.dials);
      }
    }
  }

  /** Which strings a `Connect` dials: the probe's (in utility mode), and then one and the same string for
      every connection: with the role setting the probe found accepted, or with none outside utility mode. */
  lemma ConnectDials(p: Pool, connStr: string, numConns: int, utilityMode: seq<bool>, env: Env)
    requires p.connPool.None? && Connected(p, connStr, numConns, utilityMode, env).1.None?
    ensures var q := Connected(p, connStr, numConns, utilityMode, env).0;
      var probes := if utilityMode == [true] then 1 else 0;
      var suffix := if utilityMode != [true] then ""
                    else if env.probe.Connects? then SESSION_ROLE
                    else ROLE;
      && |q.server.dialed| == |p.server.dialed| + probes + numConns
      && p.server.dialed <= q.server.dialed
      && (probes == 1 ==> q.server.dialed[|p.server.dialed|] == connStr + SESSION_ROLE)
      && forall m | |p.server.dialed| + probes <= m < |q.server.dialed| :: q.server.dialed[m] == connStr + suffix
  {
    ConnectAnswers(p, connStr, numConns, utilityMode, env);
    var probed := |utilityMode| == 1 && utilityMode[0];
    assert probed <==> utilityMode == [true];
    var (t, dsn) :=
      if probed then UtilityMode(p.server, connStr, env.probe) else (p.server, Some(connStr));
    DialAllDials(t, Nils(numConns), 0, dsn.value, env.dials);
    assert connStr + "" == connStr;
  }

  /** Once a `Connect` of positive size was tried on a closed pool, with whatever result, every further one
      is refused and changes nothing until `Close`; after `Close` the pool is closed again. */
  lemma ConnectNeedsClose(p: Pool, connStr: string, n: int, utilityMode: seq<bool>, env: Env,
                          connStr': string, m: int, utilityMode': seq<bool>, env': Env)
    requires p.connPool.None? && n >= 1 && m >= 1
    ensures var q := Connected(p, connStr, n, utilityMode, env).0;
      && q.connPool.Some? && |q.connPool.value| == n
      && Connected(q, connStr', m, utilityMode', env') == (q, Some(StillOpen))
      && Closed(q).connPool.None?
  {
    var (t, dsn) :=
      if |utilityMode| == 1 && utilityMode[0] then UtilityMode(p.server, connStr, env.probe)
      else (p.server, Some(connStr));
    if dsn.Some? {
      DialAllKeepsLength(t, Nils(n), 0, dsn.value, env.dials);
    }
  }

  lemma {:induction false} DialAllKeepsLength(s: Server, conns: seq<Option<Handle>>, i: nat, dsn: string,
                                              dials: nat -> Dial)
    requires i <= |conns|
    ensures |DialAll(s, conns, i, dsn, dials).1| == |conns|
    decreases |conns| - i
  {
    if i < |conns| {
      var (t, conn) := DialServer(s, dsn, dials(i));
      if conn.Some? {
        DialAllKeepsLength(t, conns[i := conn], i + 1, dsn, dials);
      }
    }
  }

  /** The event the server sees for a call that reaches it. */
  predicate SeenAs(work: Work, e: Event) {
    match work
    case Begin(ok) => if ok then e.Began? else e.BeginFailed?
    case Commit(ok) => e.Ended? && e.committed && e.ok == ok
    case Rollback(ok) => e.Ended? && !e.committed && e.ok == ok
    case Run(statement, ok) => e.Ran? && e.statement == statement && e.ok == ok
  }

  /** What a call on a usable connection answers, in terms of the session seen by the server: a begin is
      refused exactly inside a transaction, a commit or rollback exactly outside one, and then the server sees
      nothing; otherwise it sees one event, and the answer is the driver's. */
  lemma AnswerTellsSession(p: Pool, which: seq<int>, work: Work)
    requires Inv(p) && ValidateConnNum(which, p.numConns).Some?
    requires Usable(p, ValidateConnNum(which, p.numConns).value)
    ensures var (q, outcome) := Worked(p, which, work);
      var h := p.connPool.value[ValidateConnNum(which, p.numConns).value].value;
      var session := Track(History(p.server.log, h)).value;
      && q == p.(tx := q.tx, server := p.server.(log := q.server.log, begun := q.server.begun))
      && (outcome == Returned(Some(InProgress)) <==> work.Begin? && session.Some?)
      && (outcome == Returned(Some(NotInProgress)) <==> (work.Commit? || work.Rollback?) && session.None?)
      && (outcome in {Returned(Some(InProgress)), Returned(Some(NotInProgress))} <==> q.server.log == p.server.log)
      && (q.server.log != p.server.log ==>
            && |q.server.log| == |p.server.log| + 1 && q.server.log[..|p.server.log|] == p.server.log
            && q.server.log[|p.server.log|].conn == h
            && SeenAs(work, q.server.log[|p.server.log|])
            && outcome == Returned(if work.ok then None else Some(DriverError)))
  {
    var k := ValidateConnNum(which, p.numConns).value;
    var h := p.connPool.value[k].value;
    EffectTracks(p.tx.value[k], h, Begun(p.server, h), work);
  }

  // ---------------------------------------------------------------- Session affinity

  /** What one slot does when only its own work is done: its transaction at the end, and its events. */
  function Alone(tx: Option<Tx>, h: Handle, begun: nat, works: seq<Work>): (Option<Tx>, seq<Event>)
    decreases |works|
  {
    if works == [] then (tx, [])
    else
      var (next, event, _) := Effect(tx, h, begun, works[0]);
      var (end, events) := Alone(next, h, if event.Some? && event.value.Began? then begun + 1 else begun, works[1..]);
      (end, (if event.Some? then [event.value] else []) + events)
  }

  type Request = (seq<int>, Work)

  function WorkCalls(requests: seq<Request>): seq<Call> {
    seq(|requests|, i requires 0 <= i < |requests| => WorkCall(requests[i].0, requests[i].1))
  }

  /** The requests that validation directs to slot `k`. */
  function WorkOf(requests: seq<Request>, k: int, numConns: int): seq<Work>
    decreases |requests|
  {
    if requests == [] then []
    else (if ValidateConnNum(requests[0].0, numConns) == Some(k) then [requests[0].1] else [])
         + WorkOf(requests[1..], k, numConns)
  }

  /** One request, seen from slot `k`: it takes effect if it is meant for the slot, and is invisible otherwise. */
  ghost predicate SlotStep(p: Pool, q: Pool, k: int, mine: bool, work: Work)
    requires p.tx.Some? && p.connPool.Some? && 0 <= k < |p.tx.value| && k < |p.connPool.value|
    requires p.connPool.value[k].Some?
  {
    var h := p.connPool.value[k].value;
    && q.tx.Some? && k < |q.tx.value| && q.connPool == p.connPool && q.numConns == p.numConns
    && if mine then
         var (tx, event, _) := Effect(p.tx.value[k], h, Begun(p.server, h), work);
         && q.tx.value[k] == tx
         && Begun(q.server, h) == Begun(p.server, h) + (if event.Some? && event.value.Began? then 1 else 0)
         && History(q.server.log, h) == History(p.server.log, h) + if event.Some? then [event.value] else []
       else
         && q.tx.value[k] == p.tx.value[k]
         && Begun(q.server, h) == Begun(p.server, h)
         && History(q.server.log, h) == History(p.server.log, h)
  }

  lemma OneRequest(p: Pool, which: seq<int>, work: Work, k: int)
    requires Inv(p) && p.tx.Some? && 0 <= k < p.numConns
    ensures var q := Worked(p, which, work).0;
      Inv(q) && SlotStep(p, q, k, ValidateConnNum(which, p.numConns) == Some(k), work)
  {
    WorkedInv(p, which, work);
    var h := p.connPool.value[k].value;
    var j := ValidateConnNum(which, p.numConns);
    if j.Some? {
      assert Usable(p, j.value);
      var g := p.connPool.value[j.value].value;
      assert j.value != k ==> g != h;
      var (_, event, _) := Effect(p.tx.value[j.value], g, Begun(p.server, g), work);
      if event.Some? {
        HistoryGrows(p.server.log, event.value, h);
      } else {
        assert History(p.server.log, h) + [] == History(p.server.log, h);
      }
    }
  }

  /** Slot `k` goes from `p` to `q` as its own `works` alone would take it. */
  ghost predicate WentAlone(p: Pool, q: Pool, k: int, works: seq<Work>)
    requires p.tx.Some? && p.connPool.Some? && 0 <= k < |p.tx.value| && k < |p.connPool.value|
    requires p.connPool.value[k].Some?
  {
    var h := p.connPool.value[k].value;
    var (tx, events) := Alone(p.tx.value[k], h, Begun(p.server, h), works);
    && q.tx.Some? && k < |q.tx.value| && q.connPool == p.connPool
    && q.tx.value[k] == tx
    && History(q.server.log, h) == History(p.server.log, h) + events
  }

  lemma OneMoreAlone(p: Pool, next: Pool, q: Pool, k: int, mine: bool, work: Work, works: seq<Work>)
    requires p.tx.Some? && p.connPool.Some? && 0 <= k < |p.tx.value| && k < |p.connPool.value|
    requires p.connPool.value[k].Some?
    requires SlotStep(p, next, k, mine, work) && WentAlone(next, q, k, works)
    ensures WentAlone(p, q, k, (if mine then [work] else []) + works)
  {
    var h := p.connPool.value[k].value;
    if mine {
      assert ([work] + works)[1..] == works;
      var (_, event, _) := Effect(p.tx.value[k], h, Begun(p.server, h), work);
      var (_, events) := Alone(next.tx.value[k], h, Begun(next.server, h), works);
      var first := if event.Some? then [event.value] else [];
      assert (History(p.server.log, h) + first) + events == History(p.server.log, h) + (first + events);
    } else {
      assert [] + works == works;
    }
  }

  /** Interleaving work on many connections changes nothing for any of them: each slot ends with the
      transaction, and each connection sees the events, of that slot's work done alone. */
  lemma {:induction false} SessionAffinity(p: Pool, requests: seq<Request>, k: int)
    requires Inv(p) && p.tx.Some? && 0 <= k < p.numConns
    ensures WentAlone(p, AfterCalls(p, WorkCalls(requests)), k, WorkOf(requests, k, p.numConns))
    decreases |requests|
  {
    if requests == [] {
      var h := p.connPool.value[k].value;
      assert History(p.server.log, h) + [] == History(p.server.log, h);
    } else {
      var (which, work) := requests[0];
      var more := requests[1..];
      var next := Worked(p, which, work).0;
      OneRequest(p, which, work, k);
      SessionAffinity(next, more, k);
      FirstCall(p, requests);
      var mine := ValidateConnNum(which, p.numConns) == Some(k);
      OneMoreAlone(p, next, AfterCalls(next, WorkCalls(more)), k, mine, work, WorkOf(more, k, p.numConns));
    }
  }

  lemma FirstCall(p: Pool, requests: seq<Request>)
    requires requests != []
    ensures AfterCalls(p, WorkCalls(requests))
         == AfterCalls(Worked(p, requests[0].0, requests[0].1).0, WorkCalls(requests[1..]))
  {
    assert WorkCalls(requests)[1..] == WorkCalls(requests[1..]);
  }
}
