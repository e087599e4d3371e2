/** `DBConn` and its driver as the objects the source has; every method is proved against the pool functions. */
module DbConns {
  import opened Wrappers
  import opened ConnectionString
  import opened Sessions
  import opened ConnectionPool

  /** The driver, with the server it talks to. */
  class Driver {
    var server: Server

    constructor ()
      ensures server == NewPool().server
    {
      server := NewPool().server;
    }

    method Connect(dsn: string, outcome: Dial) returns (conn: Option<Handle>)
      modifies this
      ensures (server, conn) == DialServer(old(server), dsn, outcome)
    {
      server := server.(dialed := server.dialed + [dsn]);
      if outcome.OpenFails? {
        return None;
      }
      var db := server.next;
      server := server.(open := server.open + {db}, next := db + 1, begun := server.begun[db := 0]);
      if outcome.PingFails? {
        Close(db);
        return None;
      }
      return Some(db);
    }

    method Close(conn: Handle)
      modifies this
      ensures server == CloseHandle(old(server), conn)
    {
      server := server.(open := server.open - {conn});
    }
  }

  class DBConn {
    var connPool: Option<seq<Option<Handle>>>
    var numConns: int
    var tx: Option<seq<Option<Tx>>>
    var version: string
    const driver: Driver
    const user: string
    const dbname: string
    const host: string
    const port: int

    ghost function View(): Pool
      reads this, driver
    {
      Pool(connPool, tx, numConns, version, driver.server)
    }

    constructor (dbname: string, user: string, host: string, port: int, driver: Driver)
      ensures this.driver == driver && this.dbname == dbname && this.user == user
      ensures this.host == host && this.port == port
      ensures View() == Pool(None, None, 0, "", driver.server)
    {
      this.dbname, this.user, this.host, this.port, this.driver := dbname, user, host, port, driver;
      connPool, tx, numConns, version := None, None, 0, "";
    }

    /** `krbsrvname` and `sslmode` are the values of the environment variables. */
    method Connect(numConns: int, utilityMode: seq<bool>, krbsrvname: string, sslmode: string, env: Env)
      returns (error: Option<Error>)
      modifies this, driver
      ensures var connStr := ConnStr(Parameters(user, dbname, krbsrvname, host, port, sslmode));
        (View(), error) == Connected(old(View()), connStr, numConns, utilityMode, env)
    {
      if numConns < 1 {
        return Some(SizeNotPositive);
      }
      if connPool.Some? {
        return Some(StillOpen);
      }
      var connStr := ConnStr(Parameters(user, dbname, krbsrvname, host, port, sslmode));
      connPool := Some(Nils(numConns));
      if |utilityMode| > 1 {
        return Some(BadUtilityMode);
      } else if |utilityMode| == 1 && utilityMode[0] {
        var found := UtilityModeConnStr(connStr, env.probe);
        if found.None? {
          return Some(DialFailed);
        }
        connStr := found.value;
      }
      ghost var start := View();
      for i := 0 to numConns
        invariant connPool.Some? && |connPool.value| == numConns
        invariant View() == start.(connPool := connPool, server := driver.server)
        invariant DialAll(start.server, Nils(numConns), 0, connStr, env.dials)
               == DialAll(driver.server, connPool.value, i, connStr, env.dials)
      {
        var conn := driver.Connect(connStr, env.dials(i));
        if conn.None? {
          return Some(DialFailed);
        }
        connPool := Some(connPool.value[i := conn]);
      }
      tx := Some(Nils(numConns));
      this.numConns := numConns;
      var _ := Exec(VERSION_QUERY, [], env.answers);
      if !env.answers || env.version.None? {
        return Some(VersionUnknown);
      }
      version := env.version.value;
      return None;
    }

    method UtilityModeConnStr(connStr: string, probe: Dial) returns (dsn: Option<string>)
      modifies driver
      ensures (driver.server, dsn) == UtilityMode(old(driver.server), connStr, probe)
    {
      var roleConnStr := connStr + ROLE;
      var sessionRoleConnStr := connStr + SESSION_ROLE;
      var utilConn := driver.Connect(sessionRoleConnStr, probe);
      if utilConn.Some? {
        driver.Close(utilConn.value);
        return Some(sessionRoleConnStr);
      }
      if probe.PingFails? && probe.unknownSessionRole {
        return Some(roleConnStr);
      }
      return None;
    }

    method Close()
      modifies this, driver
      ensures View() == Closed(old(View()))
    {
      if connPool.Some? {
        var conns := connPool.value;
        ghost var start := driver.server;
        assert conns[0..] == conns;
        for i := 0 to |conns|
          invariant View() == old(View()).(server := driver.server)
          invariant CloseAll(start, conns) == CloseAll(driver.server, conns[i..])
        {
          assert conns[i..][1..] == conns[i + 1..];
          if conns[i].Some? {
            driver.Close(conns[i].value);
          }
        }
        connPool := None;
        tx := None;
        numConns := 0;
      }
    }

    method Begin(which: seq<int>, ok: bool) returns (outcome: Outcome)
      modifies this, driver
      ensures (View(), outcome) == Worked(old(View()), which, Work.Begin(ok))
    {
      var valid := ValidateConnNum(which, numConns);
      if valid.None? || !HasSlot(valid.value) {
        return Aborted;
      }
      var connNum := valid.value;
      if tx.value[connNum].Some? {
        assert tx.value[connNum := tx.value[connNum]] == tx.value;
        return Returned(Some(InProgress));
      }
      var h := connPool.value[connNum].value;
      var begun := Begun(driver.server, h);
      if !ok {
        driver.server := Record(driver.server, BeginFailed(h));
        assert tx.value[connNum := None] == tx.value;
        return Returned(Some(DriverError));
      }
      driver.server := Record(driver.server, Began(h, Tx(h, begun))).(begun := driver.server.begun[h := begun + 1]);
      tx := Some(tx.value[connNum := Some(Tx(h, begun))]);
      return Returned(None);
    }

    method Commit(which: seq<int>, ok: bool) returns (outcome: Outcome)
      modifies this, driver
      ensures (View(), outcome) == Worked(old(View()), which, Work.Commit(ok))
    {
      var valid := ValidateConnNum(which, numConns);
      if valid.None? || !HasSlot(valid.value) {
        return Aborted;
      }
      assert tx.value[valid.value := tx.value[valid.value]] == tx.value;
      outcome := End(valid.value, true, ok);
    }

    method Rollback(which: seq<int>, ok: bool) returns (outcome: Outcome)
      modifies this, driver
      ensures (View(), outcome) == Worked(old(View()), which, Work.Rollback(ok))
    {
      var valid := ValidateConnNum(which, numConns);
      if valid.None? || !HasSlot(valid.value) {
        return Aborted;
      }
      assert tx.value[valid.value := tx.value[valid.value]] == tx.value;
      outcome := End(valid.value, false, ok);
    }

    /** The common part of `Commit` and `Rollback`: whatever the driver answers, the slot is emptied. */
    method End(connNum: nat, commit: bool, ok: bool) returns (outcome: Outcome)
      requires Usable(View(), connNum)
      modifies this, driver
      ensures View() == old(View()).(tx := tx, server := driver.server)
      ensures var h := connPool.value[connNum].value; var slot := old(tx).value[connNum];
        if slot.None? then
          View() == old(View()) && outcome == Returned(Some(NotInProgress))
        else
          && tx == Some(old(tx).value[connNum := None])
          && driver.server == Record(old(driver.server), Ended(h, slot.value, commit, ok))
          && outcome == Returned(if ok then None else Some(DriverError))
    {
      if tx.value[connNum].None? {
        return Returned(Some(NotInProgress));
      }
      var h := connPool.value[connNum].value;
      driver.server := Record(driver.server, Ended(h, tx.value[connNum].value, commit, ok));
      tx := Some(tx.value[connNum := None]);
      return Returned(if ok then None else Some(DriverError));
    }

    /** Dispatch of a statement: to the transaction in progress, or else to the connection, whose answer is
        passed on. */
    method Exec(statement: string, which: seq<int>, ok: bool) returns (outcome: Outcome)
      modifies driver
      ensures (View(), outcome) == Worked(old(View()), which, Run(statement, ok))
    {
      var valid := ValidateConnNum(which, numConns);
      if valid.None? || !HasSlot(valid.value) {
        return Aborted;
      }
      var connNum := valid.value;
      var h := connPool.value[connNum].value;
      if tx.value[connNum].Some? {
        driver.server := Record(driver.server, Ran(h, Some(tx.value[connNum].value), statement, ok));
      } else {
        driver.server := Record(driver.server, Ran(h, None, statement, ok));
      }
      assert tx.value[connNum := tx.value[connNum]] == tx.value;
      return Returned(if ok then None else Some(DriverError));
    }

    /** Indexing the slices does not panic and finds a connection. */
    predicate HasSlot(k: int)
      reads this, driver
      ensures HasSlot(k) == Usable(View(), k)
    {
      && tx.Some? && 0 <= k < |tx.value|
      && connPool.Some? && k < |connPool.value| && connPool.value[k].Some?
    }
  }
}
