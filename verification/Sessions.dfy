/** What the server sees on each connection, and what it means for that history to be well bracketed. */
module Sessions {
  import opened Wrappers

  /** One opened database handle; every one is limited to a single connection. */
  type Handle = nat

  /** A transaction: its handle, and how many were begun on that handle before it. */
  datatype Tx = Tx(conn: Handle, serial: nat)

  datatype Event =
    | Began(conn: Handle, tx: Tx)
    | BeginFailed(conn: Handle)
    | Ended(conn: Handle, tx: Tx, committed: bool, ok: bool)
    | Ran(conn: Handle, within: Option<Tx>, statement: string, ok: bool)

  /** The events of one connection, in order. */
  function History(log: seq<Event>, h: Handle): seq<Event> {
    if log == [] then []
    else
      var last := log[|log| - 1];
      History(log[..|log| - 1], h) + if last.conn == h then [last] else []
  }

  lemma HistoryGrows(log: seq<Event>, e: Event, h: Handle)
    ensures History(log + [e], h) == History(log, h) + if e.conn == h then [e] else []
  {
    assert (log + [e])[..|log|] == log;
  }

  /** One event of a session in which `open` is the transaction in progress; `None` if it does not fit. */
  function TrackOne(open: Option<Tx>, e: Event): Option<Option<Tx>> {
    match e
    case Began(_, tx) => if open.None? then Some(Some(tx)) else None
    case BeginFailed(_) => if open.None? then Some(open) else None
    case Ended(_, tx, _, _) => if open == Some(tx) then Some(None) else None
    case Ran(_, within, _, _) => if within == open then Some(open) else None
  }

  /** The transaction in progress after these events, or `None` if they are not well bracketed. */
  function Track(events: seq<Event>): Option<Option<Tx>> {
    if events == [] then Some(None)
    else
      match Track(events[..|events| - 1])
      case None => None
      case Some(open) => TrackOne(open, events[|events| - 1])
  }

  lemma TrackGrows(events: seq<Event>, e: Event)
    ensures Track(events + [e]) == match Track(events) case None => None case Some(open) => TrackOne(open, e)
  {
    assert (events + [e])[..|events|] == events;
  }

  lemma {:induction false} TrackPrefix(events: seq<Event>, n: nat)
    requires n <= |events| && Track(events).Some?
    ensures Track(events[..n]).Some?
    decreases |events|
  {
    if n < |events| {
      var front := events[..|events| - 1];
      assert front[..n] == events[..n];
      TrackPrefix(front, n);
    } else {
      assert events[..n] == events;
    }
  }

  /** No transaction ends between positions `i` and `j`. */
  predicate NoneEnds(events: seq<Event>, i: nat, j: nat)
    requires j <= |events|
  {
    forall m | i <= m < j :: !events[m].Ended?
  }

  lemma {:induction false} StaysOpen(events: seq<Event>, i: nat, j: nat)
    requires Track(events).Some? && i < j <= |events|
    requires events[i].Began? && NoneEnds(events, i, j)
    ensures Track(events[..j]) == Some(Some(events[i].tx))
    decreases j
  {
    TrackPrefix(events, j);
    assert events[..j][..j - 1] == events[..j - 1];
    if i + 1 < j {
      StaysOpen(events, i, j - 1);
    }
  }

  /** In a well-bracketed history every statement between a begin and the next end of a transaction runs in
      the transaction that was begun, and no other begin comes between. */
  lemma StatementsGoToTheirTransaction(events: seq<Event>, i: nat, j: nat)
    requires Track(events).Some? && i < j < |events|
    requires events[i].Began? && NoneEnds(events, i, j)
    ensures events[j].Ran? ==> events[j].within == Some(events[i].tx)
    ensures events[j].Ended? ==> events[j].tx == events[i].tx
    ensures !events[j].Began?
  {
    StaysOpen(events, i, j);
    TrackPrefix(events, j + 1);
    assert events[..j + 1][..j] == events[..j];
  }
}
