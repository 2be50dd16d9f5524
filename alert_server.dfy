/**
 * The alert distribution handler of alert.py: the CONNECTED_CLIENTS registry, the per-connection
 * handler (register, replay the backlog, serve requests, clean up) and `broadcast_alert`.
 * Connections are served one at a time; the accept loop and its threads are not modelled.
 */
module AlertServer {
  import opened Util
  import opened AlertsDb

  /** `{"type": "alert", "message": m}`, the only message the server sends. */
  datatype Msg = AlertMsg(message: string)

  /**
   * One `recv(1024)` as the handler sees it: an empty read; data on which the handler raises before
   * looking at a "type" (text `json.loads` rejects, or JSON that decodes to something other than an
   * object, so that `request['type']` raises TypeError); or a JSON object with its "type" and
   * "message" keys (absent keys are `None`).
   */
  datatype Inbound = Eof | Malformed | Json(kind: Option<string>, message: Option<string>)

  /** How a connection ends: the loop's `break` on an empty read, or an exception caught by `except`. */
  datatype Exit = EndOfStream | Raised

  /**
   * What one connection does: the messages it broadcast (in request order), the messages the
   * client itself received (backlog, replies and broadcasts, in order), and how it ended.
   */
  datatype Session = Session(published: seq<string>, received: seq<Msg>, exit: Exit)

  /** The `alert[1]` of every row, in order. */
  function Descriptions(rs: seq<AlertRecord>): seq<string> {
    seq(|rs|, i requires 0 <= i < |rs| => rs[i].description)
  }

  /** One alert message per string, in order. */
  function AlertMsgs(ps: seq<string>): seq<Msg> {
    seq(|ps|, i requires 0 <= i < |ps| => AlertMsg(ps[i]))
  }

  lemma AlertMsgsAppend(a: seq<string>, b: seq<string>)
    ensures AlertMsgs(a + b) == AlertMsgs(a) + AlertMsgs(b)
  {
  }

  /** `s` preceded by some broadcasts and some messages to the client. */
  function Then(published: seq<string>, received: seq<Msg>, s: Session): Session {
    Session(published + s.published, received + s.received, s.exit)
  }

  /** What one read does: stop the loop with an exit, or go on after some broadcasts and sends to the client. */
  datatype Step = Stop(exit: Exit) | Continue(published: seq<string>, received: seq<Msg>)

  /**
   * The dispatch of one read in `handle_alert_client`, where `latest` is what the latest-alert
   * lookup gives and `healthy` says whether sends to this client succeed.
   */
  function Dispatch(request: Inbound, latest: Query<Option<AlertRecord>>, healthy: bool): (r: Step)
    ensures Stops(request) ==> r.Stop?
    ensures Unrecognised(request) ==> r == Continue([], [])
    ensures r.Continue? ==> |r.published| <= 1 && |r.received| <= 1
    ensures r.Continue? && r.published != [] ==> request.Json? && request.kind == Some("alert")
  {
    match request
    case Eof => Stop(EndOfStream)
    case Malformed => Stop(Raised)
    case Json(kind, message) =>
      if kind.None? then Stop(Raised)  // request['type'] raises KeyError
      else if kind.value == "get_latest_alert" then
        match latest
        case Failed => Stop(Raised)
        case Ok(None) => Continue([], [])
        case Ok(Some(a)) => if healthy then Continue([], [AlertMsg(a.description)]) else Stop(Raised)
      else if kind.value == "alert" then
        var m := message.GetOr("");
        // the client is registered, so the broadcast reaches it too
        Continue([m], if healthy then [AlertMsg(m)] else [])
      else Continue([], [])
  }

  /** The request loop of `handle_alert_client` over the reads `inbound`; running out of reads counts as an empty read. */
  function Serve(inbound: seq<Inbound>, latest: Query<Option<AlertRecord>>, healthy: bool): Session
    decreases |inbound|
  {
    if inbound == [] then Session([], [], EndOfStream)
    else match Dispatch(inbound[0], latest, healthy)
      case Stop(exit) => Session([], [], exit)
      case Continue(published, received) => Then(published, received, Serve(inbound[1..], latest, healthy))
  }

  /** Each read broadcasts at most one message and sends the client at most one. */
  lemma {:induction false} ServeBounds(inbound: seq<Inbound>, latest: Query<Option<AlertRecord>>, healthy: bool)
    ensures |Serve(inbound, latest, healthy).published| <= |inbound|
    ensures |Serve(inbound, latest, healthy).received| <= |inbound|
    decreases |inbound|
  {
    if inbound != [] {
      ServeBounds(inbound[1..], latest, healthy);
    }
  }

  /** Serving from read `j` on is dispatching read `j` and then, unless it stops, serving the rest. */
  lemma ServeAt(inbound: seq<Inbound>, j: nat, latest: Query<Option<AlertRecord>>, healthy: bool)
    requires j < |inbound|
    ensures var step := Dispatch(inbound[j], latest, healthy);
      Serve(inbound[j..], latest, healthy) ==
        if step.Stop? then Session([], [], step.exit)
        else Then(step.published, step.received, Serve(inbound[j + 1..], latest, healthy))
  {
    assert inbound[j..][0] == inbound[j];
    assert inbound[j..][1..] == inbound[j + 1..];
  }

  lemma ThenThen(p1: seq<string>, r1: seq<Msg>, p2: seq<string>, r2: seq<Msg>, s: Session)
    ensures Then(p1, r1, Then(p2, r2, s)) == Then(p1 + p2, r1 + r2, s)
  {
    assert p1 + (p2 + s.published) == (p1 + p2) + s.published;
    assert r1 + (r2 + s.received) == (r1 + r2) + s.received;
  }

  /** A connection's whole life: replay `backlog` (a failed send or query ends it), then serve `inbound`. */
  function Connection(backlog: Query<seq<AlertRecord>>, latest: Query<Option<AlertRecord>>,
                      inbound: seq<Inbound>, healthy: bool): (r: Session)
    ensures backlog.Failed? ==> r == Session([], [], Raised)
    ensures backlog.Ok? && (healthy || backlog.value == []) ==>
      |backlog.value| <= |r.received| && r.published == Serve(inbound, latest, healthy).published
  {
    match backlog
    case Failed => Session([], [], Raised)
    case Ok(rs) =>
      if rs != [] && !healthy then Session([], [], Raised)
      else Then([], AlertMsgs(Descriptions(rs)), Serve(inbound, latest, healthy))
  }

  /** A read after which the loop stops whatever follows. */
  predicate Stops(m: Inbound) {
    m.Eof? || m.Malformed? || (m.Json? && m.kind.None?)
  }

  /** A request of a kind the handler does not recognise. */
  predicate Unrecognised(m: Inbound) {
    m.Json? && m.kind.Some? && m.kind.value != "get_latest_alert" && m.kind.value != "alert"
  }

  /** The messages of the `alert` requests, in order. */
  function AlertRequests(inbound: seq<Inbound>): seq<string> {
    if inbound == [] then []
    else if inbound[0].Json? && inbound[0].kind == Some("alert")
    then [inbound[0].message.GetOr("")] + AlertRequests(inbound[1..])
    else AlertRequests(inbound[1..])
  }

  /** Nothing after an empty read, a malformed read or a request without "type" is ever read. */
  lemma {:induction false} ServeStopsAt(a: seq<Inbound>, m: Inbound, b1: seq<Inbound>, b2: seq<Inbound>,
                                        latest: Query<Option<AlertRecord>>, healthy: bool)
    requires Stops(m)
    ensures Serve(a + [m] + b1, latest, healthy) == Serve(a + [m] + b2, latest, healthy)
  {
    if a != [] {
      assert (a + [m] + b1)[1..] == a[1..] + [m] + b1;
      assert (a + [m] + b2)[1..] == a[1..] + [m] + b2;
      ServeStopsAt(a[1..], m, b1, b2, latest, healthy);
    }
  }

  /** A request whose type is not recognised is ignored and the loop goes on. */
  lemma {:induction false} ServeIgnoresUnrecognised(a: seq<Inbound>, m: Inbound, b: seq<Inbound>,
                                                    latest: Query<Option<AlertRecord>>, healthy: bool)
    requires Unrecognised(m)
    ensures Serve(a + [m] + b, latest, healthy) == Serve(a + b, latest, healthy)
  {
    if a == [] {
      assert a + [m] + b == [m] + b && a + b == b;
      assert ([m] + b)[1..] == b;
    } else {
      assert (a + [m] + b)[1..] == a[1..] + [m] + b;
      assert (a + b)[1..] == a[1..] + b;
      ServeIgnoresUnrecognised(a[1..], m, b, latest, healthy);
    }
  }

  /**
   * While no read stops the loop, and the lookup works for every `get_latest_alert` request there
   * is, the connection broadcasts exactly the messages of its `alert` requests, in order, and ends
   * at the end of the stream.
   */
  lemma {:induction false} ServePublishesAlertRequests(inbound: seq<Inbound>, latest: Query<Option<AlertRecord>>, healthy: bool)
    requires forall i :: 0 <= i < |inbound| ==> !Stops(inbound[i])
    requires forall i :: 0 <= i < |inbound| && inbound[i].Json? && inbound[i].kind == Some("get_latest_alert") ==>
      latest.Ok? && (healthy || latest.value.None?)
    ensures Serve(inbound, latest, healthy).published == AlertRequests(inbound)
    ensures Serve(inbound, latest, healthy).exit == EndOfStream
  {
    if inbound != [] {
      assert !Stops(inbound[0]);
      ServePublishesAlertRequests(inbound[1..], latest, healthy);
    }
  }

  /**
   * A healthy client of a backlog that could be read first receives one message per stored alert,
   * carrying its description, in the order the query returned them.
   */
  lemma BacklogFirst(rs: seq<AlertRecord>, latest: Query<Option<AlertRecord>>, inbound: seq<Inbound>)
    ensures var s := Connection(Ok(rs), latest, inbound, true);
      |rs| <= |s.received| &&
      forall i :: 0 <= i < |rs| ==> s.received[i] == AlertMsg(rs[i].description)
  {
  }

  /**
   * With the lookup that alerts_db.py would need, a `get_latest_alert` request leaves the
   * connection open: the reply (if an alert exists) is followed by the rest of the session.
   */
  lemma GetLatestKeepsOpen(store: AlertStore, m: Option<string>, rest: seq<Inbound>)
    requires store.Valid() && store.tableExists
    ensures var latest := store.LatestAlert();
      Serve([Json(Some("get_latest_alert"), m)] + rest, latest, true) ==
        Then([], if store.rows == [] then [] else [AlertMsg(store.rows[|store.rows| - 1].description)],
             Serve(rest, latest, true))
  {
    assert ([Json(Some("get_latest_alert"), m)] + rest)[1..] == rest;
  }

  /**
   * As written, alert.py calls `alerts_db.get_latest_alert`, which alerts_db.py does not define:
   * the lookup raises AttributeError (`Failed`) and every such request closes the connection.
   */
  lemma GetLatestAsWrittenCloses(m: Option<string>, rest: seq<Inbound>, healthy: bool)
    ensures Serve([Json(Some("get_latest_alert"), m)] + rest, Failed, healthy) == Session([], [], Raised)
  {
  }

  /** A client transport; whether its sends fail is fixed for its lifetime. */
  class Socket {
    /** The messages delivered so far. */
    var outbox: seq<Msg>
    var closed: bool
    const sendFails: bool

    constructor (sendFails: bool)
      ensures outbox == [] && !closed && this.sendFails == sendFails
    {
      outbox, closed, this.sendFails := [], false, sendFails;
    }

    predicate Healthy()
      reads this
    {
      !sendFails && !closed
    }

    /** `send`: delivers `m`, or raises (`ok` false) on a broken or closed socket. */
    method Send(m: Msg) returns (ok: bool)
      modifies this
      ensures ok == old(Healthy()) && closed == old(closed)
      ensures outbox == if ok then old(outbox) + [m] else old(outbox)
    {
      ok := Healthy();
      if ok {
        outbox := outbox + [m];
      }
    }

    method Close()
      modifies this
      ensures closed && outbox == old(outbox)
    {
      closed := true;
    }
  }

  /** The state of alert.py: CONNECTED_CLIENTS and the alert store it reads. */
  class Server {
    const store: AlertStore
    /** CONNECTED_CLIENTS, in registration order. */
    var clients: seq<Socket>

    constructor (store: AlertStore)
      ensures this.store == store && clients == []
    {
      this.store, clients := store, [];
    }

    /** Every accepted socket is registered once. */
    ghost predicate Valid()
      reads this
    {
      NoDup(clients)
    }

    function Sockets(): set<Socket>
      reads this
    {
      set c | c in clients
    }

    /**
     * `broadcast_alert`: tries every registered client in list order; a failing send is caught,
     * the remaining clients are still tried, and the list is left as it was.
     */
    method BroadcastAlert(message: string)
      requires Valid()
      modifies Sockets()
      ensures forall k :: 0 <= k < |clients| ==>
        clients[k].outbox == old(clients[k].outbox) + (if !clients[k].sendFails && !old(clients[k].closed) then [AlertMsg(message)] else []) &&
        clients[k].closed == old(clients[k].closed)
    {
      var i := 0;
      while i < |clients|
        invariant 0 <= i <= |clients|
        invariant forall k :: 0 <= k < i ==>
          clients[k].outbox == old(clients[k].outbox) + (if !clients[k].sendFails && !old(clients[k].closed) then [AlertMsg(message)] else []) &&
          clients[k].closed == old(clients[k].closed)
        invariant forall k :: i <= k < |clients| ==>
          clients[k].outbox == old(clients[k].outbox) && clients[k].closed == old(clients[k].closed)
      {
        var _ := clients[i].Send(AlertMsg(message));
        i := i + 1;
      }
    }

    /** The backlog replay of `handle_alert_client`; it runs only once the client is registered. */
    method SendBacklog(sock: Socket, backlog: seq<AlertRecord>) returns (ok: bool)
      requires sock in clients
      modifies sock
      ensures ok == (backlog == [] || old(sock.Healthy()))
      ensures sock.closed == old(sock.closed)
      ensures sock.outbox == old(sock.outbox) + (if ok then AlertMsgs(Descriptions(backlog)) else [])
    {
      ok := true;
      var i := 0;
      while i < |backlog|
        invariant 0 <= i <= |backlog|
        invariant ok && sock.closed == old(sock.closed)
        invariant i > 0 ==> old(sock.Healthy())
        invariant sock.outbox == old(sock.outbox) + AlertMsgs(Descriptions(backlog[..i]))
      {
        var sent := sock.Send(AlertMsg(backlog[i].description));
        if !sent {
          ok := false;
          return;
        }
        assert Descriptions(backlog[..i + 1]) == Descriptions(backlog[..i]) + [backlog[i].description];
        AlertMsgsAppend(Descriptions(backlog[..i]), [backlog[i].description]);
        i := i + 1;
      }
      assert backlog[..i] == backlog;
    }

    /** One turn of the request loop of `handle_alert_client`; `stop` ends the loop. */
    method HandleRequest(sock: Socket, ghost others: seq<Socket>, request: Inbound, latest: Query<Option<AlertRecord>>)
      returns (stop: bool, ghost step: Step)
      requires Valid() && clients == others + [sock] && !sock.closed
      modifies Sockets()
      ensures step == Dispatch(request, latest, old(sock.Healthy())) && stop == step.Stop?
      ensures !sock.closed
      ensures sock.outbox == old(sock.outbox) + (if step.Continue? then step.received else [])
      ensures forall k :: 0 <= k < |others| ==>
        others[k].outbox == old(others[k].outbox) + (if !others[k].sendFails && !old(others[k].closed) && step.Continue? then AlertMsgs(step.published) else []) &&
        others[k].closed == old(others[k].closed)
    {
      forall k | 0 <= k < |others| ensures clients[k] == others[k] && others[k] != sock {
        assert clients[k] != clients[|others|];
      }
      step := Dispatch(request, latest, sock.Healthy());
      stop := false;
      if request.Eof? || request.Malformed? || request.kind.None? {
        stop := true;
      } else if request.kind.value == "get_latest_alert" {
        if latest.Failed? {
          stop := true;
        } else if latest.value.Some? {
          var sent := sock.Send(AlertMsg(latest.value.value.description));
          stop := !sent;
        }
      } else if request.kind.value == "alert" {
        BroadcastAlert(request.message.GetOr(""));
        assert clients[|others|] == sock;
      }
    }

    /**
     * The `while True` request loop of `handle_alert_client` for a registered client: it stops at
     * an empty read or at the first exception, and `exit` says which. Registration is untouched.
     */
    method ServeRequests(sock: Socket, ghost others: seq<Socket>, inbound: seq<Inbound>, latest: Query<Option<AlertRecord>>)
      returns (ghost exit: Exit)
      requires Valid() && clients == others + [sock] && !sock.closed
      modifies Sockets()
      ensures !sock.closed
      ensures var s := Serve(inbound, latest, old(sock.Healthy()));
        && exit == s.exit
        && sock.outbox == old(sock.outbox) + s.received
        && forall k :: 0 <= k < |others| ==>
             others[k].outbox == old(others[k].outbox) + (if !others[k].sendFails && !old(others[k].closed) then AlertMsgs(s.published) else []) &&
             others[k].closed == old(others[k].closed)
    {
      ghost var healthy := sock.Healthy();
      ghost var pubs: seq<string> := [];
      ghost var msgs: seq<Msg> := [];
      exit := EndOfStream;
      var j := 0;
      while j < |inbound|
        invariant 0 <= j <= |inbound|
        invariant !sock.closed && sock.outbox == old(sock.outbox) + msgs
        invariant Serve(inbound, latest, healthy) == Then(pubs, msgs, Serve(inbound[j..], latest, healthy))
        invariant forall k :: 0 <= k < |others| ==>
          others[k].outbox == old(others[k].outbox) + (if !others[k].sendFails && !old(others[k].closed) then AlertMsgs(pubs) else []) &&
          others[k].closed == old(others[k].closed)
      {
        ServeAt(inbound, j, latest, healthy);
        var stop, step := HandleRequest(sock, others, inbound[j], latest);
        if stop {
          exit := step.exit;
          break;
        }
        ThenThen(pubs, msgs, step.published, step.received, Serve(inbound[j + 1..], latest, healthy));
        AlertMsgsAppend(pubs, step.published);
        pubs, msgs := pubs + step.published, msgs + step.received;
        j := j + 1;
      }
      assert Serve(inbound, latest, healthy) == Session(pubs, msgs, exit);
    }

    /**
     * The body of the `try` in `handle_alert_client`: replay the backlog, then serve requests;
     * an exception or an empty read ends it. Registration is untouched.
     */
    method Converse(sock: Socket, ghost others: seq<Socket>, inbound: seq<Inbound>,
                    backlog: Query<seq<AlertRecord>>, latest: Query<Option<AlertRecord>>) returns (ghost session: Session)
      requires Valid() && clients == others + [sock] && !sock.closed
      modifies Sockets()
      ensures session == Connection(backlog, latest, inbound, old(sock.Healthy()))
      ensures !sock.closed && sock.outbox == old(sock.outbox) + session.received
      ensures forall k :: 0 <= k < |others| ==>
        others[k].outbox == old(others[k].outbox) + (if !others[k].sendFails && !old(others[k].closed) then AlertMsgs(session.published) else []) &&
        others[k].closed == old(others[k].closed)
    {
      ghost var healthy := sock.Healthy();
      assert AlertMsgs([]) == [];
      forall k | 0 <= k < |others| ensures others[k] != sock {
        assert clients[k] != clients[|others|];
      }
      if backlog.Failed? {
        session := Session([], [], Raised);
        return;
      }
      var ok := SendBacklog(sock, backlog.value);
      if !ok {
        session := Session([], [], Raised);
        return;
      }
      var exit := ServeRequests(sock, others, inbound, latest);
      session := Then([], AlertMsgs(Descriptions(backlog.value)), Serve(inbound, latest, healthy));
      assert session.published == Serve(inbound, latest, healthy).published;
    }

    /** `CONNECTED_CLIENTS.append(sock)`. */
    method Register(sock: Socket)
      requires Valid() && sock !in clients
      modifies this
      ensures Valid() && clients == old(clients) + [sock]
    {
      clients := clients + [sock];
    }

    /** The `finally` clause of `handle_alert_client`: unregister the client if it is registered, then close it. */
    method Release(sock: Socket)
      requires Valid()
      modifies this, sock
      ensures Valid() && sock !in clients
      ensures clients == if sock in old(clients) then RemoveFirst(old(clients), sock) else old(clients)
      ensures sock.closed && sock.outbox == old(sock.outbox)
    {
      if sock in clients {
        RemoveFirstNoDup(clients, sock);
        clients := RemoveFirst(clients, sock);
      }
      sock.Close();
    }

    /**
     * `handle_alert_client(sock)` where the client's reads are `inbound`: register, replay the
     * backlog, serve requests until the stream ends or something raises, then on every exit path
     * unregister and close. Every other registered client receives the session's broadcasts.
     */
    method HandleAlertClient(sock: Socket, inbound: seq<Inbound>)
      requires Valid() && store.Valid()
      requires sock !in clients && !sock.closed
      modifies this, sock, Sockets()
      ensures Valid()
      ensures clients == old(clients) && sock.closed
      ensures unchanged(store)
      ensures var s := Connection(store.WeatherAlerts(), store.LatestAlert(), inbound, old(sock.Healthy()));
        && sock.outbox == old(sock.outbox) + s.received
        && forall k :: 0 <= k < |clients| ==>
             clients[k].outbox == old(clients[k].outbox) + (if !clients[k].sendFails && !old(clients[k].closed) then AlertMsgs(s.published) else []) &&
             clients[k].closed == old(clients[k].closed)
    {
      ghost var before := clients;
      Register(sock);
      ghost var s := Converse(sock, before, inbound, store.WeatherAlerts(), store.LatestAlert());
      RemoveFirstAppended(before, sock);
      Release(sock);
    }
  }
}
