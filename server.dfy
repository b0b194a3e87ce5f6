/**
  The threaded server (`Server` in pyglet/net/__init__.py): an `_alive` flag
  whose setting ends the accept loop, a listening socket, and the events it
  dispatches: on_connection for every accepted socket, wrapped in a new
  blocking connection, and on_disconnect when the loop ends.
*/
module Servers {
  import opened Sockets
  import opened Blocking

  /** One accept() on the listening socket: a new peer, or an OSError. */
  datatype Incoming = Peer(sock: Sock) | AcceptFault(error: Error)

  /**
    The listening socket: open or closed, and what its accept() calls return
    in turn. Once the script is used up, accept fails as it does when another
    thread closes the socket.
  */
  datatype Listener = Listener(open: bool, pending: seq<Incoming>)

  datatype Accepted = Accepted(result: Result<Sock>, listener: Listener)

  function AcceptNext(l: Listener): Accepted
  {
    if !l.open then Accepted(Err(BadDescriptor), l)
    else if l.pending == [] then Accepted(Err(BadDescriptor), l)
    else match l.pending[0]
      case Peer(s) => Accepted(Ok(s), l.(pending := l.pending[1..]))
      case AcceptFault(e) => Accepted(Err(e), l.(pending := l.pending[1..]))
  }

  /** The sockets the accept loop takes, in order, before accept first fails. */
  function AcceptedSockets(l: Listener): seq<Sock>
    decreases |l.pending|
  {
    var a := AcceptNext(l);
    if a.result.Err? then [] else [a.result.value] + AcceptedSockets(a.listener)
  }

  /** The listening socket once the accept loop has met its first failure. */
  function ListenerAfterLoop(l: Listener): Listener
    decreases |l.pending|
  {
    var a := AcceptNext(l);
    if a.result.Err? then a.listener else ListenerAfterLoop(a.listener)
  }

  /**
    On an open listening socket the loop accepts exactly the peers waiting
    ahead of the first failing accept, in order, and consumes that failure
    too; on a closed one it accepts nothing and consumes nothing.
  */
  lemma {:induction false} AcceptLoopTakesWaitingPeers(l: Listener)
    ensures var k := |AcceptedSockets(l)|;
      k <= |l.pending|
      && (forall i :: 0 <= i < k ==> l.pending[i] == Peer(AcceptedSockets(l)[i]))
      && (!l.open ==> k == 0 && ListenerAfterLoop(l) == l)
      && (l.open && k < |l.pending| ==> l.pending[k].AcceptFault?
                                        && ListenerAfterLoop(l) == l.(pending := l.pending[k + 1..]))
      && (l.open && k == |l.pending| ==> ListenerAfterLoop(l) == l.(pending := []))
    decreases |l.pending|
  {
    if l.open && l.pending != [] && l.pending[0].Peer? {
      var l' := l.(pending := l.pending[1..]);
      AcceptLoopTakesWaitingPeers(l');
      var k' := |AcceptedSockets(l')|;
      assert AcceptedSockets(l) == [l.pending[0].sock] + AcceptedSockets(l');
      if k' < |l.pending[1..]| {
        assert l.pending[1..][k' + 1..] == l.pending[k' + 2..];
      }
    } else if l.open && l.pending == [] {
      assert l.(pending := []) == l;
    }
  }

  /** An event the server dispatches: a new connection, or the end of the accept loop. */
  datatype ServerEvent = OnConnection(connection: Connection) | OnServerDisconnect

  class Server {
    /** Set once the server stops accepting: the source's `_alive` event, whose name reads the other way round. */
    var stopped: bool
    var listener: Listener
    var events: seq<ServerEvent>

    /** The listening socket is a parameter: create_server is operating-system I/O. */
    constructor (listener: Listener)
      ensures !stopped && this.listener == listener && events == []
    {
      stopped := false;
      this.listener := listener;
      events := [];
    }

    method Close()
      modifies this
      ensures stopped && listener == old(listener).(open := false) && events == old(events)
    {
      stopped := true;
      listener := listener.(open := false);
    }

    /**
      The accept thread's body: one new connection per accepted socket, in
      order, until accept fails or the flag is set; then on_disconnect.
    */
    method ReceiveConnections()
      modifies this
      ensures stopped
      ensures var peers := if old(stopped) then [] else AcceptedSockets(old(listener));
        |events| == |old(events)| + |peers| + 1 && events[..|old(events)|] == old(events)
        && events[|events| - 1] == OnServerDisconnect
        && (forall j :: |old(events)| <= j < |events| - 1 ==>
              events[j].OnConnection? && fresh(events[j].connection)
              && events[j].connection.State() == Initial(peers[j - |old(events)|]))
      ensures listener == if old(stopped) then old(listener) else ListenerAfterLoop(old(listener))
    {
      ghost var peers: seq<Sock> := [];
      while !stopped
        invariant old(stopped) ==> stopped && peers == [] && listener == old(listener)
        invariant !old(stopped) && !stopped ==>
                    AcceptedSockets(old(listener)) == peers + AcceptedSockets(listener)
                    && ListenerAfterLoop(listener) == ListenerAfterLoop(old(listener))
        invariant !old(stopped) && stopped ==>
                    AcceptedSockets(old(listener)) == peers && listener == ListenerAfterLoop(old(listener))
        invariant |events| == |old(events)| + |peers| && events[..|old(events)|] == old(events)
        invariant forall j :: |old(events)| <= j < |events| ==>
                    events[j].OnConnection? && fresh(events[j].connection)
                    && events[j].connection.State() == Initial(peers[j - |old(events)|])
        decreases |listener.pending| + (if stopped then 0 else 1)
      {
        var a := AcceptNext(listener);
        listener := a.listener;
        if a.result.Ok? {
          var connection := new Connection(a.result.value);
          events := events + [OnConnection(connection)];
          peers := peers + [a.result.value];
        } else {
          stopped := true;
        }
      }
      events := events + [OnServerDisconnect];
    }
  }
}
