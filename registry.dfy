/**
 * The session registry of term_conn/reg.go: a map from session name to the
 * running session. The mutex makes every operation atomic; each method here
 * is one such atomic step.
 */
module Registry {

  import opened Wrappers
  import opened Broadcast

  /** A registered session as the registry and its visitors see it: the *TermConn's identity, Name and Ip. */
  datatype SessionRef = SessionRef(id: nat, name: string, ip: string)

  const NotFound: string := "not found"

  class Registry {
    var players: map<string, SessionRef>
    /** Viewer sockets sent on a session's viewer channel, in order. */
    var delivered: seq<(SessionRef, Socket)>

    /** The package-level `var registry Registry`, before init. */
    constructor ()
      ensures players == map[] && delivered == []
    {
      players := map[];
      delivered := [];
    }

    /** init: a fresh, empty map. */
    method Init()
      modifies this`players
      ensures players == map[]
    {
      players := map[];
    }

    /** addPlayer: the first session under a name wins; a duplicate is skipped. */
    method AddPlayer(tc: SessionRef)
      modifies this`players
      ensures tc.name in old(players) ==> players == old(players)
      ensures tc.name !in old(players) ==> players == old(players)[tc.name := tc]
    {
      if tc.name in players {
        // already exists in the dispatcher, skip registration
      } else {
        players := players[tc.name := tc];
      }
    }

    /** removePlayer: nil iff the name was registered; afterwards it is not, and nothing else changed. */
    method RemovePlayer(name: string) returns (err: Option<string>)
      modifies this`players
      ensures err == (if name in old(players) then None else Some(NotFound))
      ensures players == old(players) - {name}
    {
      err := Some(NotFound);
      if name in players {
        players := players - {name};
        err := None;
      }
    }

    /** sendToPlayer: true iff the name is registered; only then is the socket handed to that session. */
    method SendToPlayer(name: string, ws: Socket) returns (ok: bool)
      modifies this`delivered
      ensures ok == (name in players)
      ensures delivered == old(delivered) + (if ok then [(players[name], ws)] else [])
    {
      ok := name in players;
      if ok {
        delivered := delivered + [(players[name], ws)];
      }
    }

    /**
     * ForEachSession: the visitor is called once per registered session. The
     * visit order is the map's (unspecified) iteration order; `order` gives
     * the names in the order their sessions were visited.
     */
    method ForEachSession() returns (order: seq<string>, visited: seq<SessionRef>)
      ensures |order| == |players| && |visited| == |order|
      ensures forall i, j :: 0 <= i < j < |order| ==> order[i] != order[j]
      ensures forall k :: k in players <==> k in order
      ensures forall i :: 0 <= i < |order| ==> order[i] in players && visited[i] == players[order[i]]
    {
      var remaining := players.Keys;
      order, visited := [], [];
      while remaining != {}
        invariant remaining <= players.Keys
        invariant forall k :: k in players ==> (k in remaining <==> k !in order)
        invariant forall k :: k in order ==> k in players
        invariant forall i, j :: 0 <= i < j < |order| ==> order[i] != order[j]
        invariant |order| + |remaining| == |players.Keys|
        invariant |visited| == |order|
        invariant forall i :: 0 <= i < |order| ==> visited[i] == players[order[i]]
        decreases |remaining|
      {
        var k :| k in remaining;
        order, visited := order + [k], visited + [players[k]];
        remaining := remaining - {k};
      }
    }
  }
}
