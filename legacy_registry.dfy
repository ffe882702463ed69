/**
 * The registry of the older single-session server (reg.go): the same map
 * from name to session as the session relay's registry, but every operation
 * takes the name as an explicit key instead of reading it off the session.
 */
module LegacyRegistry {

  import opened Wrappers
  import opened Broadcast

  /** A registered *TermConn, identified by the connection it belongs to. */
  datatype LegacyRef = LegacyRef(id: nat)

  const NotFound: string := "not found"

  class LegacyRegistry {
    var players: map<string, LegacyRef>
    /** Viewer sockets sent on a session's vchan, in order. */
    var delivered: seq<(LegacyRef, Socket)>

    /** The package-level `var registry Registry`, before init. */
    constructor ()
      ensures players == map[] && delivered == []
    {
      players := map[];
      delivered := [];
    }

    /** init: a fresh, empty map. */
    method Init()
      modifies this`players
      ensures players == map[]
    {
      players := map[];
    }

    /** addPlayer(name, tc): the entry already under `name` is kept; otherwise `tc` is stored under it. */
    method AddPlayer(name: string, tc: LegacyRef)
      modifies this`players
      ensures name in old(players) ==> players == old(players)
      ensures name !in old(players) ==> players == old(players)[name := tc]
    {
      if name in players {
        // already exists in the dispatcher, skip registration
      } else {
        players := players[name := tc];
      }
    }

    /** removePlayer: nil iff the name was registered; only that key is deleted. */
    method RemovePlayer(name: string) returns (err: Option<string>)
      modifies this`players
      ensures err == (if name in old(players) then None else Some(NotFound))
      ensures players == old(players) - {name}
    {
      err := Some(NotFound);
      if name in players {
        players := players - {name};
        err := None;
      }
    }

    /** sendToPlayer: true iff the name is registered; only then is the socket handed over. The map is not touched. */
    method SendToPlayer(name: string, ws: Socket) returns (ok: bool)
      modifies this`delivered
      ensures ok == (name in players)
      ensures delivered == old(delivered) + (if ok then [(players[name], ws)] else [])
    {
      ok := name in players;
      if ok {
        delivered := delivered + [(players[name], ws)];
      }
    }
  }
}
