/**
 * The relay of the older single-session server (relay.go). One session named
 * "main" runs a read loop over the pty: each block read first takes at most
 * one waiting viewer, then goes to the primary socket and to every live
 * viewer. When the read fails the live viewers are closed, a close frame is
 * sent and the loop waits out a grace period.
 */
module LegacyRelay {

  import opened Wrappers
  import opened Text
  import opened Broadcast
  import opened BroadcastInvariant
  import LegacyRegistry

  /** The single session's name, in the registry and in every viewer lookup. */
  const MainName: string := "main"

  /** closeGracePeriod, in milliseconds. */
  const CloseGraceMs: nat := 10_000

  /** The wait between the interrupt and the kill in release, in milliseconds. */
  const KillGraceMs: nat := 1000

  const LegacyPtySteps: seq<Action> :=
    [PtyClose, Interrupt, Pause(KillGraceMs), Kill, Reap, CloseChannel("done"), CloseChannel("vchan")]

  /**
   * The upgrader's origin check: `origin` is the Origin header's host, or
   * None when url.Parse rejects the header; `host` is the configured host, if
   * any. The check passes iff a host is configured and it is that host.
   */
  predicate CheckOrigin(host: Option<string>, origin: Option<string>)
  {
    origin.Some? && host.Some? && host.value == origin.value
  }

  /** With no configured host every origin is refused; with one, exactly that host is accepted. */
  lemma CheckOriginAcceptsOnlyHost(host: Option<string>, origin: Option<string>)
    ensures host.None? ==> !CheckOrigin(host, origin)
    ensures origin.None? ==> !CheckOrigin(host, origin)
    ensures CheckOrigin(host, origin) <==> (host.Some? && origin == host)
  {
  }

  class LegacySession {
    const name: string

    /** tc.ptmx != nil */
    var hasPty: bool
    /** The read loop's `viewers` slice; None is a nil tombstone. */
    var viewers: seq<Option<Socket>>
    /** The read loop has not yet broken out. */
    var running: bool
    /** Everything done to sockets, the process and the registry, in order. */
    var trace: seq<Action>

    /** The blocks written to the primary socket so far. */
    ghost var blocks: seq<Bytes>
    /** For each slot, how many blocks had been written when it arrived. */
    ghost var joined: seq<nat>

    ghost predicate Valid()
      reads this
    {
      && SlotsOk(trace, blocks, joined, viewers, running)
      && PrimaryBlocks(trace) == blocks
    }

    constructor (name: string)
      ensures Valid()
      ensures this.name == name && !hasPty && viewers == [] && running && trace == []
    {
      this.name := name;
      hasPty, viewers, running, trace := false, [], true, [];
      blocks, joined := [], [];
      SlotsOkInitial();
    }

    /** createPty: on success the session owns a pty and a process. */
    method CreatePty(spawnOk: bool) returns (ok: bool)
      modifies this`hasPty
      ensures ok == spawnOk && hasPty == (old(hasPty) || spawnOk)
    {
      ok := spawnOk;
      if ok {
        hasPty := true;
      }
    }

    /** A viewer taken from vchan by the non-blocking receive: a new live slot that has seen nothing. */
    method TakeViewer(ws: Socket)
      requires Valid() && running
      modifies this`viewers, this`joined
      ensures Valid() && running
      ensures viewers == old(viewers) + [Some(ws)]
    {
      SlotsOkArrive(trace, blocks, joined, viewers, ws);
      viewers := viewers + [Some(ws)];
      joined := joined + [|blocks|];
    }

    /** Slot i's turn in the viewer loop: skipped when nil, else written and, on failure, set to nil and closed. */
    method WriteSlot(i: nat, b: Bytes, failing: set<nat>)
      requires i < |viewers|
      modifies this`viewers, this`trace
      ensures trace == old(trace) + SlotActions(i, old(viewers)[i], failing, b)
      ensures viewers == old(viewers)[i := if i in failing then None else old(viewers)[i]]
    {
      if viewers[i].Some? {
        trace := trace + [ViewerWrite(i, b)];
        if i in failing {
          viewers := viewers[i := None];
          trace := trace + [ViewerClose(i)];
          assert trace == old(trace) + [ViewerWrite(i, b), ViewerClose(i)];
        }
      } else {
        assert trace == old(trace) + [];
        assert viewers == old(viewers)[i := old(viewers)[i]];
      }
    }

    /** The loop over the viewer slots. */
    method WriteViewers(b: Bytes, failing: set<nat>)
      modifies this`viewers, this`trace
      ensures trace == old(trace) + FanOut(old(viewers), failing, b)
      ensures viewers == Tombstoned(old(viewers), failing)
    {
      ghost var t0, vs0 := trace, viewers;
      var i := 0;
      while i < |viewers|
        invariant 0 <= i <= |viewers| == |vs0|
        invariant forall j :: 0 <= j < |viewers| ==> viewers[j] == (if j < i && j in failing then None else vs0[j])
        invariant trace == t0 + FanOut(vs0[..i], failing, b)
      {
        WriteSlot(i, b, failing);
        FanOutSnoc(vs0, failing, b, i);
        i := i + 1;
      }
      assert vs0[..i] == vs0;
    }

    /** The primary write of a block, then the viewer loop. */
    method Broadcast(buf: Bytes, failing: set<nat>)
      requires Valid() && running
      modifies this`viewers, this`trace, this`blocks
      ensures Valid() && running
      ensures blocks == old(blocks) + [buf]
      ensures trace == old(trace) + [PrimaryWrite(buf)] + FanOut(old(viewers), failing, buf)
      ensures viewers == Tombstoned(old(viewers), failing)
    {
      ghost var t0, vs0, b0 := trace, viewers, blocks;
      SlotsOkBroadcast(t0, b0, joined, vs0, failing, buf);
      trace := trace + [PrimaryWrite(buf)];
      WriteViewers(buf, failing);
      assert trace == t0 + [PrimaryWrite(buf)] + FanOut(vs0, failing, buf);
      assert viewers == Tombstoned(vs0, failing);
      blocks := b0 + [buf];
    }

    /**
     * A successful read of `buf`. At most one viewer is waiting on vchan; it
     * is appended first and so is sent this block. The result of the primary
     * write is never looked at (the check reads the read's error, nil here),
     * so the loop goes on whatever `primaryOk` says.
     */
    method OnRead(buf: Bytes, waiting: Option<Socket>, primaryOk: bool, failing: set<nat>)
      requires Valid() && running
      modifies this`viewers, this`trace, this`blocks, this`joined
      ensures Valid() && running
      ensures blocks == old(blocks) + [buf]
      ensures var vs := old(viewers) + (if waiting.Some? then [waiting] else []);
        && trace == old(trace) + [PrimaryWrite(buf)] + FanOut(vs, failing, buf)
        && viewers == Tombstoned(vs, failing)
    {
      match waiting {
        case Some(watcher) =>
          TakeViewer(watcher);
        case None =>
          // no watcher received
          assert viewers == old(viewers) + [];
      }
      ghost var vs := viewers;
      Broadcast(buf, failing);
      assert viewers == Tombstoned(vs, failing);
    }

    /** The loop is left and every still-live viewer is closed. */
    method CloseViewers()
      requires Valid() && running
      modifies this`running, this`trace
      ensures Valid() && !running
      ensures trace == old(trace) + CloseLive(viewers)
      ensures forall i :: 0 <= i < |viewers| ==> Closes(trace, i) == 1
    {
      SlotsOkExit(trace, blocks, [], joined, viewers, []);
      assert trace + [] == trace && blocks + [] == blocks;
      assert PrimaryBlocks(trace) + PrimaryBlocks([]) == PrimaryBlocks(trace);
      trace := trace + CloseLive(viewers);
      running := false;
    }

    /** The read failed: the live viewers are closed, then a close frame goes out and the grace period is waited. */
    method OnReadError()
      requires Valid() && running
      modifies this`running, this`trace
      ensures Valid() && !running
      ensures trace == old(trace) + CloseLive(viewers) + [PrimaryCloseFrame, Pause(CloseGraceMs)]
      ensures forall i :: 0 <= i < |viewers| ==> Closes(trace, i) == 1
    {
      CloseViewers();
      var post := [PrimaryCloseFrame, Pause(CloseGraceMs)];
      assert NoViewerActions(post);
      AppendQuiet(post);
    }

    /** Actions that touch neither a viewer nor the primary socket's data keep every invariant. */
    method AppendQuiet(u: seq<Action>)
      requires Valid() && NoViewerActions(u)
      requires forall k :: 0 <= k < |u| ==> !u[k].PrimaryWrite?
      modifies this`trace
      ensures Valid()
      ensures trace == old(trace) + u
      ensures forall i: nat :: Received(trace, i) == Received(old(trace), i) && Closes(trace, i) == Closes(old(trace), i)
    {
      SlotsOkQuiet(trace, blocks, joined, viewers, running, u);
      NoPrimaryWrites(u);
      assert blocks + [] == blocks;
      trace := trace + u;
    }

    /**
     * release: deregister the name; if there is a pty, close it, interrupt the
     * process, wait a second, kill it, reap it and close done and vchan; last,
     * close the primary socket.
     */
    method Release(reg: LegacyRegistry.LegacyRegistry)
      requires Valid()
      modifies this`trace, reg`players
      ensures Valid()
      ensures reg.players == old(reg.players) - {name}
      ensures trace == old(trace) + [Deregister(name)] + (if hasPty then LegacyPtySteps else []) + [WsClose]
      ensures forall i: nat :: Received(trace, i) == Received(old(trace), i) && Closes(trace, i) == Closes(old(trace), i)
    {
      var u := [Deregister(name)] + (if hasPty then LegacyPtySteps else []) + [WsClose];
      assert NoViewerActions(u);
      var _ := reg.RemovePlayer(name);
      AppendQuiet(u);
    }
  }

  /** One pass of the read loop: a block read (with what came with it), or the failed read that ends the loop. */
  datatype Read =
    | Block(buf: Bytes, waiting: Option<Socket>, primaryOk: bool, failing: set<nat>)
    | ReadError

  /**
   * wsHandleDoer: the release is deferred first; then the pty is created and,
   * only if that worked, "main" is registered and the read loop runs until a
   * read fails. If the steps run out first, `released` is false.
   */
  method HandleDoer(reg: LegacyRegistry.LegacyRegistry, id: nat, spawnOk: bool, steps: seq<Read>)
    returns (tc: LegacySession, released: bool)
    modifies reg`players
    ensures fresh(tc) && tc.Valid() && tc.name == MainName && tc.hasPty == spawnOk
    ensures !spawnOk ==> released && tc.trace == [Deregister(MainName), WsClose]
    ensures released ==> reg.players == old(reg.players) - {MainName}
    ensures released ==> forall i :: 0 <= i < |tc.viewers| ==> Closes(tc.trace, i) == 1
    ensures !released ==> tc.running
    ensures !released ==>
      reg.players == (if MainName in old(reg.players) then old(reg.players) else old(reg.players)[MainName := LegacyRegistry.LegacyRef(id)])
  {
    tc := new LegacySession(MainName);
    var ok := tc.CreatePty(spawnOk);
    if !ok {
      tc.Release(reg);
      return tc, true;
    }
    reg.AddPlayer(MainName, LegacyRegistry.LegacyRef(id));
    ghost var registered := reg.players;
    var k := 0;
    while k < |steps| && tc.running
      invariant 0 <= k <= |steps|
      invariant tc.Valid() && tc.name == MainName && tc.hasPty
      invariant reg.players == registered
      invariant !tc.running ==> forall i :: 0 <= i < |tc.viewers| ==> Closes(tc.trace, i) == 1
    {
      match steps[k] {
        case Block(buf, waiting, primaryOk, failing) =>
          tc.OnRead(buf, waiting, primaryOk, failing);
        case ReadError =>
          tc.OnReadError();
      }
      k := k + 1;
    }
    if tc.running {
      return tc, false;
    }
    tc.Release(reg);
    released := true;
  }

  /** wsHandleViewer: the socket goes to "main", or is closed when it is not registered. */
  method HandleViewer(reg: LegacyRegistry.LegacyRegistry, ws: Socket) returns (closed: bool)
    modifies reg`delivered
    ensures closed == (MainName !in reg.players)
    ensures reg.delivered == old(reg.delivered) + (if closed then [] else [(reg.players[MainName], ws)])
  {
    var ok := reg.SendToPlayer(MainName, ws);
    if !ok {
      closed := true;
    } else {
      closed := false;
    }
  }
}
