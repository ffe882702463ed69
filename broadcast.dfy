/**
 * The observable actions of a relay session and the fan-out of one output
 * block to the viewer list. Both relays (term_conn/relay.go and the older
 * relay.go) broadcast with the same loop: skip nil slots, write to each live
 * slot, and on a failed write set that slot to nil and close its socket.
 * A viewer socket is identified by its slot, i.e. by its arrival order.
 */
module Broadcast {

  import opened Wrappers
  import opened Text

  /** A viewer socket handle, as delivered on the session's viewer channel. */
  type Socket = nat

  datatype Action =
    | PrimaryWrite(block: Bytes)        // binary message to the driving browser
    | PrimaryCloseFrame                 // close frame "Pty closed" to the driving browser
    | ViewerWrite(slot: nat, block: Bytes)
    | ViewerClose(slot: nat)
    | Deregister(name: string)          // registry.removePlayer(name)
    | PtyClose
    | Interrupt                         // proc.Signal(os.Interrupt)
    | Pause(ms: nat)                    // time.Sleep
    | Kill                              // proc.Signal(os.Kill)
    | Reap                              // proc.Wait()
    | CloseChannel(chan: string)
    | WsClose

  /** The actions for slot i when block b is broadcast; `failing` are the slots whose write fails. */
  function SlotActions(i: nat, v: Option<Socket>, failing: set<nat>, b: Bytes): seq<Action>
  {
    if v.None? then []
    else if i in failing then [ViewerWrite(i, b), ViewerClose(i)]
    else [ViewerWrite(i, b)]
  }

  /** The actions of the viewer loop over slots 0 .. |vs|-1, in slot order. */
  function FanOut(vs: seq<Option<Socket>>, failing: set<nat>, b: Bytes): seq<Action>
    decreases |vs|
  {
    if vs == [] then []
    else FanOut(vs[..|vs| - 1], failing, b) + SlotActions(|vs| - 1, vs[|vs| - 1], failing, b)
  }

  /** The fan-out over the first i + 1 slots extends the one over the first i by slot i's actions. */
  lemma FanOutSnoc(vs: seq<Option<Socket>>, failing: set<nat>, b: Bytes, i: nat)
    requires i < |vs|
    ensures FanOut(vs[..i + 1], failing, b) == FanOut(vs[..i], failing, b) + SlotActions(i, vs[i], failing, b)
  {
    assert vs[..i + 1][..i] == vs[..i];
  }

  /** The viewer list after the loop: exactly the live failing slots became nil. */
  function Tombstoned(vs: seq<Option<Socket>>, failing: set<nat>): (r: seq<Option<Socket>>)
    ensures |r| == |vs|
    ensures forall i :: 0 <= i < |vs| ==> r[i] == (if i in failing then None else vs[i])
  {
    seq(|vs|, i requires 0 <= i < |vs| => if i in failing then None else vs[i])
  }

  /** The close actions for every still-live slot, in slot order (the loop after the select). */
  function CloseLive(vs: seq<Option<Socket>>): seq<Action>
    decreases |vs|
  {
    if vs == [] then []
    else CloseLive(vs[..|vs| - 1]) + (if vs[|vs| - 1].Some? then [ViewerClose(|vs| - 1)] else [])
  }

  // ------------------------------------------------------------ projections

  /** The blocks slot i was sent, in order (a failed write counts as sent). */
  function Received(t: seq<Action>, i: nat): seq<Bytes>
    decreases |t|
  {
    if t == [] then []
    else Received(t[..|t| - 1], i) + match t[|t| - 1]
      case ViewerWrite(slot, block) => if slot == i then [block] else []
      case _ => []
  }

  /** How many times the socket in slot i was closed. */
  function Closes(t: seq<Action>, i: nat): nat
    decreases |t|
  {
    if t == [] then 0
    else Closes(t[..|t| - 1], i) + (if t[|t| - 1] == ViewerClose(i) then 1 else 0)
  }

  /** The blocks written to the primary socket, in order. */
  function PrimaryBlocks(t: seq<Action>): seq<Bytes>
    decreases |t|
  {
    if t == [] then []
    else PrimaryBlocks(t[..|t| - 1]) + (if t[|t| - 1].PrimaryWrite? then [t[|t| - 1].block] else [])
  }

  lemma {:induction false} ProjectionsAppend(t: seq<Action>, u: seq<Action>, i: nat)
    ensures Received(t + u, i) == Received(t, i) + Received(u, i)
    ensures Closes(t + u, i) == Closes(t, i) + Closes(u, i)
    ensures PrimaryBlocks(t + u) == PrimaryBlocks(t) + PrimaryBlocks(u)
    decreases |u|
  {
    if u == [] {
      assert t + u == t;
    } else {
      var u' := u[..|u| - 1];
      assert (t + u)[..|t + u| - 1] == t + u';
      ProjectionsAppend(t, u', i);
    }
  }

  lemma SingleProjections(a: Action, i: nat)
    ensures Received([a], i) == (if a.ViewerWrite? && a.slot == i then [a.block] else [])
    ensures Closes([a], i) == (if a == ViewerClose(i) then 1 else 0)
    ensures PrimaryBlocks([a]) == (if a.PrimaryWrite? then [a.block] else [])
  {
    assert [a][..0] == [];
  }

  lemma SlotActionsProjections(k: nat, v: Option<Socket>, failing: set<nat>, b: Bytes, i: nat)
    ensures Received(SlotActions(k, v, failing, b), i) == (if k == i && v.Some? then [b] else [])
    ensures Closes(SlotActions(k, v, failing, b), i) == (if k == i && v.Some? && k in failing then 1 else 0)
    ensures PrimaryBlocks(SlotActions(k, v, failing, b)) == []
  {
    SingleProjections(ViewerWrite(k, b), i);
    if v.Some? && k in failing {
      SingleProjections(ViewerClose(k), i);
      assert [ViewerWrite(k, b), ViewerClose(k)] == [ViewerWrite(k, b)] + [ViewerClose(k)];
      ProjectionsAppend([ViewerWrite(k, b)], [ViewerClose(k)], i);
    }
  }

  /**
   * Per-slot isolation of one broadcast: slot i is sent the block iff it was
   * live, is closed iff it was live and its write failed, and nothing goes to
   * the primary socket or to any other slot.
   */
  lemma {:induction false} FanOutProjections(vs: seq<Option<Socket>>, failing: set<nat>, b: Bytes, i: nat)
    ensures Received(FanOut(vs, failing, b), i) == (if i < |vs| && vs[i].Some? then [b] else [])
    ensures Closes(FanOut(vs, failing, b), i) == (if i < |vs| && vs[i].Some? && i in failing then 1 else 0)
    ensures PrimaryBlocks(FanOut(vs, failing, b)) == []
    decreases |vs|
  {
    if vs != [] {
      var n := |vs| - 1;
      var front, last := FanOut(vs[..n], failing, b), SlotActions(n, vs[n], failing, b);
      assert FanOut(vs, failing, b) == front + last;
      FanOutProjections(vs[..n], failing, b, i);
      ProjectionsAppend(front, last, i);
      SlotActionsProjections(n, vs[n], failing, b, i);
      if i < n {
        assert vs[..n][i] == vs[i];
      }
    }
  }

  /** Closing the live slots closes each live slot once and nothing else. */
  lemma {:induction false} CloseLiveProjections(vs: seq<Option<Socket>>, i: nat)
    ensures Received(CloseLive(vs), i) == []
    ensures Closes(CloseLive(vs), i) == (if i < |vs| && vs[i].Some? then 1 else 0)
    ensures PrimaryBlocks(CloseLive(vs)) == []
    decreases |vs|
  {
    if vs != [] {
      var n := |vs| - 1;
      var front := CloseLive(vs[..n]);
      CloseLiveProjections(vs[..n], i);
      if i < n {
        assert vs[..n][i] == vs[i];
      }
      if vs[n].Some? {
        assert CloseLive(vs) == front + [ViewerClose(n)];
        ProjectionsAppend(front, [ViewerClose(n)], i);
        SingleProjections(ViewerClose(n), i);
      } else {
        assert CloseLive(vs) == front + [];
        assert front + [] == front;
      }
    }
  }
}

module BroadcastInvariant {

  import opened Wrappers
  import opened Text
  import opened Broadcast

  /** An action list that touches no viewer socket. */
  ghost predicate NoViewerActions(u: seq<Action>)
  {
    forall k :: 0 <= k < |u| ==> !u[k].ViewerWrite? && !u[k].ViewerClose?
  }

  lemma {:induction false} NoViewerActionsProjections(u: seq<Action>, i: nat)
    requires NoViewerActions(u)
    ensures Received(u, i) == [] && Closes(u, i) == 0
    decreases |u|
  {
    if u != [] {
      NoViewerActionsProjections(u[..|u| - 1], i);
    }
  }

  lemma {:induction false} NoPrimaryWrites(u: seq<Action>)
    requires forall k :: 0 <= k < |u| ==> !u[k].PrimaryWrite?
    ensures PrimaryBlocks(u) == []
    decreases |u|
  {
    if u != [] {
      NoPrimaryWrites(u[..|u| - 1]);
    }
  }

  /**
   * What slot i has seen so far. It was sent a contiguous run of the blocks
   * the primary socket was sent, starting with the first block after its
   * arrival (`joined` blocks had gone out before it arrived); while the loop
   * runs, a live slot is up to date and not closed, and a nil slot was closed
   * once; once the loop has ended every slot was closed exactly once.
   */
  ghost predicate SlotOk(t: seq<Action>, blocks: seq<Bytes>, joined: nat, v: Option<Socket>, running: bool, i: nat)
  {
    var r := Received(t, i);
    && joined + |r| <= |blocks|
    && r == blocks[joined..joined + |r|]
    && (running && v.Some? ==> joined + |r| == |blocks|)
    && Closes(t, i) == (if running && v.Some? then 0 else 1)
  }

  ghost predicate SlotsOk(t: seq<Action>, blocks: seq<Bytes>, joined: seq<nat>, vs: seq<Option<Socket>>, running: bool)
  {
    && |joined| == |vs|
    && (forall i :: 0 <= i < |vs| ==> SlotOk(t, blocks, joined[i], vs[i], running, i))
    && (forall i: nat :: i >= |vs| ==> Received(t, i) == [] && Closes(t, i) == 0)
  }

  lemma SlotsOkInitial()
    ensures SlotsOk([], [], [], [], true)
  {
  }

  /** A viewer that arrives is appended as a live slot that has seen nothing yet. */
  lemma SlotsOkArrive(t: seq<Action>, blocks: seq<Bytes>, joined: seq<nat>, vs: seq<Option<Socket>>, ws: Socket)
    requires SlotsOk(t, blocks, joined, vs, true)
    ensures SlotsOk(t, blocks, joined + [|blocks|], vs + [Some(ws)], true)
  {
    var vs', joined' := vs + [Some(ws)], joined + [|blocks|];
    forall i | 0 <= i < |vs'|
      ensures SlotOk(t, blocks, joined'[i], vs'[i], true, i)
    {
      if i < |vs| {
        assert joined'[i] == joined[i] && vs'[i] == vs[i];
      }
    }
  }

  /** One slot across one broadcast: a live slot gains the block (and is closed if its write failed). */
  lemma SlotOkStep(t: seq<Action>, t': seq<Action>, blocks: seq<Bytes>, b: Bytes, joined: nat,
                   v: Option<Socket>, fails: bool, i: nat)
    requires SlotOk(t, blocks, joined, v, true, i)
    requires Received(t', i) == Received(t, i) + (if v.Some? then [b] else [])
    requires Closes(t', i) == Closes(t, i) + (if v.Some? && fails then 1 else 0)
    ensures SlotOk(t', blocks + [b], joined, if fails then None else v, true, i)
  {
    var r := Received(t, i);
    var blocks' := blocks + [b];
    assert blocks'[joined..joined + |r|] == blocks[joined..joined + |r|];
    if v.Some? {
      assert blocks'[joined..joined + |r| + 1] == r + [b];
    }
  }

  lemma BroadcastProjections(t: seq<Action>, vs: seq<Option<Socket>>, failing: set<nat>, b: Bytes, i: nat)
    ensures var t' := t + [PrimaryWrite(b)] + FanOut(vs, failing, b);
      && Received(t', i) == Received(t, i) + (if i < |vs| && vs[i].Some? then [b] else [])
      && Closes(t', i) == Closes(t, i) + (if i < |vs| && vs[i].Some? && i in failing then 1 else 0)
      && PrimaryBlocks(t') == PrimaryBlocks(t) + [b]
  {
    var p := t + [PrimaryWrite(b)];
    var f := FanOut(vs, failing, b);
    ProjectionsAppend(t, [PrimaryWrite(b)], i);
    SingleProjections(PrimaryWrite(b), i);
    assert Received(p, i) == Received(t, i);
    assert Closes(p, i) == Closes(t, i);
    assert PrimaryBlocks(p) == PrimaryBlocks(t) + [b];
    ProjectionsAppend(p, f, i);
    FanOutProjections(vs, failing, b, i);
  }

  /**
   * One block, once written to the primary socket, is sent to every live slot
   * and no other; a slot whose write fails is closed and set to nil, and the
   * history of every slot stays a run of the primary's blocks.
   */
  lemma SlotsOkBroadcast(t: seq<Action>, blocks: seq<Bytes>, joined: seq<nat>, vs: seq<Option<Socket>>,
                         failing: set<nat>, b: Bytes)
    requires SlotsOk(t, blocks, joined, vs, true)
    requires PrimaryBlocks(t) == blocks
    ensures var t' := t + [PrimaryWrite(b)] + FanOut(vs, failing, b);
      && SlotsOk(t', blocks + [b], joined, Tombstoned(vs, failing), true)
      && PrimaryBlocks(t') == blocks + [b]
  {
    var t' := t + [PrimaryWrite(b)] + FanOut(vs, failing, b);
    var vs' := Tombstoned(vs, failing);
    BroadcastProjections(t, vs, failing, b, 0);
    forall i: nat | i >= |vs'|
      ensures Received(t', i) == [] && Closes(t', i) == 0
    {
      BroadcastProjections(t, vs, failing, b, i);
    }
    forall i | 0 <= i < |vs|
      ensures SlotOk(t', blocks + [b], joined[i], vs'[i], true, i)
    {
      BroadcastProjections(t, vs, failing, b, i);
      SlotOkStep(t, t', blocks, b, joined[i], vs[i], i in failing, i);
    }
  }

  /** Closing the live viewers writes nothing to the primary socket. */
  lemma ExitPrimary(t: seq<Action>, pre: seq<Action>, vs: seq<Option<Socket>>)
    ensures PrimaryBlocks(t + pre + CloseLive(vs)) == PrimaryBlocks(t) + PrimaryBlocks(pre)
  {
    ProjectionsAppend(t, pre, 0);
    ProjectionsAppend(t + pre, CloseLive(vs), 0);
    CloseLiveProjections(vs, 0);
    assert PrimaryBlocks(t) + PrimaryBlocks(pre) + [] == PrimaryBlocks(t) + PrimaryBlocks(pre);
  }

  /** At loop exit slot i keeps what it was sent and, when live, is closed once more. */
  lemma ExitProjections(t: seq<Action>, pre: seq<Action>, vs: seq<Option<Socket>>, i: nat)
    requires NoViewerActions(pre)
    ensures Received(t + pre + CloseLive(vs), i) == Received(t, i)
    ensures Closes(t + pre + CloseLive(vs), i) == Closes(t, i) + (if i < |vs| && vs[i].Some? then 1 else 0)
  {
    ProjectionsAppend(t, pre, i);
    ProjectionsAppend(t + pre, CloseLive(vs), i);
    NoViewerActionsProjections(pre, i);
    CloseLiveProjections(vs, i);
    assert Received(t + pre, i) == Received(t, i) + [];
  }

  /**
   * The loop ends: viewer-free actions `pre` (a failed primary write, a close
   * frame), then every still-live slot is closed. Afterwards every slot has
   * been closed exactly once and kept what it was sent.
   */
  lemma SlotsOkExit(t: seq<Action>, blocks: seq<Bytes>, extra: seq<Bytes>, joined: seq<nat>, vs: seq<Option<Socket>>,
                    pre: seq<Action>)
    requires SlotsOk(t, blocks, joined, vs, true)
    requires NoViewerActions(pre)
    ensures SlotsOk(t + pre + CloseLive(vs), blocks + extra, joined, vs, false)
    ensures forall i :: 0 <= i < |vs| ==> Closes(t + pre + CloseLive(vs), i) == 1
    ensures PrimaryBlocks(t + pre + CloseLive(vs)) == PrimaryBlocks(t) + PrimaryBlocks(pre)
  {
    ExitPrimary(t, pre, vs);
    var t' := t + pre + CloseLive(vs);
    var blocks' := blocks + extra;
    forall i: nat
      ensures Received(t', i) == Received(t, i)
      ensures Closes(t', i) == Closes(t, i) + (if i < |vs| && vs[i].Some? then 1 else 0)
    {
      ExitProjections(t, pre, vs, i);
    }
    forall i | 0 <= i < |vs|
      ensures SlotOk(t', blocks', joined[i], vs[i], false, i)
    {
      SlotOkExitStep(t, t', blocks, extra, joined[i], vs[i], i);
    }
  }

  /** One slot at loop exit: its history is kept, and a live slot is closed now. */
  lemma SlotOkExitStep(t: seq<Action>, t': seq<Action>, blocks: seq<Bytes>, extra: seq<Bytes>, joined: nat,
                       v: Option<Socket>, i: nat)
    requires SlotOk(t, blocks, joined, v, true, i)
    requires Received(t', i) == Received(t, i)
    requires Closes(t', i) == Closes(t, i) + (if v.Some? then 1 else 0)
    ensures SlotOk(t', blocks + extra, joined, v, false, i)
  {
    var r := Received(t, i);
    assert (blocks + extra)[joined..joined + |r|] == blocks[joined..joined + |r|];
  }

  /** Viewer-free actions (the teardown) keep every slot's history. */
  lemma SlotsOkQuiet(t: seq<Action>, blocks: seq<Bytes>, joined: seq<nat>, vs: seq<Option<Socket>>, running: bool,
                     u: seq<Action>)
    requires SlotsOk(t, blocks, joined, vs, running)
    requires NoViewerActions(u)
    ensures SlotsOk(t + u, blocks, joined, vs, running)
    ensures PrimaryBlocks(t + u) == PrimaryBlocks(t) + PrimaryBlocks(u)
    ensures forall i: nat :: Received(t + u, i) == Received(t, i) && Closes(t + u, i) == Closes(t, i)
  {
    forall i: nat
      ensures Received(t + u, i) == Received(t, i) && Closes(t + u, i) == Closes(t, i)
    {
      ProjectionsAppend(t, u, i);
      NoViewerActionsProjections(u, i);
    }
    ProjectionsAppend(t, u, 0);
    forall i | 0 <= i < |vs|
      ensures SlotOk(t + u, blocks, joined[i], vs[i], running, i)
    {
      assert SlotOk(t, blocks, joined[i], vs[i], running, i);
    }
  }
}
