/**
 * The session relay of term_conn/relay.go: one driving browser (the primary
 * socket), a pty-backed child process, a list of read-only viewer sockets and
 * an optional recording file. The fan-out goroutine's select loop is modelled
 * one iteration at a time: each event method below is one case of the select.
 * The other two goroutines (ping, wsToPtyStdin) only decide when the done
 * events fire; they touch none of the state modelled here.
 */
module Relay {

  import opened Wrappers
  import opened Text
  import opened Records
  import opened Broadcast
  import opened BroadcastInvariant
  import Registry

  const RecordCmd: int := 1
  const StopCmd: int := 0

  const OpenBracket: Byte := 0x5B   // '['
  const Comma: Byte := 0x2C         // ','
  const CloseBracket: Byte := 0x5D  // ']'

  const NsPerSecond: int := 1_000_000_000
  const RecSuffix: string := ".rec"

  /** The grace period between the interrupt and the kill, in milliseconds. */
  const KillGraceMs: nat := 1000

  // ------------------------------------------------------ recording framing

  /** The recording file while recording: '[' and then, per recorded block, its encoding and ','. */
  function Framed(encs: seq<Bytes>): Bytes
    decreases |encs|
  {
    if encs == [] then [OpenBracket]
    else Framed(encs[..|encs| - 1]) + encs[|encs| - 1] + [Comma]
  }

  /** The encodings separated by `sep`. */
  function Join(encs: seq<Bytes>, sep: Byte): Bytes
    decreases |encs|
  {
    if encs == [] then []
    else if |encs| == 1 then encs[0]
    else Join(encs[..|encs| - 1], sep) + [sep] + encs[|encs| - 1]
  }

  /**
   * The file left behind by start, k blocks and stop: the array "[e1,...,ek]"
   * for k >= 1; for k = 0 the truncation removes the '[' itself and only "]" remains.
   */
  function Closed(encs: seq<Bytes>): Bytes
  {
    if encs == [] then [CloseBracket] else [OpenBracket] + Join(encs, Comma) + [CloseBracket]
  }

  /**
   * The stop step on a file's content: Truncate(size - 1), seek to the end,
   * write ']'. A Truncate to a negative size fails and leaves the file alone.
   */
  function Finish(content: Bytes): Bytes
  {
    (if |content| >= 1 then content[..|content| - 1] else content) + [CloseBracket]
  }

  /** What recording one block appends to the file: the encoding and ',', or nothing when encoding fails. */
  function Entry(m: Option<Bytes>): Bytes
  {
    match m
    case Some(e) => e + [Comma]
    case None => []
  }

  /** The file system after one block is recorded into the open file f. */
  function RecordInto(files: map<string, Bytes>, f: string, m: Option<Bytes>): map<string, Bytes>
    requires f in files
  {
    files[f := files[f] + Entry(m)]
  }

  lemma {:induction false} FramedIsJoin(encs: seq<Bytes>)
    requires encs != []
    ensures Framed(encs) == [OpenBracket] + Join(encs, Comma) + [Comma]
    decreases |encs|
  {
    var n := |encs|;
    var front, e := encs[..n - 1], encs[n - 1];
    if n == 1 {
      assert front == [];
      assert Framed(encs) == [OpenBracket] + e + [Comma];
      assert Join(encs, Comma) == e;
    } else {
      FramedIsJoin(front);
      var j := Join(front, Comma);
      assert Framed(encs) == Framed(front) + e + [Comma];
      assert Framed(front) == [OpenBracket] + j + [Comma];
      assert Join(encs, Comma) == j + [Comma] + e;
      calc {
        Framed(encs);
        ([OpenBracket] + j + [Comma]) + e + [Comma];
        [OpenBracket] + (j + [Comma] + e) + [Comma];
      }
    }
  }

  /** Stopping a recording that framed its blocks one by one yields exactly the closed array. */
  lemma {:induction false} FinishFramed(encs: seq<Bytes>)
    ensures Finish(Framed(encs)) == Closed(encs)
  {
    if encs != [] {
      FramedIsJoin(encs);
      var body := [OpenBracket] + Join(encs, Comma);
      assert Framed(encs)[..|Framed(encs)| - 1] == body;
    }
  }

  // ------------------------------------------------------ recording file name

  /** time.Unix(): whole seconds since the epoch, rounded down. */
  function UnixSeconds(now: int): int
  {
    now / NsPerSecond
  }

  /** "./records/" + Name + "_" + strconv.FormatInt(now.Unix(), 16) + ".rec" */
  function RecordFileName(name: string, now: int): string
  {
    RecordDir + name + "_" + FormatInt(UnixSeconds(now), 16) + RecSuffix
  }

  /**
   * The name is the records directory, the session name and '_', then the
   * Unix seconds in lower-case hexadecimal (which read back as those seconds),
   * then ".rec".
   */
  lemma RecordFileNameParts(name: string, now: int)
    ensures var f := RecordFileName(name, now);
      var k := |RecordDir| + |name| + 1;
      && k + |RecSuffix| < |f|
      && f[..k] == RecordDir + name + "_"
      && ParseInt(f[k..|f| - |RecSuffix|], 16) == Some(UnixSeconds(now))
      && HasSuffix(f, RecSuffix)
  {
    var f := RecordFileName(name, now);
    var k := |RecordDir| + |name| + 1;
    var hex := FormatInt(UnixSeconds(now), 16);
    FormatIntRoundTrip(UnixSeconds(now), 16);
    FormatNatDigits(if UnixSeconds(now) < 0 then -UnixSeconds(now) else UnixSeconds(now), 16);
    assert f == (RecordDir + name + "_") + hex + RecSuffix;
    assert f[k..|f| - |RecSuffix|] == hex;
  }

  // ------------------------------------------------------ the session

  const PtySteps: seq<Action> :=
    [PtyClose, Interrupt, Pause(KillGraceMs), Kill, Reap, CloseChannel("viewChan"), CloseChannel("recordChan")]

  class Session {
    const id: nat
    const name: string
    const ip: string

    /** tc.ptmx != nil: the child process was spawned. */
    var hasPty: bool
    /** The fan-out loop's `viewers` slice; None is a nil tombstone. */
    var viewers: seq<Option<Socket>>
    /** tc.record: the name of the open recording file, None when not recording. */
    var record: Option<string>
    var lastRecTime: int
    /** The file system as far as recordings go. */
    var files: map<string, Bytes>
    /** The select loop has not yet broken out. */
    var running: bool
    /** Everything done to sockets, the process and the registry, in order. */
    var trace: seq<Action>

    /** The blocks written to the primary socket so far. */
    ghost var blocks: seq<Bytes>
    /** For each slot, how many blocks had been written to the primary socket when it arrived. */
    ghost var joined: seq<nat>
    /** The encodings recorded into the open recording file since it was started. */
    ghost var encs: seq<Bytes>

    ghost predicate Valid()
      reads this
    {
      && SlotsOk(trace, blocks, joined, viewers, running)
      && PrimaryBlocks(trace) == blocks
      && RecordOk()
    }

    /** An open recording file holds '[' and, per block recorded so far, its encoding and ','. */
    ghost predicate RecordOk()
      reads this`record, this`files, this`encs
    {
      record.Some? ==> record.value in files && files[record.value] == Framed(encs)
    }

    constructor (id: nat, name: string, ip: string, files: map<string, Bytes>)
      ensures Valid()
      ensures this.id == id && this.name == name && this.ip == ip && this.files == files
      ensures !hasPty && viewers == [] && record == None && running && trace == []
    {
      this.id, this.name, this.ip, this.files := id, name, ip, files;
      hasPty, viewers, record, lastRecTime, running, trace := false, [], None, 0, true, [];
      blocks, joined, encs := [], [], [];
      SlotsOkInitial();
    }

    /** createPty: on success the session owns a pty and a process. */
    method CreatePty(spawnOk: bool) returns (ok: bool)
      modifies this`hasPty
      ensures ok == spawnOk && hasPty == (old(hasPty) || spawnOk)
    {
      ok := spawnOk;
      if ok {
        hasPty := true;
      }
    }

    /** The loop breaks out (after the viewer-free actions `pre`), then the still-live viewers are closed. */
    method Exit(pre: seq<Action>, block: seq<Bytes>)
      requires Valid() && running
      requires NoViewerActions(pre) && PrimaryBlocks(pre) == block
      modifies this`running, this`trace, this`blocks
      ensures Valid() && !running
      ensures trace == old(trace) + pre + CloseLive(viewers)
      ensures blocks == old(blocks) + block
      ensures forall i :: 0 <= i < |viewers| ==> Closes(trace, i) == 1
    {
      SlotsOkExit(trace, blocks, block, joined, viewers, pre);
      trace := trace + pre + CloseLive(viewers);
      blocks := blocks + block;
      running := false;
    }

    /** Slot i's turn in the viewer loop: skipped when nil, else written and, on failure, set to nil and closed. */
    method WriteSlot(i: nat, b: Bytes, failing: set<nat>)
      requires i < |viewers|
      modifies this`viewers, this`trace
      ensures trace == old(trace) + SlotActions(i, old(viewers)[i], failing, b)
      ensures viewers == old(viewers)[i := if i in failing then None else old(viewers)[i]]
    {
      if viewers[i].Some? {
        trace := trace + [ViewerWrite(i, b)];
        if i in failing {
          // the viewer went away: forget it and close the socket
          viewers := viewers[i := None];
          trace := trace + [ViewerClose(i)];
          assert trace == old(trace) + [ViewerWrite(i, b), ViewerClose(i)];
        }
      } else {
        assert trace == old(trace) + [];
        assert viewers == old(viewers)[i := old(viewers)[i]];
      }
    }

    /**
     * The loop over the viewer slots: a nil slot is skipped, a live one is
     * written the block and, when that write fails, set to nil and closed.
     */
    method WriteViewers(b: Bytes, failing: set<nat>)
      modifies this`viewers, this`trace
      ensures trace == old(trace) + FanOut(old(viewers), failing, b)
      ensures viewers == Tombstoned(old(viewers), failing)
    {
      ghost var t0, vs0 := trace, viewers;
      var i := 0;
      while i < |viewers|
        invariant 0 <= i <= |viewers| == |vs0|
        invariant forall j :: 0 <= j < |viewers| ==> viewers[j] == (if j < i && j in failing then None else vs0[j])
        invariant trace == t0 + FanOut(vs0[..i], failing, b)
      {
        WriteSlot(i, b, failing);
        FanOutSnoc(vs0, failing, b, i);
        i := i + 1;
      }
      assert vs0[..i] == vs0;
    }

    /**
     * The recording step for one block: its encoding (when the encoder
     * succeeds) and ',' are appended to the open file, and lastRecTime is
     * reset either way.
     */
    method RecordBlock(buf: Bytes, now: int, enc: Encoder)
      requires Valid()
      modifies this`files, this`lastRecTime, this`encs
      ensures Valid()
      ensures record.None? ==> files == old(files) && lastRecTime == old(lastRecTime) && encs == old(encs)
      ensures record.Some? ==>
        && lastRecTime == now
        && files == RecordInto(old(files), record.value, Marshal(enc, Record(now - old(lastRecTime), buf)))
    {
      if record.Some? {
        var f := record.value;
        var m := Marshal(enc, Record(now - lastRecTime, buf));
        files := RecordInto(files, f, m);
        if m.Some? {
          assert (encs + [m.value])[..|encs|] == encs;
          encs := encs + [m.value];
        } else {
          // failed to marshal: nothing is written
          assert files[f] == old(files)[f] + [];
        }
        lastRecTime := now;
      }
    }

    /** The write of a block to the primary socket failed: the loop ends. */
    method PrimaryFailed(buf: Bytes)
      requires Valid() && running
      modifies this`running, this`trace, this`blocks
      ensures Valid() && !running
      ensures blocks == old(blocks) + [buf]
      ensures trace == old(trace) + [PrimaryWrite(buf)] + CloseLive(viewers)
      ensures forall i :: 0 <= i < |viewers| ==> Closes(trace, i) == 1
    {
      var pre := [PrimaryWrite(buf)];
      assert NoViewerActions(pre);
      SingleProjections(PrimaryWrite(buf), 0);
      Exit(pre, [buf]);
    }

    /**
     * A block that reached the primary socket: the primary write, then the
     * viewer writes, each viewer seeing it only if it is still live.
     */
    method Broadcast(buf: Bytes, failing: set<nat>)
      requires Valid() && running
      modifies this`viewers, this`trace, this`blocks
      ensures Valid() && running
      ensures blocks == old(blocks) + [buf]
      ensures trace == old(trace) + [PrimaryWrite(buf)] + FanOut(old(viewers), failing, buf)
      ensures viewers == Tombstoned(old(viewers), failing)
    {
      ghost var t0, vs0, b0 := trace, viewers, blocks;
      SlotsOkBroadcast(t0, b0, joined, vs0, failing, buf);
      assert RecordOk();
      trace := trace + [PrimaryWrite(buf)];
      WriteViewers(buf, failing);
      assert trace == t0 + [PrimaryWrite(buf)] + FanOut(vs0, failing, buf);
      assert viewers == Tombstoned(vs0, failing);
      blocks := b0 + [buf];
      assert RecordOk();
    }

    /**
     * A block read from the pty. It goes to the primary socket first; if that
     * write fails the loop ends and neither the viewers nor the recording see
     * the block. Otherwise every live viewer is sent it (a failed viewer write
     * closes and nils only that slot) and, when recording, the block is
     * recorded with the time since the last recorded block.
     */
    method OnBlock(buf: Bytes, primaryOk: bool, failing: set<nat>, now: int, enc: Encoder)
      requires Valid() && running
      modifies this`viewers, this`running, this`trace, this`blocks, this`files, this`lastRecTime, this`encs
      ensures Valid()
      ensures blocks == old(blocks) + [buf]
      ensures !running ==> forall i :: 0 <= i < |viewers| ==> Closes(trace, i) == 1
      ensures !primaryOk ==> !running && trace == old(trace) + [PrimaryWrite(buf)] + CloseLive(old(viewers))
      ensures !primaryOk ==> viewers == old(viewers) && files == old(files) && lastRecTime == old(lastRecTime)
      ensures primaryOk ==> running && trace == old(trace) + [PrimaryWrite(buf)] + FanOut(old(viewers), failing, buf)
      ensures primaryOk ==> viewers == Tombstoned(old(viewers), failing)
      ensures primaryOk && record.None? ==> files == old(files) && lastRecTime == old(lastRecTime)
      ensures primaryOk && record.Some? ==> lastRecTime == now
      ensures primaryOk && record.Some? ==>
        files == RecordInto(old(files), record.value, Marshal(enc, Record(now - old(lastRecTime), buf)))
    {
      if !primaryOk {
        PrimaryFailed(buf);
      } else {
        ghost var m := Marshal(enc, Record(now - lastRecTime, buf));
        ghost var files0 := files;
        Broadcast(buf, failing);
        assert files == files0 && Marshal(enc, Record(now - lastRecTime, buf)) == m;
        RecordBlock(buf, now, enc);
      }
    }

    /** A viewer socket delivered on the viewer channel: appended as a new live slot that has seen nothing. */
    method OnViewer(ws: Socket)
      requires Valid() && running
      modifies this`viewers, this`joined
      ensures Valid()
      ensures viewers == old(viewers) + [Some(ws)]
      ensures joined[|viewers| - 1] == |blocks|
    {
      SlotsOkArrive(trace, blocks, joined, viewers, ws);
      viewers := viewers + [Some(ws)];
      joined := joined + [|blocks|];
    }

    /**
     * A command on the record channel. RecordCmd opens (truncating) the file
     * named by the session and the current second and writes '['; if the
     * open fails nothing is recorded. Any other value stops: the trailing
     * byte is cut, ']' is written and the file is closed.
     */
    method OnRecordCmd(cmd: int, now: int, openOk: bool)
      requires Valid() && running
      modifies this`record, this`files, this`lastRecTime, this`encs
      ensures Valid()
      ensures cmd == RecordCmd ==> lastRecTime == now
      ensures cmd == RecordCmd && openOk ==>
        && record == Some(RecordFileName(name, now))
        && files == old(files)[RecordFileName(name, now) := [OpenBracket]]
        && encs == []
      ensures cmd == RecordCmd && !openOk ==> record == None && files == old(files)
      ensures cmd != RecordCmd ==> record == None && lastRecTime == old(lastRecTime)
      ensures cmd != RecordCmd && old(record).Some? ==>
        files == old(files)[old(record).value := Closed(old(encs))]
      ensures cmd != RecordCmd && old(record).None? ==> files == old(files)
    {
      if cmd == RecordCmd {
        // use the session name and the current time as the file name
        var fname := RecordFileName(name, now);
        if openOk {
          files := files[fname := [OpenBracket]];
          record := Some(fname);
          encs := [];
        } else {
          // failed to create the record file; writes to a nil file do nothing
          record := None;
        }
        lastRecTime := now;
      } else {
        if record.Some? {
          var f := record.value;
          FinishFramed(encs);
          files := files[f := Finish(files[f])];
        }
        record := None;
      }
    }

    /** The pty reader closed its channel: a close frame goes to the primary socket and the loop ends. */
    method OnPtyEof()
      requires Valid() && running
      modifies this`running, this`trace, this`blocks
      ensures Valid() && !running
      ensures trace == old(trace) + [PrimaryCloseFrame] + CloseLive(viewers)
      ensures forall i :: 0 <= i < |viewers| ==> Closes(trace, i) == 1
    {
      SingleProjections(PrimaryCloseFrame, 0);
      Exit([PrimaryCloseFrame], []);
    }

    /** ws_done or pty_done fired: the loop ends without another write. */
    method OnDone()
      requires Valid() && running
      modifies this`running, this`trace, this`blocks
      ensures Valid() && !running
      ensures trace == old(trace) + CloseLive(viewers)
      ensures forall i :: 0 <= i < |viewers| ==> Closes(trace, i) == 1
    {
      assert old(trace) + [] == old(trace);
      Exit([], []);
    }

    /** One iteration of the fan-out loop's select, for the event that fired. */
    method Step(e: Event, enc: Encoder)
      requires Valid() && running
      modifies this`viewers, this`running, this`trace, this`blocks, this`files, this`lastRecTime, this`encs,
        this`record, this`joined
      ensures Valid()
      ensures !running ==> forall i :: 0 <= i < |viewers| ==> Closes(trace, i) == 1
    {
      match e {
        case PtyOutput(buf, primaryOk, failing, now) =>
          OnBlock(buf, primaryOk, failing, now, enc);
        case ViewerArrived(ws) =>
          OnViewer(ws);
        case RecordCommand(cmd, now, openOk) =>
          OnRecordCmd(cmd, now, openOk);
        case PtyClosed =>
          OnPtyEof();
        case WsDone =>
          OnDone();
        case PtyDone =>
          OnDone();
      }
    }

    /** Actions that touch neither a viewer nor the primary socket's data keep every invariant. */
    method AppendQuiet(u: seq<Action>)
      requires Valid() && NoViewerActions(u)
      requires forall k :: 0 <= k < |u| ==> !u[k].PrimaryWrite?
      modifies this`trace
      ensures Valid()
      ensures trace == old(trace) + u
      ensures forall i: nat :: Received(trace, i) == Received(old(trace), i) && Closes(trace, i) == Closes(old(trace), i)
    {
      SlotsOkQuiet(trace, blocks, joined, viewers, running, u);
      NoPrimaryWrites(u);
      assert blocks + [] == blocks;
      trace := trace + u;
    }

    /**
     * release: deregister the name; if there is a pty, close it, interrupt the
     * process, wait a second, kill it, reap it and close both channels; last,
     * close the primary socket.
     */
    method Release(reg: Registry.Registry)
      requires Valid()
      modifies this`trace, reg`players
      ensures Valid()
      ensures reg.players == old(reg.players) - {name}
      ensures trace == old(trace) + [Deregister(name)] + (if hasPty then PtySteps else []) + [WsClose]
      ensures forall i: nat :: Received(trace, i) == Received(old(trace), i) && Closes(trace, i) == Closes(old(trace), i)
    {
      var _ := reg.RemovePlayer(name);
      AppendQuiet([Deregister(name)] + (if hasPty then PtySteps else []) + [WsClose]);
    }
  }
  // ------------------------------------------------------ the connection handler

  /** One case of the fan-out loop's select. */
  datatype Event =
    | PtyOutput(buf: Bytes, primaryOk: bool, failing: set<nat>, now: int)
    | ViewerArrived(ws: Socket)
    | RecordCommand(cmd: int, now: int, openOk: bool)
    | PtyClosed
    | WsDone
    | PtyDone

  /**
   * handlePlayer: the release is deferred first, then the pty is created and,
   * only if that worked, the session is registered and the loop runs. The
   * release runs once the loop has ended; if the events run out while it is
   * still running, `released` is false.
   */
  method HandlePlayer(reg: Registry.Registry, id: nat, name: string, ip: string, spawnOk: bool,
                      files: map<string, Bytes>, events: seq<Event>, enc: Encoder)
    returns (tc: Session, released: bool)
    modifies reg`players
    ensures fresh(tc) && tc.Valid() && tc.name == name && tc.hasPty == spawnOk
    ensures !spawnOk ==> released && tc.trace == [Deregister(name), WsClose] && tc.viewers == []
    ensures released ==> reg.players == old(reg.players) - {name}
    ensures released ==> tc.trace != [] && tc.trace[|tc.trace| - 1] == WsClose
    ensures released ==> forall i :: 0 <= i < |tc.viewers| ==> Closes(tc.trace, i) == 1
    ensures !released ==> tc.running
    ensures !released ==>
      reg.players == (if name in old(reg.players) then old(reg.players) else old(reg.players)[name := Registry.SessionRef(id, name, ip)])
  {
    tc := new Session(id, name, ip, files);
    var ok := tc.CreatePty(spawnOk);
    if !ok {
      tc.Release(reg);
      return tc, true;
    }
    reg.AddPlayer(Registry.SessionRef(id, name, ip));
    ghost var registered := reg.players;
    var k := 0;
    while k < |events| && tc.running
      invariant 0 <= k <= |events|
      invariant tc.Valid() && tc.name == name && tc.hasPty
      invariant reg.players == registered
      invariant !tc.running ==> forall i :: 0 <= i < |tc.viewers| ==> Closes(tc.trace, i) == 1
    {
      tc.Step(events[k], enc);
      k := k + 1;
    }
    if tc.running {
      return tc, false;
    }
    tc.Release(reg);
    released := true;
  }

  /** handleViewer: the socket goes to the named session, or is closed when there is none. */
  method HandleViewer(reg: Registry.Registry, path: string, ws: Socket) returns (closed: bool)
    modifies reg`delivered
    ensures closed == (path !in reg.players)
    ensures reg.delivered == old(reg.delivered) + (if closed then [] else [(reg.players[path], ws)])
  {
    var ok := reg.SendToPlayer(path, ws);
    closed := !ok;
  }
}
