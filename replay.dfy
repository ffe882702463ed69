/**
 * Replaying a recording on a terminal (term_conn/replay.go and the stand-alone
 * cmd/replay/replay.go): after the opening '[' has been consumed, each array
 * element that decodes is replayed by sleeping for its duration, capped at
 * `wait` milliseconds, and then writing its data; an element that does not
 * decode is skipped.
 */
module ReplayTool {

  import opened Wrappers
  import opened Text
  import opened Records

  /** What the replay does, in order. */
  datatype Out =
    | Write(data: Bytes)      // t.Write
    | Sleep(ns: int)          // time.Sleep
    | Usage                   // the usage line, printed by the stand-alone program
    | Fatal                   // log.Fatalln: the program exits

  const BeginBanner: string := "\n\n---beginning of replay---\n\n"
  const EndBanner: string := "\n\n---end of replay---\n\n"

  /** The default of the -w / -wait flag, in milliseconds. */
  const DefaultWait: nat := 2000

  /** The largest value of Go's uint (64 bits). */
  const MaxUint: int := TwoTo64 - 1

  /** time.Duration(wait) * time.Millisecond, with int64 wrap-around on the conversion and on the product. */
  function WaitNs(wait: nat): int
  {
    WrapInt64(WrapInt64(wait) * NsPerMs)
  }

  /** For every wait below about 292 years the cap is exactly wait milliseconds. */
  lemma WaitNsExact(wait: nat)
    requires wait * NsPerMs < TwoTo63
    ensures WaitNs(wait) == wait * NsPerMs
  {
  }

  /** The duration slept for a record: its own, unless that is longer than the cap. */
  function Clamp(dur: int, cap: int): (d: int)
    ensures d <= cap && d <= dur
    ensures d == dur || d == cap
  {
    if dur > cap then cap else dur
  }

  /** The output for one decoded element: nothing for a malformed one, else a sleep and a write. */
  function PlayOne(e: Option<Record>, cap: int): seq<Out>
  {
    match e
    case None => []
    case Some(r) => [Sleep(Clamp(r.dur, cap)), Write(r.data)]
  }

  /** The output of the decoder loop over the elements, in file order. */
  function Played(elems: Decoded, cap: int): seq<Out>
    decreases |elems|
  {
    if elems == [] then []
    else Played(elems[..|elems| - 1], cap) + PlayOne(elems[|elems| - 1], cap)
  }

  /** The data written by an output trace, in order. */
  function Writes(out: seq<Out>): seq<Bytes>
    decreases |out|
  {
    if out == [] then []
    else Writes(out[..|out| - 1]) + (if out[|out| - 1].Write? then [out[|out| - 1].data] else [])
  }

  /** The durations slept in an output trace, in order. */
  function Sleeps(out: seq<Out>): seq<int>
    decreases |out|
  {
    if out == [] then []
    else Sleeps(out[..|out| - 1]) + (if out[|out| - 1].Sleep? then [out[|out| - 1].ns] else [])
  }

  /** The data of a sequence of records. */
  function DataOf(rs: seq<Record>): (r: seq<Bytes>)
    ensures |r| == |rs| && forall k :: 0 <= k < |rs| ==> r[k] == rs[k].data
  {
    seq(|rs|, k requires 0 <= k < |rs| => rs[k].data)
  }

  /** The capped durations of a sequence of records. */
  function ClampedDurs(rs: seq<Record>, cap: int): (r: seq<int>)
    ensures |r| == |rs| && forall k :: 0 <= k < |rs| ==> r[k] == Clamp(rs[k].dur, cap)
  {
    seq(|rs|, k requires 0 <= k < |rs| => Clamp(rs[k].dur, cap))
  }

  lemma {:induction false} WritesAppend(a: seq<Out>, b: seq<Out>)
    ensures Writes(a + b) == Writes(a) + Writes(b)
    ensures Sleeps(a + b) == Sleeps(a) + Sleeps(b)
    decreases |b|
  {
    if b == [] {
      assert a + b == a;
    } else {
      var b' := b[..|b| - 1];
      assert (a + b)[..|a + b| - 1] == a + b';
      WritesAppend(a, b');
    }
  }

  /** Replaying a concatenation replays the parts one after the other. */
  lemma {:induction false} PlayedAppend(a: Decoded, b: Decoded, cap: int)
    ensures Played(a + b, cap) == Played(a, cap) + Played(b, cap)
    decreases |b|
  {
    if b == [] {
      assert a + b == a;
    } else {
      var b' := b[..|b| - 1];
      assert (a + b)[..|a + b| - 1] == a + b';
      PlayedAppend(a, b', cap);
    }
  }

  /** A malformed element leaves no trace: the elements around it are replayed as if it were not there. */
  lemma PlayedSkipsMalformed(a: Decoded, b: Decoded, cap: int)
    ensures Played(a + [None] + b, cap) == Played(a + b, cap)
  {
    PlayedAppend(a + [None], b, cap);
    PlayedAppend(a, [None], cap);
    PlayedAppend(a, b, cap);
    var none: Decoded := [None];
    assert none[..0] == [];
    assert Played(none, cap) == [];
    assert Played(a, cap) + [] == Played(a, cap);
  }

  lemma TwoOutputs(x: Out, y: Out)
    ensures Writes([x, y]) == (if x.Write? then [x.data] else []) + (if y.Write? then [y.data] else [])
    ensures Sleeps([x, y]) == (if x.Sleep? then [x.ns] else []) + (if y.Sleep? then [y.ns] else [])
  {
    assert [x, y][..1] == [x];
    assert [x][..0] == [];
    assert Writes([x]) == [] + (if x.Write? then [x.data] else []);
    assert Sleeps([x]) == [] + (if x.Sleep? then [x.ns] else []);
  }

  /** The output for one element, projected. */
  lemma OneContents(e: Option<Record>, cap: int)
    ensures Writes(PlayOne(e, cap)) == DataOf(if e.Some? then [e.value] else [])
    ensures Sleeps(PlayOne(e, cap)) == ClampedDurs(if e.Some? then [e.value] else [], cap)
  {
    if e.Some? {
      TwoOutputs(Sleep(Clamp(e.value.dur, cap)), Write(e.value.data));
    }
  }

  lemma DataOfAppend(a: seq<Record>, b: seq<Record>, cap: int)
    ensures DataOf(a + b) == DataOf(a) + DataOf(b)
    ensures ClampedDurs(a + b, cap) == ClampedDurs(a, cap) + ClampedDurs(b, cap)
  {
  }

  lemma {:induction false} PlayedWrites(elems: Decoded, cap: int)
    ensures Writes(Played(elems, cap)) == DataOf(WellFormed(elems))
    decreases |elems|
  {
    if elems != [] {
      var front, last := elems[..|elems| - 1], elems[|elems| - 1];
      PlayedWrites(front, cap);
      WritesAppend(Played(front, cap), PlayOne(last, cap));
      OneContents(last, cap);
      DataOfAppend(WellFormed(front), if last.Some? then [last.value] else [], cap);
    }
  }

  lemma {:induction false} PlayedSleeps(elems: Decoded, cap: int)
    ensures Sleeps(Played(elems, cap)) == ClampedDurs(WellFormed(elems), cap)
    decreases |elems|
  {
    if elems != [] {
      var front, last := elems[..|elems| - 1], elems[|elems| - 1];
      PlayedSleeps(front, cap);
      WritesAppend(Played(front, cap), PlayOne(last, cap));
      OneContents(last, cap);
      DataOfAppend(WellFormed(front), if last.Some? then [last.value] else [], cap);
    }
  }

  /**
   * The data written is exactly the data of the well-formed records, unchanged
   * and in file order; the sleeps are their durations capped at `cap`, one
   * per well-formed record.
   */
  lemma PlayedContents(elems: Decoded, cap: int)
    ensures Writes(Played(elems, cap)) == DataOf(WellFormed(elems))
    ensures Sleeps(Played(elems, cap)) == ClampedDurs(WellFormed(elems), cap)
  {
    PlayedWrites(elems, cap);
    PlayedSleeps(elems, cap);
  }

  /** Every sleep is min(Dur, cap). */
  lemma SleepsCapped(elems: Decoded, cap: int)
    ensures forall d :: d in Sleeps(Played(elems, cap)) ==> d <= cap
  {
    PlayedContents(elems, cap);
  }

  /**
   * The decoder loop: each element that decodes has its duration cut down to
   * the cap, then it is slept for and its data written.
   */
  method PlayRecords(elems: Decoded, wait: nat) returns (out: seq<Out>)
    requires wait <= MaxUint
    ensures out == Played(elems, WaitNs(wait))
  {
    var cap := WaitNs(wait);
    out := [];
    var i := 0;
    while i < |elems|
      invariant 0 <= i <= |elems|
      invariant out == Played(elems[..i], cap)
    {
      assert elems[..i + 1][..i] == elems[..i];
      match elems[i] {
        case None =>
          // failed to decode the record: skip it
          assert out + [] == out;
        case Some(record) =>
          var dur := record.dur;
          if dur > cap {
            dur := cap;
          }
          out := out + [Sleep(dur)];
          out := out + [Write(record.data)];
          assert out == Played(elems[..i], cap) + PlayOne(elems[i], cap);
      }
      i := i + 1;
    }
    assert elems[..i] == elems;
  }

  /**
   * term_conn.Replay: a file that cannot be opened is fatal before anything is
   * written; otherwise the beginning banner, the records, the end banner.
   */
  method Replay(file: Option<Decoded>, wait: nat) returns (out: seq<Out>)
    requires wait <= MaxUint
    ensures file.None? ==> out == [Fatal]
    ensures file.Some? ==>
      out == [Write(StrBytes(BeginBanner))] + Played(file.value, WaitNs(wait)) + [Write(StrBytes(EndBanner))]
  {
    if file.None? {
      return [Fatal];
    }
    var body := PlayRecords(file.value, wait);
    out := [Write(StrBytes(BeginBanner))] + body + [Write(StrBytes(EndBanner))];
  }

  /**
   * cmd/replay main: exactly one positional argument is required (otherwise
   * only the usage line); the wait cap is the flag's value or 2000 ms; there
   * is no beginning banner.
   */
  method ReplayMain(args: seq<string>, waitFlag: Option<nat>, files: map<string, Decoded>) returns (out: seq<Out>)
    requires waitFlag.Some? ==> waitFlag.value <= MaxUint
    ensures |args| != 1 ==> out == [Usage]
    ensures |args| == 1 && args[0] !in files ==> out == [Fatal]
    ensures |args| == 1 && args[0] in files ==>
      var wait := if waitFlag.Some? then waitFlag.value else DefaultWait;
      out == Played(files[args[0]], WaitNs(wait)) + [Write(StrBytes(EndBanner))]
  {
    var wait := DefaultWait;
    if waitFlag.Some? {
      wait := waitFlag.value;
    }
    if |args| != 1 {
      return [Usage];
    }
    if args[0] !in files {
      return [Fatal];
    }
    var body := PlayRecords(files[args[0]], wait);
    out := body + [Write(StrBytes(EndBanner))];
  }

  /**
   * Whatever the file holds, the stand-alone tool writes the records' data
   * and then the end banner, and nothing else: there is no beginning banner.
   */
  lemma ReplayMainBanners(elems: Decoded, cap: int)
    ensures var out := Played(elems, cap) + [Write(StrBytes(EndBanner))];
      && out[|out| - 1] == Write(StrBytes(EndBanner))
      && Writes(out) == DataOf(WellFormed(elems)) + [StrBytes(EndBanner)]
  {
    PlayedContents(elems, cap);
    WritesAppend(Played(elems, cap), [Write(StrBytes(EndBanner))]);
    assert [Write(StrBytes(EndBanner))][..0] == [];
  }
}
