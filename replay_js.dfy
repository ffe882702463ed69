/**
 * The browser-side replay scheduler (assets/replay.js). A fetched recording
 * has its durations converted from nanoseconds to whole milliseconds; the
 * player then blasts through the records before the chosen start position,
 * sleeps min(duration, max_wait) before each later record in 20 ms ticks
 * while watching the pause flag, writes every record, and reports progress.
 * Arithmetic is on integers; JavaScript's parseInt of a quotient is
 * truncation toward zero.
 */
module ReplayPage {

  import opened Wrappers
  import opened Text
  import opened Records

  /** One element of the fetched array: Duration (ns, then ms) and the decoded Data. */
  datatype Item = Item(dur: int, data: Bytes)

  /** What the page does, in order. A Tick is one `await _sleep(20)`. */
  datatype Act =
    | Reset                       // term.reset()
    | Write(data: Bytes)          // term.write
    | Tick                        // one 20 ms timer
    | Progress(pct: Option<int>)  // prog(...); None when the division yields NaN
    | End                         // end()

  const TickMs: int := 20

  /**
   * parseInt(a / b) on integers: the quotient truncated toward zero. Its
   * magnitude is the number of whole |b|s in |a|, and its sign is that of a / b.
   */
  function Trunc(a: int, b: int): (q: int)
    requires b != 0
    ensures b > 0 ==> q == Quot(a, b)
    ensures a * b >= 0 ==> q >= 0
    ensures a * b <= 0 ==> q <= 0
    ensures var m, n := if a < 0 then -a else a, if b < 0 then -b else b;
      var k := if q < 0 then -q else q;
      k * n <= m < k * n + n
  {
    if b > 0 then Quot(a, b) else Quot(-a, -b)
  }

  function Min(a: int, b: int): int
  {
    if a < b then a else b
  }

  function Max(a: int, b: int): int
  {
    if a < b then b else a
  }

  // ------------------------------------------------------------------ sleep

  /** The number of iterations of sleep's loop: parseInt(ms / 20) + 1, none when that is not positive. */
  function LoopCount(ms: int): (n: nat)
    ensures ms >= 0 ==> n == ms / TickMs + 1
  {
    Max(0, Trunc(ms, TickMs) + 1)
  }

  /** The pause flag, as a function of how many ticks have elapsed: once set it stays set. */
  predicate Paused(pauseAt: Option<nat>, ticks: nat)
  {
    pauseAt.Some? && ticks >= pauseAt.value
  }

  /** Whether sleep(ms) returns true, starting after `t0` ticks. */
  predicate SleepExit(ms: int, t0: nat, pauseAt: Option<nat>)
  {
    Paused(pauseAt, t0 + LoopCount(ms))
  }

  /** The tick count when sleep(ms) returns. */
  function SleepEnd(ms: int, t0: nat, pauseAt: Option<nat>): (t: nat)
    ensures t0 <= t <= t0 + LoopCount(ms)
  {
    if SleepExit(ms, t0, pauseAt) then Max(t0, pauseAt.value) else t0 + LoopCount(ms)
  }

  /**
   * sleep(ms, paused): checks the flag before each of at most
   * parseInt(ms / 20) + 1 ticks and returns at once when it is set; the
   * result is the flag's final value.
   */
  method Sleep(ms: int, t0: nat, pauseAt: Option<nat>) returns (exit: bool, ticks: nat)
    ensures exit == SleepExit(ms, t0, pauseAt)
    ensures ticks == SleepEnd(ms, t0, pauseAt)
    ensures exit ==> Paused(pauseAt, ticks) && (ticks > t0 ==> !Paused(pauseAt, ticks - 1))
  {
    var loopCnt := Trunc(ms, TickMs) + 1;
    ticks := t0;
    var i := 0;
    while i < loopCnt
      invariant 0 <= i <= Max(0, loopCnt)
      invariant ticks == t0 + i
      invariant pauseAt.Some? && i > 0 ==> t0 + i <= pauseAt.value
    {
      if Paused(pauseAt, ticks) {
        return true, ticks;
      }
      ticks := ticks + 1;
      i := i + 1;
    }
    exit := Paused(pauseAt, ticks);
  }

  /** k ticks. */
  function Ticks(k: nat): (r: seq<Act>)
    ensures |r| == k
    decreases k
  {
    if k == 0 then [] else [Tick] + Ticks(k - 1)
  }

  // --------------------------------------------------------- replay_session

  /** The fixed inputs of one playback: max_wait, total_dur, the start offset in ms and when the user pauses. */
  datatype Config = Config(maxWait: int, totalDur: int, start: int, pauseAt: Option<nat>)

  /** The value passed to prog: parseInt(cur * 100 / total_dur), NaN for a zero total. */
  function Percent(cur: int, total: int): Option<int>
  {
    if total == 0 then None else Some(Trunc(cur * 100, total))
  }

  /** Whether the record is reached at or after the start, and so is slept for. */
  predicate Sleeps(cfg: Config, cur: int)
  {
    cur >= cfg.start
  }

  /** The tick count after the sleep (if any) before `item`. */
  function TicksAfter(item: Item, cfg: Config, cur: int, ticks: nat): (t: nat)
    ensures t >= ticks
  {
    if Sleeps(cfg, cur) then SleepEnd(Min(item.dur, cfg.maxWait), ticks, cfg.pauseAt) else ticks
  }

  /** Whether the pause is seen during the sleep before `item`. */
  predicate Stops(item: Item, cfg: Config, cur: int, ticks: nat)
  {
    Sleeps(cfg, cur) && SleepExit(Min(item.dur, cfg.maxWait), ticks, cfg.pauseAt)
  }

  /** The progress report after `item`, if its end lies beyond the start. */
  function ProgAfter(item: Item, cfg: Config, cur: int): seq<Act>
  {
    if cur + item.dur > cfg.start then [Progress(Percent(cur + item.dur, cfg.totalDur))] else []
  }

  /**
   * The actions of the loop over the remaining records, `cur` ms into the
   * recording and `ticks` ticks into the playback: records before the start
   * are written without sleeping; the others first sleep, and a pause seen
   * during that sleep ends the playback without end().
   */
  function Play(rs: seq<Item>, cfg: Config, cur: int, ticks: nat): seq<Act>
    decreases |rs|
  {
    if rs == [] then [End]
    else
      var t' := TicksAfter(rs[0], cfg, cur, ticks);
      if Stops(rs[0], cfg, cur, ticks) then Ticks(t' - ticks)
      else Ticks(t' - ticks) + ([Write(rs[0].data)] + (ProgAfter(rs[0], cfg, cur) + Play(rs[1..], cfg, cur + rs[0].dur, t')))
  }

  /** The data written by a trace, in order. */
  function Writes(acts: seq<Act>): seq<Bytes>
    decreases |acts|
  {
    if acts == [] then []
    else (if acts[0].Write? then [acts[0].data] else []) + Writes(acts[1..])
  }

  /** The values reported to prog, in order. */
  function Progs(acts: seq<Act>): seq<Option<int>>
    decreases |acts|
  {
    if acts == [] then []
    else (if acts[0].Progress? then [acts[0].pct] else []) + Progs(acts[1..])
  }

  /** How many times end() is called. */
  function Ends(acts: seq<Act>): nat
    decreases |acts|
  {
    if acts == [] then 0
    else (if acts[0].End? then 1 else 0) + Ends(acts[1..])
  }

  /** The data of the records, in order. */
  function DataSeq(rs: seq<Item>): (r: seq<Bytes>)
    ensures |r| == |rs| && forall k :: 0 <= k < |rs| ==> r[k] == rs[k].data
  {
    seq(|rs|, k requires 0 <= k < |rs| => rs[k].data)
  }

  /** The sum of the durations, as fetchAndParse accumulates it. */
  function SumDur(rs: seq<Item>): int
    decreases |rs|
  {
    if rs == [] then 0 else SumDur(rs[..|rs| - 1]) + rs[|rs| - 1].dur
  }

  lemma {:induction false} SumDurCons(rs: seq<Item>, k: nat)
    requires 0 < |rs| && k < |rs|
    ensures SumDur(rs[..k + 1]) == rs[0].dur + SumDur(rs[1..][..k])
    decreases k
  {
    if k > 0 {
      assert rs[..k + 1][..k] == rs[..k];
      assert rs[1..][..k][..k - 1] == rs[1..][..k - 1];
      SumDurCons(rs, k - 1);
    } else {
      assert rs[..1][..0] == [];
    }
  }

  /** Ticks write nothing, report nothing and do not end the playback. */
  lemma {:induction false} TicksPrefix(k: nat, rest: seq<Act>)
    ensures Writes(Ticks(k) + rest) == Writes(rest)
    ensures Progs(Ticks(k) + rest) == Progs(rest)
    ensures Ends(Ticks(k) + rest) == Ends(rest)
    decreases k
  {
    if k == 0 {
      assert Ticks(k) + rest == rest;
    } else {
      assert (Ticks(k) + rest)[1..] == Ticks(k - 1) + rest;
      TicksPrefix(k - 1, rest);
    }
  }

  lemma ConsAct(x: Act, rest: seq<Act>)
    ensures Writes([x] + rest) == (if x.Write? then [x.data] else []) + Writes(rest)
    ensures Progs([x] + rest) == (if x.Progress? then [x.pct] else []) + Progs(rest)
    ensures Ends([x] + rest) == (if x.End? then 1 else 0) + Ends(rest)
  {
    assert ([x] + rest)[1..] == rest;
  }

  /** The projections of one played record followed by the rest of the playback. */
  lemma PlayedStep(item: Item, cfg: Config, cur: int, k: nat, rest: seq<Act>)
    ensures var s := Ticks(k) + ([Write(item.data)] + (ProgAfter(item, cfg, cur) + rest));
      && Writes(s) == [item.data] + Writes(rest)
      && Progs(s) == (if cur + item.dur > cfg.start then [Percent(cur + item.dur, cfg.totalDur)] else []) + Progs(rest)
      && Ends(s) == Ends(rest)
  {
    var pr := ProgAfter(item, cfg, cur);
    TicksPrefix(k, [Write(item.data)] + (pr + rest));
    ConsAct(Write(item.data), pr + rest);
    if pr != [] {
      ConsAct(pr[0], rest);
      assert pr + rest == [pr[0]] + rest;
    } else {
      assert pr + rest == rest;
    }
  }

  /** The projections of a playback that stops at a pause: ticks only. */
  lemma StoppedStep(k: nat)
    ensures Writes(Ticks(k)) == [] && Progs(Ticks(k)) == [] && Ends(Ticks(k)) == 0
  {
    TicksPrefix(k, []);
    assert Ticks(k) + [] == Ticks(k);
  }

  lemma DataSeqCons(rs: seq<Item>, n: nat)
    requires n < |rs|
    ensures DataSeq(rs[..n + 1]) == [rs[0].data] + DataSeq(rs[1..][..n])
  {
    assert rs[..n + 1] == [rs[0]] + rs[1..][..n];
  }

  lemma LastOfNested(a: seq<Act>, b: seq<Act>, c: seq<Act>, d: seq<Act>)
    requires |d| > 0
    ensures var s := a + (b + (c + d));
      |s| > 0 && s[|s| - 1] == d[|d| - 1]
  {
  }

  /** All records are written in order up to the point where a pause is seen. */
  lemma {:induction false} PlayWritesPrefix(rs: seq<Item>, cfg: Config, cur: int, ticks: nat)
    ensures var w := Writes(Play(rs, cfg, cur, ticks));
      |w| <= |rs| && w == DataSeq(rs[..|w|])
    decreases |rs|
  {
    if rs == [] {
      ConsAct(End, []);
      assert [End] + [] == [End];
    } else {
      var t' := TicksAfter(rs[0], cfg, cur, ticks);
      if Stops(rs[0], cfg, cur, ticks) {
        StoppedStep(t' - ticks);
        assert rs[..0] == [];
      } else {
        var rest := Play(rs[1..], cfg, cur + rs[0].dur, t');
        PlayWritesPrefix(rs[1..], cfg, cur + rs[0].dur, t');
        PlayedStep(rs[0], cfg, cur, t' - ticks, rest);
        DataSeqCons(rs, |Writes(rest)|);
      }
    }
  }

  lemma {:induction false} PlayEndCount(rs: seq<Item>, cfg: Config, cur: int, ticks: nat)
    ensures var p := Play(rs, cfg, cur, ticks);
      Ends(p) <= 1 && (Ends(p) == 1 ==> |Writes(p)| == |rs|)
    decreases |rs|
  {
    if rs == [] {
      ConsAct(End, []);
      assert [End] + [] == [End];
    } else {
      var t' := TicksAfter(rs[0], cfg, cur, ticks);
      if Stops(rs[0], cfg, cur, ticks) {
        StoppedStep(t' - ticks);
      } else {
        PlayEndCount(rs[1..], cfg, cur + rs[0].dur, t');
        PlayedStep(rs[0], cfg, cur, t' - ticks, Play(rs[1..], cfg, cur + rs[0].dur, t'));
      }
    }
  }

  lemma {:induction false} PlayEndLast(rs: seq<Item>, cfg: Config, cur: int, ticks: nat)
    ensures var p := Play(rs, cfg, cur, ticks);
      Ends(p) == 1 ==> p[|p| - 1] == End
    decreases |rs|
  {
    if rs != [] {
      var t' := TicksAfter(rs[0], cfg, cur, ticks);
      if Stops(rs[0], cfg, cur, ticks) {
        StoppedStep(t' - ticks);
      } else {
        var rest := Play(rs[1..], cfg, cur + rs[0].dur, t');
        var tk, pr := Ticks(t' - ticks), ProgAfter(rs[0], cfg, cur);
        PlayEndLast(rs[1..], cfg, cur + rs[0].dur, t');
        PlayedStep(rs[0], cfg, cur, t' - ticks, rest);
        if Ends(rest) == 1 {
          LastOfNested(tk, [Write(rs[0].data)], pr, rest);
        }
      }
    }
  }

  /** end() is called at most once, and then as the very last action, after every record was written. */
  lemma PlayEnd(rs: seq<Item>, cfg: Config, cur: int, ticks: nat)
    ensures var p := Play(rs, cfg, cur, ticks);
      && Ends(p) <= 1
      && (Ends(p) == 1 ==> |Writes(p)| == |rs| && p[|p| - 1] == End)
  {
    PlayEndCount(rs, cfg, cur, ticks);
    PlayEndLast(rs, cfg, cur, ticks);
  }

  /** Without a pause end() is reached. */
  lemma {:induction false} PlayEndsUnpaused(rs: seq<Item>, cfg: Config, cur: int, ticks: nat)
    requires cfg.pauseAt.None?
    ensures Ends(Play(rs, cfg, cur, ticks)) == 1
    decreases |rs|
  {
    if rs == [] {
      ConsAct(End, []);
      assert [End] + [] == [End];
    } else {
      var t' := TicksAfter(rs[0], cfg, cur, ticks);
      PlayEndsUnpaused(rs[1..], cfg, cur + rs[0].dur, t');
      PlayedStep(rs[0], cfg, cur, t' - ticks, Play(rs[1..], cfg, cur + rs[0].dur, t'));
    }
  }

  /** Without a pause every record is written, in order, and end() is called once, as the last action. */
  lemma PlayUnpaused(rs: seq<Item>, cfg: Config, cur: int, ticks: nat)
    requires cfg.pauseAt.None?
    ensures var p := Play(rs, cfg, cur, ticks);
      && Writes(p) == DataSeq(rs)
      && Ends(p) == 1 && p[|p| - 1] == End
  {
    PlayEndsUnpaused(rs, cfg, cur, ticks);
    PlayEnd(rs, cfg, cur, ticks);
    PlayWritesPrefix(rs, cfg, cur, ticks);
    assert rs[..|rs|] == rs;
  }

  /**
   * Records whose cumulative offset is below the start are blasted through:
   * no tick at all is spent on them.
   */
  lemma BlastThroughBeforeStart(rs: seq<Item>, cfg: Config, cur: int, ticks: nat)
    requires forall k :: 0 <= k < |rs| ==> cur + SumDur(rs[..k]) < cfg.start
    ensures Tick !in Play(rs, cfg, cur, ticks)
  {
    PlayBlastsPrefix(rs, |rs|, cfg, cur, ticks);
    assert rs[..|rs|] == rs && rs[|rs|..] == [];
    BlastedNoTick(rs, cfg, cur);
  }

  /** The actions for records reached before the start: each is written and its progress reported, with no sleep. */
  function Blasted(rs: seq<Item>, cfg: Config, cur: int): seq<Act>
    decreases |rs|
  {
    if rs == [] then []
    else [Write(rs[0].data)] + (ProgAfter(rs[0], cfg, cur) + Blasted(rs[1..], cfg, cur + rs[0].dur))
  }

  /** Blasting spends no tick. */
  lemma {:induction false} BlastedNoTick(rs: seq<Item>, cfg: Config, cur: int)
    ensures Tick !in Blasted(rs, cfg, cur)
    decreases |rs|
  {
    if rs != [] {
      var pr := ProgAfter(rs[0], cfg, cur);
      var rest := Blasted(rs[1..], cfg, cur + rs[0].dur);
      BlastedNoTick(rs[1..], cfg, cur + rs[0].dur);
      assert Blasted(rs, cfg, cur) == [Write(rs[0].data)] + (pr + rest);
    }
  }

  /** Blasting writes every record's data, in order. */
  lemma {:induction false} BlastedWrites(rs: seq<Item>, cfg: Config, cur: int)
    ensures Writes(Blasted(rs, cfg, cur)) == DataSeq(rs)
    decreases |rs|
  {
    if rs != [] {
      BlastedWrites(rs[1..], cfg, cur + rs[0].dur);
      BlastedUnfold(rs, cfg, cur);
      BlastedStep(rs[0], ProgAfter(rs[0], cfg, cur), Blasted(rs[1..], cfg, cur + rs[0].dur));
      DataSeqCons(rs, |rs| - 1);
      assert rs[..|rs|] == rs && rs[1..][..|rs| - 1] == rs[1..];
    }
  }

  /** One blasted record: its write, at most one progress report, then the rest. */
  lemma BlastedStep(item: Item, pr: seq<Act>, rest: seq<Act>)
    requires pr == [] || (|pr| == 1 && pr[0].Progress?)
    ensures Writes([Write(item.data)] + (pr + rest)) == [item.data] + Writes(rest)
  {
    ConsAct(Write(item.data), pr + rest);
    if pr != [] {
      ConsAct(pr[0], rest);
      assert pr + rest == [pr[0]] + rest;
    } else {
      assert pr + rest == rest;
    }
  }

  /**
   * Seeking: when the first n records all start before the start offset,
   * playback first blasts through them (no tick, each written and reported)
   * and then plays the rest from their summed offset, on the same tick count.
   */
  lemma PlayBlastsPrefix(rs: seq<Item>, n: nat, cfg: Config, cur: int, ticks: nat)
    requires n <= |rs|
    requires forall k :: 0 <= k < n ==> cur + SumDur(rs[..k]) < cfg.start
    ensures Play(rs, cfg, cur, ticks) == Blasted(rs[..n], cfg, cur) + Play(rs[n..], cfg, cur + SumDur(rs[..n]), ticks)
  {
    BeforeStartSteps(rs, n, cfg, cur);
    PlaySteps(rs, n, cfg, cur, ticks);
  }

  /** The offset reached after the first n records, counted one record at a time. */
  function OffsetAfter(rs: seq<Item>, n: nat, cur: int): int
    requires n <= |rs|
    decreases n
  {
    if n == 0 then cur else OffsetAfter(rs[1..], n - 1, cur + rs[0].dur)
  }

  /** Every one of the first n records is reached before the start, counted one record at a time. */
  predicate AllBeforeStart(rs: seq<Item>, n: nat, cfg: Config, cur: int)
    requires n <= |rs|
    decreases n
  {
    n == 0 || (cur < cfg.start && AllBeforeStart(rs[1..], n - 1, cfg, cur + rs[0].dur))
  }

  /** The cumulative-offset condition, restated one record at a time. */
  lemma {:induction false} BeforeStartSteps(rs: seq<Item>, n: nat, cfg: Config, cur: int)
    requires n <= |rs|
    requires forall k :: 0 <= k < n ==> cur + SumDur(rs[..k]) < cfg.start
    ensures AllBeforeStart(rs, n, cfg, cur)
    ensures OffsetAfter(rs, n, cur) == cur + SumDur(rs[..n])
    decreases n
  {
    if n == 0 {
      assert rs[..0] == [];
    } else {
      BeforeStartTail(rs, n, cfg, cur);
      BeforeStartSteps(rs[1..], n - 1, cfg, cur + rs[0].dur);
    }
  }

  /** PlayBlastsPrefix, by induction on n over the one-record-at-a-time condition. */
  lemma {:induction false} PlaySteps(rs: seq<Item>, n: nat, cfg: Config, cur: int, ticks: nat)
    requires n <= |rs| && AllBeforeStart(rs, n, cfg, cur)
    ensures Play(rs, cfg, cur, ticks) == Blasted(rs[..n], cfg, cur) + Play(rs[n..], cfg, OffsetAfter(rs, n, cur), ticks)
    decreases n
  {
    if n == 0 {
      assert rs[..0] == [] && rs[0..] == rs;
    } else {
      var w, pr, cur', tl := Write(rs[0].data), ProgAfter(rs[0], cfg, cur), cur + rs[0].dur, rs[1..];
      var off := OffsetAfter(rs, n, cur);
      var b, r := Blasted(tl[..n - 1], cfg, cur'), Play(rs[n..], cfg, off, ticks);
      PlaySteps(tl, n - 1, cfg, cur', ticks);
      assert tl[n - 1..] == rs[n..] && OffsetAfter(tl, n - 1, cur') == off;
      var p := Play(tl, cfg, cur', ticks);
      assert p == b + r;
      PlayBeforeStart(rs, cfg, cur, ticks);
      assert rs[..n][1..] == tl[..n - 1] && rs[..n][0] == rs[0];
      BlastedUnfold(rs[..n], cfg, cur);
      AppendAssoc([w], pr, b, r);
    }
  }

  lemma BlastedUnfold(rs: seq<Item>, cfg: Config, cur: int)
    requires rs != []
    ensures Blasted(rs, cfg, cur) == [Write(rs[0].data)] + (ProgAfter(rs[0], cfg, cur) + Blasted(rs[1..], cfg, cur + rs[0].dur))
  {
  }

  lemma AppendAssoc(x: seq<Act>, y: seq<Act>, z: seq<Act>, u: seq<Act>)
    ensures x + (y + (z + u)) == (x + (y + z)) + u
  {
  }

  /** The first of n records before the start is reached before it, and so are the others from the next offset on. */
  lemma BeforeStartTail(rs: seq<Item>, n: nat, cfg: Config, cur: int)
    requires 0 < n <= |rs|
    requires forall k :: 0 <= k < n ==> cur + SumDur(rs[..k]) < cfg.start
    ensures cur < cfg.start
    ensures forall k :: 0 <= k < n - 1 ==> cur + rs[0].dur + SumDur(rs[1..][..k]) < cfg.start
    ensures cur + rs[0].dur + SumDur(rs[1..][..n - 1]) == cur + SumDur(rs[..n])
  {
    assert rs[..0] == [];
    assert cur + SumDur(rs[..0]) < cfg.start;
    forall k | 0 <= k < n - 1 ensures cur + rs[0].dur + SumDur(rs[1..][..k]) < cfg.start {
      SumDurCons(rs, k);
    }
    SumDurCons(rs, n - 1);
  }

  /** A record reached before the start is written and reported without a sleep. */
  lemma PlayBeforeStart(rs: seq<Item>, cfg: Config, cur: int, ticks: nat)
    requires rs != [] && cur < cfg.start
    ensures Play(rs, cfg, cur, ticks) == [Write(rs[0].data)] + (ProgAfter(rs[0], cfg, cur) + Play(rs[1..], cfg, cur + rs[0].dur, ticks))
  {
    assert Ticks(0) == [];
  }

  /** A record at or after the start is preceded by exactly LoopCount(min(Duration, max_wait)) ticks when no pause is seen. */
  lemma SleepBeforeRecord(rs: seq<Item>, cfg: Config, cur: int, ticks: nat)
    requires rs != [] && cur >= cfg.start && cfg.pauseAt.None?
    ensures var n := LoopCount(Min(rs[0].dur, cfg.maxWait));
      var p := Play(rs, cfg, cur, ticks);
      |p| > n && p[..n] == Ticks(n) && p[n] == Write(rs[0].data)
  {
    var n := LoopCount(Min(rs[0].dur, cfg.maxWait));
    assert TicksAfter(rs[0], cfg, cur, ticks) - ticks == n;
  }

  /** Integer division of non-negative numbers by a positive one is monotone. */
  lemma DivMonotone(a: int, b: int, d: int)
    requires 0 <= a <= b && d > 0
    ensures a / d <= b / d
  {
    var qa, qb := a / d, b / d;
    var ra, rb := a % d, b % d;
    assert a == d * qa + ra && 0 <= ra;
    assert b == d * qb + rb && rb < d;
    if qa > qb {
      MulGrows(d, qa - qb);
    }
  }

  lemma MulGrows(d: int, x: int)
    requires d > 0 && x >= 1
    ensures d * x >= d
  {
  }

  /** Truncated division by a positive number is monotone. */
  lemma TruncMonotone(a: int, b: int, d: int)
    requires a <= b && d > 0
    ensures Trunc(a, d) <= Trunc(b, d)
  {
    if a >= 0 {
      DivMonotone(a, b, d);
    } else if b < 0 {
      DivMonotone(-b, -a, d);
    }
  }

  /** Every element of the list is at least the bound, and the list never decreases. */
  predicate NonDecreasingFrom(ps: seq<Option<int>>, lo: int)
  {
    && (forall i :: 0 <= i < |ps| ==> ps[i].Some? && lo <= ps[i].value)
    && (forall i, j :: 0 <= i < j < |ps| ==> ps[i].value <= ps[j].value)
  }

  lemma ConsNonDecreasing(lo: int, x: int, ps: seq<Option<int>>)
    requires lo <= x && NonDecreasingFrom(ps, x)
    ensures NonDecreasingFrom([Some(x)] + ps, lo)
  {
  }

  lemma WeakenNonDecreasing(lo: int, x: int, ps: seq<Option<int>>)
    requires lo <= x && NonDecreasingFrom(ps, x)
    ensures NonDecreasingFrom(ps, lo)
  {
  }

  /**
   * With non-negative durations and a positive total, the progress values
   * are numbers, none below the progress at the current offset, and they
   * never decrease.
   */
  lemma {:induction false} ProgressMonotone(rs: seq<Item>, cfg: Config, cur: int, ticks: nat)
    requires cfg.totalDur > 0
    requires forall k :: 0 <= k < |rs| ==> rs[k].dur >= 0
    ensures NonDecreasingFrom(Progs(Play(rs, cfg, cur, ticks)), Trunc(cur * 100, cfg.totalDur))
    decreases |rs|
  {
    if rs == [] {
      ConsAct(End, []);
      assert [End] + [] == [End];
    } else {
      var t' := TicksAfter(rs[0], cfg, cur, ticks);
      if Stops(rs[0], cfg, cur, ticks) {
        PlayProgsStopped(rs, cfg, cur, ticks);
      } else {
        ProgressMonotone(rs[1..], cfg, cur + rs[0].dur, t');
        ProgressPlayedStep(rs, cfg, cur, ticks);
      }
    }
  }

  /** Progress stays monotone across one played record. */
  lemma ProgressPlayedStep(rs: seq<Item>, cfg: Config, cur: int, ticks: nat)
    requires cfg.totalDur > 0 && rs != [] && rs[0].dur >= 0 && !Stops(rs[0], cfg, cur, ticks)
    requires var cur' := cur + rs[0].dur;
      NonDecreasingFrom(Progs(Play(rs[1..], cfg, cur', TicksAfter(rs[0], cfg, cur, ticks))), Trunc(cur' * 100, cfg.totalDur))
    ensures NonDecreasingFrom(Progs(Play(rs, cfg, cur, ticks)), Trunc(cur * 100, cfg.totalDur))
  {
    var cur' := cur + rs[0].dur;
    var lo, x := Trunc(cur * 100, cfg.totalDur), Trunc(cur' * 100, cfg.totalDur);
    var rest := Progs(Play(rs[1..], cfg, cur', TicksAfter(rs[0], cfg, cur, ticks)));
    PlayProgsStep(rs, cfg, cur, ticks);
    TruncMonotone(cur * 100, cur' * 100, cfg.totalDur);
    if cur' > cfg.start {
      ConsNonDecreasing(lo, x, rest);
    } else {
      WeakenNonDecreasing(lo, x, rest);
    }
  }

  /** A playback stopped by a pause during the first sleep reports no progress. */
  lemma PlayProgsStopped(rs: seq<Item>, cfg: Config, cur: int, ticks: nat)
    requires rs != [] && Stops(rs[0], cfg, cur, ticks)
    ensures Progs(Play(rs, cfg, cur, ticks)) == []
  {
    StoppedStep(TicksAfter(rs[0], cfg, cur, ticks) - ticks);
  }

  /** The progress reports of a playback whose first record is played, not stopped at. */
  lemma PlayProgsStep(rs: seq<Item>, cfg: Config, cur: int, ticks: nat)
    requires rs != [] && !Stops(rs[0], cfg, cur, ticks)
    ensures var cur' := cur + rs[0].dur;
      Progs(Play(rs, cfg, cur, ticks))
      == (if cur' > cfg.start then [Percent(cur', cfg.totalDur)] else [])
         + Progs(Play(rs[1..], cfg, cur', TicksAfter(rs[0], cfg, cur, ticks)))
  {
    var t' := TicksAfter(rs[0], cfg, cur, ticks);
    var rest := Play(rs[1..], cfg, cur + rs[0].dur, t');
    assert Play(rs, cfg, cur, ticks) == Ticks(t' - ticks) + ([Write(rs[0].data)] + (ProgAfter(rs[0], cfg, cur) + rest));
    PlayedStep(rs[0], cfg, cur, t' - ticks, rest);
  }

  /** One loop iteration of replay_session, past the sleep: write, advance, report progress. */
  method PlayItem(trace: seq<Act>, item: Item, cfg: Config, cur: int) returns (trace': seq<Act>, cur': int)
    ensures trace' == trace + [Write(item.data)] + ProgAfter(item, cfg, cur)
    ensures cur' == cur + item.dur
  {
    trace' := trace + [Write(item.data)];
    cur' := cur + item.dur;
    if cur' > cfg.start {
      trace' := trace' + [Progress(Percent(cur', cfg.totalDur))];
    } else {
      assert trace' + [] == trace';
    }
  }

  /** The sleep before a record, when it is due. */
  method SleepItem(trace: seq<Act>, item: Item, cfg: Config, cur: int, ticks: nat) returns (trace': seq<Act>, exit: bool, ticks': nat)
    ensures exit == Stops(item, cfg, cur, ticks)
    ensures ticks' == TicksAfter(item, cfg, cur, ticks)
    ensures trace' == trace + Ticks(ticks' - ticks)
  {
    if cur >= cfg.start {
      exit, ticks' := Sleep(Min(item.dur, cfg.maxWait), ticks, cfg.pauseAt);
      trace' := trace + Ticks(ticks' - ticks);
    } else {
      exit, ticks' := false, ticks;
      assert Ticks(0) == [];
      trace' := trace;
      assert trace + [] == trace;
    }
  }

  /** Play over a non-empty list whose first record is paused during its sleep. */
  lemma PlayStops(rs: seq<Item>, i: nat, cfg: Config, cur: int, ticks: nat)
    requires i < |rs| && Stops(rs[i], cfg, cur, ticks)
    ensures Play(rs[i..], cfg, cur, ticks) == Ticks(TicksAfter(rs[i], cfg, cur, ticks) - ticks)
  {
    assert rs[i..][0] == rs[i];
  }

  /** Play over a non-empty list whose first record is played. */
  lemma PlayGoes(trace: seq<Act>, rs: seq<Item>, i: nat, cfg: Config, cur: int, ticks: nat)
    requires i < |rs| && !Stops(rs[i], cfg, cur, ticks)
    ensures var t' := TicksAfter(rs[i], cfg, cur, ticks);
      trace + Play(rs[i..], cfg, cur, ticks) ==
      trace + Ticks(t' - ticks) + [Write(rs[i].data)] + ProgAfter(rs[i], cfg, cur) + Play(rs[i + 1..], cfg, cur + rs[i].dur, t')
  {
    assert rs[i..][0] == rs[i] && rs[i..][1..] == rs[i + 1..];
  }

  /** One iteration of replay_session's loop: the sleep when due, then (unless paused) the write and the progress report. */
  method PlayRecord(trace: seq<Act>, rs: seq<Item>, i: nat, cfg: Config, cur: int, ticks: nat)
    returns (trace': seq<Act>, exit: bool, cur': int, ticks': nat)
    requires i < |rs|
    ensures exit ==> trace' == trace + Play(rs[i..], cfg, cur, ticks)
    ensures !exit ==> trace' + Play(rs[i + 1..], cfg, cur', ticks') == trace + Play(rs[i..], cfg, cur, ticks)
  {
    var item := rs[i];
    cur' := cur;
    trace', exit, ticks' := SleepItem(trace, item, cfg, cur, ticks);
    if exit {
      PlayStops(rs, i, cfg, cur, ticks);
      return;
    }
    PlayGoes(trace, rs, i, cfg, cur, ticks);
    trace', cur' := PlayItem(trace', item, cfg, cur);
  }

  /**
   * replay_session: the start percentage becomes a millisecond offset into
   * the recording, the terminal is reset, and the records are played.
   */
  method ReplaySession(rs: seq<Item>, maxWait: int, totalDur: int, startPct: int, pauseAt: Option<nat>)
    returns (trace: seq<Act>)
    ensures trace == [Reset] + Play(rs, Config(maxWait, totalDur, Trunc(totalDur * startPct, 100), pauseAt), 0, 0)
  {
    var cfg := Config(maxWait, totalDur, Trunc(totalDur * startPct, 100), pauseAt);
    ghost var whole := [Reset] + Play(rs, cfg, 0, 0);
    var cur := 0;
    var ticks: nat := 0;
    trace := [Reset];
    var i := 0;
    assert rs[0..] == rs;
    while i < |rs|
      invariant 0 <= i <= |rs|
      invariant trace + Play(rs[i..], cfg, cur, ticks) == whole
    {
      var exit;
      trace, exit, cur, ticks := PlayRecord(trace, rs, i, cfg, cur, ticks);
      if exit {
        return;
      }
      i := i + 1;
    }
    assert rs[i..] == [];
    trace := trace + [End];
  }

  // ---------------------------------------------------------- forwardScreen

  /** The records forwardScreen writes: while the offset before a record is below the threshold. */
  function Forward(rs: seq<Item>, cur: int, threshold: int): seq<Bytes>
    decreases |rs|
  {
    if rs == [] || cur >= threshold then [] else [rs[0].data] + Forward(rs[1..], cur + rs[0].dur, threshold)
  }

  /** What is written is the data of a prefix of the records, in order. */
  lemma {:induction false} ForwardPrefix(rs: seq<Item>, cur: int, threshold: int)
    ensures var w := Forward(rs, cur, threshold);
      |w| <= |rs| && w == DataSeq(rs[..|w|])
    decreases |rs|
  {
    if rs != [] && cur < threshold {
      var cur' := cur + rs[0].dur;
      ForwardPrefix(rs[1..], cur', threshold);
      var wr := Forward(rs[1..], cur', threshold);
      assert Forward(rs, cur, threshold) == [rs[0].data] + wr;
      DataSeqCons(rs, |wr|);
    } else if rs != [] {
      assert rs[..0] == [];
    }
  }

  /** Every written record starts below the threshold; the first one left out does not. */
  lemma {:induction false} ForwardBounds(rs: seq<Item>, cur: int, threshold: int)
    ensures var w := Forward(rs, cur, threshold);
      && |w| <= |rs|
      && (forall k :: 0 <= k < |w| ==> cur + SumDur(rs[..k]) < threshold)
      && (|w| < |rs| ==> cur + SumDur(rs[..|w|]) >= threshold)
    decreases |rs|
  {
    var w := Forward(rs, cur, threshold);
    ForwardPrefix(rs, cur, threshold);
    if rs != [] && cur < threshold {
      var cur' := cur + rs[0].dur;
      ForwardBounds(rs[1..], cur', threshold);
      ForwardPrefix(rs[1..], cur', threshold);
      var wr := Forward(rs[1..], cur', threshold);
      assert w == [rs[0].data] + wr;
      forall k | 0 <= k < |w| ensures cur + SumDur(rs[..k]) < threshold {
        if k > 0 {
          SumDurCons(rs, k - 1);
        } else {
          assert rs[..0] == [];
        }
      }
      if |w| < |rs| {
        SumDurCons(rs, |wr|);
      }
    } else if rs != [] {
      assert rs[..0] == [];
    }
  }

  /**
   * Exactly the records whose cumulative offset is below the threshold are
   * written, as a prefix in order: every written one starts below it, and
   * the first one left out starts at or above it.
   */
  lemma ForwardExact(rs: seq<Item>, cur: int, threshold: int)
    ensures var w := Forward(rs, cur, threshold);
      && |w| <= |rs| && w == DataSeq(rs[..|w|])
      && (forall k :: 0 <= k < |w| ==> cur + SumDur(rs[..k]) < threshold)
      && (|w| < |rs| ==> cur + SumDur(rs[..|w|]) >= threshold)
  {
    ForwardPrefix(rs, cur, threshold);
    ForwardBounds(rs, cur, threshold);
  }

  /** The actions writing the given data, one after the other. */
  function WriteActs(ds: seq<Bytes>): (r: seq<Act>)
    ensures |r| == |ds| && forall k :: 0 <= k < |ds| ==> r[k] == Write(ds[k])
  {
    seq(|ds|, k requires 0 <= k < |ds| => Write(ds[k]))
  }

  /**
   * forwardScreen: the threshold is the given percentage of the page-global
   * total_dur, not of a parameter; the terminal is reset and the records
   * before the threshold are written without any sleep.
   */
  method ForwardScreen(rs: seq<Item>, endPct: int, globalTotalDur: int) returns (trace: seq<Act>)
    ensures trace == [Reset] + WriteActs(Forward(rs, 0, Trunc(globalTotalDur * endPct, 100)))
  {
    var cur := 0;
    var threshold := Trunc(globalTotalDur * endPct, 100);
    trace := [Reset];
    var i := 0;
    while i < |rs|
      invariant 0 <= i <= |rs|
      invariant trace + WriteActs(Forward(rs[i..], cur, threshold)) == [Reset] + WriteActs(Forward(rs, 0, threshold))
    {
      var item := rs[i];
      assert rs[i..][0] == item && rs[i..][1..] == rs[i + 1..];
      if cur >= threshold {
        assert WriteActs(Forward(rs[i..], cur, threshold)) == [];
        assert trace + [] == trace;
        return;
      }
      var rest := Forward(rs[i + 1..], cur + item.dur, threshold);
      assert WriteActs([item.data] + rest) == [Write(item.data)] + WriteActs(rest);
      trace := trace + [Write(item.data)];
      cur := cur + item.dur;
      i := i + 1;
    }
    assert rs[i..] == [];
    assert WriteActs([]) == [];
    assert trace + [] == trace;
  }

  // ---------------------------------------------------------- fetchAndParse

  /** An item with its duration converted from ns to whole ms, as parseInt(Duration / 1000000). */
  function ToMs(it: Item): (r: Item)
    ensures r.data == it.data && r.dur == Quot(it.dur, NsPerMs)
    ensures it.dur >= 0 ==> r.dur * NsPerMs <= it.dur < r.dur * NsPerMs + NsPerMs
    ensures it.dur < 0 ==> r.dur * NsPerMs - NsPerMs < it.dur <= r.dur * NsPerMs
  {
    Item(Quot(it.dur, NsPerMs), it.data)
  }

  /**
   * fetchAndParse: a failed fetch changes nothing and calls no update;
   * otherwise each Duration is converted to ms in place, and update receives
   * the records and the sum of their new durations.
   */
  method FetchAndParse(fetched: bool, records: array<Item>) returns (update: Option<int>)
    modifies records
    ensures !fetched ==> update.None? && records[..] == old(records[..])
    ensures fetched ==> update == Some(SumDur(records[..]))
    ensures fetched ==> forall k :: 0 <= k < records.Length ==> records[k] == ToMs(old(records[k]))
  {
    if !fetched {
      return None;
    }
    var totalDur := 0;
    var i := 0;
    while i < records.Length
      invariant 0 <= i <= records.Length
      invariant forall k :: 0 <= k < i ==> records[k] == ToMs(old(records[k]))
      invariant forall k :: i <= k < records.Length ==> records[k] == old(records[k])
      invariant totalDur == SumDur(records[..i])
    {
      records[i] := ToMs(records[i]);
      assert records[..i + 1][..i] == records[..i];
      totalDur := totalDur + records[i].dur;
      i := i + 1;
    }
    assert records[..i] == records[..];
    update := Some(totalDur);
  }
}
