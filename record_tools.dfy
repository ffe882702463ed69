/**
 * The web server's view of the recordings directory (web/record.go): the
 * length of a recording in seconds, the listing of ".scr" files with their
 * size in KiB and their length, and renaming a recording.
 */
module RecordTools {

  import opened Wrappers
  import opened Text
  import opened Records

  /** The recordings as a streaming decoder sees them, by path. */
  type Store = map<string, Decoded>

  // ------------------------------------------------------------ getDuration

  /** dur += record.Dur.Milliseconds(): truncation toward zero, then int64 addition. */
  function AddMs(acc: int, r: Record): int
  {
    WrapInt64(acc + Quot(r.dur, NsPerMs))
  }

  /** The int64 accumulator after adding up the given records in order. */
  function WrapSumMs(rs: seq<Record>): int
    decreases |rs|
  {
    if rs == [] then 0 else AddMs(WrapSumMs(rs[..|rs| - 1]), rs[|rs| - 1])
  }

  /** The exact sum of the records' whole milliseconds. */
  function SumMs(rs: seq<Record>): int
    decreases |rs|
  {
    if rs == [] then 0 else SumMs(rs[..|rs| - 1]) + Quot(rs[|rs| - 1].dur, NsPerMs)
  }

  lemma WrapSumSnoc(rs: seq<Record>, r: Record)
    ensures WrapSumMs(rs + [r]) == AddMs(WrapSumMs(rs), r)
  {
    assert (rs + [r])[..|rs|] == rs;
  }

  /** getDuration: 0 for a file that cannot be opened, else the millisecond total / 1000 + 1. */
  function DurationOf(store: Store, fname: string): int
  {
    var path := RecordDir + fname;
    if path !in store then 0 else Quot(WrapSumMs(WellFormed(store[path])), 1000) + 1
  }

  predicate NonNegative(rs: seq<Record>)
  {
    forall k :: 0 <= k < |rs| ==> rs[k].dur >= 0
  }

  /** With non-negative durations whose total fits in an int64, the accumulator never wraps. */
  lemma {:induction false} WrapSumExact(rs: seq<Record>)
    requires NonNegative(rs) && SumMs(rs) < TwoTo63
    ensures WrapSumMs(rs) == SumMs(rs) && SumMs(rs) >= 0
    decreases |rs|
  {
    if rs != [] {
      var front := rs[..|rs| - 1];
      assert NonNegative(front) by {
        forall k | 0 <= k < |front| ensures front[k].dur >= 0 {
          assert front[k] == rs[k];
        }
      }
      assert Quot(rs[|rs| - 1].dur, NsPerMs) >= 0;
      WrapSumExact(front);
    }
  }

  /**
   * A recording that can be opened and whose durations are non-negative (and
   * sum to less than int64's range) lasts at least one second; its length is
   * exactly the whole seconds of the millisecond total, plus one.
   */
  lemma DurationAtLeastOne(store: Store, fname: string)
    requires RecordDir + fname in store
    requires NonNegative(WellFormed(store[RecordDir + fname]))
    requires SumMs(WellFormed(store[RecordDir + fname])) < TwoTo63
    ensures DurationOf(store, fname) == SumMs(WellFormed(store[RecordDir + fname])) / 1000 + 1
    ensures DurationOf(store, fname) >= 1
  {
    WrapSumExact(WellFormed(store[RecordDir + fname]));
  }

  /** A malformed element changes nothing: the length is that of the file without it. */
  lemma DurationSkipsMalformed(a: Decoded, b: Decoded, store: Store, fname: string)
    requires RecordDir + fname in store && store[RecordDir + fname] == a + [None] + b
    ensures DurationOf(store, fname) == DurationOf(store[RecordDir + fname := a + b], fname)
  {
    WellFormedAppend(a + [None], b);
    WellFormedAppend(a, [None]);
    WellFormedAppend(a, b);
    var none: Decoded := [None];
    assert none[..0] == [];
    assert WellFormed(none) == [];
    assert WellFormed(a) + [] == WellFormed(a);
  }

  /** The decoder loop of getDuration over the opened file. */
  method GetDuration(store: Store, fname: string) returns (d: int)
    ensures d == DurationOf(store, fname)
    ensures RecordDir + fname !in store ==> d == 0
  {
    var path := RecordDir + fname;
    if path !in store {
      // failed to open record file
      return 0;
    }
    var elems := store[path];
    var dur := 0;
    var i := 0;
    while i < |elems|
      invariant 0 <= i <= |elems|
      invariant dur == WrapSumMs(WellFormed(elems[..i]))
    {
      WellFormedSnoc(elems, i);
      match elems[i] {
        case None =>
          // failed to decode the record
        case Some(record) =>
          WrapSumSnoc(WellFormed(elems[..i]), record);
          dur := AddMs(dur, record);
      }
      i := i + 1;
    }
    assert elems[..i] == elems;
    d := Quot(dur, 1000) + 1;
  }

  // --------------------------------------------------------- collectRecords

  /** One entry of ioutil.ReadDir: its name, its size in bytes and its modification time already formatted. */
  datatype DirEntry = DirEntry(name: string, size: int, modTime: string)

  /** One row of the recordings page; every field is text. */
  datatype RecordedSession = RecordedSession(fname: string, fsize: string, duration: string, time: string)

  /** The row for one listed file. */
  function Describe(e: DirEntry, store: Store): RecordedSession
  {
    RecordedSession(e.name, FormatInt(Quot(e.size, 1024), 10), FormatInt(DurationOf(store, e.name), 10), e.modTime)
  }

  /** The entries that are listed: those whose name ends in ".scr", in directory order. */
  function ScrEntries(entries: seq<DirEntry>): seq<DirEntry>
    decreases |entries|
  {
    if entries == [] then []
    else
      var last := entries[|entries| - 1];
      ScrEntries(entries[..|entries| - 1]) + (if HasSuffix(last.name, ScrSuffix) then [last] else [])
  }

  /** An entry is listed iff it is in the directory and its name ends in ".scr". */
  lemma {:induction false} ScrEntriesExact(entries: seq<DirEntry>)
    ensures forall e :: e in ScrEntries(entries) <==> e in entries && HasSuffix(e.name, ScrSuffix)
    decreases |entries|
  {
    if entries != [] {
      var front := entries[..|entries| - 1];
      ScrEntriesExact(front);
      assert entries == front + [entries[|entries| - 1]];
    }
  }

  /** The rows of the page: one per listed entry, in the same order. */
  function Listing(entries: seq<DirEntry>, store: Store): (r: seq<RecordedSession>)
    ensures |r| == |ScrEntries(entries)|
    ensures forall k :: 0 <= k < |r| ==> r[k] == Describe(ScrEntries(entries)[k], store)
  {
    var es := ScrEntries(entries);
    seq(|es|, k requires 0 <= k < |es| => Describe(es[k], store))
  }

  /** Every row names a ".scr" file, reports its size in whole KiB and its length in seconds, both readable back as numbers. */
  lemma ListingRows(entries: seq<DirEntry>, store: Store, k: nat)
    requires k < |Listing(entries, store)|
    ensures var row := Listing(entries, store)[k];
      var e := ScrEntries(entries)[k];
      && HasSuffix(row.fname, ScrSuffix)
      && ParseInt(row.fsize, 10) == Some(Quot(e.size, 1024))
      && ParseInt(row.duration, 10) == Some(DurationOf(store, e.name))
  {
    var e := ScrEntries(entries)[k];
    ScrEntriesExact(entries);
    assert e in ScrEntries(entries);
    FormatIntRoundTrip(Quot(e.size, 1024), 10);
    FormatIntRoundTrip(DurationOf(store, e.name), 10);
  }

  lemma ListingSnoc(entries: seq<DirEntry>, store: Store, i: nat)
    requires i < |entries|
    ensures Listing(entries[..i + 1], store) ==
      Listing(entries[..i], store) + (if HasSuffix(entries[i].name, ScrSuffix) then [Describe(entries[i], store)] else [])
  {
    assert entries[..i + 1][..i] == entries[..i];
    var a := Listing(entries[..i], store);
    var r := Listing(entries[..i + 1], store);
    var tail := if HasSuffix(entries[i].name, ScrSuffix) then [Describe(entries[i], store)] else [];
    assert ScrEntries(entries[..i + 1]) ==
      ScrEntries(entries[..i]) + (if HasSuffix(entries[i].name, ScrSuffix) then [entries[i]] else []);
    assert |r| == |a + tail|;
    forall k | 0 <= k < |r| ensures r[k] == (a + tail)[k] {
      if k < |a| {
        assert ScrEntries(entries[..i + 1])[k] == ScrEntries(entries[..i])[k];
      }
    }
  }

  /** collectRecords: a directory that cannot be read lists nothing; otherwise one row per ".scr" file. */
  method CollectRecords(dir: Option<seq<DirEntry>>, store: Store) returns (records: seq<RecordedSession>)
    ensures dir.None? ==> records == []
    ensures dir.Some? ==> records == Listing(dir.value, store)
  {
    records := [];
    if dir.None? {
      return;
    }
    var entries := dir.value;
    var i := 0;
    while i < |entries|
      invariant 0 <= i <= |entries|
      invariant records == Listing(entries[..i], store)
    {
      ListingSnoc(entries, store, i);
      var fname := entries[i].name;
      if HasSuffix(fname, ScrSuffix) {
        var fsize := Quot(entries[i].size, 1024);
        var duration := GetDuration(store, fname);
        records := records + [RecordedSession(fname, FormatInt(fsize, 10), FormatInt(duration, 10), entries[i].modTime)];
      } else {
        assert records + [] == records;
      }
      i := i + 1;
    }
    assert entries[..i] == entries;
  }

  // -------------------------------------------------------------- renameRec

  /** A name under the directory ends in ".scr" only if the name itself does, since the directory ends in '/'. */
  lemma SuffixPastDir(name: string)
    requires HasSuffix(RecordDir + name, ScrSuffix)
    ensures HasSuffix(name, ScrSuffix)
  {
    var p := RecordDir + name;
    var j := |p| - |ScrSuffix|;
    assert forall i :: j <= i < |p| ==> p[i] == ScrSuffix[i - j] != '/';
    assert p[|RecordDir| - 1] == '/';
    assert name[|name| - |ScrSuffix|..] == p[j..];
  }

  lemma SuffixUnderDir(name: string)
    ensures HasSuffix(name, ScrSuffix) ==> HasSuffix(RecordDir + name, ScrSuffix)
  {
    if |name| >= |ScrSuffix| {
      assert (RecordDir + name)[|RecordDir + name| - |ScrSuffix|..] == name[|name| - |ScrSuffix|..];
    }
  }

  /** Prefixing the directory commutes with the suffix normalisation. */
  lemma ScrNameUnderDir(name: string)
    ensures ScrName(RecordDir + name) == RecordDir + ScrName(name)
  {
    if HasSuffix(RecordDir + name, ScrSuffix) {
      SuffixPastDir(name);
    } else {
      SuffixUnderDir(name);
      assert (RecordDir + name) + ScrSuffix == RecordDir + (name + ScrSuffix);
    }
  }

  /**
   * renameRec: the new name gets ".scr" appended when it lacks it; if a file
   * of that name exists nothing happens, otherwise the old file (if any) is
   * moved there.
   */
  method RenameRec<T>(oldname: string, newname: string, store: map<string, T>) returns (store': map<string, T>)
    ensures var oldPath, newPath := RecordDir + oldname, RecordDir + ScrName(newname);
      store' == if newPath in store || oldPath !in store then store
                else (store - {oldPath})[newPath := store[oldPath]]
  {
    var oldName := RecordDir + oldname;
    var newName := RecordDir + newname;
    if !HasSuffix(newName, ScrSuffix) {
      newName := newName + ScrSuffix;
    }
    ScrNameUnderDir(newname);
    assert newName == RecordDir + ScrName(newname);
    if newName in store {
      // already exists, ignore the request
      return store;
    }
    if oldName !in store {
      // failed to rename the file
      return store;
    }
    store' := (store - {oldName})[newName := store[oldName]];
  }

  /** A rename never overwrites or loses another recording, and a performed rename keeps the contents. */
  lemma RenamePreserves<T>(oldname: string, newname: string, store: map<string, T>)
    ensures var oldPath, newPath := RecordDir + oldname, RecordDir + ScrName(newname);
      var store' := if newPath in store || oldPath !in store then store
                    else (store - {oldPath})[newPath := store[oldPath]];
      && (forall p :: p in store && p != oldPath ==> p in store' && store'[p] == store[p])
      && (oldPath in store ==> newPath in store' && (newPath !in store ==> store'[newPath] == store[oldPath]))
      && |store'| == |store|
  {
    var oldPath, newPath := RecordDir + oldname, RecordDir + ScrName(newname);
    if !(newPath in store || oldPath !in store) {
      var m := store - {oldPath};
      assert |m| == |store| - 1;
    }
  }
}
