/**
 * Merging recordings (term_conn/merge.go and cmd/merge.go): the record lists
 * of the input files are concatenated in the order given, and the result is
 * written as one JSON array. Any input that cannot be read or parsed aborts
 * the merge before anything is written.
 */
module MergeTool {

  import opened Text
  import opened Records

  /** A file store: path to contents. */
  type Files = map<string, Bytes>

  /** json.Unmarshal into []writeRecord, as a partial map: the inputs it parses and their records. */
  type ListDecoder = imap<Bytes, seq<Record>>

  /** json.Marshal of []writeRecord, as a partial map. */
  type ListEncoder = imap<seq<Record>, Bytes>

  datatype Gathered = Aborted | Merged(records: seq<Record>)

  /** The outcome of the gathering loop over the first |fnames| inputs. */
  function Concat(fnames: seq<string>, files: Files, dec: ListDecoder): Gathered
    decreases |fnames|
  {
    if fnames == [] then Merged([])
    else
      var fname := fnames[|fnames| - 1];
      match Concat(fnames[..|fnames| - 1], files, dec)
      case Aborted => Aborted
      case Merged(all) =>
        if fname !in files || files[fname] !in dec then Aborted
        else Merged(all + dec[files[fname]])
  }

  /** Every named input can be read and parsed. */
  predicate AllParse(fnames: seq<string>, files: Files, dec: ListDecoder)
  {
    forall k :: 0 <= k < |fnames| ==> fnames[k] in files && files[fnames[k]] in dec
  }

  /** The record list of each input, in argument order. */
  function Parsed(fnames: seq<string>, files: Files, dec: ListDecoder): (r: seq<seq<Record>>)
    requires AllParse(fnames, files, dec)
    ensures |r| == |fnames|
    ensures forall k :: 0 <= k < |fnames| ==> r[k] == dec[files[fnames[k]]]
  {
    seq(|fnames|, k requires 0 <= k < |fnames| => dec[files[fnames[k]]])
  }

  /** The ordered concatenation of lists. */
  function Flatten(ls: seq<seq<Record>>): seq<Record>
    decreases |ls|
  {
    if ls == [] then [] else Flatten(ls[..|ls| - 1]) + ls[|ls| - 1]
  }

  lemma {:induction false} FlattenAppend(a: seq<seq<Record>>, b: seq<seq<Record>>)
    ensures Flatten(a + b) == Flatten(a) + Flatten(b)
    decreases |b|
  {
    if b == [] {
      assert a + b == a;
      assert Flatten(a) + [] == Flatten(a);
    } else {
      var b' := b[..|b| - 1];
      assert (a + b)[..|a + b| - 1] == a + b';
      FlattenAppend(a, b');
    }
  }

  /** Every record of the merged list comes from some input list, unchanged; none is renormalised. */
  lemma {:induction false} FlattenCopies(ls: seq<seq<Record>>)
    ensures forall r :: r in Flatten(ls) ==> exists k :: 0 <= k < |ls| && r in ls[k]
    decreases |ls|
  {
    if ls != [] {
      var front := ls[..|ls| - 1];
      FlattenCopies(front);
      forall r | r in Flatten(ls)
        ensures exists k :: 0 <= k < |ls| && r in ls[k]
      {
        if r in Flatten(front) {
          var k :| 0 <= k < |front| && r in front[k];
          assert ls[k] == front[k];
        } else {
          assert r in ls[|ls| - 1];
        }
      }
    }
  }

  /**
   * The merge succeeds iff every input can be read and parsed, and then its
   * result is the concatenation of the inputs' record lists in argument order.
   */
  lemma {:induction false} ConcatSpec(fnames: seq<string>, files: Files, dec: ListDecoder)
    ensures Concat(fnames, files, dec).Merged? <==> AllParse(fnames, files, dec)
    ensures AllParse(fnames, files, dec) ==>
      Concat(fnames, files, dec) == Merged(Flatten(Parsed(fnames, files, dec)))
    decreases |fnames|
  {
    if fnames != [] {
      var front := fnames[..|fnames| - 1];
      ConcatSpec(front, files, dec);
      if AllParse(fnames, files, dec) {
        assert AllParse(front, files, dec) by {
          forall k | 0 <= k < |front| ensures front[k] in files && files[front[k]] in dec {
            assert front[k] == fnames[k];
          }
        }
        var ps := Parsed(fnames, files, dec);
        assert ps[..|ps| - 1] == Parsed(front, files, dec);
      } else if AllParse(front, files, dec) {
        var fname := fnames[|fnames| - 1];
        assert !(fname in files && files[fname] in dec) by {
          forall k | 0 <= k < |front| ensures fnames[k] in files && files[fnames[k]] in dec {
            assert front[k] == fnames[k];
          }
        }
      }
    }
  }

  /** Once one input has failed, no later input can rescue the merge. */
  lemma {:induction false} AbortSticks(a: seq<string>, b: seq<string>, files: Files, dec: ListDecoder)
    requires Concat(a, files, dec) == Aborted
    ensures Concat(a + b, files, dec) == Aborted
    decreases |b|
  {
    if b == [] {
      assert a + b == a;
    } else {
      var b' := b[..|b| - 1];
      assert (a + b)[..|a + b| - 1] == a + b';
      AbortSticks(a, b', files, dec);
    }
  }

  lemma AbortAt(fnames: seq<string>, i: nat, files: Files, dec: ListDecoder)
    requires i < |fnames| && Concat(fnames[..i + 1], files, dec) == Aborted
    ensures Concat(fnames, files, dec) == Aborted
  {
    AbortSticks(fnames[..i + 1], fnames[i + 1..], files, dec);
    assert fnames[..i + 1] + fnames[i + 1..] == fnames;
  }

  /** The reading loop shared by both Merge functions: read, parse, append, or return early. */
  method Gather(fnames: seq<string>, files: Files, dec: ListDecoder) returns (r: Gathered)
    ensures r == Concat(fnames, files, dec)
  {
    var allRecords: seq<Record> := [];
    var i := 0;
    while i < |fnames|
      invariant 0 <= i <= |fnames|
      invariant Concat(fnames[..i], files, dec) == Merged(allRecords)
    {
      assert fnames[..i + 1][..i] == fnames[..i];
      var fname := fnames[i];
      if fname !in files {
        // failed to read the file
        AbortAt(fnames, i, files, dec);
        return Aborted;
      }
      var file := files[fname];
      if file !in dec {
        // failed to parse the file
        AbortAt(fnames, i, files, dec);
        return Aborted;
      }
      allRecords := allRecords + dec[file];
      i := i + 1;
    }
    assert fnames[..i] == fnames;
    return Merged(allRecords);
  }

  /**
   * term_conn.Merge: on success the merged list is marshalled and written
   * under `output` exactly as given; a failed read, parse or marshal leaves
   * the store as it was.
   */
  method Merge(fnames: seq<string>, output: string, files: Files, dec: ListDecoder, enc: ListEncoder)
    returns (files': Files)
    ensures Concat(fnames, files, dec).Aborted? ==> files' == files
    ensures Concat(fnames, files, dec).Merged? ==>
      var all := Concat(fnames, files, dec).records;
      files' == if all in enc then files[output := enc[all]] else files
  {
    var g := Gather(fnames, files, dec);
    if g.Aborted? {
      return files;
    }
    if g.records !in enc {
      // failed to merge into JSON format
      return files;
    }
    var data := enc[g.records];
    files' := files[output := data];
  }

  /**
   * cmd.Merge: the same, except that the output name gets ".scr" appended
   * when it does not already end in it.
   */
  method CmdMerge(fnames: seq<string>, output: string, files: Files, dec: ListDecoder, enc: ListEncoder)
    returns (files': Files)
    ensures Concat(fnames, files, dec).Aborted? ==> files' == files
    ensures Concat(fnames, files, dec).Merged? ==>
      var all := Concat(fnames, files, dec).records;
      files' == if all in enc then files[ScrName(output) := enc[all]] else files
  {
    var g := Gather(fnames, files, dec);
    if g.Aborted? {
      return files;
    }
    if g.records !in enc {
      return files;
    }
    var data := enc[g.records];
    var name := output;
    if !HasSuffix(name, ScrSuffix) {
      name := name + ScrSuffix;
    }
    files' := files[name := data];
  }

  /** Of the two output names, the cmd tool's always ends in ".scr" and equals the given one when that already does. */
  lemma CmdMergeName(output: string)
    ensures HasSuffix(ScrName(output), ScrSuffix)
    ensures ScrName(output) == output <==> HasSuffix(output, ScrSuffix)
  {
    if !HasSuffix(output, ScrSuffix) {
      assert |ScrName(output)| == |output| + |ScrSuffix|;
    }
  }
}
