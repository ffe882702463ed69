/**
 * The recording format shared by the relay, the replay tools and the merge
 * tools: a textual array of records, each the time elapsed since the
 * previous record (Go's time.Duration, in nanoseconds) and the raw bytes
 * the terminal produced.
 */
module Records {

  import opened Wrappers
  import opened Text

  /** writeRecord / WriteRecord: Dur is serialised as "Duration", Data as "Data". */
  datatype Record = Record(dur: int, data: Bytes)

  /**
   * A recording file as a streaming decoder sees it after the opening '[':
   * one entry per array element, None where that element failed to decode.
   */
  type Decoded = seq<Option<Record>>

  const NsPerMs: int := 1_000_000

  /**
   * json.Marshal of a record, as a partial map: the records it can encode
   * and the bytes it produces for each. Nothing else about JSON is modelled.
   */
  type Encoder = imap<Record, Bytes>

  /** json.Marshal: the encoding, or None for a record the encoder rejects. */
  function Marshal(enc: Encoder, r: Record): (m: Option<Bytes>)
    ensures m.Some? <==> r in enc
  {
    if r in enc then Some(enc[r]) else None
  }

  /** The well-formed records of a decoded file, in file order. */
  function WellFormed(elems: Decoded): (r: seq<Record>)
    ensures |r| <= |elems|
    ensures forall x :: x in r ==> Some(x) in elems
    decreases |elems|
  {
    if elems == [] then []
    else
      var last := elems[|elems| - 1];
      WellFormed(elems[..|elems| - 1]) + (if last.Some? then [last.value] else [])
  }

  lemma {:induction false} WellFormedAppend(a: Decoded, b: Decoded)
    ensures WellFormed(a + b) == WellFormed(a) + WellFormed(b)
    decreases |b|
  {
    if b == [] {
      assert a + b == a;
    } else {
      var b' := b[..|b| - 1];
      assert (a + b)[..|a + b| - 1] == a + b';
      WellFormedAppend(a, b');
    }
  }

  /** Taking one more element adds its record, if it has one. */
  lemma WellFormedSnoc(elems: Decoded, i: nat)
    requires i < |elems|
    ensures elems[i].None? ==> WellFormed(elems[..i + 1]) == WellFormed(elems[..i])
    ensures elems[i].Some? ==> WellFormed(elems[..i + 1]) == WellFormed(elems[..i]) + [elems[i].value]
  {
    assert elems[..i + 1][..i] == elems[..i];
    assert WellFormed(elems[..i]) + [] == WellFormed(elems[..i]);
  }

  /** The directory the relay records into and the web server lists from. */
  const RecordDir: string := "./records/"

  /** Record files listed and merged by the tools carry the ".scr" suffix. */
  const ScrSuffix: string := ".scr"

  /** Append ".scr" unless the name already ends with it (cmd/merge.go, web/record.go). */
  function ScrName(name: string): (r: string)
    ensures HasSuffix(r, ScrSuffix)
    ensures HasSuffix(name, ScrSuffix) ==> r == name
    ensures !HasSuffix(name, ScrSuffix) ==> r == name + ScrSuffix
  {
    if HasSuffix(name, ScrSuffix) then name else name + ScrSuffix
  }

  /** The suffix is never doubled: normalising a normalised name changes nothing. */
  lemma ScrNameIdempotent(name: string)
    ensures ScrName(ScrName(name)) == ScrName(name)
  {
  }
}
