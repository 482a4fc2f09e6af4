/**
 * The WARC side shared by both exporters: which records are processed, and the
 * stream of processed records over a listing of archive files. Reading the
 * archive is outside the model; a file is given as its sequence of records.
 */
module Archive {
  import opened Wrappers
  import opened Strings

  /**
   * One WARC record: its type, the Content-Type of its HTTP headers (None when
   * the header is absent), its WARC-Target-URI and its payload bytes.
   */
  datatype Record = Record(recType: string, contentType: Option<string>, targetUri: string, payload: seq<bv8>)

  /** A directory entry: the directory that lists it, its name, whether it is a regular file, its records. */
  datatype ArchiveFile = ArchiveFile(dir: string, name: string, isFile: bool, records: seq<Record>)

  /**
   * What the record test does with a record: Take it, Skip it, or Crash, when a
   * response has no Content-Type and `'text/html' in None` raises TypeError,
   * which ends the whole run.
   */
  datatype Verdict = Take | Skip | Crash

  function Classify(r: Record): (v: Verdict)
    ensures v == Take <==> r.recType == "response" && r.contentType.Some? && IsSubstring("text/html", r.contentType.value)
    ensures v == Crash <==> r.recType == "response" && r.contentType.None?
  {
    if r.recType != "response" then Skip
    else match r.contentType
      case None => Crash
      case Some(t) => if IsSubstring("text/html", t) then Take else Skip
  }

  /** A processed record and its enumerate() position in the archive. */
  datatype Pick = Pick(index: nat, record: Record)

  /** Some record of the sequence crashes the run. */
  predicate Crashes(records: seq<Record>) {
    exists i :: 0 <= i < |records| && Classify(records[i]) == Crash
  }

  /** The records processed from an archive, in order, up to the first crash. */
  function Picks(records: seq<Record>): (r: seq<Pick>)
    ensures |r| <= |records|
  {
    if records == [] then []
    else
      var init, last := records[..|records| - 1], records[|records| - 1];
      if Crashes(init) || Classify(last) != Take then Picks(init)
      else Picks(init) + [Pick(|init|, last)]
  }

  /**
   * A pick is its record, at its own position, and is taken with no crash before
   * it; the picks come in strictly increasing position.
   */
  lemma {:induction false} PicksSound(records: seq<Record>)
    ensures forall k :: 0 <= k < |Picks(records)| ==>
      var p := Picks(records)[k];
      p.index < |records| && records[p.index] == p.record && Classify(p.record) == Take
        && !Crashes(records[..p.index])
    ensures forall k, l :: 0 <= k < l < |Picks(records)| ==> Picks(records)[k].index < Picks(records)[l].index
  {
    if records != [] {
      var init := records[..|records| - 1];
      PicksSound(init);
      forall k | 0 <= k < |Picks(init)| ensures init[..Picks(init)[k].index] == records[..Picks(init)[k].index] {
      }
    }
  }

  /** Every record that would be taken, with no crash before it, is picked. */
  lemma {:induction false} PicksComplete(records: seq<Record>, i: nat)
    requires i < |records| && Classify(records[i]) == Take && !Crashes(records[..i])
    ensures Pick(i, records[i]) in Picks(records)
  {
    var init := records[..|records| - 1];
    if i < |init| {
      assert init[..i] == records[..i];
      PicksComplete(init, i);
    } else {
      assert init == records[..i];
    }
  }

  /** Records after a crash are never processed. */
  lemma {:induction false} PicksStop(records: seq<Record>, n: nat)
    requires n <= |records| && Crashes(records[..n])
    ensures Picks(records) == Picks(records[..n])
  {
    if n < |records| {
      var init := records[..|records| - 1];
      assert init[..n] == records[..n];
      assert Crashes(init) by {
        var i :| 0 <= i < n && Classify(records[..n][i]) == Crash;
        assert init[i] == records[i];
      }
      PicksStop(init, n);
    } else {
      assert records[..n] == records;
    }
  }

  /** Processing one more record, when none before it crashed. */
  lemma PicksNext(records: seq<Record>, i: nat)
    requires i < |records| && !Crashes(records[..i])
    ensures Picks(records[..i + 1])
         == if Classify(records[i]) == Take then Picks(records[..i]) + [Pick(i, records[i])] else Picks(records[..i])
    ensures Crashes(records[..i + 1]) <==> Classify(records[i]) == Crash
  {
    assert records[..i + 1][..i] == records[..i];
  }

  /** A processed record together with the file it came from. */
  datatype Item = Item(file: ArchiveFile, pick: Pick)

  function ItemsOf(f: ArchiveFile, ps: seq<Pick>): (items: seq<Item>)
    ensures |items| == |ps|
    ensures forall k :: 0 <= k < |ps| ==> items[k] == Item(f, ps[k])
  {
    if ps == [] then [] else ItemsOf(f, ps[..|ps| - 1]) + [Item(f, ps[|ps| - 1])]
  }

  /** The items of one more record of a file, when none before it crashed. */
  lemma ItemsNext(prefix: seq<Item>, f: ArchiveFile, i: nat)
    requires i < |f.records| && !Crashes(f.records[..i])
    ensures prefix + ItemsOf(f, Picks(f.records[..i + 1]))
         == if Classify(f.records[i]) == Take
            then (prefix + ItemsOf(f, Picks(f.records[..i]))) + [Item(f, Pick(i, f.records[i]))]
            else prefix + ItemsOf(f, Picks(f.records[..i]))
  {
    PicksNext(f.records, i);
    var ps := Picks(f.records[..i]);
    if Classify(f.records[i]) == Take {
      var p := Pick(i, f.records[i]);
      assert (ps + [p])[..|ps|] == ps;
      assert ItemsOf(f, ps + [p]) == ItemsOf(f, ps) + [Item(f, p)];
    }
  }

  /** Some accepted file of the listing crashes the run. */
  predicate StreamCrashes(files: seq<ArchiveFile>, accept: ArchiveFile -> bool) {
    exists i :: 0 <= i < |files| && accept(files[i]) && Crashes(files[i].records)
  }

  /** The records processed over a listing: accepted files in order, each up to the first crash anywhere. */
  function Stream(files: seq<ArchiveFile>, accept: ArchiveFile -> bool): (r: seq<Item>)
    ensures forall it :: it in r ==> accept(it.file)
  {
    if files == [] then []
    else
      var init, last := files[..|files| - 1], files[|files| - 1];
      if StreamCrashes(init, accept) || !accept(last) then Stream(init, accept)
      else Stream(init, accept) + ItemsOf(last, Picks(last.records))
  }

  /** Every item of the stream comes from an accepted file and is one of its picks. */
  lemma {:induction false} StreamSound(files: seq<ArchiveFile>, accept: ArchiveFile -> bool)
    ensures forall it :: it in Stream(files, accept) ==>
      it.file in files && accept(it.file) && it.pick in Picks(it.file.records)
  {
    if files != [] {
      var init, last := files[..|files| - 1], files[|files| - 1];
      StreamSound(init, accept);
      forall it | it in ItemsOf(last, Picks(last.records)) ensures it.pick in Picks(last.records) {
        var k :| 0 <= k < |Picks(last.records)| && ItemsOf(last, Picks(last.records))[k] == it;
      }
    }
  }

  /** After a file that crashes, no further file contributes anything. */
  lemma {:induction false} StreamStops(files: seq<ArchiveFile>, accept: ArchiveFile -> bool, n: nat)
    requires n <= |files| && StreamCrashes(files[..n], accept)
    ensures Stream(files, accept) == Stream(files[..n], accept)
  {
    if n < |files| {
      var init := files[..|files| - 1];
      assert init[..n] == files[..n];
      assert StreamCrashes(init, accept) by {
        var i :| 0 <= i < n && accept(files[..n][i]) && Crashes(files[..n][i].records);
        assert init[i] == files[i];
      }
      StreamStops(init, accept, n);
    } else {
      assert files[..n] == files;
    }
  }

  /** Moving on to one more file of the listing, when none before it crashed. */
  lemma StreamNext(files: seq<ArchiveFile>, accept: ArchiveFile -> bool, i: nat)
    requires i < |files| && !StreamCrashes(files[..i], accept)
    ensures Stream(files[..i + 1], accept)
         == if accept(files[i]) then Stream(files[..i], accept) + ItemsOf(files[i], Picks(files[i].records))
            else Stream(files[..i], accept)
    ensures StreamCrashes(files[..i + 1], accept) <==> accept(files[i]) && Crashes(files[i].records)
  {
    assert files[..i + 1][..i] == files[..i];
  }
}
