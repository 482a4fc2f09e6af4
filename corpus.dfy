/**
 * process_and_save_data of the CSV exporter: each HTML response of each `.warc`
 * file goes through the cleaning chain; a document whose final text hashes to
 * an already seen value is dropped, every other one becomes the next CSV row.
 */
module Corpus {
  import opened Strings
  import opened Dates
  import EntityTagger
  import Cleaning
  import Scan
  import Boilerplate
  import NearDedup
  import Archive

  /** clean_html_and_extract_links on the payload decoded as UTF-8 with errors ignored. */
  datatype Extracted = Extracted(text: string, links: seq<string>)

  /**
   * The stages the model does not look into: HTML extraction (including the UTF-8
   * decoding), NFKC normalisation, the Sudachi tokenizer, remove_image_links,
   * the fuzz.ratio > 90 test and md5 hex digests. None is assumed injective.
   */
  datatype Collaborators = Collaborators(
    extract: seq<bv8> -> Extracted,
    nfkc: string -> string,
    tokenize: string -> seq<EntityTagger.Token>,
    removeImageLinks: string -> string,
    similar: NearDedup.Similar,
    md5: string -> string)

  /** What the chain produces for one record: the date, the final text, the kept links. */
  datatype Document = Document(date: string, text: string, links: seq<string>)

  /**
   * The cleaning chain of one payload, with the line near-dedup left out:
   * on a tidy text it changes nothing (CleanDocument proves it).
   */
  function Prepare(c: Collaborators, payload: seq<bv8>): (doc: Document)
    ensures Tidy(doc.text)
    ensures |doc.links| <= 1
  {
    var extracted := c.extract(payload);
    var dated := ExtractDate(c.nfkc(extracted.text));
    var marked := EntityTagger.Marked(c.tokenize(dated.text));
    var bracketless := Cleaning.RemoveTextInSquareBrackets(c.removeImageLinks(Cleaning.CleanText(marked)));
    var sectionless := Scan.RemoveEach(Boilerplate.SectionMatchers(Boilerplate.SectionRules), bracketless);
    var phraseless := Scan.RemoveEach(Boilerplate.PhraseMatchers(Boilerplate.SortByLength(Boilerplate.UnwantedPhrases)), sectionless);
    Document(dated.date, NormalizeSpace(phraseless), Cleaning.RemoveMultipleLinks(extracted.links))
  }

  /** A tidy text holds no '\n', so splitting it into lines gives the text alone. */
  lemma TidyIsOneLine(s: string)
    requires Tidy(s)
    ensures SplitOn(s, '\n') == [s]
  {
    assert IsSpace('\n');
    SplitWithoutSeparator(s, '\n');
  }

  /** The per-record body of the loop, stage by stage, line near-dedup included. */
  method CleanDocument(c: Collaborators, payload: seq<bv8>) returns (doc: Document)
    ensures doc == Prepare(c, payload)
  {
    var extracted := c.extract(payload);
    var normalizedText := c.nfkc(extracted.text);
    var dated := ExtractDate(normalizedText);
    var markedText := EntityTagger.MarkProperNouns(c.tokenize(dated.text));
    var cleanedText := Cleaning.CleanText(markedText);
    var finalText := c.removeImageLinks(cleanedText);
    finalText := Cleaning.RemoveTextInSquareBrackets(finalText);
    var links := Cleaning.RemoveMultipleLinks(extracted.links);
    finalText := Boilerplate.RemoveUnwantedSections(finalText);
    finalText := Boilerplate.RemoveUnwantedPhrasesFromEnd(finalText);
    var lines := SplitOn(finalText, '\n');
    TidyIsOneLine(finalText);
    var unique := NearDedup.RemoveDuplicatesAndKeepLast(lines, c.similar);
    finalText := JoinWith(unique, '\n');
    doc := Document(dated.date, finalText, links);
  }

  /** One CSV row: index, date, text and the links joined with ','. */
  datatype Row = Row(index: nat, date: string, text: string, links: string)

  /** seen_texts, counter and the rows written so far. */
  datatype RunState = RunState(seen: set<string>, counter: nat, rows: seq<Row>)

  const Initial: RunState := RunState({}, 0, [])

  /** Admitting one document: drop it when its hash was seen, else record the hash and write the next row. */
  function Step(s: RunState, doc: Document, md5: string -> string): (r: RunState)
    ensures r.seen == s.seen + {md5(doc.text)}
    ensures |r.rows| == |s.rows| + 1 <==> md5(doc.text) !in s.seen
    ensures |s.rows| <= |r.rows| <= |s.rows| + 1 && r.rows[..|s.rows|] == s.rows
    ensures r.counter == s.counter + (|r.rows| - |s.rows|)
    ensures |r.rows| > |s.rows| ==> r.rows[|s.rows|] == Row(s.counter, doc.date, doc.text, JoinWith(doc.links, ','))
  {
    var h := md5(doc.text);
    if h in s.seen then s
    else RunState(s.seen + {h}, s.counter + 1, s.rows + [Row(s.counter, doc.date, doc.text, JoinWith(doc.links, ','))])
  }

  /** The state after admitting the documents in order, starting from an empty run. */
  function StepAll(docs: seq<Document>, md5: string -> string): (r: RunState)
    ensures |r.rows| <= |docs| && r.counter == |r.rows|
  {
    if docs == [] then Initial else Step(StepAll(docs[..|docs| - 1], md5), docs[|docs| - 1], md5)
  }

  /** The hashes of the rows written. */
  function RowHashes(rows: seq<Row>, md5: string -> string): set<string> {
    set i | 0 <= i < |rows| :: md5(rows[i].text)
  }

  /**
   * The run invariant: rows are numbered 0, 1, ... in order, the counter and the
   * seen set both count the rows, the seen set holds exactly their hashes, and
   * no two rows share a hash.
   */
  ghost predicate Good(s: RunState, md5: string -> string) {
    && s.counter == |s.rows| == |s.seen|
    && (forall i :: 0 <= i < |s.rows| ==> s.rows[i].index == i)
    && s.seen == RowHashes(s.rows, md5)
    && (forall i, j :: 0 <= i < j < |s.rows| ==> md5(s.rows[i].text) != md5(s.rows[j].text))
  }

  lemma StepKeepsGood(s: RunState, doc: Document, md5: string -> string)
    requires Good(s, md5)
    ensures Good(Step(s, doc, md5), md5)
  {
    var h := md5(doc.text);
    if h !in s.seen {
      var row := Row(s.counter, doc.date, doc.text, JoinWith(doc.links, ','));
      RowHashesAppend(s.rows, row, md5);
      DistinctAppend(s.rows, row, md5);
    }
  }

  lemma RowHashesAppend(rows: seq<Row>, row: Row, md5: string -> string)
    ensures RowHashes(rows + [row], md5) == RowHashes(rows, md5) + {md5(row.text)}
  {
    var t := rows + [row];
    forall x | x in RowHashes(t, md5) ensures x in RowHashes(rows, md5) + {md5(row.text)} {
      var i :| 0 <= i < |t| && md5(t[i].text) == x;
      if i < |rows| { assert t[i] == rows[i]; }
    }
    forall x | x in RowHashes(rows, md5) ensures x in RowHashes(t, md5) {
      var i :| 0 <= i < |rows| && md5(rows[i].text) == x;
      assert t[i] == rows[i];
    }
    assert md5(t[|rows|].text) == md5(row.text);
  }

  /** A row whose hash is new keeps the rows' hashes distinct. */
  lemma DistinctAppend(rows: seq<Row>, row: Row, md5: string -> string)
    requires forall i, j :: 0 <= i < j < |rows| ==> md5(rows[i].text) != md5(rows[j].text)
    requires md5(row.text) !in RowHashes(rows, md5)
    ensures forall i, j :: 0 <= i < j < |rows + [row]| ==> md5((rows + [row])[i].text) != md5((rows + [row])[j].text)
  {
    var t := rows + [row];
    forall i, j | 0 <= i < j < |t| ensures md5(t[i].text) != md5(t[j].text) {
      assert t[i] == rows[i];
      if j < |rows| { assert t[j] == rows[j]; }
    }
  }

  /** The invariant holds after any sequence of documents. */
  lemma {:induction false} StepAllGood(docs: seq<Document>, md5: string -> string)
    ensures Good(StepAll(docs, md5), md5)
  {
    if docs == [] {
      assert RowHashes([], md5) == {};
    } else {
      StepAllGood(docs[..|docs| - 1], md5);
      StepKeepsGood(StepAll(docs[..|docs| - 1], md5), docs[|docs| - 1], md5);
    }
  }

  /** The seen set is the set of hashes of all documents admitted: a dropped one had its hash seen before. */
  lemma {:induction false} StepAllSeen(docs: seq<Document>, md5: string -> string)
    ensures StepAll(docs, md5).seen == set i | 0 <= i < |docs| :: md5(docs[i].text)
  {
    if docs != [] {
      var init := docs[..|docs| - 1];
      StepAllSeen(init, md5);
      var all := set i | 0 <= i < |docs| :: md5(docs[i].text);
      var before := set i | 0 <= i < |init| :: md5(init[i].text);
      assert all == before + {md5(docs[|docs| - 1].text)} by {
        forall x | x in all ensures x in before + {md5(docs[|docs| - 1].text)} {
          var i :| 0 <= i < |docs| && md5(docs[i].text) == x;
          if i < |init| { assert init[i] == docs[i]; }
        }
        forall x | x in before ensures x in all {
          var i :| 0 <= i < |init| && md5(init[i].text) == x;
          assert docs[i] == init[i];
        }
      }
    }
  }

  /** A document whose text hashes like an earlier one's leaves the run unchanged: no row, no increment. */
  lemma RepeatDropped(docs: seq<Document>, doc: Document, md5: string -> string, k: nat)
    requires k < |docs| && md5(docs[k].text) == md5(doc.text)
    ensures StepAll(docs + [doc], md5) == StepAll(docs, md5)
  {
    StepAllSeen(docs, md5);
    assert (docs + [doc])[..|docs|] == docs;
  }

  /** A document with an unseen hash gets the next index and is written as it is. */
  lemma FreshWritten(docs: seq<Document>, doc: Document, md5: string -> string)
    requires forall k :: 0 <= k < |docs| ==> md5(docs[k].text) != md5(doc.text)
    ensures var before := StepAll(docs, md5);
      StepAll(docs + [doc], md5).rows
        == before.rows + [Row(|before.rows|, doc.date, doc.text, JoinWith(doc.links, ','))]
  {
    StepAllSeen(docs, md5);
    StepAllGood(docs, md5);
    assert (docs + [doc])[..|docs|] == docs;
  }

  /** How a payload becomes a document. */
  type Cleaner = seq<bv8> -> Document

  /** The cleaning chain with its collaborators fixed. */
  function CleanerOf(c: Collaborators): Cleaner {
    payload => Prepare(c, payload)
  }

  /** `clean` is the cleaning chain of `c` (stated so that only a use of the chain unfolds it). */
  ghost predicate Cleans(clean: Cleaner, c: Collaborators) {
    forall payload {:trigger Prepare(c, payload)} :: clean(payload) == Prepare(c, payload)
  }

  lemma CleanerOfCleans(c: Collaborators)
    ensures Cleans(CleanerOf(c), c)
  {
  }

  /** The documents of a stream of processed records, in order. */
  function Documents(items: seq<Archive.Item>, clean: Cleaner): (docs: seq<Document>)
    ensures |docs| == |items|
  {
    if items == [] then []
    else Documents(items[..|items| - 1], clean) + [clean(items[|items| - 1].pick.record.payload)]
  }

  /** The k-th document is the cleaned payload of the k-th record taken, for every k. */
  lemma {:induction false} DocumentsAt(items: seq<Archive.Item>, clean: Cleaner)
    ensures forall k :: 0 <= k < |items| ==> Documents(items, clean)[k] == clean(items[k].pick.record.payload)
  {
    if items != [] {
      var init := items[..|items| - 1];
      DocumentsAt(init, clean);
      forall k | 0 <= k < |init| ensures init[k] == items[k] { }
    }
  }

  /** `os.path.isfile(file_path) and file.endswith('.warc')` */
  predicate IsWarcFile(f: Archive.ArchiveFile) {
    f.isFile && EndsWith(f.name, ".warc")
  }

  /** What a call writes: the run over the documents of every processed record of the listing. */
  function Export(files: seq<Archive.ArchiveFile>, c: Collaborators): RunState {
    StepAll(Documents(Archive.Stream(files, IsWarcFile), CleanerOf(c)), c.md5)
  }

  /** One run's state, as the loop updates it. */
  class Writer {
    const md5: string -> string
    var seenTexts: set<string>
    var counter: nat
    var rows: seq<Row>

    function State(): RunState
      reads this
    {
      RunState(seenTexts, counter, rows)
    }

    ghost predicate Valid()
      reads this
    {
      Good(State(), md5)
    }

    /** A fresh run: nothing seen, counter 0, only the header written. */
    constructor(md5: string -> string)
      ensures this.md5 == md5 && State() == Initial && Valid()
    {
      this.md5 := md5;
      seenTexts := {};
      counter := 0;
      rows := [];
      new;
      assert RowHashes([], md5) == {};
    }

    /** The hash test, then either nothing or the row, the hash and the increment. */
    method Admit(doc: Document)
      requires Valid()
      modifies this
      ensures State() == Step(old(State()), doc, md5)
      ensures Valid()
    {
      StepKeepsGood(State(), doc, md5);
      var textHash := md5(doc.text);
      if textHash in seenTexts {
        return;
      }
      seenTexts := seenTexts + {textHash};
      rows := rows + [Row(counter, doc.date, doc.text, JoinWith(doc.links, ','))];
      counter := counter + 1;
    }
  }

  /** The run after the records of `file` before position n, following the items `prefix`. */
  ghost function Progress(prefix: seq<Archive.Item>, file: Archive.ArchiveFile, n: nat, clean: Cleaner, md5: string -> string): RunState
    requires n <= |file.records|
  {
    StepAll(Documents(prefix + Archive.ItemsOf(file, Archive.Picks(file.records[..n])), clean), md5)
  }

  lemma ProgressStart(prefix: seq<Archive.Item>, file: Archive.ArchiveFile, clean: Cleaner, md5: string -> string)
    ensures Progress(prefix, file, 0, clean, md5) == StepAll(Documents(prefix, clean), md5)
  {
    assert file.records[..0] == [];
    assert prefix + [] == prefix;
  }

  /** One more record: admitted when taken, nothing otherwise. */
  lemma ProgressNext(prefix: seq<Archive.Item>, file: Archive.ArchiveFile, n: nat, clean: Cleaner, md5: string -> string)
    requires n < |file.records| && !Archive.Crashes(file.records[..n])
    ensures Archive.Crashes(file.records[..n + 1]) <==> Archive.Classify(file.records[n]) == Archive.Crash
    ensures Archive.Classify(file.records[n]) == Archive.Take ==>
      Progress(prefix, file, n + 1, clean, md5) == Step(Progress(prefix, file, n, clean, md5), clean(file.records[n].payload), md5)
    ensures Archive.Classify(file.records[n]) == Archive.Skip ==>
      Progress(prefix, file, n + 1, clean, md5) == Progress(prefix, file, n, clean, md5)
  {
    Archive.PicksNext(file.records, n);
    var ps := Archive.Picks(file.records[..n]);
    if Archive.Classify(file.records[n]) == Archive.Take {
      var p := Archive.Pick(n, file.records[n]);
      var before := prefix + Archive.ItemsOf(file, ps);
      assert (ps + [p])[..|ps|] == ps;
      assert prefix + Archive.ItemsOf(file, ps + [p]) == before + [Archive.Item(file, p)];
      assert (before + [Archive.Item(file, p)])[..|before|] == before;
    }
  }

  /** Where the loop leaves the archive, by crash or by running out of records. */
  lemma ProgressEnd(prefix: seq<Archive.Item>, file: Archive.ArchiveFile, n: nat, clean: Cleaner, md5: string -> string)
    requires n <= |file.records| && !Archive.Crashes(file.records[..n])
    requires n == |file.records| || Archive.Classify(file.records[n]) == Archive.Crash
    ensures Progress(prefix, file, n, clean, md5)
         == StepAll(Documents(prefix + Archive.ItemsOf(file, Archive.Picks(file.records)), clean), md5)
  {
    if n == |file.records| {
      assert file.records[..n] == file.records;
    } else {
      Archive.PicksNext(file.records, n);
      Archive.PicksStop(file.records, n + 1);
    }
  }

  /** The body of the loop over an archive's records: test the record, then clean and admit it when taken. */
  method ProcessRecord(w: Writer, file: Archive.ArchiveFile, index: nat, ghost prefix: seq<Archive.Item>,
                       c: Collaborators, ghost clean: Cleaner)
      returns (crashed: bool)
    requires index < |file.records| && !Archive.Crashes(file.records[..index])
    requires w.Valid() && w.md5 == c.md5 && Cleans(clean, c)
    requires w.State() == Progress(prefix, file, index, clean, c.md5)
    modifies w
    ensures w.Valid()
    ensures crashed == Archive.Crashes(file.records[..index + 1])
    ensures !crashed ==> w.State() == Progress(prefix, file, index + 1, clean, c.md5)
    ensures crashed ==> w.State() == Progress(prefix, file, index, clean, c.md5)
  {
    var record := file.records[index];
    ProgressNext(prefix, file, index, clean, c.md5);
    var verdict := Archive.Classify(record);
    if verdict == Archive.Crash {
      return true;
    }
    if verdict == Archive.Take {
      var doc := CleanDocument(c, record.payload);
      w.Admit(doc);
    }
    return false;
  }

  /**
   * The loop over the records of one archive: each record taken is cleaned and
   * admitted; a crash stops the loop and is reported.
   */
  method ProcessArchive(w: Writer, file: Archive.ArchiveFile, ghost prefix: seq<Archive.Item>,
                        c: Collaborators, ghost clean: Cleaner)
      returns (crashed: bool)
    requires w.Valid() && w.md5 == c.md5 && Cleans(clean, c)
    requires w.State() == StepAll(Documents(prefix, clean), c.md5)
    modifies w
    ensures w.Valid()
    ensures crashed == Archive.Crashes(file.records)
    ensures w.State() == StepAll(Documents(prefix + Archive.ItemsOf(file, Archive.Picks(file.records)), clean), c.md5)
  {
    ProgressStart(prefix, file, clean, c.md5);
    for index := 0 to |file.records|
      invariant w.Valid()
      invariant !Archive.Crashes(file.records[..index])
      invariant w.State() == Progress(prefix, file, index, clean, c.md5)
    {
      crashed := ProcessRecord(w, file, index, prefix, c, clean);
      if crashed {
        ProgressNext(prefix, file, index, clean, c.md5);
        ProgressEnd(prefix, file, index, clean, c.md5);
        return;
      }
    }
    ProgressEnd(prefix, file, |file.records|, clean, c.md5);
    assert file.records[..|file.records|] == file.records;
    return false;
  }

  /**
   * process_and_save_data: the rows written, and whether a response without a
   * Content-Type ended the run early (the rows already written stay in the file).
   */
  method ProcessAndSaveData(files: seq<Archive.ArchiveFile>, c: Collaborators) returns (rows: seq<Row>, aborted: bool)
    ensures rows == Export(files, c).rows
    ensures aborted == Archive.StreamCrashes(files, IsWarcFile)
  {
    ghost var clean := CleanerOf(c);
    CleanerOfCleans(c);
    var w := new Writer(c.md5);
    for i := 0 to |files|
      invariant w.Valid() && w.md5 == c.md5
      invariant !Archive.StreamCrashes(files[..i], IsWarcFile)
      invariant w.State() == StepAll(Documents(Archive.Stream(files[..i], IsWarcFile), clean), c.md5)
    {
      var file := files[i];
      Archive.StreamNext(files, IsWarcFile, i);
      if file.isFile && EndsWith(file.name, ".warc") {
        var crashed := ProcessArchive(w, file, Archive.Stream(files[..i], IsWarcFile), c, clean);
        if crashed {
          Archive.StreamStops(files, IsWarcFile, i + 1);
          rows, aborted := w.rows, true;
          return;
        }
      }
    }
    assert files[..|files|] == files;
    rows, aborted := w.rows, false;
  }

  /** What a call writes holds the run invariant: the indices are exactly 0 .. N-1, one per seen hash. */
  lemma ExportNumbered(files: seq<Archive.ArchiveFile>, c: Collaborators)
    ensures var s := Export(files, c);
      |s.seen| == |s.rows| && forall i :: 0 <= i < |s.rows| ==> s.rows[i].index == i
  {
    StepAllGood(Documents(Archive.Stream(files, IsWarcFile), CleanerOf(c)), c.md5);
  }

  /** The links column is the first link alone, or empty. */
  lemma LinksColumn(c: Collaborators, payload: seq<bv8>)
    ensures var links := c.extract(payload).links;
      JoinWith(Prepare(c, payload).links, ',') == if links == [] then [] else links[0]
  {
  }

  /** The final text of a record is tidy, so the line split before near-dedup yields a single line. */
  lemma PipelineSingleLine(c: Collaborators, payload: seq<bv8>)
    ensures SplitOn(Prepare(c, payload).text, '\n') == [Prepare(c, payload).text]
  {
    TidyIsOneLine(Prepare(c, payload).text);
  }
}
