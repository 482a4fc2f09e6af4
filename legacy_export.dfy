/**
 * The older exporter: every HTML response of every `.warc` file in the walked
 * directories is written, NFKC-normalised, to its own text file, named by
 * generate_filename; one seen set of text hashes, shared by the whole walk,
 * keeps a text from being written twice.
 */
module LegacyExport {
  import opened Strings
  import Archive
  import Corpus

  const MaxLength: nat := 100

  /** os.path.basename: the part after the last '/', the whole path when there is none. */
  function Basename(path: string): (r: string)
    ensures '/' !in r
    ensures |r| <= |path| && path[|path| - |r|..] == r
    ensures |r| < |path| ==> path[|path| - |r| - 1] == '/'
  {
    if path == [] || path[|path| - 1] == '/' then []
    else
      var init := path[..|path| - 1];
      var b := Basename(init);
      assert path[|path| - |b| - 1..] == init[|init| - |b|..] + [path[|path| - 1]];
      b + [path[|path| - 1]]
  }

  /** s.replace(a, b) for single characters. */
  function ReplaceChar(s: string, a: char, b: char): (r: string)
    ensures |r| == |s|
  {
    if s == [] then [] else [if s[0] == a then b else s[0]] + ReplaceChar(s[1..], a, b)
  }

  /** Replacing a character that does not occur changes nothing. */
  lemma {:induction false} ReplaceAbsent(s: string, a: char, b: char)
    requires a !in s
    ensures ReplaceChar(s, a, b) == s
  {
    if s != [] {
      ReplaceAbsent(s[1..], a, b);
      assert [s[0]] + s[1..] == s;
    }
  }

  /** filename[:n] */
  function Prefix(s: string, n: nat): (r: string)
    ensures |r| == if |s| <= n then |s| else n
  {
    if |s| <= n then s else s[..n]
  }

  /**
   * generate_filename(url, index), with md5 hex digests as a parameter: every name
   * ends in `_<index>.txt`, after at most 100 characters of the name or after the md5.
   */
  function GenerateFilename(url: string, index: nat, md5: string -> string): (r: string)
    ensures EndsWith(r, "_" + NatToString(index) + ".txt") && EndsWith(r, ".txt")
    ensures |r| - |"_" + NatToString(index) + ".txt"| <= MaxLength || r == md5(url) + "_" + NatToString(index) + ".txt"
  {
    var filename := ReplaceChar(Basename(url), '/', '_') + "_" + NatToString(index);
    var named := if |filename| == 0 then md5(url) else filename;
    var stem := if |named| > MaxLength then md5(url) else Prefix(named, MaxLength);
    var tail := "_" + NatToString(index) + ".txt";
    EndsWithConcat(stem, tail);
    assert stem + tail == stem + "_" + NatToString(index) + ".txt";
    assert (stem + tail)[|stem + tail| - 4..] == ".txt";
    stem + "_" + NatToString(index) + ".txt"
  }

  /** The basename of a path ending in "/" and a name without '/' is that name. */
  lemma {:induction false} BasenameAfterSlash(dir: string, name: string)
    requires '/' !in name
    ensures Basename(dir + "/" + name) == name
    decreases |name|
  {
    var path := dir + "/" + name;
    if name == [] {
      assert path[|path| - 1] == '/';
    } else {
      var init := name[..|name| - 1];
      assert path[..|path| - 1] == dir + "/" + init;
      BasenameAfterSlash(dir, init);
      assert init + [name[|name| - 1]] == name;
    }
  }

  /**
   * The replace finds no '/' to change and the name is never empty: the basename
   * holds no '/', and `_` and at least one digit follow it.
   */
  lemma DeadBranches(url: string, index: nat)
    ensures ReplaceChar(Basename(url), '/', '_') == Basename(url)
    ensures |ReplaceChar(Basename(url), '/', '_') + "_" + NatToString(index)| >= 2
  {
    ReplaceAbsent(Basename(url), '/', '_');
  }

  /** A short name keeps the basename and carries the index twice; the slice cuts nothing. */
  lemma GenerateFilenameShort(url: string, index: nat, md5: string -> string)
    requires |Basename(url) + "_" + NatToString(index)| <= MaxLength
    ensures GenerateFilename(url, index, md5)
         == Basename(url) + "_" + NatToString(index) + "_" + NatToString(index) + ".txt"
  {
    DeadBranches(url, index);
  }

  /** A name over 100 characters is replaced by the md5 of the URL and the index. */
  lemma GenerateFilenameLong(url: string, index: nat, md5: string -> string)
    requires |Basename(url) + "_" + NatToString(index)| > MaxLength
    ensures GenerateFilename(url, index, md5) == md5(url) + "_" + NatToString(index) + ".txt"
  {
    DeadBranches(url, index);
  }

  /** "https://blogos.com/article/12" at index 3 becomes "12_3_3.txt". */
  lemma GenerateFilenameExample(md5: string -> string)
    ensures GenerateFilename("https://blogos.com/article/12", 3, md5) == "12_3_3.txt"
  {
    var url := "https://blogos.com/article/12";
    assert url == "https://blogos.com/article" + "/" + "12";
    BasenameAfterSlash("https://blogos.com/article", "12");
    assert NatToString(3) == "3";
    GenerateFilenameShort(url, 3, md5);
  }

  /** One file written: the directory named like the source directory, the file name, the contents. */
  datatype Written = Written(dir: string, name: string, content: string)

  /** normalized_text + "\n\nLinks:\n" + "\n".join(links) */
  function Content(text: string, links: seq<string>): string {
    text + "\n\nLinks:\n" + JoinWith(links, '\n')
  }

  /** The file name the loop uses, after the `.txt` fix-up. */
  function OutputName(url: string, index: nat, md5: string -> string): string {
    var name := GenerateFilename(url, index, md5);
    if EndsWith(name, ".txt") then name else name + ".txt"
  }

  /** The fix-up never fires. */
  lemma OutputNameIsGenerated(url: string, index: nat, md5: string -> string)
    ensures OutputName(url, index, md5) == GenerateFilename(url, index, md5)
  {
  }

  /** A rule naming the file of a record from its target URI and its position. */
  type Namer = (string, nat) -> string

  /** The rule of the loop: generate_filename and the `.txt` fix-up. */
  function NamerOf(md5: string -> string): Namer {
    (url: string, index: nat) => OutputName(url, index, md5)
  }

  /** `name` is the loop's rule (stated pointwise so proofs need not unfold the name). */
  ghost predicate Names(name: Namer, md5: string -> string) {
    forall url, index {:trigger OutputName(url, index, md5)} :: name(url, index) == OutputName(url, index, md5)
  }

  lemma NamerOfNames(md5: string -> string)
    ensures Names(NamerOf(md5), md5)
  {
  }

  /** The shared seen set and the files written so far. */
  datatype LegacyState = LegacyState(seen: set<string>, written: seq<Written>)

  /** The normalised text of a processed record. */
  function NormalizedText(it: Archive.Item, c: Corpus.Collaborators): string {
    c.nfkc(c.extract(it.pick.record.payload).text)
  }

  /** The hash the seen set keeps for a processed record. */
  function TextHash(it: Archive.Item, c: Corpus.Collaborators): string {
    c.md5(NormalizedText(it, c))
  }

  /** The file a processed record is written to when its text is new. */
  function FileOf(it: Archive.Item, c: Corpus.Collaborators, name: Namer): Written {
    Written(it.file.dir, name(it.pick.record.targetUri, it.pick.index),
            Content(NormalizedText(it, c), c.extract(it.pick.record.payload).links))
  }

  /** One processed record: skipped when its text hash was seen, else its hash is added and its file written. */
  function LegacyStep(s: LegacyState, it: Archive.Item, c: Corpus.Collaborators, name: Namer): (r: LegacyState)
    ensures r.seen == s.seen + {TextHash(it, c)}
    ensures r.written == s.written || r.written == s.written + [FileOf(it, c, name)]
    ensures |r.written| == |s.written| + 1 <==> TextHash(it, c) !in s.seen
  {
    var h := TextHash(it, c);
    if h in s.seen then s else LegacyState(s.seen + {h}, s.written + [FileOf(it, c, name)])
  }

  /** The processed records in order, from an empty seen set: one file per distinct hash. */
  function LegacyAll(items: seq<Archive.Item>, c: Corpus.Collaborators, name: Namer): (r: LegacyState)
    ensures |r.written| <= |items| && |r.seen| == |r.written|
  {
    if items == [] then LegacyState({}, [])
    else LegacyStep(LegacyAll(items[..|items| - 1], c, name), items[|items| - 1], c, name)
  }

  /** `file.endswith('.warc')`: the legacy loop does not ask whether it is a regular file. */
  predicate IsWarcName(f: Archive.ArchiveFile) {
    EndsWith(f.name, ".warc")
  }

  /** What a run writes: the directory walk given as its listing of files, each with the directory it is in. */
  function Export(files: seq<Archive.ArchiveFile>, c: Corpus.Collaborators): LegacyState {
    LegacyAll(Archive.Stream(files, IsWarcName), c, NamerOf(c.md5))
  }

  lemma LegacyAllAppend(items: seq<Archive.Item>, it: Archive.Item, c: Corpus.Collaborators, name: Namer)
    ensures LegacyAll(items + [it], c, name) == LegacyStep(LegacyAll(items, c, name), it, c, name)
  {
    assert (items + [it])[..|items|] == items;
  }

  /** The run after the records of `file` before position n, following the items `prefix`. */
  ghost function LegacyProgress(prefix: seq<Archive.Item>, file: Archive.ArchiveFile, n: nat,
                                c: Corpus.Collaborators, name: Namer): LegacyState
    requires n <= |file.records|
  {
    LegacyAll(prefix + Archive.ItemsOf(file, Archive.Picks(file.records[..n])), c, name)
  }

  lemma LegacyProgressStart(prefix: seq<Archive.Item>, file: Archive.ArchiveFile, c: Corpus.Collaborators, name: Namer)
    ensures LegacyProgress(prefix, file, 0, c, name) == LegacyAll(prefix, c, name)
  {
    assert file.records[..0] == [];
    assert prefix + [] == prefix;
  }

  /** One more record: a step when taken, nothing otherwise. */
  lemma LegacyProgressNext(prefix: seq<Archive.Item>, file: Archive.ArchiveFile, n: nat,
                           c: Corpus.Collaborators, name: Namer)
    requires n < |file.records| && !Archive.Crashes(file.records[..n])
    ensures Archive.Crashes(file.records[..n + 1]) <==> Archive.Classify(file.records[n]) == Archive.Crash
    ensures Archive.Classify(file.records[n]) == Archive.Take ==>
      LegacyProgress(prefix, file, n + 1, c, name)
        == LegacyStep(LegacyProgress(prefix, file, n, c, name), Archive.Item(file, Archive.Pick(n, file.records[n])), c, name)
    ensures Archive.Classify(file.records[n]) == Archive.Skip ==>
      LegacyProgress(prefix, file, n + 1, c, name) == LegacyProgress(prefix, file, n, c, name)
  {
    Archive.PicksNext(file.records, n);
    Archive.ItemsNext(prefix, file, n);
    if Archive.Classify(file.records[n]) == Archive.Take {
      LegacyAllAppend(prefix + Archive.ItemsOf(file, Archive.Picks(file.records[..n])),
                      Archive.Item(file, Archive.Pick(n, file.records[n])), c, name);
    }
  }

  /** Where the loop leaves the archive, by crash or by running out of records. */
  lemma LegacyProgressEnd(prefix: seq<Archive.Item>, file: Archive.ArchiveFile, n: nat,
                          c: Corpus.Collaborators, name: Namer)
    requires n <= |file.records| && !Archive.Crashes(file.records[..n])
    requires n == |file.records| || Archive.Classify(file.records[n]) == Archive.Crash
    ensures LegacyProgress(prefix, file, n, c, name)
         == LegacyAll(prefix + Archive.ItemsOf(file, Archive.Picks(file.records)), c, name)
  {
    if n == |file.records| {
      assert file.records[..n] == file.records;
    } else {
      Archive.PicksNext(file.records, n);
      Archive.PicksStop(file.records, n + 1);
    }
  }

  /**
   * The body of the record loop for a record that is processed: the text is
   * hashed, a seen hash moves on, a new one is added and its file written.
   */
  method WriteRecord(seen: set<string>, written: seq<Written>, file: Archive.ArchiveFile, index: nat,
                     c: Corpus.Collaborators, ghost name: Namer)
      returns (seen': set<string>, written': seq<Written>)
    requires index < |file.records| && Names(name, c.md5)
    ensures LegacyState(seen', written')
         == LegacyStep(LegacyState(seen, written), Archive.Item(file, Archive.Pick(index, file.records[index])), c, name)
  {
    var record := file.records[index];
    var extracted := c.extract(record.payload);
    var normalizedText := c.nfkc(extracted.text);
    var textHash := c.md5(normalizedText);
    seen', written' := seen, written;
    if textHash in seen {
      return;
    }
    seen' := seen + {textHash};
    var outputFileName := GenerateFilename(record.targetUri, index, c.md5);
    if !EndsWith(outputFileName, ".txt") {
      outputFileName := outputFileName + ".txt";
    }
    assert outputFileName == OutputName(record.targetUri, index, c.md5);
    written' := written + [Written(file.dir, outputFileName, normalizedText + "\n\nLinks:\n" + JoinWith(extracted.links, '\n'))];
  }

  /** The body of the record loop: test the record, then hash it and write it when taken. */
  method HandleRecord(seen: set<string>, written: seq<Written>, file: Archive.ArchiveFile, index: nat,
                      ghost prefix: seq<Archive.Item>, c: Corpus.Collaborators, ghost name: Namer)
      returns (seen': set<string>, written': seq<Written>, crashed: bool)
    requires index < |file.records| && !Archive.Crashes(file.records[..index])
    requires Names(name, c.md5)
    requires LegacyState(seen, written) == LegacyProgress(prefix, file, index, c, name)
    ensures crashed == Archive.Crashes(file.records[..index + 1])
    ensures !crashed ==> LegacyState(seen', written') == LegacyProgress(prefix, file, index + 1, c, name)
    ensures crashed ==> LegacyState(seen', written') == LegacyProgress(prefix, file, index, c, name)
  {
    LegacyProgressNext(prefix, file, index, c, name);
    seen', written' := seen, written;
    var verdict := Archive.Classify(file.records[index]);
    if verdict == Archive.Crash {
      return seen', written', true;
    }
    if verdict == Archive.Take {
      seen', written' := WriteRecord(seen', written', file, index, c, name);
    }
    crashed := false;
  }

  /** The record loop of one `.warc` file; a crash ends it and is reported. */
  method ProcessArchive(seen: set<string>, written: seq<Written>, file: Archive.ArchiveFile,
                        ghost prefix: seq<Archive.Item>, c: Corpus.Collaborators, ghost name: Namer)
      returns (seen': set<string>, written': seq<Written>, crashed: bool)
    requires Names(name, c.md5)
    requires LegacyState(seen, written) == LegacyAll(prefix, c, name)
    ensures crashed == Archive.Crashes(file.records)
    ensures LegacyState(seen', written') == LegacyAll(prefix + Archive.ItemsOf(file, Archive.Picks(file.records)), c, name)
  {
    seen', written' := seen, written;
    LegacyProgressStart(prefix, file, c, name);
    for index := 0 to |file.records|
      invariant !Archive.Crashes(file.records[..index])
      invariant LegacyState(seen', written') == LegacyProgress(prefix, file, index, c, name)
    {
      seen', written', crashed := HandleRecord(seen', written', file, index, prefix, c, name);
      if crashed {
        LegacyProgressNext(prefix, file, index, c, name);
        LegacyProgressEnd(prefix, file, index, c, name);
        return;
      }
    }
    LegacyProgressEnd(prefix, file, |file.records|, c, name);
    assert file.records[..|file.records|] == file.records;
    crashed := false;
  }

  /**
   * process_and_save_data of the older exporter: the files written and whether a
   * response without a Content-Type ended the walk early.
   */
  method ProcessAndSaveData(files: seq<Archive.ArchiveFile>, c: Corpus.Collaborators)
      returns (written: seq<Written>, aborted: bool)
    ensures written == Export(files, c).written
    ensures aborted == Archive.StreamCrashes(files, IsWarcName)
  {
    ghost var name := NamerOf(c.md5);
    NamerOfNames(c.md5);
    var seenTexts: set<string> := {};
    written := [];
    for i := 0 to |files|
      invariant !Archive.StreamCrashes(files[..i], IsWarcName)
      invariant LegacyState(seenTexts, written) == LegacyAll(Archive.Stream(files[..i], IsWarcName), c, name)
    {
      var file := files[i];
      Archive.StreamNext(files, IsWarcName, i);
      if EndsWith(file.name, ".warc") {
        var crashed;
        seenTexts, written, crashed := ProcessArchive(seenTexts, written, file, Archive.Stream(files[..i], IsWarcName), c, name);
        if crashed {
          Archive.StreamStops(files, IsWarcName, i + 1);
          aborted := true;
          return;
        }
      }
    }
    assert files[..|files|] == files;
    aborted := false;
  }

  /** The hashes of the processed texts. */
  function Hashes(items: seq<Archive.Item>, c: Corpus.Collaborators): set<string> {
    if items == [] then {} else Hashes(items[..|items| - 1], c) + {TextHash(items[|items| - 1], c)}
  }

  /** A hash is in the set exactly when some processed text has it. */
  lemma {:induction false} HashesMembers(items: seq<Archive.Item>, c: Corpus.Collaborators, h: string)
    ensures h in Hashes(items, c) <==> exists k :: 0 <= k < |items| && TextHash(items[k], c) == h
  {
    if items != [] {
      var init := items[..|items| - 1];
      HashesMembers(init, c, h);
      if h in Hashes(init, c) {
        var k :| 0 <= k < |init| && TextHash(init[k], c) == h;
        assert items[k] == init[k];
      }
      if k :| 0 <= k < |items| && TextHash(items[k], c) == h {
        if k < |init| { assert init[k] == items[k]; }
      }
    }
  }

  /** The set holds exactly the hashes of the processed texts. */
  lemma {:induction false} LegacyAllCounts(items: seq<Archive.Item>, c: Corpus.Collaborators, name: Namer)
    ensures LegacyAll(items, c, name).seen == Hashes(items, c)
  {
    if items != [] {
      LegacyAllCounts(items[..|items| - 1], c, name);
    }
  }

  /**
   * A text whose hash matches any earlier processed text, from whatever directory,
   * produces no file.
   */
  lemma RepeatWritesNothing(items: seq<Archive.Item>, it: Archive.Item, c: Corpus.Collaborators, name: Namer, k: nat)
    requires k < |items| && TextHash(items[k], c) == TextHash(it, c)
    ensures LegacyAll(items + [it], c, name) == LegacyAll(items, c, name)
  {
    LegacyAllCounts(items, c, name);
    HashesMembers(items, c, TextHash(it, c));
    LegacyAllAppend(items, it, c, name);
  }

  /** The position of the processed record a written file comes from. */
  lemma {:induction false} WrittenFrom(items: seq<Archive.Item>, c: Corpus.Collaborators, name: Namer, w: Written)
      returns (k: nat)
    requires w in LegacyAll(items, c, name).written
    ensures k < |items| && w == FileOf(items[k], c, name)
  {
    var init := items[..|items| - 1];
    assert LegacyAll(items, c, name) == LegacyStep(LegacyAll(init, c, name), items[|items| - 1], c, name);
    if w in LegacyAll(init, c, name).written {
      k := WrittenFrom(init, c, name, w);
      assert items[k] == init[k];
    } else {
      k := |items| - 1;
    }
  }

  /**
   * Every file written is named by generate_filename from its record's target URI
   * and its record's position in its own archive, skipped records included.
   */
  lemma WrittenNames(files: seq<Archive.ArchiveFile>, c: Corpus.Collaborators, w: Written)
    requires w in Export(files, c).written
    ensures exists f, i :: (f in files && IsWarcName(f) && 0 <= i < |f.records|
      && w.name == GenerateFilename(f.records[i].targetUri, i, c.md5) && w.dir == f.dir)
  {
    var items := Archive.Stream(files, IsWarcName);
    var n := WrittenFrom(items, c, NamerOf(c.md5), w);
    var it := items[n];
    Archive.StreamSound(files, IsWarcName);
    Archive.PicksSound(it.file.records);
    var k :| 0 <= k < |Archive.Picks(it.file.records)| && Archive.Picks(it.file.records)[k] == it.pick;
    OutputNameIsGenerated(it.pick.record.targetUri, it.pick.index, c.md5);
  }
}
