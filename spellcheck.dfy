/** The per-file loop of `main` in spellcheck.py and its exit code: every
    file matched by the glob is pruned, piped through `aspell list`, and
    filed as good (aspell printed nothing but whitespace) or bad (with the
    list of words aspell printed); the script exits with 1 exactly when some
    file is bad.

    The external programs are not modelled: each file comes with the outcome
    of running them on it, either the text aspell wrote to its standard
    output or the failure that `check=True` turns into an exception. */
module Spellcheck {
  import opened Text
  import opened Results
  import Context

  datatype Option<T> = None | Some(value: T)

  /** The CheckedFile record: a path and the words aspell flagged in it. */
  datatype CheckedFile = CheckedFile(filepath: string, misspelledWords: seq<string>)

  /** The value of the `-d/--dictionary` option (stored as
      `dictionary_path`) as main sees it. */
  datatype Dictionary =
    | NoDictionary                  // the argument is empty or absent
    | NotAString                    // given, but not a single string
    | DictionaryPath(present: bool) // a path, and whether a file is there

  /** What running the external programs on one file produced. */
  datatype Outcome =
    | PruningFailed         // prune_content raised: no such file, or a pandoc call failed
    | AspellFailed          // aspell exited with a non-zero status
    | Stdout(text: string)  // aspell succeeded and wrote `text`

  datatype FileRun = FileRun(path: string, outcome: Outcome)

  /** The exception that ends main, with the file it concerns: a
      SpellcheckError raised in the per-file loop, or one raised while the
      bad files are reported. */
  datatype FatalError =
    | PruneFailed(path: string)
    | DictionaryNotString
    | DictionaryNotFound
    | SpellcheckFailed(path: string)
    | Unreadable(path: string)   // open() in print_words_context fails
    | NoContext(path: string)    // sorted(print_lines)[0] raises IndexError

  datatype Partition = Partition(good: seq<CheckedFile>, bad: seq<CheckedFile>)

  /** The error raised while handling one file, if any, in the order main
      meets them: pruning, then the dictionary checks, then aspell. */
  function FileError(f: FileRun, dict: Dictionary): (e: Option<FatalError>)
    ensures e.None? <==> f.outcome.Stdout? && (dict.NoDictionary? || dict == DictionaryPath(true))
  {
    if f.outcome.PruningFailed? then Some(PruneFailed(f.path))
    else if dict.NotAString? then Some(DictionaryNotString)
    else if dict.DictionaryPath? && !dict.present then Some(DictionaryNotFound)
    else if f.outcome.AspellFailed? then Some(SpellcheckFailed(f.path))
    else None
  }

  /** [w.strip() for w in out.split("\n")]: one word per line of `out`,
      each the line with the whitespace around it removed. */
  function WordList(out: string): (words: seq<string>)
    ensures exists pieces :: |pieces| == |words| >= 1 && Join(pieces, '\n') == out
              && forall i :: 0 <= i < |pieces| ==> '\n' !in pieces[i] && words[i] == Strip(pieces[i])
  {
    var pieces := Split(out, '\n');
    JoinSplit(out, '\n');
    seq(|pieces|, i requires 0 <= i < |pieces| => Strip(pieces[i]))
  }

  /** The record main files for a run whose aspell output is `stdout`. */
  function Check(path: string, stdout: string): CheckedFile {
    var out := Strip(stdout);
    if out != [] then CheckedFile(path, WordList(out)) else CheckedFile(path, [])
  }

  /** aspell ran on the file and printed more than whitespace. */
  predicate Flagged(f: FileRun) {
    f.outcome.Stdout? && !AllSpace(f.outcome.text)
  }

  predicate IsBad(c: CheckedFile) {
    c.misspelledWords != []
  }

  /** The record of each run, in input order (a failed run counts as empty
      output; it is only consulted when no run failed). */
  function Records(files: seq<FileRun>): (r: seq<CheckedFile>)
    ensures |r| == |files|
  {
    if files == [] then []
    else
      var last := files[|files| - 1];
      Records(files[..|files| - 1]) + [Check(last.path, if last.outcome.Stdout? then last.outcome.text else [])]
  }

  /** What main's loop leaves behind after handling `files` in order: the
      first error raised, or the good and bad lists. */
  function Classification(files: seq<FileRun>, dict: Dictionary): Result<Partition, FatalError> {
    if files == [] then Ok(Partition([], []))
    else
      var previous := Classification(files[..|files| - 1], dict);
      var last := files[|files| - 1];
      if previous.Err? then previous
      else match FileError(last, dict)
        case Some(e) => Err(e)
        case None =>
          var c := Check(last.path, last.outcome.text);
          if IsBad(c) then Ok(Partition(previous.value.good, previous.value.bad + [c]))
          else Ok(Partition(previous.value.good + [c], previous.value.bad))
  }

  /** The loop of main over the files matched by the glob. */
  method Classify(files: seq<FileRun>, dict: Dictionary) returns (r: Result<Partition, FatalError>)
    ensures r == Classification(files, dict)
  {
    var goodFiles: seq<CheckedFile> := [];
    var badFiles: seq<CheckedFile> := [];
    for i := 0 to |files|
      invariant Classification(files[..i], dict) == Ok(Partition(goodFiles, badFiles))
    {
      assert files[..i + 1][..i] == files[..i];
      var f := files[i];
      if f.outcome.PruningFailed? {
        ClassificationErrorStays(files, dict, i + 1);
        return Err(PruneFailed(f.path));
      }
      if dict.NotAString? {
        ClassificationErrorStays(files, dict, i + 1);
        return Err(DictionaryNotString);
      }
      if dict.DictionaryPath? && !dict.present {
        ClassificationErrorStays(files, dict, i + 1);
        return Err(DictionaryNotFound);
      }
      if f.outcome.AspellFailed? {
        ClassificationErrorStays(files, dict, i + 1);
        return Err(SpellcheckFailed(f.path));
      }
      var standardOut := Strip(f.outcome.text);
      if standardOut != [] {
        var misspelledWords := WordList(standardOut);
        badFiles := badFiles + [CheckedFile(f.path, misspelledWords)];
      } else {
        goodFiles := goodFiles + [CheckedFile(f.path, [])];
      }
    }
    assert files[..|files|] == files;
    r := Ok(Partition(goodFiles, badFiles));
  }

  /** Once an error is raised, handling further files changes nothing. */
  lemma {:induction false} ClassificationErrorStays(files: seq<FileRun>, dict: Dictionary, n: nat)
    requires n <= |files| && Classification(files[..n], dict).Err?
    ensures Classification(files, dict) == Classification(files[..n], dict)
    decreases |files|
  {
    if n < |files| {
      assert files[..|files| - 1][..n] == files[..n];
      ClassificationErrorStays(files[..|files| - 1], dict, n);
    } else {
      assert files[..n] == files;
    }
  }

  /** Handling file `i` raises an error. */
  predicate Raises(files: seq<FileRun>, dict: Dictionary, i: int) {
    0 <= i < |files| && FileError(files[i], dict).Some?
  }

  /** The per-file loop stops with an error exactly when some file raises
      one. */
  lemma {:induction false} ClassificationFails(files: seq<FileRun>, dict: Dictionary)
    ensures Classification(files, dict).Err? <==> exists i :: Raises(files, dict, i)
    decreases |files|
  {
    if files != [] {
      var front := files[..|files| - 1];
      ClassificationFails(front, dict);
      if Classification(files, dict).Err? {
        if Classification(front, dict).Err? {
          var i :| Raises(front, dict, i);
          assert Raises(files, dict, i);
        } else {
          assert Raises(files, dict, |files| - 1);
        }
      }
      if exists i :: Raises(files, dict, i) {
        var i :| Raises(files, dict, i);
        if i < |files| - 1 {
          assert Raises(front, dict, i);
        }
      }
    }
  }

  /** `i` is the first file that raises an error, and the error is `e`. */
  predicate FirstRaise(files: seq<FileRun>, dict: Dictionary, i: int, e: FatalError) {
    Raises(files, dict, i) && FileError(files[i], dict) == Some(e)
    && forall k :: 0 <= k < i ==> !Raises(files, dict, k)
  }

  /** The error the loop stops with is the one raised by the first file
      that raises one. */
  lemma {:induction false} ClassificationFirstError(files: seq<FileRun>, dict: Dictionary)
    requires Classification(files, dict).Err?
    ensures exists i :: FirstRaise(files, dict, i, Classification(files, dict).error)
    decreases |files|
  {
    var front := files[..|files| - 1];
    if Classification(front, dict).Err? {
      ClassificationFirstError(front, dict);
      var i :| FirstRaise(front, dict, i, Classification(front, dict).error);
      FirstRaiseExtend(files, dict, i);
    } else {
      FirstRaiseLast(files, dict);
    }
  }

  /** An error already raised by the files before the last one stays the
      first error. */
  lemma FirstRaiseExtend(files: seq<FileRun>, dict: Dictionary, i: int)
    requires files != [] && Classification(files[..|files| - 1], dict).Err?
    requires FirstRaise(files[..|files| - 1], dict, i, Classification(files[..|files| - 1], dict).error)
    ensures FirstRaise(files, dict, i, Classification(files, dict).error)
  {
    var front := files[..|files| - 1];
    assert Classification(files, dict) == Classification(front, dict);
    assert files[i] == front[i];
    forall k | 0 <= k < i ensures !Raises(files, dict, k) {
      assert files[k] == front[k] && !Raises(front, dict, k);
    }
  }

  /** When the files before the last one raise nothing, the error is the
      last file's. */
  lemma FirstRaiseLast(files: seq<FileRun>, dict: Dictionary)
    requires files != [] && Classification(files[..|files| - 1], dict).Ok? && Classification(files, dict).Err?
    ensures FirstRaise(files, dict, |files| - 1, Classification(files, dict).error)
  {
    var front := files[..|files| - 1];
    var last := |files| - 1;
    var e := FileError(files[last], dict);
    assert e.Some? && Classification(files, dict) == Err(e.value);
    ClassificationFails(front, dict);
    forall k | 0 <= k < last ensures !Raises(files, dict, k) {
      assert files[k] == front[k] && !Raises(front, dict, k);
    }
  }

  /** `zs` is `xs` and `ys` merged, each keeping its own order. */
  predicate Interleaving<T(==)>(xs: seq<T>, ys: seq<T>, zs: seq<T>)
    decreases |zs|
  {
    if zs == [] then xs == [] && ys == []
    else
      var z := zs[|zs| - 1];
      || (xs != [] && xs[|xs| - 1] == z && Interleaving(xs[..|xs| - 1], ys, zs[..|zs| - 1]))
      || (ys != [] && ys[|ys| - 1] == z && Interleaving(xs, ys[..|ys| - 1], zs[..|zs| - 1]))
  }

  lemma InterleaveLeft<T>(xs: seq<T>, ys: seq<T>, zs: seq<T>, z: T)
    requires Interleaving(xs, ys, zs)
    ensures Interleaving(xs + [z], ys, zs + [z])
  {
    assert (xs + [z])[..|xs|] == xs && (zs + [z])[..|zs|] == zs;
  }

  lemma InterleaveRight<T>(xs: seq<T>, ys: seq<T>, zs: seq<T>, z: T)
    requires Interleaving(xs, ys, zs)
    ensures Interleaving(xs, ys + [z], zs + [z])
  {
    assert (ys + [z])[..|ys|] == ys && (zs + [z])[..|zs|] == zs;
  }

  lemma AllBadAppend(cs: seq<CheckedFile>, c: CheckedFile)
    requires forall k :: 0 <= k < |cs| ==> IsBad(cs[k])
    requires IsBad(c)
    ensures forall k :: 0 <= k < |cs + [c]| ==> IsBad((cs + [c])[k])
  {
  }

  lemma NoneBadAppend(cs: seq<CheckedFile>, c: CheckedFile)
    requires forall k :: 0 <= k < |cs| ==> !IsBad(cs[k])
    requires !IsBad(c)
    ensures forall k :: 0 <= k < |cs + [c]| ==> !IsBad((cs + [c])[k])
  {
  }

  /** When main gets through all files, every record lands in exactly one
      of the two lists, both lists keep the input order, the good list holds
      only records without words and the bad list only records with some. */
  lemma {:induction false} ClassificationPartitions(files: seq<FileRun>, dict: Dictionary)
    requires Classification(files, dict).Ok?
    ensures var p := Classification(files, dict).value;
      && Interleaving(p.good, p.bad, Records(files))
      && (forall k :: 0 <= k < |p.good| ==> !IsBad(p.good[k]))
      && (forall k :: 0 <= k < |p.bad| ==> IsBad(p.bad[k]))
    decreases |files|
  {
    if files != [] {
      var front := files[..|files| - 1];
      var p := Classification(front, dict).value;
      ClassificationPartitions(front, dict);
      var last := files[|files| - 1];
      var c := Check(last.path, last.outcome.text);
      assert Records(files) == Records(front) + [c];
      if IsBad(c) {
        assert Classification(files, dict).value == Partition(p.good, p.bad + [c]);
        InterleaveRight(p.good, p.bad, Records(front), c);
        AllBadAppend(p.bad, c);
      } else {
        assert Classification(files, dict).value == Partition(p.good + [c], p.bad);
        InterleaveLeft(p.good, p.bad, Records(front), c);
        NoneBadAppend(p.good, c);
      }
    }
  }

  /** Of two lists split by IsBad, the bad one is empty exactly when no
      merged element is bad. */
  lemma {:induction false} InterleavingBad(xs: seq<CheckedFile>, ys: seq<CheckedFile>, zs: seq<CheckedFile>)
    requires Interleaving(xs, ys, zs)
    requires forall k :: 0 <= k < |xs| ==> !IsBad(xs[k])
    requires forall k :: 0 <= k < |ys| ==> IsBad(ys[k])
    ensures ys != [] <==> exists i :: 0 <= i < |zs| && IsBad(zs[i])
    decreases |zs|
  {
    if zs != [] {
      var z := zs[|zs| - 1];
      var front := zs[..|zs| - 1];
      assert forall k :: 0 <= k < |front| ==> front[k] == zs[k];
      if xs != [] && xs[|xs| - 1] == z && Interleaving(xs[..|xs| - 1], ys, front) {
        InterleavingBad(xs[..|xs| - 1], ys, front);
        assert !IsBad(z);
      } else {
        InterleavingBad(xs, ys[..|ys| - 1], front);
        assert IsBad(zs[|zs| - 1]);
      }
    }
  }

  /** A file is bad exactly when aspell's output holds a non-whitespace
      character; its word list is then never empty and starts with a
      non-empty word. */
  lemma CheckBad(path: string, stdout: string)
    ensures Check(path, stdout).filepath == path
    ensures IsBad(Check(path, stdout)) <==> !AllSpace(stdout)
    ensures IsBad(Check(path, stdout)) ==> Check(path, stdout).misspelledWords[0] != []
  {
    var out := Strip(stdout);
    if out != [] {
      SplitFirstPiece(out, '\n');
      var first := Split(out, '\n')[0];
      assert !IsSpace(first[0]);
      assert first[0] != '\n';
      assert Strip(first) != [] by {
        assert !AllSpace(first) by {
          assert !IsSpace(first[0]);
        }
      }
    }
  }

  /** A string that does not start with the separator starts its first piece. */
  lemma SplitFirstPiece(s: string, sep: char)
    requires s != [] && s[0] != sep
    ensures Split(s, sep)[0] != [] && Split(s, sep)[0][0] == s[0]
  {
  }

  /** Each flagged word is one line of aspell's output with the whitespace
      around it removed: it holds no line break and neither starts nor ends
      with whitespace. */
  lemma WordListWords(out: string)
    ensures forall i :: 0 <= i < |WordList(out)| ==>
              '\n' !in WordList(out)[i]
              && (WordList(out)[i] != [] ==> !IsSpace(WordList(out)[i][0]) && !IsSpace(WordList(out)[i][|WordList(out)[i]| - 1]))
  {
    var words := WordList(out);
    var pieces :| |pieces| == |words| >= 1 && Join(pieces, '\n') == out
                  && forall i :: 0 <= i < |pieces| ==> '\n' !in pieces[i] && words[i] == Strip(pieces[i]);
    forall i | 0 <= i < |words| ensures '\n' !in words[i] {
      StripKeepsOut(pieces[i], '\n');
    }
  }

  /** `return 1` when bad_files is non-empty, else `return 0`. */
  function ExitCode(p: Partition): (code: int)
    ensures code == 0 || code == 1
  {
    if p.bad != [] then 1 else 0
  }

  /** What reporting one bad file raises, if anything: `open` fails when
      the path cannot be read, and print_words_context raises IndexError
      when none of the file's flagged words occurs in any of its lines. */
  function ReportError(read: map<string, seq<string>>, c: CheckedFile): Option<FatalError> {
    if c.filepath !in read then Some(Unreadable(c.filepath))
    else if forall i :: 0 <= i < |read[c.filepath]| ==> !Context.IsMatch(read[c.filepath][i], c.misspelledWords)
    then Some(NoContext(c.filepath))
    else None
  }

  /** The first error the report loop over `badFiles` raises, if any. */
  function Report(read: map<string, seq<string>>, badFiles: seq<CheckedFile>): Option<FatalError> {
    if badFiles == [] then None
    else if ReportError(read, badFiles[0]).Some? then ReportError(read, badFiles[0])
    else Report(read, badFiles[1..])
  }

  /** The loop of main that shows each bad file's flagged words in context;
      `read` maps each path to the lines readlines() gives for it. */
  method ReportBadFiles(read: map<string, seq<string>>, badFiles: seq<CheckedFile>) returns (e: Option<FatalError>)
    ensures e == Report(read, badFiles)
  {
    for k := 0 to |badFiles|
      invariant Report(read, badFiles) == Report(read, badFiles[k..])
    {
      var badFile := badFiles[k];
      assert badFiles[k..][0] == badFile && badFiles[k..][1..] == badFiles[k + 1..];
      if badFile.filepath !in read {
        return Some(Unreadable(badFile.filepath));
      }
      var printout := Context.PrintWordsContext(read[badFile.filepath], badFile.misspelledWords);
      if printout.Err? {
        return Some(NoContext(badFile.filepath));
      }
    }
    assert badFiles[|badFiles|..] == [];
    return None;
  }

  /** The report loop stops exactly when some bad file raises an error, and
      with the error of the first one that does. */
  lemma {:induction false} ReportFirstError(read: map<string, seq<string>>, badFiles: seq<CheckedFile>)
    ensures Report(read, badFiles).Some? <==> exists k :: 0 <= k < |badFiles| && ReportError(read, badFiles[k]).Some?
    ensures Report(read, badFiles).Some? ==>
              exists k :: 0 <= k < |badFiles| && ReportError(read, badFiles[k]) == Report(read, badFiles)
                          && forall j :: 0 <= j < k ==> ReportError(read, badFiles[j]).None?
    decreases |badFiles|
  {
    if badFiles != [] {
      var rest := badFiles[1..];
      ReportFirstError(read, rest);
      assert forall k :: 0 <= k < |rest| ==> rest[k] == badFiles[k + 1];
      if ReportError(read, badFiles[0]).None? {
        if exists k :: 0 <= k < |badFiles| && ReportError(read, badFiles[k]).Some? {
          var k :| 0 <= k < |badFiles| && ReportError(read, badFiles[k]).Some?;
          assert ReportError(read, rest[k - 1]).Some?;
        }
        if Report(read, rest).Some? {
          var k :| 0 <= k < |rest| && ReportError(read, rest[k]) == Report(read, rest)
                   && forall j :: 0 <= j < k ==> ReportError(read, rest[j]).None?;
          assert ReportError(read, badFiles[k + 1]) == Report(read, badFiles);
        }
      } else {
        assert ReportError(read, badFiles[0]) == Report(read, badFiles);
      }
    }
  }

  /** main: the first error raised by the per-file loop, else the first
      error raised while reporting the bad files, else the exit code. */
  method RunSpellcheck(files: seq<FileRun>, dict: Dictionary, read: map<string, seq<string>>)
    returns (r: Result<int, FatalError>)
    ensures (exists i :: Raises(files, dict, i)) ==>
              r.Err? && exists i :: FirstRaise(files, dict, i, r.error)
    ensures Classification(files, dict).Ok? ==>
              var badFiles := Classification(files, dict).value.bad;
              && (r.Err? <==> exists k :: 0 <= k < |badFiles| && ReportError(read, badFiles[k]).Some?)
              && (r.Err? ==> exists k :: 0 <= k < |badFiles| && ReportError(read, badFiles[k]) == Some(r.error)
                                         && forall j :: 0 <= j < k ==> ReportError(read, badFiles[j]).None?)
    ensures r.Ok? ==> (r.value == 1 <==> exists i :: 0 <= i < |files| && Flagged(files[i]))
    ensures r.Ok? ==> (r.value == 0 <==> forall i :: 0 <= i < |files| ==> !Flagged(files[i]))
  {
    var classified := Classify(files, dict);
    ClassificationFails(files, dict);
    if classified.Err? {
      ClassificationFirstError(files, dict);
      return Err(classified.error);
    }
    var reported := ReportBadFiles(read, classified.value.bad);
    ReportFirstError(read, classified.value.bad);
    if reported.Some? {
      return Err(reported.value);
    }
    ExitCodeRule(files, dict);
    r := Ok(ExitCode(classified.value));
  }

  /** The exit code is 1 exactly when aspell flagged something in some file. */
  lemma ExitCodeRule(files: seq<FileRun>, dict: Dictionary)
    requires Classification(files, dict).Ok?
    ensures ExitCode(Classification(files, dict).value) == 1 <==>
              exists i :: 0 <= i < |files| && Flagged(files[i])
  {
    var p := Classification(files, dict).value;
    var zs := Records(files);
    ClassificationPartitions(files, dict);
    InterleavingBad(p.good, p.bad, zs);
    ClassificationFails(files, dict);
    forall i | 0 <= i < |files| ensures IsBad(zs[i]) <==> Flagged(files[i]) {
      assert !Raises(files, dict, i);
      var f := files[i];
      assert f.outcome.Stdout?;
      RecordsAt(files, i);
      CheckBad(f.path, f.outcome.text);
    }
    assert (exists i :: 0 <= i < |zs| && IsBad(zs[i])) <==> exists i :: 0 <= i < |files| && Flagged(files[i]);
  }

  lemma {:induction false} RecordsAt(files: seq<FileRun>, i: nat)
    requires i < |files|
    ensures Records(files)[i] ==
              Check(files[i].path, if files[i].outcome.Stdout? then files[i].outcome.text else [])
    decreases |files|
  {
    if i < |files| - 1 {
      RecordsAt(files[..|files| - 1], i);
    }
  }
}
