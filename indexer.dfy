/**
  Ingestion (`extract_text`, `index_folder`): every file under the root is
  counted; a file whose path is already in the table is skipped; otherwise
  its text is extracted by the backend its suffix selects, whitespace runs
  are collapsed to one space, and a row is appended with up to three folder
  names taken from the path relative to the root. A failed extraction is
  counted and the run goes on.
*/
module Indexer {
  import opened Wrappers
  import opened Strings
  import opened Docs

  // ---------------------------------------------------------------------
  // Extraction

  /** The extraction backend a file goes to. */
  datatype Kind = Pdf | Image | Text

  predicate EndsWith(s: string, suffix: string) {
    |suffix| <= |s| && s[|s| - |suffix|..] == suffix
  }

  /** The suffix dispatch of `extract_text`, on the lower-cased path; any other suffix is read as text. */
  function Dispatch(path: string): Kind {
    var p := Lower(path);
    if EndsWith(p, ".pdf") then Pdf
    else if EndsWith(p, ".jpg") || EndsWith(p, ".png") then Image
    else Text
  }

  lemma LowerEndsWith(p: string, suffix: string)
    ensures EndsWith(Lower(p), suffix) <==> |suffix| <= |p| && Lower(p[|p| - |suffix|..]) == suffix
  {
    if |suffix| <= |p| {
      LowerSlice(p, |p| - |suffix|, |p|);
    }
  }

  /**
    The backend is chosen by the last four characters of the path, up to
    case: `.pdf` goes to the PDF reader, `.jpg` and `.png` to OCR, anything
    else, a path too short for a suffix included, is read as text.
  */
  lemma DispatchSuffix(p: string)
    ensures Dispatch(p) == Pdf <==> |p| >= 4 && Lower(p[|p| - 4..]) == ".pdf"
    ensures Dispatch(p) == Image <==> |p| >= 4 && Lower(p[|p| - 4..]) in {".jpg", ".png"}
    ensures |p| < 4 ==> Dispatch(p) == Text
  {
    LowerEndsWith(p, ".pdf");
    LowerEndsWith(p, ".jpg");
    LowerEndsWith(p, ".png");
  }

  /** So two paths whose last four characters agree up to case go to the same backend, and case never matters. */
  lemma DispatchBySuffix(p: string, q: string)
    requires |p| >= 4 && |q| >= 4 && Lower(p[|p| - 4..]) == Lower(q[|q| - 4..])
    ensures Dispatch(p) == Dispatch(q)
    ensures Dispatch(p) == Dispatch(Lower(p))
  {
    DispatchSuffix(p);
    DispatchSuffix(q);
    LowerLower(p);
  }

  /** The whitespace normalisation: every run of whitespace becomes one space. */
  function Collapse(s: string): (r: string)
    ensures |r| <= |s|
    ensures r == [] <==> s == []
    ensures s != [] ==> (IsSpace(r[0]) <==> IsSpace(s[0]))
    ensures s != [] ==> (IsSpace(r[|r| - 1]) <==> IsSpace(s[|s| - 1]))
    decreases |s|
  {
    if s == [] then []
    else if IsSpace(s[0]) then [' '] + Collapse(s[Leading(s, Whitespace)..])
    else [s[0]] + Collapse(s[1..])
  }

  lemma SingleSpacedCons(c: char, t: string)
    requires SingleSpaced(t)
    requires IsSpace(c) ==> c == ' ' && (t == [] || !IsSpace(t[0]))
    ensures SingleSpaced([c] + t)
  {
    var r := [c] + t;
    forall i | 0 <= i < |r| - 1 ensures !(IsSpace(r[i]) && IsSpace(r[i + 1])) {
      if i > 0 {
        assert r[i] == t[i - 1] && r[i + 1] == t[i];
      }
    }
  }

  /** Collapsed text holds no whitespace but single spaces. */
  lemma {:induction false} CollapseSingleSpaced(s: string)
    ensures SingleSpaced(Collapse(s))
    decreases |s|
  {
    if s != [] {
      if IsSpace(s[0]) {
        CollapseSingleSpaced(s[Leading(s, Whitespace)..]);
        SingleSpacedCons(' ', Collapse(s[Leading(s, Whitespace)..]));
      } else {
        CollapseSingleSpaced(s[1..]);
        SingleSpacedCons(s[0], Collapse(s[1..]));
      }
    }
  }

  lemma {:induction false} NonSpaceSkip(s: string, n: nat)
    requires n <= |s| && forall k :: 0 <= k < n ==> IsSpace(s[k])
    ensures NonSpace(s) == NonSpace(s[n..])
  {
    if n > 0 {
      assert s[1..][n - 1..] == s[n..];
      NonSpaceSkip(s[1..], n - 1);
    }
  }

  /** Collapsing keeps every character that is not whitespace, in order. */
  lemma {:induction false} CollapseNonSpace(s: string)
    ensures NonSpace(Collapse(s)) == NonSpace(s)
    decreases |s|
  {
    if s != [] {
      if IsSpace(s[0]) {
        var n := Leading(s, Whitespace);
        CollapseNonSpace(s[n..]);
        NonSpaceSkip(s, n);
        assert ([' '] + Collapse(s[n..]))[1..] == Collapse(s[n..]);
      } else {
        CollapseNonSpace(s[1..]);
        assert ([s[0]] + Collapse(s[1..]))[1..] == Collapse(s[1..]);
      }
    }
  }

  lemma {:induction false} SplitFromSkip(s: string, n: nat)
    requires n <= |s| && forall k :: 0 <= k < n ==> IsSpace(s[k])
    ensures SplitFrom(s, []) == SplitFrom(s[n..], [])
  {
    if n > 0 {
      assert s[1..][n - 1..] == s[n..];
      SplitFromSkip(s[1..], n - 1);
    }
  }

  lemma {:induction false} CollapseSplitFrom(s: string, word: string)
    ensures SplitFrom(Collapse(s), word) == SplitFrom(s, word)
    decreases |s|
  {
    if s != [] {
      var c := Collapse(s);
      if IsSpace(s[0]) {
        var n := Leading(s, Whitespace);
        assert c == [' '] + Collapse(s[n..]);
        assert c[1..] == Collapse(s[n..]);
        CollapseSplitFrom(s[n..], []);
        assert s[1..][n - 1..] == s[n..];
        SplitFromSkip(s[1..], n - 1);
      } else {
        assert c == [s[0]] + Collapse(s[1..]);
        assert c[1..] == Collapse(s[1..]);
        CollapseSplitFrom(s[1..], word + [s[0]]);
      }
    }
  }

  /** Collapsing keeps the words: the text splits on whitespace into the same words as before. */
  lemma CollapseSplit(s: string)
    ensures Split(Collapse(s)) == Split(s)
  {
    CollapseSplitFrom(s, []);
  }

  /** Text that is already single-spaced is left alone, so collapsing twice is collapsing once. */
  lemma {:induction false} CollapseFixed(s: string)
    requires SingleSpaced(s)
    ensures Collapse(s) == s
    decreases |s|
  {
    if s != [] {
      assert SingleSpaced(s[1..]) by {
        assert forall i :: 0 <= i < |s| - 1 ==> s[1..][i] == s[i + 1];
      }
      CollapseFixed(s[1..]);
      if IsSpace(s[0]) {
        assert Leading(s, Whitespace) == 1 by {
          assert |s| > 1 ==> !IsSpace(s[1]);
        }
      }
      assert s == [s[0]] + s[1..];
    }
  }

  lemma CollapseIdempotent(s: string)
    ensures Collapse(Collapse(s)) == Collapse(s)
  {
    CollapseSingleSpaced(s);
    CollapseFixed(Collapse(s));
  }

  /**
    What a backend reads from a file: `Some(text)`, or `None` when it raises.
    PDF page text, OCR and file reading are outside the model.
  */
  type Reader = (Kind, string) -> Option<string>

  /**
    Text extraction: the backend the suffix selects, then the whitespace
    collapse; `None` when the backend raises. The text is the backend's text
    with the same characters and the same words, single-spaced; a leading or
    trailing whitespace run leaves one space, and only empty text stays empty.
  */
  function ExtractText(path: string, read: Reader): (r: Option<string>)
    ensures r.None? <==> read(Dispatch(path), path).None?
    ensures r.Some? ==> var raw := read(Dispatch(path), path).value;
      && SingleSpaced(r.value)
      && (r.value == [] <==> raw == [])
      && (raw != [] ==> (IsSpace(r.value[0]) <==> IsSpace(raw[0])))
      && (raw != [] ==> (IsSpace(r.value[|r.value| - 1]) <==> IsSpace(raw[|raw| - 1])))
      && NonSpace(r.value) == NonSpace(raw)
      && Split(r.value) == Split(raw)
  {
    match read(Dispatch(path), path)
    case None => None
    case Some(raw) =>
      CollapseSingleSpaced(raw);
      CollapseNonSpace(raw);
      CollapseSplit(raw);
      Some(Collapse(raw))
  }

  // ---------------------------------------------------------------------
  // Folder names

  /** The path separator. */
  const Sep: char := '/'

  /** `folder1`, `folder2`, `folder3` from the segments of the path relative to the root. */
  function Folders(parts: seq<string>): (Option<string>, Option<string>, Option<string>) {
    (if |parts| > 1 then Some(parts[0]) else if |parts| == 1 then Some(parts[0]) else None,
     if |parts| > 2 then Some(parts[1]) else None,
     if |parts| > 3 then Some(parts[2]) else None)
  }

  /**
    The three folder names: `folder1` is the first segment whenever there is
    one, so for a file directly under the root it is the file's own name;
    `folder2` and `folder3` are the second and third segments only when a
    segment follows them, so they are never the file name; and a relative
    path split on the separator always has a first segment.
  */
  lemma FoldersSpec(rel: string)
    ensures var parts := SplitOn(rel, Sep);
      var (f1, f2, f3) := Folders(parts);
      && f1 == Some(parts[0])
      && (f2.Some? <==> |parts| >= 3) && (f2.Some? ==> f2.value == parts[1] && 1 != |parts| - 1)
      && (f3.Some? <==> |parts| >= 4) && (f3.Some? ==> f3.value == parts[2] && 2 != |parts| - 1)
      && (|parts| == 1 ==> f1 == Some(rel))
      && (forall f :: f in [f1, f2, f3] && f.Some? ==> Sep !in f.value)
  {
    var parts := SplitOn(rel, Sep);
    SplitOnJoin(rel, Sep);
    if |parts| == 1 {
      assert Join(parts, [Sep]) == parts[0];
    }
    var (f1, f2, f3) := Folders(parts);
    forall f | f in [f1, f2, f3] && f.Some? ensures Sep !in f.value {
      assert f == f1 || f == f2 || f == f3;
    }
  }

  // ---------------------------------------------------------------------
  // The ingestion run

  /** A file found under the root: its path, and its path relative to the root. */
  datatype FileEntry = FileEntry(path: string, rel: string)

  /** The counters `index_folder` reports. */
  datatype Stats = Stats(total: nat, processed: nat, errors: nat)

  /** The table and the counters during a run; `skipped` counts files already indexed, which the run does not report. */
  datatype Run = Run(rows: seq<Doc>, total: nat, processed: nat, errors: nat, skipped: nat)

  function Start(rows: seq<Doc>): Run {
    Run(rows, 0, 0, 0, 0)
  }

  /** The row inserted for a file. */
  function NewRow(rows: seq<Doc>, f: FileEntry, text: string): Doc {
    var (f1, f2, f3) := Folders(SplitOn(f.rel, Sep));
    Doc(NextId(rows), f.path, text, 0, f1, f2, f3)
  }

  /** One iteration of the file loop. */
  function Step(run: Run, f: FileEntry, read: Reader): Run {
    if Indexed(run.rows, f.path) then run.(total := run.total + 1, skipped := run.skipped + 1)
    else
      match ExtractText(f.path, read)
      case None => run.(total := run.total + 1, errors := run.errors + 1)
      case Some(text) =>
        run.(rows := run.rows + [NewRow(run.rows, f, text)], total := run.total + 1, processed := run.processed + 1)
  }

  /** The file loop over `files`, in walk order. */
  function IngestAll(run: Run, files: seq<FileEntry>, read: Reader): Run
    decreases |files|
  {
    if files == [] then run
    else Step(IngestAll(run, files[..|files| - 1], read), files[|files| - 1], read)
  }

  lemma IndexedAppend(rows: seq<Doc>, d: Doc, path: string)
    ensures Indexed(rows + [d], path) <==> Indexed(rows, path) || d.path == path
  {
    if Indexed(rows, path) {
      var i :| 0 <= i < |rows| && rows[i].path == path;
      assert (rows + [d])[i] == rows[i];
    }
    if d.path == path {
      assert (rows + [d])[|rows|] == d;
    }
    if Indexed(rows + [d], path) && d.path != path {
      var i :| 0 <= i < |rows + [d]| && (rows + [d])[i].path == path;
      assert rows[i] == (rows + [d])[i];
    }
  }

  lemma StepWellFormed(run: Run, f: FileEntry, read: Reader)
    requires WellFormed(run.rows)
    ensures WellFormed(Step(run, f, read).rows)
  {
    var r := Step(run, f, read).rows;
    if r != run.rows {
      var d := NewRow(run.rows, f, ExtractText(f.path, read).value);
      assert r == run.rows + [d];
      assert forall i :: 0 <= i < |run.rows| ==> r[i] == run.rows[i];
      forall i | 0 <= i < |run.rows| ensures r[i].path != d.path {
        assert !Indexed(run.rows, f.path);
      }
    }
  }

  /**
    A run appends rows and changes none: the old table is a prefix of the
    new one, one row is added per file processed, every file is counted as
    processed, failed or skipped, and each added row comes from a file of
    the run, with the file's extracted text, its folder names and no clicks.
  */
  lemma {:induction false} IngestAppends(rows: seq<Doc>, files: seq<FileEntry>, read: Reader)
    ensures var run := IngestAll(Start(rows), files, read);
      && |run.rows| == |rows| + run.processed
      && run.rows[..|rows|] == rows
      && run.total == |files| == run.processed + run.errors + run.skipped
      && (forall k :: |rows| <= k < |run.rows| ==>
            run.rows[k].clicks == 0
            && exists f :: f in files && run.rows[k].path == f.path && ExtractText(f.path, read) == Some(run.rows[k].text)
                 && (run.rows[k].folder1, run.rows[k].folder2, run.rows[k].folder3) == Folders(SplitOn(f.rel, Sep)))
    decreases |files|
  {
    if files != [] {
      var pre, f := files[..|files| - 1], files[|files| - 1];
      IngestAppends(rows, pre, read);
      var run0 := IngestAll(Start(rows), pre, read);
      var run := Step(run0, f, read);
      forall k | |rows| <= k < |run.rows|
        ensures run.rows[k].clicks == 0
        ensures exists g :: g in files && run.rows[k].path == g.path && ExtractText(g.path, read) == Some(run.rows[k].text)
                  && (run.rows[k].folder1, run.rows[k].folder2, run.rows[k].folder3) == Folders(SplitOn(g.rel, Sep))
      {
        if k < |run0.rows| {
          assert run.rows[k] == run0.rows[k];
          var g :| g in pre && run0.rows[k].path == g.path && ExtractText(g.path, read) == Some(run0.rows[k].text)
                   && (run0.rows[k].folder1, run0.rows[k].folder2, run0.rows[k].folder3) == Folders(SplitOn(g.rel, Sep));
          assert g in files;
        } else {
          assert run.rows[k] == NewRow(run0.rows, f, ExtractText(f.path, read).value);
        }
      }
      assert run.rows[..|rows|] == run0.rows[..|rows|];
    }
  }

  /** The files of `files` that were not in `rows` before the run and whose extraction fails. */
  function FailedCount(rows: seq<Doc>, files: seq<FileEntry>, read: Reader): nat
    decreases |files|
  {
    if files == [] then 0
    else
      var f := files[|files| - 1];
      FailedCount(rows, files[..|files| - 1], read)
        + (if !Indexed(rows, f.path) && ExtractText(f.path, read).None? then 1 else 0)
  }

  /** A path whose extraction fails is in the table after a run only if it was in it before. */
  lemma IndexedFailed(rows: seq<Doc>, files: seq<FileEntry>, read: Reader, p: string)
    requires ExtractText(p, read).None?
    ensures Indexed(IngestAll(Start(rows), files, read).rows, p) <==> Indexed(rows, p)
  {
    var run := IngestAll(Start(rows), files, read);
    IngestAppends(rows, files, read);
    if Indexed(run.rows, p) {
      var i :| 0 <= i < |run.rows| && run.rows[i].path == p;
      assert i < |rows|;
      assert rows[i] == run.rows[i];
    }
    if Indexed(rows, p) {
      var i :| 0 <= i < |rows| && rows[i].path == p;
      assert run.rows[i] == rows[i];
    }
  }

  /**
    The reported errors are exactly the files not indexed before the run
    whose extraction fails, so the skipped files are exactly the rest of the
    files not processed.
  */
  lemma {:induction false} IngestErrors(rows: seq<Doc>, files: seq<FileEntry>, read: Reader)
    ensures IngestAll(Start(rows), files, read).errors == FailedCount(rows, files, read)
    decreases |files|
  {
    if files != [] {
      var pre, f := files[..|files| - 1], files[|files| - 1];
      IngestErrors(rows, pre, read);
      if ExtractText(f.path, read).None? {
        IndexedFailed(rows, pre, read, f.path);
      }
    }
  }

  /**
    After a run every file of it is in the table, unless its extraction
    failed, and the table stays well formed: increasing ids, unique paths,
    single-spaced texts.
  */
  lemma {:induction false} IngestCovers(run: Run, files: seq<FileEntry>, read: Reader)
    requires WellFormed(run.rows)
    ensures WellFormed(IngestAll(run, files, read).rows)
    ensures forall f :: f in files ==> Indexed(IngestAll(run, files, read).rows, f.path) || ExtractText(f.path, read).None?
    ensures forall p :: Indexed(run.rows, p) ==> Indexed(IngestAll(run, files, read).rows, p)
    decreases |files|
  {
    if files != [] {
      var pre, f := files[..|files| - 1], files[|files| - 1];
      IngestCovers(run, pre, read);
      var run0 := IngestAll(run, pre, read);
      StepWellFormed(run0, f, read);
      var rows := Step(run0, f, read).rows;
      if rows != run0.rows {
        var d := NewRow(run0.rows, f, ExtractText(f.path, read).value);
        assert rows == run0.rows + [d];
        forall p | Indexed(run0.rows, p) || p == f.path ensures Indexed(rows, p) {
          IndexedAppend(run0.rows, d, p);
        }
      }
      forall g | g in files ensures Indexed(rows, g.path) || ExtractText(g.path, read).None? {
        if g != f {
          assert g in pre;
        }
      }
    }
  }

  /** When every file is already indexed or fails to extract, a run leaves the table as it is and processes nothing. */
  lemma {:induction false} IngestNoChange(run: Run, files: seq<FileEntry>, read: Reader)
    requires forall f :: f in files ==> Indexed(run.rows, f.path) || ExtractText(f.path, read).None?
    ensures IngestAll(run, files, read).rows == run.rows
    ensures IngestAll(run, files, read).processed == run.processed
    decreases |files|
  {
    if files != [] {
      IngestNoChange(run, files[..|files| - 1], read);
      assert files[|files| - 1] in files;
    }
  }

  /**
    Ingestion is idempotent: running it a second time over the same files,
    with the backends reading the same texts, adds no row.
  */
  lemma IngestIdempotent(rows: seq<Doc>, files: seq<FileEntry>, read: Reader)
    requires WellFormed(rows)
    ensures var first := IngestAll(Start(rows), files, read);
      var second := IngestAll(Start(first.rows), files, read);
      second.rows == first.rows && second.processed == 0
  {
    var first := IngestAll(Start(rows), files, read);
    IngestCovers(Start(rows), files, read);
    IngestNoChange(Start(first.rows), files, read);
  }

  /**
    `index_folder`: nothing happens when the root does not exist; otherwise
    the file loop runs over the walk's files, in order, against the table.
  */
  method IndexFolder(table: DocTable, rootExists: bool, files: seq<FileEntry>, read: Reader)
    returns (stats: Option<Stats>)
    requires table.Valid()
    modifies table
    ensures table.Valid()
    ensures !rootExists ==> stats == None && table.rows == old(table.rows)
    ensures rootExists ==>
      var run := IngestAll(Start(old(table.rows)), files, read);
      table.rows == run.rows && stats == Some(Stats(run.total, run.processed, run.errors))
  {
    var total, processed, errors := 0, 0, 0;
    if !rootExists {
      return None;
    }
    ghost var skipped := 0;
    ghost var rows0 := table.rows;
    for i := 0 to |files|
      invariant table.Valid()
      invariant IngestAll(Start(rows0), files[..i], read) == Run(table.rows, total, processed, errors, skipped)
    {
      assert files[..i + 1][..i] == files[..i];
      var f := files[i];
      total := total + 1;
      if Indexed(table.rows, f.path) {
        skipped := skipped + 1;
        continue;
      }
      var text := ExtractText(f.path, read);
      if text.None? {
        errors := errors + 1;
        continue;
      }
      var (folder1, folder2, folder3) := Folders(SplitOn(f.rel, Sep));
      var _ := table.Insert(f.path, text.value, folder1, folder2, folder3);
      processed := processed + 1;
    }
    assert files[..|files|] == files;
    stats := Some(Stats(total, processed, errors));
  }
}
