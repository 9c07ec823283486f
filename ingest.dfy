/** The deterministic parts of the LangChain ingestion script
    rag_langchain/ingest.py: the extension test `os.path.splitext` performs,
    the loader table, the routing of loaded documents to a prose or a Python
    splitter, the path filter over a directory walk, and the arithmetic that
    cuts the kept paths into batches for the worker pool. */
module Ingest {
  import opened Wrappers

  // ---------------------------------------------------------------------
  // Extensions
  // ---------------------------------------------------------------------

  /** `s.rfind(c)`: the last index holding `c`, or -1. */
  function RFind(s: string, c: char): (r: int)
    ensures -1 <= r < |s|
    ensures r == -1 ==> forall t :: 0 <= t < |s| ==> s[t] != c
    ensures r >= 0 ==> s[r] == c && forall t :: r < t < |s| ==> s[t] != c
  {
    if s == [] then -1
    else if s[|s| - 1] == c then |s| - 1
    else RFind(s[..|s| - 1], c)
  }

  /** `RFind` is the last occurrence: any index holding `c` with none after
      it is the one `RFind` returns. */
  lemma {:induction false} RFindLast(s: string, c: char, r: nat)
    requires r < |s| && s[r] == c && forall t :: r < t < |s| ==> s[t] != c
    ensures RFind(s, c) == r
  {
    if r < |s| - 1 {
      RFindLast(s[..|s| - 1], c, r);
    }
  }

  /** `os.path.splitext(path)[1]` on POSIX: the suffix from the last dot of
      the last path component, unless everything in that component before
      the dot is a dot too (`.bashrc`, `..py`); then the empty string. */
  function Ext(path: string): (e: string)
    ensures |e| <= |path| && e == path[|path| - |e|..]
    ensures e != [] ==> e[0] == '.' && forall t :: 1 <= t < |e| ==> e[t] != '.' && e[t] != '/'
  {
    var sep := RFind(path, '/');
    var dot := RFind(path, '.');
    if dot > sep && exists t :: sep < t < dot && path[t] != '.' then path[dot..] else []
  }

  /** The general rule: a last path component `stem + ext`, whose stem is
      not all dots and whose `ext` is a dot followed by no dot, has
      extension `ext`, whatever directory precedes it. */
  lemma ExtOfStem(dir: string, stem: string, ext: string)
    requires dir == [] || dir[|dir| - 1] == '/'
    requires forall t :: 0 <= t < |stem| ==> stem[t] != '/'
    requires exists t :: 0 <= t < |stem| && stem[t] != '.'
    requires |ext| >= 1 && ext[0] == '.'
    requires forall t :: 1 <= t < |ext| ==> ext[t] != '.' && ext[t] != '/'
    ensures Ext(dir + stem + ext) == ext
  {
    var name := stem + ext;
    assert dir + stem + ext == dir + name;
    var p := dir + name;
    var dot := |dir| + |stem|;
    NameHasNoSlash(stem, ext);
    LastSlash(dir, name);
    LastDot(dir, stem, ext);
    var w :| 0 <= w < |stem| && stem[w] != '.';
    assert p[|dir| + w] == stem[w];
    assert p[dot..] == ext;
  }

  /** A stem and an extension without `/` make a name without `/`. */
  lemma NameHasNoSlash(stem: string, ext: string)
    requires forall t :: 0 <= t < |stem| ==> stem[t] != '/'
    requires |ext| >= 1 && ext[0] == '.'
    requires forall t :: 1 <= t < |ext| ==> ext[t] != '/'
    ensures forall t :: 0 <= t < |stem + ext| ==> (stem + ext)[t] != '/'
  {
    forall t | 0 <= t < |stem + ext|
      ensures (stem + ext)[t] != '/'
    {
      if t >= |stem| {
        assert (stem + ext)[t] == ext[t - |stem|];
      }
    }
  }

  /** After a directory ending in `/`, a name without `/` is the last path
      component. */
  lemma LastSlash(dir: string, name: string)
    requires dir == [] || dir[|dir| - 1] == '/'
    requires forall t :: 0 <= t < |name| ==> name[t] != '/'
    ensures RFind(dir + name, '/') == |dir| - 1
  {
    var p := dir + name;
    assert forall t :: |dir| <= t < |p| ==> p[t] == name[t - |dir|];
    if dir != [] {
      RFindLast(p, '/', |dir| - 1);
    } else {
      assert p == name;
    }
  }

  /** The dot that opens `ext` is the last dot of `dir + stem + ext`. */
  lemma LastDot(dir: string, stem: string, ext: string)
    requires |ext| >= 1 && ext[0] == '.'
    requires forall t :: 1 <= t < |ext| ==> ext[t] != '.'
    ensures RFind(dir + (stem + ext), '.') == |dir| + |stem|
  {
    var p := dir + (stem + ext);
    var dot := |dir| + |stem|;
    assert forall t :: dot <= t < |p| ==> p[t] == ext[t - dot];
    RFindLast(p, '.', dot);
  }

  /** A last path component without a dot has no extension. */
  lemma ExtWithoutDot(dir: string, name: string)
    requires dir == [] || dir[|dir| - 1] == '/'
    requires forall t :: 0 <= t < |name| ==> name[t] != '/' && name[t] != '.'
    ensures Ext(dir + name) == []
  {
    LastSlash(dir, name);
    var p := dir + name;
    assert forall t :: |dir| <= t < |p| ==> p[t] == name[t - |dir|];
  }

  /** The extension is the suffix from the last dot only. */
  lemma ExtOfDoubleExtension()
    ensures Ext("notes.tar.gz") == ".gz"
  {
    var p := "notes.tar.gz";
    RFindLast(p, '.', 9);
    assert RFind(p, '/') == -1 by {
      assert forall t :: 0 <= t < |p| ==> p[t] != '/';
    }
    assert p[0] != '.';
    assert p[9..] == ".gz";
  }

  /** The extension keeps its case. */
  lemma ExtOfUpperCase()
    ensures Ext("docs/report.PDF") == ".PDF"
    ensures ".PDF" !in DocumentMap && !Accepted("docs/report.PDF")
  {
    var p := "docs/report.PDF";
    RFindLast(p, '/', 4);
    RFindLast(p, '.', 11);
    assert p[5] != '.';
    assert p[11..] == ".PDF";
  }

  /** Leading dots do not start an extension. */
  lemma ExtOfHiddenNames()
    ensures Ext(".bashrc") == [] && Ext("..py") == []
  {
    RFindLast(".bashrc", '.', 0);
    RFindLast("..py", '.', 1);
  }

  /** A dot in a directory name does not start an extension. */
  lemma ExtOfDottedDirectory()
    ensures Ext("release.d/README") == []
  {
    RFindLast("release.d/README", '/', 9);
    RFindLast("release.d/README", '.', 7);
  }

  /** The loader classes `DOCUMENT_MAP` refers to. */
  datatype Loader = UnstructuredHtml | Text | UnstructuredMarkdown | PdfMiner | Csv | UnstructuredExcel | Docx2txt

  /** `DOCUMENT_MAP`: the extensions the ingester accepts, with their loaders. */
  const DocumentMap: map<string, Loader> := map[
    ".html" := UnstructuredHtml,
    ".txt" := Text,
    ".md" := UnstructuredMarkdown,
    ".py" := Text,
    ".pdf" := PdfMiner,
    ".csv" := Csv,
    ".xls" := UnstructuredExcel,
    ".xlsx" := UnstructuredExcel,
    ".docx" := Docx2txt,
    ".doc" := Docx2txt
  ]

  /** A loaded document: its text and `metadata["source"]`. */
  datatype Document = Document(pageContent: string, source: string)

  /** `load_single_document`. The loader itself is foreign: `load` stands for
      constructing the loader class on the path and taking the first document
      it loads, `None` when that raises. */
  function LoadSingleDocument(path: string, load: (Loader, string) -> Option<Document>): (r: Option<Document>)
    ensures Ext(path) !in DocumentMap ==> r.None?
    ensures Ext(path) in DocumentMap ==> r == load(DocumentMap[Ext(path)], path)
  {
    var ext := Ext(path);
    if ext in DocumentMap then load(DocumentMap[ext], path) else None
  }

  // ---------------------------------------------------------------------
  // split_documents
  // ---------------------------------------------------------------------

  /** A document goes to the Python splitter exactly when its source ends in
      `.py`, compared case-sensitively. */
  predicate IsPython(d: Document)
  {
    Ext(d.source) == ".py"
  }

  /** The loaded documents, in order, without the failed loads. */
  function Present(documents: seq<Option<Document>>): seq<Document>
  {
    if documents == [] then []
    else (if documents[0].Some? then [documents[0].value] else []) + Present(documents[1..])
  }

  /** What one entry contributes to the Python list (`python`) or to the
      prose list (`!python`). */
  function RouteOne(d: Option<Document>, python: bool): seq<Document>
  {
    if d.Some? && IsPython(d.value) == python then [d.value] else []
  }

  /** The documents bound for the Python splitter (`python`) or the prose
      splitter (`!python`), in order. */
  function Routed(documents: seq<Option<Document>>, python: bool): seq<Document>
  {
    if documents == [] then []
    else RouteOne(documents[0], python) + Routed(documents[1..], python)
  }

  /** `split_documents`: returns the prose documents and the Python ones. */
  method SplitDocuments(documents: seq<Option<Document>>) returns (textDocs: seq<Document>, pythonDocs: seq<Document>)
    ensures textDocs == Routed(documents, false)
    ensures pythonDocs == Routed(documents, true)
  {
    textDocs, pythonDocs := [], [];
    assert documents[0..] == documents;
    for k := 0 to |documents|
      invariant textDocs + Routed(documents[k..], false) == Routed(documents, false)
      invariant pythonDocs + Routed(documents[k..], true) == Routed(documents, true)
    {
      var t, p := RouteDocument(documents[k], textDocs, pythonDocs);
      RoutedAdvance(textDocs, t, documents, k, false);
      RoutedAdvance(pythonDocs, p, documents, k, true);
      textDocs, pythonDocs := t, p;
    }
    assert documents[|documents|..] == [];
    assert textDocs + [] == textDocs && pythonDocs + [] == pythonDocs;
  }

  /** The body of `split_documents`' loop: a loaded document is appended to
      the Python list when its extension is `.py` and to the prose list
      otherwise. */
  method RouteDocument(d: Option<Document>, textDocs: seq<Document>, pythonDocs: seq<Document>)
    returns (textDocs': seq<Document>, pythonDocs': seq<Document>)
    ensures textDocs' == textDocs + RouteOne(d, false)
    ensures pythonDocs' == pythonDocs + RouteOne(d, true)
  {
    textDocs', pythonDocs' := textDocs, pythonDocs;
    if d.Some? {
      var doc := d.value;
      if Ext(doc.source) == ".py" {
        pythonDocs' := pythonDocs + [doc];
      } else {
        textDocs' := textDocs + [doc];
      }
    }
    assert textDocs + [] == textDocs && pythonDocs + [] == pythonDocs;
  }

  /** Routing entry `k` moves its contribution into the list built so far. */
  lemma RoutedStep(done: seq<Document>, documents: seq<Option<Document>>, k: nat, python: bool)
    requires k < |documents|
    ensures (done + RouteOne(documents[k], python)) + Routed(documents[k + 1..], python)
            == done + Routed(documents[k..], python)
  {
    assert documents[k..][1..] == documents[k + 1..];
  }

  /** The loop invariant of `SplitDocuments` survives routing entry `k`. */
  lemma RoutedAdvance(done: seq<Document>, next: seq<Document>, documents: seq<Option<Document>>, k: nat, python: bool)
    requires k < |documents|
    requires done + Routed(documents[k..], python) == Routed(documents, python)
    requires next == done + RouteOne(documents[k], python)
    ensures next + Routed(documents[k + 1..], python) == Routed(documents, python)
  {
    RoutedStep(done, documents, k, python);
  }

  /** Every loaded document lands in exactly one of the two lists. */
  lemma {:induction false} RoutedCount(documents: seq<Option<Document>>)
    ensures |Routed(documents, false)| + |Routed(documents, true)| == |Present(documents)|
  {
    if documents != [] {
      RoutedCount(documents[1..]);
    }
  }

  /** A document is routed to a list exactly when it was loaded and its
      extension selects that list. */
  lemma {:induction false} RoutedMembership(documents: seq<Option<Document>>, python: bool, d: Document)
    ensures d in Routed(documents, python) <==> Some(d) in documents && IsPython(d) == python
  {
    if documents != [] {
      var rest := documents[1..];
      RoutedMembership(rest, python, d);
      assert documents == [documents[0]] + rest;
      assert Some(d) in documents <==> Some(d) == documents[0] || Some(d) in rest;
    }
  }

  /** Routing keeps the input's order: the documents of a prefix come before
      those of the rest. */
  lemma {:induction false} RoutedAppend(front: seq<Option<Document>>, back: seq<Option<Document>>, python: bool)
    ensures Routed(front + back, python) == Routed(front, python) + Routed(back, python)
  {
    if front == [] {
      assert front + back == back;
    } else {
      var all := front + back;
      assert all[0] == front[0];
      assert all[1..] == front[1..] + back;
      RoutedAppend(front[1..], back, python);
    }
  }

  // ---------------------------------------------------------------------
  // load_documents: the path filter
  // ---------------------------------------------------------------------

  /** One step of `os.walk`: a directory and the names of the files in it. */
  datatype WalkEntry = WalkEntry(root: string, files: seq<string>)

  /** `os.path.join(root, name)` on POSIX. */
  function JoinPath(root: string, name: string): (p: string)
    ensures |name| <= |p| && p[|p| - |name|..] == name
  {
    if name != [] && name[0] == '/' then name
    else if root == [] || root[|root| - 1] == '/' then root + name
    else root + "/" + name
  }

  /** A file name the ingester loads: its extension is a key of the map. */
  predicate Accepted(name: string)
  {
    Ext(name) in DocumentMap
  }

  /** The joined paths of the accepted files of one directory, in order. */
  function KeptIn(root: string, files: seq<string>): seq<string>
  {
    if files == [] then []
    else
      var name := files[|files| - 1];
      KeptIn(root, files[..|files| - 1]) + (if Accepted(name) then [JoinPath(root, name)] else [])
  }

  /** The accepted paths of a whole walk, in walk order. */
  function KeptPaths(walk: seq<WalkEntry>): seq<string>
  {
    if walk == [] then []
    else
      var entry := walk[|walk| - 1];
      KeptPaths(walk[..|walk| - 1]) + KeptIn(entry.root, entry.files)
  }

  /** The loop of `load_documents` that collects the paths to load, over a
      walk given as its sequence of entries. */
  method CollectPaths(walk: seq<WalkEntry>) returns (paths: seq<string>)
    ensures paths == KeptPaths(walk)
  {
    paths := [];
    for w := 0 to |walk|
      invariant paths == KeptPaths(walk[..w])
    {
      var kept := CollectDirectory(walk[w].root, walk[w].files);
      KeptPathsStep(walk, w);
      paths := paths + kept;
    }
    assert walk[..|walk|] == walk;
  }

  /** The inner loop of `load_documents`, over the files of one directory. */
  method CollectDirectory(root: string, files: seq<string>) returns (kept: seq<string>)
    ensures kept == KeptIn(root, files)
  {
    kept := [];
    for k := 0 to |files|
      invariant kept == KeptIn(root, files[..k])
    {
      KeptInStep(root, files, k);
      var fileExtension := Ext(files[k]);
      if fileExtension in DocumentMap {
        kept := kept + [JoinPath(root, files[k])];
      }
    }
    assert files[..|files|] == files;
  }

  lemma KeptInStep(root: string, files: seq<string>, k: nat)
    requires k < |files|
    ensures KeptIn(root, files[..k + 1]) ==
      KeptIn(root, files[..k]) + (if Accepted(files[k]) then [JoinPath(root, files[k])] else [])
  {
    assert files[..k + 1][..k] == files[..k];
  }

  lemma KeptPathsStep(walk: seq<WalkEntry>, w: nat)
    requires w < |walk|
    ensures KeptPaths(walk[..w + 1]) == KeptPaths(walk[..w]) + KeptIn(walk[w].root, walk[w].files)
  {
    assert walk[..w + 1][..w] == walk[..w];
  }

  /** Every accepted file of the walk is collected. */
  lemma {:induction false} AcceptedFileKept(walk: seq<WalkEntry>, w: nat, k: nat)
    requires w < |walk| && k < |walk[w].files| && Accepted(walk[w].files[k])
    ensures JoinPath(walk[w].root, walk[w].files[k]) in KeptPaths(walk)
    decreases |walk|
  {
    var init := walk[..|walk| - 1];
    if w < |walk| - 1 {
      assert init[w] == walk[w];
      AcceptedFileKept(init, w, k);
    } else {
      KeptInHas(walk[w].root, walk[w].files, k);
    }
  }

  lemma {:induction false} KeptInHas(root: string, files: seq<string>, k: nat)
    requires k < |files| && Accepted(files[k])
    ensures JoinPath(root, files[k]) in KeptIn(root, files)
    decreases |files|
  {
    if k < |files| - 1 {
      var init := files[..|files| - 1];
      assert init[k] == files[k];
      KeptInHas(root, init, k);
    }
  }

  /** Every collected path is an accepted file of the walk, joined to its
      directory. */
  lemma {:induction false} KeptPathOrigin(walk: seq<WalkEntry>, p: string)
    requires p in KeptPaths(walk)
    ensures exists w, k :: (0 <= w < |walk| && 0 <= k < |walk[w].files| &&
      Accepted(walk[w].files[k]) && p == JoinPath(walk[w].root, walk[w].files[k]))
    decreases |walk|
  {
    var init := walk[..|walk| - 1];
    var entry := walk[|walk| - 1];
    if p in KeptPaths(init) {
      KeptPathOrigin(init, p);
      var w, k :| 0 <= w < |init| && 0 <= k < |init[w].files| &&
        Accepted(init[w].files[k]) && p == JoinPath(init[w].root, init[w].files[k]);
      assert walk[w] == init[w];
    } else {
      var k := KeptInOrigin(entry.root, entry.files, p);
      assert walk[|walk| - 1].files[k] == entry.files[k];
    }
  }

  lemma {:induction false} KeptInOrigin(root: string, files: seq<string>, p: string) returns (k: nat)
    requires p in KeptIn(root, files)
    ensures k < |files| && Accepted(files[k]) && p == JoinPath(root, files[k])
    decreases |files|
  {
    var init := files[..|files| - 1];
    if p in KeptIn(root, init) {
      k := KeptInOrigin(root, init, p);
      assert init[k] == files[k];
    } else {
      k := |files| - 1;
    }
  }

  // ---------------------------------------------------------------------
  // load_documents: workers and batches
  // ---------------------------------------------------------------------

  /** `INGEST_THREADS = os.cpu_count() or 8`: the processor count when it is
      known and not zero, else 8. */
  function IngestThreads(cpuCount: Option<nat>): (t: nat)
    ensures t >= 1
    ensures cpuCount.Some? && cpuCount.value > 0 ==> t == cpuCount.value
    ensures cpuCount.None? || cpuCount.value == 0 ==> t == 8
  {
    match cpuCount
    case Some(c) => if c > 0 then c else 8
    case None => 8
  }

  /** `min(INGEST_THREADS, max(len(paths), 1))`: at least one worker, no more
      than the thread budget and no more than the paths. */
  function NWorkers(nPaths: nat, threads: nat): (n: nat)
    requires threads >= 1
    ensures 1 <= n <= threads && n <= Max(nPaths, 1)
    ensures n == threads || n == Max(nPaths, 1)
  {
    Min(threads, Max(nPaths, 1))
  }

  /** Python's `round(a / b)` on the exact quotient: the nearest integer, a
      tie going to the even neighbour. */
  function RoundHalfEven(a: nat, b: nat): (r: nat)
    requires b > 0
    ensures IsRounding(a, b, r)
  {
    var q := a / b;
    var rem := a % b;
    var r := if 2 * rem < b then q
      else if 2 * rem > b then q + 1
      else if q % 2 == 0 then q
      else q + 1;
    RoundingChoice(a, b, r);
    r
  }

  /** `r` is the nearest integer to a / b, the even one on a tie. */
  predicate IsRounding(a: nat, b: nat, r: nat)
  {
    2 * (b * r) - b <= 2 * a <= 2 * (b * r) + b &&
    (2 * a == 2 * (b * r) - b || 2 * a == 2 * (b * r) + b ==> r % 2 == 0)
  }

  /** The choice `RoundHalfEven` makes from the quotient and remainder. */
  lemma RoundingChoice(a: nat, b: nat, r: nat)
    requires b > 0
    requires var q, rem := a / b, a % b;
      r == (if 2 * rem < b then q else if 2 * rem > b then q + 1 else if q % 2 == 0 then q else q + 1)
    ensures IsRounding(a, b, r)
  {
    var q, rem := a / b, a % b;
    DivModFacts(a, b);
    if r == q {
      assert b * r == b * q;
    } else {
      assert b * r == b * q + b;
    }
  }

  /** Euclidean division, and the multiple of `b` one above the quotient. */
  lemma DivModFacts(a: nat, b: nat)
    requires b > 0
    ensures a == b * (a / b) + a % b && 0 <= a % b < b
    ensures b * (a / b + 1) == b * (a / b) + b
  {
  }

  /** The rounding is the only integer with those two properties. */
  lemma RoundHalfEvenUnique(a: nat, b: nat, r: nat)
    requires b > 0 && IsRounding(a, b, r)
    ensures r == RoundHalfEven(a, b)
  {
    var r0 := RoundHalfEven(a, b);
    if r > r0 {
      Gap(b, r0, r);
    } else if r0 > r {
      Gap(b, r, r0);
    }
  }

  /** Neighbouring candidates are `b` apart, others at least `2 * b`. */
  lemma Gap(b: nat, lo: nat, hi: nat)
    requires b > 0 && lo < hi
    ensures hi == lo + 1 ==> b * hi == b * lo + b
    ensures hi >= lo + 2 ==> b * hi >= b * lo + 2 * b
  {
    var d := hi - lo;
    assert b * hi == b * lo + b * d;
    if d >= 2 {
      assert b * d == b * (d - 2) + 2 * b;
    }
  }

  lemma RoundingExamples()
    ensures RoundHalfEven(5, 4) == 1 && RoundHalfEven(6, 4) == 2
    ensures RoundHalfEven(10, 4) == 2 && RoundHalfEven(14, 4) == 4
  {
  }

  /** `chunksize = round(len(paths) / n_workers)`. */
  function ChunkSize(nPaths: nat, nWorkers: nat): (c: nat)
    requires nWorkers >= 1
    ensures nPaths == 0 ==> c == 0
    ensures 1 <= nWorkers <= nPaths ==> c >= 1
    ensures 2 * (nWorkers * c) - nWorkers <= 2 * nPaths <= 2 * (nWorkers * c) + nWorkers
  {
    RoundHalfEven(nPaths, nWorkers)
  }

  /** `paths[i : i + size]` for `i` in `range(start, len(paths), size)`. */
  function BatchesFrom(paths: seq<string>, size: nat, start: nat): (batches: seq<seq<string>>)
    requires size >= 1
    decreases |paths| - start
  {
    if start >= |paths| then []
    else [paths[start..Min(start + size, |paths|)]] + BatchesFrom(paths, size, start + size)
  }

  /** `range(0, len(paths), chunksize)` raises `ValueError` when the step is
      zero, which happens exactly when there is nothing to load. */
  datatype BatchError = ZeroStep

  /** The batches `load_documents` submits to its pool, for a thread budget. */
  function PlanBatches(paths: seq<string>, threads: nat): (r: Result<seq<seq<string>>, BatchError>)
    requires threads >= 1
    ensures r.Failure? <==> paths == []
  {
    var n := NWorkers(|paths|, threads);
    var size := ChunkSize(|paths|, n);
    if size == 0 then Failure(ZeroStep) else Success(BatchesFrom(paths, size, 0))
  }

  /** From `start` on, the batches are non-empty, no longer than the step,
      and put back together give the rest of the paths. */
  lemma {:induction false} BatchesFromCover(paths: seq<string>, size: nat, start: nat)
    requires size >= 1 && start <= |paths|
    ensures Flatten(BatchesFrom(paths, size, start)) == paths[start..]
    ensures forall b :: b in BatchesFrom(paths, size, start) ==> 1 <= |b| <= size
    decreases |paths| - start
  {
    if start < |paths| {
      var next := Min(start + size, |paths|);
      var rest := BatchesFrom(paths, size, start + size);
      if start + size <= |paths| {
        BatchesFromCover(paths, size, start + size);
      } else {
        assert rest == [];
      }
      assert paths[start..] == paths[start..next] + paths[next..];
    }
  }

  /** The batches of a non-empty path list are non-empty, at most `chunksize`
      long, and concatenate in order back to the list. */
  lemma PlanBatchesCover(paths: seq<string>, threads: nat)
    requires threads >= 1 && paths != []
    ensures var size := ChunkSize(|paths|, NWorkers(|paths|, threads));
      var r := PlanBatches(paths, threads);
      r.Success? && Flatten(r.value) == paths && forall b :: b in r.value ==> 1 <= |b| <= size
  {
    var size := ChunkSize(|paths|, NWorkers(|paths|, threads));
    BatchesFromCover(paths, size, 0);
    assert paths[0..] == paths;
  }

  /** Rounding down can give more batches than workers: five paths on four
      threads run as five batches of one. */
  lemma MoreBatchesThanWorkers()
    ensures NWorkers(5, 4) == 4
    ensures var r := PlanBatches(["a", "b", "c", "d", "e"], 4);
      r.Success? && |r.value| == 5
  {
    var paths := ["a", "b", "c", "d", "e"];
    assert ChunkSize(5, 4) == 1;
    assert BatchesFrom(paths, 1, 5) == [];
    assert BatchesFrom(paths, 1, 4) == [paths[4..5]];
    assert BatchesFrom(paths, 1, 3) == [paths[3..4], paths[4..5]];
    assert BatchesFrom(paths, 1, 2) == [paths[2..3], paths[3..4], paths[4..5]];
    assert BatchesFrom(paths, 1, 1) == [paths[1..2], paths[2..3], paths[3..4], paths[4..5]];
  }
}
