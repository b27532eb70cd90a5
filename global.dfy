/** The index object (class Global in src/global.ts): a readiness flag, the
    step-record collection and the language collection, with the build,
    refresh and query operations. Discovered files and their parse results
    are inputs; file reading, the workspace search and the library globs
    are outside the model. */
module Index {
  import opened Wrappers
  import opened Records
  import opened Extraction
  import opened Store
  import opened Query

  /** The record addFileToCache inserts for one extracted entry. */
  function CacheRecord(entry: MethodValue, fullpath: string): MethodValue
  {
    MethodValue(entry.description, entry.line, entry.endline, fullpath, entry.description, Module)
  }

  /** The records addFileToCache inserts for one file: one per extracted
      step, in extraction order, all tagged with the file's path. */
  function FileRecords(file: FeatureFile): (r: seq<MethodValue>)
    ensures |r| == |ExtractSteps(file.source, file.path)|
    ensures forall k :: 0 <= k < |r| ==>
      var entry := ExtractSteps(file.source, file.path)[k];
      && r[k].filename == file.path
      && r[k].name == r[k].description == entry.name
      && r[k].line == r[k].endline == entry.line
      && r[k].kind == Module
  {
    var entries := ExtractSteps(file.source, file.path);
    seq(|entries|, k requires 0 <= k < |entries| => CacheRecord(entries[k], file.path))
  }

  function LanguageRecords(file: FeatureFile): seq<LanguageInfo>
  {
    match ExtractLanguage(file.source, file.path)
    case None => []
    case Some(info) => [info]
  }

  /** The records for a list of files, file by file. */
  function FilesRecords(files: seq<FeatureFile>): seq<MethodValue>
    decreases |files|
  {
    if |files| == 0 then [] else FilesRecords(files[..|files| - 1]) + FileRecords(files[|files| - 1])
  }

  function FilesLanguages(files: seq<FeatureFile>): seq<LanguageInfo>
    decreases |files|
  {
    if |files| == 0 then [] else FilesLanguages(files[..|files| - 1]) + LanguageRecords(files[|files| - 1])
  }

  /** Adding one more file adds its records after the others. */
  lemma FilesSnoc(files: seq<FeatureFile>, i: nat)
    requires i < |files|
    ensures FilesRecords(files[..i + 1]) == FilesRecords(files[..i]) + FileRecords(files[i])
    ensures FilesLanguages(files[..i + 1]) == FilesLanguages(files[..i]) + LanguageRecords(files[i])
  {
    assert files[..i + 1][..i] == files[..i];
  }

  lemma {:induction false} FilesRecordsAppend(a: seq<FeatureFile>, b: seq<FeatureFile>)
    ensures FilesRecords(a + b) == FilesRecords(a) + FilesRecords(b)
    decreases |b|
  {
    if |b| == 0 {
      assert a + b == a;
    } else {
      var n := |b| - 1;
      assert (a + b)[..|a + b| - 1] == a + b[..n];
      assert (a + b)[|a + b| - 1] == b[n];
      assert FilesRecords(a + b) == FilesRecords(a + b[..n]) + FileRecords(b[n]);
      FilesRecordsAppend(a, b[..n]);
      Associative(FilesRecords(a), FilesRecords(b[..n]), FileRecords(b[n]));
      assert FilesRecords(b) == FilesRecords(b[..n]) + FileRecords(b[n]);
    }
  }

  lemma {:induction false} FilesLanguagesAppend(a: seq<FeatureFile>, b: seq<FeatureFile>)
    ensures FilesLanguages(a + b) == FilesLanguages(a) + FilesLanguages(b)
    decreases |b|
  {
    if |b| == 0 {
      assert a + b == a;
    } else {
      var n := |b| - 1;
      assert (a + b)[..|a + b| - 1] == a + b[..n];
      assert (a + b)[|a + b| - 1] == b[n];
      assert FilesLanguages(a + b) == FilesLanguages(a + b[..n]) + LanguageRecords(b[n]);
      FilesLanguagesAppend(a, b[..n]);
      Associative(FilesLanguages(a), FilesLanguages(b[..n]), LanguageRecords(b[n]));
      assert FilesLanguages(b) == FilesLanguages(b[..n]) + LanguageRecords(b[n]);
    }
  }

  /** The files updateCache's searches deliver: the workspace search result
      (None when there is no workspace root or the search is rejected),
      then each library glob's result (None when the glob reports an
      error), in that order. */
  function Discovered(workspace: Option<seq<FeatureFile>>, libraries: seq<Option<seq<FeatureFile>>>): (r: seq<FeatureFile>)
    ensures forall f :: f in r <==>
      || (workspace.Some? && f in workspace.value)
      || exists i :: 0 <= i < |libraries| && libraries[i].Some? && f in libraries[i].value
    decreases |libraries|
  {
    if |libraries| == 0 then (match workspace case None => [] case Some(files) => files)
    else
      Discovered(workspace, libraries[..|libraries| - 1])
      + match libraries[|libraries| - 1] case None => [] case Some(files) => files
  }

  lemma DiscoveredSnoc(workspace: Option<seq<FeatureFile>>, libraries: seq<Option<seq<FeatureFile>>>, i: nat)
    requires i < |libraries|
    ensures Discovered(workspace, libraries[..i + 1])
            == Discovered(workspace, libraries[..i]) + match libraries[i] case None => [] case Some(files) => files
  {
    assert libraries[..i + 1][..i] == libraries[..i];
  }

  lemma Associative<T>(a: seq<T>, b: seq<T>, c: seq<T>)
    ensures (a + b) + c == a + (b + c)
  {
  }

  /** Every record in the index has the shape addFileToCache gives it. */
  ghost predicate WellFormed(db: seq<MethodValue>)
  {
    forall k :: 0 <= k < |db| ==>
      db[k].kind == Module && db[k].name == db[k].description && db[k].line == db[k].endline
  }

  /** Any selection of indexed records has the indexed shape. */
  lemma WellFormedSelection(db: seq<MethodValue>, r: seq<MethodValue>)
    requires WellFormed(db)
    requires forall x :: x in r ==> x in db
    ensures WellFormed(r)
  {
    forall k | 0 <= k < |r|
      ensures r[k].kind == Module && r[k].name == r[k].description && r[k].line == r[k].endline
    {
      assert r[k] in db;
    }
  }

  /** Both removals keep every remaining record's shape. */
  lemma RemovalsKeepWellFormed(db: seq<MethodValue>, path: string)
    requires WellFormed(db)
    ensures WellFormed(RemoveWhereAssigned(db, path))
    ensures WellFormed(RemoveFileRecords(db, path))
  {
    var r := RemoveFileRecords(db, path);
    forall k | 0 <= k < |r|
      ensures r[k].kind == Module && r[k].name == r[k].description && r[k].line == r[k].endline
    {
      assert r[k] in multiset(r);
      assert r[k] in multiset(db);
    }
  }

  /** The intended refresh of one file: the file's old records are replaced
      by its fresh ones and the records of every other file keep their
      number and content. */
  lemma UpdateIsolation(db: seq<MethodValue>, file: FeatureFile, x: MethodValue)
    ensures var updated := RemoveFileRecords(db, file.path) + FileRecords(file);
      && (x.filename != file.path ==> multiset(updated)[x] == multiset(db)[x])
      && (x.filename == file.path ==> multiset(updated)[x] == multiset(FileRecords(file))[x])
  {
    var added := FileRecords(file);
    if x.filename != file.path {
      assert x !in added;
    }
  }

  class Global {
    var cacheUpdates: bool
    var db: seq<MethodValue>
    var languages: seq<LanguageInfo>

    /** The object invariant: every indexed record has the inserted shape. */
    ghost predicate Valid()
      reads this
    {
      WellFormed(db)
    }

    /** A new index is not built and holds nothing. */
    constructor (exec: string)
      ensures Valid() && !cacheUpdates && db == [] && languages == []
    {
      cacheUpdates := false;
      db := [];
      languages := [];
    }

    /** The synchronous part of updateCache: mark the index as built and
        start fresh empty collections. The searches it starts deliver their
        files later, through CompleteUpdateCache. */
    method UpdateCache()
      modifies this
      ensures Valid() && cacheUpdates && db == [] && languages == []
    {
      cacheUpdates := true;
      db := [];
      languages := [];
    }

    /** The completions updateCache schedules, run one after the other. */
    method CompleteUpdateCache(workspace: Option<seq<FeatureFile>>, libraries: seq<Option<seq<FeatureFile>>>)
      requires Valid() && cacheUpdates
      modifies this
      ensures Valid() && cacheUpdates
      ensures db == old(db) + FilesRecords(Discovered(workspace, libraries))
      ensures languages == old(languages) + FilesLanguages(Discovered(workspace, libraries))
    {
      if workspace.Some? {
        AddToCacheFiles(workspace.value);
      }
      assert libraries[..0] == [];
      assert db == old(db) + FilesRecords(Discovered(workspace, []));
      assert languages == old(languages) + FilesLanguages(Discovered(workspace, []));
      for i := 0 to |libraries|
        invariant Valid() && cacheUpdates
        invariant db == old(db) + FilesRecords(Discovered(workspace, libraries[..i]))
        invariant languages == old(languages) + FilesLanguages(Discovered(workspace, libraries[..i]))
      {
        ghost var sofar := Discovered(workspace, libraries[..i]);
        ghost var delivered := match libraries[i] case None => [] case Some(files) => files;
        DiscoveredSnoc(workspace, libraries, i);
        FilesRecordsAppend(sofar, delivered);
        FilesLanguagesAppend(sofar, delivered);
        ghost var dbBefore, languagesBefore := db, languages;
        if libraries[i].Some? {
          AddToCacheFiles(libraries[i].value);
        }
        assert db == dbBefore + FilesRecords(delivered);
        assert languages == languagesBefore + FilesLanguages(delivered);
        assert dbBefore == old(db) + FilesRecords(sofar);
        assert languagesBefore == old(languages) + FilesLanguages(sofar);
        Associative(old(db), FilesRecords(sofar), FilesRecords(delivered));
        Associative(old(languages), FilesLanguages(sofar), FilesLanguages(delivered));
      }
      assert libraries[..|libraries|] == libraries;
    }

    /** addtocachefiles: add every file in order. */
    method AddToCacheFiles(files: seq<FeatureFile>)
      requires Valid() && cacheUpdates
      modifies this
      ensures Valid() && cacheUpdates
      ensures db == old(db) + FilesRecords(files)
      ensures languages == old(languages) + FilesLanguages(files)
    {
      for i := 0 to |files|
        invariant Valid() && cacheUpdates
        invariant db == old(db) + FilesRecords(files[..i])
        invariant languages == old(languages) + FilesLanguages(files[..i])
      {
        ghost var dbBefore := db;
        ghost var languagesBefore := languages;
        FilesSnoc(files, i);
        AddFileToCache(files[i]);
        assert db == dbBefore + FileRecords(files[i]);
        Associative(old(db), FilesRecords(files[..i]), FileRecords(files[i]));
        assert languages == languagesBefore + LanguageRecords(files[i]);
        Associative(old(languages), FilesLanguages(files[..i]), LanguageRecords(files[i]));
      }
      assert files[..|files|] == files;
    }

    /** addFileToCache: append the file's records after the existing ones,
        which stay as they are, and the file's language record. */
    method AddFileToCache(file: FeatureFile)
      requires Valid() && cacheUpdates
      modifies this
      ensures Valid() && cacheUpdates
      ensures db == old(db) + FileRecords(file)
      ensures languages == old(languages) + LanguageRecords(file)
    {
      var fullpath := file.path;
      var entries := Parse(file.source, fullpath);
      for y := 0 to |entries|
        invariant cacheUpdates
        invariant WellFormed(db)
        invariant languages == old(languages) + LanguageRecords(file)
        invariant db == old(db) + FileRecords(file)[..y]
      {
        db := db + [CacheRecord(entries[y], fullpath)];
      }
      assert FileRecords(file)[..|entries|] == FileRecords(file);
    }

    /** updateCacheOfTextDocument as written: removeWhere with the assigning
        predicate (see RemoveWhereAssigned), then add the file again. The
        language collection is never pruned. */
    method UpdateCacheOfTextDocument(file: FeatureFile)
      requires Valid() && cacheUpdates
      modifies this
      ensures Valid() && cacheUpdates
      ensures db == RemoveWhereAssigned(old(db), file.path) + FileRecords(file)
      ensures file.path != "" ==> db == FileRecords(file)
      ensures languages == old(languages) + LanguageRecords(file)
    {
      RemovalsKeepWellFormed(db, file.path);
      db := RemoveWhereAssigned(db, file.path);
      AddFileToCache(file);
    }

    /** updateCacheOfTextDocument as intended: remove the file's own records,
        then add the file again (see UpdateIsolation). */
    method UpdateFileInCache(file: FeatureFile)
      requires Valid() && cacheUpdates
      modifies this
      ensures Valid() && cacheUpdates
      ensures db == RemoveFileRecords(old(db), file.path) + FileRecords(file)
      ensures languages == old(languages) + LanguageRecords(file)
    {
      RemovalsKeepWellFormed(db, file.path);
      db := RemoveFileRecords(db, file.path);
      AddFileToCache(file);
    }

    /** parse: the records of the document's steps; inserts the language
        record when the document parsed and has a feature node. */
    method Parse(source: ParseOutcome, filename: string) returns (methods: seq<MethodValue>)
      requires cacheUpdates
      modifies this
      ensures methods == ExtractSteps(source, filename)
      ensures languages == old(languages) + LanguageRecords(FeatureFile(filename, source))
      ensures db == old(db) && cacheUpdates
    {
      methods := [];
      if source.ParseError? {
        return;
      }
      var gherkinDocument := source.document;
      if gherkinDocument.feature.None? {
        return;
      }
      var feature := gherkinDocument.feature.value;
      languages := languages + [LanguageInfo(feature.language, filename)];
      if feature.children.None? {
        return;
      }
      var children := feature.children.value;
      for index := 0 to |children|
        invariant methods == StepRecords(children[..index], filename)
      {
        var steps := children[index].steps;
        for indexStep := 0 to |steps|
          invariant methods == StepRecords(children[..index], filename) + ChildRecords(steps[..indexStep], filename)
        {
          methods := methods + [StepRecord(steps[indexStep], filename)];
        }
        assert steps[..|steps|] == steps;
        assert children[..index + 1][..index] == children[..index];
      }
      assert children[..|children|] == children;
    }

    /** query: not built yet, it starts the build and returns nothing;
        otherwise the records whose name matches, sorted by name. */
    method Query(filename: string, word: string, all: bool := true, lazy: bool := false) returns (r: seq<MethodValue>)
      modifies this
      ensures cacheUpdates && (old(Valid()) ==> Valid())
      ensures !old(cacheUpdates) ==> r == [] && db == [] && languages == []
      ensures old(cacheUpdates) ==> db == old(db) && languages == old(languages)
      ensures old(cacheUpdates) ==> r == Select(db, QueryPattern(word, all, lazy))
      ensures old(cacheUpdates) && old(Valid()) ==> WellFormed(r)
    {
      if !cacheUpdates {
        UpdateCache();
        return [];
      }
      r := Select(db, QueryPattern(word, all, lazy));
      if Valid() { WellFormedSelection(db, r); }
    }

    /** queryAny: gated like query; otherwise the records whose name holds
        every space-separated piece of `word`, sorted by name. */
    method QueryAny(filename: string, word: string) returns (r: seq<MethodValue>)
      modifies this
      ensures cacheUpdates && (old(Valid()) ==> Valid())
      ensures !old(cacheUpdates) ==> r == [] && db == [] && languages == []
      ensures old(cacheUpdates) ==> db == old(db) && languages == old(languages)
      ensures old(cacheUpdates) ==> r == Select(db, AnyPattern(word))
      ensures old(cacheUpdates) && old(Valid()) ==> WellFormed(r)
    {
      if !cacheUpdates {
        UpdateCache();
        return [];
      }
      r := Select(db, AnyPattern(word));
      if Valid() { WellFormedSelection(db, r); }
    }

    /** getLanguageInfo: not built yet, it starts the build and answers
        English; otherwise the first language record of the file, if any. */
    method GetLanguageInfo(filename: string) returns (r: Option<LanguageInfo>)
      modifies this
      ensures cacheUpdates && (old(Valid()) ==> Valid())
      ensures !old(cacheUpdates) ==> r == Some(LanguageInfo("en", filename)) && db == [] && languages == []
      ensures old(cacheUpdates) ==> db == old(db) && languages == old(languages)
      ensures old(cacheUpdates) ==> r == FindLanguage(languages, filename)
    {
      if !cacheUpdates {
        UpdateCache();
        return Some(LanguageInfo("en", filename));
      }
      r := FindLanguage(languages, filename);
    }

    /** getCacheLocal: parse one document (inserting its language record)
        and return its step records that match, unsorted. */
    method GetCacheLocal(filename: string, word: string, source: ParseOutcome, update: bool := false,
                         allToEnd: bool := true, fromFirst: bool := true)
      returns (entries: seq<MethodValue>)
      requires cacheUpdates
      modifies this
      ensures cacheUpdates && db == old(db)
      ensures languages == old(languages) + LanguageRecords(FeatureFile(filename, source))
      ensures entries == Filter(ExtractSteps(source, filename), LocalPattern(word, allToEnd, fromFirst))
    {
      var methods := Parse(source, filename);
      entries := Filter(methods, LocalPattern(word, allToEnd, fromFirst));
    }
  }
}
