/** The record store operations Global uses (lokijs collections modelled as
    sequences in insertion order): simplesort("name"), findOne by name, and
    removeWhere with the predicate updateCacheOfTextDocument passes. */
module Store {
  import opened Wrappers
  import opened Text
  import opened Records

  /** Non-decreasing by `name`. */
  predicate Sorted(s: seq<MethodValue>)
  {
    forall i, j :: 0 <= i < j < |s| ==> LexLe(s[i].name, s[j].name)
  }

  function Insert(x: MethodValue, s: seq<MethodValue>): (r: seq<MethodValue>)
    requires Sorted(s)
    ensures Sorted(r)
    ensures multiset(r) == multiset(s) + multiset{x}
    decreases |s|
  {
    if |s| == 0 then [x]
    else if LexLe(x.name, s[0].name) then
      assert forall j :: 0 <= j < |s| ==> LexLe(x.name, s[j].name) by {
        forall j | 0 <= j < |s| ensures LexLe(x.name, s[j].name) {
          if j > 0 { LexLeTransitive(x.name, s[0].name, s[j].name); }
        }
      }
      assert s == [s[0]] + s[1..];
      [x] + s
    else
      var rest := Insert(x, s[1..]);
      InsertLowerBound(x, s, rest);
      SortedCons(s[0], rest);
      assert s == [s[0]] + s[1..];
      [s[0]] + rest
  }

  /** Prepending a record no greater than any other keeps a sequence sorted. */
  lemma SortedCons(a: MethodValue, r: seq<MethodValue>)
    requires Sorted(r)
    requires forall k :: 0 <= k < |r| ==> LexLe(a.name, r[k].name)
    ensures Sorted([a] + r)
  {
    forall i, j | 0 <= i < j < |[a] + r|
      ensures LexLe(([a] + r)[i].name, ([a] + r)[j].name)
    {
      if i > 0 { assert ([a] + r)[i] == r[i - 1]; }
      assert ([a] + r)[j] == r[j - 1];
    }
  }

  /** When x goes after the head of s, the head bounds every record of the
      insertion into the tail. */
  lemma InsertLowerBound(x: MethodValue, s: seq<MethodValue>, rest: seq<MethodValue>)
    requires Sorted(s) && |s| > 0 && !LexLe(x.name, s[0].name)
    requires multiset(rest) == multiset(s[1..]) + multiset{x}
    ensures forall k :: 0 <= k < |rest| ==> LexLe(s[0].name, rest[k].name)
  {
    LexLeTotal(x.name, s[0].name);
    forall k | 0 <= k < |rest| ensures LexLe(s[0].name, rest[k].name) {
      var y := rest[k];
      assert y in multiset(rest);
      if y != x {
        assert y in multiset(s[1..]);
        var i :| 0 <= i < |s[1..]| && s[1..][i] == y;
        assert s[i + 1] == y;
      }
    }
  }

  /** Resultset.simplesort("name"): the same records, non-decreasing by name. */
  function SortByName(s: seq<MethodValue>): (r: seq<MethodValue>)
    ensures Sorted(r)
    ensures multiset(r) == multiset(s)
    decreases |s|
  {
    if |s| == 0 then []
    else
      assert s == [s[0]] + s[1..];
      Insert(s[0], SortByName(s[1..]))
  }

  /** Index k holds the first record named `name`. */
  predicate FirstNamed(languages: seq<LanguageInfo>, name: string, k: int)
  {
    0 <= k < |languages| && languages[k].name == name
    && forall j :: 0 <= j < k ==> languages[j].name != name
  }

  /** Collection.findOne({name: name}) on the language collection: the first
      record with that name, or None (lokijs returns null). */
  function FindLanguage(languages: seq<LanguageInfo>, name: string): (r: Option<LanguageInfo>)
    ensures r.None? <==> forall k :: 0 <= k < |languages| ==> languages[k].name != name
    ensures r.Some? ==> r.value.name == name && exists k :: FirstNamed(languages, name, k) && languages[k] == r.value
    decreases |languages|
  {
    if |languages| == 0 then None
    else if languages[0].name == name then Some(languages[0])
    else
      var r := FindLanguage(languages[1..], name);
      assert forall k :: 1 <= k < |languages| ==> languages[k] == languages[1..][k - 1];
      if r.Some? then
        var k :| FirstNamed(languages[1..], name, k) && languages[1..][k] == r.value;
        assert languages[k + 1] == r.value;
        assert forall j :: 0 <= j < k + 1 ==> languages[j].name != name by {
          forall j | 0 <= j < k + 1 ensures languages[j].name != name {
            if j > 0 { assert languages[j] == languages[1..][j - 1]; }
          }
        }
        r
      else r
  }

  /** removeWhere((obj) => { return obj.filename = path; }) as written: the
      predicate ASSIGNS `path` to every record's filename and returns `path`,
      which is truthy exactly when it is non-empty. So a non-empty path
      removes every record, and the empty path keeps every record with its
      filename overwritten. */
  function RemoveWhereAssigned(db: seq<MethodValue>, path: string): (r: seq<MethodValue>)
    ensures path != "" ==> r == []
    ensures path == "" ==> |r| == |db| && forall k :: 0 <= k < |r| ==> r[k] == db[k].(filename := "")
  {
    if path != "" then []
    else seq(|db|, k requires 0 <= k < |db| => db[k].(filename := path))
  }

  /** The removal updateCacheOfTextDocument is meant to perform
      (obj.filename === path): drop the records of that one file and keep
      the others, in their order (RemoveFileRecordsAppend). */
  function RemoveFileRecords(db: seq<MethodValue>, path: string): (r: seq<MethodValue>)
    ensures forall x :: multiset(r)[x] == if x.filename == path then 0 else multiset(db)[x]
    ensures forall k :: 0 <= k < |r| ==> r[k].filename != path
    decreases |db|
  {
    if |db| == 0 then []
    else
      assert db == [db[0]] + db[1..];
      var rest := RemoveFileRecords(db[1..], path);
      if db[0].filename == path then rest else [db[0]] + rest
  }

  /** The intended removal keeps collection order: removing from a
      concatenation removes from each part and keeps the parts in order. */
  lemma {:induction false} RemoveFileRecordsAppend(a: seq<MethodValue>, b: seq<MethodValue>, path: string)
    ensures RemoveFileRecords(a + b, path) == RemoveFileRecords(a, path) + RemoveFileRecords(b, path)
    decreases |a|
  {
    if |a| == 0 {
      assert a + b == b;
    } else {
      assert (a + b)[0] == a[0];
      assert (a + b)[1..] == a[1..] + b;
      RemoveFileRecordsAppend(a[1..], b, path);
    }
  }

  /** A single record is kept exactly when it belongs to another file. */
  lemma RemoveFileRecordsOne(x: MethodValue, path: string)
    ensures RemoveFileRecords([x], path) == if x.filename == path then [] else [x]
  {
    assert [x][1..] == [];
  }

  /** The discrepancy at src/global.ts:79: refreshing "/a.feature" with a
      record of "/b.feature" in the index loses the "/b.feature" record,
      which the intended removal keeps. */
  lemma AssignedRemovalDropsOtherFiles()
    ensures var a := MethodValue("step a", 1, 1, "/a.feature", "step a", Module);
      var b := MethodValue("step b", 2, 2, "/b.feature", "step b", Module);
      && RemoveWhereAssigned([a, b], "/a.feature") == []
      && RemoveFileRecords([a, b], "/a.feature") == [b]
  {
  }
}
