/** The Query Engine: the regular expressions query, queryAny and
    getCacheLocal build, what RegExp.test accepts for each of them, and the
    filter-then-sort over the step collection. */
module Query {
  import opened Text
  import opened Records
  import opened Store

  /** The regular expressions Global builds, with `word` read as literal text.
      Literal(anchorStart, word, anchorEnd) is
        new RegExp((anchorStart ? "^" : "") + word + (anchorEnd ? "$" : ""), "i");
      AllTokens(tokens) is
        new RegExp("(?=.*" + tokens[0] + ")" + ... + "(?=.*" + tokens[n-1] + ")" + ".+", "i"). */
  datatype Pattern =
    | Literal(anchorStart: bool, word: string, anchorEnd: bool)
    | AllTokens(tokens: seq<string>)

  /** `p` occurs in `s` at index `from` or later (a lookahead `(?=.*p)` at `from`). */
  predicate OccursFrom(s: string, p: string, from: int)
  {
    exists i | from <= i <= |s| :: OccursAt(s, p, i)
  }

  /** Every lookahead of queryAny's expression succeeds at position `at`. */
  predicate AllOccurFrom(s: string, tokens: seq<string>, at: int)
  {
    forall k | 0 <= k < |tokens| :: OccursFrom(s, Fold(tokens[k]), at)
  }

  /** RegExp.prototype.test: the expression matches the case-folded name
      starting at some position. */
  predicate Test(p: Pattern, name: string): (r: bool)
    ensures r && p.Literal? ==> |Fold(p.word)| <= |name|
    ensures r && p.AllTokens? ==> 0 < |name|
  {
    var n := Fold(name);
    match p
    case Literal(anchorStart, word, anchorEnd) =>
      var w := Fold(word);
      exists i | 0 <= i <= |n| ::
        OccursAt(n, w, i) && (anchorStart ==> i == 0) && (anchorEnd ==> i + |w| == |n|)
    case AllTokens(tokens) =>
      // `.+` needs one character at the match position
      exists at | 0 <= at < |n| :: AllOccurFrom(n, tokens, at)
  }

  /** The four anchorings of a literal word: starts-with, exact, ends-with
      and contains, all case-insensitive. */
  lemma LiteralMatch(anchorStart: bool, word: string, anchorEnd: bool, name: string)
    ensures var n, w := Fold(name), Fold(word);
      Test(Literal(anchorStart, word, anchorEnd), name) <==>
        if anchorStart && anchorEnd then n == w
        else if anchorStart then StartsWith(n, w)
        else if anchorEnd then EndsWith(n, w)
        else Contains(n, w)
  {
    var n, w := Fold(name), Fold(word);
    if anchorStart {
      if StartsWith(n, w) { assert OccursAt(n, w, 0); }
      if anchorEnd && n == w { assert n[0..|w|] == n; assert OccursAt(n, w, 0); }
    } else if anchorEnd {
      if EndsWith(n, w) { assert OccursAt(n, w, |n| - |w|); }
    } else {
      ContainsIffOccurs(n, w);
    }
  }

  /** queryAny's expression accepts a name exactly when the name is non-empty
      and every token occurs in it; tokens may occur in any order, and an
      empty token imposes nothing. */
  lemma AllTokensMatch(tokens: seq<string>, name: string)
    ensures Test(AllTokens(tokens), name) <==>
      0 < |name| && forall k :: 0 <= k < |tokens| ==> Contains(Fold(name), Fold(tokens[k]))
  {
    var n := Fold(name);
    forall k | 0 <= k < |tokens| {
      ContainsIffOccurs(n, Fold(tokens[k]));
    }
    if 0 < |name| && forall k :: 0 <= k < |tokens| ==> Contains(n, Fold(tokens[k])) {
      assert AllOccurFrom(n, tokens, 0);
    }
    if Test(AllTokens(tokens), name) {
      var at :| 0 <= at < |n| && AllOccurFrom(n, tokens, at);
      forall k | 0 <= k < |tokens| ensures Contains(n, Fold(tokens[k])) {
        assert OccursFrom(n, Fold(tokens[k]), at);
      }
    }
  }

  /** Collection.find with a pattern on `name`: the matching records, in
      collection order. */
  function Filter(records: seq<MethodValue>, p: Pattern): (r: seq<MethodValue>)
    ensures forall x :: multiset(r)[x] == if Test(p, x.name) then multiset(records)[x] else 0
    decreases |records|
  {
    if |records| == 0 then []
    else
      assert records == [records[0]] + records[1..];
      var rest := Filter(records[1..], p);
      if Test(p, records[0].name) then [records[0]] + rest else rest
  }

  /** find keeps collection order: filtering a concatenation filters each
      part and keeps the parts in order. */
  lemma {:induction false} FilterAppend(a: seq<MethodValue>, b: seq<MethodValue>, p: Pattern)
    ensures Filter(a + b, p) == Filter(a, p) + Filter(b, p)
    decreases |a|
  {
    if |a| == 0 {
      assert a + b == b;
    } else {
      assert (a + b)[0] == a[0];
      assert (a + b)[1..] == a[1..] + b;
      FilterAppend(a[1..], b, p);
    }
  }

  /** A single record is kept exactly when its name matches. */
  lemma FilterOne(x: MethodValue, p: Pattern)
    ensures Filter([x], p) == if Test(p, x.name) then [x] else []
  {
    assert [x][1..] == [];
  }

  /** find(pattern).simplesort("name"): exactly the matching records, each as
      many times as it is stored, in non-decreasing name order. */
  function Select(records: seq<MethodValue>, p: Pattern): (r: seq<MethodValue>)
    ensures Sorted(r)
    ensures forall x :: multiset(r)[x] == if Test(p, x.name) then multiset(records)[x] else 0
    ensures forall x :: x in r <==> x in records && Test(p, x.name)
  {
    var r := SortByName(Filter(records, p));
    assert forall x :: x in r <==> multiset(r)[x] > 0;
    r
  }

  /** LiteralMatch for every name at once. */
  lemma LiteralMatchEvery(anchorStart: bool, word: string, anchorEnd: bool)
    ensures forall name :: Test(Literal(anchorStart, word, anchorEnd), name) <==>
      var n, w := Fold(name), Fold(word);
        if anchorStart && anchorEnd then n == w
        else if anchorStart then StartsWith(n, w)
        else if anchorEnd then EndsWith(n, w)
        else Contains(n, w)
  {
    forall name {
      LiteralMatch(anchorStart, word, anchorEnd, name);
    }
  }

  /** The expression query builds ("^" unless `lazy`, "$" unless `all`) and
      what it selects: prefix by default (all, not lazy), exact when not all,
      suffix when lazy and not all, substring when lazy and all. */
  function QueryPattern(word: string, all: bool, lazy: bool): (p: Pattern)
    ensures forall name :: Test(p, name) <==>
      var n, w := Fold(name), Fold(word);
        if !lazy && all then StartsWith(n, w)
        else if !lazy then n == w
        else if !all then EndsWith(n, w)
        else Contains(n, w)
  {
    LiteralMatchEvery(!lazy, word, !all);
    Literal(!lazy, word, !all)
  }

  /** The expression getCacheLocal builds ("^" when `fromFirst`, "$" unless
      `allToEnd`) and what it selects: prefix by default, exact when not
      allToEnd, suffix when neither, substring when allToEnd but not fromFirst. */
  function LocalPattern(word: string, allToEnd: bool, fromFirst: bool): (p: Pattern)
    ensures forall name :: Test(p, name) <==>
      var n, w := Fold(name), Fold(word);
        if fromFirst && allToEnd then StartsWith(n, w)
        else if fromFirst then n == w
        else if !allToEnd then EndsWith(n, w)
        else Contains(n, w)
  {
    LiteralMatchEvery(fromFirst, word, !allToEnd);
    Literal(fromFirst, word, !allToEnd)
  }

  /** AllTokensMatch for every name at once. */
  lemma AllTokensMatchEvery(tokens: seq<string>)
    ensures forall name :: Test(AllTokens(tokens), name) <==>
      0 < |name| && forall t :: t in tokens ==> Contains(Fold(name), Fold(t))
  {
    forall name {
      AllTokensMatch(tokens, name);
    }
  }

  /** The expression queryAny builds from word.split(" ") and what it
      selects: non-empty names containing every space-separated piece of
      the input, in any order. */
  function AnyPattern(word: string): (p: Pattern)
    ensures forall name :: Test(p, name) <==>
      0 < |name| && forall t :: t in Split(word, ' ') ==> Contains(Fold(name), Fold(t))
  {
    AllTokensMatchEvery(Split(word, ' '));
    AllTokens(Split(word, ' '))
  }

  /** The default query is a case-insensitive prefix match: "Given" selects
      "Given a user" and not "I am given something". */
  lemma PrefixExamples()
    ensures Test(QueryPattern("Given", true, false), "Given a user")
    ensures !Test(QueryPattern("Given", true, false), "I am given something")
  {
    assert Fold("Given") == "given";
    assert Fold("Given a user")[..5] == "given";
    assert Fold("I am given something")[..5] == "i am ";
  }
}
