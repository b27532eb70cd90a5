/** The Qualified-Name Resolver (Global.fullNameRecursor), over one line of
    text: columns are 0-based, a range is [start, end). */
module Resolver {
  import opened Wrappers
  import opened Text

  datatype Range = Range(start: nat, end: nat)

  /** The separators of the editor's default word definition. */
  const WordSeparators: set<char> :=
    {'`', '~', '!', '@', '#', '$', '%', '^', '&', '*', '(', ')', '-', '=', '+', '[', '{', ']', '}', '\\', '|', ';', ':', '\'', '\"', ',', '.', '<', '>', '/', '?'}
  /** JavaScript's `\s`: what the default word definition also excludes. */
  const Whitespace: set<char> :=
    {' ', '\t', '\n', '\r', '\U{000B}', '\U{000C}', '\U{00A0}', '\U{1680}',
     '\U{2000}', '\U{2001}', '\U{2002}', '\U{2003}', '\U{2004}', '\U{2005}', '\U{2006}',
     '\U{2007}', '\U{2008}', '\U{2009}', '\U{200A}', '\U{2028}', '\U{2029}', '\U{202F}',
     '\U{205F}', '\U{3000}', '\U{FEFF}'}

  predicate IsWordChar(c: char)
  {
    c !in WordSeparators && c !in Whitespace
  }

  /** Positions past the end of the line are clamped to its end, as the
      editor validates positions. */
  function Clamp(text: string, column: nat): (c: nat)
    ensures c <= |text|
  {
    if column <= |text| then column else |text|
  }

  /** TextDocument.getText on a range of the line. */
  function GetText(text: string, start: nat, end: nat): string
    requires start <= end
  {
    text[Clamp(text, start)..Clamp(text, end)]
  }

  /** `r` is a maximal run of word characters. */
  ghost predicate IsWordRange(text: string, r: Range)
  {
    && r.start < r.end <= |text|
    && (forall k :: r.start <= k < r.end ==> IsWordChar(text[k]))
    && (r.start == 0 || !IsWordChar(text[r.start - 1]))
    && (r.end == |text| || !IsWordChar(text[r.end]))
  }

  function WordStart(text: string, p: nat): (s: nat)
    requires p <= |text|
    ensures s <= p
    ensures forall k :: s <= k < p ==> IsWordChar(text[k])
    ensures s == 0 || !IsWordChar(text[s - 1])
    decreases p
  {
    if 0 < p && IsWordChar(text[p - 1]) then WordStart(text, p - 1) else p
  }

  function WordEnd(text: string, p: nat): (e: nat)
    requires p <= |text|
    ensures p <= e <= |text|
    ensures forall k :: p <= k < e ==> IsWordChar(text[k])
    ensures e == |text| || !IsWordChar(text[e])
    decreases |text| - p
  {
    if p < |text| && IsWordChar(text[p]) then WordEnd(text, p + 1) else p
  }

  /** TextDocument.getWordRangeAtPosition: the word whose range contains the
      (clamped) column, its end included; None (undefined) when neither
      neighbour of the column is a word character. */
  function WordRangeAt(text: string, column: nat): (r: Option<Range>)
    ensures r.Some? ==> IsWordRange(text, r.value) && r.value.start <= Clamp(text, column) <= r.value.end
    ensures r.None? ==>
      var p := Clamp(text, column);
      (p == 0 || !IsWordChar(text[p - 1])) && (p == |text| || !IsWordChar(text[p]))
  {
    var p := Clamp(text, column);
    var s, e := WordStart(text, p), WordEnd(text, p);
    if s < e then Some(Range(s, e)) else None
  }

  /** The one-character range next to the token on the chosen side. */
  function Beside(range: Range, left: bool): Range
    requires left ==> 0 < range.start
  {
    if left then Range(range.start - 1, range.start) else Range(range.end, range.end + 1)
  }

  /** The character next to the token on the chosen side is a dot. */
  predicate DotBeside(text: string, range: Range, left: bool)
  {
    (left ==> 0 < range.start)
    && var b := Beside(range, left); GetText(text, b.start, b.end) == "."
  }

  lemma DotBesideBounds(text: string, range: Range, left: bool)
    requires DotBeside(text, range, left)
    ensures left ==> range.start <= |text| && text[range.start - 1] == '.'
    ensures !left ==> range.end < |text| && text[range.end] == '.'
  {
  }

  /** The text of a word range; getText(undefined) is the whole line. */
  function WordText(text: string, w: Option<Range>): string
  {
    match w
    case None => text
    case Some(r) => if r.start <= r.end then GetText(text, r.start, r.end) else ""
  }

  /** fullNameRecursor as written. None stands for the TypeError the source
      throws when there is no word before a dot on the left (reading `start`
      of an undefined range). Going right, the neighbouring word is looked up
      at newRange.start, which is the token's own end column. */
  function FullNameRecursor(word: string, text: string, range: Range, left: bool): (r: Option<string>)
    ensures !DotBeside(text, range, left) ==> r == Some(word)
    ensures left && r.Some? ==> EndsWith(r.value, word)
    ensures left && DotBeside(text, range, left) && r.Some? ==>
      EndsWith(r.value, WordText(text, WordRangeAt(text, range.start - 1)) + "." + word)
    ensures left && DotBeside(text, range, left) && WordRangeAt(text, range.start - 1).None? ==> r.None?
    ensures !left ==> r.Some? && StartsWith(r.value, word)
    ensures !left && DotBeside(text, range, left) ==>
      StartsWith(r.value, word + "." + WordText(text, WordRangeAt(text, range.end)))
    decreases if left then range.start else |text| - Clamp(text, range.end)
  {
    if left && range.start == 0 then Some(word)
    else if !DotBeside(text, range, left) then Some(word)
    else if left then
      DotBesideBounds(text, range, left);
      match WordRangeAt(text, range.start - 1)
      case None => None
      case Some(leftWord) =>
        var result := GetText(text, leftWord.start, leftWord.end) + "." + word;
        assert EndsWith(result, word) by { assert result[|result| - |word|..] == word; }
        var newPosition := if leftWord.start > 1 then leftWord.start - 2 else 0;
        match WordRangeAt(text, newPosition)
        case None => Some(result)
        case Some(newWord) =>
          var r := FullNameRecursor(result, text, newWord, left);
          if r.Some? then EndsWithTransitive(r.value, result, word); r else r
    else
      DotBesideBounds(text, range, left);
      var result := word + "." + WordText(text, WordRangeAt(text, range.end));
      assert StartsWith(result, word) by { assert result[..|word|] == word; }
      var newPosition := range.end + 1 + 2;
      match WordRangeAt(text, newPosition)
      case None => Some(result)
      case Some(newWord) =>
        var r := FullNameRecursor(result, text, newWord, left);
        StartsWithTransitive(r.value, result, word);
        r
  }

  /** The resolver as intended: going right the neighbouring word is the one
      just after the dot (looked up at newRange.end), and a dot with no word
      beyond it ends the resolution on either side. The column arithmetic for
      re-entering the recursion is kept as written. */
  function ResolveQualifiedName(word: string, text: string, range: Range, left: bool): (r: string)
    ensures !DotBeside(text, range, left) ==> r == word
    ensures left ==> EndsWith(r, word)
    ensures !left ==> StartsWith(r, word)
    ensures left && DotBeside(text, range, left) ==>
      match WordRangeAt(text, range.start - 1)
      case None => r == word
      case Some(w) => w.end == range.start - 1 && EndsWith(r, GetText(text, w.start, w.end) + "." + word)
    ensures !left && DotBeside(text, range, left) ==>
      match WordRangeAt(text, range.end + 1)
      case None => r == word
      case Some(w) => w.start == range.end + 1 && StartsWith(r, word + "." + GetText(text, w.start, w.end))
    decreases if left then range.start else |text| - Clamp(text, range.end)
  {
    if left && range.start == 0 then word
    else if !DotBeside(text, range, left) then word
    else if left then
      DotBesideBounds(text, range, left);
      match WordRangeAt(text, range.start - 1)
      case None => word
      case Some(leftWord) =>
        var result := GetText(text, leftWord.start, leftWord.end) + "." + word;
        assert EndsWith(result, word) by { assert result[|result| - |word|..] == word; }
        var newPosition := if leftWord.start > 1 then leftWord.start - 2 else 0;
        match WordRangeAt(text, newPosition)
        case None => result
        case Some(newWord) =>
          var r := ResolveQualifiedName(result, text, newWord, left);
          EndsWithTransitive(r, result, word);
          r
    else
      DotBesideBounds(text, range, left);
      match WordRangeAt(text, range.end + 1)
      case None => word
      case Some(rightWord) =>
        var result := word + "." + GetText(text, rightWord.start, rightWord.end);
        assert StartsWith(result, word) by { assert result[..|word|] == word; }
        var newPosition := range.end + 1 + 2;
        match WordRangeAt(text, newPosition)
        case None => result
        case Some(newWord) =>
          var r := ResolveQualifiedName(result, text, newWord, left);
          StartsWithTransitive(r, result, word);
          r
  }

  /** The word ranges of "foo.bar.baz" the examples below need. */
  lemma FooWord(column: nat)
    requires column <= 3
    ensures WordRangeAt("foo.bar.baz", column) == Some(Range(0, 3))
  {
    var t := "foo.bar.baz";
    assert IsWordChar(t[0]) && IsWordChar(t[1]) && IsWordChar(t[2]) && !IsWordChar(t[3]);
    assert WordStart(t, 0) == 0;
    assert WordStart(t, 1) == 0;
    assert WordStart(t, 2) == 0;
    assert WordStart(t, 3) == 0;
    assert WordEnd(t, 3) == 3;
    assert WordEnd(t, 2) == 3;
    assert WordEnd(t, 1) == 3;
    assert WordEnd(t, 0) == 3;
  }

  lemma BarWord()
    ensures WordRangeAt("foo.bar.baz", 7) == Some(Range(4, 7))
  {
    var t := "foo.bar.baz";
    assert !IsWordChar(t[3]) && IsWordChar(t[4]) && IsWordChar(t[5]) && IsWordChar(t[6]) && !IsWordChar(t[7]);
  }

  lemma BazWord(column: nat)
    requires 8 <= column <= 11
    ensures WordRangeAt("foo.bar.baz", column) == Some(Range(8, 11))
  {
    var t := "foo.bar.baz";
    assert !IsWordChar(t[7]) && IsWordChar(t[8]) && IsWordChar(t[9]) && IsWordChar(t[10]);
    assert WordStart(t, 8) == 8;
    assert WordStart(t, 9) == 8;
    assert WordStart(t, 10) == 8;
    assert WordStart(t, 11) == 8;
    assert WordEnd(t, 11) == 11;
    assert WordEnd(t, 10) == 11;
    assert WordEnd(t, 9) == 11;
    assert WordEnd(t, 8) == 11;
  }

  /** On "foo.bar.baz" with the token "bar" (columns 4 to 7), going right
      as written repeats the token: the word found at column 7 is "bar"
      itself, not "baz". */
  lemma RightLookupRepeatsToken()
    ensures FullNameRecursor("bar", "foo.bar.baz", Range(4, 7), false) == Some("bar.bar")
  {
    var t := "foo.bar.baz";
    BarWord();
    BazWord(10);
    assert DotBeside(t, Range(4, 7), false);
    assert WordText(t, WordRangeAt(t, 7)) == "bar";
    assert "bar" + "." + "bar" == "bar.bar";
    assert !DotBeside(t, Range(8, 11), false);
    assert FullNameRecursor("bar.bar", t, Range(8, 11), false) == Some("bar.bar");
  }

  /** On ".bar" with the token "bar" (columns 1 to 4), going left as
      written throws: there is no word before the dot. */
  lemma LeftDotWithoutWordThrows()
    ensures FullNameRecursor("bar", ".bar", Range(1, 4), true) == None
  {
  }

  /** A no-break space is whitespace to the word definition: on
      "x\u00A0.bar" no word precedes the dot, so going left throws. */
  lemma NoBreakSpaceEndsWord()
    ensures FullNameRecursor("bar", "x\U{00A0}.bar", Range(3, 6), true) == None
  {
    var t := "x\U{00A0}.bar";
    assert !IsWordChar(t[1]) && !IsWordChar(t[2]);
    assert WordRangeAt(t, 2) == None;
    assert DotBeside(t, Range(3, 6), true);
  }

  /** Going left as written already gives what is intended. */
  lemma LeftLookupAsIntended()
    ensures FullNameRecursor("bar", "foo.bar.baz", Range(4, 7), true) == Some("foo.bar")
  {
    var t := "foo.bar.baz";
    FooWord(3);
    FooWord(0);
    assert DotBeside(t, Range(4, 7), true);
    assert GetText(t, 0, 3) == "foo";
    assert "foo" + "." + "bar" == "foo.bar";
    assert FullNameRecursor("foo.bar", t, Range(0, 3), true) == Some("foo.bar");
  }

  /** The intended resolver to the left of "bar" in "foo.bar.baz". */
  lemma ResolveLeftExample()
    ensures ResolveQualifiedName("bar", "foo.bar.baz", Range(4, 7), true) == "foo.bar"
  {
    var t := "foo.bar.baz";
    FooWord(3);
    FooWord(0);
    assert DotBeside(t, Range(4, 7), true);
    assert ResolveQualifiedName("foo.bar", t, Range(0, 3), true) == "foo.bar";
  }

  /** The intended resolver to the right of "bar" in "foo.bar.baz". */
  lemma ResolveRightExample()
    ensures ResolveQualifiedName("bar", "foo.bar.baz", Range(4, 7), false) == "bar.baz"
  {
    var t := "foo.bar.baz";
    BazWord(8);
    BazWord(11);
    assert DotBeside(t, Range(4, 7), false);
    assert !DotBeside(t, Range(8, 11), false);
    assert ResolveQualifiedName("bar.baz", t, Range(8, 11), false) == "bar.baz";
  }

  /** The intended resolver on the same inputs: "foo.bar" to the left,
      "bar.baz" to the right, the token unchanged at column 0 and when no
      word precedes the dot. */
  lemma ResolveExamples()
    ensures ResolveQualifiedName("bar", "foo.bar.baz", Range(4, 7), true) == "foo.bar"
    ensures ResolveQualifiedName("bar", "foo.bar.baz", Range(4, 7), false) == "bar.baz"
    ensures ResolveQualifiedName("foo", "foo.bar", Range(0, 3), true) == "foo"
    ensures ResolveQualifiedName("bar", ".bar", Range(1, 4), true) == "bar"
  {
    ResolveLeftExample();
    ResolveRightExample();
  }
}
