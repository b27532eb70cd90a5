/** The Document Extractor: flattening a parsed Gherkin document into step
    records and at most one language record (Global.parse). */
module Extraction {
  import opened Wrappers
  import opened Records

  /** The parts of the Gherkin parser's output the extractor reads. */
  datatype Step = Step(text: string, line: int)
  datatype Child = Child(steps: seq<Step>)
  /** `children` is None when the parsed feature has no `children` attribute. */
  datatype Feature = Feature(language: string, children: Option<seq<Child>>)
  /** `feature` is None when the parsed document has no feature node. */
  datatype GherkinDocument = GherkinDocument(feature: Option<Feature>)
  /** What parsing one document's text gives: an exception or a tree. */
  datatype ParseOutcome = ParseError | Parsed(document: GherkinDocument)

  /** A discovered feature file: its path and what parsing its contents gave. */
  datatype FeatureFile = FeatureFile(path: string, source: ParseOutcome)

  /** The record parse creates for one step. */
  function StepRecord(step: Step, filename: string): MethodValue
  {
    MethodValue(step.text, step.line, step.line, filename, step.text, Unset)
  }

  function ChildRecords(steps: seq<Step>, filename: string): seq<MethodValue>
  {
    seq(|steps|, k requires 0 <= k < |steps| => StepRecord(steps[k], filename))
  }

  /** The records for a list of children, child by child, step by step. */
  function StepRecords(children: seq<Child>, filename: string): (r: seq<MethodValue>)
    ensures forall k :: 0 <= k < |r| ==>
      && r[k].filename == filename
      && r[k].name == r[k].description
      && r[k].line == r[k].endline
      && r[k].kind == Unset
    decreases |children|
  {
    if |children| == 0 then []
    else StepRecords(children[..|children| - 1], filename)
         + ChildRecords(children[|children| - 1].steps, filename)
  }

  /** The number of steps over all children. */
  function StepCount(children: seq<Child>): nat
    decreases |children|
  {
    if |children| == 0 then 0
    else StepCount(children[..|children| - 1]) + |children[|children| - 1].steps|
  }

  /** The language record parse inserts: one exactly when the parse succeeded
      and the document has a feature node, whether or not it has children. */
  function ExtractLanguage(source: ParseOutcome, filename: string): (r: Option<LanguageInfo>)
    ensures r.Some? <==> source.Parsed? && source.document.feature.Some?
    ensures r.Some? ==> r.value == LanguageInfo(source.document.feature.value.language, filename)
  {
    match source
    case ParseError => None
    case Parsed(document) =>
      match document.feature
      case None => None
      case Some(feature) => Some(LanguageInfo(feature.language, filename))
  }

  /** The step records parse returns. */
  function ExtractSteps(source: ParseOutcome, filename: string): (r: seq<MethodValue>)
    ensures ExtractLanguage(source, filename).None? ==> r == []
    ensures forall k :: 0 <= k < |r| ==>
      r[k].filename == filename && r[k].name == r[k].description && r[k].line == r[k].endline
    ensures source.Parsed? && source.document.feature.Some? ==>
      |r| == match source.document.feature.value.children case None => 0 case Some(c) => StepCount(c)
  {
    match source
    case ParseError => []
    case Parsed(document) =>
      match document.feature
      case None => []
      case Some(feature) =>
        match feature.children
        case None => []
        case Some(children) =>
          StepRecordsLength(children, filename);
          StepRecords(children, filename)
  }

  /** One record per step. */
  lemma {:induction false} StepRecordsLength(children: seq<Child>, filename: string)
    ensures |StepRecords(children, filename)| == StepCount(children)
    decreases |children|
  {
    if |children| > 0 {
      StepRecordsLength(children[..|children| - 1], filename);
    }
  }

  /** Step j of child i is described by the record at position
      StepCount(children[..i]) + j: the records come child by child, and
      within a child in step order. */
  lemma {:induction false} StepRecordsAt(children: seq<Child>, filename: string, i: nat, j: nat)
    requires i < |children| && j < |children[i].steps|
    ensures StepCount(children[..i]) + j < |StepRecords(children, filename)|
    ensures StepRecords(children, filename)[StepCount(children[..i]) + j]
            == StepRecord(children[i].steps[j], filename)
    decreases |children|
  {
    var n := |children|;
    var init := children[..n - 1];
    StepRecordsLength(init, filename);
    StepRecordsLength(children, filename);
    if i == n - 1 {
      assert children[..i] == init;
    } else {
      assert init[..i] == children[..i];
      StepRecordsAt(init, filename, i, j);
    }
  }

  /** Spelled out for a document: every step of a successfully parsed feature
      with children gives a record carrying the step's text and line. */
  lemma ExtractStepsOfFeature(language: string, children: seq<Child>, filename: string, i: nat, j: nat)
    requires i < |children| && j < |children[i].steps|
    ensures var r := ExtractSteps(Parsed(GherkinDocument(Some(Feature(language, Some(children))))), filename);
      && |r| == StepCount(children)
      && StepCount(children[..i]) + j < |r|
      && r[StepCount(children[..i]) + j].name == children[i].steps[j].text
      && r[StepCount(children[..i]) + j].description == children[i].steps[j].text
      && r[StepCount(children[..i]) + j].line == children[i].steps[j].line
      && r[StepCount(children[..i]) + j].endline == children[i].steps[j].line
      && r[StepCount(children[..i]) + j].filename == filename
  {
    StepRecordsLength(children, filename);
    StepRecordsAt(children, filename, i, j);
  }
}
