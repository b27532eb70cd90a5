/** The record shapes the index stores (IMethodValue and ILanguageInfo in src/global.ts). */
module Records {

  /** The completion-item kind a record carries. Records produced by the
      extractor leave it unset; records inserted into the index carry the
      constant tag CompletionItemKind.Module. */
  datatype Kind = Unset | Module

  /** One step declaration: `name` is the lookup key, `line`/`endline` the
      source line, `filename` the document it came from. */
  datatype MethodValue = MethodValue(
    name: string,
    line: int,
    endline: int,
    filename: string,
    description: string,
    kind: Kind)

  /** The language a feature document declares, keyed by its file name. */
  datatype LanguageInfo = LanguageInfo(language: string, name: string)
}
