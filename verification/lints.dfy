/**
 The extractor's own types that `save_lints_json` consumes: `crate::Level`
 and the fields of `crate::Lint` it reads.
 */
module Lints {
  import Paths

  /** `crate::Level`, the severity the extractor found. */
  datatype Level = Allow | Warn | Deny

  /** The Rust identifier of a `crate::Level` variant. */
  function VariantName(l: Level): string
  {
    match l
    case Allow => "Allow"
    case Warn => "Warn"
    case Deny => "Deny"
  }

  /** `crate::Lint`, restricted to the fields the JSON output reads. */
  datatype Lint = Lint(name: string, path: Paths.Path, lineno: nat, doc: seq<string>, level: Level)
}
