/**
 The per-lint projection of `save_lints_json`: each input lint becomes an
 output record (`json::Lint` with its `json::Span`), and the first lint whose
 path cannot be relativised aborts the whole run.
 */
module Records {
  import opened Wrappers
  import opened Text
  import opened Paths
  import Lints
  import Levels
  import Groups

  /** `json::Span`: the path relative to the source root's parent, and the line. */
  datatype Span = Span(path: Path, line: nat)

  /** `json::Lint`, the output record. */
  datatype Record = Record(id: string, idSpan: Span, docs: string, group: Option<string>, level: Levels.Level)

  /**
   Why a run aborts: which of the two `unwrap` calls in the path computation
   panics. Like the panic, it carries no path.
   */
  datatype Abort =
    | NoParent      // `src_path.parent()` is `None`
    | NotUnderRoot  // `strip_prefix` fails

  /**
   What it means for `rec` to be the projection of `lint` when paths are made
   relative to `root` and groups are looked up in `index`.
   */
  predicate Projects(rec: Record, lint: Lints.Lint, root: Path, index: map<string, string>)
  {
    && rec.id == lint.name
    && root + rec.idSpan.path == lint.path
    && rec.idSpan.line == lint.lineno
    && rec.docs == Join(lint.doc, '\n')
    && (rec.group.Some? <==> lint.name in index)
    && (rec.group.Some? ==> rec.group.value == index[lint.name])
    && Levels.VariantName(rec.level) == Lints.VariantName(lint.level)
  }

  /** The closure passed to `map`: one lint to one record, or the panic it raises. */
  function ProjectLint(lint: Lints.Lint, index: map<string, string>, srcPath: Path): (r: Result<Record, Abort>)
    ensures r.Success? <==>
      Parent(srcPath).Some? && exists rest :: Parent(srcPath).value + rest == lint.path
    ensures r.Success? ==> Projects(r.value, lint, Parent(srcPath).value, index)
    ensures r.Failure? && Parent(srcPath).None? ==> r.error == NoParent
    ensures r.Failure? && Parent(srcPath).Some? ==> r.error == NotUnderRoot
  {
    match Parent(srcPath)
    case None => Failure(NoParent)
    case Some(root) =>
      match StripPrefix(lint.path, root)
      case None => Failure(NotUnderRoot)
      case Some(rel) =>
        Success(Record(
          lint.name,
          Span(rel, lint.lineno),
          Join(lint.doc, '\n'),
          Groups.Lookup(index, lint.name),
          Levels.FromLevel(lint.level)))
  }

  /**
   `lints.iter().map(..).collect::<Vec<_>>()`: every lint projected in order,
   or the abort of the first lint whose projection fails, with no partial output.
   */
  function ProjectAll(lints: seq<Lints.Lint>, index: map<string, string>, srcPath: Path): (r: Result<seq<Record>, Abort>)
    ensures r.Success? <==> forall n :: 0 <= n < |lints| ==> ProjectLint(lints[n], index, srcPath).Success?
    ensures r.Success? ==> |r.value| == |lints|
    ensures r.Success? ==> forall n :: 0 <= n < |lints| ==>
      ProjectLint(lints[n], index, srcPath) == Success(r.value[n])
    ensures r.Failure? ==>
      exists n :: 0 <= n < |lints| && ProjectLint(lints[n], index, srcPath) == Failure(r.error) &&
        forall m :: 0 <= m < n ==> ProjectLint(lints[m], index, srcPath).Success?
  {
    var rs := seq(|lints|, n requires 0 <= n < |lints| => ProjectLint(lints[n], index, srcPath));
    assert forall n :: 0 <= n < |lints| ==> rs[n] == ProjectLint(lints[n], index, srcPath);
    Collect(rs)
  }

  /** Every element of a successful run is the projection of the lint at the same position. */
  lemma ProjectAllProjects(lints: seq<Lints.Lint>, index: map<string, string>, srcPath: Path, n: nat)
    requires ProjectAll(lints, index, srcPath).Success? && n < |lints|
    ensures Parent(srcPath).Some?
    ensures Projects(ProjectAll(lints, index, srcPath).value[n], lints[n], Parent(srcPath).value, index)
  {
    assert ProjectLint(lints[n], index, srcPath).Success?;
  }

  /** The group of a projected record is the last write for its raw name in the flattened group mapping. */
  lemma GroupIsLastWrite(lint: Lints.Lint, groups: Groups.LintGroups, srcPath: Path)
    requires ProjectLint(lint, Groups.Index(groups), srcPath).Success?
    ensures ProjectLint(lint, Groups.Index(groups), srcPath).value.group ==
      Groups.LastWrite(Groups.GroupPairs(groups), lint.name)
  {
    Groups.IndexIsLastWrite(groups, lint.name);
  }

  /** The lookup key is the raw name, so a name containing `-` never finds a group. */
  lemma HyphenatedNameHasNoGroup(lint: Lints.Lint, groups: Groups.LintGroups, srcPath: Path)
    requires '-' in lint.name
    requires ProjectLint(lint, Groups.Index(groups), srcPath).Success?
    ensures ProjectLint(lint, Groups.Index(groups), srcPath).value.group.None?
  {
  }
}
