/**
 Concrete runs of the transformation. They fix the behaviour of the code on
 the cases where the lookup key and the stripped root are easy to get wrong.
 */
module Scenarios {
  import opened Wrappers
  import opened Text
  import opened Paths
  import Lints
  import Levels
  import Groups
  import Records
  import Serialization

  const SrcPath: Path := [RootDir, Normal("repo"), Normal("src")]

  /** The root that spans are made relative to. */
  lemma SrcParent()
    ensures Parent(SrcPath) == Some([RootDir, Normal("repo")])
  {
    assert SrcPath[..2] == [RootDir, Normal("repo")];
  }

  function MissingDocs(name: string): Lints.Lint
  {
    Lints.Lint(name, [RootDir, Normal("repo"), Normal("src"), Normal("a.rs")], 10, [], Lints.Warn)
  }

  /** The stripped root is the parent of the source root, so the source directory stays in the span. */
  lemma SpanKeepsSourceDirectory()
    ensures
      var lint := Lints.Lint("l", [RootDir, Normal("repo"), Normal("src"), Normal("tool"), Normal("file.rs")], 42, [], Lints.Allow);
      var r := Records.ProjectLint(lint, map[], SrcPath);
      r.Success? && r.value.idSpan == Records.Span([Normal("src"), Normal("tool"), Normal("file.rs")], 42)
  {
    var lint := Lints.Lint("l", [RootDir, Normal("repo"), Normal("src"), Normal("tool"), Normal("file.rs")], 42, [], Lints.Allow);
    var root := [RootDir, Normal("repo")];
    SrcParent();
    assert root + [Normal("src"), Normal("tool"), Normal("file.rs")] == lint.path;
  }

  /** `MissingDocs(name)` lies under the stripped root, whatever the index. */
  lemma ProjectMissingDocs(name: string, index: map<string, string>)
    ensures
      var r := Records.ProjectLint(MissingDocs(name), index, SrcPath);
      r.Success? && r.value.group == Groups.Lookup(index, name) && r.value.docs == "" &&
      r.value.idSpan == Records.Span([Normal("src"), Normal("a.rs")], 10) &&
      Levels.SerialName(r.value.level) == "warn"
  {
    var root := [RootDir, Normal("repo")];
    SrcParent();
    assert root + [Normal("src"), Normal("a.rs")] == MissingDocs(name).path;
    Levels.SerialNames();
  }

  lemma NormalizeMissingDocs()
    ensures Normalize("missing-docs") == "missing_docs"
  {
  }

  /** The index of a single group listing the hyphenated spelling. */
  lemma StyleIndex()
    ensures Groups.Lookup(Groups.Index([("style", ["missing-docs"])]), "missing_docs") == Some("style")
  {
    var groups := [("style", ["missing-docs"])];
    var ps := Groups.GroupPairs(groups);
    Groups.IndexIsLastWrite(groups, "missing_docs");
    Groups.GroupPairsAt(groups, 0, 0);
    assert |ps| == 1;
    assert ps[0] == (Normalize("missing-docs"), "style");
    NormalizeMissingDocs();
  }

  /** A hyphenated group member matches the underscored lint name. */
  lemma UnderscoredNameFindsGroup()
    ensures
      var r := Records.ProjectLint(MissingDocs("missing_docs"), Groups.Index([("style", ["missing-docs"])]), SrcPath);
      r.Success? && r.value.group == Some("style")
  {
    StyleIndex();
    ProjectMissingDocs("missing_docs", Groups.Index([("style", ["missing-docs"])]));
  }

  /** The lint's own name is not normalized: a hyphenated lint name finds no group. */
  lemma HyphenatedNameMissesGroup(groups: Groups.LintGroups)
    ensures
      var r := Records.ProjectLint(MissingDocs("missing-docs"), Groups.Index(groups), SrcPath);
      r.Success? && r.value.group == None
  {
    var lint := MissingDocs("missing-docs");
    ProjectMissingDocs(lint.name, Groups.Index(groups));
    assert lint.name[7] == '-';
    Records.HyphenatedNameHasNoGroup(lint, groups, SrcPath);
  }

  /** When two groups list the same name, the later group wins. */
  lemma LaterGroupWins()
    ensures Groups.Lookup(Groups.Index([("a", ["x-y"]), ("b", ["x_y"])]), "x_y") == Some("b")
  {
    var groups := [("a", ["x-y"]), ("b", ["x_y"])];
    Groups.IndexIsLastWrite(groups, "x_y");
    assert Normalize("x-y") == "x_y";
    assert Normalize("x_y") == "x_y";
    assert Groups.GroupPairs(groups) == [("x_y", "a"), ("x_y", "b")];
  }

  /** A lint outside the stripped root aborts the run with the strip-prefix failure, even after a lint that projected. */
  lemma OutsideRootAborts()
    ensures
      var lint := Lints.Lint("l", [RootDir, Normal("elsewhere"), Normal("a.rs")], 1, [], Lints.Deny);
      Records.ProjectAll([MissingDocs("ok"), lint], map[], SrcPath) ==
        Failure(Records.NotUnderRoot)
  {
    var lint := Lints.Lint("l", [RootDir, Normal("elsewhere"), Normal("a.rs")], 1, [], Lints.Deny);
    var root: Path := [RootDir, Normal("repo")];
    SrcParent();
    ProjectMissingDocs("ok", map[]);
    assert forall rest :: (root + rest)[1] == Normal("repo");
    assert Records.ProjectLint(lint, map[], SrcPath) == Failure(Records.NotUnderRoot);
    assert [MissingDocs("ok"), lint][1..] == [lint];
    assert Records.ProjectAll([lint], map[], SrcPath) == Failure(Records.NotUnderRoot);
  }

  /** With no lints neither `unwrap` runs, so even a source root without a parent gives an empty array. */
  lemma EmptyRunNeverAborts(groups: Groups.LintGroups)
    ensures Serialization.SaveLintsJson([], groups, [RootDir]) == Success(Serialization.Arr([]))
  {
  }

  /** Doc lines are joined with single newlines. */
  lemma DocsJoin()
    ensures Join(["a", "b"], '\n') == "a\nb"
  {
  }
}
