/**
 Filesystem paths as Rust's `Path::components` sees them: a sequence of
 components, compared component by component. Windows drive prefixes are
 not modelled.
 */
module Paths {
  import opened Wrappers

  datatype Component = RootDir | CurDir | ParentDir | Normal(name: string)

  type Path = seq<Component>

  /**
   `Path::parent`: the path without its last component, or `None` when there
   is no last component or the last one is the root.
   */
  function Parent(p: Path): (r: Option<Path>)
    ensures r.Some? <==> |p| > 0 && !p[|p| - 1].RootDir?
    ensures r.Some? ==> r.value + [p[|p| - 1]] == p
  {
    if |p| == 0 || p[|p| - 1].RootDir? then None else Some(p[..|p| - 1])
  }

  /** `base` matches the leading components of `p`. */
  predicate IsPrefix(base: Path, p: Path)
  {
    |base| <= |p| && p[..|base|] == base
  }

  /**
   `Path::strip_prefix`: the components of `p` that follow `base`, or `None`
   when `base` is not a leading run of `p`'s components.
   */
  function StripPrefix(p: Path, base: Path): (r: Option<Path>)
    ensures r.Some? <==> exists rest :: base + rest == p
    ensures r.Some? ==> base + r.value == p
  {
    if IsPrefix(base, p) then
      assert base + p[|base|..] == p;
      Some(p[|base|..])
    else
      assert forall rest :: (base + rest)[..|base|] == base;
      None
  }

  /** Stripping a prefix undoes prepending it, and the remainder is unique. */
  lemma StripAppended(base: Path, rest: Path)
    ensures StripPrefix(base + rest, base) == Some(rest)
  {
    var r := StripPrefix(base + rest, base);
    assert (base + rest)[|base|..] == rest;
  }
}
