# lint-docs JSON output, modelled in Dafny

This project models the pure part of `LintExtractor::save_lints_json` in the
`lint-docs` tool (`src/tools/lint-docs/src/json.rs`). That function turns the
extracted lints and the lint groups into the records written to `lints.json`.
The model has three parts:

- **Group index** (`Groups`). The group → member-list mapping is flattened into
  `(member name with '-' replaced by '_', group)` pairs in iteration order. The
  pairs are then folded into a map, and a later pair overwrites an earlier one
  (`Groups.Index`). `Groups.LastWrite` is an independent reference definition
  of "last write wins". The fold is proved equal to it key by key.
- **Record projection** (`Records`). Each lint becomes one record, in order.
  - `id` is the lint name.
  - `id_span` is the lint's path with `src_path.parent()` stripped component by
    component, plus the line number.
  - `docs` is the doc lines joined with `"\n"` (`Text.Join`, with its inverse
    `Text.Split`).
  - `group` is the index lookup of the raw lint name.
  - `level` is the converted severity (`Levels`).

  Either `unwrap` in the path computation panics. The first lint that triggers
  one aborts the run, and no partial output exists (`Records.Abort`).
- **Output shape** (`Serialization`). A record becomes an object with keys
  `id, id_span, docs, [group], level`, and `group` is dropped when it is
  `None`. The object decodes back to the record. `Serialization.SaveLintsJson`
  composes the three parts into the array that is pretty-printed and written.

`Paths` models `Path` as its sequence of components, because `strip_prefix`
and `parent` work on components. `Scenarios` states the result on concrete inputs. It shows
that the stripped root is the parent of the source root, and that the lookup
key is the raw lint name.

## Behaviour worth knowing

- The group lookup (`json.rs:63`) uses the raw `lint.name`. Only group
  members are normalized (`json.rs:50`). So a lint named `missing-docs` finds
  no group even when a group lists `missing_docs`
  (`Scenarios.HyphenatedNameMissesGroup`).
- The path strip (`json.rs:59`) removes `src_path.parent()`, not `src_path`.
  With `src_path = /repo/src`, the path `/repo/src/tool/file.rs` gives
  `src/tool/file.rs` (`Scenarios.SpanKeepsSourceDirectory`).
- `src_path.parent().unwrap()` runs inside the `map` closure. With no lints it
  never runs, so an empty lint list never aborts, even when the source root
  has no parent (`Scenarios.EmptyRunNeverAborts`).
- `docs` cannot tell no doc lines from one empty doc line: both join to `""`
  (`Text.JoinCollapsesEmpty`).

## Model

| member | source | states |
|---|---|---|
| Wrappers.Collect | src/tools/lint-docs/src/json.rs:54-66 | The collection succeeds if and only if every element succeeds, and then it holds every value in order. Otherwise it carries the error of the first failing element, and every element before that one succeeded. |
| Text.JoinCollapsesEmpty | src/tools/lint-docs/src/json.rs:62 | No lines and a single empty line both join to `""`. |
| Text.Normalize | src/tools/lint-docs/src/json.rs:50 | The result has the same length as the input. Every `-` becomes `_` and every other character is kept. No `-` remains. |
| Text.NormalizeIdempotent | src/tools/lint-docs/src/json.rs:50 | Normalizing an already normalized name changes nothing. |
| Text.NormalizeFixedPoint | src/tools/lint-docs/src/json.rs:50 | A name is unchanged by normalization if and only if it contains no `-`. |
| Text.Join | src/tools/lint-docs/src/json.rs:62 | Joining no lines gives `""`. One line is returned unchanged. For n ≥ 1 lines the length is the sum of line lengths plus n - 1, and the result starts with the first line. |
| Text.Split | src/tools/lint-docs/src/json.rs:62 | Splitting on the separator gives at least one piece, and no piece contains the separator. |
| Text.SplitJoin | src/tools/lint-docs/src/json.rs:62 | Splitting the join of one or more separator-free lines gives those lines back. So for a non-empty list of doc lines the joined `docs` loses no line boundary; the empty list is the one collapse. |
| Text.JoinSplit | src/tools/lint-docs/src/json.rs:62 | Joining the pieces of a split gives back the original string. |
| Paths.Parent | src/tools/lint-docs/src/json.rs:59 | `parent()` is `None` exactly for the empty path or a path ending in the root. Otherwise it is the path minus its last component. |
| Paths.StripPrefix | src/tools/lint-docs/src/json.rs:59 | Stripping succeeds if and only if the path is `base` followed by some components. The result is exactly those components, so `base + result == path`. |
| Paths.StripAppended | src/tools/lint-docs/src/json.rs:59 | Stripping `base` from `base + rest` gives exactly `rest`. |
| Groups.GroupPairs | src/tools/lint-docs/src/json.rs:47-51 | The flattening has one pair per group member, and no pair's key contains `-`. |
| Groups.GroupPairsAt | src/tools/lint-docs/src/json.rs:48-51 | Member j of group i is at position offset(i) + j, paired with its normalized name and group i's name. This fixes the iteration order that last-write-wins depends on. |
| Groups.GroupPairsMembers | src/tools/lint-docs/src/json.rs:49-51 | A pair (k, g) is in the flattening if and only if group g lists a member whose normalized name is k. |
| Groups.MemberPairs | src/tools/lint-docs/src/json.rs:50 | One group contributes one pair per member, in member order: the member's normalized name with the group's name. |
| Groups.Insert | src/tools/lint-docs/src/json.rs:52 | The keys after the fold are the starting keys plus the key of every pair. |
| Groups.LastWrite | src/tools/lint-docs/src/json.rs:52 | Reference meaning of a collected map. It is `None` exactly when no pair has key k. Otherwise its value belongs to a pair with key k that no later pair with key k follows. |
| Groups.LastWriteCons | src/tools/lint-docs/src/json.rs:52 | Putting a pair in front only matters when no later pair writes the key. |
| Groups.InsertLookup | src/tools/lint-docs/src/json.rs:52 | A lookup after the fold gives the last write for that key, or else what the starting map held. |
| Groups.Lookup | src/tools/lint-docs/src/json.rs:63 | The lookup is `Some` exactly when the key is in the map, and then holds the key's value. |
| Groups.Index | src/tools/lint-docs/src/json.rs:47-52 | No key of the index contains `-`. |
| Groups.IndexIsLastWrite | src/tools/lint-docs/src/json.rs:47-52 | For every key, the index value is the group of the last pair with that key in iteration order. |
| Groups.IndexKeys | src/tools/lint-docs/src/json.rs:47-52 | A string is an index key if and only if it is the normalized form of some listed member. There are no extra keys and no missing keys. |
| Groups.IndexUnambiguous | src/tools/lint-docs/src/json.rs:47-52 | A name listed at least once, always under the same group g (up to normalization), maps to g. |
| Levels.FromLevel | src/tools/lint-docs/src/json.rs:15-23 | The conversion is total and keeps the variant: the output variant has the same identifier as the input variant. |
| Levels.FromLevelBijective | src/tools/lint-docs/src/json.rs:15-23 | Distinct severities convert to distinct levels, and every level is reached. |
| Levels.SnakeCase | src/tools/lint-docs/src/json.rs:8 | The renamed identifier has no upper-case letter and is no shorter than the identifier. |
| Levels.SnakeTailChar | src/tools/lint-docs/src/json.rs:8 | After the first character, a capital becomes `_` followed by its lower-case letter, and any other character is lowered. |
| Levels.SnakeTailAppend | src/tools/lint-docs/src/json.rs:8 | The rename of everything after the first character distributes over concatenation. With `SnakeTailChar` this fixes the rename of every identifier. |
| Levels.SnakeCaseWordBreak | src/tools/lint-docs/src/json.rs:8 | A capital after the first character starts a new word: renaming `a + b`, where `b` starts with a capital, gives the rename of `a`, then `_`, then the rename of `b`. |
| Levels.SnakeTailLowercase | src/tools/lint-docs/src/json.rs:8 | After the first character, a run of lower-case letters is copied unchanged by the rename. |
| Levels.SnakeInitial | src/tools/lint-docs/src/json.rs:8 | An identifier whose only capital is its first letter is renamed by lowering that letter and nothing else. |
| Levels.SerialName | src/tools/lint-docs/src/json.rs:7-13 | A level serializes to its variant identifier with only the first letter lowered. |
| Levels.SerialNames | src/tools/lint-docs/src/json.rs:7-13 | The snake-case names of `Allow`, `Warn` and `Deny` are exactly `allow`, `warn` and `deny`. |
| Levels.ParseSerialName | src/tools/lint-docs/src/json.rs:7-13 | Parsing a serialized name gives its level back, and only that name parses to that level, so no other strings are possible. |
| Records.ProjectLint | src/tools/lint-docs/src/json.rs:56-65 | Projection succeeds if and only if the source root has a parent and the lint's path lies under it. See the notes below the table. |
| Records.ProjectAll | src/tools/lint-docs/src/json.rs:54-66 | Success holds if and only if every lint projects. Then the output has the input's length, and element n is the projection of lint n. A failure is the error of the first lint that fails, and all lints before it project. |
| Records.ProjectAllProjects | src/tools/lint-docs/src/json.rs:54-66 | In a successful run the source root has a parent, and output element n is the projection of lint n against that parent and the index. |
| Records.GroupIsLastWrite | src/tools/lint-docs/src/json.rs:63 | A record's `group` is the last write for the lint's raw name in the flattened group mapping. |
| Records.HyphenatedNameHasNoGroup | src/tools/lint-docs/src/json.rs:63 | A lint whose name contains `-` always gets no group. |
| Serialization.SpanValue | src/tools/lint-docs/src/json.rs:25-29 | A span is an object with keys `path` then `line`, and it decodes back to the span. |
| Serialization.RecordValue | src/tools/lint-docs/src/json.rs:31-39 | The key list is `id, id_span, docs, group, level` when there is a group and `id, id_span, docs, level` when there is none. A `group` key always holds a string and never null. |
| Serialization.RecordRoundTrip | src/tools/lint-docs/src/json.rs:25-39 | Decoding a serialized record gives the record back. |
| Serialization.RecordValueInjective | src/tools/lint-docs/src/json.rs:31-39 | Distinct records serialize to distinct objects. |
| Serialization.Document | src/tools/lint-docs/src/json.rs:66-68 | The document is an array with one element per record. Element n decodes to record n. |
| Serialization.SaveLintsJson | src/tools/lint-docs/src/json.rs:42-68 | The run succeeds if and only if there are no lints, or the source root has a parent and every lint's path lies under it. Then the array has one element per lint, in order, and each element decodes to that lint's projection against the group index. |
| Scenarios.SpanKeepsSourceDirectory | src/tools/lint-docs/src/json.rs:58-61 | With source root `/repo/src`, a lint at `/repo/src/tool/file.rs:42` gets span path `src/tool/file.rs` and line 42. |
| Scenarios.ProjectMissingDocs | src/tools/lint-docs/src/json.rs:56-65 | A lint at `/repo/src/a.rs:10` with no docs and level Warn projects to span `src/a.rs` line 10, docs `""` and level `warn`. Its group is the lookup of its name. |
| Scenarios.StyleIndex | src/tools/lint-docs/src/json.rs:47-52 | A group `style` listing `missing-docs` indexes `missing_docs` to `style`. |
| Scenarios.UnderscoredNameFindsGroup | src/tools/lint-docs/src/json.rs:50-63 | The lint `missing_docs` finds group `style` through the hyphenated listing. |
| Scenarios.HyphenatedNameMissesGroup | src/tools/lint-docs/src/json.rs:63 | For any group mapping, the lint `missing-docs` gets no group. |
| Scenarios.LaterGroupWins | src/tools/lint-docs/src/json.rs:49-52 | When `a` lists `x-y` and later `b` lists `x_y`, the key `x_y` maps to `b`. |
| Scenarios.OutsideRootAborts | src/tools/lint-docs/src/json.rs:59 | A lint outside the stripped root aborts the run with the strip-prefix failure, even after a lint that projected. |
| Scenarios.EmptyRunNeverAborts | src/tools/lint-docs/src/json.rs:54-66 | With no lints the result is an empty array, even when the source root has no parent. |
| Scenarios.DocsJoin | src/tools/lint-docs/src/json.rs:62 | `["a", "b"]` joins to `"a\nb"`. |

Notes on `Records.ProjectLint`:

- On success, the record's `id` is the name and `root + span path` is the lint's path.
- The line, the `\n`-joined docs and the level variant are carried over.
- `group` is present if and only if the raw name is an index key, and then it holds that key's value.
- On failure the error says which `unwrap` panicked: `NoParent` or `NotUnderRoot`. Like the panic, it carries no path.

## Left out

- Writing the file: `create_dir_all` and `write` of `lints.json` (json.rs:69-70) are file system I/O.
- Text rendering: `serde_json::to_string_pretty` (json.rs:68) belongs to a foreign library. The model stops at an abstract value tree with ordered keys, so whitespace, escaping and indentation are not modelled.
- Path text: a path is kept as its component sequence, and its rendering as a string is not modelled. Serializing a `Path` fails on non-UTF-8 paths, but model strings are always valid, so that error case cannot arise.
- Path parsing: component splitting (repeated separators, interior `.`) and Windows drive prefixes are not modelled. A path is given already as components.
- Returned errors: the `?` errors at json.rs:68-70 (serialization, `create_dir_all`, `write`) are the only `Box<dyn Error>` paths, and they are left out together with rendering and I/O.
- Panics: `Records.Abort` stands for the two `unwrap` panics at json.rs:59. The program raises these panics; it does not return them as errors.
- Upstream inputs: the extractor that produces `crate::Lint` and `LintGroups` is not part of this model. `LintGroups` is taken as a sequence of (group, members) in its iteration order. `crate::Lint` is reduced to the five fields this code reads.
- Line numbers: `lineno` is a `usize`, modelled as `nat`. It is only copied, so no overflow can arise.
- Levels.SnakeCase: models serde's snake-case rule only for ASCII upper-case letters, because Unicode case mapping is not available here. The identifiers renamed in this code are ASCII.
- Lifetimes and borrowing (`&'a str`, `&'a Path`) are replaced by values.
