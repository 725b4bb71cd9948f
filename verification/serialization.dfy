/**
 The serialized shape of the output: `#[derive(Serialize)]` on `json::Lint`
 and `json::Span` fixes the key order, and `skip_serializing_if` drops the
 `group` key when there is no group. Values are kept abstract (no text
 rendering); a path stays a component sequence.
 */
module Serialization {
  import opened Wrappers
  import opened Paths
  import Lints
  import Levels
  import Groups
  import Records

  /** A JSON value as the serializer builds it; there is no null. */
  datatype Value =
    | Str(s: string)
    | Num(n: nat)
    | PathValue(p: Path)
    | Obj(fields: seq<(string, Value)>)
    | Arr(items: seq<Value>)

  /** The keys of an object, in order. */
  function Keys(fields: seq<(string, Value)>): (ks: seq<string>)
    ensures |ks| == |fields|
    ensures forall n :: 0 <= n < |fields| ==> ks[n] == fields[n].0
  {
    seq(|fields|, n requires 0 <= n < |fields| => fields[n].0)
  }

  /** `json::Span` as an object with keys `path` then `line`. */
  function SpanValue(span: Records.Span): (v: Value)
    ensures v.Obj? && Keys(v.fields) == ["path", "line"]
    ensures DecodeSpan(v) == Some(span)
  {
    Obj([("path", PathValue(span.path)), ("line", Num(span.line))])
  }

  /**
   A record as a JSON object: `id`, `id_span`, `docs`, `group` only when
   present, `level`; the `group` key, when present, holds a string.
   */
  function RecordValue(rec: Records.Record): (v: Value)
    ensures v.Obj?
    ensures rec.group.Some? ==> Keys(v.fields) == ["id", "id_span", "docs", "group", "level"]
    ensures rec.group.None? ==> Keys(v.fields) == ["id", "id_span", "docs", "level"]
    ensures forall n :: 0 <= n < |v.fields| && v.fields[n].0 == "group" ==> v.fields[n].1.Str?
  {
    var head := [("id", Str(rec.id)), ("id_span", SpanValue(rec.idSpan)), ("docs", Str(rec.docs))];
    var group := if rec.group.Some? then [("group", Str(rec.group.value))] else [];
    Obj(head + group + [("level", Str(Levels.SerialName(rec.level)))])
  }

  function DecodeSpan(v: Value): Option<Records.Span>
  {
    if v.Obj? && |v.fields| == 2 && v.fields[0].0 == "path" && v.fields[0].1.PathValue?
      && v.fields[1].0 == "line" && v.fields[1].1.Num?
    then Some(Records.Span(v.fields[0].1.p, v.fields[1].1.n))
    else None
  }

  /** Reading a record back from its JSON object; `None` for any other shape. */
  function DecodeRecord(v: Value): Option<Records.Record>
  {
    if !v.Obj? || !(|v.fields| == 4 || |v.fields| == 5) then None
    else
      var fs := v.fields;
      var hasGroup := |fs| == 5;
      var last := fs[|fs| - 1];
      if && fs[0].0 == "id" && fs[0].1.Str?
         && fs[1].0 == "id_span" && DecodeSpan(fs[1].1).Some?
         && fs[2].0 == "docs" && fs[2].1.Str?
         && (hasGroup ==> fs[3].0 == "group" && fs[3].1.Str?)
         && last.0 == "level" && last.1.Str? && Levels.ParseLevel(last.1.s).Some?
      then
        Some(Records.Record(
          fs[0].1.s,
          DecodeSpan(fs[1].1).value,
          fs[2].1.s,
          if hasGroup then Some(fs[3].1.s) else None,
          Levels.ParseLevel(last.1.s).value))
      else None
  }

  /** Serialization loses nothing: decoding gives the record back. */
  lemma RecordRoundTrip(rec: Records.Record)
    ensures DecodeRecord(RecordValue(rec)) == Some(rec)
  {
    Levels.ParseSerialName(rec.level, "");
  }

  /** Distinct records serialize to distinct objects. */
  lemma RecordValueInjective(a: Records.Record, b: Records.Record)
    ensures RecordValue(a) == RecordValue(b) ==> a == b
  {
    RecordRoundTrip(a);
    RecordRoundTrip(b);
  }

  /** The output document: a JSON array of the records, in order. */
  function Document(recs: seq<Records.Record>): (v: Value)
    ensures v.Arr? && |v.items| == |recs|
    ensures forall n :: 0 <= n < |recs| ==> DecodeRecord(v.items[n]) == Some(recs[n])
  {
    assert forall n :: 0 <= n < |recs| ==> DecodeRecord(RecordValue(recs[n])) == Some(recs[n]) by {
      forall n | 0 <= n < |recs| { RecordRoundTrip(recs[n]); }
    }
    Arr(seq(|recs|, n requires 0 <= n < |recs| => RecordValue(recs[n])))
  }

  /**
   The pure part of `save_lints_json`: build the group index, project every
   lint, and produce the array that is pretty-printed and written to `lints.json`.
   */
  function SaveLintsJson(lints: seq<Lints.Lint>, groups: Groups.LintGroups, srcPath: Path): (r: Result<Value, Records.Abort>)
    ensures r.Success? <==>
      |lints| == 0 ||
      (Parent(srcPath).Some? && forall n :: 0 <= n < |lints| ==> IsPrefix(Parent(srcPath).value, lints[n].path))
    ensures r.Success? ==> r.value.Arr? && |r.value.items| == |lints|
    ensures r.Success? ==> forall n :: 0 <= n < |lints| ==>
      DecodeRecord(r.value.items[n]).Some? &&
      Records.Projects(DecodeRecord(r.value.items[n]).value, lints[n], Parent(srcPath).value, Groups.Index(groups))
  {
    var index := Groups.Index(groups);
    match Records.ProjectAll(lints, index, srcPath)
    case Failure(e) =>
      assert |lints| > 0 && !(Parent(srcPath).Some? && forall n :: 0 <= n < |lints| ==> IsPrefix(Parent(srcPath).value, lints[n].path)) by {
        var n :| 0 <= n < |lints| && Records.ProjectLint(lints[n], index, srcPath) == Failure(e);
        if Parent(srcPath).Some? {
          assert StripPrefix(lints[n].path, Parent(srcPath).value).None?;
        }
      }
      Failure(e)
    case Success(recs) =>
      assert |lints| > 0 ==> Parent(srcPath).Some? by {
        if |lints| > 0 { assert Records.ProjectLint(lints[0], index, srcPath).Success?; }
      }
      assert forall n :: 0 <= n < |lints| ==> IsPrefix(Parent(srcPath).value, lints[n].path) by {
        forall n | 0 <= n < |lints| ensures IsPrefix(Parent(srcPath).value, lints[n].path) {
          assert Records.ProjectLint(lints[n], index, srcPath).Success?;
          assert StripPrefix(lints[n].path, Parent(srcPath).value).Some?;
        }
      }
      Success(Document(recs))
  }
}
