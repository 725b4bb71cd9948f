/**
 `json::Level`: the serialized severity, its conversion from `crate::Level`
 and its `rename_all = "snake_case"` name.
 */
module Levels {
  import opened Wrappers
  import Lints

  /** `json::Level`. */
  datatype Level = Allow | Warn | Deny

  /** The Rust identifier of a `json::Level` variant. */
  function VariantName(l: Level): string
  {
    match l
    case Allow => "Allow"
    case Warn => "Warn"
    case Deny => "Deny"
  }

  /** `From<crate::Level> for Level`: total, and each variant goes to the variant of the same name. */
  function FromLevel(l: Lints.Level): (r: Level)
    ensures VariantName(r) == Lints.VariantName(l)
  {
    match l
    case Allow => Allow
    case Warn => Warn
    case Deny => Deny
  }

  /** The conversion is a bijection: distinct inputs give distinct outputs, and every output is reached. */
  lemma FromLevelBijective(a: Lints.Level, b: Lints.Level, r: Level)
    ensures FromLevel(a) == FromLevel(b) ==> a == b
    ensures exists l: Lints.Level :: FromLevel(l) == r
  {
    match r
    case Allow => assert FromLevel(Lints.Allow) == r;
    case Warn => assert FromLevel(Lints.Warn) == r;
    case Deny => assert FromLevel(Lints.Deny) == r;
  }

  predicate IsUpper(c: char)
  {
    'A' <= c <= 'Z'
  }

  function ToLower(c: char): (r: char)
    ensures !IsUpper(r)
  {
    if IsUpper(c) then (c as int + 32) as char else c
  }

  /** Every character after the first: an `_` before each upper-case letter, then the letter lowered. */
  function SnakeTail(s: string): (r: string)
    ensures forall i :: 0 <= i < |r| ==> !IsUpper(r[i])
    ensures |r| >= |s|
  {
    if |s| == 0 then ""
    else (if IsUpper(s[0]) then "_" else "") + [ToLower(s[0])] + SnakeTail(s[1..])
  }

  /** serde's `snake_case` renaming of a variant identifier (ASCII letters). */
  function SnakeCase(ident: string): (r: string)
    ensures forall i :: 0 <= i < |r| ==> !IsUpper(r[i])
    ensures |r| >= |ident|
  {
    if |ident| == 0 then "" else [ToLower(ident[0])] + SnakeTail(ident[1..])
  }

  /** A tail with no upper-case letter is copied unchanged. */
  lemma {:induction false} SnakeTailLowercase(s: string)
    requires forall i :: 0 <= i < |s| ==> !IsUpper(s[i])
    ensures SnakeTail(s) == s
  {
    if |s| > 0 {
      SnakeTailLowercase(s[1..]);
      assert s == [s[0]] + s[1..];
    }
  }

  /** One character of the tail: an `_` first when it is a capital, then the character lowered. */
  lemma SnakeTailChar(c: char)
    ensures SnakeTail([c]) == (if IsUpper(c) then "_" else "") + [ToLower(c)]
  {
  }

  /** The tail rule works character by character, so it distributes over concatenation. */
  lemma {:induction false} SnakeTailAppend(a: string, b: string)
    ensures SnakeTail(a + b) == SnakeTail(a) + SnakeTail(b)
  {
    if |a| > 0 {
      assert (a + b)[1..] == a[1..] + b;
      SnakeTailAppend(a[1..], b);
    } else {
      assert a + b == b;
    }
  }

  /** A later capital starts a new `_`-separated word: `ForceWarn` becomes `force` + `_` + `warn`. */
  lemma SnakeCaseWordBreak(a: string, b: string)
    requires |a| > 0 && |b| > 0 && IsUpper(b[0])
    ensures SnakeCase(a + b) == SnakeCase(a) + "_" + SnakeCase(b)
  {
    assert (a + b)[0] == a[0];
    assert (a + b)[1..] == a[1..] + b;
    SnakeTailAppend(a[1..], b);
    assert b == [b[0]] + b[1..];
    SnakeTailAppend([b[0]], b[1..]);
    SnakeTailChar(b[0]);
  }

  /** An identifier whose only capital is its first letter is lowered at that letter only. */
  lemma SnakeInitial(ident: string, lower: char)
    requires |ident| > 0 && ToLower(ident[0]) == lower
    requires forall i :: 1 <= i < |ident| ==> !IsUpper(ident[i])
    ensures SnakeCase(ident) == [lower] + ident[1..]
  {
    SnakeTailLowercase(ident[1..]);
  }

  /** The name a level serializes to. */
  function SerialName(l: Level): (r: string)
    ensures r == [ToLower(VariantName(l)[0])] + VariantName(l)[1..]
  {
    var ident := VariantName(l);
    SnakeInitial(ident, ToLower(ident[0]));
    SnakeCase(ident)
  }

  /** The three serialized names are exactly `allow`, `warn` and `deny`. */
  lemma SerialNames()
    ensures SerialName(Allow) == "allow"
    ensures SerialName(Warn) == "warn"
    ensures SerialName(Deny) == "deny"
  {
    SnakeInitial("Allow", 'a');
    SnakeInitial("Warn", 'w');
    SnakeInitial("Deny", 'd');
  }

  /** Reading a serialized level name back. */
  function ParseLevel(s: string): Option<Level>
  {
    if s == "allow" then Some(Allow)
    else if s == "warn" then Some(Warn)
    else if s == "deny" then Some(Deny)
    else None
  }

  /** Parsing inverts the serialized name, and nothing else parses. */
  lemma ParseSerialName(l: Level, s: string)
    ensures ParseLevel(SerialName(l)) == Some(l)
    ensures ParseLevel(s) == Some(l) ==> s == SerialName(l)
  {
    SerialNames();
  }
}
