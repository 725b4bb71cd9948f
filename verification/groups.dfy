/**
 The group index of `save_lints_json`: the group -> member-list mapping is
 flattened into (normalized member name, group) pairs, which are collected
 into a map where a later pair overwrites an earlier one with the same key.
 */
module Groups {
  import opened Wrappers
  import opened Text

  /** `LintGroups`: each group name with its member lint names, in iteration order. */
  type LintGroups = seq<(string, seq<string>)>

  /** The pairs one group contributes, in member order. */
  function MemberPairs(group: string, names: seq<string>): (ps: seq<(string, string)>)
    ensures |ps| == |names|
    ensures forall j :: 0 <= j < |names| ==> ps[j] == (Normalize(names[j]), group)
  {
    seq(|names|, j requires 0 <= j < |names| => (Normalize(names[j]), group))
  }

  /** Number of pairs the first `i` groups contribute. */
  function Offset(groups: LintGroups, i: nat): nat
    requires i <= |groups|
  {
    if i == 0 then 0 else |groups[0].1| + Offset(groups[1..], i - 1)
  }

  /** The `flat_map` over the groups: every member of every group, in iteration order. */
  function GroupPairs(groups: LintGroups): (ps: seq<(string, string)>)
    ensures |ps| == Offset(groups, |groups|)
    ensures forall n :: 0 <= n < |ps| ==> '-' !in ps[n].0
  {
    if |groups| == 0 then []
    else MemberPairs(groups[0].0, groups[0].1) + GroupPairs(groups[1..])
  }

  /** Member `j` of group `i` sits at position `Offset(groups, i) + j` of the flattening. */
  lemma {:induction false} GroupPairsAt(groups: LintGroups, i: nat, j: nat)
    requires i < |groups| && j < |groups[i].1|
    ensures Offset(groups, i) + j < |GroupPairs(groups)|
    ensures GroupPairs(groups)[Offset(groups, i) + j] == (Normalize(groups[i].1[j]), groups[i].0)
  {
    if i > 0 {
      GroupPairsAt(groups[1..], i - 1, j);
    }
  }

  /** A pair occurs in the flattening exactly when some group lists a member normalizing to its key. */
  lemma {:induction false} GroupPairsMembers(groups: LintGroups, k: string, g: string)
    ensures (k, g) in GroupPairs(groups) <==>
      exists i, j :: 0 <= i < |groups| && 0 <= j < |groups[i].1| &&
        Normalize(groups[i].1[j]) == k && groups[i].0 == g
  {
    if |groups| > 0 {
      GroupPairsMembers(groups[1..], k, g);
      var head := MemberPairs(groups[0].0, groups[0].1);
      if (k, g) in GroupPairs(groups) {
        if (k, g) in head {
          var j :| 0 <= j < |head| && head[j] == (k, g);
          assert Normalize(groups[0].1[j]) == k && groups[0].0 == g;
        } else {
          assert (k, g) in GroupPairs(groups[1..]);
          var i, j :| 0 <= i < |groups[1..]| && 0 <= j < |groups[1..][i].1| &&
            Normalize(groups[1..][i].1[j]) == k && groups[1..][i].0 == g;
          assert groups[i + 1].1[j] == groups[1..][i].1[j];
        }
      }
      if exists i, j :: 0 <= i < |groups| && 0 <= j < |groups[i].1| &&
          Normalize(groups[i].1[j]) == k && groups[i].0 == g {
        var i, j :| 0 <= i < |groups| && 0 <= j < |groups[i].1| &&
          Normalize(groups[i].1[j]) == k && groups[i].0 == g;
        GroupPairsAt(groups, i, j);
      }
    }
  }

  /** `BTreeMap::get(..).copied()`. */
  function Lookup(m: map<string, string>, k: string): (r: Option<string>)
    ensures r.Some? <==> k in m
    ensures r.Some? ==> r.value == m[k]
  {
    if k in m then Some(m[k]) else None
  }

  /** `collect::<BTreeMap<_, _>>()`: a left fold inserting each pair in turn. */
  function Insert(m: map<string, string>, ps: seq<(string, string)>): (r: map<string, string>)
    ensures r.Keys == m.Keys + (set p | p in ps :: p.0)
    decreases |ps|
  {
    if |ps| == 0 then m
    else
      assert (set p | p in ps :: p.0) == {ps[0].0} + (set p | p in ps[1..] :: p.0) by {
        assert ps == [ps[0]] + ps[1..];
      }
      Insert(m[ps[0].0 := ps[0].1], ps[1..])
  }

  /**
   Reference meaning of "last write wins": the value of the last pair whose
   key is `k`, or `None` when no pair has key `k`.
   */
  function LastWrite(ps: seq<(string, string)>, k: string): (r: Option<string>)
    ensures r.None? <==> forall n :: 0 <= n < |ps| ==> ps[n].0 != k
    ensures r.Some? ==>
      exists n :: 0 <= n < |ps| && ps[n] == (k, r.value) &&
        forall m :: n < m < |ps| ==> ps[m].0 != k
  {
    if |ps| == 0 then None
    else if ps[|ps| - 1].0 == k then Some(ps[|ps| - 1].1)
    else
      var r := LastWrite(ps[..|ps| - 1], k);
      assert r.None? ==> forall n :: 0 <= n < |ps| ==> ps[n].0 != k by {
        if r.None? {
          forall n | 0 <= n < |ps| ensures ps[n].0 != k {
            if n < |ps| - 1 { assert ps[n] == ps[..|ps| - 1][n]; }
          }
        }
      }
      r
  }

  /** The last write of a sequence with a pair in front. */
  lemma {:induction false} LastWriteCons(p: (string, string), rest: seq<(string, string)>, k: string)
    ensures LastWrite([p] + rest, k) ==
      if LastWrite(rest, k).Some? then LastWrite(rest, k)
      else if p.0 == k then Some(p.1) else None
  {
    if |rest| > 0 {
      var s := [p] + rest;
      assert s[..|s| - 1] == [p] + rest[..|rest| - 1];
      assert s[|s| - 1] == rest[|rest| - 1];
      if rest[|rest| - 1].0 != k {
        LastWriteCons(p, rest[..|rest| - 1], k);
      }
    }
  }

  /** Folding pairs into `m` answers each lookup with the last write, falling back to `m`. */
  lemma {:induction false} InsertLookup(m: map<string, string>, ps: seq<(string, string)>, k: string)
    ensures Lookup(Insert(m, ps), k) ==
      if LastWrite(ps, k).Some? then LastWrite(ps, k) else Lookup(m, k)
    decreases |ps|
  {
    if |ps| > 0 {
      InsertLookup(m[ps[0].0 := ps[0].1], ps[1..], k);
      LastWriteCons(ps[0], ps[1..], k);
      assert ps == [ps[0]] + ps[1..];
    }
  }

  /** The index `lint_to_group` built from the group mapping. */
  function Index(groups: LintGroups): (index: map<string, string>)
    ensures forall k :: k in index ==> '-' !in k
  {
    var ps := GroupPairs(groups);
    var index := Insert(map[], ps);
    assert forall k :: k in index ==> '-' !in k by {
      forall k | k in index ensures '-' !in k {
        var p :| p in ps && p.0 == k;
      }
    }
    index
  }

  /** Looking a key up in the index gives the group of the last pair with that key. */
  lemma IndexIsLastWrite(groups: LintGroups, k: string)
    ensures Lookup(Index(groups), k) == LastWrite(GroupPairs(groups), k)
  {
    InsertLookup(map[], GroupPairs(groups), k);
  }

  /** The index keys are exactly the normalized names of all group members. */
  lemma IndexKeys(groups: LintGroups, k: string)
    ensures k in Index(groups) <==>
      exists i, j :: 0 <= i < |groups| && 0 <= j < |groups[i].1| && Normalize(groups[i].1[j]) == k
  {
    var ps := GroupPairs(groups);
    if k in Index(groups) {
      var p :| p in ps && p.0 == k;
      GroupPairsMembers(groups, k, p.1);
    }
    if exists i, j :: 0 <= i < |groups| && 0 <= j < |groups[i].1| && Normalize(groups[i].1[j]) == k {
      var i, j :| 0 <= i < |groups| && 0 <= j < |groups[i].1| && Normalize(groups[i].1[j]) == k;
      GroupPairsAt(groups, i, j);
      assert ps[Offset(groups, i) + j] in ps;
    }
  }

  /**
   When every listing of a name (up to normalization) is under the same group
   `g`, and there is at least one, the index maps the name to `g`.
   */
  lemma IndexUnambiguous(groups: LintGroups, k: string, g: string)
    requires exists i, j :: 0 <= i < |groups| && 0 <= j < |groups[i].1| && Normalize(groups[i].1[j]) == k
    requires forall i, j :: 0 <= i < |groups| && 0 <= j < |groups[i].1| && Normalize(groups[i].1[j]) == k ==>
      groups[i].0 == g
    ensures Lookup(Index(groups), k) == Some(g)
  {
    var ps := GroupPairs(groups);
    IndexKeys(groups, k);
    IndexIsLastWrite(groups, k);
    var n :| 0 <= n < |ps| && ps[n] == (k, LastWrite(ps, k).value);
    assert ps[n] in ps;
    GroupPairsMembers(groups, k, ps[n].1);
  }
}
