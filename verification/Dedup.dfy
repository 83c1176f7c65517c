/**
 The script that removes duplicate registry inserts from a source file, keeping the last one of each name. What a
 line inserts, if anything, is found by a pattern; the model takes the pattern as a parameter and looks at one
 insert per line.
*/
module Dedup {
  import opened Common

  datatype Insert = Insert(name: string, id: nat)

  type Pattern = string -> Option<Insert>

  predicate Names(p: Pattern, line: string, name: string) {
    p(line).Some? && p(line).value.name == name
  }

  predicate Mentions(p: Pattern, lines: seq<string>, name: string) {
    exists i :: 0 <= i < |lines| && Names(p, lines[i], name)
  }

  /** The registry a file builds: one insert after another, so that a later one wins. */
  function Meaning(p: Pattern, lines: seq<string>): map<string, nat> {
    if lines == [] then map[] else Single(p, lines[0]) + Meaning(p, lines[1..])
  }

  function Single(p: Pattern, line: string): map<string, nat> {
    if p(line).Some? then map[p(line).value.name := p(line).value.id] else map[]
  }

  /** The rewritten file: every line but the inserts that a later line repeats. */
  function Kept(p: Pattern, lines: seq<string>): seq<string> {
    if lines == [] then []
    else (if Superseded(p, lines) then [] else [lines[0]]) + Kept(p, lines[1..])
  }

  predicate Superseded(p: Pattern, lines: seq<string>)
    requires lines != []
  {
    p(lines[0]).Some? && Mentions(p, lines[1..], p(lines[0]).value.name)
  }

  // ----- what the rewriting keeps -----

  lemma MentionsCons(p: Pattern, line: string, rest: seq<string>, name: string)
    ensures Mentions(p, [line] + rest, name) <==> Names(p, line, name) || Mentions(p, rest, name)
  {
    if Mentions(p, rest, name) {
      var i :| 0 <= i < |rest| && Names(p, rest[i], name);
      assert ([line] + rest)[i + 1] == rest[i];
    }
    if Names(p, line, name) {
      assert ([line] + rest)[0] == line;
    }
  }

  lemma {:induction false} KeptMentions(p: Pattern, lines: seq<string>, name: string)
    ensures Mentions(p, Kept(p, lines), name) <==> Mentions(p, lines, name)
    decreases |lines|
  {
    if lines != [] {
      KeptMentions(p, lines[1..], name);
      assert lines == [lines[0]] + lines[1..];
      MentionsCons(p, lines[0], lines[1..], name);
      if Superseded(p, lines) {
        assert [] + Kept(p, lines[1..]) == Kept(p, lines[1..]);
      } else {
        MentionsCons(p, lines[0], Kept(p, lines[1..]), name);
      }
    }
  }

  lemma {:induction false} MeaningMentions(p: Pattern, lines: seq<string>, name: string)
    ensures name in Meaning(p, lines) <==> Mentions(p, lines, name)
    decreases |lines|
  {
    if lines != [] {
      MeaningMentions(p, lines[1..], name);
      assert lines == [lines[0]] + lines[1..];
      MentionsCons(p, lines[0], lines[1..], name);
    }
  }

  /** The file means what it meant: every name still has the id of its last insert. */
  lemma {:induction false} KeptMeaning(p: Pattern, lines: seq<string>)
    ensures Meaning(p, Kept(p, lines)) == Meaning(p, lines)
    decreases |lines|
  {
    if lines != [] {
      var rest := lines[1..];
      KeptMeaning(p, rest);
      if Superseded(p, lines) {
        MeaningMentions(p, rest, p(lines[0]).value.name);
        assert [] + Kept(p, rest) == Kept(p, rest);
        assert Single(p, lines[0]) + Meaning(p, rest) == Meaning(p, rest);
      } else {
        assert ([lines[0]] + Kept(p, rest))[1..] == Kept(p, rest);
      }
    }
  }

  function Occurrences(p: Pattern, lines: seq<string>, name: string): nat {
    if lines == [] then 0 else (if Names(p, lines[0], name) then 1 else 0) + Occurrences(p, lines[1..], name)
  }

  lemma {:induction false} OccurrencesNone(p: Pattern, lines: seq<string>, name: string)
    requires !Mentions(p, lines, name)
    ensures Occurrences(p, lines, name) == 0
    decreases |lines|
  {
    if lines != [] {
      assert lines == [lines[0]] + lines[1..];
      MentionsCons(p, lines[0], lines[1..], name);
      OccurrencesNone(p, lines[1..], name);
    }
  }

  /** Every name that was inserted is inserted on exactly one line. */
  lemma {:induction false} KeptOnce(p: Pattern, lines: seq<string>, name: string)
    ensures Occurrences(p, Kept(p, lines), name) == if Mentions(p, lines, name) then 1 else 0
    decreases |lines|
  {
    if lines != [] {
      var rest := lines[1..];
      KeptOnce(p, rest, name);
      assert lines == [lines[0]] + rest;
      MentionsCons(p, lines[0], rest, name);
      if Superseded(p, lines) {
        assert [] + Kept(p, rest) == Kept(p, rest);
      } else {
        assert ([lines[0]] + Kept(p, rest))[1..] == Kept(p, rest);
      }
    } else {
      assert !Mentions(p, lines, name);
    }
  }

  /** The lines that insert nothing. */
  function Others(p: Pattern, lines: seq<string>): seq<string> {
    if lines == [] then [] else (if p(lines[0]).None? then [lines[0]] else []) + Others(p, lines[1..])
  }

  /** `a` is `b` with some lines left out. */
  predicate Subsequence(a: seq<string>, b: seq<string>)
    decreases |b|
  {
    a == [] || (b != [] && ((a[0] == b[0] && Subsequence(a[1..], b[1..])) || Subsequence(a, b[1..])))
  }

  /** Lines are only left out, never reordered, and none that inserts nothing is left out. */
  lemma {:induction false} KeptOrder(p: Pattern, lines: seq<string>)
    ensures Subsequence(Kept(p, lines), lines) && Others(p, Kept(p, lines)) == Others(p, lines)
    decreases |lines|
  {
    if lines != [] {
      var rest := lines[1..];
      KeptOrder(p, rest);
      if Superseded(p, lines) {
        assert [] + Kept(p, rest) == Kept(p, rest);
        assert [] + Others(p, rest) == Others(p, rest);
      } else {
        assert ([lines[0]] + Kept(p, rest))[1..] == Kept(p, rest);
      }
    }
  }

  /** A second run finds nothing to do. */
  lemma {:induction false} KeptFixed(p: Pattern, lines: seq<string>)
    ensures Kept(p, Kept(p, lines)) == Kept(p, lines)
    decreases |lines|
  {
    if lines != [] {
      var rest := lines[1..];
      KeptFixed(p, rest);
      if Superseded(p, lines) {
        assert [] + Kept(p, rest) == Kept(p, rest);
      } else {
        assert ([lines[0]] + Kept(p, rest))[1..] == Kept(p, rest);
        if p(lines[0]).Some? {
          KeptMentions(p, rest, p(lines[0]).value.name);
        }
      }
    }
  }

  // ----- the id mapping -----

  /** Old ids to new: each repeated insert maps the id before it to its own. */
  function Mapping(p: Pattern, lines: seq<string>): map<nat, nat> {
    if lines == [] then map[]
    else
      var front, last := lines[..|lines| - 1], p(lines[|lines| - 1]);
      if last.Some? && last.value.name in Meaning(p, front)
      then Mapping(p, front)[Meaning(p, front)[last.value.name] := last.value.id]
      else Mapping(p, front)
  }

  lemma MapAssociates(a: map<string, nat>, b: map<string, nat>, c: map<string, nat>)
    ensures a + b + c == a + (b + c)
  {
  }

  lemma {:induction false} MeaningSnoc(p: Pattern, lines: seq<string>, line: string)
    ensures Meaning(p, lines + [line]) == Meaning(p, lines) + Single(p, line)
    decreases |lines|
  {
    if lines == [] {
      assert [] + [line] == [line];
      assert Meaning(p, [line]) == Single(p, line) + map[];
    } else {
      assert (lines + [line])[1..] == lines[1..] + [line];
      MeaningSnoc(p, lines[1..], line);
      MapAssociates(Single(p, lines[0]), Meaning(p, lines[1..]), Single(p, line));
    }
  }

  ghost predicate DistinctIds(p: Pattern, lines: seq<string>) {
    forall i, j :: 0 <= i < j < |lines| && p(lines[i]).Some? && p(lines[j]).Some? ==>
      p(lines[i]).value.id != p(lines[j]).value.id
  }

  /** What a name means is the id on its last line. */
  lemma {:induction false} MeaningLast(p: Pattern, lines: seq<string>, name: string) returns (k: nat)
    requires name in Meaning(p, lines)
    ensures k < |lines| && Names(p, lines[k], name) && Meaning(p, lines)[name] == p(lines[k]).value.id
    ensures forall m :: k < m < |lines| ==> !Names(p, lines[m], name)
    decreases |lines|
  {
    var n := |lines| - 1;
    assert lines == lines[..n] + [lines[n]];
    MeaningSnoc(p, lines[..n], lines[n]);
    if Names(p, lines[n], name) {
      k := n;
    } else {
      k := MeaningLast(p, lines[..n], name);
    }
  }

  /** A later line leaves the mapping of line `i` alone when another line of that name lies between. */
  lemma MappingKeeps(p: Pattern, lines: seq<string>, i: nat, j: nat, name: string)
    requires DistinctIds(p, lines) && i < j < |lines| - 1
    requires Names(p, lines[i], name) && Names(p, lines[j], name)
    requires p(lines[i]).value.id in Mapping(p, lines[..|lines| - 1])
    ensures p(lines[i]).value.id in Mapping(p, lines)
    ensures Mapping(p, lines)[p(lines[i]).value.id] == Mapping(p, lines[..|lines| - 1])[p(lines[i]).value.id]
  {
    var front, last := lines[..|lines| - 1], p(lines[|lines| - 1]);
    if last.Some? && last.value.name in Meaning(p, front) {
      var k := MeaningLast(p, front, last.value.name);
      assert Names(p, front[i], name) && Names(p, front[j], name);
      assert k != i;
      assert p(lines[k]).value.id != p(lines[i]).value.id;
    }
  }

  /** The line that repeats a name maps the id before it. */
  lemma MappingSets(p: Pattern, lines: seq<string>, i: nat, name: string)
    requires i < |lines| - 1
    requires Names(p, lines[i], name) && Names(p, lines[|lines| - 1], name)
    requires forall m :: i < m < |lines| - 1 ==> !Names(p, lines[m], name)
    ensures p(lines[i]).value.id in Mapping(p, lines)
    ensures Mapping(p, lines)[p(lines[i]).value.id] == p(lines[|lines| - 1]).value.id
  {
    var front := lines[..|lines| - 1];
    assert Names(p, front[i], name);
    MeaningMentions(p, front, name);
    var k := MeaningLast(p, front, name);
    assert k == i;
  }

  /** The mapping takes a removed line's id to the next line of that name. */
  lemma {:induction false} MappingIsNext(p: Pattern, lines: seq<string>, i: nat, j: nat, name: string)
    requires DistinctIds(p, lines) && i < j < |lines|
    requires Names(p, lines[i], name) && Names(p, lines[j], name)
    requires forall m :: i < m < j ==> !Names(p, lines[m], name)
    ensures p(lines[i]).value.id in Mapping(p, lines)
    ensures Mapping(p, lines)[p(lines[i]).value.id] == p(lines[j]).value.id
    decreases |lines|
  {
    if j < |lines| - 1 {
      MappingIsNext(p, lines[..|lines| - 1], i, j, name);
      MappingKeeps(p, lines, i, j, name);
    } else {
      MappingSets(p, lines, i, name);
    }
  }

  /** It is the id that survives exactly when that next line is the last of its name. */
  lemma MappingSurvives(p: Pattern, lines: seq<string>, i: nat, j: nat, name: string)
    requires DistinctIds(p, lines) && i < j < |lines|
    requires Names(p, lines[i], name) && Names(p, lines[j], name)
    requires forall m :: i < m < j ==> !Names(p, lines[m], name)
    ensures p(lines[i]).value.id in Mapping(p, lines) && name in Meaning(p, lines)
    ensures Mapping(p, lines)[p(lines[i]).value.id] == Meaning(p, lines)[name] <==>
      forall m :: j < m < |lines| ==> !Names(p, lines[m], name)
  {
    MappingIsNext(p, lines, i, j, name);
    assert Mentions(p, lines, name);
    MeaningMentions(p, lines, name);
    var k := MeaningLast(p, lines, name);
    assert k >= j;
    if k == j {
      assert Mapping(p, lines)[p(lines[i]).value.id] == Meaning(p, lines)[name];
    } else {
      assert j < k < |lines| && Names(p, lines[k], name);
      assert p(lines[j]).value.id != p(lines[k]).value.id;
    }
  }

  /** Looks an id up again and again. */
  function Follow(mapping: map<nat, nat>, id: nat, n: nat): nat
    decreases n
  {
    if n == 0 || id !in mapping then id else Follow(mapping, mapping[id], n - 1)
  }

  /** Only ids of lines that are repeated later are mapped. */
  lemma {:induction false} MappedIsRepeated(p: Pattern, lines: seq<string>, id: nat) returns (i: nat, j: nat)
    requires id in Mapping(p, lines)
    ensures i < j < |lines| && p(lines[i]).Some? && p(lines[i]).value.id == id
    ensures Names(p, lines[j], p(lines[i]).value.name)
    decreases |lines|
  {
    var n := |lines| - 1;
    var front, last := lines[..n], p(lines[n]);
    if id in Mapping(p, front) {
      i, j := MappedIsRepeated(p, front, id);
    } else {
      i := MeaningLast(p, front, last.value.name);
      j := n;
    }
  }

  lemma {:induction false} NextNamed(p: Pattern, lines: seq<string>, i: nat, k: nat, name: string) returns (j: nat)
    requires i < k < |lines| && Names(p, lines[k], name)
    ensures i < j <= k && Names(p, lines[j], name) && forall m :: i < m < j ==> !Names(p, lines[m], name)
    decreases k
  {
    if m :| i < m < k && Names(p, lines[m], name) {
      j := NextNamed(p, lines, i, m, name);
    } else {
      j := k;
    }
  }

  lemma SameIdSameLine(p: Pattern, lines: seq<string>, i: nat, k: nat)
    requires DistinctIds(p, lines) && i < |lines| && k < |lines| && p(lines[i]).Some? && p(lines[k]).Some?
    requires p(lines[i]).value.id == p(lines[k]).value.id
    ensures i == k
  {
  }

  /** The id on the last line of a name is not mapped any further. */
  lemma SurvivorStays(p: Pattern, lines: seq<string>, k: nat, name: string)
    requires DistinctIds(p, lines) && k < |lines| && Names(p, lines[k], name)
    requires forall m :: k < m < |lines| ==> !Names(p, lines[m], name)
    ensures p(lines[k]).value.id !in Mapping(p, lines)
  {
    hide Mapping, Meaning;
    if p(lines[k]).value.id in Mapping(p, lines) {
      var i, j := MappedIsRepeated(p, lines, p(lines[k]).value.id);
      SameIdSameLine(p, lines, i, k);
    }
  }

  /** Looked up often enough, the id of any insert leads to the id that survives under its name. */
  lemma {:induction false} FollowReachesSurvivor(p: Pattern, lines: seq<string>, i: nat, n: nat, name: string)
    requires DistinctIds(p, lines) && i < |lines| <= i + n && Names(p, lines[i], name)
    ensures name in Meaning(p, lines) && Follow(Mapping(p, lines), p(lines[i]).value.id, n) == Meaning(p, lines)[name]
    decreases |lines| - i
  {
    if k :| i < k < |lines| && Names(p, lines[k], name) {
      var j := NextNamed(p, lines, i, k, name);
      MappingIsNext(p, lines, i, j, name);
      FollowReachesSurvivor(p, lines, j, n - 1, name);
    } else {
      SurvivorStays(p, lines, i, name);
      assert Mentions(p, lines, name);
      MeaningMentions(p, lines, name);
      var k := MeaningLast(p, lines, name);
      assert k == i;
    }
  }

  function ThreeStones(): Pattern {
    line =>
      if line == "a" then Some(Insert("stone", 1))
      else if line == "b" then Some(Insert("stone", 2))
      else if line == "c" then Some(Insert("stone", 3))
      else None
  }

  /** Three inserts of one name: looked up once, the first id leads to the second, which does not survive. */
  lemma OneLookupIsNotEnough()
    ensures
      var p := ThreeStones();
      var lines := ["a", "b", "c"];
      && 1 in Mapping(p, lines) && Mapping(p, lines)[1] == 2
      && "stone" in Meaning(p, lines) && Meaning(p, lines)["stone"] == 3
  {
    var p := ThreeStones();
    var lines := ["a", "b", "c"];
    assert lines[0] == "a" && lines[1] == "b" && lines[2] == "c";
    assert Names(p, lines[2], "stone");
    MappingIsNext(p, lines, 0, 1, "stone");
    MappingSurvives(p, lines, 0, 1, "stone");
    var k := MeaningLast(p, lines, "stone");
  }

  // ----- the script -----

  /** Line `k` inserts a name that a line before `n` inserts again. */
  ghost predicate RepeatedIn(p: Pattern, lines: seq<string>, k: nat, n: nat)
    requires k < |lines| && n <= |lines|
  {
    p(lines[k]).Some? && exists j :: k < j < n && Names(p, lines[j], p(lines[k]).value.name)
  }

  /** The table knows the last occurrence of a name. */
  ghost predicate SeenAt(p: Pattern, lines: seq<string>, seen: map<string, (nat, nat)>, name: string) {
    && (name in seen <==> name in Meaning(p, lines))
    && (name in seen ==>
          && seen[name].0 < |lines| && Names(p, lines[seen[name].0], name) && seen[name].1 == Meaning(p, lines)[name]
          && forall m :: seen[name].0 < m < |lines| ==> !Names(p, lines[m], name))
  }

  ghost predicate Seen(p: Pattern, lines: seq<string>, seen: map<string, (nat, nat)>) {
    forall name :: SeenAt(p, lines, seen, name)
  }

  lemma SeenStep(p: Pattern, lines: seq<string>, i: nat, seen: map<string, (nat, nat)>)
    requires i < |lines| && Seen(p, lines[..i], seen) && p(lines[i]).Some?
    ensures
      var name := p(lines[i]).value.name;
      forall k: nat :: k < i ==>
        (RepeatedIn(p, lines, k, i + 1) <==> RepeatedIn(p, lines, k, i) || (name in seen && k == seen[name].0))
  {
    var name := p(lines[i]).value.name;
    forall k: nat | k < i
      ensures RepeatedIn(p, lines, k, i + 1) <==> RepeatedIn(p, lines, k, i) || (name in seen && k == seen[name].0)
    {
      assert SeenAt(p, lines[..i], seen, name);
      if Names(p, lines[k], name) {
        assert Names(p, lines[..i][k], name);
        MeaningMentions(p, lines[..i], name);
        if k < seen[name].0 {
          assert Names(p, lines[seen[name].0], name);
        }
      }
    }
  }

  lemma RepeatedIsSuperseded(p: Pattern, lines: seq<string>, i: nat)
    requires i < |lines|
    ensures RepeatedIn(p, lines, i, |lines|) <==> Superseded(p, lines[i..])
  {
    var tail := lines[i..][1..];
    assert forall j :: i < j < |lines| ==> lines[j] == tail[j - i - 1];
    if RepeatedIn(p, lines, i, |lines|) {
      var j :| i < j < |lines| && Names(p, lines[j], p(lines[i]).value.name);
      assert Names(p, tail[j - i - 1], p(lines[i]).value.name);
    }
    if Superseded(p, lines[i..]) {
      var j :| 0 <= j < |tail| && Names(p, tail[j], p(lines[i]).value.name);
      assert Names(p, lines[i + 1 + j], p(lines[i]).value.name);
    }
  }

  lemma SeenAtMoves(p: Pattern, front: seq<string>, line: string, seen: map<string, (nat, nat)>, name: string)
    requires SeenAt(p, front, seen, name)
    ensures
      var next := if p(line).Some? then seen[p(line).value.name := (|front|, p(line).value.id)] else seen;
      SeenAt(p, front + [line], next, name)
  {
    MeaningSnoc(p, front, line);
  }

  /** The table moves on to line `i`. */
  lemma SeenMoves(p: Pattern, lines: seq<string>, i: nat, seen: map<string, (nat, nat)>, next: map<string, (nat, nat)>)
    requires i < |lines| && Seen(p, lines[..i], seen)
    requires next == if p(lines[i]).Some? then seen[p(lines[i]).value.name := (i, p(lines[i]).value.id)] else seen
    ensures Seen(p, lines[..i + 1], next)
  {
    var after := lines[..i + 1];
    assert after == lines[..i] + [lines[i]];
    forall name
      ensures SeenAt(p, after, next, name)
    {
      SeenAtMoves(p, lines[..i], lines[i], seen, name);
    }
  }

  method Scan(p: Pattern, lines: seq<string>) returns (removed: set<nat>, mapping: map<nat, nat>)
    ensures mapping == Mapping(p, lines)
    ensures forall k: nat :: k in removed <==> k < |lines| && RepeatedIn(p, lines, k, |lines|)
  {
    var seen: map<string, (nat, nat)> := map[];
    removed, mapping := {}, map[];
    for i := 0 to |lines|
      invariant mapping == Mapping(p, lines[..i])
      invariant Seen(p, lines[..i], seen)
      invariant forall k: nat :: k in removed <==> k < i && RepeatedIn(p, lines, k, i)
    {
      assert lines[..i + 1][..i] == lines[..i];
      var m := p(lines[i]);
      SeenMoves(p, lines, i, seen, if m.Some? then seen[m.value.name := (i, m.value.id)] else seen);
      if m.Some? {
        SeenStep(p, lines, i, seen);
        assert SeenAt(p, lines[..i], seen, m.value.name);
        if m.value.name in seen {
          var earlier := seen[m.value.name];
          removed := removed + {earlier.0};
          mapping := mapping[earlier.1 := m.value.id];
        }
        seen := seen[m.value.name := (i, m.value.id)];
      }
    }
    assert lines[..|lines|] == lines;
  }

  lemma KeptStep(p: Pattern, lines: seq<string>, i: nat, out: seq<string>)
    requires i < |lines|
    ensures out + Kept(p, lines[i..]) ==
      (if Superseded(p, lines[i..]) then out else out + [lines[i]]) + Kept(p, lines[i + 1..])
  {
    assert lines[i..][0] == lines[i] && lines[i..][1..] == lines[i + 1..];
  }

  /** Scans forward, then writes what is left; a dry run writes nothing. */
  method Run(p: Pattern, lines: seq<string>, dryRun: bool) returns (written: Option<(seq<string>, map<nat, nat>)>)
    ensures written == if dryRun then None else Some((Kept(p, lines), Mapping(p, lines)))
  {
    var removed, mapping := Scan(p, lines);
    if dryRun {
      return None;
    }
    var out: seq<string> := [];
    for i := 0 to |lines|
      invariant Kept(p, lines) == out + Kept(p, lines[i..])
    {
      KeptStep(p, lines, i, out);
      RepeatedIsSuperseded(p, lines, i);
      if i !in removed {
        out := out + [lines[i]];
      }
    }
    assert lines[|lines|..] == [] && out + [] == out;
    return Some((out, mapping));
  }
}
