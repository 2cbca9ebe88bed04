/** Counting fork debt per file, and the gate that lets it only shrink. */
module Debt {
  import opened Wrappers

  /** One file of the report. */
  datatype Entry = Entry(added: nat, removed: nat, naming: nat, behaviorAdded: int, behaviorRemoved: int,
                         mechanical: bool)

  /** A dictionary in insertion order, keyed by path. */
  type Report = seq<(string, Entry)>

  datatype Totals = Totals(files: nat, added: nat, removed: nat, namingLines: nat,
                           behaviorAdded: int, behaviorRemoved: int,
                           behaviorFiles: nat, namingFiles: nat, namingTouchedFiles: nat, mechanicalFiles: nat)

  const MECHANICAL := {"console/package-lock.json", "package-lock.json"}

  function Min(a: nat, b: nat): nat {
    if a <= b then a else b
  }

  function Behavior(e: Entry): int {
    e.behaviorAdded + e.behaviorRemoved
  }

  /** One line of `git diff --numstat`: path, added, removed. */
  datatype Count = Count(path: string, added: nat, removed: nat)

  function NamingOf(naming: map<string, nat>, path: string): nat {
    if path in naming then naming[path] else 0
  }

  predicate Kept(c: Count, owned: set<string>) {
    c.path in owned && !(c.added == 0 && c.removed == 0)
  }

  function EntryOf(c: Count, naming: map<string, nat>): Entry {
    var names := Min(Min(NamingOf(naming, c.path), c.added), c.removed);
    Entry(c.added, c.removed, names, c.added - names, c.removed - names, c.path in MECHANICAL)
  }

  function Collected(owned: set<string>, counts: seq<Count>, naming: map<string, nat>): Report {
    if counts == [] then []
    else
      var c := counts[|counts| - 1];
      Collected(owned, counts[..|counts| - 1], naming)
      + if Kept(c, owned) then [(c.path, EntryOf(c, naming))] else []
  }

  /** What every collected entry satisfies. */
  ghost predicate WellFormed(r: Report) {
    && (forall i, j :: 0 <= i < j < |r| ==> r[i].0 != r[j].0)
    && forall i :: 0 <= i < |r| ==>
         var e := r[i].1;
         && e.naming <= e.added && e.naming <= e.removed
         && e.behaviorAdded == e.added - e.naming && e.behaviorRemoved == e.removed - e.naming
         && e.mechanical == (r[i].0 in MECHANICAL)
         && e.added + e.removed > 0
  }

  method Collect(owned: set<string>, counts: seq<Count>, naming: map<string, nat>) returns (out: Report)
    ensures out == Collected(owned, counts, naming)
  {
    out := [];
    for k := 0 to |counts|
      invariant out == Collected(owned, counts[..k], naming)
    {
      var c := counts[k];
      assert counts[..k + 1][..k] == counts[..k];
      if c.path !in owned || (c.added == 0 && c.removed == 0) {
        continue;
      }
      out := out + [(c.path, EntryOf(c, naming))];
    }
    assert counts[..|counts|] == counts;
  }

  function Paths(r: Report): set<string> {
    set i | 0 <= i < |r| :: r[i].0
  }

  /** The upstream-owned paths with a changed line. */
  function Touched(owned: set<string>, counts: seq<Count>): set<string> {
    set c | c in counts && Kept(c, owned) :: c.path
  }

  lemma {:induction false} TouchedSnoc(owned: set<string>, init: seq<Count>, c: Count)
    ensures Touched(owned, init + [c]) == Touched(owned, init) + if Kept(c, owned) then {c.path} else {}
  {
    assert forall x :: x in init + [c] <==> x in init || x == c;
  }

  lemma {:induction false} PathsSnoc(r: Report, path: string, e: Entry)
    ensures Paths(r + [(path, e)]) == Paths(r) + {path}
  {
    var r' := r + [(path, e)];
    assert r'[|r|].0 == path;
    forall p | p in Paths(r)
      ensures p in Paths(r')
    {
      var i :| 0 <= i < |r| && r[i].0 == p;
      assert r'[i].0 == p;
    }
  }

  lemma WellFormedSnoc(r: Report, path: string, e: Entry)
    requires WellFormed(r) && path !in Paths(r) && WellFormed([(path, e)])
    ensures WellFormed(r + [(path, e)])
  {
    assert [(path, e)][0] == (path, e);
    forall i | 0 <= i < |r|
      ensures r[i].0 != path
    {
      assert r[i].0 in Paths(r);
    }
  }

  /** The report holds exactly the touched upstream-owned files, each once, and splits their
      lines into naming and behavior without loss. */
  lemma {:induction false} CollectedWellFormed(owned: set<string>, counts: seq<Count>, naming: map<string, nat>)
    requires forall i, j :: 0 <= i < j < |counts| ==> counts[i].path != counts[j].path
    ensures WellFormed(Collected(owned, counts, naming))
    ensures Paths(Collected(owned, counts, naming)) == Touched(owned, counts)
    ensures var r := Collected(owned, counts, naming);
            forall i :: 0 <= i < |r| ==> r[i].1.naming <= NamingOf(naming, r[i].0)
  {
    if counts == [] {
    } else {
      var init, c := counts[..|counts| - 1], counts[|counts| - 1];
      var r0 := Collected(owned, init, naming);
      CollectedWellFormed(owned, init, naming);
      assert counts == init + [c];
      TouchedSnoc(owned, init, c);
      if Kept(c, owned) {
        assert c.path !in Touched(owned, init);
        WellFormedSnoc(r0, c.path, EntryOf(c, naming));
        PathsSnoc(r0, c.path, EntryOf(c, naming));
      } else {
        assert Collected(owned, counts, naming) == r0;
      }
    }
  }

  /** The entry of one numstat line: naming is the least of the paired lines and the two counts. */
  ghost predicate Counts(e: Entry, c: Count, naming: map<string, nat>) {
    var paired := if c.path in naming then naming[c.path] else 0;
    && e.added == c.added && e.removed == c.removed
    && e.naming <= paired && e.naming <= c.added && e.naming <= c.removed
    && (e.naming == paired || e.naming == c.added || e.naming == c.removed)
    && e.behaviorAdded == c.added - e.naming && e.behaviorRemoved == c.removed - e.naming
    && (e.mechanical <==> c.path == "console/package-lock.json" || c.path == "package-lock.json")
  }

  lemma EntryCounts(c: Count, naming: map<string, nat>)
    ensures Counts(EntryOf(c, naming), c, naming)
  {
  }

  /** There is an entry for a numstat line exactly when its file is upstream-owned and changed. */
  lemma {:induction false} CollectedExact(owned: set<string>, counts: seq<Count>, naming: map<string, nat>)
    ensures forall c :: c in counts && c.path in owned && c.added + c.removed > 0 ==>
              exists e :: (c.path, e) in Collected(owned, counts, naming) && Counts(e, c, naming)
    ensures forall x :: x in Collected(owned, counts, naming) ==>
              exists c :: c in counts && c.path == x.0 && c.path in owned && c.added + c.removed > 0
                && Counts(x.1, c, naming)
  {
    if counts == [] {
    } else {
      var init, last := counts[..|counts| - 1], counts[|counts| - 1];
      CollectedExact(owned, init, naming);
      EntryCounts(last, naming);
      assert counts == init + [last];
      assert Kept(last, owned) ==> (last.path, EntryOf(last, naming)) in Collected(owned, counts, naming);
    }
  }

  // ----- totals -----

  function Add(t: Totals, e: Entry): Totals {
    if e.mechanical then t.(mechanicalFiles := t.mechanicalFiles + 1)
    else
      Totals(t.files + 1, t.added + e.added, t.removed + e.removed, t.namingLines + e.naming,
             t.behaviorAdded + e.behaviorAdded, t.behaviorRemoved + e.behaviorRemoved,
             t.behaviorFiles + (if Behavior(e) > 0 then 1 else 0),
             t.namingFiles + (if Behavior(e) == 0 then 1 else 0),
             t.namingTouchedFiles + (if e.naming > 0 then 1 else 0),
             t.mechanicalFiles)
  }

  const ZERO := Totals(0, 0, 0, 0, 0, 0, 0, 0, 0, 0)

  function TotalsOf(r: Report): Totals {
    if r == [] then ZERO else Add(TotalsOf(r[..|r| - 1]), r[|r| - 1].1)
  }

  lemma WellFormedPrefix(r: Report)
    requires WellFormed(r) && r != []
    ensures WellFormed(r[..|r| - 1])
  {
  }

  /** What a file adds to a total. */
  datatype Column = Files | Added | Removed | NamingLines | BehaviorAdded | BehaviorRemoved
                  | BehaviorFiles | NamingFiles | NamingTouchedFiles

  ghost function Share(e: Entry, column: Column): int {
    match column
    case Files => 1
    case Added => e.added
    case Removed => e.removed
    case NamingLines => e.naming
    case BehaviorAdded => e.behaviorAdded
    case BehaviorRemoved => e.behaviorRemoved
    case BehaviorFiles => if e.behaviorAdded + e.behaviorRemoved > 0 then 1 else 0
    case NamingFiles => if e.behaviorAdded + e.behaviorRemoved == 0 then 1 else 0
    case NamingTouchedFiles => if e.naming > 0 then 1 else 0
  }

  /** The sum over the files that are not mechanical. */
  ghost function Sum(r: Report, column: Column): int {
    if r == [] then 0
    else Sum(r[..|r| - 1], column) + if r[|r| - 1].1.mechanical then 0 else Share(r[|r| - 1].1, column)
  }

  ghost function Mechanicals(r: Report): nat {
    if r == [] then 0 else Mechanicals(r[..|r| - 1]) + if r[|r| - 1].1.mechanical then 1 else 0
  }

  /** Each total is the sum of its column. */
  lemma {:induction false} TotalsAreSums(r: Report)
    ensures var t := TotalsOf(r);
            && t.files == Sum(r, Files) && t.added == Sum(r, Added) && t.removed == Sum(r, Removed)
            && t.namingLines == Sum(r, NamingLines)
            && t.behaviorAdded == Sum(r, BehaviorAdded) && t.behaviorRemoved == Sum(r, BehaviorRemoved)
            && t.behaviorFiles == Sum(r, BehaviorFiles) && t.namingFiles == Sum(r, NamingFiles)
            && t.namingTouchedFiles == Sum(r, NamingTouchedFiles) && t.mechanicalFiles == Mechanicals(r)
  {
    if r == [] {
    } else {
      TotalsAreSums(r[..|r| - 1]);
    }
  }

  /** Every changed line is counted once, as naming or as behavior, and every file once. */
  lemma {:induction false} Conservation(r: Report)
    requires WellFormed(r)
    ensures var t := TotalsOf(r);
            && t.added == t.namingLines + t.behaviorAdded && t.behaviorAdded >= 0
            && t.removed == t.namingLines + t.behaviorRemoved && t.behaviorRemoved >= 0
            && t.files == t.behaviorFiles + t.namingFiles
            && t.files + t.mechanicalFiles == |r|
            && (t.behaviorFiles == 0 <==> t.behaviorAdded + t.behaviorRemoved == 0)
            && t.namingTouchedFiles <= t.files && t.namingFiles <= t.namingTouchedFiles
  {
    if r == [] {
    } else {
      WellFormedPrefix(r);
      Conservation(r[..|r| - 1]);
    }
  }

  // ----- the ratchet -----

  function Find(r: Report, path: string): (i: nat)
    ensures i <= |r|
    ensures i < |r| ==> r[i].0 == path
    ensures forall j :: 0 <= j < i ==> r[j].0 != path
  {
    if r == [] || r[0].0 == path then 0 else Find(r[1..], path) + 1
  }

  datatype Problem =
    | Grew(key: string, before: int, after: int)
    | NewFile(path: string)
    | FileGrew(path: string, before: int, after: int)

  function Growth(key: string, before: int, after: int): seq<Problem> {
    if after > before then [Grew(key, before, after)] else []
  }

  function TotalProblems(prev: Totals, cur: Totals): seq<Problem> {
    Growth("files", prev.files, cur.files)
    + Growth("behavior_added", prev.behaviorAdded, cur.behaviorAdded)
    + Growth("behavior_removed", prev.behaviorRemoved, cur.behaviorRemoved)
    + Growth("behavior_files", prev.behaviorFiles, cur.behaviorFiles)
    + Growth("naming_lines", prev.namingLines, cur.namingLines)
  }

  function FileProblems(prev: Report, file: (string, Entry)): seq<Problem> {
    var i := Find(prev, file.0);
    if i == |prev| then [NewFile(file.0)]
    else if !file.1.mechanical && Behavior(file.1) > Behavior(prev[i].1) then
      [FileGrew(file.0, Behavior(prev[i].1), Behavior(file.1))]
    else []
  }

  /** `--check` against a baseline: 2 without one, 0 accepts, 1 rejects with the problems found. */
  method Check(baseline: Option<Report>, cur: Report) returns (exit: int, problems: seq<Problem>)
    ensures exit == 2 <==> baseline.None?
    ensures exit == 0 <==> baseline.Some? && Accepts(baseline.value, cur)
    ensures baseline.Some? ==> (exit == 0 <==> problems == [])
  {
    if baseline.None? {
      return 2, [];
    }
    var prev := baseline.value;
    problems := TotalProblems(TotalsOf(prev), TotalsOf(cur));
    TotalProblemsExact(TotalsOf(prev), TotalsOf(cur));
    for k := 0 to |cur|
      invariant problems == [] <==>
                TotalsShrink(TotalsOf(prev), TotalsOf(cur)) && forall i :: 0 <= i < k ==> FileAccepted(prev, cur[i])
    {
      problems := problems + FileProblems(prev, cur[k]);
    }
    exit := if problems == [] then 0 else 1;
  }

  lemma TotalProblemsExact(prev: Totals, cur: Totals)
    ensures TotalProblems(prev, cur) == [] <==> TotalsShrink(prev, cur)
  {
  }

  ghost predicate TotalsShrink(prev: Totals, cur: Totals) {
    && cur.files <= prev.files && cur.namingLines <= prev.namingLines
    && cur.behaviorAdded <= prev.behaviorAdded && cur.behaviorRemoved <= prev.behaviorRemoved
    && cur.behaviorFiles <= prev.behaviorFiles
  }

  predicate FileAccepted(prev: Report, file: (string, Entry)) {
    var i := Find(prev, file.0);
    i < |prev| && (file.1.mechanical || Behavior(file.1) <= Behavior(prev[i].1))
  }

  ghost predicate Accepts(prev: Report, cur: Report) {
    TotalsShrink(TotalsOf(prev), TotalsOf(cur)) && forall i :: 0 <= i < |cur| ==> FileAccepted(prev, cur[i])
  }

  /** What acceptance means, file by file: each file was there before, and unless it is mechanical
      no more of its lines are behavior than before. */
  lemma AcceptsExact(prev: Report, cur: Report)
    requires WellFormed(prev)
    ensures Accepts(prev, cur) <==>
            && TotalsShrink(TotalsOf(prev), TotalsOf(cur))
            && forall x :: x in cur ==>
                 exists y :: y in prev && y.0 == x.0
                   && (x.1.mechanical
                       || x.1.behaviorAdded + x.1.behaviorRemoved <= y.1.behaviorAdded + y.1.behaviorRemoved)
  {
    forall i | 0 <= i < |cur|
      ensures FileAccepted(prev, cur[i]) <==>
              exists y :: y in prev && y.0 == cur[i].0
                && (cur[i].1.mechanical
                    || cur[i].1.behaviorAdded + cur[i].1.behaviorRemoved <= y.1.behaviorAdded + y.1.behaviorRemoved)
    {
      FileAcceptedExact(prev, cur[i]);
    }
  }

  lemma FileAcceptedExact(prev: Report, x: (string, Entry))
    requires WellFormed(prev)
    ensures FileAccepted(prev, x) <==>
            exists y :: y in prev && y.0 == x.0
              && (x.1.mechanical
                  || x.1.behaviorAdded + x.1.behaviorRemoved <= y.1.behaviorAdded + y.1.behaviorRemoved)
  {
    var i := Find(prev, x.0);
    if i < |prev| {
      assert prev[i] in prev;
      forall y | y in prev && y.0 == x.0
        ensures y == prev[i]
      {
        var j :| 0 <= j < |prev| && prev[j] == y;
      }
    } else {
      assert forall y :: y in prev ==> y.0 != x.0;
    }
  }

  lemma FindSelf(r: Report, i: nat)
    requires WellFormed(r) && i < |r|
    ensures Find(r, r[i].0) == i
  {
  }

  lemma AcceptsReflexive(r: Report)
    requires WellFormed(r)
    ensures Accepts(r, r)
  {
    forall i | 0 <= i < |r| { FindSelf(r, i); }
  }

  lemma {:induction false} AcceptsTransitive(a: Report, b: Report, c: Report)
    requires WellFormed(b) && WellFormed(c)
    requires Accepts(a, b) && Accepts(b, c)
    ensures Accepts(a, c)
  {
    forall i | 0 <= i < |c|
      ensures FileAccepted(a, c[i])
    {
      var j := Find(b, c[i].0);
      assert FileAccepted(b, c[i]) && FileAccepted(a, b[j]);
    }
  }

  /** Along any chain of accepted baselines no count grows, no file is added, and no file's
      behavior grows. */
  lemma {:induction false} Ratchet(chain: seq<Report>, i: nat, j: nat)
    requires forall k :: 0 <= k < |chain| ==> WellFormed(chain[k])
    requires forall k :: 0 <= k < |chain| - 1 ==> Accepts(chain[k], chain[k + 1])
    requires i <= j < |chain|
    ensures Accepts(chain[i], chain[j])
    ensures Paths(chain[j]) <= Paths(chain[i])
    decreases j - i
  {
    if i == j {
      AcceptsReflexive(chain[i]);
    } else {
      Ratchet(chain, i, j - 1);
      assert Accepts(chain[j - 1], chain[j - 1 + 1]);
      AcceptsTransitive(chain[i], chain[j - 1], chain[j]);
      forall path | path in Paths(chain[j])
        ensures path in Paths(chain[i])
      {
        var n :| 0 <= n < |chain[j]| && chain[j][n].0 == path;
        assert FileAccepted(chain[i], chain[j][n]);
        assert chain[i][Find(chain[i], path)].0 == path;
      }
    }
  }
}
