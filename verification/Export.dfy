/** From the raw diff to the ledger, and from the ledger back onto both versions of the tree. */
module Export {
  import opened PyText
  import opened Wrappers
  import opened Rewriting
  import opened Brand
  import opened RenamePairs
  import opened DiffReader
  import opened Ledger

  const NO_RENAME_PAIRING := {"pyproject.toml"}

  /** rename_pairs_by_path, and the entries `export` writes for it. */
  function Entries(files: seq<FileDiff>): seq<Entry> {
    if files == [] then []
    else
      var f := files[|files| - 1];
      var pairs := Greedy(f.removed, f.added);
      Entries(files[..|files| - 1])
      + if f.path !in NO_RENAME_PAIRING && pairs != [] then [Entry(f.path, pairs)] else []
  }

  /** Some removed line and some added line differ by their brand tokens only. */
  ghost predicate HoldsRename(f: FileDiff) {
    exists r, a :: r in f.removed && a in f.added
      && HasBrand(r) && HasBrand(a) && r != a && Normalize(r) == Normalize(a)
  }

  /** The ledger has an entry for each file with a rename, packaging metadata apart, and no other;
      its pairs are a maximal pairing of the lines of that file. */
  ghost predicate Exported(files: seq<FileDiff>, entries: seq<Entry>) {
    && DistinctPaths(entries)
    && (forall f :: f in files ==>
          ((exists e :: e in entries && e.path == f.path) <==> f.path != "pyproject.toml" && HoldsRename(f)))
    && (forall e :: e in entries ==> exists f :: f in files && f.path == e.path)
    && forall e, f :: e in entries && f in files && e.path == f.path ==>
         ValidPairing(e.pairs, f.removed, f.added) && Maximal(e.pairs, f.removed, f.added)
  }

  method ExportEntries(raw: string) returns (entries: Option<seq<Entry>>)
    ensures match Read(START, SplitLines(raw))
            case None => entries == None
            case Some(files) =>
              entries == Some(Entries(files)) && (DistinctFiles(files) ==> Exported(files, entries.value))
  {
    var files := IterDiffFiles(raw);
    if files.None? {
      return None;
    }
    var out: seq<Entry> := [];
    for k := 0 to |files.value|
      invariant out == Entries(files.value[..k])
    {
      var f := files.value[k];
      assert files.value[..k + 1][..k] == files.value[..k];
      if f.path in NO_RENAME_PAIRING {
        continue;
      }
      var pairs := PairRenameLines(f.removed, f.added);
      if pairs != [] {
        out := out + [Entry(f.path, pairs)];
      }
    }
    assert files.value[..|files.value|] == files.value;
    if DistinctFiles(files.value) {
      EntriesExported(files.value);
    }
    entries := Some(out);
  }

  /** Pairs are found exactly when there is a rename to pair. */
  lemma {:induction false} GreedyFinds(f: FileDiff)
    ensures Greedy(f.removed, f.added) != [] <==> HoldsRename(f)
  {
    var ps := Greedy(f.removed, f.added);
    GreedyValid(f.removed, f.added);
    if ps != [] {
      var p := ps[0];
      assert p in ps && Pairable(p.0, p.1);
      SourceKnown(ps, true, p);
      SourceKnown(ps, false, p);
      assert p.0 in multiset(f.removed) && p.1 in multiset(f.added);
      assert p.0 in f.removed && p.1 in f.added;
    } else if HoldsRename(f) {
      var r, a :| r in f.removed && a in f.added
        && HasBrand(r) && HasBrand(a) && r != a && Normalize(r) == Normalize(a);
      RenameFound(f.removed, f.added, r, a);
    }
  }

  lemma {:induction false} RenameFound(removed: seq<string>, added: seq<string>, r: string, a: string)
    requires r in removed && a in added && Pairable(r, a)
    ensures Greedy(removed, added) != []
  {
    if Greedy(removed, added) == [] {
      GreedyMaximalAt(removed, added, r, a);
    }
  }

  lemma {:induction false} EntriesHave(files: seq<FileDiff>, k: nat)
    requires k < |files|
    ensures var f := files[k];
            f.path !in NO_RENAME_PAIRING && Greedy(f.removed, f.added) != [] ==>
              Entry(f.path, Greedy(f.removed, f.added)) in Entries(files)
  {
    if k < |files| - 1 {
      EntriesHave(files[..|files| - 1], k);
    }
  }

  lemma EntryOfFile(files: seq<FileDiff>, e: Entry, f: FileDiff)
    requires DistinctFiles(files) && f in files && e.path == f.path && ComesFrom(e, files)
    ensures e.path !in NO_RENAME_PAIRING && e == Entry(f.path, Greedy(f.removed, f.added)) && e.pairs != []
  {
    var g :| IsOrigin(e, g) && g in files;
    var i :| 0 <= i < |files| && files[i] == f;
    var j :| 0 <= j < |files| && files[j] == g;
    assert i == j;
  }

  lemma EntriesExported(files: seq<FileDiff>)
    requires DistinctFiles(files)
    ensures Exported(files, Entries(files))
  {
    EntryOrigin(files);
    forall f | f in files
      ensures (exists e :: e in Entries(files) && e.path == f.path) <==> f.path != "pyproject.toml" && HoldsRename(f)
    {
      var k :| 0 <= k < |files| && files[k] == f;
      GreedyFinds(f);
      EntriesHave(files, k);
      if e :| e in Entries(files) && e.path == f.path {
        EntryOfFile(files, e, f);
      }
    }
    forall e, f | e in Entries(files) && f in files && e.path == f.path
      ensures ValidPairing(e.pairs, f.removed, f.added) && Maximal(e.pairs, f.removed, f.added)
    {
      EntryOfFile(files, e, f);
      GreedyValid(f.removed, f.added);
      GreedyMaximal(f.removed, f.added);
    }
  }

  // ----- an exported ledger always replays -----

  lemma NoBreakBody(s: string)
    requires NoBreak(s)
    ensures Body(s) == s
  {
  }

  lemma {:induction false} PairsAreLines(removed: seq<string>, added: seq<string>)
    requires AllNoBreak(removed) && AllNoBreak(added)
    ensures LineTexts(Greedy(removed, added)) && Chomped(Greedy(removed, added))
    ensures forall p :: p in Greedy(removed, added) ==> Moves(p)
  {
    var ps := Greedy(removed, added);
    GreedyValid(removed, added);
    forall p | p in ps
      ensures Moves(p) && p.0 != "" && p.1 != "" && NoBreak(p.0) && NoBreak(p.1)
      ensures Body(p.0) == p.0 && Body(p.1) == p.1
    {
      SourceKnown(ps, true, p);
      SourceKnown(ps, false, p);
      assert p.0 in multiset(removed) && p.1 in multiset(added);
      assert p.0 in removed && p.1 in added;
      NoBreakBody(p.0);
      NoBreakBody(p.1);
    }
  }

  /** The pairs of one file replay on any text that holds the lines the diff takes from it. */
  lemma {:induction false} PairsReplay(removed: seq<string>, added: seq<string>, disk: string, forward: bool)
    requires AllNoBreak(removed) && AllNoBreak(added)
    requires multiset(if forward then removed else added) <= multiset(Bodies(FileLines(disk)))
    ensures var pairs := Greedy(removed, added);
            && Unmatched(FileLines(disk), pairs, forward) == 0
            && Hits(disk, pairs, forward) == |pairs|
            && multiset(Bodies(Replay(FileLines(disk), pairs, forward)))
               == multiset(Bodies(FileLines(disk))) - Sources(pairs, forward) + Sources(pairs, !forward)
  {
    var pairs, lines := Greedy(removed, added), FileLines(disk);
    FileLinesOk(disk);
    PairsAreLines(removed, added);
    GreedyValid(removed, added);
    Suffices(Bodies(lines), pairs, forward);
    ReplayBodies(lines, pairs, forward);
    AllMove(pairs);
    Balance(Bodies(lines), pairs, forward);
    Exchange(multiset(Run(Bodies(lines), pairs, forward)), Sources(pairs, forward),
             multiset(Bodies(lines)), Sources(pairs, !forward));
  }

  lemma Exchange(after: multiset<string>, taken: multiset<string>, before: multiset<string>, given: multiset<string>)
    requires after + taken == before + given && taken <= before
    ensures after == before - taken + given
  {
    assert after == (after + taken) - taken;
  }

  lemma AllMove(pairs: seq<Pair<string>>)
    requires forall p :: p in pairs ==> Moves(p)
    ensures Moving(pairs) == |pairs|
  {
  }

  ghost predicate DistinctFiles(files: seq<FileDiff>) {
    forall i, j :: 0 <= i < j < |files| ==> files[i].path != files[j].path
  }

  lemma DistinctSnoc(entries: seq<Entry>, e: Entry)
    requires DistinctPaths(entries) && forall g :: g in entries ==> g.path != e.path
    ensures DistinctPaths(entries + [e])
  {
  }

  ghost predicate IsOrigin(e: Entry, f: FileDiff) {
    f.path == e.path && e.path !in NO_RENAME_PAIRING && e.pairs == Greedy(f.removed, f.added) && e.pairs != []
  }

  ghost predicate ComesFrom(e: Entry, files: seq<FileDiff>) {
    exists f :: IsOrigin(e, f) && f in files
  }

  lemma {:induction false} EntryOrigin(files: seq<FileDiff>)
    requires DistinctFiles(files)
    ensures DistinctPaths(Entries(files))
    ensures forall e :: e in Entries(files) ==> ComesFrom(e, files)
  {
    if files == [] {
    } else {
      var init, f := files[..|files| - 1], files[|files| - 1];
      EntryOrigin(init);
      forall e | e in Entries(init)
        ensures e.path != f.path && ComesFrom(e, files)
      {
        var g :| IsOrigin(e, g) && g in init;
        assert g in files;
      }
      var mine := Entry(f.path, Greedy(f.removed, f.added));
      DistinctSnoc(Entries(init), mine);
      assert f in files && (mine.pairs != [] && f.path !in NO_RENAME_PAIRING ==> IsOrigin(mine, f));
      assert Entries(init) + [] == Entries(init);
    }
  }

  lemma {:induction false} NoneUnmatched(files: map<string, string>, entries: seq<Entry>, forward: bool)
    requires DistinctPaths(entries)
    requires forall e :: e in entries ==> e.path in files && Unmatched(FileLines(files[e.path]), e.pairs, forward) == 0
    ensures UnmatchedAll(files, entries, forward) == 0
    decreases |entries|
  {
    if entries == [] {
    } else {
      var e, rest := entries[0], entries[1..];
      var next := RewriteEntry(files, e, forward);
      forall g | g in rest
        ensures g.path in next && next[g.path] == files[g.path] && g in entries
      {
        var i :| 0 <= i < |rest| && rest[i] == g;
        assert entries[i + 1] == g && entries[0].path != entries[i + 1].path;
      }
      NoneUnmatched(next, rest, forward);
    }
  }

  /** `tree` holds the lines that the diff says it has: the removed ones (forward) or the
      added ones. */
  ghost predicate HoldsLines(tree: map<string, string>, files: seq<FileDiff>, forward: bool) {
    forall f :: f in files ==>
      var lines := if forward then f.removed else f.added;
      lines != [] ==> f.path in tree && multiset(lines) <= multiset(Bodies(FileLines(tree[f.path])))
  }

  lemma GreedyEmpty(removed: seq<string>, added: seq<string>)
    ensures removed == [] || added == [] ==> Greedy(removed, added) == []
  {
    if removed == [] && added != [] {
      GreedyEmpty(removed, added[1..]);
    }
  }

  /** The ledger exported from a diff applies to the base tree and strips from the target tree
      with nothing unmatched. */
  lemma ExportReplays(raw: string, files: seq<FileDiff>, tree: map<string, string>, forward: bool)
    requires Read(START, SplitLines(raw)) == Some(files) && DistinctFiles(files)
    requires HoldsLines(tree, files, forward)
    ensures UnmatchedAll(tree, Entries(files), forward) == 0
  {
    SplitLinesNoBreak(raw);
    ReadNoBreak(START, SplitLines(raw));
    EntryOrigin(files);
    forall e | e in Entries(files)
      ensures e.path in tree && Unmatched(FileLines(tree[e.path]), e.pairs, forward) == 0
    {
      var f :| IsOrigin(e, f) && f in files;
      GreedyEmpty(f.removed, f.added);
      PairsReplay(f.removed, f.added, tree[f.path], forward);
    }
    NoneUnmatched(tree, Entries(files), forward);
  }

  /** What an exported entry promises on the target tree. */
  lemma {:induction false} ExportedEntry(f: FileDiff, e: Entry, tree: map<string, string>)
    requires AllNoBreak(f.removed) && AllNoBreak(f.added)
    requires e == Entry(f.path, Greedy(f.removed, f.added)) && e.pairs != []
    requires HoldsLines(tree, [f], false) && NoOldIsNew(e.pairs) && Functional(e.pairs)
    ensures LineTexts(e.pairs) && e.path in tree
    ensures EntryFailures(tree, e) == [] <==> EnoughAbove(Bodies(FileLines(tree[e.path])), e.pairs)
    ensures Restored(tree, e) <==>
            EnoughAbove(Bodies(FileLines(tree[e.path])), e.pairs) && '\r' !in tree[e.path]
  {
    assert f in [f];
    GreedyEmpty(f.removed, f.added);
    PairsAreLines(f.removed, f.added);
    GreedyValid(f.removed, f.added);
    PairsReplay(f.removed, f.added, tree[f.path], false);
    VerifyExact(tree, e);
  }

  /** Enough new texts stand above the first old text of each file the ledger names. */
  predicate EnoughEverywhere(tree: map<string, string>, entries: seq<Entry>) {
    forall e :: e in entries && e.path in tree ==> EnoughAbove(Bodies(FileLines(tree[e.path])), e.pairs)
  }

  /** Export, strip and apply on the target tree, where each old line has one new text: nothing
      is unmatched; `verify` accepts exactly when enough new texts stand above the first old
      text of each file, and then the tree is given back if its files have no carriage returns. */
  lemma {:induction false} ExportStripApply(raw: string, files: seq<FileDiff>, tree: map<string, string>)
    requires Read(START, SplitLines(raw)) == Some(files) && DistinctFiles(files)
    requires HoldsLines(tree, files, false)
    requires forall e :: e in Entries(files) ==> NoOldIsNew(e.pairs) && Functional(e.pairs)
    ensures UnmatchedAll(tree, Entries(files), false) == 0
    ensures LedgerFailures(tree, Entries(files)) == [] <==> EnoughEverywhere(tree, Entries(files))
    ensures RewriteAll(RewriteAll(tree, Entries(files), false), Entries(files), true) == tree <==>
            && EnoughEverywhere(tree, Entries(files))
            && forall e :: e in Entries(files) && e.path in tree ==> '\r' !in tree[e.path]
  {
    ExportReplays(raw, files, tree, false);
    SplitLinesNoBreak(raw);
    ReadNoBreak(START, SplitLines(raw));
    EntryOrigin(files);
    forall e | e in Entries(files)
      ensures LineTexts(e.pairs) && e.path in tree
      ensures EntryFailures(tree, e) == [] <==> EnoughAbove(Bodies(FileLines(tree[e.path])), e.pairs)
      ensures Restored(tree, e) <==>
              EnoughAbove(Bodies(FileLines(tree[e.path])), e.pairs) && '\r' !in tree[e.path]
    {
      var f :| IsOrigin(e, f) && f in files;
      ExportedEntry(f, e, tree);
    }
    StripThenApplyTree(tree, Entries(files));
    NoFailures(tree, Entries(files));
  }

  lemma {:induction false} NoFailures(tree: map<string, string>, entries: seq<Entry>)
    ensures LedgerFailures(tree, entries) == [] <==> forall e :: e in entries ==> EntryFailures(tree, e) == []
  {
    if entries == [] {
    } else {
      assert forall e :: e in entries <==> e == entries[0] || e in entries[1..];
      NoFailures(tree, entries[1..]);
    }
  }

  /** The naming count is never cut by the `min` with the numstat counts of the same diff. */
  lemma {:induction false} NamingFits(removed: seq<string>, added: seq<string>)
    ensures |Greedy(removed, added)| <= |removed| && |Greedy(removed, added)| <= |added|
  {
    var ps := Greedy(removed, added);
    GreedyValid(removed, added);
    SourcesSize(ps, true);
    SourcesSize(ps, false);
    SmallerMultiset(Sources(ps, true), multiset(removed));
    SmallerMultiset(Sources(ps, false), multiset(added));
  }
}
