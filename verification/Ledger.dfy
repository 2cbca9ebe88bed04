/** The brand ledger: replaying (old, new) line pairs over files, undoing them, and the
    `verify`, `apply` and `strip` commands built on the replay. */
module Ledger {
  import opened PyText
  import opened Rewriting

  // ----- one file, line by line -----

  function Bodies(lines: seq<string>): (r: seq<string>)
    ensures |r| == |lines|
  {
    seq(|lines|, i requires 0 <= i < |lines| => Body(lines[i]))
  }

  function PutLine(lines: seq<string>, src: string, dst: string): (r: seq<string>)
    ensures |r| == |lines|
  {
    var i := First(Bodies(lines), src);
    if i < |lines| then lines[i := dst + Ending(lines[i])] else lines
  }

  function Replay(lines: seq<string>, pairs: seq<Pair<string>>, forward: bool): (r: seq<string>)
    ensures |r| == |lines|
    decreases |pairs|
  {
    if pairs == [] then lines
    else
      Replay(if Moves(pairs[0]) then PutLine(lines, Src(pairs[0], forward), Dst(pairs[0], forward)) else lines,
             pairs[1..], forward)
  }

  function Unmatched(lines: seq<string>, pairs: seq<Pair<string>>, forward: bool): nat
    decreases |pairs|
  {
    if pairs == [] then 0
    else if !Moves(pairs[0]) then Unmatched(lines, pairs[1..], forward)
    else
      (if Src(pairs[0], forward) in Bodies(lines) then 0 else 1)
      + Unmatched(PutLine(lines, Src(pairs[0], forward), Dst(pairs[0], forward)), pairs[1..], forward)
  }

  function Moving(pairs: seq<Pair<string>>): nat {
    if pairs == [] then 0 else (if Moves(pairs[0]) then 1 else 0) + Moving(pairs[1..])
  }

  lemma {:induction false} MovingSnoc(pairs: seq<Pair<string>>, p: Pair<string>)
    ensures Moving(pairs + [p]) == Moving(pairs) + if Moves(p) then 1 else 0
  {
    if pairs != [] {
      assert (pairs + [p])[1..] == pairs[1..] + [p];
      MovingSnoc(pairs[1..], p);
    } else {
      assert pairs + [p] == [p];
    }
  }

  lemma FirstIs(s: seq<string>, x: string, i: nat)
    requires i <= |s| && (i < |s| ==> s[i] == x)
    requires forall j :: 0 <= j < i ==> s[j] != x
    ensures First(s, x) == i
  {
  }

  /** The first line whose text is `src`. */
  method FindLine(lines: seq<string>, src: string) returns (i: nat)
    ensures i == First(Bodies(lines), src)
  {
    i := 0;
    while i < |lines|
      invariant i <= |lines|
      invariant forall j :: 0 <= j < i ==> Bodies(lines)[j] != src
    {
      if Body(lines[i]) == src {
        break;
      }
      i := i + 1;
    }
    FirstIs(Bodies(lines), src, i);
  }

  /** The replay of one file: first matching line per pair, with counters. */
  method ApplyPairs(lines: seq<string>, pairs: seq<Pair<string>>, forward: bool)
    returns (out: seq<string>, done: nat, missing: nat)
    ensures out == Replay(lines, pairs, forward)
    ensures missing == Unmatched(lines, pairs, forward)
    ensures done + missing == Moving(pairs)
  {
    out, done, missing := lines, 0, 0;
    for k := 0 to |pairs|
      invariant Replay(out, pairs[k..], forward) == Replay(lines, pairs, forward)
      invariant missing + Unmatched(out, pairs[k..], forward) == Unmatched(lines, pairs, forward)
      invariant done + missing == Moving(pairs[..k])
    {
      assert pairs[k..][0] == pairs[k] && pairs[k..][1..] == pairs[k + 1..];
      MovingSnoc(pairs[..k], pairs[k]);
      assert pairs[..k + 1] == pairs[..k] + [pairs[k]];
      var src, dst := Src(pairs[k], forward), Dst(pairs[k], forward);
      if src == dst {
        continue;
      }
      var i := FindLine(out, src);
      if i < |out| {
        out := out[i := dst + Ending(out[i])];
        done := done + 1;
      } else {
        missing := missing + 1;
      }
    }
    assert pairs[..|pairs|] == pairs;
  }

  // ----- from lines to their bodies -----

  /** Neither side of a moving pair ends in a newline. */
  ghost predicate Chomped(pairs: seq<Pair<string>>) {
    forall p :: p in pairs && Moves(p) ==> Body(p.0) == p.0 && Body(p.1) == p.1
  }

  ghost predicate Lines(lines: seq<string>) {
    forall i :: 0 <= i < |lines| ==> AtMostOneNewline(lines[i])
  }

  lemma {:induction false} ReplacedBody(dst: string, line: string)
    requires Body(dst) == dst
    ensures Body(dst + Ending(line)) == dst && Ending(dst + Ending(line)) == Ending(line)
    ensures AtMostOneNewline(dst + Ending(line))
  {
    if Ending(line) == "\n" {
      assert (dst + "\n")[..|dst + "\n"| - 1] == dst;
    } else {
      assert dst + "" == dst;
    }
  }

  lemma ReplaceBody(lines: seq<string>, i: nat, line: string)
    requires i < |lines|
    ensures Bodies(lines[i := line]) == Bodies(lines)[i := Body(line)]
  {
  }

  lemma {:induction false} PutLineBodies(lines: seq<string>, src: string, dst: string)
    requires Lines(lines) && Body(dst) == dst
    ensures Bodies(PutLine(lines, src, dst)) == Put(Bodies(lines), src, dst)
    ensures Lines(PutLine(lines, src, dst))
    ensures forall i :: 0 <= i < |lines| ==> Ending(PutLine(lines, src, dst)[i]) == Ending(lines[i])
  {
    var i := First(Bodies(lines), src);
    if i < |lines| {
      ReplacedBody(dst, lines[i]);
      ReplaceBody(lines, i, dst + Ending(lines[i]));
      KeepsEndings(lines, i, dst + Ending(lines[i]));
    }
  }

  lemma KeepsEndings(lines: seq<string>, i: nat, line: string)
    requires i < |lines| && Lines(lines) && AtMostOneNewline(line) && Ending(line) == Ending(lines[i])
    ensures Lines(lines[i := line])
    ensures forall k :: 0 <= k < |lines| ==> Ending(lines[i := line][k]) == Ending(lines[k])
  {
    var next := lines[i := line];
    forall k | 0 <= k < |lines|
      ensures AtMostOneNewline(next[k]) && Ending(next[k]) == Ending(lines[k])
    {
      assert next[k] == if k == i then line else lines[k];
    }
  }

  lemma PutSame(s: seq<string>, x: string)
    ensures Put(s, x, x) == s
  {
  }

  /** A replay rewrites the bodies and keeps every line ending. */
  lemma {:induction false} ReplayBodies(lines: seq<string>, pairs: seq<Pair<string>>, forward: bool)
    requires Lines(lines) && Chomped(pairs)
    ensures Bodies(Replay(lines, pairs, forward)) == Run(Bodies(lines), pairs, forward)
    ensures Unmatched(lines, pairs, forward) == Misses(Bodies(lines), pairs, forward)
    ensures Lines(Replay(lines, pairs, forward))
    ensures forall i :: 0 <= i < |lines| ==> Ending(Replay(lines, pairs, forward)[i]) == Ending(lines[i])
    decreases |pairs|
  {
    if pairs == [] {
    } else {
      var src, dst := Src(pairs[0], forward), Dst(pairs[0], forward);
      if Moves(pairs[0]) {
        assert pairs[0] in pairs;
        PutLineBodies(lines, src, dst);
        ReplayBodies(PutLine(lines, src, dst), pairs[1..], forward);
      } else {
        PutSame(Bodies(lines), src);
        ReplayBodies(lines, pairs[1..], forward);
      }
    }
  }

  lemma {:induction false} SameLines(a: seq<string>, b: seq<string>)
    requires Lines(a) && Lines(b) && Bodies(a) == Bodies(b)
    requires forall i :: 0 <= i < |a| ==> Ending(a[i]) == Ending(b[i])
    ensures a == b
  {
    assert |a| == |Bodies(a)| == |Bodies(b)| == |b|;
    forall i | 0 <= i < |a|
      ensures a[i] == b[i]
    {
      assert Bodies(a)[i] == Bodies(b)[i];
    }
  }

  /** A ledger that can be undone: line texts, one new text per old text, no chains. */
  ghost predicate Replayable(pairs: seq<Pair<string>>) {
    Chomped(pairs) && NoOldIsNew(pairs) && Functional(pairs)
  }

  /** Strip then apply gives back the lines exactly when enough copies of the new texts stand
      above the first line with an old text. */
  lemma {:induction false} StripApplyLines(lines: seq<string>, pairs: seq<Pair<string>>)
    requires Lines(lines) && Replayable(pairs)
    ensures Replay(Replay(lines, pairs, false), pairs, true) == lines <==> EnoughAbove(Bodies(lines), pairs)
  {
    var back := Replay(Replay(lines, pairs, false), pairs, true);
    ReplayBodies(lines, pairs, false);
    ReplayBodies(Replay(lines, pairs, false), pairs, true);
    RoundTripExact(Bodies(lines), pairs);
    if Bodies(back) == Bodies(lines) {
      SameLines(back, lines);
    }
  }

  function WithNewlines(bodies: seq<string>): seq<string> {
    seq(|bodies|, i requires 0 <= i < |bodies| => bodies[i] + "\n")
  }

  lemma NewlineAdded(b: string)
    requires Body(b) == b
    ensures Body(b + "\n") == b && AtMostOneNewline(b + "\n")
  {
    assert (b + "\n")[..|b|] == b;
  }

  /** A ledger of lines without chains gives back every file without old texts exactly when
      each old text has one new text. */
  lemma ReplayableExactly(pairs: seq<Pair<string>>)
    requires Chomped(pairs) && NoOldIsNew(pairs)
    ensures Functional(pairs) <==>
              forall lines :: Lines(lines) && Untouched(Bodies(lines), pairs)
                ==> Replay(Replay(lines, pairs, false), pairs, true) == lines
  {
    if Functional(pairs) {
      forall lines | Lines(lines) && Untouched(Bodies(lines), pairs)
        ensures Replay(Replay(lines, pairs, false), pairs, true) == lines
      {
        UntouchedEnough(Bodies(lines), pairs);
        StripApplyLines(lines, pairs);
      }
    } else {
      var bodies := SomeFileBreaks(pairs);
      var lines := WithNewlines(bodies);
      forall i | 0 <= i < |bodies|
        ensures Body(lines[i]) == bodies[i] && AtMostOneNewline(lines[i])
      {
        assert bodies[i] in bodies;
        var p :| p in pairs && Moves(p) && p.1 == bodies[i];
        NewlineAdded(bodies[i]);
      }
      assert Bodies(lines) == bodies;
      ReplayBodies(lines, pairs, false);
      ReplayBodies(Replay(lines, pairs, false), pairs, true);
    }
  }

  /** With several new texts for an old one, a strip without misses is still undone up to
      the order of the bodies, and no line ending moves. */
  lemma {:induction false} StripApplyMultiset(lines: seq<string>, pairs: seq<Pair<string>>)
    requires Lines(lines) && Chomped(pairs) && NoOldIsNew(pairs)
    requires Unmatched(lines, pairs, false) == 0
    ensures var back := Replay(Replay(lines, pairs, false), pairs, true);
            && Unmatched(Replay(lines, pairs, false), pairs, true) == 0
            && multiset(Bodies(back)) == multiset(Bodies(lines))
            && forall i :: 0 <= i < |lines| ==> Ending(back[i]) == Ending(lines[i])
  {
    ReplayBodies(lines, pairs, false);
    ReplayBodies(Replay(lines, pairs, false), pairs, true);
    RoundTripMultiset(Bodies(lines), pairs);
  }

  lemma OnePair(lines: seq<string>, p: Pair<string>, forward: bool)
    requires Moves(p)
    ensures Replay(lines, [p], forward) == PutLine(lines, Src(p, forward), Dst(p, forward))
  {
    assert [p][1..] == [];
    assert Replay(lines, [p], forward) == Replay(PutLine(lines, Src(p, forward), Dst(p, forward)), [p][1..], forward);
  }

  lemma PutTwo(a: string, b: string, x: string, y: string)
    requires Body(b) == x && Ending(b) == "\n" && Body(a) != x
    ensures PutLine([a, b], x, y) == [a, y + "\n"]
  {
    FirstIs(Bodies([a, b]), x, 1);
  }

  lemma PutOne(a: string, b: string, x: string, y: string)
    requires Body(a) == x && Ending(a) == "\n"
    ensures PutLine([a, b], x, y) == [y + "\n", b]
  {
    FirstIs(Bodies([a, b]), x, 0);
  }

  /** A file that already holds an old text above its new text comes back with both swapped. */
  lemma NeedsUntouched(q: string, c: string, qLine: string, cLine: string)
    requires q != c && Body(qLine) == q && Body(cLine) == c && Ending(qLine) == "\n" == Ending(cLine)
    requires qLine == q + "\n" && cLine == c + "\n"
    ensures Functional([(q, c)]) && NoOldIsNew([(q, c)])
    ensures Replay(Replay([qLine, cLine], [(q, c)], false), [(q, c)], true) == [cLine, qLine]
  {
    OnePair([qLine, cLine], (q, c), false);
    PutTwo(qLine, cLine, c, q);
    OnePair([qLine, qLine], (q, c), true);
    PutOne(qLine, qLine, q, c);
  }

  lemma PutOnly(a: string, x: string, y: string)
    requires Body(a) == x && Ending(a) == "\n"
    ensures PutLine([a], x, y) == [y + "\n"]
  {
    FirstIs(Bodies([a]), x, 0);
  }

  lemma PutNone(a: string, x: string, y: string)
    requires Body(a) != x
    ensures PutLine([a], x, y) == [a]
  {
    FirstIs(Bodies([a]), x, 1);
  }

  lemma TwoPairs(lines: seq<string>, p: Pair<string>, q: Pair<string>, forward: bool)
    requires Moves(p) && Moves(q)
    ensures Replay(lines, [p, q], forward) ==
            PutLine(PutLine(lines, Src(p, forward), Dst(p, forward)), Src(q, forward), Dst(q, forward))
  {
    assert [p, q][1..] == [q];
    OnePair(PutLine(lines, Src(p, forward), Dst(p, forward)), q, forward);
  }

  lemma {:induction false} StripsChain(a: string, b: string, c: string)
    requires a != b && a != c && b != c && Body(a) == a && Body(b) == b && Body(c) == c
    ensures Replay([b + "\n"], [(a, b), (c, a)], false) == [c + "\n"]
  {
    NewlineAdded(a);
    NewlineAdded(b);
    TwoPairs([b + "\n"], (a, b), (c, a), false);
    PutOnly(b + "\n", b, a);
    PutOnly(a + "\n", a, c);
  }

  lemma {:induction false} AppliesChain(a: string, b: string, c: string)
    requires a != b && a != c && b != c && Body(a) == a && Body(c) == c
    ensures Replay([c + "\n"], [(a, b), (c, a)], true) == [a + "\n"]
  {
    NewlineAdded(c);
    TwoPairs([c + "\n"], (a, b), (c, a), true);
    PutNone(c + "\n", a, b);
    PutOnly(c + "\n", c, a);
  }

  /** A chain of renames listed backwards is not undone: the last name comes back as the
      middle one. */
  lemma {:induction false} NeedsNoChain(a: string, b: string, c: string, pairs: seq<Pair<string>>, lines: seq<string>)
    requires a != b && a != c && b != c && Body(a) == a && Body(b) == b && Body(c) == c
    requires pairs == [(a, b), (c, a)] && lines == [b + "\n"]
    ensures Functional(pairs) && Untouched(Bodies(lines), pairs)
    ensures Replay(Replay(lines, pairs, false), pairs, true) == [a + "\n"]
  {
    ChainConditions(a, b, c);
    StripsChain(a, b, c);
    AppliesChain(a, b, c);
  }

  lemma ChainConditions(a: string, b: string, c: string)
    requires a != b && a != c && b != c && Body(b) == b
    ensures Functional([(a, b), (c, a)]) && Untouched(Bodies([b + "\n"]), [(a, b), (c, a)])
  {
    NewlineAdded(b);
    assert Bodies([b + "\n"]) == [b];
  }

  // ----- whole files -----

  /** Both sides of a moving pair are non-empty texts of one line. */
  ghost predicate LineTexts(pairs: seq<Pair<string>>) {
    forall p :: p in pairs && Moves(p) ==> p.0 != "" && p.1 != "" && NoBreak(p.0) && NoBreak(p.1)
  }

  lemma LineTextsChomped(pairs: seq<Pair<string>>)
    requires LineTexts(pairs)
    ensures Chomped(pairs)
  {
  }

  function FileLines(disk: string): seq<string> {
    SplitKeep(ReadText(disk))
  }

  function Hits(disk: string, pairs: seq<Pair<string>>, forward: bool): int {
    Moving(pairs) - Unmatched(FileLines(disk), pairs, forward)
  }

  /** What `apply` or `strip` leaves on disk: nothing is written when nothing was done. */
  function RewriteFile(disk: string, pairs: seq<Pair<string>>, forward: bool): string {
    if Hits(disk, pairs, forward) > 0 then Concat(Replay(FileLines(disk), pairs, forward)) else disk
  }

  ghost predicate NoReturn(lines: seq<string>) {
    forall i :: 0 <= i < |lines| ==> '\r' !in lines[i]
  }

  lemma {:induction false} NoReturnInConcat(lines: seq<string>)
    ensures '\r' !in Concat(lines) <==> NoReturn(lines)
  {
    if lines == [] {
    } else {
      NoReturnInConcat(lines[1..]);
      assert forall i :: 0 < i < |lines| ==> lines[i] == lines[1..][i - 1];
    }
  }

  lemma {:induction false} PutLineSplit(lines: seq<string>, src: string, dst: string)
    requires IsSplit(lines) && Lines(lines) && '\r' !in Concat(lines)
    requires src != "" && dst != "" && NoBreak(src) && NoBreak(dst)
    ensures IsSplit(PutLine(lines, src, dst)) && '\r' !in Concat(PutLine(lines, src, dst))
  {
    var i := First(Bodies(lines), src);
    if i < |lines| {
      var line := dst + Ending(lines[i]);
      ReplaceKeepsSplit(lines, i, src, dst);
      NoReturnInConcat(lines);
      NoReturnInConcat(lines[i := line]);
      assert '\r' !in line;
    }
  }

  lemma {:induction false} ReplaySplit(lines: seq<string>, pairs: seq<Pair<string>>, forward: bool)
    requires IsSplit(lines) && Lines(lines) && LineTexts(pairs) && '\r' !in Concat(lines)
    ensures IsSplit(Replay(lines, pairs, forward)) && '\r' !in Concat(Replay(lines, pairs, forward))
    decreases |pairs|
  {
    if pairs == [] {
    } else {
      var src, dst := Src(pairs[0], forward), Dst(pairs[0], forward);
      if Moves(pairs[0]) {
        assert pairs[0] in pairs;
        PutLineSplit(lines, src, dst);
        PutLineBodies(lines, src, dst);
        ReplaySplit(PutLine(lines, src, dst), pairs[1..], forward);
      } else {
        ReplaySplit(lines, pairs[1..], forward);
      }
    }
  }

  /** A replay counts nothing done exactly when no line has a searched text, and then it
      changes nothing. */
  lemma {:induction false} NoHits(lines: seq<string>, pairs: seq<Pair<string>>, forward: bool)
    ensures Unmatched(lines, pairs, forward) <= Moving(pairs)
    ensures Unmatched(lines, pairs, forward) == Moving(pairs) <==>
              forall p :: p in pairs && Moves(p) ==> Src(p, forward) !in Bodies(lines)
    ensures Unmatched(lines, pairs, forward) == Moving(pairs) ==> Replay(lines, pairs, forward) == lines
    decreases |pairs|
  {
    if pairs == [] {
    } else {
      var rest := pairs[1..];
      assert forall p :: p in pairs <==> p == pairs[0] || p in rest;
      if Moves(pairs[0]) {
        NoHits(PutLine(lines, Src(pairs[0], forward), Dst(pairs[0], forward)), rest, forward);
      } else {
        NoHits(lines, rest, forward);
      }
    }
  }

  /** A file with old texts and enough new texts above them has something to strip. */
  lemma EnoughNewOrUntouched(bodies: seq<string>, pairs: seq<Pair<string>>)
    requires EnoughAbove(bodies, pairs)
    requires forall p :: p in pairs && Moves(p) ==> p.1 !in bodies
    ensures Untouched(bodies, pairs)
  {
    forall i | 0 <= i < |pairs| && Moves(pairs[i]) && pairs[i].0 in bodies
      ensures pairs[i].1 in bodies
    {
      var above := bodies[..First(bodies, pairs[i].0)];
      assert Served(above, pairs, i);
      assert pairs[..i + 1][i] == pairs[i];
      SourceKnown(pairs[..i + 1], false, pairs[i]);
      assert pairs[i].1 in above;
    }
  }

  lemma FileLinesOk(disk: string)
    ensures Lines(FileLines(disk)) && IsSplit(FileLines(disk))
    ensures Concat(FileLines(disk)) == ReadText(disk) && '\r' !in ReadText(disk)
  {
    var lines := FileLines(disk);
    ConcatSplitKeep(ReadText(disk));
    SplitKeepOneNewline(ReadText(disk));
    ReadTextExact(disk);
    assert forall i :: 0 <= i < |lines| ==> lines[i] in lines;
  }

  /** What a command leaves on disk reads as the replayed lines, written or not. */
  lemma {:induction false} RewrittenLines(disk: string, pairs: seq<Pair<string>>, forward: bool)
    requires LineTexts(pairs)
    ensures FileLines(RewriteFile(disk, pairs, forward)) == Replay(FileLines(disk), pairs, forward)
    ensures Hits(disk, pairs, forward) > 0 ==> '\r' !in RewriteFile(disk, pairs, forward)
  {
    var lines := FileLines(disk);
    FileLinesOk(disk);
    NoHits(lines, pairs, forward);
    if Hits(disk, pairs, forward) > 0 {
      ReplaySplit(lines, pairs, forward);
      ReadTextExact(RewriteFile(disk, pairs, forward));
    }
  }

  /** `strip` followed by `apply` on one file. The text comes back exactly when enough new
      texts stand above the first old text; the bytes do exactly when, besides, nothing was
      written or the file held no carriage return. */
  lemma StripThenApplyFile(disk: string, pairs: seq<Pair<string>>)
    requires LineTexts(pairs) && NoOldIsNew(pairs) && Functional(pairs)
    ensures var back := RewriteFile(RewriteFile(disk, pairs, false), pairs, true);
            var enough := EnoughAbove(Bodies(FileLines(disk)), pairs);
            && (ReadText(back) == ReadText(disk) <==> enough)
            && (back == disk <==> enough && (Hits(disk, pairs, false) == 0 || '\r' !in disk))
  {
    var lines := FileLines(disk);
    var mid := RewriteFile(disk, pairs, false);
    var back := RewriteFile(mid, pairs, true);
    FileLinesOk(disk);
    FileLinesOk(back);
    LineTextsChomped(pairs);
    RewrittenLines(disk, pairs, false);
    RewrittenLines(mid, pairs, true);
    StripApplyLines(lines, pairs);
    if Hits(disk, pairs, false) > 0 {
      ReadTextExact(back);
      ReadTextExact(disk);
    } else if EnoughAbove(Bodies(lines), pairs) {
      NoHits(lines, pairs, false);
      EnoughNewOrUntouched(Bodies(lines), pairs);
      NoHits(lines, pairs, true);
    }
  }

  // ----- the commands -----

  datatype Entry = Entry(path: string, pairs: seq<Pair<string>>)

  datatype Failure =
    | FileMissing(path: string)
    | ReplayDiffers(path: string)
    | PairsUnmatched(path: string, strip: nat, apply: nat)

  /** The failures `verify` records for one entry: none or one. */
  function EntryFailures(files: map<string, string>, e: Entry): (r: seq<Failure>) {
    if e.path !in files then [FileMissing(e.path)]
    else
      var original := ReadText(files[e.path]);
      var lines := SplitKeep(original);
      var stripped := Replay(lines, e.pairs, false);
      var missStrip := Unmatched(lines, e.pairs, false);
      var missApply := Unmatched(stripped, e.pairs, true);
      if Concat(Replay(stripped, e.pairs, true)) != original then [ReplayDiffers(e.path)]
      else if missStrip != 0 || missApply != 0 then [PairsUnmatched(e.path, missStrip, missApply)]
      else []
  }

  function LedgerFailures(files: map<string, string>, entries: seq<Entry>): seq<Failure> {
    if entries == [] then [] else EntryFailures(files, entries[0]) + LedgerFailures(files, entries[1..])
  }

  lemma {:induction false} LedgerFailuresSnoc(files: map<string, string>, entries: seq<Entry>, e: Entry)
    ensures LedgerFailures(files, entries + [e]) == LedgerFailures(files, entries) + EntryFailures(files, e)
  {
    if entries == [] {
      assert entries + [e] == [e];
    } else {
      assert (entries + [e])[1..] == entries[1..] + [e];
      LedgerFailuresSnoc(files, entries[1..], e);
    }
  }

  function RewriteEntry(files: map<string, string>, e: Entry, forward: bool): map<string, string> {
    if e.path in files then files[e.path := RewriteFile(files[e.path], e.pairs, forward)] else files
  }

  function RewriteAll(files: map<string, string>, entries: seq<Entry>, forward: bool): map<string, string>
    decreases |entries|
  {
    if entries == [] then files
    else RewriteAll(RewriteEntry(files, entries[0], forward), entries[1..], forward)
  }

  /** Total of unmatched pairs; a missing file counts all its pairs, moving or not. */
  function UnmatchedAll(files: map<string, string>, entries: seq<Entry>, forward: bool): nat
    decreases |entries|
  {
    if entries == [] then 0
    else
      (if entries[0].path in files
       then Unmatched(FileLines(files[entries[0].path]), entries[0].pairs, forward)
       else |entries[0].pairs|)
      + UnmatchedAll(RewriteEntry(files, entries[0], forward), entries[1..], forward)
  }

  /** Total of replaced lines. */
  function HitsAll(files: map<string, string>, entries: seq<Entry>, forward: bool): int
    decreases |entries|
  {
    if entries == [] then 0
    else
      (if entries[0].path in files then Hits(files[entries[0].path], entries[0].pairs, forward) else 0)
      + HitsAll(RewriteEntry(files, entries[0], forward), entries[1..], forward)
  }

  /** A named file that does not exist leaves all its pairs unmatched. */
  lemma {:induction false} MissingFile(files: map<string, string>, entries: seq<Entry>, forward: bool, e: Entry)
    requires e in entries && e.path !in files
    ensures UnmatchedAll(files, entries, forward) >= |e.pairs|
    decreases |entries|
  {
    if entries[0] != e {
      MissingFile(RewriteEntry(files, entries[0], forward), entries[1..], forward, e);
    }
  }

  lemma {:induction false} FailureOfEntry(files: map<string, string>, entries: seq<Entry>, e: Entry, failure: Failure)
    requires e in entries && failure in EntryFailures(files, e)
    ensures failure in LedgerFailures(files, entries)
  {
    if entries[0] != e {
      FailureOfEntry(files, entries[1..], e, failure);
    }
  }

  /** The files the commands read and write, by path. */
  class Worktree {
    var files: map<string, string>

    constructor (files: map<string, string>)
      ensures this.files == files
    {
      this.files := files;
    }

    /** `apply` (forward) or `strip`. */
    method Rewrite(entries: seq<Entry>, forward: bool) returns (done: nat, missing: nat, exit: int)
      modifies this
      ensures files == RewriteAll(old(files), entries, forward)
      ensures done == HitsAll(old(files), entries, forward)
      ensures missing == UnmatchedAll(old(files), entries, forward)
      ensures exit == 0 <==> missing == 0
      ensures exit == 0 || exit == 1
      ensures (exists e :: e in entries && e.path !in old(files) && e.pairs != []) ==> exit == 1
    {
      if e :| e in entries && e.path !in files && e.pairs != [] {
        MissingFile(files, entries, forward, e);
      }
      done, missing := 0, 0;
      for k := 0 to |entries|
        invariant RewriteAll(files, entries[k..], forward) == RewriteAll(old(files), entries, forward)
        invariant done + HitsAll(files, entries[k..], forward) == HitsAll(old(files), entries, forward)
        invariant missing + UnmatchedAll(files, entries[k..], forward) == UnmatchedAll(old(files), entries, forward)
      {
        assert entries[k..][0] == entries[k] && entries[k..][1..] == entries[k + 1..];
        var e := entries[k];
        if e.path !in files {
          missing := missing + |e.pairs|;
          continue;
        }
        var out, d, m := ApplyPairs(SplitKeep(ReadText(files[e.path])), e.pairs, forward);
        if d > 0 {
          files := files[e.path := Concat(out)];
        } else {
          assert files[e.path := files[e.path]] == files;
        }
        done := done + d;
        missing := missing + m;
      }
      exit := if missing == 0 then 0 else 1;
    }

    /** `verify`: reads only. */
    method Verify(entries: seq<Entry>) returns (exit: int, failures: seq<Failure>)
      ensures failures == LedgerFailures(files, entries)
      ensures exit == 0 <==> failures == []
      ensures exit == 0 || exit == 1
      ensures forall e :: e in entries && e.path !in files ==> FileMissing(e.path) in failures && exit == 1
    {
      failures := [];
      for k := 0 to |entries|
        invariant failures == LedgerFailures(files, entries[..k])
      {
        var e := entries[k];
        LedgerFailuresSnoc(files, entries[..k], e);
        assert entries[..k + 1] == entries[..k] + [e];
        if e.path !in files {
          failures := failures + [FileMissing(e.path)];
          continue;
        }
        var original := ReadText(files[e.path]);
        var stripped, _, missStrip := ApplyPairs(SplitKeep(original), e.pairs, false);
        var replayed, _, missApply := ApplyPairs(stripped, e.pairs, true);
        if Concat(replayed) != original {
          failures := failures + [ReplayDiffers(e.path)];
        } else if missStrip != 0 || missApply != 0 {
          failures := failures + [PairsUnmatched(e.path, missStrip, missApply)];
        }
      }
      assert entries[..|entries|] == entries;
      forall e | e in entries && e.path !in files
        ensures FileMissing(e.path) in failures
      {
        FailureOfEntry(files, entries, e, FileMissing(e.path));
      }
      exit := if failures == [] then 0 else 1;
    }
  }

  /** Strip then apply gives back the text of a file exactly when it gives back its lines. */
  lemma {:induction false} TextComesBack(text: string, pairs: seq<Pair<string>>)
    requires LineTexts(pairs) && NoOldIsNew(pairs) && Functional(pairs) && '\r' !in text
    ensures Concat(Replay(Replay(SplitKeep(text), pairs, false), pairs, true)) == text <==>
            EnoughAbove(Bodies(SplitKeep(text)), pairs)
  {
    var lines := SplitKeep(text);
    ReadTextExact(text);
    FileLinesOk(text);
    LineTextsChomped(pairs);
    StripApplyLines(lines, pairs);
    ReplaySplit(lines, pairs, false);
    ReplayBodies(lines, pairs, false);
    ReplaySplit(Replay(lines, pairs, false), pairs, true);
  }

  /** On a replayable ledger, `verify` reports a difference exactly when not enough new texts
      stand above the first old text, and accepts a file exactly when enough do and the file
      holds every new text, counted with repetition. */
  lemma VerifyExact(files: map<string, string>, e: Entry)
    requires e.path in files && LineTexts(e.pairs) && NoOldIsNew(e.pairs) && Functional(e.pairs)
    ensures var bodies := Bodies(FileLines(files[e.path]));
            && (EntryFailures(files, e) == [] <==>
                EnoughAbove(bodies, e.pairs) && Sources(e.pairs, false) <= multiset(bodies))
            && (EntryFailures(files, e) == [ReplayDiffers(e.path)] <==> !EnoughAbove(bodies, e.pairs))
  {
    var lines := FileLines(files[e.path]);
    FileLinesOk(files[e.path]);
    TextComesBack(ReadText(files[e.path]), e.pairs);
    LineTextsChomped(e.pairs);
    VerifyMisses(lines, e.pairs);
  }

  /** Both replays of `verify` match every pair exactly when the file holds every new text. */
  lemma {:induction false} VerifyMisses(lines: seq<string>, pairs: seq<Pair<string>>)
    requires Lines(lines) && Chomped(pairs) && NoOldIsNew(pairs)
    ensures Unmatched(lines, pairs, false) == 0 && Unmatched(Replay(lines, pairs, false), pairs, true) == 0 <==>
            Sources(pairs, false) <= multiset(Bodies(lines))
  {
    ReplayBodies(lines, pairs, false);
    MissesExact(Bodies(lines), pairs, false);
    if Unmatched(lines, pairs, false) == 0 {
      StripApplyMultiset(lines, pairs);
    }
  }

  /** Every entry names its own file, as the keys of a dictionary do. */
  ghost predicate DistinctPaths(entries: seq<Entry>) {
    forall i, j :: 0 <= i < j < |entries| ==> entries[i].path != entries[j].path
  }

  lemma {:induction false} RewriteAllAt(files: map<string, string>, entries: seq<Entry>, forward: bool, path: string)
    requires DistinctPaths(entries)
    ensures RewriteAll(files, entries, forward).Keys == files.Keys
    ensures path in files ==>
              RewriteAll(files, entries, forward)[path] ==
              if exists e :: e in entries && e.path == path
              then (var e :| e in entries && e.path == path; RewriteFile(files[path], e.pairs, forward))
              else files[path]
    decreases |entries|
  {
    if entries == [] {
    } else {
      var rest := entries[1..];
      var next := RewriteEntry(files, entries[0], forward);
      assert next.Keys == files.Keys;
      RewriteAllAt(next, rest, forward, path);
      if entries[0].path == path {
        assert entries[0] in entries;
        forall e | e in entries && e.path == path
          ensures e == entries[0]
        {
          var i :| 0 <= i < |entries| && entries[i] == e;
        }
        forall e | e in rest
          ensures e.path != path
        {
          var i :| 0 <= i < |rest| && rest[i] == e;
          assert entries[i + 1] == e;
        }
      } else {
        forall e, f | e in entries && f in entries && e.path == path == f.path
          ensures e == f && e in rest
        {
          var i :| 0 <= i < |entries| && entries[i] == e;
          var j :| 0 <= j < |entries| && entries[j] == f;
          assert rest[i - 1] == e;
        }
      }
    }
  }

  /** What it takes for one file of a tree to come back byte for byte. */
  predicate Restored(files: map<string, string>, e: Entry)
    requires e.path in files
  {
    && EnoughAbove(Bodies(FileLines(files[e.path])), e.pairs)
    && (Hits(files[e.path], e.pairs, false) == 0 || '\r' !in files[e.path])
  }

  lemma RewriteTwiceAt(files: map<string, string>, entries: seq<Entry>, path: string)
    requires DistinctPaths(entries)
    requires forall e :: e in entries ==> LineTexts(e.pairs) && NoOldIsNew(e.pairs) && Functional(e.pairs)
    ensures var back := RewriteAll(RewriteAll(files, entries, false), entries, true);
            && (path in back <==> path in files)
            && (path in files ==>
                  (back[path] == files[path] <==> forall e :: e in entries && e.path == path ==> Restored(files, e)))
  {
    var mid := RewriteAll(files, entries, false);
    var back := RewriteAll(mid, entries, true);
    RewriteAllAt(files, entries, false, path);
    RewriteAllAt(mid, entries, true, path);
    assert path in mid.Keys <==> path in files.Keys;
    assert path in back.Keys <==> path in mid.Keys;
    if path in files && exists e :: e in entries && e.path == path {
      var e :| e in entries && e.path == path;
      StripThenApplyFile(files[path], e.pairs);
      OneEntry(entries, e);
    }
  }

  lemma OneEntry(entries: seq<Entry>, e: Entry)
    requires DistinctPaths(entries) && e in entries
    ensures forall g :: g in entries && g.path == e.path ==> g == e
  {
    var i :| 0 <= i < |entries| && entries[i] == e;
    forall g | g in entries && g.path == e.path
      ensures g == e
    {
      var j :| 0 <= j < |entries| && entries[j] == g;
    }
  }

  /** Stripping the whole tree and applying again gives back the tree exactly when every file
      named by the ledger comes back; files it does not name are left alone. */
  lemma StripThenApplyTree(files: map<string, string>, entries: seq<Entry>)
    requires DistinctPaths(entries)
    requires forall e :: e in entries ==> LineTexts(e.pairs) && NoOldIsNew(e.pairs) && Functional(e.pairs)
    ensures RewriteAll(RewriteAll(files, entries, false), entries, true) == files <==>
            forall e :: e in entries && e.path in files ==> Restored(files, e)
  {
    var back := RewriteAll(RewriteAll(files, entries, false), entries, true);
    forall path
      ensures path in back <==> path in files
      ensures path in files ==>
                (back[path] == files[path] <==> forall e :: e in entries && e.path == path ==> Restored(files, e))
    {
      RewriteTwiceAt(files, entries, path);
    }
    assert back == files <==> forall path :: path in files ==> back[path] == files[path];
  }
}
