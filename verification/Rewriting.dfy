/** First-match rewriting of a sequence by a list of (old, new) pairs, in both directions.
    The line structure of files is added on top of this in module Ledger. */
module Rewriting {

  type Pair<T> = (T, T)

  /** A pair whose two sides are equal is skipped by the replay. */
  predicate Moves<T(==)>(p: Pair<T>) {
    p.0 != p.1
  }

  function Src<T>(p: Pair<T>, forward: bool): T {
    if forward then p.0 else p.1
  }

  function Dst<T>(p: Pair<T>, forward: bool): T {
    if forward then p.1 else p.0
  }

  /** Index of the first element equal to `x`, or the length when there is none. */
  function First<T(==)>(s: seq<T>, x: T): (i: nat)
    ensures i <= |s|
    ensures i < |s| ==> s[i] == x
    ensures forall j :: 0 <= j < i ==> s[j] != x
    ensures x in s <==> i < |s|
  {
    if s == [] || s[0] == x then 0 else First(s[1..], x) + 1
  }

  function Put<T(==)>(s: seq<T>, x: T, y: T): (r: seq<T>)
    ensures |r| == |s|
  {
    var i := First(s, x);
    if i < |s| then s[i := y] else s
  }

  function Run<T(==)>(s: seq<T>, ps: seq<Pair<T>>, forward: bool): (r: seq<T>)
    ensures |r| == |s|
    decreases |ps|
  {
    if ps == [] then s
    else Run(Put(s, Src(ps[0], forward), Dst(ps[0], forward)), ps[1..], forward)
  }

  /** How many moving pairs find nothing to replace. */
  function Misses<T(==)>(s: seq<T>, ps: seq<Pair<T>>, forward: bool): nat
    decreases |ps|
  {
    if ps == [] then 0
    else
      (if Moves(ps[0]) && Src(ps[0], forward) !in s then 1 else 0)
      + Misses(Put(s, Src(ps[0], forward), Dst(ps[0], forward)), ps[1..], forward)
  }

  /** The texts the moving pairs look for, as a multiset. */
  function Sources<T(==)>(ps: seq<Pair<T>>, forward: bool): multiset<T>
    decreases |ps|
  {
    if ps == [] then multiset{}
    else (if Moves(ps[0]) then multiset{Src(ps[0], forward)} else multiset{}) + Sources(ps[1..], forward)
  }

  // ----- the conditions of the round trip -----

  /** No text is both replaced and produced. */
  ghost predicate NoOldIsNew<T(!new)>(ps: seq<Pair<T>>) {
    forall p, q :: p in ps && q in ps && Moves(p) && Moves(q) ==> p.0 != q.1
  }

  /** One old text has one new text. */
  ghost predicate Functional<T(!new)>(ps: seq<Pair<T>>) {
    forall p, q :: p in ps && q in ps && Moves(p) && Moves(q) && p.0 == q.0 ==> p.1 == q.1
  }

  /** The file holds no old text yet. */
  ghost predicate Untouched<T(!new)>(s: seq<T>, ps: seq<Pair<T>>) {
    forall p :: p in ps && Moves(p) ==> p.0 !in s
  }

  // ----- elementary facts -----

  lemma PutCount<T>(s: seq<T>, x: T, y: T)
    ensures x in s ==> multiset(Put(s, x, y)) == multiset(s) - multiset{x} + multiset{y}
    ensures x !in s ==> Put(s, x, y) == s
  {
    if x in s {
      var i := First(s, x);
      assert multiset(s[i := y]) == multiset(s) - multiset{s[i]} + multiset{y};
    }
  }

  lemma {:induction false} RunAppend<T>(s: seq<T>, a: seq<Pair<T>>, b: seq<Pair<T>>, forward: bool)
    ensures Run(s, a + b, forward) == Run(Run(s, a, forward), b, forward)
    decreases |a|
  {
    if a == [] {
      assert a + b == b;
    } else {
      assert (a + b)[1..] == a[1..] + b;
      RunAppend(Put(s, Src(a[0], forward), Dst(a[0], forward)), a[1..], b, forward);
    }
  }

  /** A text no pair looks for is never removed. */
  lemma {:induction false} Persists<T(!new)>(s: seq<T>, ps: seq<Pair<T>>, forward: bool, x: T)
    requires x in s
    requires forall p :: p in ps && Moves(p) ==> Src(p, forward) != x
    ensures x in Run(s, ps, forward)
    decreases |ps|
  {
    if ps == [] {
    } else {
      var src, dst := Src(ps[0], forward), Dst(ps[0], forward);
      PutCount(s, src, dst);
      assert x in multiset(Put(s, src, dst));
      Persists(Put(s, src, dst), ps[1..], forward, x);
    }
  }

  // ----- one position -----

  /** How many earlier elements equal the one at `k`. */
  function Rank<T(==)>(s: seq<T>, k: nat): nat
    requires k < |s|
  {
    multiset(s[..k])[s[k]]
  }

  lemma RankStep<T>(s: seq<T>, x: T, y: T, k: nat)
    requires k < |s| && k != First(s, x) && s[k] != y
    ensures Put(s, x, y)[k] == s[k]
    ensures Rank(s, k) == Rank(Put(s, x, y), k) + if s[k] == x then 1 else 0
  {
    var i := First(s, x);
    if i < k {
      assert Put(s, x, y)[..k] == s[..k][i := y];
    } else {
      assert Put(s, x, y)[..k] == s[..k];
      assert s[k] != x;
    }
  }

  lemma {:induction false} SourceKnown<T(!new)>(ps: seq<Pair<T>>, forward: bool, p: Pair<T>)
    requires p in ps && Moves(p)
    ensures Sources(ps, forward)[Src(p, forward)] > 0
    decreases |ps|
  {
    if ps[0] != p {
      SourceKnown(ps[1..], forward, p);
    }
  }

  lemma {:induction false} NoSource<T(!new)>(ps: seq<Pair<T>>, forward: bool, x: T)
    requires forall p :: p in ps && Moves(p) ==> Src(p, forward) != x
    ensures Sources(ps, forward)[x] == 0
    decreases |ps|
  {
    if ps == [] {
    } else {
      NoSource(ps[1..], forward, x);
    }
  }

  /** What a run puts at a position: the element that was there, or the other side of a pair
      that looks for it. */
  lemma {:induction false} RunValue<T(!new)>(s: seq<T>, ps: seq<Pair<T>>, forward: bool, k: nat)
    requires k < |s| && NoOldIsNew(ps)
    ensures var after := Run(s, ps, forward)[k];
            after != s[k] ==> exists p :: p in ps && Moves(p) && Src(p, forward) == s[k] && Dst(p, forward) == after
    decreases |ps|
  {
    if ps == [] {
    } else {
      var src, dst := Src(ps[0], forward), Dst(ps[0], forward);
      assert ps[0] in ps;
      RunValue(Put(s, src, dst), ps[1..], forward, k);
    }
  }

  /** An element changes exactly when fewer equal ones stand before it than pairs look for it. */
  lemma {:induction false} RunChanges<T(!new)>(s: seq<T>, ps: seq<Pair<T>>, forward: bool, k: nat)
    requires k < |s| && NoOldIsNew(ps)
    ensures Run(s, ps, forward)[k] != s[k] <==> Rank(s, k) < Sources(ps, forward)[s[k]]
    decreases |ps|
  {
    if ps == [] {
    } else {
      var src, dst := Src(ps[0], forward), Dst(ps[0], forward);
      var next := Put(s, src, dst);
      assert ps[0] in ps;
      if Moves(ps[0]) && s[k] == dst {
        NoSource(ps, forward, dst);
        RunValue(s, ps, forward, k);
      } else if Moves(ps[0]) && k == First(s, src) {
        assert src !in s[..k];
        NoSource(ps, forward, dst);
        RunValue(next, ps[1..], forward, k);
      } else {
        if Moves(ps[0]) {
          RankStep(s, src, dst, k);
        } else {
          PutCount(s, src, dst);
          assert next == s;
        }
        RunChanges(next, ps[1..], forward, k);
      }
    }
  }

  /** A run works from the top: what it does above a line does not depend on what is below. */
  lemma {:induction false} RunAbove<T>(s: seq<T>, ps: seq<Pair<T>>, forward: bool, k: nat)
    requires k <= |s|
    ensures Run(s[..k], ps, forward) == Run(s, ps, forward)[..k]
    decreases |ps|
  {
    if ps == [] {
    } else {
      var src, dst := Src(ps[0], forward), Dst(ps[0], forward);
      PutAbove(s, src, dst, k);
      RunAbove(Put(s, src, dst), ps[1..], forward, k);
    }
  }

  lemma PutAbove<T>(s: seq<T>, x: T, y: T, k: nat)
    requires k <= |s|
    ensures Put(s[..k], x, y) == Put(s, x, y)[..k]
  {
    var i, j := First(s, x), First(s[..k], x);
    if i < k {
      assert s[..k][i] == x;
      assert i == j;
    } else {
      assert j == k;
    }
  }

  // ----- strip, then apply -----

  /** Pair `i` finds its new text among `above`, the pairs before it served first. */
  predicate Served<T(==)>(above: seq<T>, ps: seq<Pair<T>>, i: nat)
    requires i < |ps|
  {
    Sources(ps[..i + 1], false)[ps[i].1] <= multiset(above)[ps[i].1]
  }

  predicate AllServed<T(==)>(above: seq<T>, ps: seq<Pair<T>>, o: T) {
    forall i :: 0 <= i < |ps| && Moves(ps[i]) && ps[i].0 == o ==> Served(above, ps, i)
  }

  /** Where the file holds an old text, the lines above it hold enough copies of the new texts
      for every pair of that old text. */
  predicate EnoughAbove<T(==)>(s: seq<T>, ps: seq<Pair<T>>) {
    forall i :: 0 <= i < |ps| && Moves(ps[i]) && ps[i].0 in s ==> Served(s[..First(s, ps[i].0)], ps, i)
  }

  lemma UntouchedEnough<T(!new)>(s: seq<T>, ps: seq<Pair<T>>)
    requires Untouched(s, ps)
    ensures EnoughAbove(s, ps)
  {
  }

  lemma SourcesFirst<T>(ps: seq<Pair<T>>, i: nat, x: T)
    requires 0 < i < |ps|
    ensures Sources(ps[..i + 1], false)[x]
         == Sources(ps[1..][..i], false)[x] + if Moves(ps[0]) && ps[0].1 == x then 1 else 0
  {
    assert ps[..i + 1][1..] == ps[1..][..i];
  }

  lemma ServedStep<T(!new)>(s: seq<T>, ps: seq<Pair<T>>, i: nat)
    requires NoOldIsNew(ps) && 0 < i < |ps| && Moves(ps[i])
    ensures Served(s, ps, i) <==> Served(Put(s, ps[0].1, ps[0].0), ps[1..], i - 1)
  {
    assert ps[0] in ps && ps[i] in ps;
    PutCount(s, ps[0].1, ps[0].0);
    SourcesFirst(ps, i, ps[i].1);
    assert ps[1..][..i][i - 1] == ps[i];
    SourceKnown(ps[1..][..i], false, ps[i]);
  }

  lemma FirstServed<T(!new)>(s: seq<T>, ps: seq<Pair<T>>)
    requires ps != [] && Moves(ps[0])
    ensures Served(s, ps, 0) <==> ps[0].1 in s
  {
    assert ps[..1] == [ps[0]];
    assert Sources([ps[0]], false) == multiset{ps[0].1};
  }

  lemma AllServedStep<T(!new)>(s: seq<T>, ps: seq<Pair<T>>, o: T)
    requires NoOldIsNew(ps) && ps != []
    ensures AllServed(s, ps, o) <==>
              && (Moves(ps[0]) && ps[0].0 == o ==> ps[0].1 in s)
              && AllServed(Put(s, ps[0].1, ps[0].0), ps[1..], o)
  {
    var next, rest := Put(s, ps[0].1, ps[0].0), ps[1..];
    if Moves(ps[0]) {
      FirstServed(s, ps);
    }
    forall i | 0 <= i < |rest| && Moves(rest[i])
      ensures Served(s, ps, i + 1) <==> Served(next, rest, i)
    {
      ServedStep(s, ps, i + 1);
    }
    if AllServed(next, rest, o) && (Moves(ps[0]) && ps[0].0 == o ==> ps[0].1 in s) {
      forall i | 0 <= i < |ps| && Moves(ps[i]) && ps[i].0 == o
        ensures Served(s, ps, i)
      {
        assert i > 0 ==> ps[i] == rest[i - 1];
      }
    }
  }

  /** Stripping creates an old text at most once per pair that has it, and exactly once per
      pair when all of them are served. */
  lemma {:induction false} StripCreates<T(!new)>(s: seq<T>, ps: seq<Pair<T>>, o: T)
    requires NoOldIsNew(ps) && Sources(ps, false)[o] == 0
    ensures multiset(Run(s, ps, false))[o] <= multiset(s)[o] + Sources(ps, true)[o]
    ensures multiset(Run(s, ps, false))[o] == multiset(s)[o] + Sources(ps, true)[o] <==> AllServed(s, ps, o)
    decreases |ps|
  {
    if ps == [] {
    } else {
      assert ps[0] in ps;
      PutCount(s, ps[0].1, ps[0].0);
      StripCreates(Put(s, ps[0].1, ps[0].0), ps[1..], o);
      AllServedStep(s, ps, o);
    }
  }

  lemma {:induction false} CountBelow<T>(a: seq<T>, b: seq<T>, x: T)
    requires |a| == |b|
    requires forall k :: 0 <= k < |a| && a[k] == x ==> b[k] == x
    ensures multiset(a)[x] <= multiset(b)[x]
    ensures multiset(a)[x] == multiset(b)[x] ==> forall k :: 0 <= k < |a| && b[k] == x ==> a[k] == x
  {
    if a == [] {
    } else {
      assert a == [a[0]] + a[1..] && b == [b[0]] + b[1..];
      CountBelow(a[1..], b[1..], x);
      if multiset(a)[x] == multiset(b)[x] {
        forall k | 0 < k < |a| && b[k] == x
          ensures a[k] == x
        {
          assert b[1..][k - 1] == x;
        }
      }
    }
  }

  /** The texts the round trip is about: what strip puts where an old text ends up. */
  lemma OldText<T(!new)>(ps: seq<Pair<T>>, p: Pair<T>)
    requires NoOldIsNew(ps) && p in ps && Moves(p)
    ensures Sources(ps, false)[p.0] == 0 && Sources(ps, true)[p.0] > 0
  {
    NoSource(ps, false, p.0);
    SourceKnown(ps, true, p);
  }

  lemma StripAbove<T(!new)>(s: seq<T>, ps: seq<Pair<T>>, o: T)
    requires NoOldIsNew(ps) && Sources(ps, false)[o] == 0
    ensures var above := Run(s, ps, false)[..First(s, o)];
            && multiset(above)[o] <= Sources(ps, true)[o]
            && (multiset(above)[o] == Sources(ps, true)[o] <==> AllServed(s[..First(s, o)], ps, o))
  {
    var f := First(s, o);
    RunAbove(s, ps, false, f);
    StripCreates(s[..f], ps, o);
    assert o !in s[..f];
  }

  lemma {:induction false} StripKeeps<T(!new)>(s: seq<T>, ps: seq<Pair<T>>, o: T, k: nat)
    requires NoOldIsNew(ps) && Sources(ps, false)[o] == 0 && k < |s| && s[k] == o
    ensures Run(s, ps, false)[k] == o
  {
    RunChanges(s, ps, false, k);
  }

  lemma {:induction false} StripBelowCount<T(!new)>(s: seq<T>, ps: seq<Pair<T>>, o: T)
    requires NoOldIsNew(ps) && Sources(ps, false)[o] == 0 && AllServed(s[..First(s, o)], ps, o)
    ensures multiset(Run(s, ps, false)[First(s, o)..])[o] <= multiset(s[First(s, o)..])[o]
  {
    StripAbove(s, ps, o);
    StripCreates(s, ps, o);
    CountSplit(s, First(s, o), o);
    CountSplit(Run(s, ps, false), First(s, o), o);
  }

  /** If enough new texts stand above the first old text, the strip creates none below it. */
  lemma {:induction false} StripBelow<T(!new)>(s: seq<T>, ps: seq<Pair<T>>, o: T, k: nat)
    requires NoOldIsNew(ps) && Sources(ps, false)[o] == 0 && AllServed(s[..First(s, o)], ps, o)
    requires First(s, o) <= k < |s| && Run(s, ps, false)[k] == o
    ensures s[k] == o
  {
    var f := First(s, o);
    var was, now := s[f..], Run(s, ps, false)[f..];
    StripBelowCount(s, ps, o);
    forall j | 0 <= j < |was| && was[j] == o
      ensures now[j] == o
    {
      StripKeeps(s, ps, o, f + j);
    }
    SamePlaces(was, now, o, k - f);
  }

  lemma SamePlaces<T>(a: seq<T>, b: seq<T>, x: T, k: nat)
    requires |a| == |b| && multiset(b)[x] <= multiset(a)[x]
    requires forall j :: 0 <= j < |a| && a[j] == x ==> b[j] == x
    requires k < |b| && b[k] == x
    ensures a[k] == x
  {
    CountBelow(a, b, x);
  }

  lemma CountSplit<T>(s: seq<T>, f: nat, x: T)
    requires f <= |s|
    ensures multiset(s)[x] == multiset(s[..f])[x] + multiset(s[f..])[x]
  {
    assert s == s[..f] + s[f..];
  }

  /** An element comes back exactly when apply changes what strip changed. */
  lemma {:induction false} BackAt<T(!new)>(s: seq<T>, ps: seq<Pair<T>>, k: nat)
    requires NoOldIsNew(ps) && Functional(ps) && k < |s|
    ensures var stripped := Run(s, ps, false);
            Run(stripped, ps, true)[k] == s[k] <==>
            (stripped[k] != s[k] <==> Rank(stripped, k) < Sources(ps, true)[stripped[k]])
  {
    var stripped := Run(s, ps, false);
    RunValue(s, ps, false, k);
    RunValue(stripped, ps, true, k);
    RunChanges(stripped, ps, true, k);
  }

  lemma RankBelow<T>(s: seq<T>, k: nat, f: nat)
    requires k < f <= |s|
    ensures Rank(s, k) < multiset(s[..f])[s[k]]
  {
    assert s[..f] == s[..k] + [s[k]] + s[k + 1..f];
  }

  lemma RankAbove<T>(s: seq<T>, k: nat, f: nat)
    requires f <= k < |s|
    ensures Rank(s, k) >= multiset(s[..f])[s[k]]
  {
    assert s[..k] == s[..f] + s[f..k];
  }

  /** Enough above: every element comes back. */
  lemma {:induction false} ComesBackAt<T(!new)>(s: seq<T>, ps: seq<Pair<T>>, k: nat)
    requires NoOldIsNew(ps) && Functional(ps) && EnoughAbove(s, ps) && k < |s|
    ensures Run(Run(s, ps, false), ps, true)[k] == s[k]
  {
    var stripped := Run(s, ps, false);
    var o := stripped[k];
    BackAt(s, ps, k);
    RunValue(s, ps, false, k);
    if Sources(ps, true)[o] > 0 {
      var p := SourceOf(ps, true, o);
      OldText(ps, p);
      var f := First(s, o);
      StripAbove(s, ps, o);
      if k < f {
        RankBelow(stripped, k, f);
      } else {
        if o in s {
          StripBelow(s, ps, o, k);
        }
        RankAbove(stripped, k, f);
      }
    } else if o != s[k] {
      var p :| p in ps && Moves(p) && Src(p, false) == s[k] && Dst(p, false) == o;
      OldText(ps, p);
    }
  }

  /** Strip then apply gives back a file exactly when enough new texts stand above the first
      copy of each old text it holds. */
  lemma {:induction false} RoundTripExact<T(!new)>(s: seq<T>, ps: seq<Pair<T>>)
    requires NoOldIsNew(ps) && Functional(ps)
    ensures Run(Run(s, ps, false), ps, true) == s <==> EnoughAbove(s, ps)
  {
    var stripped := Run(s, ps, false);
    var back := Run(stripped, ps, true);
    if EnoughAbove(s, ps) {
      forall k | 0 <= k < |s|
        ensures back[k] == s[k]
      {
        ComesBackAt(s, ps, k);
      }
    }
    if back == s {
      forall i | 0 <= i < |ps| && Moves(ps[i]) && ps[i].0 in s
        ensures Served(s[..First(s, ps[i].0)], ps, i)
      {
        var o := ps[i].0;
        var f := First(s, o);
        OldText(ps, ps[i]);
        StripAbove(s, ps, o);
        StripKeeps(s, ps, o, f);
        BackAt(s, ps, f);
      }
    }
  }

  // ----- the round trip needs one new text per old text -----

  /** Stripping `m` copies of a new text by fewer than `m` pairs leaves one. */
  lemma {:induction false} StripLeaves<T(!new)>(s: seq<T>, rest: seq<Pair<T>>, x: T)
    requires forall p :: p in rest && Moves(p) ==> p.0 != x
    ensures multiset(Run(s, rest, false))[x] + Sources(rest, false)[x] >= multiset(s)[x]
    decreases |rest|
  {
    if rest == [] {
    } else {
      PutCount(s, rest[0].1, rest[0].0);
      StripLeaves(Put(s, rest[0].1, rest[0].0), rest[1..], x);
    }
  }

  lemma Copies<T>(n: nat, x: T) returns (s: seq<T>)
    ensures |s| == n && (forall y :: y in s ==> y == x) && multiset(s)[x] == n
  {
    s := [];
    while |s| < n
      invariant |s| <= n && (forall y :: y in s ==> y == x) && multiset(s)[x] == |s|
    {
      s := s + [x];
    }
  }

  /** The first pair with the old text of `ps[j]`. */
  lemma FirstWithOld<T(!new)>(ps: seq<Pair<T>>, j: nat) returns (a: nat)
    requires j < |ps| && Moves(ps[j])
    ensures a <= j && Moves(ps[a]) && ps[a].0 == ps[j].0
    ensures forall i :: 0 <= i < a && Moves(ps[i]) ==> ps[i].0 != ps[j].0
  {
    a := 0;
    while !(Moves(ps[a]) && ps[a].0 == ps[j].0)
      invariant a <= j
      invariant forall i :: 0 <= i < a && Moves(ps[i]) ==> ps[i].0 != ps[j].0
      decreases j - a
    {
      a := a + 1;
    }
  }

  lemma RunAround<T>(s: seq<T>, ps: seq<Pair<T>>, j: nat, forward: bool)
    requires j < |ps|
    ensures Run(s, ps, forward)
         == Run(Put(Run(s, ps[..j], forward), Src(ps[j], forward), Dst(ps[j], forward)), ps[j + 1..], forward)
  {
    assert ps == ps[..j] + ps[j..] && ps[j..][1..] == ps[j + 1..] && ps[j..][0] == ps[j];
    RunAppend(s, ps[..j], ps[j..], forward);
  }

  /** Pair `j` finds the text it looks for, and later pairs leave what it puts. */
  lemma Delivers<T(!new)>(s: seq<T>, ps: seq<Pair<T>>, j: nat, forward: bool)
    requires j < |ps| && Moves(ps[j])
    requires Src(ps[j], forward) in Run(s, ps[..j], forward)
    requires forall p :: p in ps && Moves(p) ==> Src(p, forward) != Dst(ps[j], forward)
    ensures Dst(ps[j], forward) in Run(s, ps, forward)
  {
    var x, y := Src(ps[j], forward), Dst(ps[j], forward);
    var mid := Run(s, ps[..j], forward);
    PutCount(mid, x, y);
    assert y in multiset(Put(mid, x, y));
    Persists(Put(mid, x, y), ps[j + 1..], forward, y);
    RunAround(s, ps, j, forward);
  }

  /** If two pairs share an old text but not the new one, some file is not given back. */
  lemma Breaks<T(!new)>(ps: seq<Pair<T>>, a: nat, j: nat) returns (s: seq<T>)
    requires NoOldIsNew(ps)
    requires a < j < |ps| && Moves(ps[a]) && Moves(ps[j]) && ps[a].0 == ps[j].0 && ps[a].1 != ps[j].1
    requires forall i :: 0 <= i < a && Moves(ps[i]) ==> ps[i].0 != ps[j].0
    ensures Untouched(s, ps) && Run(Run(s, ps, false), ps, true) != s
    ensures forall x :: x in s ==> x == ps[j].1
  {
    var o, n2 := ps[j].0, ps[j].1;
    assert ps[j] in ps && ps[a] in ps;
    s := Copies(Sources(ps[..j], false)[n2] + 1, n2);
    // the pairs before j leave one n2, and pair j turns an n2 into o
    StripLeaves(s, ps[..j], n2);
    assert n2 in Run(s, ps[..j], false);
    Delivers(s, ps, j, false);
    // pair a is the first to look for o, and puts another text there
    Persists(Run(s, ps, false), ps[..a], true, o);
    Delivers(Run(s, ps, false), ps, a, true);
  }

  /** A file of new texts only that a ledger does not give back. */
  lemma SomeFileBreaks<T(!new)>(ps: seq<Pair<T>>) returns (s: seq<T>)
    requires NoOldIsNew(ps) && !Functional(ps)
    ensures Untouched(s, ps) && Run(Run(s, ps, false), ps, true) != s
    ensures forall x :: x in s ==> exists p :: p in ps && Moves(p) && p.1 == x
  {
    var p, q :| p in ps && q in ps && Moves(p) && Moves(q) && p.0 == q.0 && p.1 != q.1;
    var i :| 0 <= i < |ps| && ps[i] == p;
    var j :| 0 <= j < |ps| && ps[j] == q;
    var a := FirstWithOld(ps, i);
    if a < i && ps[a].1 != p.1 {
      s := Breaks(ps, a, i);
    } else {
      var b := FirstWithOld(ps, j);
      assert a == b;
      s := Breaks(ps, a, j);
    }
  }

  /** A ledger gives back every file without old texts exactly when each old text has one
      new text. */
  lemma ReplayableIffFunctional<T(!new)>(ps: seq<Pair<T>>)
    requires NoOldIsNew(ps)
    ensures (forall s: seq<T> :: Untouched(s, ps) ==> Run(Run(s, ps, false), ps, true) == s) <==> Functional(ps)
  {
    if Functional(ps) {
      forall s: seq<T> | Untouched(s, ps)
        ensures Run(Run(s, ps, false), ps, true) == s
      {
        UntouchedEnough(s, ps);
        RoundTripExact(s, ps);
      }
    } else {
      var s := SomeFileBreaks(ps);
    }
  }

  // ----- misses and multisets -----

  lemma {:induction false} BalanceAt<T(!new)>(s: seq<T>, ps: seq<Pair<T>>, forward: bool, x: T)
    requires Misses(s, ps, forward) == 0
    ensures multiset(Run(s, ps, forward))[x] + Sources(ps, forward)[x] == multiset(s)[x] + Sources(ps, !forward)[x]
    decreases |ps|
  {
    if ps == [] {
    } else {
      var src, dst := Src(ps[0], forward), Dst(ps[0], forward);
      PutCount(s, src, dst);
      BalanceAt(Put(s, src, dst), ps[1..], forward, x);
    }
  }

  /** A run without misses exchanges its sources for its destinations. */
  lemma Balance<T(!new)>(s: seq<T>, ps: seq<Pair<T>>, forward: bool)
    requires Misses(s, ps, forward) == 0
    ensures multiset(Run(s, ps, forward)) + Sources(ps, forward) == multiset(s) + Sources(ps, !forward)
  {
    forall x
      ensures (multiset(Run(s, ps, forward)) + Sources(ps, forward))[x] == (multiset(s) + Sources(ps, !forward))[x]
    {
      BalanceAt(s, ps, forward, x);
    }
  }

  /** Nothing is missed when the file holds every source, counted with repetition. */
  lemma {:induction false} Suffices<T(!new)>(s: seq<T>, ps: seq<Pair<T>>, forward: bool)
    requires Sources(ps, forward) <= multiset(s)
    ensures Misses(s, ps, forward) == 0
    decreases |ps|
  {
    if ps == [] {
    } else {
      var src, dst := Src(ps[0], forward), Dst(ps[0], forward);
      PutCount(s, src, dst);
      if Moves(ps[0]) {
        assert Sources(ps, forward)[src] >= 1;
        assert src in multiset(s);
      }
      Suffices(Put(s, src, dst), ps[1..], forward);
    }
  }

  /** Without old texts among the new ones, that is also necessary. */
  lemma MissesExact<T(!new)>(s: seq<T>, ps: seq<Pair<T>>, forward: bool)
    requires NoOldIsNew(ps)
    ensures Misses(s, ps, forward) == 0 <==> Sources(ps, forward) <= multiset(s)
  {
    if Misses(s, ps, forward) == 0 {
      forall x
        ensures Sources(ps, forward)[x] <= multiset(s)[x]
      {
        BalanceAt(s, ps, forward, x);
        if Sources(ps, forward)[x] > 0 && Sources(ps, !forward)[x] > 0 {
          var p := SourceOf(ps, forward, x);
          var q := SourceOf(ps, !forward, x);
          assert false;
        }
      }
    } else if Sources(ps, forward) <= multiset(s) {
      Suffices(s, ps, forward);
    }
  }

  lemma {:induction false} SourceOf<T(!new)>(ps: seq<Pair<T>>, forward: bool, x: T) returns (p: Pair<T>)
    requires Sources(ps, forward)[x] > 0
    ensures p in ps && Moves(p) && Src(p, forward) == x
    decreases |ps|
  {
    if Moves(ps[0]) && Src(ps[0], forward) == x {
      p := ps[0];
    } else {
      p := SourceOf(ps[1..], forward, x);
    }
  }

  /** A strip without misses is undone up to the order of lines, several new texts for one
      old text included. */
  lemma RoundTripMultiset<T(!new)>(s: seq<T>, ps: seq<Pair<T>>)
    requires NoOldIsNew(ps) && Misses(s, ps, false) == 0
    ensures Misses(Run(s, ps, false), ps, true) == 0
    ensures multiset(Run(Run(s, ps, false), ps, true)) == multiset(s)
  {
    var stripped := Run(s, ps, false);
    MissesExact(s, ps, false);
    forall x
      ensures Sources(ps, true)[x] <= multiset(stripped)[x]
    {
      BalanceAt(s, ps, false, x);
    }
    Suffices(stripped, ps, true);
    forall x
      ensures multiset(Run(stripped, ps, true))[x] == multiset(s)[x]
    {
      BalanceAt(s, ps, false, x);
      BalanceAt(stripped, ps, true, x);
    }
  }
}
