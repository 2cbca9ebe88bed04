/** Pairing removed and added lines that differ by a brand rename only. */
module RenamePairs {
  import opened Brand
  import opened Rewriting

  predicate Pairable(removed: string, added: string) {
    HasBrand(removed) && HasBrand(added) && removed != added && Normalize(removed) == Normalize(added)
  }

  function Without<T>(s: seq<T>, i: nat): seq<T>
    requires i < |s|
  {
    s[..i] + s[i + 1..]
  }

  /** Index of the first removed line that pairs with `line`, or the length. */
  function FirstPairable(removed: seq<string>, line: string): (i: nat)
    ensures i <= |removed|
    ensures i < |removed| ==> Pairable(removed[i], line)
    ensures forall j :: 0 <= j < i ==> !Pairable(removed[j], line)
  {
    if removed == [] || Pairable(removed[0], line) then 0 else FirstPairable(removed[1..], line) + 1
  }

  /** The pairing as a plain search: each added line takes the first unused removed line. */
  function Greedy(removed: seq<string>, added: seq<string>): seq<Pair<string>>
    decreases |added|
  {
    if added == [] then []
    else
      var i := FirstPairable(removed, added[0]);
      if i == |removed| then Greedy(removed, added[1..])
      else [(removed[i], added[0])] + Greedy(Without(removed, i), added[1..])
  }

  // ----- the pool of buckets computes the same pairs -----

  /** The branded lines with normal form `key`, in order. */
  function Bucket(lines: seq<string>, key: string): seq<string> {
    if lines == [] then []
    else (if HasBrand(lines[0]) && Normalize(lines[0]) == key then [lines[0]] else []) + Bucket(lines[1..], key)
  }

  function Get(pool: map<string, seq<string>>, key: string): seq<string> {
    if key in pool then pool[key] else []
  }

  ghost predicate Indexes(pool: map<string, seq<string>>, lines: seq<string>) {
    forall key :: Get(pool, key) == Bucket(lines, key)
  }

  lemma {:induction false} BucketAppend(a: seq<string>, b: seq<string>, key: string)
    ensures Bucket(a + b, key) == Bucket(a, key) + Bucket(b, key)
  {
    if a == [] {
      assert a + b == b;
    } else {
      assert (a + b)[1..] == a[1..] + b;
      BucketAppend(a[1..], b, key);
    }
  }

  lemma {:induction false} InBucket(lines: seq<string>, j: nat)
    requires j < |lines| && HasBrand(lines[j])
    ensures lines[j] in Bucket(lines, Normalize(lines[j]))
  {
    if j == 0 {
    } else {
      InBucket(lines[1..], j - 1);
    }
  }

  /** Nothing pairs with an unbranded line. */
  lemma UnbrandedUnpaired(lines: seq<string>, line: string)
    requires !HasBrand(line)
    ensures FirstPairable(lines, line) == |lines|
  {
  }

  lemma InOwnBucket(lines: seq<string>, line: string, key: string, j: nat)
    requires forall l :: l in Bucket(lines, key) ==> l == line
    requires j < |lines| && Normalize(lines[j]) == key
    ensures !Pairable(lines[j], line)
  {
    if HasBrand(lines[j]) {
      InBucket(lines, j);
    }
  }

  /** Nothing pairs with a line when its bucket holds copies of it only. */
  lemma NonePairable(lines: seq<string>, line: string, key: string)
    requires key == Normalize(line)
    requires forall l :: l in Bucket(lines, key) ==> l == line
    ensures FirstPairable(lines, line) == |lines|
  {
    var i := FirstPairable(lines, line);
    if i < |lines| {
      InOwnBucket(lines, line, key, i);
    }
  }

  /** Where the line at `index` of a bucket stands among all lines. */
  lemma {:induction false} BucketPosition(lines: seq<string>, key: string, index: nat) returns (i: nat)
    requires index < |Bucket(lines, key)|
    ensures i < |lines| && lines[i] == Bucket(lines, key)[index]
    ensures HasBrand(lines[i]) && Normalize(lines[i]) == key
    ensures Bucket(lines[..i], key) == Bucket(lines, key)[..index]
  {
    var mine := HasBrand(lines[0]) && Normalize(lines[0]) == key;
    if mine && index == 0 {
      i := 0;
    } else {
      var i' := BucketPosition(lines[1..], key, if mine then index - 1 else index);
      i := i' + 1;
      assert lines[..i] == [lines[0]] + lines[1..][..i'];
    }
  }

  /** The first line of the bucket that differs from `line` is the first pairable line. */
  lemma BucketFirst(lines: seq<string>, line: string, index: nat) returns (i: nat)
    requires HasBrand(line)
    requires index < |Bucket(lines, Normalize(line))| && Bucket(lines, Normalize(line))[index] != line
    requires forall j :: 0 <= j < index ==> Bucket(lines, Normalize(line))[j] == line
    ensures i == FirstPairable(lines, line) < |lines| && lines[i] == Bucket(lines, Normalize(line))[index]
    ensures Bucket(lines[..i], Normalize(line)) == Bucket(lines, Normalize(line))[..index]
  {
    i := BucketPosition(lines, Normalize(line), index);
    NonePairable(lines[..i], line, Normalize(line));
    assert Pairable(lines[i], line);
    forall j | 0 <= j < i
      ensures !Pairable(lines[j], line)
    {
      assert lines[..i][j] == lines[j];
    }
  }

  lemma BucketAround(lines: seq<string>, i: nat, key: string)
    requires i < |lines|
    ensures Bucket(lines, key) == Bucket(lines[..i], key) + (Bucket([lines[i]], key) + Bucket(lines[i + 1..], key))
    ensures Bucket(Without(lines, i), key) == Bucket(lines[..i], key) + Bucket(lines[i + 1..], key)
  {
    var a, b := lines[..i], lines[i + 1..];
    assert lines == a + ([lines[i]] + b);
    BucketAppend(a, [lines[i]] + b, key);
    BucketAppend([lines[i]], b, key);
    BucketAppend(a, b, key);
  }

  lemma BucketOne(line: string, key: string)
    ensures Bucket([line], key) == if HasBrand(line) && Normalize(line) == key then [line] else []
  {
    assert Bucket([line][1..], key) == [];
  }

  lemma WithoutMiddle<T>(a: seq<T>, x: T, b: seq<T>)
    ensures Without(a + ([x] + b), |a|) == a + b
  {
  }

  lemma BucketWithoutOther(lines: seq<string>, i: nat, key: string)
    requires i < |lines| && key != Normalize(lines[i])
    ensures Bucket(Without(lines, i), key) == Bucket(lines, key)
  {
    BucketAround(lines, i, key);
    BucketOne(lines[i], key);
    assert [] + Bucket(lines[i + 1..], key) == Bucket(lines[i + 1..], key);
  }

  lemma BucketWithoutOwn(lines: seq<string>, i: nat, key: string)
    requires i < |lines| && HasBrand(lines[i]) && key == Normalize(lines[i])
    ensures var index := |Bucket(lines[..i], key)|;
            index < |Bucket(lines, key)| && Bucket(Without(lines, i), key) == Without(Bucket(lines, key), index)
  {
    BucketAround(lines, i, key);
    BucketOne(lines[i], key);
    WithoutMiddle(Bucket(lines[..i], key), lines[i], Bucket(lines[i + 1..], key));
  }

  /** Deleting a line from its bucket deletes it from the indexed lines. */
  lemma BucketWithout(lines: seq<string>, i: nat, index: nat, key: string)
    requires i < |lines| && HasBrand(lines[i])
    requires var own := Normalize(lines[i]);
             index < |Bucket(lines, own)| && Bucket(lines[..i], own) == Bucket(lines, own)[..index]
    ensures Bucket(Without(lines, i), key)
         == if key == Normalize(lines[i]) then Without(Bucket(lines, key), index) else Bucket(lines, key)
  {
    if key == Normalize(lines[i]) {
      BucketWithoutOwn(lines, i, key);
    } else {
      BucketWithoutOther(lines, i, key);
    }
  }

  lemma AddLine(pool: map<string, seq<string>>, lines: seq<string>, line: string)
    requires Indexes(pool, lines)
    ensures HasBrand(line) ==> Indexes(pool[Normalize(line) := Get(pool, Normalize(line)) + [line]], lines + [line])
    ensures !HasBrand(line) ==> Indexes(pool, lines + [line])
  {
    forall key
      ensures Bucket(lines + [line], key)
           == Bucket(lines, key) + if HasBrand(line) && Normalize(line) == key then [line] else []
    {
      BucketAppend(lines, [line], key);
      assert Bucket([line][1..], key) == [];
    }
  }

  lemma TakeLine(pool: map<string, seq<string>>, rest: seq<string>, line: string, index: nat) returns (i: nat)
    requires Indexes(pool, rest) && HasBrand(line)
    requires var bucket := Get(pool, Normalize(line));
             index < |bucket| && bucket[index] != line && forall j :: 0 <= j < index ==> bucket[j] == line
    ensures i == FirstPairable(rest, line) < |rest| && rest[i] == Get(pool, Normalize(line))[index]
    ensures Indexes(pool[Normalize(line) := Without(Get(pool, Normalize(line)), index)], Without(rest, i))
  {
    assert Get(pool, Normalize(line)) == Bucket(rest, Normalize(line));
    i := BucketFirst(rest, line, index);
    forall key { BucketWithout(rest, i, index, key); }
  }

  /** The branded removed lines by normal form, in order. */
  method BuildPool(removed: seq<string>) returns (pool: map<string, seq<string>>)
    ensures Indexes(pool, removed)
  {
    pool := map[];
    for n := 0 to |removed|
      invariant Indexes(pool, removed[..n])
    {
      var line := removed[n];
      AddLine(pool, removed[..n], line);
      assert removed[..n + 1] == removed[..n] + [line];
      if HasBrand(line) {
        pool := pool[Normalize(line) := Get(pool, Normalize(line)) + [line]];
      }
    }
    assert removed[..|removed|] == removed;
  }

  lemma GreedyStep(rest: seq<string>, added: seq<string>, n: nat)
    requires n < |added|
    ensures var i := FirstPairable(rest, added[n]);
            Greedy(rest, added[n..]) ==
            if i == |rest| then Greedy(rest, added[n + 1..])
            else [(rest[i], added[n])] + Greedy(Without(rest, i), added[n + 1..])
  {
    assert added[n..][0] == added[n] && added[n..][1..] == added[n + 1..];
  }

  /** Buckets by normal form, searched first to last, give the pairs of the plain search. */
  method PairRenameLines(removed: seq<string>, added: seq<string>) returns (pairs: seq<Pair<string>>)
    ensures pairs == Greedy(removed, added)
  {
    var pool := BuildPool(removed);
    pairs := [];
    ghost var rest := removed;
    assert added[0..] == added;
    for n := 0 to |added|
      invariant Indexes(pool, rest)
      invariant pairs + Greedy(rest, added[n..]) == Greedy(removed, added)
    {
      var line := added[n];
      GreedyStep(rest, added, n);
      if !HasBrand(line) {
        UnbrandedUnpaired(rest, line);
        continue;
      }
      var key := Normalize(line);
      var bucket := Get(pool, key);
      assert bucket == Bucket(rest, key);
      if bucket == [] {
        NonePairable(rest, line, key);
        continue;
      }
      var index := FirstOther(bucket, line);
      if index < |bucket| {
        ghost var i := TakeLine(pool, rest, line, index);
        pool := pool[key := Without(bucket, index)];
        pairs := pairs + [(bucket[index], line)];
        rest := Without(rest, i);
      } else {
        NonePairable(rest, line, key);
      }
    }
  }

  /** The first line of the bucket that is not byte-identical to the added line. */
  method FirstOther(bucket: seq<string>, line: string) returns (index: nat)
    ensures index <= |bucket| && (index < |bucket| ==> bucket[index] != line)
    ensures forall j :: 0 <= j < index ==> bucket[j] == line
  {
    for i := 0 to |bucket|
      invariant forall j :: 0 <= j < i ==> bucket[j] == line
    {
      if bucket[i] != line {
        return i;
      }
    }
    index := |bucket|;
  }

  // ----- what the pairs are -----

  /** A counted pair is a brand rename and nothing else exactly when tokens stand for tokens. */
  lemma {:induction false} PairIsRename(removed: seq<string>, added: seq<string>, p: Pair<string>)
    requires p in Greedy(removed, added)
    ensures Respelling(p.0, p.1) <==> Marks(p.0) == Marks(p.1)
  {
    GreedyValid(removed, added);
    RenameExact(p.0, p.1);
  }

  lemma Blank(rest: string)
    ensures Normalize(" " + rest) == " " + Normalize(rest) && Marks(" " + rest) == Marks(rest)
  {
    var s := " " + rest;
    assert s[0] == ' ' && s[1..] == rest;
    assert BrandLen(s) == 0;
  }

  lemma EndsThere(last: string)
    requires Respelled(last)
    ensures Normalize(last) == [PLACEHOLDER] && Marks(last) == [IsBrand(last)]
  {
    TokenAtHead(last, "");
    assert last + "" == last;
  }

  /** A line of two tokens with a blank between them, the second one possibly a NUL. */
  lemma TwoTokens(first: string, last: string)
    requires IsBrand(first) && Respelled(last)
    ensures var line := first + (" " + last);
            && Normalize(line) == [PLACEHOLDER] + (" " + [PLACEHOLDER])
            && Marks(line) == [true] + [IsBrand(last)]
            && HasBrand(line)
  {
    TokenAtHead(first, " " + last);
    Blank(last);
    EndsThere(last);
    StillThere(first, " " + last);
  }

  lemma StillThere(first: string, rest: string)
    requires IsBrand(first)
    ensures HasBrand(first + rest)
  {
    assert forall i :: 0 <= i < |first| ==> (first + rest)[i] == first[i];
  }

  /** With a NUL in a line, the gate counts the deletion of a brand token as a rename. */
  lemma NulLooksLikeRename(token: string)
    requires IsBrand(token)
    ensures var r, a := token + (" " + token), token + (" " + [PLACEHOLDER]);
            Greedy([r], [a]) == [(r, a)] && !Respelling(r, a)
  {
    var r, a := token + (" " + token), token + (" " + [PLACEHOLDER]);
    BrandLetters();
    assert |r| > |a|;
    TwoTokens(token, token);
    TwoTokens(token, [PLACEHOLDER]);
    assert Marks(r)[1] != Marks(a)[1];
    RenameExact(r, a);
    PairsOne(r, a);
  }

  lemma PairsOne(r: string, a: string)
    requires Pairable(r, a)
    ensures Greedy([r], [a]) == [(r, a)]
  {
    assert Without([r], 0) == [] && [a][1..] == [];
    assert FirstPairable([r], a) == 0;
  }

  /** A pairing uses each occurrence of a removed and of an added line at most once. */
  ghost predicate ValidPairing(ps: seq<Pair<string>>, removed: seq<string>, added: seq<string>) {
    && (forall p :: p in ps ==> Pairable(p.0, p.1))
    && Sources(ps, true) <= multiset(removed)
    && Sources(ps, false) <= multiset(added)
  }

  /** No unused removed line pairs with an unused added line. */
  ghost predicate Maximal(ps: seq<Pair<string>>, removed: seq<string>, added: seq<string>) {
    forall r, a :: Sources(ps, true)[r] < multiset(removed)[r] && Sources(ps, false)[a] < multiset(added)[a]
                   ==> !Pairable(r, a)
  }

  lemma WithoutCount(s: seq<string>, i: nat)
    requires i < |s|
    ensures multiset(Without(s, i)) == multiset(s) - multiset{s[i]}
  {
    assert s == s[..i] + [s[i]] + s[i + 1..];
  }

  lemma {:induction false} GreedyValid(removed: seq<string>, added: seq<string>)
    ensures ValidPairing(Greedy(removed, added), removed, added)
    decreases |added|
  {
    if added == [] {
    } else {
      var i := FirstPairable(removed, added[0]);
      assert added == [added[0]] + added[1..];
      if i == |removed| {
        GreedyValid(removed, added[1..]);
      } else {
        GreedyValid(Without(removed, i), added[1..]);
        WithoutCount(removed, i);
        var ps := Greedy(removed, added);
        assert ps[1..] == Greedy(Without(removed, i), added[1..]);
      }
    }
  }

  lemma {:induction false} GreedyMaximalAt(removed: seq<string>, added: seq<string>, r: string, a: string)
    requires Sources(Greedy(removed, added), true)[r] < multiset(removed)[r]
    requires Sources(Greedy(removed, added), false)[a] < multiset(added)[a]
    ensures !Pairable(r, a)
    decreases |added|
  {
    if added == [] {
    } else {
      var i := FirstPairable(removed, added[0]);
      assert added == [added[0]] + added[1..];
      if i == |removed| {
        assert r in removed;
        if a != added[0] {
          GreedyMaximalAt(removed, added[1..], r, a);
        }
      } else {
        WithoutCount(removed, i);
        var ps := Greedy(removed, added);
        assert ps[1..] == Greedy(Without(removed, i), added[1..]);
        GreedyMaximalAt(Without(removed, i), added[1..], r, a);
      }
    }
  }

  /** The pairs form a maximal matching. */
  lemma {:induction false} GreedyMaximal(removed: seq<string>, added: seq<string>)
    ensures Maximal(Greedy(removed, added), removed, added)
  {
    var ps := Greedy(removed, added);
    forall r, a | Sources(ps, true)[r] < multiset(removed)[r] && Sources(ps, false)[a] < multiset(added)[a]
      ensures !Pairable(r, a)
    {
      GreedyMaximalAt(removed, added, r, a);
    }
  }

  lemma {:induction false} SourcesSize(ps: seq<Pair<string>>, forward: bool)
    requires forall p :: p in ps ==> Moves(p)
    ensures |Sources(ps, forward)| == |ps|
    decreases |ps|
  {
    if ps == [] {
    } else {
      SourcesSize(ps[1..], forward);
    }
  }

  lemma SmallerMultiset<T>(a: multiset<T>, b: multiset<T>)
    requires a <= b
    ensures |a| <= |b|
  {
    assert b == a + (b - a);
  }

  /** The pairs of `ps` whose old text is in `full`, and the others. */
  lemma {:induction false} Split(ps: seq<Pair<string>>, full: iset<string>)
    returns (hit: seq<Pair<string>>, rest: seq<Pair<string>>)
    requires forall p :: p in ps ==> Moves(p)
    ensures |hit| + |rest| == |ps|
    ensures forall p :: p in hit ==> p in ps && p.0 in full
    ensures forall p :: p in rest ==> p in ps && p.0 !in full
    ensures forall f :: Sources(hit, f) + Sources(rest, f) == Sources(ps, f)
    decreases |ps|
  {
    hit, rest := [], [];
    if ps != [] {
      var h, r := Split(ps[1..], full);
      if ps[0].0 in full {
        hit, rest := [ps[0]] + h, r;
        assert hit[1..] == h;
      } else {
        hit, rest := h, [ps[0]] + r;
        assert rest[1..] == r;
      }
    }
  }

  /** A maximal pairing has at least half as many pairs as any other valid one. */
  lemma HalfOfAny(ps: seq<Pair<string>>, other: seq<Pair<string>>, removed: seq<string>, added: seq<string>)
    requires ValidPairing(ps, removed, added) && Maximal(ps, removed, added)
    requires ValidPairing(other, removed, added)
    ensures |other| <= 2 * |ps|
  {
    var full := iset r | Sources(ps, true)[r] >= multiset(removed)[r];
    var hit, rest := Split(other, full);
    forall x
      ensures Sources(hit, true)[x] <= Sources(ps, true)[x]
    {
      if x !in full { NoSource(hit, true, x); }
    }
    forall x
      ensures Sources(rest, false)[x] <= Sources(ps, false)[x]
    {
      if Sources(ps, false)[x] < multiset(added)[x] {
        forall p | p in rest
          ensures p.1 != x
        {
          var r := p.0;
          assert Pairable(p.0, p.1);
          assert Sources(ps, true)[r] < multiset(removed)[r];
        }
        NoSource(rest, false, x);
      }
    }
    SmallerMultiset(Sources(hit, true), Sources(ps, true));
    SmallerMultiset(Sources(rest, false), Sources(ps, false));
    SourcesSize(hit, true);
    SourcesSize(rest, false);
    SourcesSize(ps, true);
    SourcesSize(ps, false);
  }

  /** The pairing the gate counts is at least half of the best one. */
  lemma {:induction false} GreedyHalfOptimal(removed: seq<string>, added: seq<string>, other: seq<Pair<string>>)
    requires ValidPairing(other, removed, added)
    ensures |other| <= 2 * |Greedy(removed, added)|
  {
    GreedyValid(removed, added);
    GreedyMaximal(removed, added);
    HalfOfAny(Greedy(removed, added), other, removed, added);
  }

  // ----- when the pairing is maximum -----

  /** An occurrence of the line is left unused. */
  predicate Unused(ps: seq<Pair<string>>, lines: seq<string>, forward: bool, x: string) {
    Sources(ps, forward)[x] < multiset(lines)[x]
  }

  ghost predicate SomeUnused(ps: seq<Pair<string>>, lines: seq<string>, forward: bool, key: string) {
    exists x :: HasBrand(x) && Normalize(x) == key && Unused(ps, lines, forward, x)
  }

  /** A line is left unused on both sides while a pair of its normal form does without it. */
  ghost predicate Blocked(ps: seq<Pair<string>>, removed: seq<string>, added: seq<string>) {
    exists x, i ::
      && 0 <= i < |ps| && HasBrand(x) && Normalize(ps[i].0) == Normalize(x) && ps[i].0 != x && ps[i].1 != x
      && Unused(ps, removed, true, x) && Unused(ps, added, false, x)
  }

  /** The removed lines of a cover: every possible pair uses one of them or one of CoverAdded. */
  ghost predicate CoverRemoved(ps: seq<Pair<string>>, removed: seq<string>, added: seq<string>, r: string) {
    && !Unused(ps, removed, true, r)
    && (SomeUnused(ps, removed, true, Normalize(r)) ==> SomeUnused(ps, added, false, Normalize(r)))
  }

  ghost predicate CoverAdded(ps: seq<Pair<string>>, removed: seq<string>, added: seq<string>, a: string) {
    !Unused(ps, added, false, a) && SomeUnused(ps, removed, true, Normalize(a))
  }

  lemma Covered(ps: seq<Pair<string>>, removed: seq<string>, added: seq<string>, r: string, a: string)
    requires Maximal(ps, removed, added) && Pairable(r, a)
    ensures CoverRemoved(ps, removed, added, r) || CoverAdded(ps, removed, added, a)
  {
  }

  lemma {:induction false} UnusedTwice(ps: seq<Pair<string>>, removed: seq<string>, added: seq<string>, key: string)
    returns (x: string)
    requires Maximal(ps, removed, added)
    requires SomeUnused(ps, removed, true, key) && SomeUnused(ps, added, false, key)
    ensures HasBrand(x) && Normalize(x) == key && Unused(ps, removed, true, x) && Unused(ps, added, false, x)
  {
    x :| HasBrand(x) && Normalize(x) == key && Unused(ps, removed, true, x);
    var y :| HasBrand(y) && Normalize(y) == key && Unused(ps, added, false, y);
    assert !Pairable(x, y);
  }

  /** Without a block, no pair uses the cover twice. */
  lemma CoveredOnce(ps: seq<Pair<string>>, removed: seq<string>, added: seq<string>, i: nat)
    requires Maximal(ps, removed, added) && !Blocked(ps, removed, added)
    requires i < |ps| && Pairable(ps[i].0, ps[i].1)
    ensures !(CoverRemoved(ps, removed, added, ps[i].0) && CoverAdded(ps, removed, added, ps[i].1))
  {
    if CoverRemoved(ps, removed, added, ps[i].0) && CoverAdded(ps, removed, added, ps[i].1) {
      var x := UnusedTwice(ps, removed, added, Normalize(ps[i].0));
    }
  }

  /** Without a block, a maximal pairing is as large as any other. */
  lemma UnblockedMaximum(ps: seq<Pair<string>>, other: seq<Pair<string>>, removed: seq<string>, added: seq<string>)
    requires ValidPairing(ps, removed, added) && Maximal(ps, removed, added) && !Blocked(ps, removed, added)
    requires ValidPairing(other, removed, added)
    ensures |other| <= |ps|
  {
    var cover := iset r | CoverRemoved(ps, removed, added, r);
    var hit, rest := Split(other, cover);
    var own, ownRest := Split(ps, cover);
    forall x
      ensures Sources(hit, true)[x] <= Sources(own, true)[x]
    {
      if x in cover {
        NoSource(ownRest, true, x);
      } else {
        NoSource(hit, true, x);
      }
    }
    forall x
      ensures Sources(rest, false)[x] <= Sources(ownRest, false)[x]
    {
      if CoverAdded(ps, removed, added, x) {
        forall p | p in own
          ensures p.1 != x
        {
          var i :| 0 <= i < |ps| && ps[i] == p;
          CoveredOnce(ps, removed, added, i);
        }
        NoSource(own, false, x);
      } else {
        forall p | p in rest
          ensures p.1 != x
        {
          Covered(ps, removed, added, p.0, p.1);
        }
        NoSource(rest, false, x);
      }
    }
    Fewer(hit, own, true);
    Fewer(rest, ownRest, false);
  }

  lemma Fewer(a: seq<Pair<string>>, b: seq<Pair<string>>, forward: bool)
    requires forall p :: p in a || p in b ==> Moves(p)
    requires forall x :: Sources(a, forward)[x] <= Sources(b, forward)[x]
    ensures |a| <= |b|
  {
    SmallerMultiset(Sources(a, forward), Sources(b, forward));
    SourcesSize(a, forward);
    SourcesSize(b, forward);
  }

  lemma {:induction false} SourcesAppend(a: seq<Pair<string>>, b: seq<Pair<string>>, forward: bool)
    ensures Sources(a + b, forward) == Sources(a, forward) + Sources(b, forward)
    decreases |a|
  {
    if a == [] {
      assert a + b == b;
    } else {
      assert (a + b)[1..] == a[1..] + b;
      SourcesAppend(a[1..], b, forward);
    }
  }

  lemma SourcesAround(ps: seq<Pair<string>>, i: nat, forward: bool)
    requires i < |ps| && Moves(ps[i])
    ensures Sources(ps, forward) == Sources(Without(ps, i), forward) + multiset{Src(ps[i], forward)}
  {
    assert ps == ps[..i] + ([ps[i]] + ps[i + 1..]);
    SourcesAppend(ps[..i], [ps[i]] + ps[i + 1..], forward);
    SourcesAppend([ps[i]], ps[i + 1..], forward);
    SourcesAppend(ps[..i], ps[i + 1..], forward);
    assert [ps[i]][1..] == [];
  }

  /** One more unused occurrence fits. */
  lemma SourcesSplit(ps: seq<Pair<string>>, i: nat, x: string, forward: bool, lines: seq<string>)
    requires i < |ps| && Moves(ps[i]) && ps[i].0 != x && ps[i].1 != x
    requires Sources(ps, forward) <= multiset(lines) && Unused(ps, lines, forward, x)
    ensures Sources(Without(ps, i) + [(ps[i].0, x), (x, ps[i].1)], forward) <= multiset(lines)
  {
    var p, q := (ps[i].0, x), (x, ps[i].1);
    SourcesAround(ps, i, forward);
    SourcesAppend(Without(ps, i), [p, q], forward);
    TwoSources(p, q, forward);
    OneMore(Sources(ps, forward), Sources(Without(ps, i), forward), Src(ps[i], forward), x, multiset(lines));
  }

  lemma OneMore(all: multiset<string>, rest: multiset<string>, taken: string, x: string, bound: multiset<string>)
    requires all == rest + multiset{taken} && all <= bound && all[x] < bound[x]
    ensures rest + multiset{taken, x} <= bound && rest + multiset{x, taken} <= bound
  {
    assert rest + multiset{taken, x} == all + multiset{x};
  }

  lemma PairableSplit(ps: seq<Pair<string>>, i: nat, x: string)
    requires i < |ps| && HasBrand(x) && Normalize(ps[i].0) == Normalize(x) && ps[i].0 != x && ps[i].1 != x
    requires forall p :: p in ps ==> Pairable(p.0, p.1)
    ensures forall p :: p in Without(ps, i) + [(ps[i].0, x), (x, ps[i].1)] ==> Pairable(p.0, p.1)
  {
    assert Pairable(ps[i].0, ps[i].1);
    assert Pairable(ps[i].0, x) && Pairable(x, ps[i].1);
    assert forall p :: p in Without(ps, i) ==> p in ps;
  }

  /** A block is removed by splitting its pair in two. */
  lemma BlockedGrows(ps: seq<Pair<string>>, removed: seq<string>, added: seq<string>, x: string, i: nat)
    returns (other: seq<Pair<string>>)
    requires ValidPairing(ps, removed, added)
    requires i < |ps| && HasBrand(x) && Normalize(ps[i].0) == Normalize(x) && ps[i].0 != x && ps[i].1 != x
    requires Unused(ps, removed, true, x) && Unused(ps, added, false, x)
    ensures ValidPairing(other, removed, added) && |other| == |ps| + 1
  {
    other := Without(ps, i) + [(ps[i].0, x), (x, ps[i].1)];
    assert Pairable(ps[i].0, ps[i].1);
    SourcesSplit(ps, i, x, true, removed);
    SourcesSplit(ps, i, x, false, added);
    PairableSplit(ps, i, x);
  }

  /** The pairing the gate counts is the largest possible exactly when no line is left unused on
      both sides while a pair of its normal form does without it. */
  lemma {:induction false} GreedyMaximumExact(removed: seq<string>, added: seq<string>)
    ensures (forall other :: ValidPairing(other, removed, added) ==> |other| <= |Greedy(removed, added)|)
            <==> !Blocked(Greedy(removed, added), removed, added)
  {
    var ps := Greedy(removed, added);
    GreedyValid(removed, added);
    GreedyMaximal(removed, added);
    if Blocked(ps, removed, added) {
      var x, i :|
        && 0 <= i < |ps| && HasBrand(x) && Normalize(ps[i].0) == Normalize(x) && ps[i].0 != x && ps[i].1 != x
        && Unused(ps, removed, true, x) && Unused(ps, added, false, x);
      var other := BlockedGrows(ps, removed, added, x, i);
    } else {
      forall other | ValidPairing(other, removed, added)
        ensures |other| <= |ps|
      {
        UnblockedMaximum(ps, other, removed, added);
      }
    }
  }

  lemma OneToken(t: string)
    requires IsBrand(t)
    ensures HasBrand(t) && Normalize(t) == [PLACEHOLDER]
  {
    assert t[|t|..] == "";
  }

  /** When the first added line takes the partner of a line that is there unchanged, ... */
  lemma FindsOne(c: string, q: string, C: string)
    requires Pairable(c, C) && !Pairable(q, q)
    ensures Greedy([c, q], [C, q]) == [(c, C)]
  {
    assert Without([c, q], 0) == [q];
    var rest := [q];
    assert rest[1..] == [] && [C, q][1..] == rest;
    assert FirstPairable(rest, q) == 1 by { assert FirstPairable([], q) == 0; }
    assert Greedy(rest, rest) == Greedy(rest, rest[1..]);
    assert FirstPairable([c, q], C) == 0;
  }

  lemma TwoSources(p: Pair<string>, q: Pair<string>, forward: bool)
    requires Moves(p) && Moves(q)
    ensures Sources([p, q], forward) == multiset{Src(p, forward), Src(q, forward)}
  {
    assert [p, q][1..] == [q] && [q][1..] == [];
    assert Sources([q], forward) == multiset{Src(q, forward)} + Sources([q][1..], forward);
  }

  /** ... one pair is found where two exist. */
  lemma {:induction false} TwoExist(c: string, q: string, C: string)
    requires Pairable(c, q) && Pairable(q, C)
    ensures ValidPairing([(q, C), (c, q)], [c, q], [C, q])
  {
    TwoSources((q, C), (c, q), true);
    TwoSources((q, C), (c, q), false);
    assert multiset([c, q]) == multiset{c, q} && multiset([C, q]) == multiset{C, q};
  }

  lemma {:induction false} Spellings(c: string, q: string, C: string)
    requires c == "copaw" && q == "qwenpaw" && C == "CoPaw"
    ensures Pairable(c, C) && Pairable(c, q) && Pairable(q, C)
  {
    assert C[0] != c[0] && |c| != |q| && |C| != |q|;
    assert BrandLen(c) == 5 && BrandLen(q) == 7 && BrandLen(C) == 5;
    OneToken(c);
    OneToken(q);
    OneToken(C);
  }

  /** The factor two is reached. */
  lemma GreedyNotMaximum()
    ensures exists c, q, C :: Greedy([c, q], [C, q]) == [(c, C)] && ValidPairing([(q, C), (c, q)], [c, q], [C, q])
  {
    var c, q, C := "copaw", "qwenpaw", "CoPaw";
    Spellings(c, q, C);
    FindsOne(c, q, C);
    TwoExist(c, q, C);
  }
}
