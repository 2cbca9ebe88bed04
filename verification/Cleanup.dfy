/** Cleaning up one sandbox from its metadata record, with every point at which the process
    can stop. */
module Cleanup {
  import opened Wrappers
  import opened Decimal
  import opened Acl

  datatype Manifest = Manifest(grants: seq<string>, denials: seq<string>, broken: seq<string>)

  /** What a metadata file says. */
  datatype Record =
    | Container(name: string, sid: string, workspace: string, manifest: Option<Manifest>)
    | Unelevated(id: string, sid: string, paths: seq<string>)

  /** The paths of a record in the order they are visited. */
  function Listed(r: Record): seq<string> {
    match r
    case Container(_, _, workspace, manifest) =>
      (if manifest.Some? then manifest.value.grants + manifest.value.denials + manifest.value.broken else [])
      + [workspace]
    case Unelevated(_, _, paths) => paths
  }

  datatype Meta = Readable(record: Record) | Unreadable

  /** A file under failed_cleanup: half written, or annotated with the reason; the content is
      None when the second reading of the metadata failed. */
  datatype Saved = Partial | Annotated(content: Option<Record>, reason: string)

  /** A path has no list at all, which grants everyone everything, or a list of entries. */
  datatype PathAcl = NullDacl | Entries(aces: seq<Ace>)

  predicate IsClean(acl: PathAcl, sid: string) {
    acl.Entries? ==> Clean(acl.aces, sid)
  }

  /** Access-control lists of the existing paths, metadata files, files under failed_cleanup. */
  datatype Snapshot = Snapshot(acls: map<string, PathAcl>, records: map<string, Meta>, failed: map<string, Saved>)

  /** The record names the path. */
  predicate Names(r: Record, p: string) {
    match r
    case Container(_, _, workspace, manifest) =>
      || p == workspace
      || (manifest.Some? && (p in manifest.value.grants || p in manifest.value.denials || p in manifest.value.broken))
    case Unelevated(_, _, paths) => p in paths
  }

  /** No existing path the record names has a readable allow or deny entry of its SID left. */
  ghost predicate Finished(acls: map<string, PathAcl>, r: Record) {
    r.sid != "" ==>
      forall p :: Names(r, p) && p != "" && p in acls && acls[p].Entries? ==>
        forall a :: a in acls[p].aces && a.readable && a.sid == r.sid ==> a.kind != 0 && a.kind != 1
  }

  lemma CleanMeans(acl: PathAcl, sid: string)
    ensures IsClean(acl, sid) <==>
            (acl.Entries? ==> forall a :: a in acl.aces && a.readable && a.sid == sid ==> a.kind != 0 && a.kind != 1)
  {
    if acl.Entries? && forall a :: a in acl.aces && a.readable && a.sid == sid ==> a.kind != 0 && a.kind != 1 {
      assert forall i :: 0 <= i < |acl.aces| ==> acl.aces[i] in acl.aces;
    }
  }

  lemma {:induction false} FinishedMeans(acls: map<string, PathAcl>, r: Record)
    requires r.sid != ""
    ensures Finished(acls, r) <==> forall p :: Names(r, p) && p != "" && p in acls ==> IsClean(acls[p], r.sid)
  {
    forall p | p in acls
      ensures IsClean(acls[p], r.sid) <==>
              (acls[p].Entries? ==>
                 forall a :: a in acls[p].aces && a.readable && a.sid == r.sid ==> a.kind != 0 && a.kind != 1)
    {
      CleanMeans(acls[p], r.sid);
    }
  }

  /** A complete copy of the record, annotated under failed_cleanup. */
  ghost predicate Saves(failed: map<string, Saved>, r: Record) {
    exists f :: f in failed && failed[f].Annotated? && failed[f].content == Some(r)
  }

  /** The record is still there, or annotated under failed_cleanup, or there is nothing to do. */
  ghost predicate Safe(s: Snapshot, name: string, r: Record) {
    (name in s.records && s.records[name] == Readable(r)) || Saves(s.failed, r) || Finished(s.acls, r)
  }

  /** Every crash point from the k-th on is safe. */
  ghost predicate SafeFrom(history: seq<Snapshot>, k: nat, name: string, r: Record) {
    forall i :: k <= i < |history| ==> Safe(history[i], name, r)
  }

  lemma SafeLater(history: seq<Snapshot>, k: nat, m: nat, name: string, r: Record)
    requires k <= m <= |history| && SafeFrom(history[..m], k, name, r)
    ensures SafeFrom(history, k, name, r) <==> SafeFrom(history, m, name, r)
  {
    if SafeFrom(history, m, name, r) {
      forall i | k <= i < |history|
        ensures Safe(history[i], name, r)
      {
        assert i < m ==> history[..m][i] == history[i];
      }
    }
  }

  // ----- what the system may answer -----

  datatype ReadAcl = ReadOk | Denied(reset: bool) | ReadFails

  /** One attempt to remove the entries of a SID from a path. */
  datatype Attempt = Attempt(library: bool, sidConverts: bool, read: ReadAcl, info: bool, write: bool)

  datatype WriteResult = Written | NotOpened | HalfWritten

  /** `attempts(visit, n)` answers the n-th attempt of a visit; the visits are numbered along the
      listed paths, so a path listed twice is answered anew. */
  datatype Answers = Answers(attempts: (nat, nat) -> Attempt, mkdir: bool, reread: bool, write: WriteResult,
                             unlink: bool)

  /** When an attempt leaves nothing removable behind. */
  predicate Succeeds(a: Attempt, acl: PathAcl, sid: string) {
    && a.library && a.sidConverts
    && (a.read == Denied(true)
        || (a.read.ReadOk? && (acl.NullDacl? || (a.info && (IsClean(acl, sid) || a.write)))))
  }

  /** What a successful attempt leaves. */
  function Removed(a: Attempt, acl: PathAcl, sid: string): PathAcl {
    if a.read == Denied(true) then Entries([])
    else match acl
      case NullDacl => NullDacl
      case Entries(aces) => Entries(Keep(aces, sid))
  }

  /** What up to three attempts leave, from the n-th on. */
  function Retried(attempts: (nat, nat) -> Attempt, visit: nat, acl: PathAcl, sid: string, n: nat): PathAcl
    requires n <= 3
    decreases 3 - n
  {
    if n == 3 then acl
    else if Succeeds(attempts(visit, n), acl, sid) then Removed(attempts(visit, n), acl, sid)
    else Retried(attempts, visit, acl, sid, n + 1)
  }

  /** One of the attempts from the n-th on succeeds. */
  predicate Clears(attempts: (nat, nat) -> Attempt, visit: nat, acl: PathAcl, sid: string, n: nat)
    requires n <= 3
    decreases 3 - n
  {
    n < 3 && (Succeeds(attempts(visit, n), acl, sid) || Clears(attempts, visit, acl, sid, n + 1))
  }

  /** The lists after visiting the paths in order. */
  function Visited(acls: map<string, PathAcl>, paths: seq<string>, sid: string, attempts: (nat, nat) -> Attempt)
    : (after: map<string, PathAcl>)
    ensures after.Keys == acls.Keys
    decreases |paths|
  {
    if paths == [] then acls
    else
      var visit := |paths| - 1;
      var before := Visited(acls, paths[..visit], sid, attempts);
      if paths[visit] == "" || paths[visit] !in acls then before
      else before[paths[visit] := Retried(attempts, visit, before[paths[visit]], sid, 0)]
  }

  /** How many visits fail. */
  function Failures(acls: map<string, PathAcl>, paths: seq<string>, sid: string, attempts: (nat, nat) -> Attempt): nat
    decreases |paths|
  {
    if paths == [] then 0
    else
      var visit := |paths| - 1;
      Failures(acls, paths[..visit], sid, attempts)
      + if paths[visit] == "" || paths[visit] !in acls
           || Clears(attempts, visit, Visited(acls, paths[..visit], sid, attempts)[paths[visit]], sid, 0)
        then 0 else 1
  }

  lemma RemovedClean(a: Attempt, acl: PathAcl, sid: string, other: string)
    ensures Succeeds(a, acl, sid) ==> IsClean(Removed(a, acl, sid), sid)
    ensures IsClean(acl, other) ==> IsClean(Removed(a, acl, sid), other)
  {
    if acl.Entries? {
      KeepClean(acl.aces, sid);
      if Clean(acl.aces, other) {
        KeepStaysClean(acl.aces, sid, other);
      }
    }
  }

  /** A path that can be cleared is clean afterwards, any other is as it was; and what was clean
      for another SID stays so. */
  lemma {:induction false} RetriedExact(attempts: (nat, nat) -> Attempt, visit: nat, acl: PathAcl, sid: string,
                                        n: nat, other: string)
    requires n <= 3
    ensures var after := Retried(attempts, visit, acl, sid, n);
            && (if Clears(attempts, visit, acl, sid, n) then IsClean(after, sid) else after == acl)
            && (IsClean(acl, other) ==> IsClean(after, other))
    decreases 3 - n
  {
    if n < 3 {
      RemovedClean(attempts(visit, n), acl, sid, other);
      RetriedExact(attempts, visit, acl, sid, n + 1, other);
    }
  }

  /** Some visit to the path clears the list it started with. */
  ghost predicate SomeVisitClears(paths: seq<string>, attempts: (nat, nat) -> Attempt, path: string,
                                  acl: PathAcl, sid: string) {
    exists visit: nat :: visit < |paths| && paths[visit] == path && Clears(attempts, visit, acl, sid, 0)
  }

  lemma SomeVisitSnoc(paths: seq<string>, attempts: (nat, nat) -> Attempt, path: string, acl: PathAcl, sid: string)
    requires paths != []
    ensures var last := |paths| - 1;
            SomeVisitClears(paths, attempts, path, acl, sid) <==>
            SomeVisitClears(paths[..last], attempts, path, acl, sid)
            || (paths[last] == path && Clears(attempts, last, acl, sid, 0))
  {
    var last := |paths| - 1;
    if SomeVisitClears(paths[..last], attempts, path, acl, sid) {
      var visit: nat :| visit < last && paths[..last][visit] == path && Clears(attempts, visit, acl, sid, 0);
      assert paths[visit] == path;
    }
    if SomeVisitClears(paths, attempts, path, acl, sid) {
      var visit: nat :| visit < |paths| && paths[visit] == path && Clears(attempts, visit, acl, sid, 0);
      assert visit < last ==> paths[..last][visit] == path;
    }
  }

  /** After the visits a path is clean exactly when it was before or some visit clears it; without
      such a visit it is untouched, and what was clean for another SID stays so. */
  lemma {:induction false} VisitedExact(acls: map<string, PathAcl>, paths: seq<string>, sid: string,
                                        attempts: (nat, nat) -> Attempt, path: string, other: string)
    requires path in acls
    ensures var after := Visited(acls, paths, sid, attempts)[path];
            var cleared := path != "" && SomeVisitClears(paths, attempts, path, acls[path], sid);
            && (IsClean(after, sid) <==> IsClean(acls[path], sid) || cleared)
            && (!cleared ==> after == acls[path])
            && (IsClean(acls[path], other) ==> IsClean(after, other))
    decreases |paths|
  {
    if paths == [] {
    } else {
      var last := |paths| - 1;
      var before := Visited(acls, paths[..last], sid, attempts)[path];
      VisitedExact(acls, paths[..last], sid, attempts, path, other);
      SomeVisitSnoc(paths, attempts, path, acls[path], sid);
      RetriedExact(attempts, last, before, sid, 0, other);
      RetriedExact(attempts, last, before, sid, 0, sid);
    }
  }

  /** When no visit fails, every existing listed path is clean. */
  lemma {:induction false} NoFailuresClean(acls: map<string, PathAcl>, paths: seq<string>, sid: string,
                                           attempts: (nat, nat) -> Attempt)
    requires Failures(acls, paths, sid, attempts) == 0
    ensures forall p :: p in paths && p != "" && p in acls ==> IsClean(Visited(acls, paths, sid, attempts)[p], sid)
    decreases |paths|
  {
    if paths == [] {
    } else {
      var last := |paths| - 1;
      var before := Visited(acls, paths[..last], sid, attempts);
      NoFailuresClean(acls, paths[..last], sid, attempts);
      forall p | p in paths && p != "" && p in acls
        ensures IsClean(Visited(acls, paths, sid, attempts)[p], sid)
      {
        RetriedExact(attempts, last, before[p], sid, 0, sid);
        assert p == paths[last] || p in paths[..last];
      }
    }
  }

  // ----- the visits of a record -----

  function VisitCount(r: Record): nat {
    match r
    case Container(_, _, _, manifest) =>
      (if manifest.Some? then |manifest.value.grants| + |manifest.value.denials| + |manifest.value.broken| else 0) + 1
    case Unelevated(_, _, paths) => |paths|
  }

  /** The k-th visit goes to `p`: grants, denials and broken paths in turn, then the workspace. */
  predicate VisitOf(r: Record, k: nat, p: string) {
    match r
    case Unelevated(_, _, paths) => k < |paths| && paths[k] == p
    case Container(_, _, workspace, manifest) =>
      if manifest.None? then k == 0 && p == workspace
      else
        var m := manifest.value;
        var g, d, b := |m.grants|, |m.denials|, |m.broken|;
        if k < g then m.grants[k] == p
        else if k < g + d then m.denials[k - g] == p
        else if k < g + d + b then m.broken[k - g - d] == p
        else k == g + d + b && p == workspace
  }

  lemma ListedExact(r: Record)
    ensures |Listed(r)| == VisitCount(r)
    ensures forall k: nat, p :: VisitOf(r, k, p) <==> k < |Listed(r)| && Listed(r)[k] == p
    ensures forall p :: p in Listed(r) <==> Names(r, p)
  {
  }

  lemma ListedAt(r: Record, k: nat, p: string)
    requires k < |Listed(r)|
    ensures VisitOf(r, k, p) <==> Listed(r)[k] == p
  {
  }

  /** The list of a path before the k-th visit. */
  function ListAt(acl: PathAcl, p: string, r: Record, attempts: (nat, nat) -> Attempt, k: nat): PathAcl {
    if k == 0 then acl
    else
      var before := ListAt(acl, p, r, attempts, k - 1);
      if p != "" && VisitOf(r, k - 1, p) then Retried(attempts, k - 1, before, r.sid, 0) else before
  }

  /** Each visit to an existing path finds a list that one of its attempts clears. */
  ghost predicate EveryVisitClears(acls: map<string, PathAcl>, r: Record, attempts: (nat, nat) -> Attempt) {
    forall k: nat, p :: VisitOf(r, k, p) && p != "" && p in acls ==>
      Clears(attempts, k, ListAt(acls[p], p, r, attempts, k), r.sid, 0)
  }

  lemma {:induction false} ListAtVisited(acls: map<string, PathAcl>, p: string, r: Record,
                                         attempts: (nat, nat) -> Attempt, k: nat)
    requires p in acls && k <= |Listed(r)|
    ensures Visited(acls, Listed(r)[..k], r.sid, attempts)[p] == ListAt(acls[p], p, r, attempts, k)
  {
    if k == 0 {
    } else {
      var paths := Listed(r)[..k];
      assert paths[..k - 1] == Listed(r)[..k - 1];
      ListAtVisited(acls, p, r, attempts, k - 1);
      ListedAt(r, k - 1, p);
    }
  }

  lemma {:induction false} FailuresExact(acls: map<string, PathAcl>, paths: seq<string>, sid: string,
                                         attempts: (nat, nat) -> Attempt)
    ensures Failures(acls, paths, sid, attempts) == 0 <==>
            forall k :: 0 <= k < |paths| && paths[k] != "" && paths[k] in acls ==>
              Clears(attempts, k, Visited(acls, paths[..k], sid, attempts)[paths[k]], sid, 0)
    decreases |paths|
  {
    if paths == [] {
    } else {
      var init := paths[..|paths| - 1];
      FailuresExact(acls, init, sid, attempts);
      assert forall k :: 0 <= k < |init| ==> init[..k] == paths[..k] && init[k] == paths[k];
    }
  }

  lemma NoFailuresMeans(acls: map<string, PathAcl>, r: Record, attempts: (nat, nat) -> Attempt)
    ensures Failures(acls, Listed(r), r.sid, attempts) == 0 <==> EveryVisitClears(acls, r, attempts)
  {
    var paths := Listed(r);
    FailuresExact(acls, paths, r.sid, attempts);
    ListedExact(r);
    forall k | 0 <= k < |paths| && paths[k] in acls
      ensures Visited(acls, paths[..k], r.sid, attempts)[paths[k]] == ListAt(acls[paths[k]], paths[k], r, attempts, k)
    {
      ListAtVisited(acls, paths[k], r, attempts, k);
    }
  }

  lemma VisitNames(r: Record, k: nat, p: string)
    requires VisitOf(r, k, p)
    ensures Names(r, p)
  {
  }

  /** A path the record does not name is untouched. */
  lemma {:induction false} NotNamed(acl: PathAcl, p: string, r: Record, attempts: (nat, nat) -> Attempt, k: nat)
    requires !Names(r, p) || p == ""
    ensures ListAt(acl, p, r, attempts, k) == acl
  {
    if k == 0 {
    } else {
      NotNamed(acl, p, r, attempts, k - 1);
      if VisitOf(r, k - 1, p) {
        VisitNames(r, k - 1, p);
      }
    }
  }

  // ----- fresh names -----

  const SUFFIX := ".json"

  function Stem(name: string): string {
    if |name| > 5 && name[|name| - 5..] == SUFFIX then name[..|name| - 5] else name
  }

  /** The names tried under failed_cleanup: the own one, then numbered ones. */
  function Candidate(name: string, n: nat): string {
    if n == 0 then name else Stem(name) + ("_" + (Digits(n) + SUFFIX))
  }

  lemma CandidatesDiffer(name: string, m: nat, n: nat)
    requires m < n
    ensures Candidate(name, m) != Candidate(name, n)
  {
    var a, b := Candidate(name, m), Candidate(name, n);
    if m == 0 {
      assert |name| <= |Stem(name)| + 5 < |b|;
    } else if a == b {
      var k := |Stem(name)|;
      assert a[k..] == "_" + (Digits(m) + SUFFIX) && b[k..] == "_" + (Digits(n) + SUFFIX);
      assert a[k..][1..] == Digits(m) + SUFFIX && b[k..][1..] == Digits(n) + SUFFIX;
      DigitsPrefix(m, n, SUFFIX, SUFFIX);
    }
  }

  /** The names tried before the n-th. */
  function Tried(name: string, n: nat): set<string> {
    if n == 0 then {} else Tried(name, n - 1) + {Candidate(name, n - 1)}
  }

  lemma {:induction false} TriedSize(name: string, n: nat)
    ensures |Tried(name, n)| == n
    ensures forall c :: c in Tried(name, n) <==> exists i :: 0 <= i < n && c == Candidate(name, i)
  {
    if n == 0 {
    } else {
      TriedSize(name, n - 1);
      forall i | 0 <= i < n - 1 { CandidatesDiffer(name, i, n - 1); }
    }
  }

  lemma SubsetSize(a: set<string>, b: set<string>)
    requires a <= b
    ensures |a| <= |b|
  {
    assert b == a + (b - a);
  }

  // ----- the machine -----

  datatype Ending = UnreadableRecord | Deleted | KeptUndeleted | MoveFailed | Moved(dest: string)

  class Machine {
    var acls: map<string, PathAcl>
    var records: map<string, Meta>
    var failed: map<string, Saved>
    /** Every state the process went through, in order. */
    ghost var history: seq<Snapshot>

    constructor (acls: map<string, PathAcl>, records: map<string, Meta>, failed: map<string, Saved>)
      ensures this.acls == acls && this.records == records && this.failed == failed
      ensures history == [Now()]
    {
      this.acls, this.records, this.failed := acls, records, failed;
      history := [Snapshot(acls, records, failed)];
    }

    ghost function Now(): Snapshot
      reads this
    {
      Snapshot(acls, records, failed)
    }

    /** `_remove_ace_by_sid_api`: on success nothing removable is left, on failure nothing
        changed. */
    method RemoveAceBySid(path: string, sid: string, answer: Attempt) returns (ok: bool)
      requires path in acls
      modifies this
      ensures records == old(records) && failed == old(failed)
      ensures ok <==> Succeeds(answer, old(acls)[path], sid)
      ensures ok ==> acls == old(acls)[path := Removed(answer, old(acls)[path], sid)] && IsClean(acls[path], sid)
      ensures !ok ==> acls == old(acls) && history == old(history)
      ensures history == old(history) || history == old(history) + [Now()]
    {
      if !answer.library || !answer.sidConverts {
        return false;
      }
      if answer.read.ReadFails? {
        return false;
      }
      if answer.read.Denied? {
        if answer.read.reset {
          acls := acls[path := Entries([])];
          history := history + [Now()];
        }
        return answer.read.reset;
      }
      if acls[path].NullDacl? {
        return true;
      }
      if !answer.info {
        return false;
      }
      KeepClean(acls[path].aces, sid);
      var dacl := new Dacl(acls[path].aces);
      var found := dacl.RemoveMatching(sid);
      if !found {
        return true;
      }
      if answer.write {
        acls := acls[path := Entries(dacl.aces)];
        history := history + [Now()];
      }
      ok := answer.write;
    }

    /** `_remove_acl_with_retry`: up to three attempts. */
    method RemoveAclWithRetry(path: string, sid: string, visit: nat, attempts: (nat, nat) -> Attempt) returns (ok: bool)
      modifies this
      ensures records == old(records) && failed == old(failed)
      ensures ok <==> path !in old(acls) || Clears(attempts, visit, old(acls)[path], sid, 0)
      ensures ok <==> path in old(acls) ==>
                exists n: nat :: n < 3 && Succeeds(attempts(visit, n), old(acls)[path], sid)
      ensures acls == if path in old(acls)
                      then old(acls)[path := Retried(attempts, visit, old(acls)[path], sid, 0)]
                      else old(acls)
      ensures history == old(history) || history == old(history) + [Now()]
    {
      if path !in acls {
        return true;
      }
      for attempt := 0 to 3
        invariant records == old(records) && failed == old(failed) && acls == old(acls) && history == old(history)
        invariant Clears(attempts, visit, acls[path], sid, attempt) == Clears(attempts, visit, acls[path], sid, 0)
        invariant Retried(attempts, visit, acls[path], sid, attempt) == Retried(attempts, visit, acls[path], sid, 0)
      {
        var done := RemoveAceBySid(path, sid, attempts(visit, attempt));
        if done {
          return true;
        }
      }
      assert acls == acls[path := acls[path]];
      ok := false;
    }

    /** Entries are removed path by path, and the failures counted. */
    method RemoveAll(paths: seq<string>, sid: string, attempts: (nat, nat) -> Attempt) returns (failures: nat)
      modifies this
      ensures records == old(records) && failed == old(failed)
      ensures acls == Visited(old(acls), paths, sid, attempts)
      ensures failures == Failures(old(acls), paths, sid, attempts)
      ensures |old(history)| <= |history| && old(history) == history[..|old(history)|]
      ensures forall i :: |old(history)| <= i < |history| ==>
          history[i].records == records && history[i].failed == failed
    {
      failures := 0;
      for k := 0 to |paths|
        invariant records == old(records) && failed == old(failed)
        invariant acls == Visited(old(acls), paths[..k], sid, attempts)
        invariant failures == Failures(old(acls), paths[..k], sid, attempts)
        invariant |old(history)| <= |history| && old(history) == history[..|old(history)|]
        invariant forall i :: |old(history)| <= i < |history| ==>
            history[i].records == records && history[i].failed == failed
      {
        assert paths[..k + 1][..k] == paths[..k];
        if paths[k] == "" || paths[k] !in acls {
          continue;
        }
        var ok := RemoveAclWithRetry(paths[k], sid, k, attempts);
        if !ok {
          failures := failures + 1;
        }
      }
      assert paths[..|paths|] == paths;
    }

    /** The first candidate name not taken; it is found within one more try than there are
        failed files. */
    method FreshName(name: string) returns (dest: string, tries: nat)
      ensures dest !in failed && dest == Candidate(name, tries) && tries <= |failed|
      ensures forall n :: 0 <= n < tries ==> Candidate(name, n) in failed
      ensures tries == 0 ==> dest == name
      ensures forall stem: string :: stem != "" && name == stem + ".json" && tries > 0 ==>
                dest == stem + ("_" + (Digits(tries) + ".json"))
    {
      dest, tries := name, 0;
      while dest in failed
        invariant dest == Candidate(name, tries)
        invariant Tried(name, tries) <= failed.Keys && tries <= |failed|
        decreases |failed| - tries
      {
        TriedSize(name, tries + 1);
        SubsetSize(Tried(name, tries + 1), failed.Keys);
        tries := tries + 1;
        dest := Stem(name) + ("_" + (Digits(tries) + SUFFIX));
      }
      TriedSize(name, tries);
      assert forall n :: 0 <= n < tries ==> Candidate(name, n) in Tried(name, tries);
    }

    /** Writing a file under a fresh name; a failed write can leave half a file. */
    method WriteFailed(dest: string, content: Option<Record>, reason: string, result: WriteResult) returns (ok: bool)
      requires dest !in failed
      modifies this`failed, this`history
      ensures ok <==> result == Written
      ensures ok ==> failed == old(failed)[dest := Annotated(content, reason)]
      ensures NothingLost(old(failed), failed)
      ensures |old(history)| <= |history| && old(history) == history[..|old(history)|]
      ensures forall i :: |old(history)| <= i < |history| ==>
                && NothingLost(old(failed), history[i].failed)
                && history[i].records == records && history[i].acls == acls
    {
      if result.NotOpened? {
        return false;
      }
      failed := failed[dest := Partial];
      history := history + [Now()];
      if result.HalfWritten? {
        return false;
      }
      failed := failed[dest := Annotated(content, reason)];
      history := history + [Now()];
      ok := true;
    }

    /** `_move_to_failed`: a fresh name, a copy, then the original goes. */
    method MoveToFailed(name: string, ghost r: Record, answers: Answers, reason: string) returns (ending: Ending)
      requires name in records && records[name] == Readable(r)
      modifies this
      ensures acls == old(acls)
      ensures ending == MoveFailed || ending.Moved?
      ensures ending.Moved? <==> answers.mkdir && answers.write == Written
      ensures ending == MoveFailed ==> records == old(records)
      ensures ending.Moved? ==>
                && records == (if answers.unlink then old(records) - {name} else old(records))
                && ending.dest !in old(failed)
                && failed == old(failed)[ending.dest := Annotated(if answers.reread then Some(r) else None, reason)]
      ensures NothingLost(old(failed), failed)
      ensures |old(history)| <= |history| && old(history) == history[..|old(history)|]
      ensures forall i :: |old(history)| <= i < |history| ==> NothingLost(old(failed), history[i].failed)
      ensures SafeFrom(history, |old(history)|, name, r) <==>
              MoveKeeps(answers) || Saves(old(failed), r) || Finished(old(acls), r)
    {
      if !answers.mkdir {
        return MoveFailed;
      }
      var dest, tries := FreshName(name);
      var content := if answers.reread && records[name].Readable? then Some(records[name].record) else None;
      var ok := WriteFailed(dest, content, reason, answers.write);
      if !ok {
        return MoveFailed;
      }
      Unlink(name, answers);
      assert answers.reread ==> Now().failed[dest].content == Some(r);
      assert answers.unlink ==> history[|history| - 1] == Now();
      ending := Moved(dest);
    }

    /** Removing the metadata file, when the system lets us. */
    method Unlink(name: string, answers: Answers)
      modifies this
      ensures acls == old(acls) && failed == old(failed)
      ensures records == if answers.unlink then old(records) - {name} else old(records)
      ensures history == if answers.unlink then old(history) + [Now()] else old(history)
    {
      if answers.unlink {
        records := records - {name};
        history := history + [Now()];
      }
    }

    /** Steps 1 and 2 of a cleanup: the entries are removed, then the metadata goes or is moved. */
    method CleanupReadable(name: string, r: Record, answers: Answers) returns (ending: Ending)
      requires name in records && records[name] == Readable(r)
      modifies this
      ensures forall other :: other != name ==> (other in records <==> other in old(records))
      ensures forall other :: other != name && other in records ==> records[other] == old(records)[other]
      ensures NothingLost(old(failed), failed)
      ensures acls == Cleaned(old(acls), r, answers.attempts)
      ensures ending == Deleted || ending == KeptUndeleted <==> Cleanable(old(acls), r, answers.attempts)
      ensures ending == Deleted ==> name !in records && Finished(acls, r)
      ensures ending == KeptUndeleted || ending == MoveFailed ==> name in records && records[name] == Readable(r)
      ensures ending.Moved? ==> ending.dest in failed && ending.dest !in old(failed)
      ensures ending != UnreadableRecord
      ensures |old(history)| <= |history| && old(history) == history[..|old(history)|]
      ensures forall i :: |old(history)| <= i < |history| ==> NothingLost(old(failed), history[i].failed)
      ensures SafeFrom(history, |old(history)|, name, r) <==>
              MoveKeeps(answers) || Saves(old(failed), r) || Finished(Cleaned(old(acls), r, answers.attempts), r)
    {
      var failures := RemoveListed(name, r, answers);
      ghost var kept := history;
      if failures > 0 {
        ending := MoveToFailed(name, r, answers, "ACL removal failed for " + Digits(failures) + " path(s)");
      } else {
        ending := UnlinkDone(name, r, answers);
      }
      assert history[..|kept|] == kept;
      SafeLater(history, |old(history)|, |kept|, name, r);
    }

    /** Without a SID no path is visited. */
    method RemoveListed(ghost name: string, r: Record, answers: Answers) returns (failures: nat)
      requires name in records && records[name] == Readable(r)
      modifies this
      ensures records == old(records) && failed == old(failed)
      ensures acls == Cleaned(old(acls), r, answers.attempts)
      ensures failures == 0 <==> Cleanable(old(acls), r, answers.attempts)
      ensures failures == 0 ==> Finished(acls, r)
      ensures |old(history)| <= |history| && old(history) == history[..|old(history)|]
      ensures forall i :: |old(history)| <= i < |history| ==> history[i].failed == failed
      ensures SafeFrom(history, |old(history)|, name, r)
    {
      failures := 0;
      if r.sid != "" {
        failures := RemoveAll(Listed(r), r.sid, answers.attempts);
        VisitedIsCleaned(old(acls), r, answers.attempts);
        NoFailuresMeans(old(acls), r, answers.attempts);
        if failures == 0 {
          NoFailuresClean(old(acls), Listed(r), r.sid, answers.attempts);
          ListedExact(r);
          FinishedMeans(acls, r);
        }
      }
    }

    /** The metadata of a finished cleanup goes. */
    method UnlinkDone(name: string, ghost r: Record, answers: Answers) returns (ending: Ending)
      requires name in records && Finished(acls, r)
      modifies this
      ensures acls == old(acls) && failed == old(failed)
      ensures records == if answers.unlink then old(records) - {name} else old(records)
      ensures ending == if answers.unlink then Deleted else KeptUndeleted
      ensures |old(history)| <= |history| && old(history) == history[..|old(history)|]
      ensures forall i :: |old(history)| <= i < |history| ==> history[i].failed == failed
      ensures SafeFrom(history, |old(history)|, name, r)
    {
      Unlink(name, answers);
      ending := if answers.unlink then Deleted else KeptUndeleted;
    }

    /** `_cleanup_single_container` and `_cleanup_single_unelevated_sandbox`. With readable
        metadata every crash point keeps the record or has no work left, exactly unless the
        record is moved with its second reading failed; no earlier failed record changes, and
        other records are left alone. */
    method CleanupSingle(name: string, answers: Answers) returns (ending: Ending)
      requires name in records
      modifies this
      ensures forall other :: other != name ==> (other in records <==> other in old(records))
      ensures forall other :: other != name && other in records ==> records[other] == old(records)[other]
      ensures NothingLost(old(failed), failed)
      ensures old(records)[name].Unreadable? ==>
                acls == old(acls) && failed == old(failed) && ending == UnreadableRecord
                && (answers.unlink ==> name !in records)
      ensures old(records)[name].Readable? ==>
                var r := old(records)[name].record;
                && acls == Cleaned(old(acls), r, answers.attempts)
                && (forall p :: p in acls && (p == "" || !Names(r, p)) ==> acls[p] == old(acls)[p])
                && (ending == Deleted || ending == KeptUndeleted <==> Cleanable(old(acls), r, answers.attempts))
                && (ending == Deleted ==> name !in records && Finished(acls, r))
                && (ending == KeptUndeleted || ending == MoveFailed ==> name in records && records[name] == Readable(r))
                && (ending.Moved? ==> ending.dest in failed && ending.dest !in old(failed))
      ensures |old(history)| <= |history| && old(history) == history[..|old(history)|]
      ensures forall i :: |old(history)| <= i < |history| ==> NothingLost(old(failed), history[i].failed)
      ensures old(records)[name].Readable? ==>
                var r := old(records)[name].record;
                SafeFrom(history, |old(history)|, name, r) <==>
                MoveKeeps(answers) || Saves(old(failed), r) || Finished(Cleaned(old(acls), r, answers.attempts), r)
    {
      if records[name].Unreadable? {
        Unlink(name, answers);
        ending := UnreadableRecord;
      } else {
        CleanedUntouched(acls, records[name].record, answers.attempts);
        ending := CleanupReadable(name, records[name].record, answers);
      }
    }
  }

  /** The lists after the visits of one cleanup; without a SID there are none. */
  function Cleaned(acls: map<string, PathAcl>, r: Record, attempts: (nat, nat) -> Attempt): map<string, PathAcl> {
    map p | p in acls :: if r.sid == "" then acls[p] else ListAt(acls[p], p, r, attempts, VisitCount(r))
  }

  lemma CleanedUntouched(acls: map<string, PathAcl>, r: Record, attempts: (nat, nat) -> Attempt)
    ensures forall p :: p in acls && (p == "" || !Names(r, p)) ==> Cleaned(acls, r, attempts)[p] == acls[p]
  {
    forall p | p in acls && (p == "" || !Names(r, p))
      ensures Cleaned(acls, r, attempts)[p] == acls[p]
    {
      NotNamed(acls[p], p, r, attempts, VisitCount(r));
    }
  }

  ghost predicate Cleanable(acls: map<string, PathAcl>, r: Record, attempts: (nat, nat) -> Attempt) {
    r.sid == "" || EveryVisitClears(acls, r, attempts)
  }

  lemma VisitedIsCleaned(acls: map<string, PathAcl>, r: Record, attempts: (nat, nat) -> Attempt)
    requires r.sid != ""
    ensures Visited(acls, Listed(r), r.sid, attempts) == Cleaned(acls, r, attempts)
  {
    forall p | p in acls
      ensures Visited(acls, Listed(r), r.sid, attempts)[p] == ListAt(acls[p], p, r, attempts, VisitCount(r))
    {
      ListAfter(acls, p, r, attempts);
    }
    SameMaps(Visited(acls, Listed(r), r.sid, attempts), Cleaned(acls, r, attempts));
  }

  lemma SameMaps<V>(a: map<string, V>, b: map<string, V>)
    requires a.Keys == b.Keys && forall p :: p in a ==> a[p] == b[p]
    ensures a == b
  {
  }

  lemma {:induction false} ListAfter(acls: map<string, PathAcl>, p: string, r: Record, attempts: (nat, nat) -> Attempt)
    requires p in acls
    ensures Visited(acls, Listed(r), r.sid, attempts)[p] == ListAt(acls[p], p, r, attempts, VisitCount(r))
  {
    CountListed(r);
    assert Listed(r)[..|Listed(r)|] == Listed(r);
    ListAtVisited(acls, p, r, attempts, |Listed(r)|);
  }

  lemma CountListed(r: Record)
    ensures |Listed(r)| == VisitCount(r)
  {
  }

  /** A move to failed_cleanup keeps the record: it is read again, or the move stops early, or
      the original stays. */
  predicate MoveKeeps(answers: Answers) {
    answers.reread || !answers.mkdir || answers.write != Written || !answers.unlink
  }

  /** Files under failed_cleanup keep their content. */
  ghost predicate NothingLost(before: map<string, Saved>, after: map<string, Saved>) {
    forall f :: f in before ==> f in after && after[f] == before[f]
  }

  /** When the second reading fails, the copy is written without the record and the original
      goes all the same: the record is lost while work remains. */
  method RereadFailureLosesRecord(answers: Answers) returns (m: Machine, ghost r: Record)
    requires answers.mkdir && !answers.reread && answers.write == Written && answers.unlink
    ensures !Safe(m.Now(), "a.json", r)
  {
    var ace := Ace(0, "S-1", true);
    var record := Unelevated("a", "S-1", ["C:"]);
    r := record;
    m := new Machine(map["C:" := Entries([ace])], map["a.json" := Readable(record)], map[]);
    var ending := m.MoveToFailed("a.json", record, answers, "stuck");
    assert "a.json" !in m.records;
    assert forall f :: f in m.failed ==> m.failed[f].content == None;
    assert ace in m.acls["C:"].aces;
    assert Names(record, "C:") && "C:" != "";
    assert !Finished(m.acls, record);
  }
}
