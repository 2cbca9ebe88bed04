/** Removing the entries of one SID from an access-control list, in place. */
module Acl {

  /** An explicit entry: its type, its SID, and whether it can be read at all. */
  datatype Ace = Ace(kind: nat, sid: string, readable: bool)

  /** Allow (0) and deny (1) entries of the SID are the ones to remove. */
  predicate Removable(a: Ace, sid: string) {
    a.readable && a.kind <= 1 && a.sid == sid
  }

  predicate Clean(aces: seq<Ace>, sid: string) {
    forall i :: 0 <= i < |aces| ==> !Removable(aces[i], sid)
  }

  /** The entries that stay, in their order. */
  function Keep(aces: seq<Ace>, sid: string): seq<Ace> {
    if aces == [] then []
    else (if Removable(aces[0], sid) then [] else [aces[0]]) + Keep(aces[1..], sid)
  }

  lemma {:induction false} KeepClean(aces: seq<Ace>, sid: string)
    ensures Clean(Keep(aces, sid), sid)
    ensures Keep(aces, sid) == aces <==> Clean(aces, sid)
    ensures |Keep(aces, sid)| <= |aces|
  {
    if aces == [] {
    } else {
      KeepClean(aces[1..], sid);
      if Removable(aces[0], sid) {
        assert |Keep(aces, sid)| < |aces|;
      } else {
        assert Keep(aces, sid)[1..] == Keep(aces[1..], sid);
        assert aces == [aces[0]] + aces[1..];
      }
    }
  }

  /** Every entry that is not removable stays, as often as it was there. */
  lemma {:induction false} KeepCounts(aces: seq<Ace>, sid: string, a: Ace)
    ensures multiset(Keep(aces, sid))[a] ==
            if a.readable && (a.kind == 0 || a.kind == 1) && a.sid == sid then 0 else multiset(aces)[a]
  {
    if aces == [] {
    } else {
      assert aces == [aces[0]] + aces[1..];
      KeepCounts(aces[1..], sid, a);
    }
  }

  lemma {:induction false} KeepAppend(a: seq<Ace>, b: seq<Ace>, sid: string)
    ensures Keep(a + b, sid) == Keep(a, sid) + Keep(b, sid)
  {
    if a == [] {
      assert a + b == b;
    } else {
      assert (a + b)[1..] == a[1..] + b;
      KeepAppend(a[1..], b, sid);
    }
  }

  /** Removing the entries of one SID leaves another SID's list clean if it was. */
  lemma {:induction false} KeepStaysClean(aces: seq<Ace>, sid: string, other: string)
    requires Clean(aces, other)
    ensures Clean(Keep(aces, sid), other)
  {
    if aces == [] {
    } else {
      assert forall i :: 0 <= i < |aces[1..]| ==> aces[1..][i] == aces[i + 1];
      KeepStaysClean(aces[1..], sid, other);
    }
  }

  /** The list the Win32 calls work on. */
  class Dacl {
    var aces: seq<Ace>

    constructor (aces: seq<Ace>)
      ensures this.aces == aces
    {
      this.aces := aces;
    }

    /** Later entries move down by one. */
    method DeleteAce(index: nat)
      requires index < |aces|
      modifies this
      ensures aces == old(aces)[..index] + old(aces)[index + 1..]
    {
      aces := aces[..index] + aces[index + 1..];
    }

    /** Indices of the removable entries, ascending. */
    method MatchingIndices(sid: string) returns (indices: seq<nat>)
      ensures forall k :: 0 <= k < |indices| ==> indices[k] < |aces| && Removable(aces[indices[k]], sid)
      ensures Ascending(indices)
      ensures forall i :: 0 <= i < |aces| && Removable(aces[i], sid) ==> i in indices
    {
      indices := [];
      for i := 0 to |aces|
        invariant forall k :: 0 <= k < |indices| ==> indices[k] < i && Removable(aces[indices[k]], sid)
        invariant forall j, k :: 0 <= j < k < |indices| ==> indices[j] < indices[k]
        invariant forall h :: 0 <= h < i && Removable(aces[h], sid) ==> h in indices
      {
        if !aces[i].readable {
          continue;
        }
        if aces[i].kind > 1 {
          continue;
        }
        if aces[i].sid == sid {
          indices := indices + [i];
        }
      }
    }

    /** Deleting the given indices from the last to the first. */
    method DeleteReversed(indices: seq<nat>, sid: string)
      requires Pending(aces, indices, |indices|, |aces|, sid)
      modifies this
      ensures aces == Keep(old(aces), sid)
    {
      ghost var before := aces;
      ghost var limit: nat := |before|;
      var k := |indices|;
      while k > 0
        invariant 0 <= k <= |indices|
        invariant Pending(before, indices, k, limit, sid)
        invariant aces == Reached(before, limit, sid)
      {
        k := k - 1;
        NextIndex(before, indices, k, limit, sid);
        DeleteAce(indices[k]);
        limit := indices[k];
      }
      DropNone(before, limit, sid);
    }

    /** Deleting in reverse order of collection removes exactly the matching entries. */
    method RemoveMatching(sid: string) returns (found: bool)
      modifies this
      ensures aces == Keep(old(aces), sid)
      ensures found <==> !Clean(old(aces), sid)
    {
      var indices := MatchingIndices(sid);
      KeepClean(aces, sid);
      if indices == [] {
        return false;
      }
      assert Removable(aces[indices[0]], sid);
      assert indices[..|indices|] == indices;
      DeleteReversed(indices, sid);
      found := true;
    }
  }

  predicate Ascending(indices: seq<nat>) {
    forall j, k :: 0 <= j < k < |indices| ==> indices[j] < indices[k]
  }

  /** The first k indices are all the removable positions below `limit`. */
  ghost predicate Pending(before: seq<Ace>, indices: seq<nat>, k: nat, limit: nat, sid: string) {
    && k <= |indices| && limit <= |before| && Ascending(indices)
    && (forall j :: 0 <= j < k ==> indices[j] < limit && Removable(before[indices[j]], sid))
    && forall i :: 0 <= i < limit && Removable(before[i], sid) ==> i in indices[..k]
  }

  /** One deletion: the list moves on to the next lower index. */
  lemma NextIndex(before: seq<Ace>, indices: seq<nat>, k: nat, limit: nat, sid: string)
    requires k < |indices| && Pending(before, indices, k + 1, limit, sid)
    ensures Pending(before, indices, k, indices[k], sid)
    ensures var r := Reached(before, limit, sid);
            r[..indices[k]] + r[indices[k] + 1..] == Reached(before, indices[k], sid)
  {
    var index := indices[k];
    assert indices[..k + 1] == indices[..k] + [index];
    forall i | index < i < limit
      ensures !Removable(before[i], sid)
    {
      assert i !in indices[..k + 1];
    }
    DeleteStep(before, index, limit, sid);
  }

  /** The list after the deletions at and above `limit`. */
  ghost function Reached(before: seq<Ace>, limit: nat, sid: string): (r: seq<Ace>)
    requires limit <= |before|
    ensures |r| >= limit
  {
    before[..limit] + Keep(before[limit..], sid)
  }

  lemma {:induction false} DropNone(before: seq<Ace>, limit: nat, sid: string)
    requires limit <= |before|
    requires forall i :: 0 <= i < limit ==> !Removable(before[i], sid)
    ensures Reached(before, limit, sid) == Keep(before, sid)
  {
    assert before == before[..limit] + before[limit..];
    KeepAppend(before[..limit], before[limit..], sid);
    KeepClean(before[..limit], sid);
  }

  lemma DeleteStep(before: seq<Ace>, index: nat, limit: nat, sid: string)
    requires index < limit <= |before| && Removable(before[index], sid)
    requires forall i :: index < i < limit ==> !Removable(before[i], sid)
    ensures var r := Reached(before, limit, sid); r[..index] + r[index + 1..] == Reached(before, index, sid)
  {
    DropStep(before, index, limit, sid);
    var kept := Keep(before[limit..], sid);
    assert before[..limit] + kept == before[..index] + ([before[index]] + (before[index + 1..limit] + kept));
  }

  lemma DropStep(before: seq<Ace>, index: nat, limit: nat, sid: string)
    requires index < limit <= |before| && Removable(before[index], sid)
    requires forall i :: index < i < limit ==> !Removable(before[i], sid)
    ensures before[index + 1..limit] + Keep(before[limit..], sid) == Keep(before[index..], sid)
  {
    var mid := before[index + 1..limit];
    assert before[index..][1..] == mid + before[limit..];
    KeepAppend(mid, before[limit..], sid);
    KeepClean(mid, sid);
  }
}
