/** Depth-first search guarded by the set of names on the current path, on any finite graph,
    cycles included. */
module PathSearch {

  type Graph = map<string, seq<string>>

  /** The shape shared by the inheritance searches: a name already on the path or not declared
      is given up, a hit ends the search, and only names that pass are searched further. */
  ghost predicate Found(g: Graph, pass: string -> bool, hit: string -> bool, q: string, active: set<string>)
    decreases |g.Keys - active|
  {
    && q !in active && q in g
    && (hit(q) || (pass(q) && exists b :: b in g[q] && FoundNext(g, pass, hit, q, b, active)))
  }

  ghost predicate FoundNext(g: Graph, pass: string -> bool, hit: string -> bool, q: string, b: string,
                            active: set<string>)
    requires q in g && q !in active
    decreases |g.Keys - active|, 0
  {
    Shrinks(g.Keys, active, q);
    Found(g, pass, hit, b, active + {q})
  }

  lemma Shrinks(keys: set<string>, active: set<string>, q: string)
    requires q in keys && q !in active
    ensures |keys - (active + {q})| < |keys - active|
  {
    assert keys - (active + {q}) == (keys - active) - {q};
  }

  /** A chain of declared names, each listed by the one before, ending in a hit and passing
      everywhere before. */
  ghost predicate Chain(g: Graph, pass: string -> bool, hit: string -> bool, p: seq<string>) {
    && p != []
    && (forall i :: 0 <= i < |p| ==> p[i] in g)
    && (forall i :: 0 <= i < |p| - 1 ==> pass(p[i]) && p[i + 1] in g[p[i]])
    && hit(p[|p| - 1])
  }

  ghost predicate Avoids(p: seq<string>, active: set<string>) {
    forall i :: 0 <= i < |p| ==> p[i] !in active
  }

  lemma {:induction false} Sound(g: Graph, pass: string -> bool, hit: string -> bool, q: string, active: set<string>)
    returns (p: seq<string>)
    requires Found(g, pass, hit, q, active)
    ensures Chain(g, pass, hit, p) && p[0] == q && Avoids(p, active)
    decreases |g.Keys - active|
  {
    if hit(q) {
      p := [q];
    } else {
      var b :| b in g[q] && FoundNext(g, pass, hit, q, b, active);
      Shrinks(g.Keys, active, q);
      var rest := Sound(g, pass, hit, b, active + {q});
      p := [q] + rest;
    }
  }

  /** The part of a path after its last visit to `q`. */
  lemma {:induction false} LastVisit(p: seq<string>, q: string) returns (k: nat)
    requires q in p
    ensures k < |p| && p[k] == q && q !in p[k + 1..]
  {
    if q in p[1..] {
      var k' := LastVisit(p[1..], q);
      k := k' + 1;
      assert p[k + 1..] == p[1..][k' + 1..];
    } else {
      k := 0;
    }
  }

  /** Cutting the cycles at the start of a chain keeps it one: the guard loses no chain. */
  lemma {:induction false} Complete(g: Graph, pass: string -> bool, hit: string -> bool, p: seq<string>,
                                    active: set<string>)
    requires Chain(g, pass, hit, p) && Avoids(p, active)
    ensures Found(g, pass, hit, p[0], active)
    decreases |p|
  {
    var q := p[0];
    var k := LastVisit(p, q);
    var tail := p[k + 1..];
    if tail != [] {
      assert forall i :: 0 <= i < |tail| ==> tail[i] == p[k + 1 + i];
      assert forall i :: 0 <= i < |tail| ==> tail[i] in tail;
      Complete(g, pass, hit, tail, active + {q});
      assert FoundNext(g, pass, hit, q, tail[0], active);
      assert tail[0] in g[q];
    }
  }

  /** A guarded search that starts with an empty guard is exact. */
  lemma FoundExact(g: Graph, pass: string -> bool, hit: string -> bool, q: string)
    ensures Found(g, pass, hit, q, {}) <==> exists p :: Chain(g, pass, hit, p) && p[0] == q
  {
    if Found(g, pass, hit, q, {}) {
      var p := Sound(g, pass, hit, q, {});
    }
    forall p | Chain(g, pass, hit, p) && p[0] == q
      ensures Found(g, pass, hit, q, {})
    {
      Complete(g, pass, hit, p, {});
    }
  }
}
