/** Flattening nested locale dictionaries into dotted keys, and looking keys up. */
module KeyFlattener {

  /** A JSON value; lists and non-null scalars are leaves, dictionaries keep insertion order. */
  datatype Json<V> = Dict(entries: Entries<V>) | Null | Leaf(leaf: V)

  datatype Field<V> = Field(key: string, value: Json<V>)

  type Entries<V> = seq<Field<V>>

  function Path(prefix: string, key: string): string {
    if prefix != "" then prefix + "." + key else key
  }

  function Flatten<V>(node: Json<V>, prefix: string): set<string>
    decreases node, 1
  {
    match node
    case Dict(entries) => FlattenEntries(entries, prefix)
    case _ => if prefix != "" then {prefix} else {}
  }

  function FlattenEntries<V>(entries: Entries<V>, prefix: string): set<string>
    decreases entries, 0
  {
    if entries == [] then {}
    else
      var last := entries[|entries| - 1];
      FlattenEntries(entries[..|entries| - 1], prefix) + Flatten(last.value, Path(prefix, last.key))
  }

  function FlattenValues<V>(entries: Entries<V>, prefix: string): map<string, Json<V>>
    decreases entries
  {
    if entries == [] then map[]
    else
      var last := entries[|entries| - 1];
      var path := Path(prefix, last.key);
      FlattenValues(entries[..|entries| - 1], prefix)
      + if last.value.Dict? then FlattenValues(last.value.entries, path) else map[path := last.value]
  }

  /** The recursion with the dictionary it fills. */
  method CollectValues<V>(entries: Entries<V>, prefix: string) returns (leaves: map<string, Json<V>>)
    ensures leaves == FlattenValues(entries, prefix)
    decreases entries
  {
    leaves := map[];
    for k := 0 to |entries|
      invariant leaves == FlattenValues(entries[..k], prefix)
    {
      var key, child := entries[k].key, entries[k].value;
      assert entries[..k + 1][..k] == entries[..k];
      var path := Path(prefix, key);
      if child.Dict? {
        var inner := CollectValues(child.entries, path);
        leaves := leaves + inner;
      } else {
        leaves := leaves[path := child];
        assert leaves == FlattenValues(entries[..k], prefix) + map[path := child];
      }
    }
    assert entries[..|entries|] == entries;
  }

  function Find<V>(entries: Entries<V>, key: string): (i: nat)
    ensures i <= |entries|
    ensures i < |entries| ==> entries[i].key == key
    ensures forall j :: 0 <= j < i ==> entries[j].key != key
  {
    if entries == [] || entries[0].key == key then 0 else Find(entries[1..], key) + 1
  }

  /** dict.get(key): None becomes Null. */
  function Get<V>(entries: Entries<V>, key: string): Json<V> {
    var i := Find(entries, key);
    if i < |entries| then entries[i].value else Null
  }

  function Lookup<V>(node: Json<V>, parts: seq<string>): Json<V>
    decreases |parts|
  {
    if parts == [] then node
    else if !node.Dict? then Null
    else Lookup(Get(node.entries, parts[0]), parts[1..])
  }

  /** The keys lead from the node to the node `v`, dictionary or leaf. */
  ghost predicate LeadsTo<V>(node: Json<V>, parts: seq<string>, v: Json<V>)
    decreases |parts|
  {
    if parts == [] then node == v
    else
      && node.Dict?
      && exists i :: Steps(node.entries, i, parts[0]) && LeadsTo(node.entries[i].value, parts[1..], v)
  }

  predicate Steps<V>(entries: Entries<V>, i: int, key: string) {
    0 <= i < |entries| && entries[i].key == key
  }

  ghost predicate UniqueNode<V>(node: Json<V>) {
    node.Dict? ==> UniqueKeys(node.entries)
  }

  /** A lookup goes on where a lookup of the first keys ends. */
  lemma {:induction false} LookupAppend<V>(node: Json<V>, p: seq<string>, q: seq<string>)
    ensures Lookup(node, p + q) == Lookup(Lookup(node, p), q)
    decreases |p|
  {
    if p == [] {
      assert p + q == q;
    } else {
      assert (p + q)[0] == p[0] && (p + q)[1..] == p[1..] + q;
      if node.Dict? {
        LookupAppend(Get(node.entries, p[0]), p[1..], q);
      } else {
        LookupNull<V>(q);
      }
    }
  }

  lemma LookupNull<V>(parts: seq<string>)
    ensures Lookup<V>(Null, parts) == Null
  {
  }

  /** What the keys lead to is looked up. */
  lemma {:induction false} LookupReached<V>(node: Json<V>, parts: seq<string>, v: Json<V>)
    requires UniqueNode(node) && LeadsTo(node, parts, v)
    ensures Lookup(node, parts) == v
    decreases |parts|
  {
    if parts == [] {
    } else {
      var i :| Steps(node.entries, i, parts[0]) && LeadsTo(node.entries[i].value, parts[1..], v);
      assert Find(node.entries, parts[0]) == i;
      LookupReached(node.entries[i].value, parts[1..], v);
    }
  }

  /** What is looked up, unless it is None, is what the keys lead to. */
  lemma {:induction false} LookupReaches<V>(node: Json<V>, parts: seq<string>)
    ensures Lookup(node, parts) == Null || LeadsTo(node, parts, Lookup(node, parts))
    decreases |parts|
  {
    if parts == [] {
    } else if node.Dict? {
      LookupReaches(Get(node.entries, parts[0]), parts[1..]);
      var i := Find(node.entries, parts[0]);
      if i == |node.entries| {
        LookupNull<V>(parts[1..]);
      } else {
        assert Steps(node.entries, i, parts[0]);
      }
    }
  }

  lemma {:induction false} LookupReachedExact<V>(node: Json<V>, parts: seq<string>)
    requires UniqueNode(node)
    ensures if exists v :: LeadsTo(node, parts, v) then LeadsTo(node, parts, Lookup(node, parts))
            else Lookup(node, parts) == Null
  {
    LookupReaches(node, parts);
    if exists v :: LeadsTo(node, parts, v) {
      var v :| LeadsTo(node, parts, v);
      LookupReached(node, parts, v);
    }
  }

  /** The cursor loop of `nested_get`: the node the keys lead to, dictionary or leaf; None when
      they lead nowhere. */
  method NestedGet<V>(data: Json<V>, parts: seq<string>) returns (current: Json<V>)
    ensures current == Lookup(data, parts)
    ensures UniqueNode(data) ==>
              if exists v :: LeadsTo(data, parts, v) then LeadsTo(data, parts, current) else current == Null
  {
    if UniqueNode(data) {
      LookupReachedExact(data, parts);
    }
    current := data;
    for k := 0 to |parts|
      invariant Lookup(current, parts[k..]) == Lookup(data, parts)
    {
      assert parts[k..][0] == parts[k] && parts[k..][1..] == parts[k + 1..];
      if !current.Dict? {
        return Null;
      }
      current := Get(current.entries, parts[k]);
    }
  }

  // ----- the two walkers agree, up to the empty path -----

  /** `flatten` returns the keys of `flatten_values` except the empty path, on every
      dictionary. */
  lemma {:induction false} SameKeys<V>(entries: Entries<V>, prefix: string)
    ensures FlattenEntries(entries, prefix) == FlattenValues(entries, prefix).Keys - {""}
    decreases entries
  {
    if entries == [] {
    } else {
      var last := entries[|entries| - 1];
      SameKeys(entries[..|entries| - 1], prefix);
      if last.value.Dict? {
        SameKeys(last.value.entries, Path(prefix, last.key));
      }
    }
  }

  /** Some leaf is reached through empty keys only. */
  predicate EmptyPath<V>(entries: Entries<V>)
    decreases entries
  {
    entries != []
    && (EmptyPath(entries[..|entries| - 1])
        || (var last := entries[|entries| - 1];
            last.key == "" && (last.value.Dict? ==> EmptyPath(last.value.entries))))
  }

  lemma {:induction false} EmptyPathKey<V>(entries: Entries<V>, prefix: string)
    ensures "" in FlattenValues(entries, prefix) <==> prefix == "" && EmptyPath(entries)
    decreases entries
  {
    if entries == [] {
    } else {
      var last := entries[|entries| - 1];
      EmptyPathKey(entries[..|entries| - 1], prefix);
      if last.value.Dict? {
        EmptyPathKey(last.value.entries, Path(prefix, last.key));
      }
    }
  }

  /** The walkers return the same keys exactly when no leaf hides behind empty keys only. */
  lemma SameKeysExact<V>(entries: Entries<V>)
    ensures Flatten(Dict(entries), "") == FlattenValues(entries, "").Keys <==> !EmptyPath(entries)
  {
    SameKeys(entries, "");
    EmptyPathKey(entries, "");
  }

  // ----- dotted paths -----

  predicate DotFree(s: string) {
    forall i :: 0 <= i < |s| ==> s[i] != '.'
  }

  function JoinDots(parts: seq<string>): string
    requires parts != []
  {
    if |parts| == 1 then parts[0] else parts[0] + "." + JoinDots(parts[1..])
  }

  /** path.split(".") */
  function SplitDots(s: string): (parts: seq<string>)
    ensures parts != []
  {
    if s == "" then [""]
    else
      var rest := SplitDots(s[1..]);
      if s[0] == '.' then [""] + rest else [[s[0]] + rest[0]] + rest[1..]
  }

  lemma {:induction false} SplitHead(part: string, rest: string)
    requires DotFree(part)
    ensures SplitDots(part + "." + rest) == [part] + SplitDots(rest)
    ensures SplitDots(part) == [part]
  {
    var s := part + "." + rest;
    if part == "" {
      assert s[1..] == rest;
    } else {
      assert s[1..] == part[1..] + "." + rest;
      SplitHead(part[1..], rest);
      assert [part[0]] + part[1..] == part;
    }
  }

  lemma {:induction false} SplitJoin(parts: seq<string>)
    requires parts != [] && forall p :: p in parts ==> DotFree(p)
    ensures SplitDots(JoinDots(parts)) == parts
  {
    if |parts| == 1 {
      SplitHead(parts[0], "");
    } else {
      SplitJoin(parts[1..]);
      SplitHead(parts[0], JoinDots(parts[1..]));
    }
  }

  // ----- leaves -----

  /** `parts` leads from the dictionary to the leaf `v`. */
  ghost predicate Leads<V>(entries: Entries<V>, parts: seq<string>, v: Json<V>)
    decreases |parts|, 0
  {
    && parts != []
    && exists i :: 0 <= i < |entries| && entries[i].key == parts[0] && LeadsFrom(entries[i].value, parts[1..], v)
  }

  ghost predicate LeadsFrom<V>(node: Json<V>, parts: seq<string>, v: Json<V>)
    decreases |parts|, 1
  {
    if node.Dict? then Leads(node.entries, parts, v) else parts == [] && node == v
  }

  /** Each key once, at every level, as in any dictionary. */
  ghost predicate UniqueKeys<V>(entries: Entries<V>)
    decreases entries
  {
    && (forall i, j :: 0 <= i < j < |entries| ==> entries[i].key != entries[j].key)
    && forall i :: 0 <= i < |entries| && entries[i].value.Dict? ==> UniqueKeys(entries[i].value.entries)
  }

  lemma UniquePrefix<V>(entries: Entries<V>, n: nat)
    requires UniqueKeys(entries) && n <= |entries|
    ensures UniqueKeys(entries[..n])
  {
  }

  function Prepended(key: string, paths: set<seq<string>>): set<seq<string>> {
    set p | p in paths :: [key] + p
  }

  /** The keys leading to each leaf. */
  function LeafPaths<V>(entries: Entries<V>): set<seq<string>>
    decreases entries
  {
    if entries == [] then {}
    else
      var last := entries[|entries| - 1];
      LeafPaths(entries[..|entries| - 1])
      + if last.value.Dict? then Prepended(last.key, LeafPaths(last.value.entries)) else {[last.key]}
  }

  lemma LeadsPrefix<V>(entries: Entries<V>, n: nat, parts: seq<string>, v: Json<V>)
    requires n <= |entries| && Leads(entries[..n], parts, v)
    ensures Leads(entries, parts, v)
  {
    var i :| 0 <= i < n && entries[..n][i].key == parts[0] && LeadsFrom(entries[..n][i].value, parts[1..], v);
    assert entries[i].key == parts[0] && LeadsFrom(entries[i].value, parts[1..], v);
  }

  lemma LeadsThrough<V>(entries: Entries<V>, i: nat, rest: seq<string>, v: Json<V>)
    requires i < |entries| && LeadsFrom(entries[i].value, rest, v)
    ensures Leads(entries, [entries[i].key] + rest, v)
  {
    assert ([entries[i].key] + rest)[1..] == rest;
  }

  lemma {:induction false} PathLeads<V>(entries: Entries<V>, parts: seq<string>) returns (v: Json<V>)
    requires parts in LeafPaths(entries)
    ensures Leads(entries, parts, v)
    decreases entries
  {
    var n := |entries| - 1;
    var last := entries[n];
    if parts in LeafPaths(entries[..n]) {
      v := PathLeads(entries[..n], parts);
      LeadsPrefix(entries, n, parts, v);
    } else if last.value.Dict? {
      var rest :| rest in LeafPaths(last.value.entries) && parts == [last.key] + rest;
      v := PathLeads(last.value.entries, rest);
      LeadsThrough(entries, n, rest, v);
    } else {
      v := last.value;
      LeadsThrough(entries, n, [], v);
    }
  }

  lemma {:induction false} LeadsPath<V>(entries: Entries<V>, parts: seq<string>, v: Json<V>)
    requires Leads(entries, parts, v)
    ensures parts in LeafPaths(entries)
    decreases entries
  {
    var n := |entries| - 1;
    var last := entries[n];
    var i :| 0 <= i < |entries| && entries[i].key == parts[0] && LeadsFrom(entries[i].value, parts[1..], v);
    assert parts == [parts[0]] + parts[1..];
    if i == n {
      if last.value.Dict? {
        LeadsPath(last.value.entries, parts[1..], v);
      } else {
        assert parts[1..] == [];
        assert parts == [last.key];
      }
    } else {
      assert entries[..n][i] == entries[i];
      LeadsPath(entries[..n], parts, v);
    }
  }

  lemma {:induction false} PrependedSize(key: string, paths: set<seq<string>>)
    ensures |Prepended(key, paths)| == |paths|
  {
    if paths != {} {
      var p :| p in paths;
      PrependedSize(key, paths - {p});
      assert Prepended(key, paths) == Prepended(key, paths - {p}) + {[key] + p};
      forall q | q in paths - {p}
        ensures [key] + q != [key] + p
      {
        assert ([key] + q)[1..] == q && ([key] + p)[1..] == p;
      }
    }
  }

  /** A path that does not start with the last key comes from an earlier entry, and no other. */
  lemma {:induction false} EarlierKey<V>(entries: Entries<V>, parts: seq<string>)
    requires entries != [] && UniqueKeys(entries) && parts in LeafPaths(entries[..|entries| - 1])
    ensures parts != [] && parts[0] != entries[|entries| - 1].key
  {
    var v := PathLeads(entries[..|entries| - 1], parts);
  }

  lemma {:induction false} LeafPathsSize<V>(entries: Entries<V>)
    requires UniqueKeys(entries)
    ensures |LeafPaths(entries)| == LeafCount(entries)
    decreases entries
  {
    if entries == [] {
    } else {
      var n := |entries| - 1;
      var last := entries[n];
      var mine := if last.value.Dict? then Prepended(last.key, LeafPaths(last.value.entries)) else {[last.key]};
      UniquePrefix(entries, n);
      LeafPathsSize(entries[..n]);
      if last.value.Dict? {
        LeafPathsSize(last.value.entries);
        PrependedSize(last.key, LeafPaths(last.value.entries));
      }
      forall p | p in LeafPaths(entries[..n])
        ensures p !in mine
      {
        EarlierKey(entries, p);
      }
    }
  }

  // ----- where a leaf is stored -----

  /** The key under which the walker stores the leaf at the end of `parts`. */
  function StoredAt(prefix: string, parts: seq<string>): string
    decreases |parts|
  {
    if parts == [] then prefix else StoredAt(Path(prefix, parts[0]), parts[1..])
  }

  /** Everything stored is a leaf, under its own path. */
  lemma {:induction false} StoredLeads<V>(entries: Entries<V>, prefix: string, path: string)
    returns (parts: seq<string>)
    requires path in FlattenValues(entries, prefix)
    ensures Leads(entries, parts, FlattenValues(entries, prefix)[path]) && path == StoredAt(prefix, parts)
    decreases entries
  {
    var n := |entries| - 1;
    var last := entries[n];
    var own := Path(prefix, last.key);
    var v := FlattenValues(entries, prefix)[path];
    if last.value.Dict? && path in FlattenValues(last.value.entries, own) {
      var rest := StoredLeads(last.value.entries, own, path);
      LeadsThrough(entries, n, rest, v);
      parts := [last.key] + rest;
      assert parts[1..] == rest;
    } else if !last.value.Dict? && path == own {
      LeadsThrough(entries, n, [], v);
      parts := [last.key];
      assert parts + [] == parts;
    } else {
      parts := StoredLeads(entries[..n], prefix, path);
      LeadsPrefix(entries, n, parts, v);
    }
  }

  /** Every leaf leaves a key, though perhaps with the value of another leaf. */
  lemma {:induction false} LeadsKey<V>(entries: Entries<V>, prefix: string, parts: seq<string>, v: Json<V>)
    requires Leads(entries, parts, v)
    ensures StoredAt(prefix, parts) in FlattenValues(entries, prefix)
    decreases entries
  {
    var n := |entries| - 1;
    var last := entries[n];
    var i :| 0 <= i < |entries| && entries[i].key == parts[0] && LeadsFrom(entries[i].value, parts[1..], v);
    if i == n {
      if last.value.Dict? {
        LeadsKey(last.value.entries, Path(prefix, last.key), parts[1..], v);
      }
    } else {
      assert entries[..n][i] == entries[i];
      LeadsKey(entries[..n], prefix, parts, v);
    }
  }

  /** Keys that survive joining and splitting: without dots, and not an empty key at the top
      with more keys below it. */
  predicate Plain(parts: seq<string>) {
    && parts != []
    && (forall p :: p in parts ==> DotFree(p))
    && (|parts| > 1 ==> parts[0] != "")
  }

  lemma {:induction false} StoredJoined(prefix: string, parts: seq<string>)
    requires parts != [] && prefix != ""
    ensures StoredAt(prefix, parts) == prefix + "." + JoinDots(parts)
    decreases |parts|
  {
    if |parts| > 1 {
      StoredJoined(Path(prefix, parts[0]), parts[1..]);
      assert prefix + "." + (parts[0] + "." + JoinDots(parts[1..]))
          == (prefix + "." + parts[0]) + "." + JoinDots(parts[1..]);
    }
  }

  lemma PlainStored(parts: seq<string>)
    requires Plain(parts)
    ensures StoredAt("", parts) == JoinDots(parts) && SplitDots(JoinDots(parts)) == parts
  {
    SplitJoin(parts);
    if |parts| > 1 {
      StoredJoined(parts[0], parts[1..]);
    } else {
      assert StoredAt(parts[0], parts[1..]) == parts[0];
    }
  }

  lemma {:induction false} StoredStarts(prefix: string, parts: seq<string>)
    ensures prefix <= StoredAt(prefix, parts)
    decreases |parts|
  {
    if parts == [] {
    } else {
      StoredStarts(Path(prefix, parts[0]), parts[1..]);
    }
  }

  /** Keys without dots are not stored under a key that starts with one. */
  lemma {:induction false} NoLeadingDot(parts: seq<string>)
    requires forall p :: p in parts ==> DotFree(p)
    ensures StoredAt("", parts) == "" || StoredAt("", parts)[0] != '.'
    decreases |parts|
  {
    if parts == [] {
    } else {
      assert parts[0] in parts;
      if parts[0] == "" {
        NoLeadingDot(parts[1..]);
      } else {
        StoredStarts(parts[0], parts[1..]);
      }
    }
  }

  // ----- splitting keys -----

  lemma {:induction false} SplitPartsDotFree(s: string)
    ensures forall p :: p in SplitDots(s) ==> DotFree(p)
  {
    if s == "" {
    } else {
      var rest := SplitDots(s[1..]);
      SplitPartsDotFree(s[1..]);
      assert rest[0] in rest && forall p :: p in rest[1..] ==> p in rest;
      assert s[0] != '.' ==> DotFree([s[0]] + rest[0]);
    }
  }

  lemma JoinHead(head: string, rest: seq<string>)
    ensures JoinDots([head] + rest) == if rest == [] then head else head + "." + JoinDots(rest)
  {
    assert ([head] + rest)[1..] == rest;
  }

  lemma Longer(c: char, head: string, rest: string)
    ensures ([c] + head) + "." + rest == [c] + (head + "." + rest)
  {
  }

  lemma JoinLonger(c: char, parts: seq<string>)
    requires parts != []
    ensures JoinDots([[c] + parts[0]] + parts[1..]) == [c] + JoinDots(parts)
  {
    JoinHead([c] + parts[0], parts[1..]);
    if |parts| > 1 {
      Longer(c, parts[0], JoinDots(parts[1..]));
    }
  }

  lemma {:induction false} JoinSplit(s: string)
    ensures JoinDots(SplitDots(s)) == s
  {
    if s == "" {
    } else {
      var rest := SplitDots(s[1..]);
      JoinSplit(s[1..]);
      assert s == [s[0]] + s[1..];
      if s[0] == '.' {
        JoinHead("", rest);
      } else {
        JoinLonger(s[0], rest);
      }
    }
  }

  function Splits(keys: set<string>): set<seq<string>> {
    set k | k in keys :: SplitDots(k)
  }

  lemma {:induction false} SplitsSize(keys: set<string>)
    ensures |Splits(keys)| == |keys|
  {
    if keys != {} {
      var k :| k in keys;
      SplitsSize(keys - {k});
      assert Splits(keys) == Splits(keys - {k}) + {SplitDots(k)};
      forall l | l in keys - {k}
        ensures SplitDots(l) != SplitDots(k)
      {
        JoinSplit(l);
        JoinSplit(k);
      }
    }
  }

  lemma SubsetOfSameSize<T>(a: set<T>, b: set<T>)
    requires a <= b && |a| == |b|
    ensures a == b
  {
    assert b == a + (b - a);
  }

  // ----- looking up -----

  /** Leading to a leaf is leading to a node that is no dictionary. */
  lemma {:induction false} LeadsReaches<V>(node: Json<V>, parts: seq<string>, v: Json<V>)
    ensures LeadsFrom(node, parts, v) <==> LeadsTo(node, parts, v) && !v.Dict?
    decreases |parts|
  {
    if parts != [] && node.Dict? {
      var entries := node.entries;
      forall i | Steps(entries, i, parts[0])
        ensures LeadsFrom(entries[i].value, parts[1..], v) <==> LeadsTo(entries[i].value, parts[1..], v) && !v.Dict?
      {
        LeadsReaches(entries[i].value, parts[1..], v);
      }
      if LeadsFrom(node, parts, v) {
        assert Leads(entries, parts, v);
        var i :| 0 <= i < |entries| && entries[i].key == parts[0] && LeadsFrom(entries[i].value, parts[1..], v);
        assert Steps(entries, i, parts[0]);
      }
      if LeadsTo(node, parts, v) && !v.Dict? {
        var i :| Steps(entries, i, parts[0]) && LeadsTo(entries[i].value, parts[1..], v);
        assert entries[i].key == parts[0] && LeadsFrom(entries[i].value, parts[1..], v);
      }
    }
  }

  lemma LeadsLookup<V>(entries: Entries<V>, parts: seq<string>, v: Json<V>)
    requires UniqueKeys(entries) && Leads(entries, parts, v)
    ensures Lookup(Dict(entries), parts) == v
  {
    LeadsReaches(Dict(entries), parts, v);
    LookupReached(Dict(entries), parts, v);
  }

  lemma LookupLeads<V>(node: Json<V>, parts: seq<string>)
    requires Lookup(node, parts).Leaf?
    ensures LeadsFrom(node, parts, Lookup(node, parts))
  {
    LookupReaches(node, parts);
    LeadsReaches(node, parts, Lookup(node, parts));
  }

  ghost predicate NoNullLeaf<V>(entries: Entries<V>) {
    forall parts, v :: Leads(entries, parts, v) ==> v != Null
  }

  ghost predicate AllPlain<V>(entries: Entries<V>) {
    forall parts :: parts in LeafPaths(entries) ==> Plain(parts)
  }

  /** Every flattened key, split at its dots, looks up the value stored under it. */
  ghost predicate AllLookUp<V>(entries: Entries<V>) {
    forall path :: path in FlattenValues(entries, "") ==>
      Lookup(Dict(entries), SplitDots(path)) == FlattenValues(entries, "")[path]
  }

  /** With plain keys a flattened key splits into the keys that lead to its value. */
  lemma PlainKey<V>(entries: Entries<V>, path: string)
    requires AllPlain(entries) && path in FlattenValues(entries, "")
    ensures Leads(entries, SplitDots(path), FlattenValues(entries, "")[path])
  {
    var parts := StoredLeads(entries, "", path);
    LeadsPath(entries, parts, FlattenValues(entries, "")[path]);
    PlainStored(parts);
  }

  /** Every leaf is stored under its joined keys, and no other leaf overwrites it. */
  lemma LeadsStored<V>(entries: Entries<V>, parts: seq<string>, v: Json<V>)
    requires UniqueKeys(entries) && AllPlain(entries) && Leads(entries, parts, v)
    ensures JoinDots(parts) in FlattenValues(entries, "") && FlattenValues(entries, "")[JoinDots(parts)] == v
  {
    LeadsPath(entries, parts, v);
    PlainStored(parts);
    LeadsKey(entries, "", parts, v);
    PlainKey(entries, JoinDots(parts));
    LeadsLookup(entries, parts, v);
    LeadsLookup(entries, parts, FlattenValues(entries, "")[JoinDots(parts)]);
  }

  /** With plain keys the flattened keys, split, are the paths of the leaves. */
  lemma PlainPaths<V>(entries: Entries<V>)
    requires AllPlain(entries)
    ensures Splits(FlattenValues(entries, "").Keys) == LeafPaths(entries)
  {
    var keys := FlattenValues(entries, "").Keys;
    forall path | path in keys
      ensures SplitDots(path) in LeafPaths(entries)
    {
      PlainKey(entries, path);
      LeadsPath(entries, SplitDots(path), FlattenValues(entries, "")[path]);
    }
    forall parts | parts in LeafPaths(entries)
      ensures parts in Splits(keys)
    {
      var v := PathLeads(entries, parts);
      LeadsKey(entries, "", parts, v);
      PlainStored(parts);
      assert SplitDots(JoinDots(parts)) == parts;
    }
  }

  /** If every leaf has its own key and every key looks up its value, the keys split into the
      paths of the leaves, all of them. */
  lemma {:induction false} LookedUpPaths<V>(entries: Entries<V>)
    requires UniqueKeys(entries) && NoNullLeaf(entries) && AllLookUp(entries)
    requires |FlattenValues(entries, "")| == LeafCount(entries)
    ensures Splits(FlattenValues(entries, "").Keys) == LeafPaths(entries)
  {
    var keys := FlattenValues(entries, "").Keys;
    forall path | path in keys
      ensures SplitDots(path) in LeafPaths(entries)
    {
      var v := FlattenValues(entries, "")[path];
      var parts := StoredLeads(entries, "", path);
      LeadsToLeaf(entries, parts, v);
      LookupLeads(Dict(entries), SplitDots(path));
      LeadsPath(entries, SplitDots(path), v);
    }
    SplitsSize(keys);
    LeafPathsSize(entries);
    SubsetOfSameSize(Splits(keys), LeafPaths(entries));
  }

  lemma {:induction false} LeadsToLeaf<V>(entries: Entries<V>, parts: seq<string>, v: Json<V>)
    requires Leads(entries, parts, v)
    ensures !v.Dict?
    decreases |parts|
  {
    var i :| 0 <= i < |entries| && entries[i].key == parts[0] && LeadsFrom(entries[i].value, parts[1..], v);
    if entries[i].value.Dict? {
      LeadsToLeaf(entries[i].value.entries, parts[1..], v);
    }
  }

  lemma SplitsPlain<V>(entries: Entries<V>)
    requires Splits(FlattenValues(entries, "").Keys) == LeafPaths(entries)
    ensures AllPlain(entries)
  {
    forall parts | parts in LeafPaths(entries)
      ensures forall p :: p in parts ==> DotFree(p)
    {
      var path :| path in FlattenValues(entries, "") && SplitDots(path) == parts;
      SplitPartsDotFree(path);
    }
    forall parts | parts in LeafPaths(entries)
      ensures Plain(parts)
    {
      var path :| path in FlattenValues(entries, "") && SplitDots(path) == parts;
      JoinSplit(path);
      var from := StoredLeads(entries, "", path);
      LeadsPath(entries, from, FlattenValues(entries, "")[path]);
      NoLeadingDot(from);
    }
  }

  /** Every leaf has a key of its own that looks it up exactly when the keys leading to leaves
      are plain. */
  lemma LookupExact<V>(entries: Entries<V>)
    requires UniqueKeys(entries) && NoNullLeaf(entries)
    ensures AllLookUp(entries) && |FlattenValues(entries, "")| == LeafCount(entries) <==> AllPlain(entries)
  {
    if AllPlain(entries) {
      forall path | path in FlattenValues(entries, "")
        ensures Lookup(Dict(entries), SplitDots(path)) == FlattenValues(entries, "")[path]
      {
        LookupFlattened(entries, path);
      }
      FlattenCount(entries);
    } else if AllLookUp(entries) && |FlattenValues(entries, "")| == LeafCount(entries) {
      LookedUpPaths(entries);
      SplitsPlain(entries);
    }
  }

  /** Looking up a flattened key, split at its dots, returns the value stored under it. */
  lemma {:induction false} LookupFlattened<V>(entries: Entries<V>, path: string)
    requires UniqueKeys(entries) && AllPlain(entries)
    requires path in FlattenValues(entries, "")
    ensures Lookup(Dict(entries), SplitDots(path)) == FlattenValues(entries, "")[path]
  {
    PlainKey(entries, path);
    LeadsLookup(entries, SplitDots(path), FlattenValues(entries, "")[path]);
  }

  /** A key with a dot and no other key beside it is flattened to a path that looks up nothing. */
  lemma DottedKeyIsLost<V>(key: string, v: V)
    requires !DotFree(key)
    ensures var entries := [Field(key, Leaf(v))];
            && FlattenValues(entries, "") == map[key := Leaf(v)]
            && Lookup(Dict(entries), SplitDots(key)) == Null
  {
    var entries: Entries<V> := [Field(key, Leaf(v))];
    assert entries[..0] == [];
    SplitPartsDotFree(key);
    var first := SplitDots(key)[0];
    assert first in SplitDots(key);
    assert Find(entries, first) == 1 by { assert Find(entries[1..], first) == 0; }
    assert Get(entries, first) == Null;
  }

  /** Beside the keys it imitates, its own value is lost, and the path looks up the other one. */
  lemma DottedKeyIsOverwritten<V>(a: string, b: string, v: V, w: V)
    requires a != "" && DotFree(a) && DotFree(b)
    ensures var path := a + "." + b;
            var entries := [Field(path, Leaf(v)), Field(a, Dict([Field(b, Leaf(w))]))];
            && FlattenValues(entries, "") == map[path := Leaf(w)]
            && Lookup(Dict(entries), SplitDots(path)) == Leaf(w)
  {
    var path := a + "." + b;
    var inner: Entries<V> := [Field(b, Leaf(w))];
    var first: Entries<V> := [Field(path, Leaf(v))];
    var entries: Entries<V> := first + [Field(a, Dict(inner))];
    assert entries[..1] == first && first[..0] == [] && inner[..0] == [];
    assert FlattenValues(first, "") == map[path := Leaf(v)];
    assert FlattenValues(inner, a) == map[path := Leaf(w)];
    SplitHead(a, b);
    SplitHead(b, "");
    assert path != a && [a, b][1..] == [b] && [b][1..] == [];
    assert Find(entries, a) == 1 by { assert Find(entries[1..], a) == 0; }
    assert Find(inner, b) == 0;
    assert Lookup(Dict(inner), [b]) == Lookup(Leaf(w), []);
    assert Lookup(Dict(entries), [a, b]) == Lookup(Dict(inner), [b]);
  }

  // ----- counting -----

  function LeafCount<V>(entries: Entries<V>): nat
    decreases entries
  {
    if entries == [] then 0
    else
      var last := entries[|entries| - 1];
      LeafCount(entries[..|entries| - 1]) + if last.value.Dict? then LeafCount(last.value.entries) else 1
  }

  /** One flattened key per leaf; `flatten` counts them all unless a leaf hangs at the top under
      the empty key. */
  lemma {:induction false} FlattenCount<V>(entries: Entries<V>)
    requires UniqueKeys(entries) && AllPlain(entries)
    ensures |FlattenValues(entries, "")| == LeafCount(entries)
    ensures |Flatten(Dict(entries), "")| == LeafCount(entries) <==> [""] !in LeafPaths(entries)
  {
    var keys := FlattenValues(entries, "").Keys;
    PlainPaths(entries);
    SplitsSize(keys);
    LeafPathsSize(entries);
    SameKeys(entries, "");
    assert "" in keys <==> [""] in Splits(keys) by {
      forall k | k in keys && SplitDots(k) == [""]
        ensures k == ""
      {
        JoinSplit(k);
      }
      assert SplitDots("") == [""];
    }
  }
}
