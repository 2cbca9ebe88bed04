/** The contract-coverage report: which registered channels have exactly one factory. */
module ContractScan {
  import opened Wrappers
  import opened PathSearch
  import opened Inheritance

  const CHANNEL_PACKAGE := "qwenpaw.app.channels"

  // ----- the registry -----

  datatype Spec = Spec(key: string, modulePath: string, className: string)

  /** The canonical test path of a registry key. */
  function TestPath(key: string): string {
    "tests/contract/channels/test_" + key + "_contract.py"
  }

  datatype KeyNode = Unpacking | NotString | Key(key: string)
  datatype ValueNode = NotPair | PairOf(modulePath: Option<string>, className: Option<string>)
  datatype RegistryEntry = RegistryEntry(key: KeyNode, value: ValueNode)

  predicate ValidKey(key: string) {
    && key != "" && 'a' <= key[0] <= 'z'
    && forall i :: 0 <= i < |key| ==> 'a' <= key[i] <= 'z' || '0' <= key[i] <= '9' || key[i] == '_'
  }

  /** Package-relative: starts with a dot and is not made of dots only. */
  predicate ValidModule(m: string) {
    m != "" && m[0] == '.' && exists i :: 0 <= i < |m| && m[i] != '.'
  }

  /** Leading dots, and something behind them. */
  lemma ValidModuleExact(m: string)
    ensures ValidModule(m) <==>
            exists n :: 0 < n < |m| && (forall i :: 0 <= i < n ==> m[i] == '.') && m[n] != '.'
  {
    if ValidModule(m) {
      var k :| 0 <= k < |m| && m[k] != '.';
      var n := 0;
      while m[n] == '.'
        invariant 0 <= n <= k && forall i :: 0 <= i < n ==> m[i] == '.'
        decreases k - n
      {
        n := n + 1;
      }
      assert 0 < n < |m| && (forall i :: 0 <= i < n ==> m[i] == '.') && m[n] != '.';
    }
  }

  predicate ValidEntry(e: RegistryEntry) {
    && e.key.Key? && ValidKey(e.key.key)
    && e.value.PairOf? && e.value.modulePath.Some? && e.value.className.Some?
    && ValidModule(e.value.modulePath.value)
  }

  function SpecOf(e: RegistryEntry): Spec
    requires ValidEntry(e)
  {
    Spec(e.key.key, e.value.modulePath.value, e.value.className.value)
  }

  datatype LoadResult = Loaded(specs: seq<Spec>) | Failed(message: string)

  ghost predicate DistinctSpecs(specs: seq<Spec>) {
    forall i, j :: 0 <= i < j < |specs| ==>
      specs[i].key != specs[j].key && specs[i].className != specs[j].className
  }

  /** Two entries repeat a key or a class. */
  ghost predicate Clash(entries: seq<RegistryEntry>, i: nat, j: nat)
    requires i < |entries| && j < |entries| && ValidEntry(entries[i]) && ValidEntry(entries[j])
  {
    SpecOf(entries[i]).key == SpecOf(entries[j]).key || SpecOf(entries[i]).className == SpecOf(entries[j]).className
  }

  /** A registry that can be loaded: not empty, every entry valid, no key or class repeated. */
  ghost predicate Loadable(entries: seq<RegistryEntry>) {
    && entries != []
    && (forall i :: 0 <= i < |entries| ==> ValidEntry(entries[i]))
    && forall i, j :: 0 <= i < j < |entries| ==> !Clash(entries, i, j)
  }

  /** The first thing wrong with an entry by itself, "" when nothing is. */
  function EntryError(e: RegistryEntry): (error: string)
    ensures error == "" <==> ValidEntry(e)
  {
    if e.key.Unpacking? then "_BUILTIN_SPECS cannot contain dictionary unpacking"
    else if e.key.NotString? then "channel registry key must be a string literal"
    else if !ValidKey(e.key.key) then "invalid channel registry key"
    else if e.value.NotPair? then "registry entry must be a (module, class) pair"
    else if e.value.modulePath.None? || e.value.className.None? then "module and class must be string literals"
    else if !ValidModule(e.value.modulePath.value) then "module must be package-relative"
    else ""
  }

  /** The specs of a loaded registry are its entries in order. */
  method LoadBuiltinSpecs(entries: seq<RegistryEntry>) returns (r: LoadResult)
    ensures r.Loaded? <==> Loadable(entries)
    ensures r.Loaded? ==>
              && r.specs != [] && |r.specs| == |entries| && DistinctSpecs(r.specs)
              && forall i :: 0 <= i < |entries| ==> r.specs[i] == SpecOf(entries[i])
  {
    var specs: seq<Spec> := [];
    var seenKeys, seenClasses: set<string> := {}, {};
    for k := 0 to |entries|
      invariant |specs| == k && DistinctSpecs(specs)
      invariant forall i :: 0 <= i < k ==> ValidEntry(entries[i]) && specs[i] == SpecOf(entries[i])
      invariant seenKeys == set i | 0 <= i < k :: specs[i].key
      invariant seenClasses == set i | 0 <= i < k :: specs[i].className
    {
      var e := entries[k];
      var error := EntryError(e);
      if error != "" {
        return Failed(error);
      }
      var spec := SpecOf(e);
      if spec.key in seenKeys {
        ghost var i :| 0 <= i < k && specs[i].key == spec.key;
        assert Clash(entries, i, k);
        return Failed("duplicate registry key");
      }
      if spec.className in seenClasses {
        ghost var i :| 0 <= i < k && specs[i].className == spec.className;
        assert Clash(entries, i, k);
        return Failed("duplicate registered class");
      }
      seenKeys := seenKeys + {spec.key};
      seenClasses := seenClasses + {spec.className};
      specs := specs + [spec];
    }
    if specs == [] {
      return Failed("_BUILTIN_SPECS is empty");
    }
    r := Loaded(specs);
  }

  lemma TestPathInjective(a: string, b: string)
    requires TestPath(a) == TestPath(b)
    ensures a == b
  {
    var pre, post := "tests/contract/channels/test_", "_contract.py";
    assert |a| == |b|;
    assert a == TestPath(a)[|pre|..|pre| + |a|];
    assert b == TestPath(b)[|pre|..|pre| + |b|];
  }

  // ----- registered classes -----

  /** Exports of each module, and the bases of each channel source class. */
  datatype SourceIndex = SourceIndex(classes: Graph, modules: map<string, map<string, string>>)

  /** The module of the spec exports its class as `t`, a channel source class that derives from
      BaseChannel. */
  ghost predicate Resolves(spec: Spec, index: SourceIndex, t: string) {
    var name := CHANNEL_PACKAGE + spec.modulePath;
    && name in index.modules && spec.className in index.modules[name] && index.modules[name][spec.className] == t
    && t in index.classes && ReachesBase(t, index.classes, BASE_CHANNEL)
  }

  ghost predicate Resolvable(spec: Spec, index: SourceIndex) {
    exists t :: Resolves(spec, index, t)
  }

  /** A test may import the class of a spec under its public name or from where it is defined. */
  ghost predicate Registers(spec: Spec, index: SourceIndex, name: string) {
    var publicName := CHANNEL_PACKAGE + spec.modulePath + "." + spec.className;
    exists t :: Resolves(spec, index, t) && (name == t || name == publicName)
  }

  ghost function RegisteredNames(index: SourceIndex): iset<(Spec, string)> {
    iset p: (Spec, string) | Registers(p.0, index, p.1)
  }

  /** The i-th spec is the last one that registers the name. */
  ghost predicate RegistersLast(specs: seq<Spec>, names: iset<(Spec, string)>, name: string, i: nat) {
    && i < |specs| && (specs[i], name) in names
    && forall j :: i < j < |specs| ==> (specs[j], name) !in names
  }

  ghost predicate StandsFor(specs: seq<Spec>, names: iset<(Spec, string)>, name: string, cls: string) {
    exists i: nat :: RegistersLast(specs, names, name, i) && cls == specs[i].className
  }

  /** Exactly the registered names are accepted, each for the last spec that registers it. */
  ghost predicate Registry(accepted: map<string, string>, specs: seq<Spec>, names: iset<(Spec, string)>) {
    && (forall i, name :: 0 <= i < |specs| && (specs[i], name) in names ==> name in accepted)
    && forall name :: name in accepted ==> StandsFor(specs, names, name, accepted[name])
  }

  lemma StandsForSnoc(specs: seq<Spec>, names: iset<(Spec, string)>, spec: Spec, name: string, cls: string)
    ensures (spec, name) in names ==> StandsFor(specs + [spec], names, name, spec.className)
    ensures (spec, name) !in names && StandsFor(specs, names, name, cls) ==>
              StandsFor(specs + [spec], names, name, cls)
  {
    var all := specs + [spec];
    if (spec, name) in names {
      assert RegistersLast(all, names, name, |specs|);
    } else if StandsFor(specs, names, name, cls) {
      var i: nat :| RegistersLast(specs, names, name, i) && cls == specs[i].className;
      assert RegistersLast(all, names, name, i);
    }
  }

  lemma RegistrySnoc(accepted: map<string, string>, specs: seq<Spec>, names: iset<(Spec, string)>, spec: Spec,
                     accepted': map<string, string>)
    requires Registry(accepted, specs, names)
    requires forall name :: name in accepted' <==> name in accepted || (spec, name) in names
    requires forall name :: name in accepted' ==>
               accepted'[name] == if (spec, name) in names then spec.className else accepted[name]
    ensures Registry(accepted', specs + [spec], names)
  {
    forall name | name in accepted'
      ensures StandsFor(specs + [spec], names, name, accepted'[name])
    {
      StandsForSnoc(specs, names, spec, name, accepted'[name]);
    }
  }

  /** The spec an accepted name stands for. */
  lemma AcceptedSpec(accepted: map<string, string>, specs: seq<Spec>, names: iset<(Spec, string)>, name: string)
    returns (i: nat)
    requires Registry(accepted, specs, names) && name in accepted
    ensures RegistersLast(specs, names, name, i) && accepted[name] == specs[i].className
    ensures i < |specs| && (specs[i], name) in names
  {
    assert StandsFor(specs, names, name, accepted[name]);
    i :| RegistersLast(specs, names, name, i) && accepted[name] == specs[i].className;
  }

  lemma OneLast(specs: seq<Spec>, names: iset<(Spec, string)>, name: string, i: nat, j: nat)
    requires RegistersLast(specs, names, name, i) && RegistersLast(specs, names, name, j)
    ensures i == j
  {
  }

  datatype SourceError = SourceError(key: string, why: string)

  /** The class of one spec, or why there is none. */
  method ResolveClass(spec: Spec, index: SourceIndex) returns (target: Option<string>, why: string)
    ensures target.Some? ==> Resolves(spec, index, target.value)
    ensures target.None? ==> !Resolvable(spec, index)
  {
    target, why := None, "";
    var moduleName := CHANNEL_PACKAGE + spec.modulePath;
    if moduleName !in index.modules {
      return None, "registry module is missing";
    }
    var exports := index.modules[moduleName];
    if spec.className !in exports {
      return None, "class is not exported";
    }
    var t := exports[spec.className];
    if t !in index.classes {
      return None, "not a channel source class";
    }
    InheritsBaseChannelExact(t, index.classes);
    if !InheritsBaseChannel(t, index.classes, {}) {
      return None, "does not inherit the canonical BaseChannel";
    }
    target := Some(t);
  }

  ghost function Unresolvable(index: SourceIndex): iset<Spec> {
    iset spec: Spec | !Resolvable(spec, index)
  }

  ghost function ErrorKeys(errors: seq<SourceError>): seq<string> {
    if errors == [] then [] else ErrorKeys(errors[..|errors| - 1]) + [errors[|errors| - 1].key]
  }

  ghost function KeysOf(specs: seq<Spec>, bad: iset<Spec>): seq<string> {
    if specs == [] then []
    else
      var last := specs[|specs| - 1];
      KeysOf(specs[..|specs| - 1], bad) + if last in bad then [last.key] else []
  }

  lemma ErrorKeysSnoc(errors: seq<SourceError>, e: SourceError)
    ensures ErrorKeys(errors + [e]) == ErrorKeys(errors) + [e.key]
  {
    assert (errors + [e])[..|errors|] == errors;
  }

  lemma KeysOfSnoc(specs: seq<Spec>, spec: Spec, bad: iset<Spec>)
    ensures KeysOf(specs + [spec], bad) == KeysOf(specs, bad) + if spec in bad then [spec.key] else []
  {
    assert (specs + [spec])[..|specs|] == specs;
  }

  lemma {:induction false} NoKeys(specs: seq<Spec>, bad: iset<Spec>)
    ensures KeysOf(specs, bad) == [] <==> forall spec :: spec in specs ==> spec !in bad
  {
    if specs == [] {
    } else {
      var init, last := specs[..|specs| - 1], specs[|specs| - 1];
      NoKeys(init, bad);
      assert specs == init + [last];
      assert forall x :: x in specs <==> x in init || x == last;
    }
  }

  lemma {:induction false} AcceptsBoth(accepted: map<string, string>, specs: seq<Spec>, index: SourceIndex,
                                       spec: Spec, t: string)
    requires Registry(accepted, specs, RegisteredNames(index)) && Resolves(spec, index, t)
    ensures var publicName := CHANNEL_PACKAGE + spec.modulePath + "." + spec.className;
            var accepted' := accepted[publicName := spec.className][t := spec.className];
            Registry(accepted', specs + [spec], RegisteredNames(index))
  {
    var publicName := CHANNEL_PACKAGE + spec.modulePath + "." + spec.className;
    RegistersExact(spec, index, t);
    RegistrySnoc(accepted, specs, RegisteredNames(index), spec,
                 accepted[publicName := spec.className][t := spec.className]);
  }

  lemma {:induction false} AcceptsNone(accepted: map<string, string>, specs: seq<Spec>, index: SourceIndex, spec: Spec)
    requires Registry(accepted, specs, RegisteredNames(index)) && !Resolvable(spec, index)
    ensures Registry(accepted, specs + [spec], RegisteredNames(index))
  {
    RegistrySnoc(accepted, specs, RegisteredNames(index), spec, accepted);
  }

  /** Both names of every spec that resolves are accepted, and the other specs are the errors, in
      order. */
  method ResolveRegisteredClasses(specs: seq<Spec>, index: SourceIndex)
    returns (accepted: map<string, string>, errors: seq<SourceError>)
    ensures Registry(accepted, specs, RegisteredNames(index))
    ensures forall spec, t :: spec in specs && Resolves(spec, index, t) ==>
              t in accepted && (CHANNEL_PACKAGE + spec.modulePath + "." + spec.className) in accepted
    ensures ErrorKeys(errors) == KeysOf(specs, Unresolvable(index))
    ensures errors == [] <==> forall spec :: spec in specs ==> Resolvable(spec, index)
  {
    accepted, errors := map[], [];
    ghost var bad := Unresolvable(index);
    for k := 0 to |specs|
      invariant Registry(accepted, specs[..k], RegisteredNames(index))
      invariant ErrorKeys(errors) == KeysOf(specs[..k], bad)
    {
      var spec := specs[k];
      assert specs[..k + 1] == specs[..k] + [spec];
      KeysOfSnoc(specs[..k], spec, bad);
      var target, why := ResolveClass(spec, index);
      if target.None? {
        AcceptsNone(accepted, specs[..k], index, spec);
        ErrorKeysSnoc(errors, SourceError(spec.key, why));
        errors := errors + [SourceError(spec.key, why)];
        continue;
      }
      AcceptsBoth(accepted, specs[..k], index, spec, target.value);
      var publicName := CHANNEL_PACKAGE + spec.modulePath + "." + spec.className;
      accepted := accepted[publicName := spec.className];
      accepted := accepted[target.value := spec.className];
    }
    assert specs[..|specs|] == specs;
    NoKeys(specs, bad);
    forall spec, t | spec in specs && Resolves(spec, index, t)
      ensures t in accepted && (CHANNEL_PACKAGE + spec.modulePath + "." + spec.className) in accepted
    {
      BothAccepted(accepted, specs, index, spec, t);
    }
  }

  lemma BothAccepted(accepted: map<string, string>, specs: seq<Spec>, index: SourceIndex, spec: Spec, t: string)
    requires Registry(accepted, specs, RegisteredNames(index)) && spec in specs && Resolves(spec, index, t)
    ensures t in accepted && (CHANNEL_PACKAGE + spec.modulePath + "." + spec.className) in accepted
  {
    var publicName := CHANNEL_PACKAGE + spec.modulePath + "." + spec.className;
    var i :| 0 <= i < |specs| && specs[i] == spec;
    RegistersExact(spec, index, t);
    assert (specs[i], t) in RegisteredNames(index) && (specs[i], publicName) in RegisteredNames(index);
  }

  lemma RegistersExact(spec: Spec, index: SourceIndex, t: string)
    requires Resolves(spec, index, t)
    ensures Registers(spec, index, t)
    ensures forall name :: Registers(spec, index, name) <==>
              name == t || name == CHANNEL_PACKAGE + spec.modulePath + "." + spec.className
  {
  }

  // ----- the audited classes of a test file -----

  ghost predicate LocalPath(ds: Declarations, bases: Graph, p: seq<string>) {
    && p != []
    && (forall i :: 0 <= i < |p| ==> p[i] in ds)
    && forall i :: 0 <= i < |p| - 1 ==> p[i + 1] in Bases(bases, p[i])
  }

  /** The classes reached from the contract classes through local bases. */
  ghost function Audited(names: set<string>, ds: Declarations, bases: Graph): set<string> {
    set q | q in ds && exists p :: LocalPath(ds, bases, p) && p[0] in names && p[|p| - 1] == q
  }

  ghost predicate ClosedUnderBases(s: set<string>, ds: Declarations, bases: Graph) {
    forall q, b :: q in s && b in Bases(bases, q) && b in ds ==> b in s
  }

  lemma PathExtends(names: set<string>, ds: Declarations, bases: Graph, q: string, b: string)
    requires q in Audited(names, ds, bases) && b in Bases(bases, q) && b in ds
    ensures b in Audited(names, ds, bases)
  {
    var p :| LocalPath(ds, bases, p) && p[0] in names && p[|p| - 1] == q;
    var p' := p + [b];
    assert LocalPath(ds, bases, p');
    assert p'[0] in names && p'[|p'| - 1] == b;
  }

  lemma {:induction false} PathStaysInside(s: set<string>, ds: Declarations, bases: Graph, p: seq<string>)
    requires ClosedUnderBases(s, ds, bases) && LocalPath(ds, bases, p) && p[0] in s
    ensures p[|p| - 1] in s
    decreases |p|
  {
    if |p| > 1 {
      var rest := p[1..];
      assert forall i :: 0 <= i < |rest| ==> rest[i] == p[i + 1];
      PathStaysInside(s, ds, bases, rest);
    }
  }

  /** The audited classes are the least set with the contract classes closed under local bases. */
  lemma {:induction false} AuditedLeast(names: set<string>, ds: Declarations, bases: Graph)
    requires names <= ds.Keys
    ensures var a := Audited(names, ds, bases);
            && names <= a && ClosedUnderBases(a, ds, bases)
            && forall s: set<string> :: names <= s && ClosedUnderBases(s, ds, bases) ==> a <= s
  {
    var a := Audited(names, ds, bases);
    forall q | q in names
      ensures q in a
    {
      var p := [q];
      assert LocalPath(ds, bases, p) && p[0] in names && p[|p| - 1] == q;
    }
    forall q, b | q in a && b in Bases(bases, q) && b in ds
      ensures b in a
    {
      PathExtends(names, ds, bases, q, b);
    }
    forall s: set<string>, q | names <= s && ClosedUnderBases(s, ds, bases) && q in a
      ensures q in s
    {
      var p :| LocalPath(ds, bases, p) && p[0] in names && p[|p| - 1] == q;
      PathStaysInside(s, ds, bases, p);
    }
  }

  /** The local bases of one class join the audited names, and the new ones the worklist. */
  method PushBases(bs: seq<string>, ds: Declarations, audited0: set<string>, pending0: seq<string>)
    returns (audited: set<string>, pending: seq<string>)
    ensures audited0 <= audited
    ensures forall b :: b in bs && b in ds ==> b in audited
    ensures forall q :: q in audited && q !in audited0 ==> q in bs && q in ds
    ensures forall q :: q in pending <==> q in pending0 || (q in audited && q !in audited0)
    ensures |ds.Keys - audited| + |pending| <= |ds.Keys - audited0| + |pending0|
  {
    audited, pending := audited0, pending0;
    for k := 0 to |bs|
      invariant audited0 <= audited
      invariant forall i :: 0 <= i < k && bs[i] in ds ==> bs[i] in audited
      invariant forall q :: q in audited && q !in audited0 ==> q in bs && q in ds
      invariant forall q :: q in pending <==> q in pending0 || (q in audited && q !in audited0)
      invariant |ds.Keys - audited| + |pending| <= |ds.Keys - audited0| + |pending0|
    {
      var b := bs[k];
      if b in ds && b !in audited {
        Shrinks(ds.Keys, audited, b);
        ghost var before := pending;
        audited := audited + {b};
        pending := pending + [b];
        assert forall q :: q in pending <==> q in before || q == b;
      }
    }
  }

  /** Every local base of an audited class that is not waiting has been audited. */
  ghost predicate Expanded(audited: set<string>, pending: seq<string>, ds: Declarations, bases: Graph) {
    && (forall q :: q in pending ==> q in audited)
    && forall q, b :: q in audited && q !in pending && b in Bases(bases, q) && b in ds ==> b in audited
  }

  lemma ExpandOne(audited: set<string>, pending: seq<string>, name: string, audited': set<string>,
                  pending': seq<string>,
                  ds: Declarations, bases: Graph)
    requires Expanded(audited, pending + [name], ds, bases)
    requires audited <= audited' && forall b :: b in Bases(bases, name) && b in ds ==> b in audited'
    requires forall q :: q in pending' <==> q in pending || (q in audited' && q !in audited)
    ensures Expanded(audited', pending', ds, bases)
  {
    assert forall q :: q in pending + [name] <==> q in pending || q == name;
  }

  /** Expanding one class adds local bases only, so a closed set is not left. */
  lemma StaysInBound(audited: set<string>, name: string, audited': set<string>, bound: set<string>,
                     ds: Declarations, bases: Graph)
    requires ClosedUnderBases(bound, ds, bases) && audited <= bound && name in bound
    requires forall q :: q in audited' && q !in audited ==> q in Bases(bases, name) && q in ds
    ensures audited' <= bound
  {
  }

  lemma NothingPending(audited: set<string>, ds: Declarations, bases: Graph)
    requires Expanded(audited, [], ds, bases)
    ensures ClosedUnderBases(audited, ds, bases)
  {
  }

  /** One round of the worklist loop. */
  method ExpandLast(audited0: set<string>, pending0: seq<string>, ds: Declarations, bases: Graph,
                    ghost bound: set<string>)
    returns (audited: set<string>, pending: seq<string>)
    requires pending0 != [] && Expanded(audited0, pending0, ds, bases)
    requires ClosedUnderBases(bound, ds, bases) && audited0 <= bound
    ensures audited0 <= audited <= bound && Expanded(audited, pending, ds, bases)
    ensures |ds.Keys - audited| + |pending| < |ds.Keys - audited0| + |pending0|
  {
    var name := pending0[|pending0| - 1];
    var rest := pending0[..|pending0| - 1];
    assert pending0 == rest + [name];
    assert name in audited0;
    audited, pending := PushBases(Bases(bases, name), ds, audited0, rest);
    StaysInBound(audited0, name, audited, bound, ds, bases);
    ExpandOne(audited0, rest, name, audited, pending, ds, bases);
  }

  /** The worklist loop: it stays inside any closed set it starts in, and ends closed. */
  method Saturate(names: seq<string>, ds: Declarations, bases: Graph, ghost bound: set<string>)
    returns (audited: set<string>)
    requires ClosedUnderBases(bound, ds, bases) && forall n :: n in names ==> n in bound
    ensures audited <= bound && ClosedUnderBases(audited, ds, bases) && forall n :: n in names ==> n in audited
  {
    audited := set n | n in names;
    var pending := names;
    while pending != []
      invariant audited <= bound && forall n :: n in names ==> n in audited
      invariant Expanded(audited, pending, ds, bases)
      decreases |ds.Keys - audited| + |pending|
    {
      audited, pending := ExpandLast(audited, pending, ds, bases, bound);
    }
    NothingPending(audited, ds, bases);
  }

  method AuditNames(names: seq<string>, ds: Declarations, bases: Graph) returns (audited: set<string>)
    requires forall i :: 0 <= i < |names| ==> names[i] in ds
    ensures audited == Audited((set n | n in names), ds, bases)
  {
    ghost var seeds := set n | n in names;
    AuditedLeast(seeds, ds, bases);
    audited := Saturate(names, ds, bases, Audited(seeds, ds, bases));
    assert seeds <= audited;
  }

  predicate Foreign(ds: Declarations, b: string) {
    b != CONTRACT_BASE && b !in ds
  }

  /** A base of an audited class that is neither the contract base nor local. */
  ghost predicate InvalidBase(audited: set<string>, ds: Declarations, bases: Graph) {
    exists q, b :: q in audited && b in Bases(bases, q) && Foreign(ds, b)
  }

  /** When no invalid base is reported, every base of every audited class is the contract base
      or is audited itself. */
  lemma BasesAudited(names: set<string>, ds: Declarations, bases: Graph, q: string, b: string)
    requires !InvalidBase(Audited(names, ds, bases), ds, bases)
    requires q in Audited(names, ds, bases) && b in Bases(bases, q)
    ensures b == CONTRACT_BASE || b in Audited(names, ds, bases)
  {
    if b != CONTRACT_BASE {
      assert !Foreign(ds, b);
      PathExtends(names, ds, bases, q, b);
    }
  }
}
