/** The searches of the contract auditor over class declarations and their bases. */
module Inheritance {
  import opened PathSearch

  const BASE_CHANNEL := "qwenpaw.app.channels.base.BaseChannel"
  const CONTRACT_BASE := "tests.contract.channels.ChannelContractTest"
  const CREATE_INSTANCE := "create_instance"

  /** A method definition in a class body. */
  datatype MethodDef = MethodDef(name: string, isAbstract: bool)

  /** A test class: its definitions in order, and what would keep pytest from collecting or
      running it ("" when nothing does). */
  datatype ClassDecl = ClassDecl(name: string, defs: seq<MethodDef>, collectionGate: string, runtimeGate: string)

  type Declarations = map<string, ClassDecl>

  function Bases(bases: Graph, q: string): seq<string> {
    if q in bases then bases[q] else []
  }

  // ----- does a class derive from a base -----

  ghost function Always(): string -> bool {
    x => true
  }

  ghost function Lists(g: Graph, target: string): string -> bool {
    x => x in g && target in g[x]
  }

  predicate InheritsBaseChannel(q: string, classes: Graph, active: set<string>)
    decreases |classes.Keys - active|
  {
    if q in active || q !in classes then false
    else if BASE_CHANNEL in classes[q] then true
    else
      Shrinks(classes.Keys, active, q);
      exists b :: b in classes[q] && InheritsBaseChannel(b, classes, active + {q})
  }

  predicate InheritsContract(q: string, bases: Graph, active: set<string>)
    decreases |bases.Keys - active|
  {
    if q in active then false
    else if CONTRACT_BASE in Bases(bases, q) then true
    else if q !in bases then false
    else
      Shrinks(bases.Keys, active, q);
      exists b :: b in bases[q] && InheritsContract(b, bases, active + {q})
  }

  lemma {:induction false} BaseChannelFound(q: string, classes: Graph, active: set<string>)
    ensures InheritsBaseChannel(q, classes, active)
        <==> Found(classes, Always(), Lists(classes, BASE_CHANNEL), q, active)
    decreases |classes.Keys - active|
  {
    if q !in active && q in classes && BASE_CHANNEL !in classes[q] {
      Shrinks(classes.Keys, active, q);
      forall b | b in classes[q]
        ensures InheritsBaseChannel(b, classes, active + {q})
            <==> FoundNext(classes, Always(), Lists(classes, BASE_CHANNEL), q, b, active)
      {
        BaseChannelFound(b, classes, active + {q});
      }
    }
  }

  lemma {:induction false} ContractFound(q: string, bases: Graph, active: set<string>)
    ensures InheritsContract(q, bases, active) <==> Found(bases, Always(), Lists(bases, CONTRACT_BASE), q, active)
    decreases |bases.Keys - active|
  {
    if q !in active && q in bases && CONTRACT_BASE !in bases[q] {
      Shrinks(bases.Keys, active, q);
      forall b | b in bases[q]
        ensures InheritsContract(b, bases, active + {q})
            <==> FoundNext(bases, Always(), Lists(bases, CONTRACT_BASE), q, b, active)
      {
        ContractFound(b, bases, active + {q});
      }
    }
  }

  /** A chain of bases from `q` to a class that lists `target`. */
  ghost predicate ReachesBase(q: string, g: Graph, target: string) {
    exists p :: Chain(g, Always(), Lists(g, target), p) && p[0] == q
  }

  lemma InheritsBaseChannelExact(q: string, classes: Graph)
    ensures InheritsBaseChannel(q, classes, {}) <==> ReachesBase(q, classes, BASE_CHANNEL)
  {
    BaseChannelFound(q, classes, {});
    FoundExact(classes, Always(), Lists(classes, BASE_CHANNEL), q);
  }

  lemma InheritsContractExact(q: string, bases: Graph)
    ensures InheritsContract(q, bases, {}) <==> ReachesBase(q, bases, CONTRACT_BASE)
  {
    ContractFound(q, bases, {});
    FoundExact(bases, Always(), Lists(bases, CONTRACT_BASE), q);
  }

  // ----- gates of a class and of its local bases -----

  /** The two gate searches differ in what gates a class and in how they report a base. */
  datatype GateKind = Collection | Runtime

  function OwnGate(kind: GateKind, d: ClassDecl): string {
    if kind.Collection? then d.collectionGate else d.runtimeGate
  }

  function Via(kind: GateKind): string {
    if kind.Collection? then "inherits disabled contract base that " else "inherits contract base with "
  }

  /** The gate error of a class, "" when there is none. */
  function GateError(kind: GateKind, q: string, ds: Declarations, bases: Graph, active: set<string>): string
    decreases |ds.Keys - active|, 0
  {
    if q in active || q !in ds then ""
    else if OwnGate(kind, ds[q]) != "" then OwnGate(kind, ds[q])
    else
      Shrinks(ds.Keys, active, q);
      InheritedGate(kind, Bases(bases, q), ds, bases, active + {q})
  }

  /** The first error among the bases, in order. */
  function InheritedGate(kind: GateKind, bs: seq<string>, ds: Declarations, bases: Graph, active: set<string>): string
    decreases |ds.Keys - active|, |bs|
  {
    if bs == [] then ""
    else
      var inherited := GateError(kind, bs[0], ds, bases, active);
      if inherited != "" then Via(kind) + inherited else InheritedGate(kind, bs[1..], ds, bases, active)
  }

  /** The recursion with its loop over the bases. */
  method ClassGateError(kind: GateKind, q: string, ds: Declarations, bases: Graph, active: set<string>)
    returns (error: string)
    ensures error == GateError(kind, q, ds, bases, active)
    decreases |ds.Keys - active|
  {
    if q in active || q !in ds {
      return "";
    }
    if OwnGate(kind, ds[q]) != "" {
      return OwnGate(kind, ds[q]);
    }
    Shrinks(ds.Keys, active, q);
    var bs := Bases(bases, q);
    for k := 0 to |bs|
      invariant InheritedGate(kind, bs, ds, bases, active + {q})
          == InheritedGate(kind, bs[k..], ds, bases, active + {q})
    {
      assert bs[k..][0] == bs[k] && bs[k..][1..] == bs[k + 1..];
      var inherited := ClassGateError(kind, bs[k], ds, bases, active + {q});
      if inherited != "" {
        return Via(kind) + inherited;
      }
    }
    return "";
  }

  /** Declared classes and the bases they list. */
  ghost function Local(ds: Declarations, bases: Graph): Graph {
    map q | q in ds :: Bases(bases, q)
  }

  ghost function Gated(kind: GateKind, ds: Declarations): string -> bool {
    x => x in ds && match kind
                    case Collection => ds[x].collectionGate != ""
                    case Runtime => ds[x].runtimeGate != ""
  }

  lemma {:induction false} GateFound(kind: GateKind, q: string, ds: Declarations, bases: Graph, active: set<string>)
    ensures GateError(kind, q, ds, bases, active) != ""
        <==> Found(Local(ds, bases), Always(), Gated(kind, ds), q, active)
    decreases |ds.Keys - active|
  {
    var g := Local(ds, bases);
    assert g.Keys == ds.Keys;
    if q !in active && q in ds && OwnGate(kind, ds[q]) == "" {
      Shrinks(ds.Keys, active, q);
      forall b | b in g[q]
        ensures GateError(kind, b, ds, bases, active + {q}) != ""
            <==> FoundNext(g, Always(), Gated(kind, ds), q, b, active)
      {
        GateFound(kind, b, ds, bases, active + {q});
      }
      InheritedGateSome(kind, Bases(bases, q), ds, bases, active + {q});
    }
  }

  lemma {:induction false} InheritedGateSome(kind: GateKind, bs: seq<string>, ds: Declarations, bases: Graph,
                                             active: set<string>)
    ensures InheritedGate(kind, bs, ds, bases, active) != ""
        <==> exists b :: b in bs && GateError(kind, b, ds, bases, active) != ""
    decreases |bs|
  {
    if bs == [] {
    } else {
      InheritedGateSome(kind, bs[1..], ds, bases, active);
      assert bs[0] in bs;
      assert forall b :: b in bs <==> b == bs[0] || b in bs[1..];
      if InheritedGate(kind, bs[1..], ds, bases, active) != "" {
        var b :| b in bs[1..] && GateError(kind, b, ds, bases, active) != "";
        assert b in bs;
      }
    }
  }

  /** No error exactly when neither the class nor a local class reachable through bases has a
      gate of its own. */
  lemma GateErrorExact(kind: GateKind, q: string, ds: Declarations, bases: Graph)
    ensures GateError(kind, q, ds, bases, {}) == ""
        <==> !exists p :: Chain(Local(ds, bases), Always(), Gated(kind, ds), p) && p[0] == q
  {
    GateFound(kind, q, ds, bases, {});
    FoundExact(Local(ds, bases), Always(), Gated(kind, ds), q);
  }

  function Repeat(n: nat, s: string): string {
    if n == 0 then "" else s + Repeat(n - 1, s)
  }

  /** The chain `p` from `q` explains the error. */
  ghost predicate Explains(p: seq<string>, kind: GateKind, q: string, ds: Declarations, bases: Graph,
                           active: set<string>) {
    && Chain(Local(ds, bases), Always(), Gated(kind, ds), p) && p[0] == q && Avoids(p, active)
    && GateError(kind, q, ds, bases, active) == Repeat(|p| - 1, Via(kind)) + OwnGate(kind, ds[p[|p| - 1]])
  }

  lemma ExplainsSelf(kind: GateKind, q: string, ds: Declarations, bases: Graph, active: set<string>)
    requires q !in active && q in ds && OwnGate(kind, ds[q]) != ""
    ensures Explains([q], kind, q, ds, bases, active)
  {
  }

  lemma {:induction false} ExplainsCons(rest: seq<string>, kind: GateKind, q: string, b: string, ds: Declarations,
                                        bases: Graph, active: set<string>)
    requires q !in active && q in ds && b in Bases(bases, q)
    requires Explains(rest, kind, b, ds, bases, active + {q})
    requires GateError(kind, q, ds, bases, active) == Via(kind) + GateError(kind, b, ds, bases, active + {q})
    ensures Explains([q] + rest, kind, q, ds, bases, active)
  {
    ChainCons(Local(ds, bases), Gated(kind, ds), q, rest);
    RepeatOnce(|rest| - 1, Via(kind), OwnGate(kind, ds[rest[|rest| - 1]]));
    assert Avoids(rest, active) by {
      forall i | 0 <= i < |rest|
        ensures rest[i] !in active
      {
        assert rest[i] !in active + {q};
      }
    }
  }

  /** The message names the gate at the end of a chain and has one prefix per step to it. */
  lemma {:induction false} GateMessage(kind: GateKind, q: string, ds: Declarations, bases: Graph, active: set<string>)
    returns (p: seq<string>)
    requires GateError(kind, q, ds, bases, active) != ""
    ensures Explains(p, kind, q, ds, bases, active)
    decreases |ds.Keys - active|
  {
    if OwnGate(kind, ds[q]) != "" {
      p := [q];
      ExplainsSelf(kind, q, ds, bases, active);
    } else {
      Shrinks(ds.Keys, active, q);
      var b := FirstGated(kind, Bases(bases, q), ds, bases, active + {q});
      var rest := GateMessage(kind, b, ds, bases, active + {q});
      p := [q] + rest;
      ExplainsCons(rest, kind, q, b, ds, bases, active);
    }
  }

  lemma ChainCons(g: Graph, hit: string -> bool, q: string, rest: seq<string>)
    requires Chain(g, Always(), hit, rest) && q in g && rest[0] in g[q]
    ensures Chain(g, Always(), hit, [q] + rest)
    ensures ([q] + rest)[|rest|] == rest[|rest| - 1]
  {
  }

  lemma RepeatOnce(n: nat, s: string, t: string)
    ensures s + (Repeat(n, s) + t) == Repeat(n + 1, s) + t
  {
  }

  lemma {:induction false} FirstGated(kind: GateKind, bs: seq<string>, ds: Declarations, bases: Graph,
                                      active: set<string>)
    returns (b: string)
    requires InheritedGate(kind, bs, ds, bases, active) != ""
    ensures b in bs && GateError(kind, b, ds, bases, active) != ""
    ensures InheritedGate(kind, bs, ds, bases, active) == Via(kind) + GateError(kind, b, ds, bases, active)
    decreases |bs|
  {
    if GateError(kind, bs[0], ds, bases, active) != "" {
      b := bs[0];
    } else {
      b := FirstGated(kind, bs[1..], ds, bases, active);
    }
  }

  // ----- abstract methods -----

  /** A class body read from top to bottom: an abstract definition adds its name, any other
      definition removes it. */
  function ReadBody(methods: set<string>, defs: seq<MethodDef>): set<string>
    decreases |defs|
  {
    if defs == [] then methods
    else ReadBody(if defs[0].isAbstract then methods + {defs[0].name} else methods - {defs[0].name}, defs[1..])
  }

  function AbstractMethods(q: string, ds: Declarations, bases: Graph, active: set<string>): set<string>
    decreases |ds.Keys - active|, 0
  {
    if q in active || q !in ds then {}
    else
      Shrinks(ds.Keys, active, q);
      ReadBody(FromBases(Bases(bases, q), ds, bases, active + {q}), ds[q].defs)
  }

  function FromBases(bs: seq<string>, ds: Declarations, bases: Graph, active: set<string>): set<string>
    decreases |ds.Keys - active|, 2, |bs|
  {
    if bs == [] then {}
    else
      FromBases(bs[..|bs| - 1], ds, bases, active) + FromBase(bs[|bs| - 1], ds, bases, active)
  }

  function FromBase(b: string, ds: Declarations, bases: Graph, active: set<string>): set<string>
    decreases |ds.Keys - active|, 1
  {
    if b == CONTRACT_BASE then {CREATE_INSTANCE}
    else if b in ds then AbstractMethods(b, ds, bases, active)
    else {}
  }

  /** The recursion with the local set it fills and empties. */
  method CollectAbstractMethods(q: string, ds: Declarations, bases: Graph, active: set<string>)
    returns (methods: set<string>)
    ensures methods == AbstractMethods(q, ds, bases, active)
    decreases |ds.Keys - active|, 1
  {
    if q in active || q !in ds {
      return {};
    }
    Shrinks(ds.Keys, active, q);
    methods := CollectFromBases(Bases(bases, q), ds, bases, active + {q});
    methods := ApplyBody(methods, ds[q].defs);
  }

  method CollectFromBases(bs: seq<string>, ds: Declarations, bases: Graph, active: set<string>)
    returns (methods: set<string>)
    ensures methods == FromBases(bs, ds, bases, active)
    decreases |ds.Keys - active|, 2
  {
    methods := {};
    for k := 0 to |bs|
      invariant methods == FromBases(bs[..k], ds, bases, active)
    {
      var b := bs[k];
      assert bs[..k + 1][..k] == bs[..k];
      if b == CONTRACT_BASE {
        methods := methods + {CREATE_INSTANCE};
      } else if b in ds {
        var inherited := CollectAbstractMethods(b, ds, bases, active);
        methods := methods + inherited;
      }
    }
    assert bs[..|bs|] == bs;
  }

  method ApplyBody(inherited: set<string>, defs: seq<MethodDef>) returns (methods: set<string>)
    ensures methods == ReadBody(inherited, defs)
  {
    methods := inherited;
    for k := 0 to |defs|
      invariant ReadBody(methods, defs[k..]) == ReadBody(inherited, defs)
    {
      assert defs[k..][0] == defs[k] && defs[k..][1..] == defs[k + 1..];
      if defs[k].isAbstract {
        methods := methods + {defs[k].name};
      } else {
        methods := methods - {defs[k].name};
      }
    }
  }

  predicate Defines(d: ClassDecl, m: string) {
    exists i :: 0 <= i < |d.defs| && d.defs[i].name == m
  }

  /** The last definition of `m` in the class is abstract. */
  predicate LastAbstract(d: ClassDecl, m: string) {
    exists i: nat :: i < |d.defs| && LastAt(d, m, i)
  }

  predicate LastAt(d: ClassDecl, m: string, i: nat) {
    i < |d.defs| && d.defs[i].name == m && d.defs[i].isAbstract && forall j :: i < j < |d.defs| ==> d.defs[j].name != m
  }

  lemma DefinesCons(d: ClassDecl, m: string)
    requires d.defs != []
    ensures Defines(d, m) <==> d.defs[0].name == m || Defines(d.(defs := d.defs[1..]), m)
  {
    var rest := d.(defs := d.defs[1..]);
    if Defines(rest, m) {
      var i :| 0 <= i < |rest.defs| && rest.defs[i].name == m;
      assert d.defs[i + 1].name == m;
    }
    if Defines(d, m) && d.defs[0].name != m {
      var i :| 0 <= i < |d.defs| && d.defs[i].name == m;
      assert rest.defs[i - 1].name == m;
    }
  }

  lemma LastAbstractCons(d: ClassDecl, m: string)
    requires d.defs != []
    ensures var rest := d.(defs := d.defs[1..]);
            LastAbstract(d, m) <==>
              (LastAbstract(rest, m) || (d.defs[0].name == m && d.defs[0].isAbstract && !Defines(rest, m)))
  {
    var rest := d.(defs := d.defs[1..]);
    assert forall i :: 0 <= i < |rest.defs| ==> rest.defs[i] == d.defs[i + 1];
    if LastAbstract(rest, m) {
      var i: nat :| i < |rest.defs| && LastAt(rest, m, i);
      assert forall j :: i + 1 < j < |d.defs| ==> d.defs[j] == rest.defs[j - 1];
      assert LastAt(d, m, i + 1);
    } else if d.defs[0].name == m && d.defs[0].isAbstract && !Defines(rest, m) {
      assert forall j :: 0 < j < |d.defs| ==> d.defs[j] == rest.defs[j - 1];
      assert LastAt(d, m, 0);
    } else if LastAbstract(d, m) {
      var i: nat :| i < |d.defs| && LastAt(d, m, i);
      if i > 0 {
        assert LastAt(rest, m, i - 1);
      }
    }
  }

  lemma LastAbstractDefines(d: ClassDecl, m: string)
    requires LastAbstract(d, m)
    ensures Defines(d, m)
  {
    var i: nat :| i < |d.defs| && LastAt(d, m, i);
    assert d.defs[i].name == m;
  }

  lemma {:induction false} ReadBodyExact(methods: set<string>, d: ClassDecl, m: string)
    ensures m in ReadBody(methods, d.defs) <==> LastAbstract(d, m) || (!Defines(d, m) && m in methods)
    decreases |d.defs|
  {
    if d.defs == [] {
    } else {
      var first, rest := d.defs[0], d.(defs := d.defs[1..]);
      ReadBodyExact(if first.isAbstract then methods + {first.name} else methods - {first.name}, rest, m);
      DefinesCons(d, m);
      LastAbstractCons(d, m);
      if LastAbstract(rest, m) {
        LastAbstractDefines(rest, m);
      }
    }
  }

  /** Edges to local bases; the contract base itself is never followed. */
  function LocalOnly(bs: seq<string>): seq<string> {
    if bs == [] then []
    else (if bs[0] == CONTRACT_BASE then [] else [bs[0]]) + LocalOnly(bs[1..])
  }

  lemma LocalOnlyExact(bs: seq<string>, b: string)
    ensures b in LocalOnly(bs) <==> b in bs && b != CONTRACT_BASE
  {
  }

  ghost function LocalBases(ds: Declarations, bases: Graph): Graph {
    map q | q in ds :: LocalOnly(Bases(bases, q))
  }

  /** The class does not define `m`, so its bases decide. */
  ghost function Undefined(ds: Declarations, m: string): string -> bool {
    x => x in ds && !Defines(ds[x], m)
  }

  /** The class itself makes `m` abstract. */
  ghost function MakesAbstract(ds: Declarations, bases: Graph, m: string): string -> bool {
    x => x in ds && (LastAbstract(ds[x], m)
                     || (!Defines(ds[x], m) && m == CREATE_INSTANCE && CONTRACT_BASE in Bases(bases, x)))
  }

  lemma {:induction false} FromBasesExact(bs: seq<string>, ds: Declarations, bases: Graph, active: set<string>,
                                          m: string)
    ensures m in FromBases(bs, ds, bases, active) <==> exists b :: b in bs && m in FromBase(b, ds, bases, active)
    decreases |bs|
  {
    if bs == [] {
    } else {
      var init, last := bs[..|bs| - 1], bs[|bs| - 1];
      FromBasesExact(init, ds, bases, active, m);
      assert last in bs;
      assert forall b :: b in bs <==> b in init || b == last;
      if m in FromBases(init, ds, bases, active) {
        var b :| b in init && m in FromBase(b, ds, bases, active);
        assert b in bs;
      }
    }
  }

  /** The recursion and the generic search give the same answer. */
  ghost predicate Agrees(q: string, ds: Declarations, bases: Graph, active: set<string>, m: string) {
    m in AbstractMethods(q, ds, bases, active)
    <==> Found(LocalBases(ds, bases), Undefined(ds, m), MakesAbstract(ds, bases, m), q, active)
  }

  /** Some local base of `q` leads the search on to a hit. */
  ghost predicate LeadsOn(q: string, ds: Declarations, bases: Graph, active: set<string>, m: string)
    requires q !in active && q in ds
  {
    exists b :: b in LocalBases(ds, bases)[q]
                && FoundNext(LocalBases(ds, bases), Undefined(ds, m), MakesAbstract(ds, bases, m), q, b, active)
  }

  /** What the bases contribute, given that they agree. */
  lemma {:induction false} BasesAgree(q: string, ds: Declarations, bases: Graph, active: set<string>, m: string)
    requires q !in active && q in ds
    requires forall b :: b in ds ==> Agrees(b, ds, bases, active + {q}, m)
    ensures m in FromBases(Bases(bases, q), ds, bases, active + {q})
        <==> (CONTRACT_BASE in Bases(bases, q) && m == CREATE_INSTANCE) || LeadsOn(q, ds, bases, active, m)
  {
    var g, bs := LocalBases(ds, bases), Bases(bases, q);
    FromBasesExact(bs, ds, bases, active + {q}, m);
    forall b
      ensures b in g[q] <==> b in bs && b != CONTRACT_BASE
      ensures b in g[q] ==>
                (m in FromBase(b, ds, bases, active + {q})
                 <==> FoundNext(g, Undefined(ds, m), MakesAbstract(ds, bases, m), q, b, active))
    {
      LocalOnlyExact(bs, b);
      if b in ds {
        assert Agrees(b, ds, bases, active + {q}, m);
      }
    }
    assert m in FromBase(CONTRACT_BASE, ds, bases, active + {q}) <==> m == CREATE_INSTANCE;
  }

  lemma {:induction false} StepAgrees(q: string, ds: Declarations, bases: Graph, active: set<string>, m: string)
    requires q !in active && q in ds
    requires m in FromBases(Bases(bases, q), ds, bases, active + {q})
        <==> (CONTRACT_BASE in Bases(bases, q) && m == CREATE_INSTANCE) || LeadsOn(q, ds, bases, active, m)
    ensures Agrees(q, ds, bases, active, m)
  {
    ReadBodyExact(FromBases(Bases(bases, q), ds, bases, active + {q}), ds[q], m);
  }

  lemma {:induction false} AbstractFound(q: string, ds: Declarations, bases: Graph, active: set<string>, m: string)
    ensures Agrees(q, ds, bases, active, m)
    decreases |ds.Keys - active|
  {
    if q !in active && q in ds {
      Shrinks(ds.Keys, active, q);
      forall b | b in ds
        ensures Agrees(b, ds, bases, active + {q}, m)
      {
        AbstractFound(b, ds, bases, active + {q}, m);
      }
      BasesAgree(q, ds, bases, active, m);
      StepAgrees(q, ds, bases, active, m);
    }
  }

  /** `m` is abstract in `q` exactly when a path of local bases, none of whose classes before
      the last defines `m`, ends in a class that makes `m` abstract. */
  lemma AbstractMethodsExact(q: string, ds: Declarations, bases: Graph, m: string)
    ensures m in AbstractMethods(q, ds, bases, {})
        <==> exists p :: Chain(LocalBases(ds, bases), Undefined(ds, m), MakesAbstract(ds, bases, m), p) && p[0] == q
  {
    AbstractFound(q, ds, bases, {}, m);
    FoundExact(LocalBases(ds, bases), Undefined(ds, m), MakesAbstract(ds, bases, m), q);
  }
}
