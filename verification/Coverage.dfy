/** Scanning the contract tests for factories, the bookkeeping of duplicates, and the exit code. */
module Coverage {
  import opened Wrappers
  import opened PathSearch
  import opened Inheritance
  import opened ContractScan

  /** The `create_instance` of a class body: unusable, or returning a call of `target`. */
  datatype Factory = Rejected(why: string) | Returns(target: string)

  /** A test file: its module-level gates ("" when there is none), its classes in order, the
      class names it rebinds or mutates after declaration, and the factory of each class. */
  datatype TestFile = TestFile(path: string, moduleGate: string, runtimeGate: string,
                               order: seq<string>, declarations: Declarations, bases: Graph,
                               mutated: set<string>, factories: map<string, Factory>)

  ghost predicate WellFormed(f: TestFile) {
    && (forall q :: q in f.order <==> q in f.declarations)
    && (forall i, j :: 0 <= i < j < |f.order| ==> f.order[i] != f.order[j])
    && f.factories.Keys == f.declarations.Keys
  }

  datatype Site = Site(path: string, cls: string)

  datatype Problem =
    | ModuleGate(path: string, why: string)
    | ExternalBase(path: string)
    | MutatedClass(path: string)
    | BadName(site: Site)
    | ClassGate(site: Site, why: string)
    | BadFactory(site: Site, why: string)
    | NotRegistered(site: Site)
    | Misplaced(site: Site, expected: string)
    | DuplicateFactories(cls: string, first: Site, second: Site)
    | AnotherDuplicate(cls: string, site: Site)

  // ----- what one class contributes -----

  /** A class contributes a well-placed factory or an error. */
  datatype Event = Placed(cls: string, site: Site) | Broken(problem: Problem)

  function ClassEvent(f: TestFile, q: string, accepted: map<string, string>,
                      expected: map<string, string>): Option<Event>
    requires q in f.declarations && q in f.factories
    requires forall name :: name in accepted ==> accepted[name] in expected
  {
    var site := Site(f.path, q);
    var collection := GateError(Collection, q, f.declarations, f.bases, {});
    var runtime := GateError(Runtime, q, f.declarations, f.bases, {});
    if !InheritsContract(q, f.bases, {}) then None
    else if AbstractMethods(q, f.declarations, f.bases, {}) != {} then None
    else if !("Test" <= f.declarations[q].name) then Some(Broken(BadName(site)))
    else if collection != "" then Some(Broken(ClassGate(site, collection)))
    else if runtime != "" then Some(Broken(ClassGate(site, runtime)))
    else
      match f.factories[q]
      case Rejected(why) => Some(Broken(BadFactory(site, why)))
      case Returns(target) =>
        if target !in accepted then Some(Broken(NotRegistered(site)))
        else if f.path != expected[accepted[target]] then Some(Broken(Misplaced(site, expected[accepted[target]])))
        else Some(Placed(accepted[target], site))
  }

  ghost predicate Scannable(files: seq<TestFile>, accepted: map<string, string>, expected: map<string, string>) {
    && (forall i :: 0 <= i < |files| ==> WellFormed(files[i]))
    && forall name :: name in accepted ==> accepted[name] in expected
  }

  ghost function ContractNames(f: TestFile): set<string> {
    set q | q in f.declarations && InheritsContract(q, f.bases, {})
  }

  ghost function AuditedIn(f: TestFile): set<string> {
    Audited(ContractNames(f), f.declarations, f.bases)
  }

  /** The error that keeps a whole file from being scanned. */
  ghost function FileProblem(f: TestFile): Option<Problem> {
    if f.moduleGate != "" then Some(ModuleGate(f.path, f.moduleGate))
    else if f.runtimeGate != "" then Some(ModuleGate(f.path, f.runtimeGate))
    else if InvalidBase(AuditedIn(f), f.declarations, f.bases) then Some(ExternalBase(f.path))
    else if f.mutated * AuditedIn(f) != {} then Some(MutatedClass(f.path))
    else None
  }

  /** What each class contributes, in order; None for a class that is skipped. */
  ghost function PerClass(f: TestFile, accepted: map<string, string>, expected: map<string, string>)
    : (r: seq<Option<Event>>)
    requires WellFormed(f)
    requires forall name :: name in accepted ==> accepted[name] in expected
    ensures |r| == |f.order|
  {
    seq(|f.order|, i requires 0 <= i < |f.order| && f.order[i] in f.declarations && f.order[i] in f.factories =>
      ClassEvent(f, f.order[i], accepted, expected))
  }

  /** The contributions among the first n. */
  ghost function Present(options: seq<Option<Event>>, n: nat): seq<Event>
    requires n <= |options|
  {
    if n == 0 then []
    else Present(options, n - 1) + if options[n - 1].Some? then [options[n - 1].value] else []
  }

  ghost function FileEvents(f: TestFile, accepted: map<string, string>, expected: map<string, string>): seq<Event>
    requires WellFormed(f)
    requires forall name :: name in accepted ==> accepted[name] in expected
  {
    if FileProblem(f).Some? then [Broken(FileProblem(f).value)]
    else Present(PerClass(f, accepted, expected), |f.order|)
  }

  ghost function PerFile(files: seq<TestFile>, accepted: map<string, string>, expected: map<string, string>)
    : (r: seq<seq<Event>>)
    requires Scannable(files, accepted, expected)
    ensures |r| == |files|
  {
    seq(|files|, i requires 0 <= i < |files| && WellFormed(files[i]) => FileEvents(files[i], accepted, expected))
  }

  /** The first n lists, one after the other. */
  ghost function UpTo(lists: seq<seq<Event>>, n: nat): seq<Event>
    requires n <= |lists|
  {
    if n == 0 then [] else UpTo(lists, n - 1) + lists[n - 1]
  }

  ghost function Events(files: seq<TestFile>, accepted: map<string, string>, expected: map<string, string>): seq<Event>
    requires Scannable(files, accepted, expected)
  {
    UpTo(PerFile(files, accepted, expected), |files|)
  }

  // ----- the bookkeeping of duplicates -----

  datatype Tally = Tally(testedBy: map<string, Site>, duplicates: set<string>, errors: seq<Problem>)

  const EMPTY := Tally(map[], {}, [])

  function Record(t: Tally, e: Event): Tally {
    match e
    case Broken(problem) => t.(errors := t.errors + [problem])
    case Placed(cls, site) =>
      if cls in t.duplicates then t.(errors := t.errors + [AnotherDuplicate(cls, site)])
      else if cls in t.testedBy then
        Tally(t.testedBy - {cls}, t.duplicates + {cls},
              t.errors + [DuplicateFactories(cls, t.testedBy[cls], site)])
      else t.(testedBy := t.testedBy[cls := site])
  }

  function RecordAll(es: seq<Event>): Tally {
    if es == [] then EMPTY else Record(RecordAll(es[..|es| - 1]), es[|es| - 1])
  }

  /** Number of well-placed factories of a class. */
  function Uses(es: seq<Event>, c: string): nat {
    if es == [] then 0
    else Uses(es[..|es| - 1], c) + if es[|es| - 1].Placed? && es[|es| - 1].cls == c then 1 else 0
  }

  /** Tested are exactly the classes with one factory, duplicated exactly those with more. */
  lemma {:induction false} TallyExact(es: seq<Event>, c: string)
    ensures var t := RecordAll(es);
            && (c in t.testedBy <==> Uses(es, c) == 1)
            && (c in t.duplicates <==> Uses(es, c) >= 2)
            && (c in t.testedBy ==> Placed(c, t.testedBy[c]) in es)
  {
    if es == [] {
    } else {
      var init := es[..|es| - 1];
      TallyExact(init, c);
      assert es == init + [es[|es| - 1]];
    }
  }

  /** Every event is an error, the single factory of a class, or the first of several: there is
      one error per broken declaration and one per factory of a class beyond its first. */
  lemma {:induction false} TallyErrors(es: seq<Event>)
    ensures var t := RecordAll(es);
            |t.errors| + |t.testedBy| + |t.duplicates| == |es|
  {
    if es == [] {
    } else {
      var init, e := es[..|es| - 1], es[|es| - 1];
      var t := RecordAll(init);
      TallyErrors(init);
      if e.Placed? {
        TallyExact(init, e.cls);
        if e.cls in t.testedBy && e.cls !in t.duplicates {
          assert (t.testedBy - {e.cls}).Keys == t.testedBy.Keys - {e.cls};
          assert |t.testedBy - {e.cls}| == |t.testedBy.Keys - {e.cls}|;
        }
      }
    }
  }

  /** Nothing is broken and no class has two factories. */
  ghost predicate Clean(es: seq<Event>) {
    (forall e :: e in es ==> e.Placed?) && forall c :: Uses(es, c) <= 1
  }

  lemma {:induction false} CleanOnce(es: seq<Event>, c: string)
    requires RecordAll(es).errors == []
    ensures Uses(es, c) <= 1 && forall e :: e in es ==> e.Placed?
  {
    if es == [] {
    } else {
      var init, e := es[..|es| - 1], es[|es| - 1];
      assert es == init + [e];
      assert e.Placed? && RecordAll(init).errors == [];
      CleanOnce(init, c);
      TallyExact(init, c);
    }
  }

  lemma {:induction false} OnceClean(es: seq<Event>)
    requires Clean(es)
    ensures RecordAll(es).errors == []
  {
    if es == [] {
    } else {
      var init, e := es[..|es| - 1], es[|es| - 1];
      assert es == init + [e];
      forall c
        ensures Uses(init, c) <= 1
      {
        assert Uses(es, c) <= 1;
      }
      OnceClean(init);
      TallyExact(init, e.cls);
      assert Uses(es, e.cls) == Uses(init, e.cls) + 1;
    }
  }

  lemma NoErrorsExact(es: seq<Event>)
    ensures RecordAll(es).errors == [] <==> Clean(es)
  {
    if RecordAll(es).errors == [] {
      CleanOnce(es, "");
      forall c { CleanOnce(es, c); }
    } else if Clean(es) {
      OnceClean(es);
    }
  }

  // ----- the scan -----

  function ExpectedPaths(specs: seq<Spec>): map<string, string> {
    if specs == [] then map[]
    else
      var last := specs[|specs| - 1];
      ExpectedPaths(specs[..|specs| - 1])[last.className := TestPath(last.key)]
  }

  lemma {:induction false} ExpectedPathsExact(specs: seq<Spec>)
    requires DistinctSpecs(specs)
    ensures forall spec :: spec in specs ==>
              && spec.className in ExpectedPaths(specs)
              && ExpectedPaths(specs)[spec.className] == "tests/contract/channels/test_" + spec.key + "_contract.py"
    ensures forall c :: c in ExpectedPaths(specs) ==> exists spec :: spec in specs && spec.className == c
  {
    if specs == [] {
    } else {
      var init, last := specs[..|specs| - 1], specs[|specs| - 1];
      ExpectedPathsExact(init);
      assert specs == init + [last];
      forall spec | spec in init
        ensures spec.className != last.className
      {
        var i :| 0 <= i < |init| && init[i] == spec;
        assert specs[i].className != specs[|specs| - 1].className;
      }
    }
  }

  method ContractNamesOf(f: TestFile) returns (names: seq<string>)
    requires WellFormed(f)
    ensures (set n | n in names) == ContractNames(f)
    ensures forall i :: 0 <= i < |names| ==> names[i] in f.declarations
  {
    names := [];
    for k := 0 to |f.order|
      invariant forall n :: n in names <==> n in f.order[..k] && InheritsContract(n, f.bases, {})
    {
      var q := f.order[k];
      assert f.order[..k + 1] == f.order[..k] + [q];
      if InheritsContract(q, f.bases, {}) {
        names := names + [q];
      }
    }
    assert f.order[..|f.order|] == f.order;
  }

  /** Is a base of an audited class neither the contract base nor local? */
  method FindInvalidBase(audited: set<string>, order: seq<string>, ds: Declarations, bases: Graph) returns (found: bool)
    requires forall q :: q in audited ==> q in order
    ensures found <==> InvalidBase(audited, ds, bases)
  {
    for k := 0 to |order|
      invariant forall i, b :: 0 <= i < k && order[i] in audited && b in Bases(bases, order[i]) ==> !Foreign(ds, b)
    {
      if order[k] in audited {
        var bs := Bases(bases, order[k]);
        for j := 0 to |bs|
          invariant forall i :: 0 <= i < j ==> !Foreign(ds, bs[i])
        {
          if Foreign(ds, bs[j]) {
            assert order[k] in audited && bs[j] in Bases(bases, order[k]);
            return true;
          }
        }
      }
    }
    forall q, b | q in audited && b in Bases(bases, q)
      ensures !Foreign(ds, b)
    {
      var i :| 0 <= i < |order| && order[i] == q;
    }
    found := false;
  }

  lemma AuditedDeclared(f: TestFile)
    requires WellFormed(f)
    ensures forall q :: q in AuditedIn(f) ==> q in f.order
  {
  }

  /** The checks that skip a whole file. */
  method CheckFile(f: TestFile) returns (problem: Option<Problem>)
    requires WellFormed(f)
    ensures problem == FileProblem(f)
  {
    if f.moduleGate != "" {
      return Some(ModuleGate(f.path, f.moduleGate));
    }
    if f.runtimeGate != "" {
      return Some(ModuleGate(f.path, f.runtimeGate));
    }
    var names := ContractNamesOf(f);
    var audited := AuditNames(names, f.declarations, f.bases);
    assert audited == AuditedIn(f);
    AuditedDeclared(f);
    var invalid := FindInvalidBase(audited, f.order, f.declarations, f.bases);
    if invalid {
      return Some(ExternalBase(f.path));
    }
    problem := if f.mutated * audited != {} then Some(MutatedClass(f.path)) else None;
  }

  /** One class of a file, check by check. */
  method CheckClass(f: TestFile, q: string, accepted: map<string, string>, expected: map<string, string>)
    returns (event: Option<Event>)
    requires q in f.declarations && q in f.factories
    requires forall name :: name in accepted ==> accepted[name] in expected
    ensures event == ClassEvent(f, q, accepted, expected)
  {
    if !InheritsContract(q, f.bases, {}) {
      return None;
    }
    var abstractMethods := CollectAbstractMethods(q, f.declarations, f.bases, {});
    if abstractMethods != {} {
      return None;
    }
    var site := Site(f.path, q);
    if !("Test" <= f.declarations[q].name) {
      return Some(Broken(BadName(site)));
    }
    var collection := ClassGateError(Collection, q, f.declarations, f.bases, {});
    if collection != "" {
      return Some(Broken(ClassGate(site, collection)));
    }
    var runtime := ClassGateError(Runtime, q, f.declarations, f.bases, {});
    if runtime != "" {
      return Some(Broken(ClassGate(site, runtime)));
    }
    if f.factories[q].Rejected? {
      return Some(Broken(BadFactory(site, f.factories[q].why)));
    }
    var target := f.factories[q].target;
    if target !in accepted {
      return Some(Broken(NotRegistered(site)));
    }
    var cls := accepted[target];
    if f.path != expected[cls] {
      return Some(Broken(Misplaced(site, expected[cls])));
    }
    event := Some(Placed(cls, site));
  }

  lemma {:induction false} RecordFrom(t: Tally, es: seq<Event>, e: Event)
    requires t == RecordAll(es)
    ensures Record(t, e) == RecordAll(es + [e])
  {
    assert (es + [e])[..|es|] == es;
  }

  lemma RecordClass(t: Tally, es: seq<Event>, options: seq<Option<Event>>, i: nat)
    requires i < |options| && t == RecordAll(es + Present(options, i))
    ensures RecordAll(es + Present(options, i + 1)) == if options[i].Some? then Record(t, options[i].value) else t
  {
    var done, next := es + Present(options, i), es + Present(options, i + 1);
    if options[i].Some? {
      assert next == done + [options[i].value];
      RecordFrom(t, done, options[i].value);
    } else {
      assert next == done;
    }
  }

  /** The bookkeeping of one event. */
  method Note(event: Event, testedBy0: map<string, Site>, duplicates0: set<string>, errors0: seq<Problem>)
    returns (testedBy: map<string, Site>, duplicates: set<string>, errors: seq<Problem>)
    ensures Tally(testedBy, duplicates, errors) == Record(Tally(testedBy0, duplicates0, errors0), event)
  {
    testedBy, duplicates, errors := testedBy0, duplicates0, errors0;
    if event.Broken? {
      errors := errors + [event.problem];
      return;
    }
    var cls, site := event.cls, event.site;
    if cls in duplicates {
      errors := errors + [AnotherDuplicate(cls, site)];
      return;
    }
    if cls in testedBy {
      errors := errors + [DuplicateFactories(cls, testedBy[cls], site)];
      testedBy := testedBy - {cls};
      duplicates := duplicates + {cls};
      return;
    }
    testedBy := testedBy[cls := site];
  }

  /** The checks of one class, and the bookkeeping of what they find. */
  method NoteClass(f: TestFile, q: string, accepted: map<string, string>, expected: map<string, string>,
                   testedBy0: map<string, Site>, duplicates0: set<string>, errors0: seq<Problem>)
    returns (testedBy: map<string, Site>, duplicates: set<string>, errors: seq<Problem>)
    requires WellFormed(f) && q in f.order && forall name :: name in accepted ==> accepted[name] in expected
    ensures var event := ClassEvent(f, q, accepted, expected);
            Tally(testedBy, duplicates, errors) ==
            if event.Some? then Record(Tally(testedBy0, duplicates0, errors0), event.value)
            else Tally(testedBy0, duplicates0, errors0)
  {
    testedBy, duplicates, errors := testedBy0, duplicates0, errors0;
    var event := CheckClass(f, q, accepted, expected);
    if event.Some? {
      testedBy, duplicates, errors := Note(event.value, testedBy, duplicates, errors);
    }
  }

  /** `options` are what the classes of a file, in order, contribute. */
  ghost predicate EventsOf(f: TestFile, accepted: map<string, string>, expected: map<string, string>,
                           options: seq<Option<Event>>)
  {
    && WellFormed(f) && (forall name :: name in accepted ==> accepted[name] in expected)
    && |options| == |f.order|
    && forall i :: 0 <= i < |f.order| ==> options[i] == ClassEvent(f, f.order[i], accepted, expected)
  }

  /** One round of the loop over the classes of a file. */
  method ScanClass(f: TestFile, i: nat, accepted: map<string, string>, expected: map<string, string>,
                   ghost es: seq<Event>, ghost options: seq<Option<Event>>,
                   testedBy0: map<string, Site>, duplicates0: set<string>, errors0: seq<Problem>)
    returns (testedBy: map<string, Site>, duplicates: set<string>, errors: seq<Problem>)
    requires EventsOf(f, accepted, expected, options) && i < |options|
    requires Tally(testedBy0, duplicates0, errors0) == RecordAll(es + Present(options, i))
    ensures Tally(testedBy, duplicates, errors) == RecordAll(es + Present(options, i + 1))
  {
    RecordClass(Tally(testedBy0, duplicates0, errors0), es, options, i);
    testedBy, duplicates, errors := NoteClass(f, f.order[i], accepted, expected, testedBy0, duplicates0, errors0);
  }

  method ScanClasses(f: TestFile, accepted: map<string, string>, expected: map<string, string>,
                     ghost es: seq<Event>, ghost options: seq<Option<Event>>,
                     testedBy0: map<string, Site>, duplicates0: set<string>, errors0: seq<Problem>)
    returns (testedBy: map<string, Site>, duplicates: set<string>, errors: seq<Problem>)
    requires EventsOf(f, accepted, expected, options)
    requires Tally(testedBy0, duplicates0, errors0) == RecordAll(es)
    ensures Tally(testedBy, duplicates, errors) == RecordAll(es + Present(options, |options|))
  {
    testedBy, duplicates, errors := testedBy0, duplicates0, errors0;
    assert es + Present(options, 0) == es;
    for i := 0 to |f.order|
      invariant Tally(testedBy, duplicates, errors) == RecordAll(es + Present(options, i))
    {
      testedBy, duplicates, errors :=
        ScanClass(f, i, accepted, expected, es, options, testedBy, duplicates, errors);
    }
  }

  method ScanFile(f: TestFile, accepted: map<string, string>, expected: map<string, string>, ghost es: seq<Event>,
                  testedBy0: map<string, Site>, duplicates0: set<string>, errors0: seq<Problem>)
    returns (testedBy: map<string, Site>, duplicates: set<string>, errors: seq<Problem>)
    requires WellFormed(f) && forall name :: name in accepted ==> accepted[name] in expected
    requires Tally(testedBy0, duplicates0, errors0) == RecordAll(es)
    ensures Tally(testedBy, duplicates, errors) == RecordAll(es + FileEvents(f, accepted, expected))
  {
    var problem := CheckFile(f);
    if problem.Some? {
      RecordFrom(Tally(testedBy0, duplicates0, errors0), es, Broken(problem.value));
      return testedBy0, duplicates0, errors0 + [problem.value];
    }
    ghost var options := PerClass(f, accepted, expected);
    testedBy, duplicates, errors := ScanClasses(f, accepted, expected, es, options, testedBy0, duplicates0, errors0);
  }

  /** The scan over all files with its dictionary, set and error list. */
  method ScanContractTests(specs: seq<Spec>, accepted: map<string, string>, files: seq<TestFile>)
    returns (tested: set<string>, errors: seq<Problem>)
    requires Scannable(files, accepted, ExpectedPaths(specs))
    ensures var t := RecordAll(Events(files, accepted, ExpectedPaths(specs)));
            tested == t.testedBy.Keys && errors == t.errors
  {
    var testedBy: map<string, Site>;
    var duplicates: set<string>;
    testedBy, duplicates, errors := ScanFiles(files, accepted, ExpectedPaths(specs));
    tested := testedBy.Keys;
  }

  method ScanFiles(files: seq<TestFile>, accepted: map<string, string>, expected: map<string, string>)
    returns (testedBy: map<string, Site>, duplicates: set<string>, errors: seq<Problem>)
    requires Scannable(files, accepted, expected)
    ensures Tally(testedBy, duplicates, errors) == RecordAll(UpTo(PerFile(files, accepted, expected), |files|))
  {
    testedBy, duplicates, errors := map[], {}, [];
    ghost var lists := PerFile(files, accepted, expected);
    for k := 0 to |files|
      invariant Tally(testedBy, duplicates, errors) == RecordAll(UpTo(lists, k))
    {
      testedBy, duplicates, errors :=
        ScanFile(files[k], accepted, expected, UpTo(lists, k), testedBy, duplicates, errors);
    }
  }

  // ----- the exit code -----

  /** Every registered class resolves, nothing is broken, and none has two factories. */
  ghost predicate ErrorFree(specs: seq<Spec>, accepted: map<string, string>, index: SourceIndex, files: seq<TestFile>)
    requires Scannable(files, accepted, ExpectedPaths(specs))
  {
    && (forall spec :: spec in specs ==> Resolvable(spec, index))
    && Clean(Events(files, accepted, ExpectedPaths(specs)))
  }

  /** Besides, each registered class has exactly one factory. */
  ghost predicate Covered(specs: seq<Spec>, accepted: map<string, string>, index: SourceIndex, files: seq<TestFile>)
    requires Scannable(files, accepted, ExpectedPaths(specs))
  {
    && ErrorFree(specs, accepted, index, files)
    && forall spec :: spec in specs ==> Uses(Events(files, accepted, ExpectedPaths(specs)), spec.className) == 1
  }

  lemma {:induction false} RegistryScannable(specs: seq<Spec>, accepted: map<string, string>, index: SourceIndex,
                                             files: seq<TestFile>)
    requires DistinctSpecs(specs) && Registry(accepted, specs, RegisteredNames(index))
    requires forall i :: 0 <= i < |files| ==> WellFormed(files[i])
    ensures Scannable(files, accepted, ExpectedPaths(specs))
  {
    ExpectedPathsExact(specs);
    forall name | name in accepted
      ensures accepted[name] in ExpectedPaths(specs)
    {
      var i := AcceptedSpec(accepted, specs, RegisteredNames(index), name);
      assert specs[i] in specs;
    }
  }

  /** The report and its exit status: 2 exactly for a registry that cannot be read or any error,
      0 exactly when everything is covered, and 1 in the remaining case: no error, but some
      registered class without a factory. */
  method Report(entries: seq<RegistryEntry>, index: SourceIndex, files: seq<TestFile>)
    returns (exit: int, specs: seq<Spec>, accepted: map<string, string>)
    requires forall i :: 0 <= i < |files| ==> WellFormed(files[i])
    ensures !Loadable(entries) ==> exit == 2
    ensures Loadable(entries) ==>
              && |specs| == |entries| && (forall i :: 0 <= i < |specs| ==> specs[i] == SpecOf(entries[i]))
              && DistinctSpecs(specs) && Registry(accepted, specs, RegisteredNames(index))
              && Scannable(files, accepted, ExpectedPaths(specs))
              && (exit == 2 <==> !ErrorFree(specs, accepted, index, files))
              && (exit == 0 <==> Covered(specs, accepted, index, files))
    ensures exit in {0, 1, 2}
  {
    var r := LoadBuiltinSpecs(entries);
    specs, accepted := [], map[];
    if r.Failed? {
      return 2, specs, accepted;
    }
    specs := r.specs;
    var sourceErrors;
    accepted, sourceErrors := ResolveRegisteredClasses(specs, index);
    RegistryScannable(specs, accepted, index, files);
    var tested, testErrors := ScanContractTests(specs, accepted, files);
    ghost var es := Events(files, accepted, ExpectedPaths(specs));
    NoErrorsExact(es);
    forall c { TallyExact(es, c); }
    if sourceErrors != [] || testErrors != [] {
      exit := 2;
    } else if exists spec :: spec in specs && spec.className !in tested {
      exit := 1;
    } else {
      exit := 0;
    }
  }

  // ----- what exit code 0 guarantees -----

  lemma {:induction false} UsedFrom(es: seq<Event>, c: string) returns (e: Event)
    requires Uses(es, c) >= 1
    ensures e in es && e.Placed? && e.cls == c
  {
    e := es[|es| - 1];
    if !(e.Placed? && e.cls == c) {
      e := UsedFrom(es[..|es| - 1], c);
    }
  }

  lemma {:induction false} EventFromOption(options: seq<Option<Event>>, n: nat, e: Event) returns (i: nat)
    requires n <= |options| && e in Present(options, n)
    ensures i < n && options[i] == Some(e)
  {
    i := n - 1;
    if options[i] != Some(e) {
      i := EventFromOption(options, n - 1, e);
    }
  }

  lemma PlacedInFile(f: TestFile, accepted: map<string, string>, expected: map<string, string>, e: Event)
    requires WellFormed(f) && forall name :: name in accepted ==> accepted[name] in expected
    requires e in FileEvents(f, accepted, expected) && e.Placed?
    ensures FileProblem(f) == None && e in Present(PerClass(f, accepted, expected), |f.order|)
  {
  }

  lemma {:induction false} EventFromList(lists: seq<seq<Event>>, n: nat, e: Event) returns (i: nat)
    requires n <= |lists| && e in UpTo(lists, n)
    ensures i < n && e in lists[i]
  {
    i := n - 1;
    if e !in lists[i] {
      i := EventFromList(lists, n - 1, e);
    }
  }

  /** No path of local bases leaves a method abstract. */
  ghost predicate NothingAbstract(q: string, ds: Declarations, bases: Graph) {
    forall m, p | Chain(LocalBases(ds, bases), Undefined(ds, m), MakesAbstract(ds, bases, m), p) :: p[0] != q
  }

  /** Neither the class nor a local class it reaches has a gate. */
  ghost predicate NoGate(kind: GateKind, q: string, ds: Declarations, bases: Graph) {
    forall p | Chain(Local(ds, bases), Always(), Gated(kind, ds), p) :: p[0] != q
  }

  lemma NothingAbstractExact(q: string, ds: Declarations, bases: Graph)
    ensures AbstractMethods(q, ds, bases, {}) == {} <==> NothingAbstract(q, ds, bases)
  {
    if AbstractMethods(q, ds, bases, {}) == {} {
      forall m, p | Chain(LocalBases(ds, bases), Undefined(ds, m), MakesAbstract(ds, bases, m), p)
        ensures p[0] != q
      {
        AbstractMethodsExact(q, ds, bases, m);
      }
    } else {
      var m :| m in AbstractMethods(q, ds, bases, {});
      AbstractMethodsExact(q, ds, bases, m);
    }
  }

  lemma NoGateExact(kind: GateKind, q: string, ds: Declarations, bases: Graph)
    ensures GateError(kind, q, ds, bases, {}) == "" <==> NoGate(kind, q, ds, bases)
  {
    GateErrorExact(kind, q, ds, bases);
  }

  /** A class that pytest collects and runs as a contract test: it derives from the contract
      base, leaves nothing abstract, and no gate is on it or on a local class it reaches. */
  ghost predicate RealTest(f: TestFile, q: string) {
    && q in f.declarations && "Test" <= f.declarations[q].name
    && ReachesBase(q, f.bases, CONTRACT_BASE)
    && NothingAbstract(q, f.declarations, f.bases)
    && NoGate(Collection, q, f.declarations, f.bases)
    && NoGate(Runtime, q, f.declarations, f.bases)
  }

  lemma PlacedIsReal(f: TestFile, q: string, accepted: map<string, string>, expected: map<string, string>, e: Event)
    requires WellFormed(f) && q in f.declarations
    requires forall name :: name in accepted ==> accepted[name] in expected
    requires ClassEvent(f, q, accepted, expected) == Some(e) && e.Placed?
    ensures RealTest(f, q)
    ensures f.factories[q].Returns? && f.factories[q].target in accepted
    ensures e.cls == accepted[f.factories[q].target] && f.path == expected[e.cls]
  {
    InheritsContractExact(q, f.bases);
    NothingAbstractExact(q, f.declarations, f.bases);
    NoGateExact(Collection, q, f.declarations, f.bases);
    NoGateExact(Runtime, q, f.declarations, f.bases);
  }

  lemma SameSpec(specs: seq<Spec>, spec: Spec, j: nat)
    requires DistinctSpecs(specs) && spec in specs && j < |specs| && specs[j].className == spec.className
    ensures specs[j] == spec
  {
    var i :| 0 <= i < |specs| && specs[i] == spec;
  }

  /** A file is scanned class by class exactly when it has no module-level gate, the bases of its
      audited classes are local or the contract base, and none of these classes is changed. */
  lemma FileProblemExact(f: TestFile)
    ensures FileProblem(f) == None <==>
            && f.moduleGate == "" && f.runtimeGate == ""
            && (forall q, b :: q in AuditedIn(f) && b in Bases(f.bases, q) ==>
                  b == CONTRACT_BASE || b in f.declarations)
            && (forall q :: q in AuditedIn(f) ==> q !in f.mutated)
  {
    BasesLocal(AuditedIn(f), f.declarations, f.bases);
    Disjoint(f.mutated, AuditedIn(f));
  }

  lemma BasesLocal(audited: set<string>, ds: Declarations, bases: Graph)
    ensures !InvalidBase(audited, ds, bases) <==>
            forall q, b :: q in audited && b in Bases(bases, q) ==> b == CONTRACT_BASE || b in ds
  {
    if forall q, b :: q in audited && b in Bases(bases, q) ==> b == CONTRACT_BASE || b in ds {
      assert forall q, b :: q in audited && b in Bases(bases, q) ==> !Foreign(ds, b);
    } else {
      var q, b :| q in audited && b in Bases(bases, q) && !(b == CONTRACT_BASE || b in ds);
      assert Foreign(ds, b);
    }
  }

  lemma Disjoint(a: set<string>, b: set<string>)
    ensures a * b == {} <==> forall x :: x in b ==> x !in a
  {
    assert forall x :: x in a * b <==> x in a && x in b;
  }

  /** What a class contributes: nothing unless it is a concrete contract class, a well-placed
      factory exactly when it is a real test that returns an accepted name in the canonical
      file of the class that stands for, and an error otherwise. */
  lemma {:induction false} ClassEventExact(f: TestFile, q: string, accepted: map<string, string>,
                                           expected: map<string, string>)
    requires q in f.declarations && q in f.factories
    requires forall name :: name in accepted ==> accepted[name] in expected
    ensures var event := ClassEvent(f, q, accepted, expected);
            && (event == None <==>
                !ReachesBase(q, f.bases, CONTRACT_BASE) || !NothingAbstract(q, f.declarations, f.bases))
            && (event.Some? && event.value.Placed? <==>
                && RealTest(f, q) && f.factories[q].Returns? && f.factories[q].target in accepted
                && f.path == expected[accepted[f.factories[q].target]])
            && (event.Some? && event.value.Placed? ==>
                event.value == Placed(accepted[f.factories[q].target], Site(f.path, q)))
  {
    InheritsContractExact(q, f.bases);
    NothingAbstractExact(q, f.declarations, f.bases);
    NoGateExact(Collection, q, f.declarations, f.bases);
    NoGateExact(Runtime, q, f.declarations, f.bases);
  }

  lemma {:induction false} PresentHolds(options: seq<Option<Event>>, n: nat, i: nat)
    requires i < n <= |options| && options[i].Some?
    ensures options[i].value in Present(options, n)
  {
    if i < n - 1 {
      PresentHolds(options, n - 1, i);
    }
  }

  lemma {:induction false} UpToHolds(lists: seq<seq<Event>>, n: nat, i: nat, e: Event)
    requires i < n <= |lists| && e in lists[i]
    ensures e in UpTo(lists, n)
  {
    if i < n - 1 {
      UpToHolds(lists, n - 1, i, e);
    }
  }

  lemma {:induction false} UsedWhenPlaced(es: seq<Event>, e: Event)
    requires e in es && e.Placed?
    ensures Uses(es, e.cls) >= 1
  {
    var init, last := es[..|es| - 1], es[|es| - 1];
    assert es == init + [last];
    if e != last {
      UsedWhenPlaced(init, e);
    }
  }

  lemma {:induction false} EventHappens(files: seq<TestFile>, accepted: map<string, string>,
                                        expected: map<string, string>, k: nat, q: string, e: Event)
    requires Scannable(files, accepted, expected) && k < |files|
    requires FileProblem(files[k]) == None && q in files[k].declarations
    requires ClassEvent(files[k], q, accepted, expected) == Some(e) && e.Placed?
    ensures e in Events(files, accepted, expected) && Uses(Events(files, accepted, expected), e.cls) >= 1
  {
    var f := files[k];
    var i :| 0 <= i < |f.order| && f.order[i] == q;
    PresentHolds(PerClass(f, accepted, expected), |f.order|, i);
    UpToHolds(PerFile(files, accepted, expected), |files|, k, e);
    UsedWhenPlaced(Events(files, accepted, expected), e);
  }

  /** Conversely, a real test in a scanned file that returns either name of a registered class,
      in the canonical file of that class, is a well-placed factory of it. */
  lemma {:induction false} RealTestCounts(specs: seq<Spec>, accepted: map<string, string>, index: SourceIndex,
                                          files: seq<TestFile>, k: nat, q: string, name: string, i: nat)
    requires DistinctSpecs(specs) && Registry(accepted, specs, RegisteredNames(index))
    requires Scannable(files, accepted, ExpectedPaths(specs)) && k < |files|
    requires FileProblem(files[k]) == None && RealTest(files[k], q)
    requires q in files[k].factories && files[k].factories[q] == Returns(name)
    requires RegistersLast(specs, RegisteredNames(index), name, i) && files[k].path == TestPath(specs[i].key)
    ensures Placed(specs[i].className, Site(files[k].path, q)) in Events(files, accepted, ExpectedPaths(specs))
    ensures Uses(Events(files, accepted, ExpectedPaths(specs)), specs[i].className) >= 1
  {
    RealTestPlaced(specs, accepted, RegisteredNames(index), files[k], q, name, i);
    EventHappens(files, accepted, ExpectedPaths(specs), k, q, Placed(specs[i].className, Site(files[k].path, q)));
  }

  lemma {:induction false} RealTestPlaced(specs: seq<Spec>, accepted: map<string, string>,
                                          names: iset<(Spec, string)>, f: TestFile, q: string, name: string, i: nat)
    requires DistinctSpecs(specs) && Registry(accepted, specs, names) && WellFormed(f)
    requires forall n :: n in accepted ==> accepted[n] in ExpectedPaths(specs)
    requires RealTest(f, q) && q in f.factories && f.factories[q] == Returns(name)
    requires RegistersLast(specs, names, name, i) && f.path == TestPath(specs[i].key)
    ensures ClassEvent(f, q, accepted, ExpectedPaths(specs)) == Some(Placed(specs[i].className, Site(f.path, q)))
  {
    ExpectedPathsExact(specs);
    assert name in accepted && specs[i] in specs;
    var j := AcceptedSpec(accepted, specs, names, name);
    OneLast(specs, names, name, i, j);
    ClassEventExact(f, q, accepted, ExpectedPaths(specs));
  }

  /** Exit code 0: each registered class derives from BaseChannel by a chain of bases, and a
      real contract test in its own canonical file returns it. */
  lemma {:induction false} CoveredMeans(specs: seq<Spec>, accepted: map<string, string>, index: SourceIndex,
                                        files: seq<TestFile>, spec: Spec)
    returns (f: TestFile, q: string)
    requires DistinctSpecs(specs) && Registry(accepted, specs, RegisteredNames(index))
    requires Scannable(files, accepted, ExpectedPaths(specs)) && Covered(specs, accepted, index, files)
    requires spec in specs
    ensures f in files && f.path == "tests/contract/channels/test_" + spec.key + "_contract.py"
    ensures WellFormed(f) && FileProblem(f) == None && RealTest(f, q)
    ensures q in f.factories && f.factories[q].Returns? && f.factories[q].target in accepted
    ensures accepted[f.factories[q].target] == spec.className
    ensures f.moduleGate == "" && f.runtimeGate == ""
    ensures Resolvable(spec, index) && exists name :: Registers(spec, index, name) && f.factories[q] == Returns(name)
  {
    var expected := ExpectedPaths(specs);
    ExpectedPathsExact(specs);
    var e := UsedFrom(Events(files, accepted, expected), spec.className);
    var i := EventFromList(PerFile(files, accepted, expected), |files|, e);
    f := files[i];
    PlacedInFile(f, accepted, expected, e);
    var k := EventFromOption(PerClass(f, accepted, expected), |f.order|, e);
    q := f.order[k];
    PlacedIsReal(f, q, accepted, expected, e);
    var name := f.factories[q].target;
    var j := AcceptedSpec(accepted, specs, RegisteredNames(index), name);
    SameSpec(specs, spec, j);
  }

  /** Whatever a real test inherits from locally was audited: it is not changed after its
      declaration, and its own bases are local or the contract base. */
  lemma {:induction false} InheritedIsAudited(f: TestFile, q: string, p: seq<string>, b: string)
    requires WellFormed(f) && FileProblem(f) == None && RealTest(f, q)
    requires LocalPath(f.declarations, f.bases, p) && p[0] == q
    ensures p[|p| - 1] in AuditedIn(f) && p[|p| - 1] !in f.mutated
    ensures b in Bases(f.bases, p[|p| - 1]) ==> b == CONTRACT_BASE || b in AuditedIn(f)
  {
    InheritsContractExact(q, f.bases);
    assert q in ContractNames(f);
    var last := p[|p| - 1];
    assert last in AuditedIn(f);
    assert last in f.mutated ==> last in f.mutated * AuditedIn(f);
    if b in Bases(f.bases, last) {
      BasesAudited(ContractNames(f), f.declarations, f.bases, last, b);
    }
  }

  /** Two registered classes are never tested in the same file. */
  lemma DistinctFiles(specs: seq<Spec>, i: nat, j: nat)
    requires DistinctSpecs(specs) && i < j < |specs|
    ensures TestPath(specs[i].key) != TestPath(specs[j].key)
  {
    if TestPath(specs[i].key) == TestPath(specs[j].key) {
      TestPathInjective(specs[i].key, specs[j].key);
    }
  }
}
