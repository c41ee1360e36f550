/**
 * The target registry of one round, as values: an insertion-ordered map from enclosing
 * declaration to its generation descriptor, the per-element step (validate, then
 * lookup-or-insert and append the field), and the fold of that step over a round.
 */
module Targets {
  import opened Host
  import opened TypeReflection
  import opened Naming
  import opened Validation

  const DELEGATE_SUFFIX: string := "$$ParcelDelegate"
  const INJECTOR_SUFFIX: string := "$$ParcelInjector"
  const PARCEL_TYPE: string := "android.os.Parcelable"

  datatype GeneratorKind = Injector | Delegate

  /** What the external code emitter receives for one target class. */
  datatype Descriptor = Descriptor(
    kind: GeneratorKind,
    packageName: string,
    className: string,
    targetClassName: string,
    fields: seq<(string, string)>)

  /** A LinkedHashMap: `keys` in first-insertion order, `generators` the entries. */
  datatype Registry = Registry(keys: seq<DeclId>, generators: map<DeclId, Descriptor>) {
    ghost predicate Valid()
    {
      && (forall i, j :: 0 <= i < j < |keys| ==> keys[i] != keys[j])
      && (forall d :: d in generators <==> d in keys)
    }
  }

  const EmptyRegistry: Registry := Registry([], map[])

  /** Whether a type passes the structural subtype test against the platform's Parcelable. */
  function IsParcelable(g: Graph, t: Type): (r: bool)
    requires WellFormed(g) && TypeIn(g, t)
    ensures TypeName(g, t) == PARCEL_TYPE ==> r
    ensures !t.Declared? ==> (r <==> TypeName(g, t) == PARCEL_TYPE)
  {
    IsSubtypeOfType(g, t, PARCEL_TYPE)
  }

  /** The strategy's suffix: the two suffixes differ, and neither contains a `.`. */
  function Suffix(kind: GeneratorKind): (r: string)
    ensures r == INJECTOR_SUFFIX <==> kind.Injector?
    ensures r == DELEGATE_SUFFIX <==> kind.Delegate?
    ensures |r| == 16 && r[..8] == "$$Parcel" && '.' !in r
  {
    assert INJECTOR_SUFFIX != DELEGATE_SUFFIX by {
      assert INJECTOR_SUFFIX[8] != DELEGATE_SUFFIX[8];
    }
    if kind == Injector then INJECTOR_SUFFIX else DELEGATE_SUFFIX
  }

  /** The descriptor created for a target seen for the first time. */
  function NewDescriptor(g: Graph, d: DeclId): (r: Descriptor)
    requires WellFormed(g) && d in g
    ensures DeclWellFormed(g, g[d])
    ensures r.kind == Injector <==> IsParcelable(g, DeclType(g, d))
    ensures r.packageName == g[d].packageName && r.targetClassName == g[d].qualifiedName
    ensures r.className == ClassNameAsWritten(g[d].qualifiedName, g[d].packageName) + Suffix(r.kind)
    ensures g[d].packageName != [] ==>
              r.className == ClassName(g[d].qualifiedName, g[d].packageName) + Suffix(r.kind)
    ensures '.' !in r.className
    ensures r.fields == []
  {
    assert DeclWellFormed(g, g[d]);
    var kind := if IsParcelable(g, DeclType(g, d)) then Injector else Delegate;
    var className := ClassNameAsWritten(g[d].qualifiedName, g[d].packageName) + Suffix(kind);
    assert '.' !in Suffix(kind);
    Descriptor(kind, g[d].packageName, className, g[d].qualifiedName, [])
  }

  /** Lookup-or-insert: an existing entry is kept, a missing one is appended. */
  function GetOrCreate(g: Graph, reg: Registry, d: DeclId): (r: Registry)
    requires WellFormed(g) && d in g && reg.Valid()
    ensures r.Valid() && d in r.generators
    ensures d in reg.generators ==> r == reg
    ensures d !in reg.generators ==>
              r.keys == reg.keys + [d] && r.generators == reg.generators[d := NewDescriptor(g, d)]
  {
    if d in reg.generators then reg
    else Registry(reg.keys + [d], reg.generators[d := NewDescriptor(g, d)])
  }

  /** Lookup-or-insert is idempotent. */
  lemma GetOrCreateIdempotent(g: Graph, reg: Registry, d: DeclId)
    requires WellFormed(g) && d in g && reg.Valid()
    ensures GetOrCreate(g, GetOrCreate(g, reg, d), d) == GetOrCreate(g, reg, d)
    ensures |GetOrCreate(g, reg, d).keys| <= |reg.keys| + 1
    ensures forall k :: k in reg.generators ==> GetOrCreate(g, reg, d).generators[k] == reg.generators[k]
  {
  }

  /** The generator's `addCodeFragment`: the pair goes at the end of its target's fields. */
  function AddField(reg: Registry, d: DeclId, field: (string, string)): (r: Registry)
    requires reg.Valid() && d in reg.generators
    ensures r.Valid() && r.keys == reg.keys && r.generators.Keys == reg.generators.Keys
    ensures r.generators[d].fields == reg.generators[d].fields + [field]
    ensures forall k :: k in reg.generators && k != d ==> r.generators[k] == reg.generators[k]
  {
    var gen := reg.generators[d];
    Registry(reg.keys, reg.generators[d := gen.(fields := gen.fields + [field])])
  }

  /** The (name, type) pair recorded for an accepted field. */
  function FieldEntry(g: Graph, e: Element): (r: (string, string))
    requires ElementIn(g, e)
    ensures r.0 == e.simpleName
    ensures e.declaredType.TypeVar? ==> r.1 == TypeName(g, e.declaredType.upperBound)
    ensures !e.declaredType.TypeVar? ==> r.1 == TypeName(g, e.declaredType)
  {
    (e.simpleName, TypeName(g, ResolveType(e.declaredType)))
  }

  /** The new registry and the diagnostics reported while handling one element. */
  datatype Outcome = Outcome(targets: Registry, log: seq<Diagnostic>)

  /**
   * One turn of the round's loop, the exception handler included: a rejected element
   * reports its violations and one generic error and changes nothing; an accepted one
   * gets its target (created on first sight) and appends its field.
   */
  function ParseStep(g: Graph, reg: Registry, e: Element): (o: Outcome)
    requires WellFormed(g) && ElementIn(g, e) && reg.Valid()
    ensures o.targets.Valid()
    ensures !Accepted(g, e) ==>
              o.targets == reg && o.log == ElementErrors(g, e) + [Error(UnableToGenerate, AtElement(e))]
    ensures Accepted(g, e) ==> o.targets == AddField(GetOrCreate(g, reg, e.enclosing), e.enclosing, FieldEntry(g, e))
  {
    if !Accepted(g, e) then
      Outcome(reg, ElementErrors(g, e) + [Error(UnableToGenerate, AtElement(e))])
    else
      var d := e.enclosing;
      var created := if d in reg.generators then [] else
        var gen := NewDescriptor(g, d);
        [Note(TargetCreated(gen.targetClassName, gen.packageName, gen.className))];
      var field := FieldEntry(g, e);
      Outcome(AddField(GetOrCreate(g, reg, d), d, field), created + [Note(FieldParsed(field.0, field.1))])
  }

  predicate AllIn(g: Graph, es: seq<Element>)
  {
    forall i :: 0 <= i < |es| ==> ElementIn(g, es[i])
  }

  /** The whole loop over a round's elements, starting from `reg`. */
  function ParseAll(g: Graph, reg: Registry, es: seq<Element>): (o: Outcome)
    requires WellFormed(g) && AllIn(g, es) && reg.Valid()
    ensures o.targets.Valid()
    decreases |es|
  {
    if es == [] then Outcome(reg, [])
    else
      var prev := ParseAll(g, reg, es[..|es| - 1]);
      var step := ParseStep(g, prev.targets, es[|es| - 1]);
      Outcome(step.targets, prev.log + step.log)
  }

  /** Unfolds the fold at a prefix of the round, one element at a time. */
  lemma ParseAllPrefix(g: Graph, reg: Registry, es: seq<Element>, i: nat)
    requires WellFormed(g) && AllIn(g, es) && reg.Valid() && i < |es|
    ensures AllIn(g, es[..i]) && AllIn(g, es[..i + 1])
    ensures var prev := ParseAll(g, reg, es[..i]);
      var step := ParseStep(g, prev.targets, es[i]);
      ParseAll(g, reg, es[..i + 1]) == Outcome(step.targets, prev.log + step.log)
  {
    assert es[..i + 1][..i] == es[..i];
  }

  /** The accepted elements of a round, in order. */
  function AcceptedOnly(g: Graph, es: seq<Element>): (r: seq<Element>)
    requires AllIn(g, es)
    ensures |r| <= |es| && AllIn(g, r)
    ensures forall i :: 0 <= i < |r| ==> Accepted(g, r[i])
    decreases |es|
  {
    if es == [] then []
    else
      var prev := AcceptedOnly(g, es[..|es| - 1]);
      if Accepted(g, es[|es| - 1]) then prev + [es[|es| - 1]] else prev
  }

  /** Rejected elements leave no trace: the registry is the fold over the accepted ones only. */
  lemma {:induction false} OnlyAcceptedMatter(g: Graph, reg: Registry, es: seq<Element>)
    requires WellFormed(g) && AllIn(g, es) && reg.Valid()
    ensures ParseAll(g, reg, es).targets == ParseAll(g, reg, AcceptedOnly(g, es)).targets
    decreases |es|
  {
    if es != [] {
      var init := es[..|es| - 1];
      var e := es[|es| - 1];
      OnlyAcceptedMatter(g, reg, init);
      var acc := AcceptedOnly(g, init);
      if Accepted(g, e) {
        assert (acc + [e])[..|acc + [e]| - 1] == acc;
      }
    }
  }

  /** The fields an accepted element of `es` contributes to target `d`, in discovery order. */
  function FieldsOf(g: Graph, es: seq<Element>, d: DeclId): (r: seq<(string, string)>)
    requires AllIn(g, es)
    ensures |r| <= |es|
    decreases |es|
  {
    if es == [] then []
    else
      var prev := FieldsOf(g, es[..|es| - 1], d);
      var e := es[|es| - 1];
      if Accepted(g, e) && e.enclosing == d then prev + [FieldEntry(g, e)] else prev
  }

  /** The targets of a round in the order their first accepted field was seen. */
  function TargetsInOrder(g: Graph, es: seq<Element>): (r: seq<DeclId>)
    requires AllIn(g, es)
    ensures forall i, j :: 0 <= i < j < |r| ==> r[i] != r[j]
    decreases |es|
  {
    if es == [] then []
    else
      var prev := TargetsInOrder(g, es[..|es| - 1]);
      var e := es[|es| - 1];
      if Accepted(g, e) && e.enclosing !in prev then prev + [e.enclosing] else prev
  }

  /**
   * The registry a round builds from nothing: its keys are the targets in first-seen
   * order, a target is present exactly when it received a field, and each descriptor
   * is the fresh one for its target holding that target's fields in discovery order,
   * duplicates included.
   */
  lemma {:induction false} RoundRegistry(g: Graph, es: seq<Element>)
    requires WellFormed(g) && AllIn(g, es)
    ensures var r := ParseAll(g, EmptyRegistry, es).targets;
      && r.keys == TargetsInOrder(g, es)
      && (forall d :: d in r.generators <==> d in g && FieldsOf(g, es, d) != [])
      && (forall d :: d in r.generators ==> r.generators[d] == NewDescriptor(g, d).(fields := FieldsOf(g, es, d)))
    decreases |es|
  {
    if es != [] {
      var init := es[..|es| - 1];
      var e := es[|es| - 1];
      RoundRegistry(g, init);
      var prev := ParseAll(g, EmptyRegistry, init).targets;
      var r := ParseAll(g, EmptyRegistry, es).targets;
      assert r == ParseStep(g, prev, e).targets;
      forall d | d in g
        ensures d in r.generators <==> FieldsOf(g, es, d) != []
        ensures d in r.generators ==> r.generators[d] == NewDescriptor(g, d).(fields := FieldsOf(g, es, d))
      {
        if Accepted(g, e) && e.enclosing == d {
          assert FieldsOf(g, es, d) == FieldsOf(g, init, d) + [FieldEntry(g, e)];
        } else {
          assert FieldsOf(g, es, d) == FieldsOf(g, init, d);
        }
      }
      forall d | d in r.generators ensures d in g {
        if d !in prev.generators {
          assert Accepted(g, e) && d == e.enclosing;
        }
      }
      assert e.enclosing in prev.keys <==> e.enclosing in prev.generators;
    }
  }

  /** The first accepted field of a round creates its target's entry holding that field. */
  lemma FirstFieldCreatesTarget(g: Graph, e: Element)
    requires WellFormed(g) && ElementIn(g, e) && Accepted(g, e)
    ensures AllIn(g, [e])
    ensures ParseAll(g, EmptyRegistry, [e]).targets ==
              Registry([e.enclosing], map[e.enclosing := NewDescriptor(g, e.enclosing).(fields := [FieldEntry(g, e)])])
  {
    var d := e.enclosing;
    var initial := NewDescriptor(g, d);
    assert AllIn(g, [e]) && [e][..0] == [];
    assert ParseAll(g, EmptyRegistry, [e]).targets == AddField(Registry([d], map[d := initial]), d, FieldEntry(g, e));
    assert initial.fields + [FieldEntry(g, e)] == [FieldEntry(g, e)];
  }

  /** A round of two elements is two steps. */
  lemma ParseTwo(g: Graph, reg: Registry, first: Element, second: Element)
    requires WellFormed(g) && ElementIn(g, first) && ElementIn(g, second) && reg.Valid()
    ensures AllIn(g, [first]) && AllIn(g, [first, second])
    ensures ParseAll(g, reg, [first, second]).targets ==
              ParseStep(g, ParseAll(g, reg, [first]).targets, second).targets
  {
    var es := [first, second];
    assert AllIn(g, es) && es[..1] == [first];
  }

  /**
   * Two accepted fields of the same class, from an empty map: one entry whose
   * descriptor is the fresh one holding both fields in discovery order.
   */
  lemma TwoFieldsOneTarget(g: Graph, first: Element, second: Element)
    requires WellFormed(g) && ElementIn(g, first) && ElementIn(g, second)
    requires Accepted(g, first) && Accepted(g, second) && first.enclosing == second.enclosing
    ensures AllIn(g, [first, second])
    ensures ParseAll(g, EmptyRegistry, [first, second]).targets ==
              Registry([first.enclosing], map[first.enclosing := NewDescriptor(g, first.enclosing).(fields :=
                [FieldEntry(g, first), FieldEntry(g, second)])])
  {
    FirstFieldCreatesTarget(g, first);
    ParseTwo(g, EmptyRegistry, first, second);
    var d := first.enclosing;
    var f1 := FieldEntry(g, first);
    var f2 := FieldEntry(g, second);
    var initial := NewDescriptor(g, d);
    var one := ParseAll(g, EmptyRegistry, [first]).targets;
    assert d in one.generators;
    assert ParseStep(g, one, second).targets == AddField(one, d, f2);
    AddToSingleEntry(d, initial, f1, f2);
  }

  lemma AddToSingleEntry(d: DeclId, gen: Descriptor, f1: (string, string), f2: (string, string))
    ensures Registry([d], map[d := gen.(fields := [f1])]).Valid()
    ensures AddField(Registry([d], map[d := gen.(fields := [f1])]), d, f2) == Registry([d], map[d := gen.(fields := [f1, f2])])
  {
    assert [f1] + [f2] == [f1, f2];
  }

  /** Each rejected element adds exactly one generic error to the round's log. */
  function CountGeneric(log: seq<Diagnostic>): nat
  {
    if log == [] then 0
    else CountGeneric(log[..|log| - 1]) + (if log[|log| - 1].Error? && log[|log| - 1].error == UnableToGenerate then 1 else 0)
  }

  lemma {:induction false} CountGenericAppend(a: seq<Diagnostic>, b: seq<Diagnostic>)
    ensures CountGeneric(a + b) == CountGeneric(a) + CountGeneric(b)
    decreases |b|
  {
    if b == [] {
      assert a + b == a;
    } else {
      CountGenericAppend(a, b[..|b| - 1]);
      assert (a + b)[..|a + b| - 1] == a + b[..|b| - 1];
      assert (a + b)[|a + b| - 1] == b[|b| - 1];
    }
  }

  lemma {:induction false} GenericErrorsCountRejected(g: Graph, reg: Registry, es: seq<Element>)
    requires WellFormed(g) && AllIn(g, es) && reg.Valid()
    ensures CountGeneric(ParseAll(g, reg, es).log) == |es| - |AcceptedOnly(g, es)|
    decreases |es|
  {
    if es != [] {
      var init := es[..|es| - 1];
      var e := es[|es| - 1];
      GenericErrorsCountRejected(g, reg, init);
      var prev := ParseAll(g, reg, init);
      var step := ParseStep(g, prev.targets, e);
      CountGenericAppend(prev.log, step.log);
      StepGenericCount(g, prev.targets, e);
    }
  }

  /** One turn logs the generic error exactly when it rejects its element. */
  lemma StepGenericCount(g: Graph, reg: Registry, e: Element)
    requires WellFormed(g) && ElementIn(g, e) && reg.Valid()
    ensures CountGeneric(ParseStep(g, reg, e).log) == if Accepted(g, e) then 0 else 1
  {
    if Accepted(g, e) {
      AcceptedStepNotGeneric(g, reg, e);
    } else {
      RejectedStepOneGeneric(g, reg, e);
    }
  }

  lemma AcceptedStepNotGeneric(g: Graph, reg: Registry, e: Element)
    requires WellFormed(g) && ElementIn(g, e) && reg.Valid() && Accepted(g, e)
    ensures CountGeneric(ParseStep(g, reg, e).log) == 0
  {
    var log := ParseStep(g, reg, e).log;
    assert forall i :: 0 <= i < |log| ==> log[i].Note?;
    NoGenericCountsZero(log);
  }

  lemma RejectedStepOneGeneric(g: Graph, reg: Registry, e: Element)
    requires WellFormed(g) && ElementIn(g, e) && reg.Valid() && !Accepted(g, e)
    ensures CountGeneric(ParseStep(g, reg, e).log) == 1
  {
    var errs := ElementErrors(g, e);
    var log := ParseStep(g, reg, e).log;
    assert log == errs + [Error(UnableToGenerate, AtElement(e))];
    assert log[..|log| - 1] == errs;
    ElementErrorsNotGeneric(g, e);
  }

  lemma ElementErrorsNotGeneric(g: Graph, e: Element)
    requires e.enclosing in g
    ensures CountGeneric(ElementErrors(g, e)) == 0
  {
    var errs := ElementErrors(g, e);
    assert forall i :: 0 <= i < |errs| ==> errs[i].error != UnableToGenerate;
    NoGenericCountsZero(errs);
  }

  lemma NoGenericCountsZero(log: seq<Diagnostic>)
    requires forall i :: 0 <= i < |log| ==> !(log[i].Error? && log[i].error == UnableToGenerate)
    ensures CountGeneric(log) == 0
    decreases |log|
  {
    if log != [] {
      NoGenericCountsZero(log[..|log| - 1]);
    }
  }
  /**
   * Kind selection, one direction: a target one of whose ancestors (itself included)
   * is named `android.os.Parcelable`, directly, through a superclass or through an
   * interface of an interface, gets the Injector strategy.
   */
  lemma InjectorViaAncestor(g: Graph, d: DeclId, chain: seq<Type>)
    requires WellFormed(g) && d in g
    requires IsAncestry(g, chain) && chain[0] == DeclType(g, d)
    requires MatchesName(g, chain[|chain| - 1], PARCEL_TYPE)
    ensures NewDescriptor(g, d).kind == Injector
    ensures DeclWellFormed(g, g[d])
    ensures NewDescriptor(g, d).className == ClassNameAsWritten(g[d].qualifiedName, g[d].packageName) + INJECTOR_SUFFIX
  {
    assert DeclWellFormed(g, g[d]);
    AncestryClosure(g, chain, PARCEL_TYPE);
  }

  /** Kind selection, the other direction: an Injector target has such an ancestor. */
  lemma InjectorHasAncestor(g: Graph, d: DeclId) returns (chain: seq<Type>)
    requires WellFormed(g) && d in g
    requires NewDescriptor(g, d).kind == Injector
    ensures IsAncestry(g, chain) && chain[0] == DeclType(g, d)
    ensures MatchesName(g, chain[|chain| - 1], PARCEL_TYPE)
  {
    chain := SubtypeWitness(g, DeclType(g, d), PARCEL_TYPE);
  }
}
