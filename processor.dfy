/**
 * The annotation processor itself, in the imperative form of the original: a processor
 * object that reports to the host's message channel, and a fresh insertion-ordered
 * target map per round that its methods update in place. Each method is proved against
 * the value-level specification in `Targets`.
 */
module Processor {
  import opened Host
  import opened TypeReflection
  import opened Naming
  import opened Validation
  import opened Targets

  /** The descriptors whose unit was written, in the map's order. */
  function Emitted(generators: map<DeclId, Descriptor>, keys: seq<DeclId>, failing: set<DeclId>): (r: seq<Descriptor>)
    requires forall i :: 0 <= i < |keys| ==> keys[i] in generators
    ensures |r| <= |keys|
    decreases |keys|
  {
    if keys == [] then []
    else
      var prev := Emitted(generators, keys[..|keys| - 1], failing);
      var d := keys[|keys| - 1];
      if d in failing then prev else prev + [generators[d]]
  }

  /** One write error per target whose unit could not be written, in the map's order. */
  function WriteErrors(keys: seq<DeclId>, failing: set<DeclId>): (r: seq<Diagnostic>)
    ensures forall i :: 0 <= i < |r| ==> r[i].Error? && r[i].error == UnableToWrite
    decreases |keys|
  {
    if keys == [] then []
    else
      var prev := WriteErrors(keys[..|keys| - 1], failing);
      var d := keys[|keys| - 1];
      if d in failing then prev + [Error(UnableToWrite, AtDecl(d))] else prev
  }

  /** Every target is attempted exactly once: it is either written or reported. */
  lemma {:induction false} EveryTargetAttempted(generators: map<DeclId, Descriptor>, keys: seq<DeclId>, failing: set<DeclId>)
    requires forall i :: 0 <= i < |keys| ==> keys[i] in generators
    ensures |Emitted(generators, keys, failing)| + |WriteErrors(keys, failing)| == |keys|
    ensures (forall i :: 0 <= i < |keys| ==> keys[i] !in failing) ==>
              Emitted(generators, keys, failing) == seq(|keys|, i requires 0 <= i < |keys| => generators[keys[i]])
    decreases |keys|
  {
    if keys != [] {
      EveryTargetAttempted(generators, keys[..|keys| - 1], failing);
    }
  }

  /** Unfolds the write loop's specification at a prefix of the map's keys. */
  lemma WritePrefix(generators: map<DeclId, Descriptor>, keys: seq<DeclId>, failing: set<DeclId>, i: nat)
    requires forall j :: 0 <= j < |keys| ==> keys[j] in generators
    requires i < |keys|
    ensures Emitted(generators, keys[..i + 1], failing) ==
      Emitted(generators, keys[..i], failing) + (if keys[i] in failing then [] else [generators[keys[i]]])
    ensures WriteErrors(keys[..i + 1], failing) ==
      WriteErrors(keys[..i], failing) + (if keys[i] in failing then [Error(UnableToWrite, AtDecl(keys[i]))] else [])
  {
    assert keys[..i + 1][..i] == keys[..i];
  }

  /** Regrouping the log's pieces: stated as a lemma, it stays out of the discovery loop's context. */
  lemma AppendAssociative<T>(a: seq<T>, b: seq<T>, c: seq<T>)
    ensures (a + b) + c == a + (b + c)
  {
  }

  /** The round's LinkedHashMap from enclosing declaration to its generator. */
  class TargetClassMap {
    var keys: seq<DeclId>
    var generators: map<DeclId, Descriptor>

    function Contents(): Registry
      reads this
    {
      Registry(keys, generators)
    }

    constructor ()
      ensures Contents() == EmptyRegistry
    {
      keys := [];
      generators := map[];
    }

    /** Inserts a new entry at the end of the iteration order. */
    method Put(d: DeclId, gen: Descriptor)
      requires Contents().Valid() && d !in generators
      modifies this
      ensures Contents().Valid()
      ensures keys == old(keys) + [d] && generators == old(generators)[d := gen]
    {
      keys := keys + [d];
      generators := generators[d := gen];
    }

    /** The generator's `addCodeFragment` on the entry of `d`. */
    method AddCodeFragment(d: DeclId, name: string, typeName: string)
      requires Contents().Valid() && d in generators
      modifies this
      ensures Contents() == AddField(old(Contents()), d, (name, typeName))
    {
      var gen := generators[d];
      generators := generators[d := gen.(fields := gen.fields + [(name, typeName)])];
    }
  }

  class ParcelAnnotationProcessor {
    /** The host's element and type utilities. */
    const g: Graph
    /** Everything reported through the host's message channel, in order. */
    var log: seq<Diagnostic>

    constructor (g: Graph)
      requires WellFormed(g)
      ensures this.g == g && log == []
    {
      this.g := g;
      log := [];
    }

    /** The three accessibility and container checks; every failing one reports an error. */
    method IsInaccessibleViaGeneratedCode(e: Element) returns (hasError: bool)
      requires e.enclosing in g
      modifies this
      ensures log == old(log) + AccessErrors(g, e)
      ensures hasError == (AccessErrors(g, e) != [])
    {
      hasError := false;
      var enclosing := g[e.enclosing];
      if Private in e.modifiers || Static in e.modifiers {
        log := log + [Error(PrivateOrStatic, AtElement(e))];
        hasError := true;
      }
      if enclosing.kind != Class {
        log := log + [Error(NotInClass, AtDecl(e.enclosing))];
        hasError := true;
      }
      if Private in enclosing.modifiers {
        log := log + [Error(InPrivateClass, AtDecl(e.enclosing))];
        hasError := true;
      }
    }

    /** The namespace check; it reports at most one error, for the first prefix matched. */
    method IsBindingInWrongPackage(e: Element) returns (wrong: bool)
      requires e.enclosing in g
      modifies this
      ensures log == old(log) + PackageErrors(g, e)
      ensures wrong == (PackageErrors(g, e) != [])
    {
      var qualifiedName := g[e.enclosing].qualifiedName;
      if ANDROID_PREFIX <= qualifiedName {
        log := log + [Error(InAndroidPackage, AtElement(e))];
        return true;
      }
      if JAVA_PREFIX <= qualifiedName {
        log := log + [Error(InJavaPackage, AtElement(e))];
        return true;
      }
      return false;
    }

    /** Lookup-or-insert of the generator of `d`, noting each creation. */
    method GetOrCreateTargetClass(targets: TargetClassMap, d: DeclId)
      requires WellFormed(g) && d in g && targets.Contents().Valid()
      modifies this, targets
      ensures targets.Contents() == GetOrCreate(g, old(targets.Contents()), d)
      ensures log == old(log) +
        if d in old(targets.generators) then []
        else [Note(TargetCreated(g[d].qualifiedName, g[d].packageName, NewDescriptor(g, d).className))]
    {
      assert DeclWellFormed(g, g[d]);
      var parcelable := IsParcelable(g, DeclType(g, d));
      var suffix := if parcelable then INJECTOR_SUFFIX else DELEGATE_SUFFIX;
      if d !in targets.generators {
        var targetClassName := g[d].qualifiedName;
        var packageName := g[d].packageName;
        var className := ClassNameAsWritten(targetClassName, packageName) + suffix;
        log := log + [Note(TargetCreated(targetClassName, packageName, className))];
        var gen := Descriptor(if parcelable then Injector else Delegate, packageName, className, targetClassName, []);
        targets.Put(d, gen);
      }
    }

    /**
     * Validates one element with both checkers and, when it passes, appends its field
     * to its target's generator. `ok` is false where the original throws.
     */
    method ParseParcelField(e: Element, targets: TargetClassMap) returns (ok: bool)
      requires WellFormed(g) && ElementIn(g, e) && targets.Contents().Valid()
      modifies this, targets
      ensures ok == Accepted(g, e)
      ensures !ok ==> targets.Contents() == old(targets.Contents()) && log == old(log) + ElementErrors(g, e)
      ensures ok ==> targets.Contents() == ParseStep(g, old(targets.Contents()), e).targets
      ensures ok ==> log == old(log) + ParseStep(g, old(targets.Contents()), e).log
    {
      var hasError := false;
      var inaccessible := IsInaccessibleViaGeneratedCode(e);
      hasError := hasError || inaccessible;
      var wrongPackage := IsBindingInWrongPackage(e);
      hasError := hasError || wrongPackage;
      if hasError {
        return false;
      }
      assert AccessErrors(g, e) == [] && PackageErrors(g, e) == [];
      assert log == old(log);
      AddToTarget(e, targets);
      ok := true;
    }

    /** The accepted path of `ParseParcelField`: lookup-or-insert, a note, then the field. */
    method AddToTarget(e: Element, targets: TargetClassMap)
      requires WellFormed(g) && ElementIn(g, e) && Accepted(g, e) && targets.Contents().Valid()
      modifies this, targets
      ensures targets.Contents() == ParseStep(g, old(targets.Contents()), e).targets
      ensures log == old(log) + ParseStep(g, old(targets.Contents()), e).log
    {
      ghost var before := log;
      GetOrCreateTargetClass(targets, e.enclosing);
      ghost var created := log[|before|..];
      var name := e.simpleName;
      var typeName := TypeName(g, ResolveType(e.declaredType));
      log := log + [Note(FieldParsed(name, typeName))];
      targets.AddCodeFragment(e.enclosing, name, typeName);
      assert ParseStep(g, old(targets.Contents()), e).log == created + [Note(FieldParsed(name, typeName))];
      assert old(log) + created + [Note(FieldParsed(name, typeName))] ==
             old(log) + (created + [Note(FieldParsed(name, typeName))]);
    }

    /** One turn of the discovery loop: the field is parsed, and a failure becomes one generic error. */
    method HandleElement(e: Element, targets: TargetClassMap)
      requires WellFormed(g) && ElementIn(g, e) && targets.Contents().Valid()
      modifies this, targets
      ensures targets.Contents() == ParseStep(g, old(targets.Contents()), e).targets
      ensures log == old(log) + ParseStep(g, old(targets.Contents()), e).log
    {
      var ok := ParseParcelField(e, targets);
      if !ok {
        assert old(log) + ElementErrors(g, e) + [Error(UnableToGenerate, AtElement(e))] ==
               old(log) + (ElementErrors(g, e) + [Error(UnableToGenerate, AtElement(e))]);
        log := log + [Error(UnableToGenerate, AtElement(e))];
      }
    }

    /**
     * One round's discovery: every element is handled in order, a rejected one adds a
     * generic error and the loop goes on. The map is new for each call.
     */
    method FindAndParseTargets(es: seq<Element>) returns (targets: TargetClassMap)
      requires WellFormed(g) && AllIn(g, es)
      modifies this
      ensures fresh(targets)
      ensures targets.Contents() == ParseAll(g, EmptyRegistry, es).targets
      ensures log == old(log) + ParseAll(g, EmptyRegistry, es).log
    {
      targets := new TargetClassMap();
      var i := 0;
      ghost var done := Outcome(EmptyRegistry, []);
      assert es[..0] == [];
      while i < |es|
        invariant 0 <= i <= |es|
        invariant fresh(targets)
        invariant AllIn(g, es[..i]) && done == ParseAll(g, EmptyRegistry, es[..i])
        invariant targets.Contents() == done.targets
        invariant log == old(log) + done.log
      {
        var e := es[i];
        ParseAllPrefix(g, EmptyRegistry, es, i);
        ghost var step := ParseStep(g, done.targets, e);
        HandleElement(e, targets);
        AppendAssociative(old(log), done.log, step.log);
        done := Outcome(step.targets, done.log + step.log);
        i := i + 1;
      }
      assert es[..|es|] == es;
    }

    /**
     * A whole round: a start note, discovery, then one write per target in the map's
     * order. `failing` names the targets whose output unit cannot be created or written.
     */
    method Process(es: seq<Element>, failing: set<DeclId>) returns (written: seq<Descriptor>)
      requires WellFormed(g) && AllIn(g, es)
      modifies this
      ensures var round := ParseAll(g, EmptyRegistry, es);
        && written == Emitted(round.targets.generators, round.targets.keys, failing)
        && log == old(log) + [Note(StartProcess)] + round.log + WriteErrors(round.targets.keys, failing)
    {
      log := log + [Note(StartProcess)];
      ghost var started := log;
      var targets := FindAndParseTargets(es);
      written := WriteTargets(targets, failing);
      AppendAssociative(started, ParseAll(g, EmptyRegistry, es).log, WriteErrors(targets.keys, failing));
    }

    /** The write loop: each entry is written in turn; a failure is reported and skipped. */
    method WriteTargets(targets: TargetClassMap, failing: set<DeclId>) returns (written: seq<Descriptor>)
      requires targets.Contents().Valid()
      modifies this
      ensures forall j :: 0 <= j < |targets.keys| ==> targets.keys[j] in targets.generators
      ensures written == Emitted(targets.generators, targets.keys, failing)
      ensures log == old(log) + WriteErrors(targets.keys, failing)
    {
      var keys := targets.keys;
      var generators := targets.generators;
      ghost var errors: seq<Diagnostic> := [];
      written := [];
      var i := 0;
      assert keys[..0] == [];
      while i < |keys|
        invariant 0 <= i <= |keys|
        invariant forall j :: 0 <= j < |keys| ==> keys[j] in generators
        invariant written == Emitted(generators, keys[..i], failing)
        invariant errors == WriteErrors(keys[..i], failing)
        invariant log == old(log) + errors
      {
        var d := keys[i];
        WritePrefix(generators, keys, failing, i);
        if d in failing {
          assert old(log) + errors + [Error(UnableToWrite, AtDecl(d))] ==
                 old(log) + (errors + [Error(UnableToWrite, AtDecl(d))]);
          log := log + [Error(UnableToWrite, AtDecl(d))];
          errors := errors + [Error(UnableToWrite, AtDecl(d))];
        } else {
          written := written + [generators[d]];
        }
        i := i + 1;
      }
      assert keys[..|keys|] == keys;
    }
  }
}
