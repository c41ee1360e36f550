/**
 * Type reflection: the canonical name of a type, the resolution of a field's declared
 * type, and the structural, name-based subtype test used to classify targets.
 */
module TypeReflection {
  import opened Host

  /** The names joined by commas, as the host prints a type-argument list. */
  function Join(parts: seq<string>): string
  {
    if |parts| == 0 then ""
    else if |parts| == 1 then parts[0]
    else parts[0] + "," + Join(parts[1..])
  }

  /** The canonical name of a type, what the host's `toString()` gives. */
  function TypeName(g: Graph, t: Type): string
    requires TypeIn(g, t)
    decreases t
  {
    match t
    case Declared(d, args) =>
      g[d].qualifiedName +
      (if args == [] then ""
       else "<" + Join(seq(|args|, i requires 0 <= i < |args| => TypeName(g, args[i]))) + ">")
    case TypeVar(name, _) => name
    case Primitive(keyword) => keyword
    case ArrayOf(c) => TypeName(g, c) + "[]"
    case NoType => "none"
  }

  /** The type recorded for an element: a type variable is replaced by its upper bound. */
  function ResolveType(t: Type): (r: Type)
    ensures t.TypeVar? ==> r == t.upperBound
    ensures !t.TypeVar? ==> r == t
    ensures forall g :: TypeIn(g, t) ==> TypeIn(g, r)
  {
    if t.TypeVar? then t.upperBound else t
  }

  /** `n` question marks separated by commas. */
  function Placeholders(n: nat): (r: string)
    ensures n == 0 ==> r == []
    ensures n > 0 ==> |r| == 2 * n - 1
  {
    if n == 0 then [] else Placeholders(n - 1) + (if n > 1 then "," else "") + "?"
  }

  /** The placeholders alternate: `?` at even positions, `,` at odd ones. */
  lemma {:induction false} PlaceholdersAlternate(n: nat)
    ensures forall i :: 0 <= i < |Placeholders(n)| ==> Placeholders(n)[i] == (if i % 2 == 0 then '?' else ',')
  {
    if n > 0 {
      PlaceholdersAlternate(n - 1);
    }
  }

  /** The raw name followed by one `?` per type argument, as in `java.util.Map<?,?>`. */
  function WildcardName(raw: string, n: nat): string
  {
    raw + "<" + Placeholders(n) + ">"
  }

  /** Builds the wildcard form with the character-by-character loop of the processor. */
  method BuildWildcardName(raw: string, n: nat) returns (s: string)
    ensures s == WildcardName(raw, n)
    ensures |s| == |raw| + 2 * n + (if n == 0 then 2 else 1)
    ensures s[..|raw| + 1] == raw + "<" && s[|s| - 1] == '>'
  {
    s := raw + "<";
    var i := 0;
    while i < n
      invariant 0 <= i <= n
      invariant s == raw + "<" + Placeholders(i)
    {
      if i > 0 {
        s := s + ",";
      }
      s := s + "?";
      i := i + 1;
    }
    s := s + ">";
  }

  /** The termination measure of the supertype walk. */
  function TypeRank(g: Graph, t: Type): nat
  {
    if t.Declared? && t.decl in g then g[t.decl].rank + 1 else 0
  }

  /** The two tests made on a type before its supertypes are tried. */
  predicate MatchesName(g: Graph, t: Type, other: string)
    requires TypeIn(g, t)
  {
    || other == TypeName(g, t)
    || (t.Declared? && |t.args| > 0 && WildcardName(g[t.decl].qualifiedName, |t.args|) == other)
  }

  /**
   * Whether `t` is, by name, a subtype of the type named `other`: an exact name match,
   * a wildcard-generic match, or (for a declared type) a match of its superclass and
   * then of each interface in order, depth first.
   */
  function IsSubtypeOfType(g: Graph, t: Type, other: string): (r: bool)
    requires WellFormed(g) && TypeIn(g, t)
    ensures other == TypeName(g, t) ==> r
    ensures !t.Declared? ==> (r <==> other == TypeName(g, t))
    decreases TypeRank(g, t), 1, 0
  {
    // the exact test, the non-declared exit and the wildcard test, in that order
    if MatchesName(g, t, other) then true
    else if !t.Declared? then false
    else
      var decl := g[t.decl];
      assert DeclWellFormed(g, decl);
      IsSubtypeOfType(g, decl.superclass, other) ||
      AnySubtypeOfType(g, decl.interfaces, other, decl.rank + 1)
  }

  /** The loop over interfaces: the first one that passes decides. */
  function AnySubtypeOfType(g: Graph, ts: seq<Type>, other: string, bound: nat): (r: bool)
    requires WellFormed(g)
    requires forall i :: 0 <= i < |ts| ==> TypeIn(g, ts[i]) && TypeRank(g, ts[i]) < bound
    ensures r ==> |ts| > 0
    ensures |ts| > 0 && IsSubtypeOfType(g, ts[0], other) ==> r
    decreases bound, 0, |ts|
  {
    |ts| > 0 && (IsSubtypeOfType(g, ts[0], other) || AnySubtypeOfType(g, ts[1..], other, bound))
  }

  /** Some type of the list passes the test, wherever it stands. */
  predicate SomePasses(g: Graph, ts: seq<Type>, other: string)
    requires WellFormed(g) && forall i :: 0 <= i < |ts| ==> TypeIn(g, ts[i])
  {
    exists i :: 0 <= i < |ts| && IsSubtypeOfType(g, ts[i], other)
  }

  /** The first-match loop over interfaces passes iff some interface passes. */
  lemma {:induction false} AnySubtypeOfTypeExists(g: Graph, ts: seq<Type>, other: string, bound: nat)
    requires WellFormed(g)
    requires forall i :: 0 <= i < |ts| ==> TypeIn(g, ts[i]) && TypeRank(g, ts[i]) < bound
    ensures AnySubtypeOfType(g, ts, other, bound) <==> SomePasses(g, ts, other)
    decreases |ts|
  {
    if |ts| > 0 {
      AnySubtypeOfTypeExists(g, ts[1..], other, bound);
      if exists j :: 0 <= j < |ts| - 1 && IsSubtypeOfType(g, ts[1..][j], other) {
        var j :| 0 <= j < |ts| - 1 && IsSubtypeOfType(g, ts[1..][j], other);
        assert IsSubtypeOfType(g, ts[j + 1], other);
      }
      if exists i :: 0 <= i < |ts| && IsSubtypeOfType(g, ts[i], other) {
        var i :| 0 <= i < |ts| && IsSubtypeOfType(g, ts[i], other);
        if i > 0 {
          assert IsSubtypeOfType(g, ts[1..][i - 1], other);
        }
      }
    }
  }

  /**
   * The test fails exactly when the type's own names do not match and, for a declared
   * type, neither its superclass nor any of its interfaces passes.
   */
  lemma SubtypeCharacterization(g: Graph, t: Type, other: string)
    requires WellFormed(g) && TypeIn(g, t)
    ensures t.Declared? ==> DeclWellFormed(g, g[t.decl])
    ensures IsSubtypeOfType(g, t, other) <==>
      || MatchesName(g, t, other)
      || (t.Declared? &&
          (|| IsSubtypeOfType(g, g[t.decl].superclass, other)
           || SomePasses(g, g[t.decl].interfaces, other)))
  {
    if t.Declared? {
      DeclaredCharacterization(g, t, other);
    } else {
      assert MatchesName(g, t, other) <==> other == TypeName(g, t);
    }
  }

  lemma DeclaredCharacterization(g: Graph, t: Type, other: string)
    requires WellFormed(g) && TypeIn(g, t) && t.Declared?
    ensures DeclWellFormed(g, g[t.decl])
    ensures IsSubtypeOfType(g, t, other) <==>
      || MatchesName(g, t, other)
      || IsSubtypeOfType(g, g[t.decl].superclass, other)
      || SomePasses(g, g[t.decl].interfaces, other)
  {
    var decl := g[t.decl];
    SubtypeUnfold(g, t, other);
    AnySubtypeOfTypeExists(g, decl.interfaces, other, decl.rank + 1);
  }

  /** One unfolding of the test on a declared type. */
  lemma SubtypeUnfold(g: Graph, t: Type, other: string)
    requires WellFormed(g) && TypeIn(g, t) && t.Declared?
    ensures DeclWellFormed(g, g[t.decl])
    ensures IsSubtypeOfType(g, t, other) <==>
      || MatchesName(g, t, other)
      || IsSubtypeOfType(g, g[t.decl].superclass, other)
      || AnySubtypeOfType(g, g[t.decl].interfaces, other, g[t.decl].rank + 1)
  {
    assert DeclWellFormed(g, g[t.decl]);
  }

  /** `s` is the superclass or one of the interfaces of the declaration of `t`. */
  predicate DirectSupertype(g: Graph, t: Type, s: Type)
  {
    t.Declared? && t.decl in g && (s == g[t.decl].superclass || s in g[t.decl].interfaces)
  }

  /** Upward closure: a type passes whenever one of its direct supertypes passes. */
  lemma DirectSupertypeClosure(g: Graph, t: Type, s: Type, other: string)
    requires WellFormed(g) && TypeIn(g, t) && DirectSupertype(g, t, s)
    ensures TypeIn(g, s)
    ensures IsSubtypeOfType(g, s, other) ==> IsSubtypeOfType(g, t, other)
  {
    var decl := g[t.decl];
    assert DeclWellFormed(g, decl);
    if s != decl.superclass {
      var i :| 0 <= i < |decl.interfaces| && decl.interfaces[i] == s;
      SubtypeCharacterization(g, t, other);
    }
  }

  /** A path up the hierarchy: each type is a direct supertype of the one before. */
  predicate IsAncestry(g: Graph, chain: seq<Type>)
  {
    && |chain| > 0
    && (forall i :: 0 <= i < |chain| ==> TypeIn(g, chain[i]))
    && forall i :: 0 < i < |chain| ==> DirectSupertype(g, chain[i - 1], chain[i])
  }

  /** Transitivity along the hierarchy: whatever an ancestor passes, its descendant passes. */
  lemma {:induction false} AncestryClosure(g: Graph, chain: seq<Type>, other: string)
    requires WellFormed(g) && IsAncestry(g, chain)
    requires IsSubtypeOfType(g, chain[|chain| - 1], other)
    ensures IsSubtypeOfType(g, chain[0], other)
    decreases |chain|
  {
    if |chain| > 1 {
      var rest := chain[1..];
      assert forall i :: 0 < i < |rest| ==> rest[i - 1] == chain[i] && rest[i] == chain[i + 1];
      assert IsAncestry(g, rest);
      AncestryClosure(g, rest, other);
      DirectSupertypeClosure(g, chain[0], chain[1], other);
    }
  }

  /** When the names do not match, some direct supertype passes in the type's place. */
  lemma PassingSupertype(g: Graph, t: Type, other: string) returns (s: Type)
    requires WellFormed(g) && TypeIn(g, t) && IsSubtypeOfType(g, t, other) && !MatchesName(g, t, other)
    ensures DirectSupertype(g, t, s) && TypeIn(g, s) && TypeRank(g, s) < TypeRank(g, t)
    ensures IsSubtypeOfType(g, s, other)
  {
    var decl := g[t.decl];
    assert DeclWellFormed(g, decl);
    SubtypeCharacterization(g, t, other);
    if IsSubtypeOfType(g, decl.superclass, other) {
      s := decl.superclass;
    } else {
      var i :| 0 <= i < |decl.interfaces| && IsSubtypeOfType(g, decl.interfaces[i], other);
      s := decl.interfaces[i];
    }
  }

  /**
   * Soundness of the test with respect to the hierarchy: when it passes, some ancestor
   * of the type (possibly the type itself) matches the name exactly or in wildcard form.
   */
  lemma {:induction false} SubtypeWitness(g: Graph, t: Type, other: string) returns (chain: seq<Type>)
    requires WellFormed(g) && TypeIn(g, t) && IsSubtypeOfType(g, t, other)
    ensures IsAncestry(g, chain) && chain[0] == t
    ensures MatchesName(g, chain[|chain| - 1], other)
    decreases TypeRank(g, t)
  {
    if MatchesName(g, t, other) {
      chain := [t];
    } else {
      var s := PassingSupertype(g, t, other);
      var up := SubtypeWitness(g, s, other);
      chain := [t] + up;
      assert forall i :: 0 < i < |chain| ==> chain[i] == up[i - 1];
    }
  }

  /** A declared type with at least one type argument passes against its wildcard form. */
  lemma WildcardFormMatches(g: Graph, t: Type)
    requires WellFormed(g) && TypeIn(g, t) && t.Declared? && |t.args| > 0
    ensures IsSubtypeOfType(g, t, WildcardName(g[t.decl].qualifiedName, |t.args|))
  {
  }
}
