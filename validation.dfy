/**
 * The accessibility and placement rules applied to one annotated field. Every rule is
 * evaluated; each failing accessibility or container rule reports its own error, and
 * the namespace rule reports at most one.
 */
module Validation {
  import opened Host

  const ANDROID_PREFIX: string := "android."
  const JAVA_PREFIX: string := "java."

  /** The errors of the accessibility and container rules, in the order they are checked. */
  function AccessErrors(g: Graph, e: Element): (errs: seq<Diagnostic>)
    requires e.enclosing in g
    ensures |errs| <= 3
    ensures Error(PrivateOrStatic, AtElement(e)) in errs <==>
            (Private in e.modifiers || Static in e.modifiers)
    ensures Error(NotInClass, AtDecl(e.enclosing)) in errs <==> g[e.enclosing].kind != Class
    ensures Error(InPrivateClass, AtDecl(e.enclosing)) in errs <==> Private in g[e.enclosing].modifiers
    ensures forall i :: 0 <= i < |errs| ==>
              errs[i] in [Error(PrivateOrStatic, AtElement(e)), Error(NotInClass, AtDecl(e.enclosing)),
                          Error(InPrivateClass, AtDecl(e.enclosing))]
    ensures forall i, j :: 0 <= i < j < |errs| ==> errs[i] != errs[j]
  {
    var container := g[e.enclosing];
    (if Private in e.modifiers || Static in e.modifiers then [Error(PrivateOrStatic, AtElement(e))] else [])
    + (if container.kind != Class then [Error(NotInClass, AtDecl(e.enclosing))] else [])
    + (if Private in container.modifiers then [Error(InPrivateClass, AtDecl(e.enclosing))] else [])
  }

  /** The error of the namespace rule: the first reserved prefix that matches, if any. */
  function PackageErrors(g: Graph, e: Element): (errs: seq<Diagnostic>)
    requires e.enclosing in g
    ensures |errs| <= 1
    ensures errs == [] <==>
            !(ANDROID_PREFIX <= g[e.enclosing].qualifiedName || JAVA_PREFIX <= g[e.enclosing].qualifiedName)
    ensures forall i :: 0 <= i < |errs| ==>
              errs[i] in [Error(InAndroidPackage, AtElement(e)), Error(InJavaPackage, AtElement(e))]
  {
    var name := g[e.enclosing].qualifiedName;
    if ANDROID_PREFIX <= name then [Error(InAndroidPackage, AtElement(e))]
    else if JAVA_PREFIX <= name then [Error(InJavaPackage, AtElement(e))]
    else []
  }

  /** Every violation of one element, in the order both checkers report them. */
  function ElementErrors(g: Graph, e: Element): (errs: seq<Diagnostic>)
    requires e.enclosing in g
    ensures errs == [] <==>
      !(|| Private in e.modifiers || Static in e.modifiers
        || g[e.enclosing].kind != Class
        || Private in g[e.enclosing].modifiers
        || ANDROID_PREFIX <= g[e.enclosing].qualifiedName
        || JAVA_PREFIX <= g[e.enclosing].qualifiedName)
  {
    AccessErrors(g, e) + PackageErrors(g, e)
  }

  predicate Accepted(g: Graph, e: Element)
    requires e.enclosing in g
  {
    ElementErrors(g, e) == []
  }

  /** A private field is rejected whatever its enclosing declaration looks like. */
  lemma PrivateFieldRejected(g: Graph, e: Element)
    requires e.enclosing in g && Private in e.modifiers
    ensures !Accepted(g, e)
    ensures Error(PrivateOrStatic, AtElement(e)) in ElementErrors(g, e)
  {
    assert Error(PrivateOrStatic, AtElement(e)) in AccessErrors(g, e);
  }

  /** `javax.` is not a reserved namespace: only the two exact prefixes are. */
  lemma JavaxNotReserved(g: Graph, e: Element)
    requires e.enclosing in g && "javax." <= g[e.enclosing].qualifiedName
    ensures PackageErrors(g, e) == []
  {
    var name := g[e.enclosing].qualifiedName;
    assert name[4] == 'x';
    assert name[0] == 'j';
  }

  /**
   * A field in a reserved namespace is rejected with one namespace error naming the
   * first prefix that matches.
   */
  lemma ReservedNamespaceRejected(g: Graph, e: Element)
    requires e.enclosing in g
    requires ANDROID_PREFIX <= g[e.enclosing].qualifiedName || JAVA_PREFIX <= g[e.enclosing].qualifiedName
    ensures !Accepted(g, e)
    ensures PackageErrors(g, e) ==
      [if ANDROID_PREFIX <= g[e.enclosing].qualifiedName then Error(InAndroidPackage, AtElement(e))
       else Error(InJavaPackage, AtElement(e))]
  {
  }
}
