/**
 * The part of the compiler host that the annotation processor reads: an explicit,
 * acyclic declaration graph standing in for the host's element and type model,
 * the annotated field elements of one round, and the diagnostics the processor
 * reports back through the host's message channel.
 */
module Host {

  /** Identity of a type declaration; elements are grouped by this, never by name. */
  type DeclId = nat

  datatype Modifier = Public | Protected | Private | Static | Final | Abstract | Transient | Volatile

  /** The kind of a type declaration; only `Class` is accepted as a container. */
  datatype ElementKind = Class | Interface | Enum | AnnotationType

  /** A type as the host presents it. */
  datatype Type =
    | Declared(decl: DeclId, args: seq<Type>)   // a class or interface type with its type arguments
    | TypeVar(name: string, upperBound: Type)   // a type variable and its (first) upper bound
    | Primitive(keyword: string)                // int, long, boolean, ...
    | ArrayOf(component: Type)
    | NoType                                    // the superclass of java.lang.Object and of interfaces

  /**
   * A type declaration. `typeParameters` are the arguments of the declaration's own
   * type (what the host returns as its type); `rank` is a topological rank of the
   * supertype graph: every declared supertype has a strictly smaller rank. It plays
   * no part in any answer and only witnesses that the hierarchy is acyclic.
   */
  datatype Decl = Decl(
    qualifiedName: string,
    packageName: string,
    kind: ElementKind,
    modifiers: set<Modifier>,
    typeParameters: seq<Type>,
    superclass: Type,
    interfaces: seq<Type>,
    rank: nat)

  type Graph = map<DeclId, Decl>

  /** Every declaration a type mentions exists in the graph. */
  predicate TypeIn(g: Graph, t: Type)
    decreases t
  {
    match t
    case Declared(d, args) => d in g && forall i :: 0 <= i < |args| ==> TypeIn(g, args[i])
    case TypeVar(_, bound) => TypeIn(g, bound)
    case ArrayOf(c) => TypeIn(g, c)
    case Primitive(_) => true
    case NoType => true
  }

  /** A supertype reference of a declaration of rank `rank` points strictly down the ranking. */
  predicate RankedBelow(g: Graph, t: Type, rank: nat)
  {
    t.Declared? ==> t.decl in g && g[t.decl].rank < rank
  }

  predicate DeclWellFormed(g: Graph, decl: Decl)
  {
    && |decl.qualifiedName| > 0
    && (decl.packageName == [] || decl.packageName + "." <= decl.qualifiedName)
    && (forall i :: 0 <= i < |decl.typeParameters| ==> TypeIn(g, decl.typeParameters[i]))
    && TypeIn(g, decl.superclass) && RankedBelow(g, decl.superclass, decl.rank)
    && forall i :: 0 <= i < |decl.interfaces| ==>
         TypeIn(g, decl.interfaces[i]) && RankedBelow(g, decl.interfaces[i], decl.rank)
  }

  /**
   * What the host guarantees of its type model: every reference resolves, a qualified
   * name extends its package name, and the supertype relation is acyclic.
   */
  predicate WellFormed(g: Graph)
  {
    forall d {:trigger DeclWellFormed(g, g[d])} :: d in g ==> DeclWellFormed(g, g[d])
  }

  /** The type of a declaration itself, parameterised by its own type parameters. */
  function DeclType(g: Graph, d: DeclId): (t: Type)
    requires WellFormed(g) && d in g
    ensures TypeIn(g, t) && t.Declared? && t.decl == d
  {
    assert DeclWellFormed(g, g[d]);
    Declared(d, g[d].typeParameters)
  }

  /** A field carrying the marker annotation. */
  datatype Element = Element(
    simpleName: string,
    declaredType: Type,
    enclosing: DeclId,
    modifiers: set<Modifier>)

  predicate ElementIn(g: Graph, e: Element)
  {
    e.enclosing in g && TypeIn(g, e.declaredType)
  }

  /** Where a diagnostic is attributed. */
  datatype Anchor = AtElement(element: Element) | AtDecl(decl: DeclId)

  datatype ErrorKind =
    | PrivateOrStatic     // the field is private or static
    | NotInClass          // the enclosing declaration is not a class
    | InPrivateClass      // the enclosing class is private
    | InAndroidPackage    // the enclosing class is in the Android framework namespace
    | InJavaPackage       // the enclosing class is in the Java standard namespace
    | UnableToGenerate    // an element's processing was abandoned
    | UnableToWrite       // a generated unit could not be written

  datatype NoteKind =
    | StartProcess
    | TargetCreated(targetClassName: string, packageName: string, className: string)
    | FieldParsed(name: string, typeName: string)

  /** A diagnostic as an abstract tagged entry; message texts are not modelled. */
  datatype Diagnostic = Error(error: ErrorKind, anchor: Anchor) | Note(note: NoteKind)
}
