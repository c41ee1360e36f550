/**
 * A small concrete declaration graph and the processor's behaviour on it: the generated name and field list of a plain class, and the choice
 * of strategy for a class implementing `android.os.Parcelable` directly, through a
 * superclass, and through an interface of an interface.
 */
module Scenarios {
  import opened Host
  import opened TypeReflection
  import opened Naming
  import opened Validation
  import opened Targets

  const Object: DeclId := 0
  const Parcelable: DeclId := 1
  const StringDecl: DeclId := 2
  const User: DeclId := 3
  const ParcelClass: DeclId := 4
  const Base: DeclId := 5
  const Derived: DeclId := 6
  const Marker: DeclId := 7
  const Item: DeclId := 8
  const NumberDecl: DeclId := 9

  function Plain(qualifiedName: string, packageName: string, superclass: Type, interfaces: seq<Type>, rank: nat): Decl
  {
    Decl(qualifiedName, packageName, Class, {Public}, [], superclass, interfaces, rank)
  }

  function DeclOf(d: DeclId): Decl
  {
    if d == Object then Plain("java.lang.Object", "java.lang", NoType, [], 0)
    else if d == Parcelable then Decl("android.os.Parcelable", "android.os", Interface, {Public}, [], NoType, [], 0)
    else if d == StringDecl then Plain("java.lang.String", "java.lang", Declared(Object, []), [], 1)
    else if d == User then Plain("com.example.User", "com.example", Declared(Object, []), [], 1)
    else if d == ParcelClass then
      Plain("com.example.Parcel", "com.example", Declared(Object, []), [Declared(Parcelable, [])], 1)
    else if d == Base then Plain("com.example.Base", "com.example", Declared(Object, []), [Declared(Parcelable, [])], 1)
    else if d == Derived then Plain("com.example.Derived", "com.example", Declared(Base, []), [], 2)
    else if d == Marker then
      Decl("com.example.Marker", "com.example", Interface, {Public}, [], NoType, [Declared(Parcelable, [])], 1)
    else if d == Item then Plain("com.example.Item", "com.example", Declared(Object, []), [Declared(Marker, [])], 2)
    else Plain("java.lang.Number", "java.lang", Declared(Object, []), [], 1)
  }

  function Example(): Graph
  {
    map d | 0 <= d < 10 :: DeclOf(d)
  }

  /** The declarations every graph reference resolves to. */
  lemma ExampleAt(d: DeclId)
    requires d < 10
    ensures d in Example() && Example()[d] == DeclOf(d)
    ensures Object in Example() && Parcelable in Example() && Base in Example() && Marker in Example()
  {
  }

  lemma PlatformDeclWellFormed(d: DeclId)
    requires d == Object || d == Parcelable || d == StringDecl || d == NumberDecl
    ensures DeclWellFormed(Example(), Example()[d])
  {
    ExampleAt(d);
    if d == Parcelable {
      assert "android.os" + "." <= DeclOf(d).qualifiedName;
    } else {
      assert "java.lang" + "." <= DeclOf(d).qualifiedName;
    }
  }

  lemma ApplicationDeclWellFormed(d: DeclId)
    requires User <= d <= Item
    ensures DeclWellFormed(Example(), Example()[d])
  {
    ExampleAt(d);
    assert "com.example" + "." <= DeclOf(d).qualifiedName;
  }

  lemma DeclWellFormedAt(d: DeclId)
    requires d < 10
    ensures DeclWellFormed(Example(), Example()[d])
  {
    if User <= d <= Item {
      ApplicationDeclWellFormed(d);
    } else {
      PlatformDeclWellFormed(d);
    }
  }

  lemma ExampleWellFormed()
    ensures WellFormed(Example())
  {
    forall d | d in Example() ensures DeclWellFormed(Example(), Example()[d]) {
      DeclWellFormedAt(d);
    }
  }

  /** A class implementing the interface directly gets the Injector strategy. */
  lemma DirectImplementationIsInjector()
    ensures WellFormed(Example())
    ensures NewDescriptor(Example(), ParcelClass).kind == Injector
  {
    ExampleWellFormed();
    var g := Example();
    assert g[ParcelClass] == DeclOf(ParcelClass) && g[Parcelable] == DeclOf(Parcelable);
    var chain := [DeclType(g, ParcelClass), Declared(Parcelable, [])];
    assert DirectSupertype(g, chain[0], chain[1]);
    InjectorViaAncestor(g, ParcelClass, chain);
  }

  /** A class whose superclass implements the interface gets the Injector strategy. */
  lemma SuperclassImplementationIsInjector()
    ensures WellFormed(Example())
    ensures NewDescriptor(Example(), Derived).kind == Injector
  {
    ExampleWellFormed();
    var g := Example();
    assert g[Derived] == DeclOf(Derived) && g[Base] == DeclOf(Base) && g[Parcelable] == DeclOf(Parcelable);
    var chain := [DeclType(g, Derived), Declared(Base, []), Declared(Parcelable, [])];
    assert DirectSupertype(g, chain[0], chain[1]) && DirectSupertype(g, chain[1], chain[2]);
    InjectorViaAncestor(g, Derived, chain);
  }

  /** A class implementing an interface that extends the interface gets the Injector strategy. */
  lemma InterfaceOfInterfaceIsInjector()
    ensures WellFormed(Example())
    ensures NewDescriptor(Example(), Item).kind == Injector
  {
    ExampleWellFormed();
    var g := Example();
    assert g[Item] == DeclOf(Item) && g[Marker] == DeclOf(Marker) && g[Parcelable] == DeclOf(Parcelable);
    var chain := [DeclType(g, Item), Declared(Marker, []), Declared(Parcelable, [])];
    assert DirectSupertype(g, chain[0], chain[1]) && DirectSupertype(g, chain[1], chain[2]);
    InjectorViaAncestor(g, Item, chain);
  }

  /** `java.lang.Object` is not a Parcelable: nothing above it matches. */
  lemma ObjectNotParcelable()
    ensures WellFormed(Example())
    ensures !IsParcelable(Example(), Declared(Object, []))
  {
    ExampleWellFormed();
    var g := Example();
    assert g[Object] == DeclOf(Object);
    assert !IsSubtypeOfType(g, NoType, PARCEL_TYPE);
    assert !AnySubtypeOfType(g, [], PARCEL_TYPE, 1);
    assert TypeName(g, Declared(Object, [])) == "java.lang.Object";
  }

  /** `com.example.User`, which only extends `java.lang.Object`, is not a Parcelable. */
  lemma UserNotParcelable()
    ensures WellFormed(Example()) && User in Example()
    ensures !IsParcelable(Example(), DeclType(Example(), User))
  {
    ObjectNotParcelable();
    var g := Example();
    assert g[User] == DeclOf(User);
    assert !AnySubtypeOfType(g, [], PARCEL_TYPE, 2);
    assert TypeName(g, DeclType(g, User)) == "com.example.User";
  }

  /** A class with no such ancestor gets the Delegate strategy and the delegate suffix. */
  lemma PlainClassIsDelegate()
    ensures WellFormed(Example())
    ensures NewDescriptor(Example(), User).kind == Delegate
    ensures NewDescriptor(Example(), User).className == "User$$ParcelDelegate"
  {
    assert "User" + DELEGATE_SUFFIX == "User$$ParcelDelegate";
    UserNotParcelable();
    ClassNameExample();
    var g := Example();
    assert g[User] == DeclOf(User);
    var r := NewDescriptor(g, User);
    assert r.kind == Delegate;
    assert r.className == ClassName("com.example.User", "com.example") + DELEGATE_SUFFIX;
  }

  /** A field typed by a variable bounded by `java.lang.Number` is recorded as a Number. */
  lemma TypeVariableRecordedAsBound()
    ensures WellFormed(Example())
    ensures var e := Element("value", TypeVar("T", Declared(NumberDecl, [])), User, {});
      ElementIn(Example(), e) && FieldEntry(Example(), e) == ("value", "java.lang.Number")
  {
    ExampleWellFormed();
    var g := Example();
    assert g[NumberDecl] == DeclOf(NumberDecl);
    assert TypeIn(g, Declared(NumberDecl, []));
    assert TypeName(g, Declared(NumberDecl, [])) == "java.lang.Number";
  }

  const NameField: Element := Element("name", Declared(StringDecl, []), User, {})
  const AgeField: Element := Element("age", Primitive("int"), User, {})

  lemma UserFieldsAccepted()
    ensures WellFormed(Example())
    ensures ElementIn(Example(), NameField) && Accepted(Example(), NameField)
    ensures ElementIn(Example(), AgeField) && Accepted(Example(), AgeField)
    ensures FieldEntry(Example(), NameField) == ("name", "java.lang.String")
    ensures FieldEntry(Example(), AgeField) == ("age", "int")
  {
    ExampleWellFormed();
    var g := Example();
    assert g[User] == DeclOf(User) && g[StringDecl] == DeclOf(StringDecl);
    assert TypeName(g, Declared(StringDecl, [])) == "java.lang.String";
    assert ANDROID_PREFIX[0] != "com.example.User"[0] && JAVA_PREFIX[0] != "com.example.User"[0];
  }

  lemma UserDescriptor(fields: seq<(string, string)>)
    ensures WellFormed(Example()) && User in Example()
    ensures NewDescriptor(Example(), User).(fields := fields) ==
              Descriptor(Delegate, "com.example", "User$$ParcelDelegate", "com.example.User", fields)
  {
    PlainClassIsDelegate();
    assert Example()[User] == DeclOf(User);
  }

  /** The map the round over `name` and `age` builds. */
  const UserTargets: Registry :=
    Registry([User], map[User := Descriptor(Delegate, "com.example", "User$$ParcelDelegate",
      "com.example.User", [("name", "java.lang.String"), ("age", "int")])])

  /**
   * Two accepted fields `name: String` and `age: int` of `com.example.User` give one
   * Delegate descriptor named `User$$ParcelDelegate` holding both fields in order.
   */
  lemma UserRound(name: Element, age: Element)
    requires name == NameField && age == AgeField
    ensures WellFormed(Example()) && AllIn(Example(), [name, age])
    ensures ParseAll(Example(), EmptyRegistry, [name, age]).targets == UserTargets
  {
    UserFieldsAccepted();
    TwoFieldsOneTarget(Example(), name, age);
    UserDescriptor([("name", "java.lang.String"), ("age", "int")]);
  }
}
