# ParcelKit annotation processor, modelled in Dafny

This project models the `@ParcelField` annotation processor of ParcelKit
(`ParcelAnnotationProcessor`). It covers how the processor handles each compilation round:

1. It discovers the annotated fields of the round.
2. It validates each field against the accessibility, container and namespace rules.
   Every failing rule is reported, and both checkers always run.
3. It groups the accepted fields by their enclosing class in an insertion-ordered target map.
4. It classifies each enclosing class:
   - a class that is, by name, a subtype of `android.os.Parcelable` gets the Injector strategy;
   - every other class gets the Delegate strategy.
5. It names the generated companion class. It drops the package name and one more character,
   flattens `.` to `$`, and appends `$$ParcelInjector` or `$$ParcelDelegate`. In a named package
   this is the class name relative to its package. In the unnamed package it also drops the
   class name's first letter, and the model keeps that behaviour (see "## Findings").
6. It writes one unit per target. A failed write is reported and the loop continues.

The compiler host's type model is replaced by an explicit, acyclic declaration graph (`Host`).
Each declaration has:
- a qualified name and a package name;
- a kind and a set of modifiers;
- its own type arguments;
- a superclass and an ordered list of interfaces;
- a rank. Every supertype has a strictly lower rank, which is what makes the supertype walk terminate.

Types are declared types with arguments, type variables with an upper bound, primitives,
arrays, and "none". `TypeName` stands for the host's `toString()`. Diagnostics are abstract
tagged entries appended to the processor's `log`, which stands for the host's message channel.

Modules, one file each:

| module | content |
|---|---|
| `Host` (`host.dfy`) | the declaration graph, field elements and diagnostics |
| `TypeReflection` (`reflection.dfy`) | type names, type-variable resolution, the wildcard string loop, and the recursive subtype test with its characterisation, upward closure and soundness |
| `Naming` (`naming.dfy`) | generated class names, as written and corrected |
| `Validation` (`validation.dfy`) | the rejection rules |
| `Targets` (`targets.dfy`) | value-level specification of the target registry, the per-field step and the round's fold, with the lemmas about the fold |
| `Processor` (`processor.dfy`) | the processor object and the round's target map as classes whose methods update state in place; each method is proved against the `Targets` specification |
| `Scenarios` (`scenarios.dfy`) | a concrete ten-declaration graph and the processor's behaviour on it |

## Model

| member | source | states |
|---|---|---|
| TypeReflection.ResolveType | parcelProcessor/src/main/java/kirisame/android/toolset/parcel/ParcelAnnotationProcessor.java:151-160 | a type variable is replaced by its upper bound; every other type is returned unchanged; the result stays inside the graph |
| TypeReflection.Placeholders | parcelProcessor/src/main/java/kirisame/android/toolset/parcel/ParcelAnnotationProcessor.java:263-268 | no placeholders for no arguments; n >= 1 placeholders take 2n-1 characters |
| TypeReflection.PlaceholdersAlternate | parcelProcessor/src/main/java/kirisame/android/toolset/parcel/ParcelAnnotationProcessor.java:263-268 | the placeholders alternate: `?` at even positions and `,` at odd ones |
| TypeReflection.BuildWildcardName | parcelProcessor/src/main/java/kirisame/android/toolset/parcel/ParcelAnnotationProcessor.java:261-269 | the StringBuilder loop yields raw name + `<` + n comma-separated `?` + `>`; this fixes its length, its prefix and its closing `>` |
| TypeReflection.IsSubtypeOfType | parcelProcessor/src/main/java/kirisame/android/toolset/parcel/ParcelAnnotationProcessor.java:251-289 | an exact canonical-name match always passes (reflexivity); a type that is not declared passes iff its name matches exactly |
| TypeReflection.AnySubtypeOfType | parcelProcessor/src/main/java/kirisame/android/toolset/parcel/ParcelAnnotationProcessor.java:283-288 | the interface loop: an empty list fails, and a first interface that passes makes the loop pass |
| TypeReflection.AnySubtypeOfTypeExists | parcelProcessor/src/main/java/kirisame/android/toolset/parcel/ParcelAnnotationProcessor.java:283-288 | the interface loop passes iff some listed interface passes |
| TypeReflection.SubtypeCharacterization | parcelProcessor/src/main/java/kirisame/android/toolset/parcel/ParcelAnnotationProcessor.java:251-289 | the test passes iff there is an exact or wildcard name match, or (for a declared type) the superclass or some interface passes; it fails only when none of these hold |
| TypeReflection.DeclaredCharacterization | parcelProcessor/src/main/java/kirisame/android/toolset/parcel/ParcelAnnotationProcessor.java:258-288 | for a declared type: the test passes iff a name matches, the superclass passes, or some listed interface passes |
| TypeReflection.DirectSupertypeClosure | parcelProcessor/src/main/java/kirisame/android/toolset/parcel/ParcelAnnotationProcessor.java:278-287 | whenever the superclass or any listed interface passes, the type passes |
| TypeReflection.AncestryClosure | parcelProcessor/src/main/java/kirisame/android/toolset/parcel/ParcelAnnotationProcessor.java:274-288 | whatever any ancestor along a supertype path passes, the type at its start passes |
| TypeReflection.PassingSupertype | parcelProcessor/src/main/java/kirisame/android/toolset/parcel/ParcelAnnotationProcessor.java:278-288 | when a passing type matches neither name, some direct supertype of strictly lower rank passes in its place |
| TypeReflection.SubtypeWitness | parcelProcessor/src/main/java/kirisame/android/toolset/parcel/ParcelAnnotationProcessor.java:251-289 | soundness: when the test passes, there is a supertype path from the type to an ancestor (possibly itself) whose name matches exactly or in wildcard form |
| TypeReflection.WildcardFormMatches | parcelProcessor/src/main/java/kirisame/android/toolset/parcel/ParcelAnnotationProcessor.java:259-273 | a declared type with n >= 1 arguments passes against its raw name with n `?` placeholders |
| Naming.FlattenDots | parcelProcessor/src/main/java/kirisame/android/toolset/parcel/ParcelAnnotationProcessor.java:308 | every `.` becomes `$`, every other character is kept, the length is unchanged, and no `.` remains |
| Naming.ClassNameAsWritten | parcelProcessor/src/main/java/kirisame/android/toolset/parcel/ParcelAnnotationProcessor.java:306-309 | the computation as written: the result is the qualified name after its first package length + 1 characters, with each `.` turned into `$` and every other character kept; its length is the qualified name's minus package length + 1, and no `.` remains |
| Naming.DefaultPackageDropsFirstLetter | parcelProcessor/src/main/java/kirisame/android/toolset/parcel/ParcelAnnotationProcessor.java:306-309 | in the unnamed package, `User` is named `ser`, which differs from the intended name |
| Naming.ClassName | parcelProcessor/src/main/java/kirisame/android/toolset/parcel/ParcelAnnotationProcessor.java:306-309 | the relative name flattened: no `.`, the length is the qualified name's minus the package prefix, and it agrees with the as-written computation in every named package |
| Naming.ClassNameRoundTrip | parcelProcessor/src/main/java/kirisame/android/toolset/parcel/ParcelAnnotationProcessor.java:302-309 | package + `.` + the class name with `$` turned back into `.` gives the qualified name again (for names without `$`) |
| Naming.ClassNameExample | parcelProcessor/src/main/java/kirisame/android/toolset/parcel/ParcelAnnotationProcessor.java:172-174 | `com.example.User` in `com.example` gives `User` |
| Naming.NestedClassNameExample | parcelProcessor/src/main/java/kirisame/android/toolset/parcel/ParcelAnnotationProcessor.java:306-309 | the nested `com.example.Outer.Inner` gives `Outer$Inner` |
| Validation.AccessErrors | parcelProcessor/src/main/java/kirisame/android/toolset/parcel/ParcelAnnotationProcessor.java:196-227 | each of the three errors is reported iff its rule fails (private or static field, container not a class, private container), at most once, from those three only |
| Validation.PackageErrors | parcelProcessor/src/main/java/kirisame/android/toolset/parcel/ParcelAnnotationProcessor.java:230-247 | at most one error; none iff the container's name starts with neither `android.` nor `java.` |
| Validation.ElementErrors | parcelProcessor/src/main/java/kirisame/android/toolset/parcel/ParcelAnnotationProcessor.java:121-131 | both checkers' errors together; empty iff none of the five rejection conditions holds |
| Validation.PrivateFieldRejected | parcelProcessor/src/main/java/kirisame/android/toolset/parcel/ParcelAnnotationProcessor.java:203-208 | a private field is rejected with the private-or-static error, whatever its container |
| Validation.JavaxNotReserved | parcelProcessor/src/main/java/kirisame/android/toolset/parcel/ParcelAnnotationProcessor.java:235-246 | a container under `javax.` raises no namespace error |
| Validation.ReservedNamespaceRejected | parcelProcessor/src/main/java/kirisame/android/toolset/parcel/ParcelAnnotationProcessor.java:230-247 | a container under a reserved prefix is rejected with exactly one namespace error, naming the first prefix that matches |
| Targets.IsParcelable | parcelProcessor/src/main/java/kirisame/android/toolset/parcel/ParcelAnnotationProcessor.java:190-192 | a type named `android.os.Parcelable` is parcelable; a type that is not declared is parcelable iff that is its name |
| Targets.Suffix | parcelProcessor/src/main/java/kirisame/android/toolset/parcel/ParcelAnnotationProcessor.java:167-168 | the Injector kind gets `$$ParcelInjector` and only it, the Delegate kind gets `$$ParcelDelegate` and only it; both are 16 characters starting with `$$Parcel`, with no `.` |
| Targets.NewDescriptor | parcelProcessor/src/main/java/kirisame/android/toolset/parcel/ParcelAnnotationProcessor.java:167-180 | the kind is Injector iff the declaration's type passes the test against `android.os.Parcelable`; the package and target name are the declaration's; the class name is the as-written name of line 174 plus the kind's suffix, which in every named package is the flattened relative name plus the suffix, and it has no `.`; there are no fields yet |
| Targets.GetOrCreate | parcelProcessor/src/main/java/kirisame/android/toolset/parcel/ParcelAnnotationProcessor.java:163-184 | lookup-or-insert: a present key leaves the map unchanged; a missing one is appended last with a fresh descriptor; the map stays a valid insertion-ordered map |
| Targets.GetOrCreateIdempotent | parcelProcessor/src/main/java/kirisame/android/toolset/parcel/ParcelAnnotationProcessor.java:170-183 | a second lookup-or-insert changes nothing; at most one key is added; existing entries are untouched |
| Targets.AddField | parcelProcessor/src/main/java/kirisame/android/toolset/parcel/ParcelAnnotationProcessor.java:147 | the pair goes at the end of its target's fields; keys and every other entry are unchanged |
| Targets.FieldEntry | parcelProcessor/src/main/java/kirisame/android/toolset/parcel/ParcelAnnotationProcessor.java:142-147 | the recorded pair is the field's simple name and the type name, where a type variable is recorded as its upper bound and any other type as itself |
| Targets.ParseStep | parcelProcessor/src/main/java/kirisame/android/toolset/parcel/ParcelAnnotationProcessor.java:104-149 | a rejected field leaves the map unchanged and logs its violations plus one generic error; an accepted one is lookup-or-insert followed by appending its (name, resolved type name) pair |
| Targets.ParseAll | parcelProcessor/src/main/java/kirisame/android/toolset/parcel/ParcelAnnotationProcessor.java:101-116 | the round's fold keeps the map a valid insertion-ordered map |
| Targets.OnlyAcceptedMatter | parcelProcessor/src/main/java/kirisame/android/toolset/parcel/ParcelAnnotationProcessor.java:104-113 | rejected fields leave no trace: the round's map equals the fold over the accepted fields only |
| Targets.RoundRegistry | parcelProcessor/src/main/java/kirisame/android/toolset/parcel/ParcelAnnotationProcessor.java:101-116 | starting from an empty map: keys are the targets in first-seen order; a target is present iff it received a field; each descriptor is the fresh one for its target, holding its fields in discovery order with duplicates kept |
| Targets.FirstFieldCreatesTarget | parcelProcessor/src/main/java/kirisame/android/toolset/parcel/ParcelAnnotationProcessor.java:163-184 | the first accepted field of a round creates its target's entry, which holds exactly that field |
| Targets.TwoFieldsOneTarget | parcelProcessor/src/main/java/kirisame/android/toolset/parcel/ParcelAnnotationProcessor.java:101-116 | two accepted fields of one class give one entry: the fresh descriptor holding both fields in discovery order |
| Targets.GenericErrorsCountRejected | parcelProcessor/src/main/java/kirisame/android/toolset/parcel/ParcelAnnotationProcessor.java:104-113 | the round logs exactly one generic error per rejected field |
| Targets.InjectorViaAncestor | parcelProcessor/src/main/java/kirisame/android/toolset/parcel/ParcelAnnotationProcessor.java:167-180 | a target with an ancestor named `android.os.Parcelable` gets the Injector kind, and its class name is the as-written name plus the `$$ParcelInjector` suffix |
| Targets.InjectorHasAncestor | parcelProcessor/src/main/java/kirisame/android/toolset/parcel/ParcelAnnotationProcessor.java:167-180 | conversely, every Injector target has a supertype path to such an ancestor |
| Processor.EveryTargetAttempted | parcelProcessor/src/main/java/kirisame/android/toolset/parcel/ParcelAnnotationProcessor.java:82-96 | every target is attempted exactly once: written plus reported equals the number of targets; with no failures every descriptor is written, in the map's order |
| Processor.TargetClassMap.constructor | parcelProcessor/src/main/java/kirisame/android/toolset/parcel/ParcelAnnotationProcessor.java:102 | each round starts from an empty map |
| Processor.TargetClassMap.Put | parcelProcessor/src/main/java/kirisame/android/toolset/parcel/ParcelAnnotationProcessor.java:181 | a new key goes last in the iteration order |
| Processor.TargetClassMap.AddCodeFragment | parcelProcessor/src/main/java/kirisame/android/toolset/parcel/ParcelAnnotationProcessor.java:147 | updates in place exactly as `Targets.AddField` |
| Processor.ParcelAnnotationProcessor.constructor | parcelProcessor/src/main/java/kirisame/android/toolset/parcel/ParcelAnnotationProcessor.java:60-66 | binds the host's type model; nothing has been reported yet |
| Processor.ParcelAnnotationProcessor.IsInaccessibleViaGeneratedCode | parcelProcessor/src/main/java/kirisame/android/toolset/parcel/ParcelAnnotationProcessor.java:196-227 | the three checks append exactly `AccessErrors`, and the flag is set iff any was reported |
| Processor.ParcelAnnotationProcessor.IsBindingInWrongPackage | parcelProcessor/src/main/java/kirisame/android/toolset/parcel/ParcelAnnotationProcessor.java:230-247 | appends exactly `PackageErrors`, and returns true iff one was reported |
| Processor.ParcelAnnotationProcessor.GetOrCreateTargetClass | parcelProcessor/src/main/java/kirisame/android/toolset/parcel/ParcelAnnotationProcessor.java:163-184 | the map becomes `GetOrCreate` of the old map, so a new entry carries `NewDescriptor`'s as-written class name; a creation note with the target, package and class name is logged iff the target was missing |
| Processor.ParcelAnnotationProcessor.ParseParcelField | parcelProcessor/src/main/java/kirisame/android/toolset/parcel/ParcelAnnotationProcessor.java:118-149 | both checkers run; it succeeds iff the field is accepted; on failure the map is unchanged and exactly the violations are logged; on success it performs `ParseStep` |
| Processor.ParcelAnnotationProcessor.AddToTarget | parcelProcessor/src/main/java/kirisame/android/toolset/parcel/ParcelAnnotationProcessor.java:137-147 | the accepted path: the map becomes that of `ParseStep`, and the creation and field notes are logged as `ParseStep` logs them |
| Processor.ParcelAnnotationProcessor.HandleElement | parcelProcessor/src/main/java/kirisame/android/toolset/parcel/ParcelAnnotationProcessor.java:105-112 | one turn of the discovery loop, exception handler included, is exactly `ParseStep` on the map and the log |
| Processor.ParcelAnnotationProcessor.FindAndParseTargets | parcelProcessor/src/main/java/kirisame/android/toolset/parcel/ParcelAnnotationProcessor.java:101-116 | a fresh map whose contents and log are those of the round's fold `ParseAll`, so every lemma about the fold holds of it |
| Processor.ParcelAnnotationProcessor.Process | parcelProcessor/src/main/java/kirisame/android/toolset/parcel/ParcelAnnotationProcessor.java:76-99 | start note, then discovery, then the write loop; the written descriptors are those of the non-failing targets in the map's order, and each failing target logs one write error |
| Processor.ParcelAnnotationProcessor.WriteTargets | parcelProcessor/src/main/java/kirisame/android/toolset/parcel/ParcelAnnotationProcessor.java:82-96 | every entry is attempted in the map's order: written when its target is not failing, otherwise one write error is logged |
| Scenarios.DirectImplementationIsInjector | parcelProcessor/src/main/java/kirisame/android/toolset/parcel/ParcelAnnotationProcessor.java:190-192 | a class implementing `android.os.Parcelable` directly gets the Injector kind |
| Scenarios.SuperclassImplementationIsInjector | parcelProcessor/src/main/java/kirisame/android/toolset/parcel/ParcelAnnotationProcessor.java:279-282 | a class whose superclass implements it gets the Injector kind |
| Scenarios.InterfaceOfInterfaceIsInjector | parcelProcessor/src/main/java/kirisame/android/toolset/parcel/ParcelAnnotationProcessor.java:283-287 | a class implementing an interface that extends it gets the Injector kind |
| Scenarios.ObjectNotParcelable | parcelProcessor/src/main/java/kirisame/android/toolset/parcel/ParcelAnnotationProcessor.java:252-257 | `java.lang.Object`, whose superclass is none, does not pass |
| Scenarios.UserNotParcelable | parcelProcessor/src/main/java/kirisame/android/toolset/parcel/ParcelAnnotationProcessor.java:251-289 | `com.example.User`, which only extends `java.lang.Object`, does not pass |
| Scenarios.PlainClassIsDelegate | parcelProcessor/src/main/java/kirisame/android/toolset/parcel/ParcelAnnotationProcessor.java:167-174 | `com.example.User` gets the Delegate kind and the name `User$$ParcelDelegate` |
| Scenarios.TypeVariableRecordedAsBound | parcelProcessor/src/main/java/kirisame/android/toolset/parcel/ParcelAnnotationProcessor.java:142-160 | a field typed `T extends java.lang.Number` is recorded with type `java.lang.Number` |
| Scenarios.UserFieldsAccepted | parcelProcessor/src/main/java/kirisame/android/toolset/parcel/ParcelAnnotationProcessor.java:196-247 | package-visible fields of a public class in `com.example` pass every rule and are recorded by name and type name |
| Scenarios.UserRound | parcelProcessor/src/main/java/kirisame/android/toolset/parcel/ParcelAnnotationProcessor.java:101-116 | the round over `name: String` and `age: int` of `User` yields one Delegate descriptor `User$$ParcelDelegate` holding both fields in order |

## Left out

- File emission in `process` (creating the source file, opening, writing and closing it) is I/O. The model takes a parameter `failing`, the set of targets whose write raises an `IOException`. It records which descriptors are written, in order, and one error for each failure. The generated source text is not modelled.
- `CodeGenerator`, `InjectorGenerator`, `DelegateGenerator`, `getClassFullNames` and `generateJavaSource` are not part of this model. A generator is the abstract `Descriptor` record, and `addCodeFragment` appends to its field list.
- The host's element and type utilities (`Elements`, `Types`, `getPackageOf`) are foreign calls. The explicit declaration graph replaces them, and the package name is stored on each declaration.
- The graph is closed: every declared type names a declaration in it. So the branch at line 275, for a declared type whose element is not a type element, cannot occur in the model.
- The casts of the enclosing element to `TypeElement` (lines 123, 199, 232) are not modelled. An element's container is always a declaration of the graph, so the `ClassCastException` they could raise is absent. The only exception modelled inside `parseParcelField` is the one it throws itself after a validation failure.
- Message texts, `String.format`, the stack-trace text and the hash code in the creation note are not modelled. Diagnostics are tagged entries that keep their kind and the element or declaration they are attributed to.
- `TypeReflection.TypeName` approximates the host's `toString()`:
  - type arguments are joined by `,` without spaces;
  - a type variable has a single upper bound;
  - wildcard, intersection and error types are absent.
- `init`, `getSupportedAnnotationTypes`, the processor annotations and the constant `true` that `process` returns are host lifecycle and carry no logic.
- `isPrimitiveType` (lines 186-188) is never called.
- The type of the enclosing element computed at line 124 is never used, so it is not modelled.
- Targets.ParseAll: its own contract states only that the map stays valid. What the round builds is stated separately by `Targets.RoundRegistry`, `Targets.OnlyAcceptedMatter` and `Targets.GenericErrorsCountRejected`.

## Findings

| source | as written | input that shows it | evidently intended | confidence | as-written member | corrected member |
|---|---|---|---|---|---|---|
| parcelProcessor/src/main/java/kirisame/android/toolset/parcel/ParcelAnnotationProcessor.java:306-309 | the generated name skips `packageName.length() + 1` characters even when the package name is empty | a class `User` in the unnamed package: the package name is `""`, so one character is skipped and the generated class is `ser$$ParcelDelegate` | skip the package and its `.` only when there is a package, giving `User$$ParcelDelegate` | high, not executed | Naming.DefaultPackageDropsFirstLetter | Naming.ClassNameRoundTrip |

The processor model keeps the computation as written: `Targets.NewDescriptor` and
`Processor.ParcelAnnotationProcessor.GetOrCreateTargetClass` build the generated name with
`Naming.ClassNameAsWritten`, as line 174 does. `Naming.ClassName` is the intended name.
`NewDescriptor` proves that its name equals the intended name plus the suffix in every named package.
