/**
 * Names of the generated companion classes: the target's qualified name relative to
 * its package, with every `.` flattened to `$`, followed by a strategy suffix.
 */
module Naming {

  /** Every `.` replaced by `$`, every other character kept. */
  function FlattenDots(s: string): (r: string)
    ensures |r| == |s| && '.' !in r
    ensures forall i :: 0 <= i < |s| && s[i] != '.' ==> r[i] == s[i]
    ensures forall i :: 0 <= i < |s| && s[i] == '.' ==> r[i] == '$'
  {
    seq(|s|, i requires 0 <= i < |s| => if s[i] == '.' then '$' else s[i])
  }

  /** Every `$` replaced by `.`: undoes `FlattenDots` on names without `$`. */
  function RestoreDots(s: string): (r: string)
    ensures |r| == |s| && '$' !in r
  {
    seq(|s|, i requires 0 <= i < |s| => if s[i] == '$' then '.' else s[i])
  }

  /**
   * The class name exactly as the processor computes it: drop `|packageName| + 1`
   * characters, then flatten. For the unnamed package this drops the first letter
   * of the class name.
   */
  function ClassNameAsWritten(qualifiedName: string, packageName: string): (r: string)
    requires |packageName| + 1 <= |qualifiedName|
    ensures |r| == |qualifiedName| - |packageName| - 1 && '.' !in r
    ensures forall i :: 0 <= i < |r| ==>
              r[i] == (if qualifiedName[|packageName| + 1 + i] == '.' then '$'
                       else qualifiedName[|packageName| + 1 + i])
  {
    FlattenDots(qualifiedName[|packageName| + 1..])
  }

  /** The finding: a class `User` in the unnamed package is named `ser`. */
  lemma DefaultPackageDropsFirstLetter()
    ensures ClassNameAsWritten("User", "") == "ser"
    ensures ClassNameAsWritten("User", "") != ClassName("User", "")
  {
    assert ClassName("User", "") == FlattenDots("User");
    assert ClassName("User", "")[0] == 'U';
  }

  /** The name relative to the package: the package and its `.` are removed when present. */
  function RelativeName(qualifiedName: string, packageName: string): string
    requires packageName == [] || packageName + "." <= qualifiedName
  {
    if packageName == [] then qualifiedName else qualifiedName[|packageName| + 1..]
  }

  /**
   * The class name the processor evidently intends: the relative name, flattened.
   * It agrees with `ClassNameAsWritten` in every named package.
   */
  function ClassName(qualifiedName: string, packageName: string): (r: string)
    requires packageName == [] || packageName + "." <= qualifiedName
    ensures '.' !in r
    ensures |r| == |qualifiedName| - (if packageName == [] then 0 else |packageName| + 1)
    ensures packageName != [] ==> r == ClassNameAsWritten(qualifiedName, packageName)
  {
    FlattenDots(RelativeName(qualifiedName, packageName))
  }

  /**
   * Round trip: when the qualified name has no `$`, the package, a `.` and the class
   * name with its `$` turned back into `.` give the qualified name again.
   */
  lemma ClassNameRoundTrip(qualifiedName: string, packageName: string)
    requires packageName == [] || packageName + "." <= qualifiedName
    requires '$' !in qualifiedName
    ensures (if packageName == [] then "" else packageName + ".")
            + RestoreDots(ClassName(qualifiedName, packageName)) == qualifiedName
  {
    var rel := RelativeName(qualifiedName, packageName);
    var back := RestoreDots(ClassName(qualifiedName, packageName));
    assert forall i :: 0 <= i < |rel| ==> rel[i] != '$';
    assert back == rel;
    if packageName != [] {
      assert qualifiedName == qualifiedName[..|packageName| + 1] + rel;
    }
  }

  /** A name without `.` is left as it is. */
  lemma FlattenDotsKeepsPlainName(s: string)
    requires '.' !in s
    ensures FlattenDots(s) == s
  {
  }

  /** A top-level class: `com.example.User` in `com.example` is named `User`. */
  lemma ClassNameExample()
    ensures ClassName("com.example.User", "com.example") == "User"
  {
    var qn := "com.example.User";
    assert "com.example" + "." <= qn;
    assert qn[12..] == "User";
    FlattenDotsKeepsPlainName("User");
  }

  /** A nested class: `com.example.Outer.Inner` is flattened to `Outer$Inner`. */
  lemma NestedClassNameExample()
    ensures ClassName("com.example.Outer.Inner", "com.example") == "Outer$Inner"
  {
    var qn := "com.example.Outer.Inner";
    assert "com.example" + "." <= qn;
    var rel := qn[12..];
    assert rel == "Outer.Inner";
    var r := FlattenDots(rel);
    assert r == "Outer$Inner" by {
      assert |r| == 11;
      assert forall i :: 0 <= i < 11 ==> r[i] == "Outer$Inner"[i];
    }
  }
}
