/**
  Concrete documents from the repository's unit tests, with the result the
  model gives for each.
 */
module Scenarios {
  import opened Options
  import opened Tokens
  import opened NameMatching
  import Engine
  import Masker
  import JContainerExtensions

  /** A student as `JObject.FromObject` lays it out: the class's properties in declaration order. */
  function Student(name: string, address: string, age: int, password: Scalar): Token {
    Obj([
      Member("Name", Leaf(Str(name))),
      Member("Address", Leaf(Str(address))),
      Member("Age", Leaf(Num(age))),
      Member("Password", Leaf(password))
    ])
  }

  /** The teacher document of MaskerUtilityUnitTests.cs lines 125-188, around a given list of students. */
  function Teacher(password: Scalar, students: Token): Token {
    Obj([
      Member("Name", Leaf(Str("Skinner"))),
      Member("Address", Leaf(Str("123 Street Rd."))),
      Member("Age", Leaf(Num(55))),
      Member("Password", Leaf(password)),
      Member("Students", students)
    ])
  }

  /** The test's two students; the second has a null password. */
  function Students(password: Scalar, secondPassword: Scalar): Token {
    Arr([Student("Bob", "555 Town Blvd.", 7, password), Student("Sue", "434 Rebel Yell Rd.", 8, secondPassword)])
  }

  /** None of the names other than `Password` in these documents is on the list. */
  predicate OnlyPasswordListed(names: seq<string>, cfg: Engine.Config) {
    && !ShouldBeMasked("Name", names, cfg.comparison)
    && !ShouldBeMasked("Address", names, cfg.comparison)
    && !ShouldBeMasked("Age", names, cfg.comparison)
  }

  /** A `Password` value after masking: the mask when the list matches `Password`, else unchanged. */
  function PasswordAfter(password: Scalar, names: seq<string>, cfg: Engine.Config): Scalar {
    if ShouldBeMasked("Password", names, cfg.comparison) then Engine.MaskedScalar(cfg.mask) else password
  }

  /** How a student object is masked, given which of its three names the list matches. */
  lemma MaskStudent(name: string, address: string, age: int, password: Scalar, names: seq<string>, cfg: Engine.Config)
    requires OnlyPasswordListed(names, cfg)
    ensures Engine.Mask(Student(name, address, age, password), names, cfg)
         == Student(name, address, age, PasswordAfter(password, names, cfg))
  {
    var members := Student(name, address, age, password).members;
    var r := Engine.MaskObject(members, names, cfg);
    assert r[0] == members[0] && r[1] == members[1] && r[2] == members[2];
  }

  /** How the two students are masked. */
  lemma MaskStudents(password: Scalar, secondPassword: Scalar, names: seq<string>, cfg: Engine.Config)
    requires OnlyPasswordListed(names, cfg)
    ensures Engine.Mask(Students(password, secondPassword), names, cfg)
         == Students(PasswordAfter(password, names, cfg), PasswordAfter(secondPassword, names, cfg))
  {
    MaskStudent("Bob", "555 Town Blvd.", 7, password, names, cfg);
    MaskStudent("Sue", "434 Rebel Yell Rd.", 8, secondPassword, names, cfg);
    var items := Engine.MaskArray(Students(password, secondPassword).items, names, cfg);
    assert items == Students(PasswordAfter(password, names, cfg), PasswordAfter(secondPassword, names, cfg)).items;
  }

  /** How the teacher object is masked around any container of students. */
  lemma MaskTeacher(password: Scalar, students: Token, names: seq<string>, cfg: Engine.Config)
    requires OnlyPasswordListed(names, cfg)
    requires IsContainer(students)
    ensures Engine.Mask(Teacher(password, students), names, cfg)
         == Teacher(PasswordAfter(password, names, cfg), Engine.Mask(students, names, cfg))
  {
    var members := Teacher(password, students).members;
    var r := Engine.MaskObject(members, names, cfg);
    assert r[0] == members[0];
    assert r[1] == members[1];
    assert r[2] == members[2];
    assert r == Teacher(PasswordAfter(password, names, cfg), Engine.Mask(students, names, cfg)).members;
  }

  /**
    With the default case-insensitive comparison, `Password` at the top level
    and inside both students is masked, including the null one; every other
    value is kept.
   */
  lemma NestedPasswordsMaskedByDefault()
    ensures JContainerExtensions.MaskValues(Some(Teacher(Str("badPassword"), Students(Str("badPassword"), Null))), Some(["password"]))
         == Some(Teacher(Str("***"), Students(Str("***"), Str("***"))))
  {
    var cfg := Engine.Config(JContainerExtensions.DefaultComparison(JContainerExtensions.Target), Some(Masker.DefaultMask));
    assert Fold("Password") == Fold("password");
    assert ShouldBeMasked("Password", ["password"], cfg.comparison);
    MaskStudents(Str("badPassword"), Null, ["password"], cfg);
    MaskTeacher(Str("badPassword"), Students(Str("badPassword"), Null), ["password"], cfg);
    JContainerExtensions.MaskValuesIsEngine(Teacher(Str("badPassword"), Students(Str("badPassword"), Null)), Some(["password"]), cfg.comparison, cfg.mask);
  }

  /**
    `Masker.cs` matches names exactly, so the same document with the list
    `password` comes back unchanged, although MaskerUnitTests.cs lines 90-153
    expect the `Password` values masked.
   */
  lemma ExactMatchLeavesPascalCaseNames()
    ensures Masker.Mask(Teacher(Str("badPassword"), Students(Str("badPassword"), Null)), ["password"])
         == Teacher(Str("badPassword"), Students(Str("badPassword"), Null))
  {
    assert !ShouldBeMasked("Password", ["password"], Masker.ExactMatch);
    MaskStudents(Str("badPassword"), Null, ["password"], Masker.Defaults);
    MaskTeacher(Str("badPassword"), Students(Str("badPassword"), Null), ["password"], Masker.Defaults);
  }

  /** MaskerUtilityUnitTests.cs lines 398-411: an explicit case-sensitive comparison leaves `Password` alone. */
  lemma CaseSensitiveComparisonKeepsValue()
    ensures JContainerExtensions.MaskValues(Some(Prop("Password", Leaf(Str("badpassword123")))), Some(["password"]), InvariantCulture)
         == Some(Prop("Password", Leaf(Str("badpassword123"))))
  {
    assert "Password" != "password";
  }

  /**
    The `planets` array of MaskerUtilityUnitTests.cs lines 305-313: a
    property given several values holds them as an array. The last element
    is an object with a `PASSWORD` member.
   */
  function Planets(password: Scalar): Token {
    Arr([
      Arr([Leaf(Bool(true))]),
      Leaf(Str("Mars")),
      Leaf(Str("Venus")),
      Leaf(Str("Rectus 9")),
      Obj([Member("temperature", Leaf(Str("mild"))), Member("PASSWORD", Leaf(password))])
    ])
  }

  /** The array of MaskerUtilityUnitTests.cs lines 296-314, around a given `password` value and `planets` array. */
  function MixedArray(password: Scalar, planets: Token): Token {
    Arr([
      Leaf(Str("password")),
      Leaf(Num(654645)),
      Leaf(Str("good times")),
      Obj([
        Member("read less", Leaf(Num(444))),
        Member("password", Leaf(password)),
        Member("meanderings", Obj([Member("planets", planets)]))
      ])
    ])
  }

  /** Under the default comparison, `PASSWORD` deep inside `planets` is masked and nothing else there is. */
  lemma MaskPlanets(password: Scalar, cfg: Engine.Config)
    requires cfg == Engine.Config(JContainerExtensions.DefaultComparison(JContainerExtensions.Target), Some(Masker.DefaultMask))
    ensures Engine.Mask(Planets(password), ["password"], cfg) == Planets(Str("***"))
  {
    assert Fold("PASSWORD") == Fold("password");
    assert ShouldBeMasked("PASSWORD", ["password"], cfg.comparison);
    assert |Fold("temperature")| != |Fold("password")|;
    assert !ShouldBeMasked("temperature", ["password"], cfg.comparison);
    var inner := [Member("temperature", Leaf(Str("mild"))), Member("PASSWORD", Leaf(password))];
    var masked := Engine.MaskObject(inner, ["password"], cfg);
    assert masked == [Member("temperature", Leaf(Str("mild"))), Member("PASSWORD", Leaf(Str("***")))];
    var items := Planets(password).items;
    var r := Engine.MaskArray(items, ["password"], cfg);
    assert Engine.MaskArray(items[0].items, ["password"], cfg)[0] == items[0].items[0];
    assert r[0] == items[0];
    assert r[1] == items[1] && r[2] == items[2] && r[3] == items[3];
    assert r[4] == Obj(masked);
    assert r == Planets(Str("***")).items;
  }

  /**
    The array around any `planets` container: the bare scalars are kept, the
    object's `password` is masked and `planets` is searched in place.
   */
  lemma MaskMixedArray(password: Scalar, planets: Token, cfg: Engine.Config)
    requires IsContainer(planets)
    requires ShouldBeMasked("password", ["password"], cfg.comparison)
    requires !ShouldBeMasked("read less", ["password"], cfg.comparison)
    requires !ShouldBeMasked("meanderings", ["password"], cfg.comparison)
    requires !ShouldBeMasked("planets", ["password"], cfg.comparison)
    ensures Engine.Mask(MixedArray(password, planets), ["password"], cfg)
         == MixedArray(Engine.MaskedScalar(cfg.mask), Engine.Mask(planets, ["password"], cfg))
  {
    var meanderings := [Member("planets", planets)];
    var inner := Engine.MaskObject(meanderings, ["password"], cfg);
    assert inner == [Member("planets", Engine.Mask(planets, ["password"], cfg))];
    var members := MixedArray(password, planets).items[3].members;
    var r := Engine.MaskObject(members, ["password"], cfg);
    assert r[0] == members[0];
    assert r[2] == Member("meanderings", Obj(inner));
    var expected := MixedArray(Engine.MaskedScalar(cfg.mask), Engine.Mask(planets, ["password"], cfg));
    assert r == expected.items[3].members;
    var arr := MixedArray(password, planets).items;
    var masked := Engine.MaskArray(arr, ["password"], cfg);
    assert masked[0] == arr[0] && masked[1] == arr[1] && masked[2] == arr[2];
    assert masked == expected.items;
  }

  /**
    MaskerUtilityUnitTests.cs lines 293-322: bare scalars in an array are
    kept, even the string `password`; the objects in the array are searched
    at every depth, so the numeric `password` and the nested `PASSWORD`
    become the string mask.
   */
  lemma ArrayScalarsAreNeverMasked()
    ensures JContainerExtensions.MaskValues(Some(MixedArray(Num(78789798), Planets(Str("GREAT-PASSWORD!!")))), Some(["password"]))
         == Some(MixedArray(Str("***"), Planets(Str("***"))))
  {
    var cfg := Engine.Config(JContainerExtensions.DefaultComparison(JContainerExtensions.Target), Some(Masker.DefaultMask));
    var names := ["password"];
    assert ShouldBeMasked("password", names, cfg.comparison);
    assert |Fold("read less")| != |Fold("password")|;
    assert !ShouldBeMasked("read less", names, cfg.comparison);
    assert |Fold("meanderings")| != |Fold("password")|;
    assert !ShouldBeMasked("meanderings", names, cfg.comparison);
    assert |Fold("planets")| != |Fold("password")|;
    assert !ShouldBeMasked("planets", names, cfg.comparison);
    MaskPlanets(Str("GREAT-PASSWORD!!"), cfg);
    MaskMixedArray(Num(78789798), Planets(Str("GREAT-PASSWORD!!")), cfg);
    JContainerExtensions.MaskValuesIsEngine(MixedArray(Num(78789798), Planets(Str("GREAT-PASSWORD!!"))), Some(names), cfg.comparison, cfg.mask);
  }

  /** MaskerUtilityUnitTests.cs lines 325-346: empty containers come back empty and of the same kind. */
  lemma EmptyContainersStayEmpty(names: seq<string>)
    ensures JContainerExtensions.MaskValues(Some(Arr([])), Some(names)) == Some(Arr([]))
    ensures JContainerExtensions.MaskValues(Some(Obj([])), Some(names)) == Some(Obj([]))
  {
  }
}
