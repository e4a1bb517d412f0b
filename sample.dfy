/**
  The sample schema `bases` (src/m3.ts:123-226) and the selections the
  engine is meant for, resolved and validated against it.
 */
module Sample {
  import opened Schema
  import opened Targets
  import opened Shapes
  import opened Selection
  import opened ShapeLaws
  import opened SelectionLaws
  import opened Expressions
  import Wrappers
  import Query

  function UserFields(): Object
  {
    map[
      "name" := PropertyDesc(Str, One),
      "email" := PropertyDesc(Str, One),
      "age" := PropertyDesc(Num, One),
      "friends" := LinkDesc([["User"]], Many),
      "preferences" := LinkDesc([["Preferences"], ["LegacyPreferences"]], AtMostOne)
    ]
  }

  function LegacyPreferencesFields(): Object
  {
    map[
      "name" := PropertyDesc(Str, One),
      "value" := PropertyDesc(Str, One),
      "saveOnClose" := PropertyDesc(Str, AtMostOne)
    ]
  }

  function PreferencesFields(): Object
  {
    map[
      "name" := PropertyDesc(Str, One),
      "emailNotifications" := PropertyDesc(Str, One),
      "saveOnClose" := PropertyDesc(Str, AtMostOne)
    ]
  }

  /** `bases`: `User` links to itself through `friends`, and to either kind of preferences. */
  function Bases(): (a: Arena)
    ensures a.Keys == {"User", "LegacyPreferences", "Preferences"}
  {
    map[
      "User" := UserFields(),
      "LegacyPreferences" := LegacyPreferencesFields(),
      "Preferences" := PreferencesFields()
    ]
  }

  /** The target of `User.preferences`. */
  const PreferenceTarget: Target := [["Preferences"], ["LegacyPreferences"]]

  /** Every link of a schema names objects of the schema. */
  ghost predicate Closed(arena: Arena)
  {
    forall n, k, i, j :: n in arena && k in arena[n] && arena[n][k].LinkDesc?
      && 0 <= i < |arena[n][k].target| && 0 <= j < |arena[n][k].target[i]|
      ==> arena[n][k].target[i][j] in arena
  }

  lemma BasesClosed()
    ensures Closed(Bases())
  {
  }

  /** Every field name of `bases` is declared alike wherever it occurs. */
  lemma BasesFieldsUniform(n: ObjName, k: FieldName)
    requires n in Bases() && k in Bases()[n]
    ensures Bases()[n][k] == (UserFields() + LegacyPreferencesFields() + PreferencesFields())[k]
  {
  }

  lemma BasesHaveNoCardinalityClash()
    ensures NoCardinalityClash(Bases())
  {
    forall a, b, k | a in Bases() && b in Bases() && k in Bases()[a] && k in Bases()[b]
      ensures Bases()[a][k] == Bases()[b][k]
    {
      BasesFieldsUniform(a, k);
      BasesFieldsUniform(b, k);
    }
  }

  /** The two kinds of preferences have only `name` and `saveOnClose` in common, both strings. */
  lemma PreferenceView()
    ensures ViewKeys(Bases(), PreferenceTarget) == {"name", "saveOnClose"}
    ensures FieldAt(Bases(), PreferenceTarget, "name") == PropView(TScalar(Str))
    ensures FieldAt(Bases(), PreferenceTarget, "saveOnClose") == PropView(TScalar(Str))
  {
    var t := PreferenceTarget;
    assert t[1..] == [["LegacyPreferences"]];
    OneMemberClause(Bases(), "Preferences");
    OneMemberClause(Bases(), "LegacyPreferences");
    assert ViewKeys(Bases(), t) == ClauseFields(Bases(), ["Preferences"]).Keys * ViewKeys(Bases(), t[1..]);
    OneMemberField(Bases(), "LegacyPreferences", "name");
    OneMemberField(Bases(), "LegacyPreferences", "saveOnClose");
  }

  /** Each field of `User`, seen through the target `[[User]]`. */
  lemma UserView(k: FieldName)
    requires k in UserFields()
    ensures k in ViewKeys(Bases(), [["User"]])
    ensures FieldAt(Bases(), [["User"]], k) == ViewOf(Agreed(UserFields()[k]))
  {
    OneMemberField(Bases(), "User", k);
  }

  lemma UserKeys()
    ensures ViewKeys(Bases(), [["User"]]) == UserFields().Keys
  {
    OneMemberClause(Bases(), "User");
  }

  // The selection of src/m3.ts:270-292, from the innermost level out.

  const InnerPreferencesSpec: map<FieldName, Arg> := map["name" := ATrue]
  const InnerFriendsSpec: map<FieldName, Arg> := map["age" := ATrue]

  function FriendsOfFriendsSpec(): map<FieldName, Arg>
  {
    map[
      "zzz" := AsDirective(Len(PropParam("name", Str, One))),
      "zzz2" := AsDirective(Literal(NumV(42))),
      "preferences" := ASpec(InnerPreferencesSpec),
      "friends" := ASpec(InnerFriendsSpec)
    ]
  }

  function FriendsSpec(): map<FieldName, Arg>
  {
    map["name" := ATrue, "age" := ABool, "friends" := ASpec(FriendsOfFriendsSpec())]
  }

  const PreferencesSpec: map<FieldName, Arg> := map["name" := ATrue, "emailNotifications" := ATrue]

  function ExampleSpec(): map<FieldName, Arg>
  {
    map[
      "email" := AProp(Str, One),
      "age" := AFalse,
      "name" := ABool,
      "friends" := ASpec(FriendsSpec()),
      "preferences" := ASpec(PreferencesSpec)
    ]
  }

  lemma InnerPreferencesResolve()
    ensures ResultFields(Bases(), ASpec(InnerPreferencesSpec), PreferenceTarget) == map["name" := TScalar(Str)]
  {
    PreferenceView();
    ResultKeySet(Bases(), ASpec(InnerPreferencesSpec), PreferenceTarget);
  }

  lemma InnerFriendsResolve()
    ensures ResultFields(Bases(), ASpec(InnerFriendsSpec), [["User"]]) == map["age" := TScalar(Num)]
  {
    UserView("age");
    ResultKeySet(Bases(), ASpec(InnerFriendsSpec), [["User"]]);
  }

  lemma AliasesResolve()
    ensures ResolveKey(Bases(), AsDirective(Len(PropParam("name", Str, One))), [["User"]], "zzz") == TScalar(Num)
    ensures ResolveKey(Bases(), AsDirective(Literal(NumV(42))), [["User"]], "zzz2") == TLit(NumV(42))
  {
    UserKeys();
  }

  lemma NestedLinksResolve()
    ensures ResolveKey(Bases(), ASpec(InnerPreferencesSpec), [["User"]], "preferences")
      == TShape(map["name" := TScalar(Str)])
    ensures ResolveKey(Bases(), ASpec(InnerFriendsSpec), [["User"]], "friends")
      == TShape(map["age" := TScalar(Num)])
  {
    UserView("preferences");
    UserView("friends");
    InnerPreferencesResolve();
    InnerFriendsResolve();
  }

  lemma FriendsOfFriendsResolve()
    ensures ResultFields(Bases(), ASpec(FriendsOfFriendsSpec()), [["User"]]) == FriendsOfFriendsShape()
  {
    var spec, e := FriendsOfFriendsSpec(), FriendsOfFriendsShape();
    forall k | k in spec ensures ResolveKey(Bases(), spec[k], [["User"]], k) == e[k] {
      if k == "zzz" || k == "zzz2" {
        AliasesResolve();
      } else {
        NestedLinksResolve();
      }
    }
    ResultFromEntries(Bases(), spec, [["User"]], e);
  }

  function FriendsOfFriendsShape(): map<FieldName, Ty>
  {
    map[
      "zzz" := TScalar(Num),
      "zzz2" := TLit(NumV(42)),
      "preferences" := TShape(map["name" := TScalar(Str)]),
      "friends" := TShape(map["age" := TScalar(Num)])
    ]
  }

  function FriendsShape(): map<FieldName, Ty>
  {
    map[
      "name" := TScalar(Str),
      "age" := TUnion({TScalar(Num), TUndefined}),
      "friends" := TShape(FriendsOfFriendsShape())
    ]
  }

  lemma FriendsEntriesResolve()
    ensures ResolveKey(Bases(), ATrue, [["User"]], "name") == TScalar(Str)
    ensures ResolveKey(Bases(), ABool, [["User"]], "age") == TUnion({TScalar(Num), TUndefined})
  {
    UserView("name");
    UserView("age");
  }

  lemma FriendsOfFriendsEntryResolves()
    ensures ResolveKey(Bases(), ASpec(FriendsOfFriendsSpec()), [["User"]], "friends")
      == TShape(FriendsOfFriendsShape())
  {
    UserView("friends");
    FriendsOfFriendsResolve();
  }

  lemma FriendsResolve()
    ensures ResultFields(Bases(), ASpec(FriendsSpec()), [["User"]]) == FriendsShape()
  {
    var spec, e := FriendsSpec(), FriendsShape();
    forall k | k in spec ensures ResolveKey(Bases(), spec[k], [["User"]], k) == e[k] {
      if k == "friends" {
        FriendsOfFriendsEntryResolves();
      } else {
        FriendsEntriesResolve();
      }
    }
    ResultFromEntries(Bases(), spec, [["User"]], e);
  }

  lemma PreferencesEntriesResolve()
    ensures ResolveKey(Bases(), ATrue, PreferenceTarget, "name") == TScalar(Str)
    ensures ResolveKey(Bases(), ATrue, PreferenceTarget, "emailNotifications") == TNever
  {
    PreferenceView();
  }

  lemma PreferencesResolve()
    ensures ResultFields(Bases(), ASpec(PreferencesSpec), PreferenceTarget)
      == map["name" := TScalar(Str), "emailNotifications" := TNever]
  {
    PreferencesEntriesResolve();
    ResultFromEntries(Bases(), PreferencesSpec, PreferenceTarget, map["name" := TScalar(Str), "emailNotifications" := TNever]);
  }

  function ExampleShape(): map<FieldName, Ty>
  {
    map[
      "email" := TScalar(Str),
      "age" := TUndefined,
      "name" := TUnion({TScalar(Str), TUndefined}),
      "friends" := TShape(FriendsShape()),
      "preferences" := TShape(map["name" := TScalar(Str), "emailNotifications" := TNever])
    ]
  }

  lemma ExamplePropertiesResolve()
    ensures ResolveKey(Bases(), AProp(Str, One), [["User"]], "email") == TScalar(Str)
    ensures ResolveKey(Bases(), AFalse, [["User"]], "age") == TUndefined
    ensures ResolveKey(Bases(), ABool, [["User"]], "name") == TUnion({TScalar(Str), TUndefined})
  {
    UserView("email");
    UserView("age");
    UserView("name");
  }

  lemma ExampleLinksResolve()
    ensures ResolveKey(Bases(), ASpec(FriendsSpec()), [["User"]], "friends") == TShape(FriendsShape())
    ensures ResolveKey(Bases(), ASpec(PreferencesSpec), [["User"]], "preferences")
      == TShape(map["name" := TScalar(Str), "emailNotifications" := TNever])
  {
    UserView("friends");
    UserView("preferences");
    FriendsResolve();
    PreferencesResolve();
  }

  /**
    The nested selection resolves field by field: `age: false` keeps the
    key as `undefined`, `name: 1 > 0` may be `undefined`, no link is
    wrapped as a collection, the aliases get their computables' types, and
    `emailNotifications`, which only one kind of preferences has, is
    `never`.
   */
  lemma ExampleResolves()
    ensures Result(Bases(), ExampleSpec(), "User") == ExampleShape()
  {
    forall k | k in ExampleSpec() {
      ExampleEntryResolves(k);
    }
    ResultFromEntries(Bases(), ExampleSpec(), [["User"]], ExampleShape());
  }

  lemma ExampleEntryResolves(k: FieldName)
    requires k in ExampleSpec()
    ensures k in ExampleShape()
    ensures ResolveKey(Bases(), ExampleSpec()[k], [["User"]], k) == ExampleShape()[k]
  {
    if k == "friends" || k == "preferences" {
      ExampleLinksResolve();
    } else {
      ExamplePropertiesResolve();
    }
  }

  // The same selection passes `MakeSelectArgs<typeof bases.User>`.

  /** A selection admitted by `Preferences` is admitted by the target of `User.preferences`. */
  lemma PreferencesVariantAdmits(check: Check, spec: map<FieldName, Arg>)
    requires SelectArgs(Bases(), check, ASpec(spec), [["Preferences"]])
    ensures SelectArgs(Bases(), check, ASpec(spec), PreferenceTarget)
  {
    assert PreferenceTarget == [["Preferences"]] + [["LegacyPreferences"]];
    VariantsDistribute(Bases(), check, ASpec(spec), [["Preferences"]], [["LegacyPreferences"]]);
  }

  lemma InnerPreferencesAdmitted(check: Check)
    ensures SelectArgs(Bases(), check, ASpec(InnerPreferencesSpec), PreferenceTarget)
  {
    forall k | k in InnerPreferencesSpec && k in FieldsOf(Bases(), "Preferences")
      ensures DirectiveAdmits(Bases(), check, InnerPreferencesSpec[k], Agreed(FieldsOf(Bases(), "Preferences")[k]))
    {
      assert k == "name";
    }
    assert "name" in InnerPreferencesSpec && "name" in FieldsOf(Bases(), "Preferences");
    SingleObjectAdmits(Bases(), check, InnerPreferencesSpec, "Preferences");
    PreferencesVariantAdmits(check, InnerPreferencesSpec);
  }
  lemma InnerFriendsAdmitted(check: Check)
    ensures SelectArgs(Bases(), check, ASpec(InnerFriendsSpec), [["User"]])
  {
    forall k | k in InnerFriendsSpec && k in FieldsOf(Bases(), "User")
      ensures DirectiveAdmits(Bases(), check, InnerFriendsSpec[k], Agreed(FieldsOf(Bases(), "User")[k]))
    {
      assert k == "age";
    }
    assert "age" in InnerFriendsSpec && "age" in FieldsOf(Bases(), "User");
    SingleObjectAdmits(Bases(), check, InnerFriendsSpec, "User");
  }

  lemma PreferencesAdmitted(check: Check)
    ensures SelectArgs(Bases(), check, ASpec(PreferencesSpec), PreferenceTarget)
  {
    forall k | k in PreferencesSpec && k in FieldsOf(Bases(), "Preferences")
      ensures DirectiveAdmits(Bases(), check, PreferencesSpec[k], Agreed(FieldsOf(Bases(), "Preferences")[k]))
    {
      assert PreferencesSpec[k] == ATrue;
    }
    assert "name" in PreferencesSpec && "name" in FieldsOf(Bases(), "Preferences");
    SingleObjectAdmits(Bases(), check, PreferencesSpec, "Preferences");
    PreferencesVariantAdmits(check, PreferencesSpec);
  }

  lemma FriendsOfFriendsEntryAdmitted(check: Check, k: FieldName)
    requires k in FriendsOfFriendsSpec() && k in FieldsOf(Bases(), "User")
    ensures DirectiveAdmits(Bases(), check, FriendsOfFriendsSpec()[k], Agreed(FieldsOf(Bases(), "User")[k]))
  {
    if k == "preferences" {
      InnerPreferencesAdmitted(check);
    } else {
      assert k == "friends";
      InnerFriendsAdmitted(check);
    }
  }

  lemma FriendsOfFriendsAdmitted(check: Check)
    ensures SelectArgs(Bases(), check, ASpec(FriendsOfFriendsSpec()), [["User"]])
  {
    forall k | k in FriendsOfFriendsSpec() && k in FieldsOf(Bases(), "User") {
      FriendsOfFriendsEntryAdmitted(check, k);
    }
    assert "friends" in FriendsOfFriendsSpec() && "friends" in FieldsOf(Bases(), "User");
    SingleObjectAdmits(Bases(), check, FriendsOfFriendsSpec(), "User");
  }

  lemma FriendsEntryAdmitted(check: Check, k: FieldName)
    requires k in FriendsSpec() && k in FieldsOf(Bases(), "User")
    ensures DirectiveAdmits(Bases(), check, FriendsSpec()[k], Agreed(FieldsOf(Bases(), "User")[k]))
  {
    if k == "friends" {
      FriendsOfFriendsAdmitted(check);
    }
  }

  lemma FriendsAdmitted(check: Check)
    ensures SelectArgs(Bases(), check, ASpec(FriendsSpec()), [["User"]])
  {
    forall k | k in FriendsSpec() && k in FieldsOf(Bases(), "User") {
      FriendsEntryAdmitted(check, k);
    }
    assert "friends" in FriendsSpec() && "friends" in FieldsOf(Bases(), "User");
    SingleObjectAdmits(Bases(), check, FriendsSpec(), "User");
  }

  lemma ExampleEntryAdmitted(check: Check, k: FieldName)
    requires k in ExampleSpec() && k in FieldsOf(Bases(), "User")
    ensures DirectiveAdmits(Bases(), check, ExampleSpec()[k], Agreed(FieldsOf(Bases(), "User")[k]))
  {
    if k == "friends" {
      FriendsAdmitted(check);
    } else if k == "preferences" {
      PreferencesAdmitted(check);
    }
  }

  /** `User.shape(...)` with the nested selection type-checks, under either override check. */
  lemma ExampleAdmitted(check: Check)
    ensures SelectArgs(Bases(), check, ASpec(ExampleSpec()), [["User"]])
  {
    forall k | k in ExampleSpec() && k in FieldsOf(Bases(), "User") {
      ExampleEntryAdmitted(check, k);
    }
    assert "email" in ExampleSpec() && "email" in FieldsOf(Bases(), "User");
    SingleObjectAdmits(Bases(), check, ExampleSpec(), "User");
  }

  // Further selections on `User`.

  /** Selecting only `friends` on `User` resolves the nested directive against `User` again. */
  lemma FriendsOnlyResolves(d: Arg)
    ensures Result(Bases(), map["friends" := d], "User") == map["friends" := TShape(ResultFields(Bases(), d, [["User"]]))]
  {
    UserView("friends");
    ResultFromEntries(Bases(), map["friends" := d], [["User"]], map["friends" := TShape(ResultFields(Bases(), d, [["User"]]))]);
  }

  /** The cycle `friends.friends.friends` unfolds as far as the selection goes, and no further. */
  lemma CyclicSelectionResolves()
    ensures Result(Bases(), map["friends" := ASpec(map["friends" := ASpec(map["friends" := ASpec(map["name" := ATrue])])])], "User")
      == map["friends" := TShape(map["friends" := TShape(map["friends" := TShape(map["name" := TScalar(Str)])])])]
  {
    UserView("name");
    ResultFromEntries(Bases(), map["name" := ATrue], [["User"]], map["name" := TScalar(Str)]);
    FriendsOnlyResolves(ASpec(map["name" := ATrue]));
    FriendsOnlyResolves(ASpec(map["friends" := ASpec(map["name" := ATrue])]));
    FriendsOnlyResolves(ASpec(map["friends" := ASpec(map["friends" := ASpec(map["name" := ATrue])])]));
  }

  /** `boolean`'s only member, `valueOf`, is no field of `User`, so `true` resolves there to `{}`. */
  lemma BooleanMembersOnUser()
    ensures ResultFields(Bases(), ATrue, [["User"]]) == map[]
  {
    UserKeys();
    LeafResult(Bases(), ATrue, [["User"]]);
  }

  /** `{friends: true}`. */
  function FriendsTrueSpec(): map<FieldName, Arg>
  {
    map["friends" := ATrue]
  }

  lemma BooleanLinkAdmitted(check: Check)
    ensures SelectArgs(Bases(), check, ASpec(FriendsTrueSpec()), [["User"]])
  {
    forall k | k in FriendsTrueSpec() && k in FieldsOf(Bases(), "User")
      ensures DirectiveAdmits(Bases(), check, FriendsTrueSpec()[k], Agreed(FieldsOf(Bases(), "User")[k]))
    {
      assert k == "friends";
    }
    assert "friends" in FriendsTrueSpec() && "friends" in FieldsOf(Bases(), "User");
    SingleObjectAdmits(Bases(), check, FriendsTrueSpec(), "User");
  }

  /** `friends: true` is admitted, and resolves to the members of `boolean` that `User` has: none. */
  lemma BooleanLinkDirective(check: Check)
    ensures SelectArgs(Bases(), check, ASpec(FriendsTrueSpec()), [["User"]])
    ensures Result(Bases(), FriendsTrueSpec(), "User") == map["friends" := TShape(map[])]
  {
    BooleanLinkAdmitted(check);
    FriendsOnlyResolves(ATrue);
    BooleanMembersOnUser();
  }

  /** A selection holding only an alias is rejected, though it would resolve to the alias's type. */
  lemma LoneAliasRejected(check: Check)
    ensures !SelectArgs(Bases(), check, ASpec(map["zzz" := AsDirective(Len(PropParam("name", Str, One)))]), [["User"]])
    ensures Result(Bases(), map["zzz" := AsDirective(Len(PropParam("name", Str, One)))], "User") == map["zzz" := TScalar(Num)]
  {
    LoneUnknownKeyRejected(Bases(), check, "User", "zzz", AsDirective(Len(PropParam("name", Str, One))));
    AliasesResolve();
    ResultFromEntries(Bases(), map["zzz" := AsDirective(Len(PropParam("name", Str, One)))], [["User"]], map["zzz" := TScalar(Num)]);
  }

  /** `{age: User.name}`. */
  function OverrideSpec(): map<FieldName, Arg>
  {
    map["age" := AProp(Str, One)]
  }

  lemma OverrideRejected()
    ensures !SelectArgs(Bases(), Intended, ASpec(OverrideSpec()), [["User"]])
  {
    SingleClause(Bases(), "User", "age");
    assert [["User"]][0] == ["User"];
    assert !DirectiveAdmits(Bases(), Intended, OverrideSpec()["age"], ClauseFields(Bases(), ["User"])["age"]);
  }

  lemma OverrideAdmittedAsWritten()
    ensures SelectArgs(Bases(), AsWritten, ASpec(OverrideSpec()), [["User"]])
  {
    UserView("age");
    assert "age" in OverrideSpec() && "age" in FieldsOf(Bases(), "User");
    SingleObjectAdmits(Bases(), AsWritten, OverrideSpec(), "User");
  }

  lemma OverrideResolves()
    ensures Result(Bases(), OverrideSpec(), "User") == map["age" := TScalar(Str)]
  {
    UserView("age");
    ResultFromEntries(Bases(), OverrideSpec(), [["User"]], map["age" := TScalar(Str)]);
  }

  /**
    `User.shape({age: User.name})`: TypeScript admits the string property
    in place of the number property `age`, and the query says `age` is a
    string; the intended validator rejects it.
   */
  lemma OverrideWithAnotherScalar()
    ensures SelectArgs(Bases(), AsWritten, ASpec(OverrideSpec()), [["User"]])
    ensures !SelectArgs(Bases(), Intended, ASpec(OverrideSpec()), [["User"]])
    ensures Query.Shape(Bases(), "User", OverrideSpec()) == Wrappers.Some(map["age" := TScalar(Str)])
  {
    OverrideAdmittedAsWritten();
    OverrideRejected();
    OverrideResolves();
  }

  /** `{value: true}`, and `{preferences: {value: true}}`. */
  function LegacyOnlySpec(): map<FieldName, Arg>
  {
    map["value" := ATrue]
  }

  function VariantOnlySpec(): map<FieldName, Arg>
  {
    map["preferences" := ASpec(LegacyOnlySpec())]
  }

  /** `value`, which only legacy preferences have, is admitted by the target of `User.preferences`... */
  lemma VariantOnlyFieldAdmitted(check: Check)
    ensures SelectArgs(Bases(), check, ASpec(LegacyOnlySpec()), PreferenceTarget)
  {
    forall k | k in LegacyOnlySpec() && k in FieldsOf(Bases(), "LegacyPreferences")
      ensures DirectiveAdmits(Bases(), check, LegacyOnlySpec()[k], Agreed(FieldsOf(Bases(), "LegacyPreferences")[k]))
    {
      assert k == "value";
    }
    assert "value" in LegacyOnlySpec() && "value" in FieldsOf(Bases(), "LegacyPreferences");
    SingleObjectAdmits(Bases(), check, LegacyOnlySpec(), "LegacyPreferences");
    assert PreferenceTarget == [["Preferences"]] + [["LegacyPreferences"]];
    VariantsDistribute(Bases(), check, ASpec(LegacyOnlySpec()), [["Preferences"]], [["LegacyPreferences"]]);
  }

  /** ... and resolves there to `never`. */
  lemma VariantOnlyFieldResolves()
    ensures ResultFields(Bases(), ASpec(LegacyOnlySpec()), PreferenceTarget) == map["value" := TNever]
  {
    PreferenceView();
    ResultFromEntries(Bases(), LegacyOnlySpec(), PreferenceTarget, map["value" := TNever]);
  }

  lemma VariantOnlySelectionAdmitted(check: Check)
    ensures SelectArgs(Bases(), check, ASpec(VariantOnlySpec()), [["User"]])
  {
    forall k | k in VariantOnlySpec() && k in FieldsOf(Bases(), "User")
      ensures DirectiveAdmits(Bases(), check, VariantOnlySpec()[k], Agreed(FieldsOf(Bases(), "User")[k]))
    {
      assert k == "preferences";
      VariantOnlyFieldAdmitted(check);
    }
    assert "preferences" in VariantOnlySpec() && "preferences" in FieldsOf(Bases(), "User");
    SingleObjectAdmits(Bases(), check, VariantOnlySpec(), "User");
  }

  lemma VariantOnlySelectionResolves()
    ensures Result(Bases(), VariantOnlySpec(), "User") == map["preferences" := TShape(map["value" := TNever])]
  {
    VariantOnlyFieldResolves();
    UserView("preferences");
    ResultFromEntries(Bases(), VariantOnlySpec(), [["User"]], map["preferences" := TShape(map["value" := TNever])]);
  }

  /**
    So `User.shape({preferences: {value: true}})` type-checks (the
    select-args distribute over the variants), yet gives `value` the type
    `never`.
   */
  lemma VariantOnlyField(check: Check)
    ensures SelectArgs(Bases(), check, ASpec(VariantOnlySpec()), [["User"]])
    ensures Result(Bases(), VariantOnlySpec(), "User") == map["preferences" := TShape(map["value" := TNever])]
  {
    VariantOnlySelectionAdmitted(check);
    VariantOnlySelectionResolves();
  }

  // Expressions over `User`'s properties.

  /**
    `plus(User.name, User.age)` is admitted as written and rejected once
    property scalars are checked; a literal adds to a property of its base
    type, and two number literals give the union of their literal types. A
    string literal added to a number property is admitted as written, typed
    by the literal, and rejected by the corrected `plus`.
   */
  lemma PlusOnUser()
    ensures PlusAsWritten(PropParam("name", Str, One), PropParam("age", Num, One)).Ok?
    ensures Plus(PropParam("name", Str, One), PropParam("age", Num, One)).Err?
    ensures Plus(CompParam(Literal(NumV(1))), PropParam("age", Num, One)).Ok?
    ensures Plus(CompParam(Literal(NumV(1))), PropParam("age", Num, One)).value.ty == TScalar(Num)
    ensures Plus(CompParam(Literal(NumV(1))), CompParam(Literal(NumV(2)))).Ok?
    ensures Plus(CompParam(Literal(NumV(1))), CompParam(Literal(NumV(2)))).value.ty == TUnion({TLit(NumV(1)), TLit(NumV(2))})
    ensures PlusAsWritten(CompParam(Literal(StrV("a"))), PropParam("age", Num, One)).Ok?
    ensures PlusAsWritten(CompParam(Literal(StrV("a"))), PropParam("age", Num, One)).value.ty == TLit(StrV("a"))
    ensures Plus(CompParam(Literal(StrV("a"))), PropParam("age", Num, One)).Err?
  {
  }

  /**
    `plus(plus(literal(1), literal(2)), literal(3))`: the inner sum has type
    `1 | 2`, and the outer one, admitted as written and corrected alike, has
    type `1 | 2 | 3`.
   */
  lemma NestedLiteralPlus()
    ensures Plus(CompParam(Literal(NumV(1))), CompParam(Literal(NumV(2)))).Ok?
    ensures var inner := Plus(CompParam(Literal(NumV(1))), CompParam(Literal(NumV(2)))).value;
      && Plus(CompParam(inner), CompParam(Literal(NumV(3)))).Ok?
      && Alts(Plus(CompParam(inner), CompParam(Literal(NumV(3)))).value.ty) == {TLit(NumV(1)), TLit(NumV(2)), TLit(NumV(3))}
      && PlusAsWritten(CompParam(inner), CompParam(Literal(NumV(3)))) == Plus(CompParam(inner), CompParam(Literal(NumV(3))))
  {
    var one, two, three := CompParam(Literal(NumV(1))), CompParam(Literal(NumV(2))), CompParam(Literal(NumV(3)));
    assert LiteralsOf(ParamTy(one), Num) && LiteralsOf(ParamTy(two), Num);
    var inner := Plus(one, two).value;
    assert LiteralsOf(ParamTy(three), Num);
    assert LiteralsOf(ParamTy(CompParam(inner)), Num);
  }

  /** `{name: undefined}`. */
  function NameUndefinedSpec(): map<FieldName, Arg>
  {
    map["name" := AUndefined]
  }

  lemma UndefinedDirectiveAdmitted(check: Check)
    ensures SelectArgs(Bases(), check, ASpec(NameUndefinedSpec()), [["User"]])
  {
    forall k | k in NameUndefinedSpec() && k in FieldsOf(Bases(), "User")
      ensures DirectiveAdmits(Bases(), check, NameUndefinedSpec()[k], Agreed(FieldsOf(Bases(), "User")[k]))
    {
      assert k == "name";
    }
    assert "name" in NameUndefinedSpec() && "name" in FieldsOf(Bases(), "User");
    SingleObjectAdmits(Bases(), check, NameUndefinedSpec(), "User");
  }

  lemma UndefinedDirectiveResolves()
    ensures Result(Bases(), NameUndefinedSpec(), "User") == map["name" := TScalar(Str)]
  {
    UserView("name");
    ResultFromEntries(Bases(), NameUndefinedSpec(), [["User"]], map["name" := TScalar(Str)]);
  }

  /**
    `User.shape({name: undefined})` type-checks, as every key of the
    select-args is optional, and `name` keeps its declared scalar type.
   */
  lemma UndefinedDirective(check: Check)
    ensures SelectArgs(Bases(), check, ASpec(NameUndefinedSpec()), [["User"]])
    ensures Result(Bases(), NameUndefinedSpec(), "User") == map["name" := TScalar(Str)]
  {
    UndefinedDirectiveAdmitted(check);
    UndefinedDirectiveResolves();
  }
}
