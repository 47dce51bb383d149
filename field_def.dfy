/** A field of a class file: its access flags, name and descriptor, and the
    modifier string and display name the reports print for it. */
module FieldDefs {
  import opened JavaStrings
  import opened AccessFlags

  /** All bits that take part in a field's modifier string. */
  const FieldFlagMask: bv32 := 0x250DF

  /** The modifiers a field's modifier string can contain, in printing order. */
  const FieldModifiers: seq<Modifier> := [
    Modifier(ACC_PUBLIC, "public"),
    Modifier(ACC_PROTECTED, "protected"),
    Modifier(ACC_PRIVATE, "private"),
    Modifier(ACC_STATIC, "static"),
    Modifier(ACC_FINAL, "final"),
    Modifier(ACC_VOLATILE, "volatile"),
    Modifier(ACC_TRANSIENT, "transient"),
    Modifier(ACC_SYNTHETIC, "(synthetic)"),
    Modifier(ACC_ENUM, "(enum)"),
    Modifier(ACC_DEPRECATED, "@Deprecated")
  ]

  /** Keywords of modifiers that only methods and classes have. */
  const MethodAndClassOnlyTokens: seq<string> :=
    ["abstract", "synchronized", "native", "strictfp", "interface", "@interface"]

  /** The tokens of a field's modifier string, as a specification. */
  function ModifierTokens(access: bv32): seq<string> {
    TokensOf(access, FieldModifiers)
  }

  // ---------------------------------------------------------------------------
  // The field

  /** `FieldDef(access, fieldName, fieldDescriptor)`; the getters are the fields. */
  datatype FieldDef = FieldDef(access: bv32, fieldName: string, fieldDescriptor: string)
  {
    predicate IsPublic() { Has(access, ACC_PUBLIC) }
    predicate IsPrivate() { Has(access, ACC_PRIVATE) }
    predicate IsProtected() { Has(access, ACC_PROTECTED) }
    predicate IsStatic() { Has(access, ACC_STATIC) }
    predicate IsFinal() { Has(access, ACC_FINAL) }
    predicate IsVolatile() { Has(access, ACC_VOLATILE) }
    predicate IsTransient() { Has(access, ACC_TRANSIENT) }
    predicate IsSynthetic() { Has(access, ACC_SYNTHETIC) }
    predicate IsEnum() { Has(access, ACC_ENUM) }
    predicate IsDeprecated() { Has(access, ACC_DEPRECATED) }

    /** The modifier string as a specification: the set tokens joined by single spaces. */
    function Modifiers(): string {
      Join(" ", ModifierTokens(access))
    }

    /** `getModifiers()`: the flag tests in printing order, each appending its token. */
    method GetModifiers() returns (s: string)
      ensures s == Modifiers()
    {
      var parts: seq<string> := [];
      // access flags
      parts := parts + When(IsPublic(), "public");
      parts := parts + When(IsProtected(), "protected");
      parts := parts + When(IsPrivate(), "private");
      // modifiers
      parts := parts + When(IsStatic(), "static");
      parts := parts + When(IsFinal(), "final");
      parts := parts + When(IsVolatile(), "volatile");
      parts := parts + When(IsTransient(), "transient");
      // special flags
      parts := parts + When(IsSynthetic(), "(synthetic)");
      parts := parts + When(IsEnum(), "(enum)");
      parts := parts + When(IsDeprecated(), "@Deprecated");
      TokensUnrolled(access);
      assert parts == ModifierTokens(access);
      s := Join(" ", parts);
    }

    /** `getDisplayName()`: modifiers, type name and field name, with the
        modifiers and their space dropped when there are none. The type name
        comes from the descriptor through `typeName`. */
    function DisplayName(typeName: string -> string): (r: string)
      ensures EndsWith(r, " " + fieldName)
    {
      var fieldType := typeName(fieldDescriptor);
      var modifiers := Modifiers();
      if modifiers == "" then fieldType + " " + fieldName
      else modifiers + " " + fieldType + " " + fieldName
    }

    /** `toString()` */
    function ToString(typeName: string -> string): (r: string)
      ensures |r| == |DisplayName(typeName)| + 10
      ensures StartsWith(r, "FieldDef[") && EndsWith(r, "]")
      ensures r[9..|r| - 1] == DisplayName(typeName)
    {
      "FieldDef[" + DisplayName(typeName) + "]"
    }
  }

  /** The modifier table spelled out: one conditional token per entry, in order. */
  lemma TokensUnrolled(access: bv32)
    ensures TokensOf(access, FieldModifiers) == []
      + When(Has(access, ACC_PUBLIC), "public")
      + When(Has(access, ACC_PROTECTED), "protected")
      + When(Has(access, ACC_PRIVATE), "private")
      + When(Has(access, ACC_STATIC), "static")
      + When(Has(access, ACC_FINAL), "final")
      + When(Has(access, ACC_VOLATILE), "volatile")
      + When(Has(access, ACC_TRANSIENT), "transient")
      + When(Has(access, ACC_SYNTHETIC), "(synthetic)")
      + When(Has(access, ACC_ENUM), "(enum)")
      + When(Has(access, ACC_DEPRECATED), "@Deprecated")
  {
    var t: seq<Modifier> := [];
    var acc: seq<string> := [];
    TokensOfSnoc(access, t, Modifier(ACC_PUBLIC, "public"));
    t, acc := t + [Modifier(ACC_PUBLIC, "public")], acc + When(Has(access, ACC_PUBLIC), "public");
    assert TokensOf(access, t) == acc;
    TokensOfSnoc(access, t, Modifier(ACC_PROTECTED, "protected"));
    t, acc := t + [Modifier(ACC_PROTECTED, "protected")], acc + When(Has(access, ACC_PROTECTED), "protected");
    assert TokensOf(access, t) == acc;
    TokensOfSnoc(access, t, Modifier(ACC_PRIVATE, "private"));
    t, acc := t + [Modifier(ACC_PRIVATE, "private")], acc + When(Has(access, ACC_PRIVATE), "private");
    assert TokensOf(access, t) == acc;
    TokensOfSnoc(access, t, Modifier(ACC_STATIC, "static"));
    t, acc := t + [Modifier(ACC_STATIC, "static")], acc + When(Has(access, ACC_STATIC), "static");
    assert TokensOf(access, t) == acc;
    TokensOfSnoc(access, t, Modifier(ACC_FINAL, "final"));
    t, acc := t + [Modifier(ACC_FINAL, "final")], acc + When(Has(access, ACC_FINAL), "final");
    assert TokensOf(access, t) == acc;
    TokensOfSnoc(access, t, Modifier(ACC_VOLATILE, "volatile"));
    t, acc := t + [Modifier(ACC_VOLATILE, "volatile")], acc + When(Has(access, ACC_VOLATILE), "volatile");
    assert TokensOf(access, t) == acc;
    TokensOfSnoc(access, t, Modifier(ACC_TRANSIENT, "transient"));
    t, acc := t + [Modifier(ACC_TRANSIENT, "transient")], acc + When(Has(access, ACC_TRANSIENT), "transient");
    assert TokensOf(access, t) == acc;
    TokensOfSnoc(access, t, Modifier(ACC_SYNTHETIC, "(synthetic)"));
    t, acc := t + [Modifier(ACC_SYNTHETIC, "(synthetic)")], acc + When(Has(access, ACC_SYNTHETIC), "(synthetic)");
    assert TokensOf(access, t) == acc;
    TokensOfSnoc(access, t, Modifier(ACC_ENUM, "(enum)"));
    t, acc := t + [Modifier(ACC_ENUM, "(enum)")], acc + When(Has(access, ACC_ENUM), "(enum)");
    assert TokensOf(access, t) == acc;
    TokensOfSnoc(access, t, Modifier(ACC_DEPRECATED, "@Deprecated"));
    t, acc := t + [Modifier(ACC_DEPRECATED, "@Deprecated")], acc + When(Has(access, ACC_DEPRECATED), "@Deprecated");
    assert TokensOf(access, t) == acc;
    assert t == FieldModifiers;
  }

  // ---------------------------------------------------------------------------
  // Properties of a field's modifier string

  lemma FieldModifiersDistinct()
    ensures DistinctTokens(FieldModifiers)
  {
  }

  lemma TokensAreWords(access: bv32)
    ensures forall p :: 0 <= p < |ModifierTokens(access)| ==> IsWord(ModifierTokens(access)[p])
  {
    TokensOfWords(access, FieldModifiers);
  }

  /** A modifier token appears exactly when its flag is set. */
  lemma ModifierListedIff(access: bv32, i: nat)
    requires i < |FieldModifiers|
    ensures FieldModifiers[i].token in ModifierTokens(access) <==> Has(access, FieldModifiers[i].flag)
  {
    FieldModifiersDistinct();
    TokenListedIff(access, FieldModifiers, i);
  }

  /** Each token appears at most once, and in the order of `FieldModifiers`. */
  lemma ModifierTokensCanonical(access: bv32)
    ensures NoDuplicates(ModifierTokens(access))
    ensures InTableOrder(FieldModifiers, ModifierTokens(access))
  {
    FieldModifiersDistinct();
    TokensDistinct(access, FieldModifiers);
    TokensInTableOrder(access, FieldModifiers);
  }

  /** The modifier string splits at its single spaces into exactly the tokens. */
  lemma ModifiersWords(f: FieldDef)
    ensures Words(f.Modifiers()) == ModifierTokens(f.access)
  {
    TokensAreWords(f.access);
    WordsOfJoin(ModifierTokens(f.access));
  }

  /** The modifier string is empty exactly when none of the listed flags is set. */
  lemma ModifiersEmptyIff(f: FieldDef)
    ensures f.Modifiers() == "" <==> f.access & FieldFlagMask == 0
  {
    TokensAreWords(f.access);
    JoinEmpty(ModifierTokens(f.access));
    TokensEmptyIff(f.access, FieldModifiers);
    if f.access & FieldFlagMask == 0 {
      MethodAndClassFlagsIgnored(f.access);
      TokensEmptyIff(0, FieldModifiers);
    } else {
      SomeFlagSet(f.access);
    }
  }

  /** Nothing is listed exactly when no entry's flag is set. */
  lemma TokensEmptyIff(access: bv32, table: seq<Modifier>)
    ensures TokensOf(access, table) == [] <==> forall i :: 0 <= i < |table| ==> !Has(access, table[i].flag)
  {
    SelectedSpec(access, table);
    var sel := Selected(access, table);
    if sel != [] {
      assert sel[0] in sel;
    }
  }

  lemma SomeFlagSet(access: bv32)
    requires access & FieldFlagMask != 0
    ensures exists i: nat :: i < |FieldModifiers| && Has(access, FieldModifiers[i].flag)
  {
    if Has(access, ACC_PUBLIC) { assert FieldModifiers[0].flag == ACC_PUBLIC; }
    else if Has(access, ACC_PROTECTED) { assert FieldModifiers[1].flag == ACC_PROTECTED; }
    else if Has(access, ACC_PRIVATE) { assert FieldModifiers[2].flag == ACC_PRIVATE; }
    else if Has(access, ACC_STATIC) { assert FieldModifiers[3].flag == ACC_STATIC; }
    else if Has(access, ACC_FINAL) { assert FieldModifiers[4].flag == ACC_FINAL; }
    else if Has(access, ACC_VOLATILE) { assert FieldModifiers[5].flag == ACC_VOLATILE; }
    else if Has(access, ACC_TRANSIENT) { assert FieldModifiers[6].flag == ACC_TRANSIENT; }
    else if Has(access, ACC_SYNTHETIC) { assert FieldModifiers[7].flag == ACC_SYNTHETIC; }
    else if Has(access, ACC_ENUM) { assert FieldModifiers[8].flag == ACC_ENUM; }
    else { assert FieldModifiers[9].flag == ACC_DEPRECATED; }
  }

  /** Method and class flags are ignored: a field's modifiers depend only on its field flags. */
  lemma MethodAndClassFlagsIgnored(access: bv32)
    ensures ModifierTokens(access & FieldFlagMask) == ModifierTokens(access)
  {
    TokensUnrolled(access);
    TokensUnrolled(access & FieldFlagMask);
    MaskedBits(access, FieldFlagMask, ACC_PUBLIC);
    MaskedBits(access, FieldFlagMask, ACC_PROTECTED);
    MaskedBits(access, FieldFlagMask, ACC_PRIVATE);
    MaskedBits(access, FieldFlagMask, ACC_STATIC);
    MaskedBits(access, FieldFlagMask, ACC_FINAL);
    MaskedBits(access, FieldFlagMask, ACC_VOLATILE);
    MaskedBits(access, FieldFlagMask, ACC_TRANSIENT);
    MaskedBits(access, FieldFlagMask, ACC_SYNTHETIC);
    MaskedBits(access, FieldFlagMask, ACC_ENUM);
    MaskedBits(access, FieldFlagMask, ACC_DEPRECATED);
  }

  /** Setting a flag that only methods and classes carry leaves a field's
      modifier string as it was. */
  lemma MethodOrClassFlagIgnored(f: FieldDef, flag: bv32)
    requires flag == ACC_SYNCHRONIZED || flag == ACC_NATIVE || flag == ACC_INTERFACE ||
             flag == ACC_ABSTRACT || flag == ACC_STRICT || flag == ACC_ANNOTATION
    ensures FieldDef(f.access | flag, f.fieldName, f.fieldDescriptor).Modifiers() == f.Modifiers()
  {
    assert (f.access | flag) & FieldFlagMask == f.access & FieldFlagMask;
    MethodAndClassFlagsIgnored(f.access);
    MethodAndClassFlagsIgnored(f.access | flag);
  }

  /** Every listed token is the token of one of the ten entries of `FieldModifiers`. */
  lemma ModifiersFromTable(access: bv32)
    ensures forall t :: t in ModifierTokens(access) ==>
      exists i :: 0 <= i < |FieldModifiers| && FieldModifiers[i].token == t
  {
    forall t | t in ModifierTokens(access)
      ensures exists i :: 0 <= i < |FieldModifiers| && FieldModifiers[i].token == t
    {
      TokensFromTable(access, FieldModifiers, t);
      var i := IndexOfToken(FieldModifiers, t);
      assert FieldModifiers[i].token == t;
    }
  }

  /** Keywords of method and class modifiers never appear, whatever bits are set. */
  lemma NoMethodOrClassTokens(access: bv32)
    ensures forall i :: 0 <= i < |MethodAndClassOnlyTokens| ==> MethodAndClassOnlyTokens[i] !in ModifierTokens(access)
  {
    forall i | 0 <= i < |MethodAndClassOnlyTokens| ensures MethodAndClassOnlyTokens[i] !in ModifierTokens(access) {
      TokensAvoid(access, FieldModifiers, MethodAndClassOnlyTokens[i]);
    }
  }

  /** Both branches of `getDisplayName()` are the single-space join of the
      modifier tokens, the type name and the field name. */
  lemma DisplayNameIsJoin(f: FieldDef, typeName: string -> string)
    ensures f.DisplayName(typeName) == Join(" ", ModifierTokens(f.access) + [typeName(f.fieldDescriptor), f.fieldName])
  {
    var ts := ModifierTokens(f.access);
    var ty := typeName(f.fieldDescriptor);
    TokensAreWords(f.access);
    JoinEmpty(ts);
    JoinAppend(ts, ty);
    JoinAppend(ts + [ty], f.fieldName);
    assert ts + [ty, f.fieldName] == (ts + [ty]) + [f.fieldName];
  }

  /** When the type name and the field name are single words, the display name
      splits back into the modifier tokens, the type name and the field name. */
  lemma DisplayNameWords(f: FieldDef, typeName: string -> string)
    requires IsWord(typeName(f.fieldDescriptor)) && IsWord(f.fieldName)
    ensures Words(f.DisplayName(typeName)) == ModifierTokens(f.access) + [typeName(f.fieldDescriptor), f.fieldName]
  {
    var parts := ModifierTokens(f.access) + [typeName(f.fieldDescriptor), f.fieldName];
    DisplayNameIsJoin(f, typeName);
    TokensAreWords(f.access);
    WordsOfJoin(parts);
  }
}
