/** The access flags of a class-file member and the modifier lists built from
    them: a table of (flag, token) entries and the tokens of the entries whose
    flag is set. */
module AccessFlags {
  import opened JavaStrings

  // ---------------------------------------------------------------------------
  // Flags: the field flags of section 4.5 (Table 4.5-A) of the Java
  // Virtual Machine Specification, plus ASM's deprecation pseudo-flag.

  const ACC_PUBLIC: bv32 := 0x0001
  const ACC_PRIVATE: bv32 := 0x0002
  const ACC_PROTECTED: bv32 := 0x0004
  const ACC_STATIC: bv32 := 0x0008
  const ACC_FINAL: bv32 := 0x0010
  const ACC_VOLATILE: bv32 := 0x0040
  const ACC_TRANSIENT: bv32 := 0x0080
  const ACC_SYNTHETIC: bv32 := 0x1000
  const ACC_ENUM: bv32 := 0x4000
  /** ASM's `Opcodes.ACC_DEPRECATED`, set when the field carries a Deprecated attribute. */
  const ACC_DEPRECATED: bv32 := 0x20000

  // Flags that only methods and classes carry (sections 4.1 and 4.6 of the
  // Java Virtual Machine Specification); bits shared with a field flag are
  // not repeated here.
  const ACC_SYNCHRONIZED: bv32 := 0x0020
  const ACC_NATIVE: bv32 := 0x0100
  const ACC_INTERFACE: bv32 := 0x0200
  const ACC_ABSTRACT: bv32 := 0x0400
  const ACC_STRICT: bv32 := 0x0800
  const ACC_ANNOTATION: bv32 := 0x2000

  /** The bit test behind every `isXxx()` of the access flags. */
  predicate Has(access: bv32, flag: bv32) {
    access & flag != 0
  }

  /** One entry of the modifier list: the flag that switches it on and the token printed. */
  datatype Modifier = Modifier(flag: bv32, token: string)

  // ---------------------------------------------------------------------------
  // The modifier list of an access mask, as a specification

  /** The one-token list when `c` holds and the empty list otherwise: a
      conditional `parts.add(token)`. */
  function When(c: bool, token: string): seq<string> {
    if c then [token] else []
  }

  /** The tokens of the entries of `table` whose flag is set in `access`, in table order. */
  function TokensOf(access: bv32, table: seq<Modifier>): seq<string>
  {
    if |table| == 0 then []
    else
      var last := table[|table| - 1];
      TokensOf(access, table[..|table| - 1]) + When(Has(access, last.flag), last.token)
  }

  /** The positions in `table` of the entries whose flag is set, in increasing order. */
  function Selected(access: bv32, table: seq<Modifier>): seq<nat>
  {
    if |table| == 0 then []
    else Selected(access, table[..|table| - 1]) + (if Has(access, table[|table| - 1].flag) then [|table| - 1] else [])
  }

  predicate DistinctTokens(table: seq<Modifier>) {
    forall i, j :: 0 <= i < j < |table| ==> table[i].token != table[j].token
  }

  predicate NoDuplicates(r: seq<string>) {
    forall p, q :: 0 <= p < q < |r| ==> r[p] != r[q]
  }

  /** The tokens of `r` come in the order of their entries in `table`. */
  predicate InTableOrder(table: seq<Modifier>, r: seq<string>) {
    forall p, q :: 0 <= p < q < |r| ==> IndexOfToken(table, r[p]) < IndexOfToken(table, r[q])
  }

  /** The position of the entry with token `t`, or `|table|` when there is none. */
  function IndexOfToken(table: seq<Modifier>, t: string): (r: nat)
    ensures r <= |table|
    ensures r < |table| ==> table[r].token == t
    ensures forall i :: 0 <= i < r ==> table[i].token != t
  {
    if |table| == 0 then 0
    else if table[0].token == t then 0
    else 1 + IndexOfToken(table[1..], t)
  }

  /** `Selected` lists positions of the table in increasing order. */
  lemma {:induction false} SelectedIncreasing(access: bv32, table: seq<Modifier>)
    ensures forall p :: 0 <= p < |Selected(access, table)| ==> Selected(access, table)[p] < |table|
    ensures forall p, q :: 0 <= p < q < |Selected(access, table)| ==> Selected(access, table)[p] < Selected(access, table)[q]
  {
    if |table| > 0 {
      SelectedIncreasing(access, table[..|table| - 1]);
    }
  }

  /** `Selected` holds exactly the positions of the entries whose flag is set. */
  lemma {:induction false} SelectedMembers(access: bv32, table: seq<Modifier>)
    ensures forall i :: 0 <= i < |table| ==> (i in Selected(access, table) <==> Has(access, table[i].flag))
  {
    if |table| > 0 {
      var init := table[..|table| - 1];
      SelectedMembers(access, init);
      SelectedIncreasing(access, init);
      assert forall i :: 0 <= i < |init| ==> init[i] == table[i];
    }
  }

  lemma SelectedPositions(access: bv32, table: seq<Modifier>)
    ensures var sel := Selected(access, table);
      && (forall p :: 0 <= p < |sel| ==> sel[p] < |table|)
      && (forall p, q :: 0 <= p < q < |sel| ==> sel[p] < sel[q])
      && (forall i :: 0 <= i < |table| ==> (i in sel <==> Has(access, table[i].flag)))
  {
    SelectedIncreasing(access, table);
    SelectedMembers(access, table);
  }

  /** The `p`-th listed token is the token of the `p`-th selected entry. */
  lemma {:induction false} TokensAtSelected(access: bv32, table: seq<Modifier>)
    ensures var sel := Selected(access, table);
      && |TokensOf(access, table)| == |sel|
      && (forall p :: 0 <= p < |sel| ==> sel[p] < |table| && TokensOf(access, table)[p] == table[sel[p]].token)
  {
    if |table| > 0 {
      var init := table[..|table| - 1];
      TokensAtSelected(access, init);
      SelectedIncreasing(access, init);
      assert forall i :: 0 <= i < |init| ==> init[i] == table[i];
    }
  }

  /** `TokensOf` picks exactly the set entries, in table order. */
  lemma SelectedSpec(access: bv32, table: seq<Modifier>)
    ensures var sel := Selected(access, table);
      && |TokensOf(access, table)| == |sel|
      && (forall p :: 0 <= p < |sel| ==> sel[p] < |table| && TokensOf(access, table)[p] == table[sel[p]].token)
      && (forall p, q :: 0 <= p < q < |sel| ==> sel[p] < sel[q])
      && (forall i :: 0 <= i < |table| ==> (i in sel <==> Has(access, table[i].flag)))
  {
    SelectedPositions(access, table);
    TokensAtSelected(access, table);
  }

  /** A token is listed exactly when the flag of its entry is set. */
  lemma TokenListedIff(access: bv32, table: seq<Modifier>, i: nat)
    requires DistinctTokens(table) && i < |table|
    ensures table[i].token in TokensOf(access, table) <==> Has(access, table[i].flag)
  {
    SelectedSpec(access, table);
    var sel := Selected(access, table);
    var r := TokensOf(access, table);
    if Has(access, table[i].flag) {
      var p :| 0 <= p < |sel| && sel[p] == i;
      assert r[p] == table[i].token;
    }
  }

  /** No token is listed twice. */
  lemma TokensDistinct(access: bv32, table: seq<Modifier>)
    requires DistinctTokens(table)
    ensures NoDuplicates(TokensOf(access, table))
  {
    SelectedSpec(access, table);
  }

  /** Listed tokens follow the order of the table. */
  lemma TokensInTableOrder(access: bv32, table: seq<Modifier>)
    requires DistinctTokens(table)
    ensures InTableOrder(table, TokensOf(access, table))
  {
    SelectedSpec(access, table);
    var sel := Selected(access, table);
    var r := TokensOf(access, table);
    forall p | 0 <= p < |r| ensures IndexOfToken(table, r[p]) == sel[p] {
      var k := IndexOfToken(table, r[p]);
      assert table[sel[p]].token == r[p];
      assert k <= sel[p];
    }
  }

  /** Every listed token is the token of some entry of the table. */
  lemma TokensFromTable(access: bv32, table: seq<Modifier>, t: string)
    requires t in TokensOf(access, table)
    ensures IndexOfToken(table, t) < |table|
  {
    SelectedSpec(access, table);
    var r := TokensOf(access, table);
    var sel := Selected(access, table);
    var p :| 0 <= p < |r| && r[p] == t;
    assert table[sel[p]].token == t;
  }

  /** A token that no entry of the table carries is never listed. */
  lemma {:induction false} TokensAvoid(access: bv32, table: seq<Modifier>, t: string)
    requires forall i :: 0 <= i < |table| ==> table[i].token != t
    ensures t !in TokensOf(access, table)
  {
    if |table| > 0 {
      var init := table[..|table| - 1];
      assert forall i :: 0 <= i < |init| ==> init[i] == table[i];
      TokensAvoid(access, init, t);
    }
  }

  /** A flag that lies inside `mask` is set in `access & mask` exactly when it is set in `access`. */
  lemma MaskedBits(access: bv32, mask: bv32, flag: bv32)
    requires flag & mask == flag
    ensures Has(access & mask, flag) == Has(access, flag)
  {
  }

  /** Testing one more entry extends the tokens by its own token when its flag is set. */
  lemma TokensOfSnoc(access: bv32, table: seq<Modifier>, m: Modifier)
    ensures TokensOf(access, table + [m]) == TokensOf(access, table) + When(Has(access, m.flag), m.token)
  {
    assert (table + [m])[..|table|] == table;
  }

  lemma {:induction false} TokensOfWords(access: bv32, table: seq<Modifier>)
    requires forall i :: 0 <= i < |table| ==> IsWord(table[i].token)
    ensures forall p :: 0 <= p < |TokensOf(access, table)| ==> IsWord(TokensOf(access, table)[p])
  {
    if |table| > 0 {
      TokensOfWords(access, table[..|table| - 1]);
    }
  }
}
