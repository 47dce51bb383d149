/** The java.lang.String operations the core relies on: `startsWith`, `endsWith`,
    `String.join`, `String.valueOf(int)` for non-negative values and
    `compareToIgnoreCase`, each with the law that pins it down. */
module JavaStrings {

  /** `s.startsWith(prefix)` */
  predicate StartsWith(s: string, prefix: string) {
    |prefix| <= |s| && s[..|prefix|] == prefix
  }

  /** `s.endsWith(suffix)` */
  predicate EndsWith(s: string, suffix: string) {
    |suffix| <= |s| && s[|s| - |suffix|..] == suffix
  }

  // ---------------------------------------------------------------------------
  // String.join and its inverse

  /** `String.join(sep, parts)`: the parts in order, `sep` between neighbours. */
  function Join(sep: string, parts: seq<string>): string
    decreases |parts|
  {
    if |parts| == 0 then ""
    else if |parts| == 1 then parts[0]
    else parts[0] + sep + Join(sep, parts[1..])
  }

  /** A non-empty string without a space. */
  predicate IsWord(w: string) {
    w != "" && ' ' !in w
  }

  /** Cuts `s` at every space; "" gives [""] and "a  b" gives ["a", "", "b"]. */
  function SplitAtSpaces(s: string): (r: seq<string>)
    ensures |r| >= 1
  {
    if |s| == 0 then [""]
    else
      var rest := SplitAtSpaces(s[1..]);
      if s[0] == ' ' then [""] + rest else [[s[0]] + rest[0]] + rest[1..]
  }

  /** The space-separated words of `s`; the empty string has none. */
  function Words(s: string): seq<string> {
    if s == "" then [] else SplitAtSpaces(s)
  }

  lemma {:induction false} SplitWord(w: string)
    requires ' ' !in w
    ensures SplitAtSpaces(w) == [w]
  {
    if |w| > 0 {
      SplitWord(w[1..]);
      assert [w[0]] + w[1..] == w;
    }
  }

  lemma {:induction false} SplitAfterWord(w: string, rest: string)
    requires ' ' !in w
    ensures SplitAtSpaces(w + " " + rest) == [w] + SplitAtSpaces(rest)
  {
    if |w| == 0 {
      assert (w + " " + rest)[1..] == rest;
    } else {
      assert (w + " " + rest)[1..] == w[1..] + " " + rest;
      SplitAfterWord(w[1..], rest);
      assert [w[0]] + w[1..] == w;
    }
  }

  /** Joining with one space appends the last part after a single space. */
  lemma {:induction false} JoinAppend(parts: seq<string>, last: string)
    ensures Join(" ", parts + [last]) == if parts == [] then last else Join(" ", parts) + " " + last
    decreases |parts|
  {
    if |parts| >= 2 {
      assert (parts + [last])[1..] == parts[1..] + [last];
      JoinAppend(parts[1..], last);
    } else if |parts| == 1 {
      assert (parts + [last])[1..] == [last];
    }
  }

  /** A join of words is empty exactly when there are no words. */
  lemma {:induction false} JoinEmpty(parts: seq<string>)
    requires forall i :: 0 <= i < |parts| ==> IsWord(parts[i])
    ensures (Join(" ", parts) == "") <==> (parts == [])
  {
    if |parts| >= 2 {
      assert |Join(" ", parts)| >= |parts[0]|;
    }
  }

  /** Splitting a single-space join of words gives the words back: the parts are
      separated by exactly one space each. */
  lemma {:induction false} WordsOfJoin(parts: seq<string>)
    requires forall i :: 0 <= i < |parts| ==> IsWord(parts[i])
    ensures Words(Join(" ", parts)) == parts
    decreases |parts|
  {
    JoinEmpty(parts);
    if |parts| == 1 {
      SplitWord(parts[0]);
    } else if |parts| >= 2 {
      WordsOfJoin(parts[1..]);
      JoinEmpty(parts[1..]);
      SplitAfterWord(parts[0], Join(" ", parts[1..]));
      assert [parts[0]] + parts[1..] == parts;
    }
  }

  // ---------------------------------------------------------------------------
  // String.valueOf for non-negative ints, and the decimal value of a digit string

  function DigitChar(d: nat): (c: char)
    requires d < 10
  {
    (d + '0' as int) as char
  }

  predicate IsDecimal(s: string) {
    forall i :: 0 <= i < |s| ==> '0' <= s[i] <= '9'
  }

  /** `String.valueOf(n)`: the shortest decimal digit string of `n`. */
  function NatToString(n: nat): (r: string)
    ensures |r| >= 1 && IsDecimal(r)
    ensures n == 0 ==> r == "0"
    ensures n > 0 ==> r[0] != '0'
  {
    if n < 10 then [DigitChar(n)] else NatToString(n / 10) + [DigitChar(n % 10)]
  }

  /** The number a digit string denotes. */
  function DecimalValue(s: string): nat
    requires IsDecimal(s)
  {
    if |s| == 0 then 0 else DecimalValue(s[..|s| - 1]) * 10 + (s[|s| - 1] as int - '0' as int)
  }

  /** Reading back the decimal string gives the number. */
  lemma {:induction false} DecimalValueOfNatToString(n: nat)
    ensures DecimalValue(NatToString(n)) == n
  {
    if n >= 10 {
      var s := NatToString(n / 10);
      DecimalValueOfNatToString(n / 10);
      assert (s + [DigitChar(n % 10)])[..|s|] == s;
    }
  }

  // ---------------------------------------------------------------------------
  // compareToIgnoreCase

  /** Case folding of one character; only the ASCII letters are folded. */
  function FoldChar(c: char): char {
    if 'A' <= c <= 'Z' then (c as int - 'A' as int + 'a' as int) as char else c
  }

  /** Case folding of a whole string, character by character. */
  function Fold(s: string): string {
    if |s| == 0 then "" else [FoldChar(s[0])] + Fold(s[1..])
  }

  /** `a.compareToIgnoreCase(b)`: the difference of the first characters that
      differ after folding, else the difference of the lengths. */
  function CompareToIgnoreCase(a: string, b: string): int {
    if |a| == 0 || |b| == 0 then |a| - |b|
    else if FoldChar(a[0]) != FoldChar(b[0]) then FoldChar(a[0]) as int - FoldChar(b[0]) as int
    else CompareToIgnoreCase(a[1..], b[1..])
  }

  /** Swapping the arguments negates the result. */
  lemma {:induction false} CompareToIgnoreCaseAntisymmetric(a: string, b: string)
    ensures CompareToIgnoreCase(a, b) == -CompareToIgnoreCase(b, a)
  {
    if |a| > 0 && |b| > 0 && FoldChar(a[0]) == FoldChar(b[0]) {
      CompareToIgnoreCaseAntisymmetric(a[1..], b[1..]);
    }
  }

  /** Two names compare equal exactly when they agree after case folding. */
  lemma {:induction false} CompareToIgnoreCaseZero(a: string, b: string)
    ensures CompareToIgnoreCase(a, b) == 0 <==> Fold(a) == Fold(b)
  {
    if |a| > 0 && |b| > 0 {
      assert Fold(a) == [FoldChar(a[0])] + Fold(a[1..]);
      assert Fold(b) == [FoldChar(b[0])] + Fold(b[1..]);
      if FoldChar(a[0]) == FoldChar(b[0]) {
        CompareToIgnoreCaseZero(a[1..], b[1..]);
        if Fold(a) == Fold(b) {
          assert Fold(a)[1..] == Fold(a[1..]) && Fold(b)[1..] == Fold(b[1..]);
        }
      } else {
        assert Fold(a)[0] != Fold(b)[0];
      }
    } else if |a| > 0 {
      assert |Fold(a)| > 0;
    } else if |b| > 0 {
      assert |Fold(b)| > 0;
    }
  }

  lemma {:induction false} CompareToIgnoreCaseTransitive(a: string, b: string, c: string)
    requires CompareToIgnoreCase(a, b) <= 0 && CompareToIgnoreCase(b, c) <= 0
    ensures CompareToIgnoreCase(a, c) <= 0
  {
    if |a| > 0 && |b| > 0 && |c| > 0 && FoldChar(a[0]) == FoldChar(b[0]) && FoldChar(b[0]) == FoldChar(c[0]) {
      CompareToIgnoreCaseTransitive(a[1..], b[1..], c[1..]);
    }
  }
}
