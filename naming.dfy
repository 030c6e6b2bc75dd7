/**
 * The staging file-name rules of the extract and transform steps
 * (dags/etl.py): row `i` is written to `extracted_<i>.txt`, the transform
 * step keeps only directory entries ending in `.txt`, and it writes the
 * record read from `name` to `transformed_<name>.json`.
 */
module Naming {
  import opened Wrappers

  const ExtractedPrefix: string := "extracted_"
  const TextSuffix: string := ".txt"
  const TransformedPrefix: string := "transformed_"
  const JsonSuffix: string := ".json"

  // ---------------------------------------------------------------------
  // Python's str(i) on a non-negative int, and its inverse
  // ---------------------------------------------------------------------

  predicate IsDigit(c: char) {
    '0' <= c <= '9'
  }

  function DigitChar(d: nat): (c: char)
    requires d < 10
    ensures IsDigit(c)
  {
    ('0' as int + d) as char
  }

  function DigitValue(c: char): nat
    requires IsDigit(c)
  {
    c as int - '0' as int
  }

  /** The decimal text of `n`: digits only, and no leading zero unless `n` is 0. */
  function Decimal(n: nat): (s: string)
    ensures |s| >= 1
    ensures forall k :: 0 <= k < |s| ==> IsDigit(s[k])
    ensures s[0] == '0' ==> n == 0
    decreases n
  {
    if n < 10 then [DigitChar(n)] else Decimal(n / 10) + [DigitChar(n % 10)]
  }

  /** Reads a non-empty string of decimal digits back as a number (leading zeros allowed). */
  function ParseDecimal(s: string): Option<nat>
    decreases |s|
  {
    if s == [] || !IsDigit(s[|s| - 1]) then None
    else if |s| == 1 then Some(DigitValue(s[0]))
    else
      match ParseDecimal(s[..|s| - 1])
      case None => None
      case Some(p) => Some(10 * p + DigitValue(s[|s| - 1]))
  }

  /** A digit string as str(i) writes it: no leading zero unless it is "0". */
  predicate Canonical(s: string) {
    |s| >= 1 && (s[0] != '0' || |s| == 1)
  }

  lemma {:induction false} ParseDecimalInverts(n: nat)
    ensures ParseDecimal(Decimal(n)) == Some(n)
    decreases n
  {
    if n >= 10 {
      var s := Decimal(n);
      assert s[..|s| - 1] == Decimal(n / 10);
      ParseDecimalInverts(n / 10);
    }
  }

  /** Every canonical digit string is the decimal text of exactly the number it parses to. */
  lemma {:induction false} DecimalOfParse(s: string, n: nat)
    requires Canonical(s) && ParseDecimal(s) == Some(n)
    ensures Decimal(n) == s
    decreases |s|
  {
    if |s| > 1 {
      var p := s[..|s| - 1];
      var m :| ParseDecimal(p) == Some(m);
      assert Canonical(p);
      DecimalOfParse(p, m);
      assert m != 0;
      assert n / 10 == m && n % 10 == DigitValue(s[|s| - 1]);
      assert s == p + [s[|s| - 1]];
    }
  }

  lemma DecimalInjective(m: nat, n: nat)
    ensures Decimal(m) == Decimal(n) <==> m == n
  {
    ParseDecimalInverts(m);
    ParseDecimalInverts(n);
  }

  // ---------------------------------------------------------------------
  // Suffix and prefix tests (str.endswith, str.startswith)
  // ---------------------------------------------------------------------

  predicate EndsWith(s: string, suffix: string) {
    |suffix| <= |s| && s[|s| - |suffix|..] == suffix
  }

  predicate StartsWith(s: string, prefix: string) {
    |prefix| <= |s| && s[..|prefix|] == prefix
  }

  /** The transform step's filter on directory entries. */
  predicate IsTextEntry(name: string) {
    EndsWith(name, TextSuffix)
  }

  // ---------------------------------------------------------------------
  // Extraction artifacts
  // ---------------------------------------------------------------------

  /** The file the extract step writes row `i` to. */
  function ExtractedName(i: nat): string {
    ExtractedPrefix + Decimal(i) + TextSuffix
  }

  /** The row index an extraction artifact name carries, if it has the shape `extracted_<digits>.txt`. */
  function ExtractedIndex(name: string): Option<nat> {
    if StartsWith(name, ExtractedPrefix) && EndsWith(name, TextSuffix)
       && |ExtractedPrefix| + |TextSuffix| <= |name|
    then ParseDecimal(name[|ExtractedPrefix|..|name| - |TextSuffix|])
    else None
  }

  lemma ExtractedIndexInverts(i: nat)
    ensures ExtractedIndex(ExtractedName(i)) == Some(i)
  {
    var name := ExtractedName(i);
    assert name[..|ExtractedPrefix|] == ExtractedPrefix;
    assert name[|name| - |TextSuffix|..] == TextSuffix;
    assert name[|ExtractedPrefix|..|name| - |TextSuffix|] == Decimal(i);
    ParseDecimalInverts(i);
  }

  /** A name whose index is `i` and whose digits are canonical is exactly the name of row `i`. */
  lemma ExtractedIndexSound(name: string, i: nat)
    requires ExtractedIndex(name) == Some(i)
    requires Canonical(name[|ExtractedPrefix|..|name| - |TextSuffix|])
    ensures name == ExtractedName(i)
  {
    var digits := name[|ExtractedPrefix|..|name| - |TextSuffix|];
    DecimalOfParse(digits, i);
    assert name == name[..|ExtractedPrefix|] + digits + name[|name| - |TextSuffix|..];
  }

  /** Distinct rows are written to distinct files. */
  lemma ExtractedNameInjective(i: nat, j: nat)
    ensures ExtractedName(i) == ExtractedName(j) <==> i == j
  {
    ExtractedIndexInverts(i);
    ExtractedIndexInverts(j);
  }

  /** Every extraction artifact passes the transform step's filter. */
  lemma ExtractedNameIsText(i: nat)
    ensures IsTextEntry(ExtractedName(i))
  {
    var name := ExtractedName(i);
    assert name[|name| - |TextSuffix|..] == TextSuffix;
  }

  // ---------------------------------------------------------------------
  // Transformation artifacts
  // ---------------------------------------------------------------------

  /** The file the transform step writes the record read from `name` to. */
  function TransformedName(name: string): string {
    TransformedPrefix + name + JsonSuffix
  }

  /** The entry name a transformation artifact was made from, if it has the shape `transformed_<name>.json`. */
  function TransformedSource(out: string): Option<string> {
    if StartsWith(out, TransformedPrefix) && EndsWith(out, JsonSuffix)
       && |TransformedPrefix| + |JsonSuffix| <= |out|
    then Some(out[|TransformedPrefix|..|out| - |JsonSuffix|])
    else None
  }

  /** Removing the prefix and the suffix recovers the entry name, and nothing else does. */
  lemma TransformedSourceInverts(name: string, out: string)
    ensures TransformedSource(out) == Some(name) <==> out == TransformedName(name)
  {
    if out == TransformedName(name) {
      assert out[..|TransformedPrefix|] == TransformedPrefix;
      assert out[|out| - |JsonSuffix|..] == JsonSuffix;
      assert out[|TransformedPrefix|..|out| - |JsonSuffix|] == name;
    }
    if TransformedSource(out) == Some(name) {
      assert out == out[..|TransformedPrefix|] + name + out[|out| - |JsonSuffix|..];
    }
  }

  lemma TransformedNameInjective(a: string, b: string)
    ensures TransformedName(a) == TransformedName(b) <==> a == b
  {
    TransformedSourceInverts(a, TransformedName(a));
    TransformedSourceInverts(b, TransformedName(b));
  }

  /** Row `i` ends up in `transformed_extracted_<i>.txt.json`. */
  lemma TransformedExtractedName(i: nat)
    ensures TransformedName(ExtractedName(i)) == "transformed_extracted_" + Decimal(i) + ".txt.json"
  {
  }
}
