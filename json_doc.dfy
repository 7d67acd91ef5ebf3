/**
  JSON-style values as the document store and the model layer see them,
  with the few JavaScript coercions the model layer relies on: truthiness,
  `isNaN` on a label, `Number(...)` on a digit string and `toLowerCase`.
*/
module JsonDoc {

  /** A JSON value. Numbers are integers: the model never needs fractions. */
  datatype Json =
    | Null
    | Bool(b: bool)
    | Num(n: int)
    | Str(s: string)
    | Arr(items: seq<Json>)
    | Obj(fields: map<string, Json>)

  /** A document, or an instance's own properties: a map from field name to value. */
  type Doc = map<string, Json>

  /** JavaScript truthiness of a value (`v || dflt` keeps `v` exactly when this holds). */
  predicate Truthy(v: Json) {
    match v
    case Null => false
    case Bool(b) => b
    case Num(n) => n != 0
    case Str(s) => s != ""
    case Arr(_) => true
    case Obj(_) => true
  }

  predicate IsDigit(c: char) {
    '0' <= c <= '9'
  }

  /**
    A label that `isNaN` rejects as not-a-number, restricted to decimal digit
    strings; the empty string is numeric too (`Number("")` is 0).
  */
  predicate IsDigitText(s: string) {
    forall i :: 0 <= i < |s| ==> IsDigit(s[i])
  }

  /** The value `Number(s)` gives a digit string. */
  function DigitsValue(s: string): (v: nat)
    requires IsDigitText(s)
    ensures s == [] ==> v == 0
    ensures |s| == 1 ==> v == s[0] as int - '0' as int
  {
    if s == [] then 0
    else DigitsValue(s[..|s| - 1]) * 10 + (s[|s| - 1] as int - '0' as int)
  }

  /** A digit appended to a digit string: ten times the old value plus the digit's value. */
  lemma DigitsValueAppend(s: string, d: char)
    requires IsDigitText(s) && IsDigit(d)
    ensures IsDigitText(s + [d])
    ensures DigitsValue(s + [d]) == 10 * DigitsValue(s) + (d as int - '0' as int)
  {
    assert (s + [d])[..|s|] == s;
  }

  /** `toLowerCase` on one character, for the ASCII letters. */
  function LowerChar(c: char): (d: char)
    ensures 'A' <= c <= 'Z' ==> d as int == c as int + 32
    ensures !('A' <= c <= 'Z') ==> d == c
  {
    if 'A' <= c <= 'Z' then (c as int + 32) as char else c
  }

  /** `toLowerCase` on a string, character by character. */
  function Lower(s: string): (r: string)
    ensures |r| == |s|
    ensures forall i {:trigger r[i]} :: 0 <= i < |s| ==> r[i] == LowerChar(s[i])
  {
    if s == [] then [] else [LowerChar(s[0])] + Lower(s[1..])
  }

  /** Lower-casing twice is lower-casing once. */
  lemma LowerIdempotent(s: string)
    ensures Lower(Lower(s)) == Lower(s)
  {
  }

  /** A string is a digit string exactly when its lower-cased form is. */
  lemma LowerDigitText(s: string)
    ensures IsDigitText(s) <==> IsDigitText(Lower(s))
  {
    if !IsDigitText(s) {
      var i :| 0 <= i < |s| && !IsDigit(s[i]);
      assert !IsDigit(Lower(s)[i]);
    }
  }

  /** Lower-casing leaves digit strings, and so numeric labels, as they are. */
  lemma LowerKeepsDigits(s: string)
    requires IsDigitText(s)
    ensures Lower(s) == s
  {
  }
}
