/** JSON values as the whole repository sees them: trees whose strings are
    sequences of UTF-16 code units, as in JavaScript. */
module Json {
  type CodeUnit = c: int | 0 <= c <= 0xFFFF
  type Str = seq<CodeUnit>

  /** The code units of an ASCII literal. */
  function Text(s: string): (t: Str)
    requires forall i :: 0 <= i < |s| ==> s[i] < 128 as char
    ensures |t| == |s|
    ensures forall i :: 0 <= i < |s| ==> t[i] == s[i] as int
  {
    seq(|s|, i requires 0 <= i < |s| => s[i] as int)
  }

  /** A character that can occur in the text of a finite number. */
  predicate NumberUnit(c: CodeUnit) {
    48 <= c <= 57 || c == 43 || c == 45 || c == 46 || c == 101
  }

  /** The shortest round-trip text of a finite number, which identifies it. */
  type NumberText = t: Str | |t| > 0 && forall i :: 0 <= i < |t| ==> NumberUnit(t[i]) witness [48]

  /** A double. Every finite double other than negative zero is named by the
      text `Number::toString` gives it. */
  datatype Double = Finite(shown: NumberText) | NegativeZero | NonFinite

  datatype Field = Field(key: Str, value: Json)

  datatype Json =
    | Null
    | Bool(b: bool)
    | Number(n: Double)
    | String(s: Str)
    | Array(items: seq<Json>)
    | Object(fields: seq<Field>)
}
