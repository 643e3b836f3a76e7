/** Hexadecimal and decimal text. */
module Hex {
  import opened Json
  import opened Results
  import opened Receipts

  function HexDigit(n: nat): (c: CodeUnit)
    requires n < 16
  {
    if n < 10 then 48 + n else 87 + n
  }

  /** The value of a hex digit, in either case. */
  function HexValue(c: CodeUnit): (v: Option<nat>)
    ensures v.Some? ==> v.value < 16
  {
    if 48 <= c <= 57 then Some(c - 48)
    else if 97 <= c <= 102 then Some(c - 87)
    else if 65 <= c <= 70 then Some(c - 55)
    else None
  }

  predicate IsHex(s: Str) {
    forall i :: 0 <= i < |s| ==> HexValue(s[i]).Some?
  }

  lemma DigitReads(n: nat)
    requires n < 16
    ensures HexValue(HexDigit(n)) == Some(n)
  {
  }

  function ToHex(b: Bytes): (s: Str)
    ensures |s| == 2 * |b|
  {
    if b == [] then [] else [HexDigit(b[0] / 16), HexDigit(b[0] % 16)] + ToHex(b[1..])
  }

  function FromHex(s: Str): (b: Option<Bytes>)
    ensures b.Some? ==> 2 * |b.value| == |s|
  {
    if s == [] then Some([])
    else if |s| == 1 then None
    else
      var hi, lo, rest := HexValue(s[0]), HexValue(s[1]), FromHex(s[2..]);
      if hi.None? || lo.None? || rest.None? then None
      else Some([16 * hi.value + lo.value] + rest.value)
  }

  lemma {:induction false} HexRoundTrip(b: Bytes)
    ensures FromHex(ToHex(b)) == Some(b)
  {
    if b != [] {
      HexRoundTrip(b[1..]);
      var s := ToHex(b);
      assert s[2..] == ToHex(b[1..]);
      DigitReads(b[0] / 16);
      DigitReads(b[0] % 16);
      assert b == [b[0]] + b[1..];
    }
  }

  /** A 32-byte id as text, and read back in either case. */
  function ShowId(id: Bytes32): (s: Str)
    ensures |s| == 66
  {
    [48, 120] + ToHex(id)
  }

  function ParseId(s: Str): Option<Bytes32> {
    if |s| == 66 && s[0] == 48 && s[1] == 120 then
      var b := FromHex(s[2..]);
      if b.Some? then Some(b.value) else None
    else None
  }

  lemma IdRoundTrip(id: Bytes32)
    ensures ParseId(ShowId(id)) == Some(id)
  {
    HexRoundTrip(id);
    assert ShowId(id)[2..] == ToHex(id);
  }

  function Digits(n: nat): (s: NumberText)
    ensures forall i :: 0 <= i < |s| ==> 48 <= s[i] <= 57
  {
    if n < 10 then [48 + n] else Digits(n / 10) + [48 + n % 10]
  }

  lemma {:induction false} DigitsInjective(m: nat, n: nat)
    requires Digits(m) == Digits(n)
    ensures m == n
    decreases m
  {
    var a, b := Digits(m), Digits(n);
    assert a[|a| - 1] == b[|b| - 1];
    if m >= 10 && n >= 10 {
      assert a[..|a| - 1] == Digits(m / 10) && b[..|b| - 1] == Digits(n / 10);
      DigitsInjective(m / 10, n / 10);
    }
  }
}
