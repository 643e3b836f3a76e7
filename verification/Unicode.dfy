/** Code units, code points, and the two orders object keys are sorted by. */
module Unicode {
  import opened Json
  import opened Receipts

  type CodePoint = c: int | 0 <= c <= 0x10FFFF
  type Points = seq<CodePoint>

  predicate IsHigh(c: int) {
    0xD800 <= c <= 0xDBFF
  }

  predicate IsLow(c: int) {
    0xDC00 <= c <= 0xDFFF
  }

  predicate IsScalar(c: CodePoint) {
    !IsHigh(c) && !IsLow(c)
  }

  predicate Scalars(p: Points) {
    forall i :: 0 <= i < |p| ==> IsScalar(p[i])
  }

  /** Every surrogate is paired, so the text has a UTF-8 form. */
  predicate WellFormed(s: Str) {
    if s == [] then true
    else if IsHigh(s[0]) then |s| >= 2 && IsLow(s[1]) && WellFormed(s[2..])
    else !IsLow(s[0]) && WellFormed(s[1..])
  }

  function Combine(high: CodeUnit, low: CodeUnit): CodePoint
    requires IsHigh(high) && IsLow(low)
  {
    0x10000 + (high - 0xD800) * 0x400 + (low - 0xDC00)
  }

  /** The code points of a string, a lone surrogate standing for itself. */
  function Decode(s: Str): Points {
    if s == [] then []
    else if IsHigh(s[0]) && |s| >= 2 && IsLow(s[1])
    then [Combine(s[0], s[1])] + Decode(s[2..])
    else [s[0]] + Decode(s[1..])
  }

  function EncodePoint(p: CodePoint): (s: Str)
    ensures 1 <= |s| <= 2
  {
    if p < 0x10000 then [p] else [0xD800 + (p - 0x10000) / 0x400, 0xDC00 + (p - 0x10000) % 0x400]
  }

  function Encode(p: Points): Str {
    if p == [] then [] else EncodePoint(p[0]) + Encode(p[1..])
  }

  // ----- Code units and code points carry the same text --------------------

  lemma {:induction false} ScalarsAreWellFormed(s: Str)
    ensures Scalars(Decode(s)) <==> WellFormed(s)
  {
    if s != [] {
      if IsHigh(s[0]) && |s| >= 2 && IsLow(s[1]) {
        ScalarsAreWellFormed(s[2..]);
        ScalarsOf(Combine(s[0], s[1]), Decode(s[2..]));
      } else {
        ScalarsAreWellFormed(s[1..]);
        ScalarsOf(s[0], Decode(s[1..]));
      }
    }
  }

  lemma ScalarsOf(first: CodePoint, rest: Points)
    ensures Scalars([first] + rest) <==> IsScalar(first) && Scalars(rest)
  {
    var p := [first] + rest;
    if Scalars(p) {
      assert IsScalar(p[0]);
      forall i | 0 <= i < |rest| ensures IsScalar(rest[i]) { assert rest[i] == p[i + 1]; }
    }
  }

  lemma {:induction false} EncodeUndoesDecode(s: Str)
    ensures Encode(Decode(s)) == s
  {
    if s != [] {
      if IsHigh(s[0]) && |s| >= 2 && IsLow(s[1]) {
        EncodeUndoesDecode(s[2..]);
        assert s == [s[0], s[1]] + s[2..];
        assert EncodePoint(Decode(s)[0]) == [s[0], s[1]];
      } else {
        EncodeUndoesDecode(s[1..]);
        assert s == [s[0]] + s[1..];
      }
    }
  }

  lemma {:induction false} DecodeUndoesEncode(p: Points)
    requires Scalars(p)
    ensures Decode(Encode(p)) == p
  {
    if p != [] {
      var first, rest := EncodePoint(p[0]), Encode(p[1..]);
      assert IsScalar(p[0]);
      DecodeUndoesEncode(p[1..]);
      assert (first + rest)[|first|..] == rest;
      assert p == [p[0]] + p[1..];
    }
  }

  lemma {:induction false} EncodeConcatenates(a: Points, b: Points)
    ensures Encode(a + b) == Encode(a) + Encode(b)
  {
    if a == [] {
      assert a + b == b;
    } else {
      EncodeConcatenates(a[1..], b);
      assert (a + b)[0] == a[0] && (a + b)[1..] == a[1..] + b;
      Associate(EncodePoint(a[0]), Encode(a[1..]), Encode(b));
    }
  }

  lemma Associate(a: Str, b: Str, c: Str)
    ensures a + (b + c) == a + b + c
  {
  }

  // ----- Ordering ---------------------------------------------------------

  /** Lexicographic order. */
  predicate LexLe(a: seq<int>, b: seq<int>) {
    a == [] || (b != [] && (a[0] < b[0] || (a[0] == b[0] && LexLe(a[1..], b[1..]))))
  }

  lemma {:induction false} LexTotal(a: seq<int>, b: seq<int>)
    ensures LexLe(a, b) || LexLe(b, a)
  {
    if a != [] && b != [] { LexTotal(a[1..], b[1..]); }
  }

  lemma {:induction false} LexTransitive(a: seq<int>, b: seq<int>, c: seq<int>)
    requires LexLe(a, b) && LexLe(b, c)
    ensures LexLe(a, c)
  {
    if a != [] && a[0] == b[0] && b[0] == c[0] { LexTransitive(a[1..], b[1..], c[1..]); }
  }

  lemma {:induction false} LexAntisymmetric(a: seq<int>, b: seq<int>)
    requires LexLe(a, b) && LexLe(b, a)
    ensures a == b
  {
    if a != [] {
      LexAntisymmetric(a[1..], b[1..]);
      assert a == [a[0]] + a[1..] && b == [b[0]] + b[1..];
    }
  }

  /** Among the code points that take a surrogate pair, both orders agree; so
      the 2^20 pairs stand for those code points in order. */
  lemma PairsKeepOrder(p: CodePoint, q: CodePoint)
    requires 0x10000 <= p && 0x10000 <= q
    ensures |EncodePoint(p)| == 2 && IsHigh(EncodePoint(p)[0]) && IsLow(EncodePoint(p)[1])
    ensures LexLe(EncodePoint(p), EncodePoint(q)) <==> p <= q
  {
    var a, b := EncodePoint(p), EncodePoint(q);
    assert a[1..][0] == a[1] && b[1..][0] == b[1] && a[1..][1..] == [];
    assert LexLe(a[1..], b[1..]) <==> a[1] <= b[1];
  }

  /** The bytes of a string in UTF-16, big end first. */
  function BigEndian(s: Str): Bytes {
    if s == [] then [] else [s[0] / 256, s[0] % 256] + BigEndian(s[1..])
  }

  /** Comparing those bytes is comparing code units. */
  lemma {:induction false} BytesOrderUnits(a: Str, b: Str)
    ensures LexLe(BigEndian(a), BigEndian(b)) <==> LexLe(a, b)
  {
    if a != [] && b != [] {
      BytesOrderUnits(a[1..], b[1..]);
      var x, y := BigEndian(a), BigEndian(b);
      assert x[1..] == [a[0] % 256] + BigEndian(a[1..]) && y[1..] == [b[0] % 256] + BigEndian(b[1..]);
      assert x[1..][1..] == BigEndian(a[1..]) && y[1..][1..] == BigEndian(b[1..]);
      assert a[0] == b[0] <==> a[0] / 256 == b[0] / 256 && a[0] % 256 == b[0] % 256;
    }
  }

  /** Which code-point order is not: an emoji key sorts before U+FFFF. */
  lemma PointOrderDiffers()
    ensures LexLe(Encode([0x1F600]), Encode([0xFFFF])) && !LexLe([0x1F600], [0xFFFF])
  {
    assert Encode([0x1F600]) == EncodePoint(0x1F600) + Encode([]);
    assert Encode([0xFFFF]) == EncodePoint(0xFFFF) + Encode([]);
  }
}
