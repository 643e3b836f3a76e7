/** Reading UTF-8 back (section 3 of RFC 3629), and what canonical bytes read as. */
module BytesReader {
  import opened Json
  import opened Results
  import opened Receipts
  import opened Unicode
  import opened Canonicalize
  import opened HashJson
  import opened JsonReader

  datatype Character = Character(point: CodePoint, rest: Bytes)

  predicate IsTail(b: int) {
    0x80 <= b <= 0xBF
  }

  /** A scalar value, written with no more bytes than it takes. */
  function Checked(point: nat, least: nat, rest: Bytes): (r: Option<Character>)
    ensures r.Some? ==> r.value.rest == rest
  {
    if least <= point <= 0x10FFFF && !IsHigh(point) && !IsLow(point) then Some(Character(point, rest)) else None
  }

  /** The six bits a byte after the first carries. */
  function Tail(b: int): int {
    b - 0x80
  }

  function Lead(b: int, base: int): int {
    b - base
  }

  function ReadCharacter(b: Bytes): (r: Option<Character>)
    ensures r.Some? ==> |r.value.rest| < |b|
  {
    if |b| >= 1 && b[0] < 0x80 then Checked(b[0], 0, b[1..])
    else if |b| >= 2 && 0xC0 <= b[0] < 0xE0 && IsTail(b[1]) then
      Checked(Lead(b[0], 0xC0) * 0x40 + Tail(b[1]), 0x80, b[2..])
    else if |b| >= 3 && 0xE0 <= b[0] < 0xF0 && IsTail(b[1]) && IsTail(b[2]) then
      Checked(Lead(b[0], 0xE0) * 0x1000 + Tail(b[1]) * 0x40 + Tail(b[2]), 0x800, b[3..])
    else if |b| >= 4 && 0xF0 <= b[0] < 0xF8 && IsTail(b[1]) && IsTail(b[2]) && IsTail(b[3]) then
      Checked(Lead(b[0], 0xF0) * 0x40000 + Tail(b[1]) * 0x1000 + Tail(b[2]) * 0x40 + Tail(b[3]), 0x10000, b[4..])
    else None
  }

  function ReadUtf8(b: Bytes): Option<Points>
    decreases |b|
  {
    if b == [] then Some([])
    else
      var first := ReadCharacter(b);
      if first.None? then None
      else
        var others := ReadUtf8(first.value.rest);
        if others.None? then None else Some([first.value.point] + others.value)
  }

  lemma ReadsPoint(p: CodePoint, x: Bytes)
    requires IsScalar(p)
    ensures ReadCharacter(Utf8Point(p) + x) == Some(Character(p, x))
  {
    var first, whole := Utf8Point(p), Utf8Point(p) + x;
    assert whole[|first|..] == x;
    assert forall i :: 0 <= i < |first| ==> whole[i] == first[i];
    Digits64(p);
  }

  /** What is written as UTF-8 is read back. */
  lemma {:induction false} ReadsUtf8(p: Points)
    requires Scalars(p)
    ensures ReadUtf8(Utf8(p)) == Some(p)
  {
    if p != [] {
      assert IsScalar(p[0]);
      ReadsPoint(p[0], Utf8(p[1..]));
      ReadsUtf8(p[1..]);
      assert p == [p[0]] + p[1..];
    }
  }

  function ReadBytes(b: Bytes): Option<Json> {
    var text := ReadUtf8(b);
    if text.Some? then ReadJson(text.value) else None
  }

  /** The bytes every hash is taken over are UTF-8, and read as a value alike
      to the one hashed, in canonical form. */
  lemma CanonicalBytesRead(v: Json, nfc: Nfc)
    requires IsNormalForm(nfc) && CanonicalBytes(v, nfc).Success?
    ensures var read := ReadBytes(CanonicalBytes(v, nfc).value);
      read.Some? && Alike(v, read.value, nfc) && InCanonicalForm(read.value, nfc)
  {
    CanonicalTextReads(v, nfc);
    TextDecodes(v, nfc);
    TreeOfIsScalar(v, nfc);
    PrintScalars(TreeOf(v, nfc).value);
    ReadsUtf8(Decode(CanonicalText(v, nfc).value));
  }
}
