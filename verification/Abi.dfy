/** The listing's calldata as it is encoded, and the decoder's rules that read it back. */
module Abi {
  import opened Json
  import opened Results
  import opened Receipts
  import opened Hex

  datatype EncodeError = NegativeValue | TooWide | NotAnAddress | NotBytes32

  type Encoded = Result<Str, EncodeError>

  // ----- Words ------------------------------------------------------------

  /** A number in hex, without leading zeros. */
  function HexOf(n: nat): (s: Str)
    ensures s != [] && IsHex(s)
  {
    if n < 16 then [HexDigit(n)] else HexOf(n / 16) + [HexDigit(n % 16)]
  }

  function ZeroDigits(n: nat): (s: Str)
    ensures |s| == n && forall i :: 0 <= i < n ==> s[i] == 48
  {
    seq(n, _ => 48)
  }

  function PadStart(s: Str, width: nat): Str {
    if |s| >= width then s else ZeroDigits(width - |s|) + s
  }

  function PadEnd(s: Str, width: nat): Str {
    if |s| >= width then s else s + ZeroDigits(width - |s|)
  }

  /** A uint256 as one word. */
  function Word(value: int): Encoded {
    if value < 0 then Failure(NegativeValue)
    else if |HexOf(value)| > 64 then Failure(TooWide)
    else Success(PadStart(HexOf(value), 64))
  }

  function StripPrefix(s: Str): Str {
    if |s| >= 2 && s[0] == 48 && (s[1] == 120 || s[1] == 88) then s[2..] else s
  }

  function Lower(s: Str): (t: Str)
    ensures |t| == |s|
  {
    seq(|s|, i requires 0 <= i < |s| => if 65 <= s[i] <= 90 then s[i] + 32 else s[i])
  }

  function Clean(s: Str): Str {
    Lower(StripPrefix(s))
  }

  function AddressWord(value: Str): Encoded {
    if |Clean(value)| == 40 && IsHex(Clean(value)) then Success(PadStart(Clean(value), 64)) else Failure(NotAnAddress)
  }

  function Bytes32Word(value: Str): Encoded {
    if |Clean(value)| == 64 && IsHex(Clean(value)) then Success(Clean(value)) else Failure(NotBytes32)
  }

  // ----- Strings and the tuple ---------------------------------------------

  /** The bytes of a string are padded to whole words. */
  function Padded(length: nat): nat {
    if length % 32 == 0 then length else (length / 32 + 1) * 32
  }

  function StringTail(bytes: Bytes): Encoded {
    var length :- Word(|bytes|);
    Success(length + PadEnd(ToHex(bytes), 2 * Padded(|bytes|)))
  }

  /** The listing to publish; its two strings are their UTF-8 bytes. */
  datatype Adapter = Adapter(
    agentId: int, kind: int, endpoint: Bytes, schemaRoot: Str, version: int, active: bool,
    payTo: Str, signer: Str, pricePerCall: int, metadataURI: Bytes)

  const HEAD_WORDS := 10

  const SELECTOR: Str := Text("0x0c8f4393")

  function Flatten(words: seq<Str>): Str {
    if words == [] then [] else words[0] + Flatten(words[1..])
  }

  /** The ten head words: the strings are offsets from the start of the tuple. */
  function HeadOf(a: Adapter, endpointSize: nat): Result<seq<Str>, EncodeError> {
    var agentId :- Word(a.agentId);
    var kind :- Word(a.kind);
    var endpointOffset :- Word(HEAD_WORDS * 32);
    var schemaRoot :- Bytes32Word(a.schemaRoot);
    var version :- Word(a.version);
    var active :- Word(if a.active then 1 else 0);
    var payTo :- AddressWord(a.payTo);
    var signer :- AddressWord(a.signer);
    var price :- Word(a.pricePerCall);
    var metadataOffset :- Word(HEAD_WORDS * 32 + endpointSize / 2);
    Success([agentId, kind, endpointOffset, schemaRoot, version, active, payTo, signer, price, metadataOffset])
  }

  function EncodeTuple(a: Adapter): Encoded {
    var endpoint :- StringTail(a.endpoint);
    var metadata :- StringTail(a.metadataURI);
    var head :- HeadOf(a, |endpoint|);
    Success(Flatten(head) + endpoint + metadata)
  }

  /** The calldata: a selector, the offset of the tuple, and the tuple. */
  function EncodeRegisterAdapter(a: Adapter): Encoded {
    var tuple :- EncodeTuple(a);
    var offset :- Word(32);
    Success(SELECTOR + offset + tuple)
  }

  // ----- The decoder's rules -----------------------------------------------

  datatype DecodeError = Truncated | OutsideData | ClaimsTooMany

  type HexText = s: Str | IsHex(s) witness []

  /** The number a run of hex digits spells. */
  function UintOf(s: HexText): nat {
    if s == [] then 0 else 16 * UintOf(s[..|s| - 1]) + HexValue(s[|s| - 1]).value
  }

  function WordAt(body: HexText, index: nat): (w: Result<HexText, DecodeError>)
    ensures w.Success? <==> 64 * index + 64 <= |body|
    ensures w.Success? ==> w.value == body[64 * index..64 * index + 64]
  {
    if |body| < index * 64 + 64 then Failure(Truncated) else Success(body[index * 64..index * 64 + 64])
  }

  function UintAt(body: HexText, index: nat): Result<nat, DecodeError> {
    var w :- WordAt(body, index);
    Success(UintOf(w))
  }

  function AddressAt(body: HexText, index: nat): Result<Str, DecodeError> {
    var w :- WordAt(body, index);
    Success([48, 120] + Lower(w[24..]))
  }

  function Bytes32At(body: HexText, index: nat): Result<Str, DecodeError> {
    var w :- WordAt(body, index);
    Success([48, 120] + Lower(w))
  }

  function ByteAt(body: HexText, start: nat, i: nat): Byte
    requires start + 2 * i + 2 <= |body|
  {
    16 * HexValue(body[start + 2 * i]).value + HexValue(body[start + 2 * i + 1]).value
  }

  function BytesAt(body: HexText, start: nat, length: nat): (b: Bytes)
    requires start + 2 * length <= |body|
    ensures |b| == length && forall i :: 0 <= i < length ==> b[i] == ByteAt(body, start, i)
  {
    seq(length, i requires 0 <= i < length => ByteAt(body, start, i))
  }

  /** The bytes of the string whose head word sits at index. */
  function StringAt(body: HexText, index: nat): (r: Result<Bytes, DecodeError>)
    ensures r.Success? ==> UintAt(body, index).Success? && 2 * UintAt(body, index).value + 64 + 2 * |r.value| <= |body|
  {
    var offset :- UintAt(body, index);
    if offset % 32 != 0 || offset * 2 + 64 > |body| then Failure(OutsideData)
    else
      var length := UintOf(body[offset * 2..offset * 2 + 64]);
      if offset * 2 + 64 + length * 2 > |body| then Failure(ClaimsTooMany)
      else Success(BytesAt(body, offset * 2 + 64, length))
  }

  method DynamicString(body: HexText, index: nat) returns (r: Result<Bytes, DecodeError>)
    ensures r == StringAt(body, index)
  {
    var head := UintAt(body, index);
    if head.Failure? { return Failure(head.error); }
    var offset := head.value;
    if offset % 32 != 0 || offset * 2 + 64 > |body| { return Failure(OutsideData); }
    var length := UintOf(body[offset * 2..offset * 2 + 64]);
    var start := offset * 2 + 64;
    if start + length * 2 > |body| { return Failure(ClaimsTooMany); }
    var bytes := new Byte[length](_ => 0);
    for i := 0 to length
      invariant forall j :: 0 <= j < i ==> bytes[j] == ByteAt(body, start, j)
    {
      bytes[i] := 16 * HexValue(body[start + i * 2]).value + HexValue(body[start + i * 2 + 1]).value;
    }
    assert bytes[..] == BytesAt(body, start, length);
    return Success(bytes[..]);
  }

  // ----- A word reads back -------------------------------------------------

  function Pow16(k: nat): nat {
    if k == 0 then 1 else 16 * Pow16(k - 1)
  }

  lemma {:induction false} HexReads(n: nat)
    ensures UintOf(HexOf(n)) == n
  {
    DigitReads(n % 16);
    if n >= 16 {
      HexReads(n / 16);
      assert HexOf(n)[..|HexOf(n)| - 1] == HexOf(n / 16);
    } else {
      assert HexOf(n)[..0] == [];
    }
  }

  lemma {:induction false} PaddingReads(zeros: nat, s: HexText)
    ensures IsHex(ZeroDigits(zeros) + s) && UintOf(ZeroDigits(zeros) + s) == UintOf(s)
    decreases |s|, zeros
  {
    var padded := ZeroDigits(zeros) + s;
    if s != [] {
      PaddingReads(zeros, s[..|s| - 1]);
      assert padded[..|padded| - 1] == ZeroDigits(zeros) + s[..|s| - 1];
    } else if zeros > 0 {
      PaddingReads(zeros - 1, []);
      assert padded[..|padded| - 1] == ZeroDigits(zeros - 1) + [];
    }
  }

  /** A number fits in a word exactly when it is below 2^256. */
  lemma {:induction false} HexWidth(n: nat, k: nat)
    requires k >= 1
    ensures |HexOf(n)| <= k <==> n < Pow16(k)
  {
    if k == 1 {
      assert Pow16(1) == 16 * Pow16(0);
    } else if n >= 16 {
      HexWidth(n / 16, k - 1);
    } else {
      PowGrows(k);
    }
  }

  lemma {:induction false} PowGrows(k: nat)
    requires k >= 1
    ensures Pow16(k) >= 16
  {
    if k > 1 { PowGrows(k - 1); } else { assert Pow16(1) == 16 * Pow16(0); }
  }

  ghost predicate HoldsUint(w: Str, value: int) {
    |w| == 64 && IsHex(w) && UintOf(w) == value
  }

  lemma WordReads(value: int)
    ensures Word(value).Success? <==> 0 <= value < Pow16(64)
    ensures Word(value).Success? ==> HoldsUint(Word(value).value, value)
  {
    if value >= 0 {
      HexWidth(value, 64);
      HexReads(value);
      if |HexOf(value)| < 64 { PaddingReads(64 - |HexOf(value)|, HexOf(value)); }
    }
  }

  // ----- A string reads back -----------------------------------------------

  lemma {:induction false} ToHexAt(b: Bytes, i: nat)
    requires i < |b|
    ensures ToHex(b)[2 * i] == HexDigit(b[i] / 16) && ToHex(b)[2 * i + 1] == HexDigit(b[i] % 16)
  {
    if i > 0 { ToHexAt(b[1..], i - 1); }
  }

  lemma {:induction false} ToHexIsHex(b: Bytes)
    ensures IsHex(ToHex(b))
  {
    if b != [] {
      ToHexIsHex(b[1..]);
      DigitReads(b[0] / 16);
      DigitReads(b[0] % 16);
    }
  }

  lemma TailSize(bytes: Bytes)
    requires StringTail(bytes).Success?
    ensures var size := |StringTail(bytes).value|;
      size == 64 + 2 * Padded(|bytes|) && 64 + 2 * |bytes| <= size && size % 64 == 0
  {
    WordReads(|bytes|);
    PaddedWhole(|bytes|);
    PadEndSize(ToHex(bytes), 2 * Padded(|bytes|));
    Doubled(Padded(|bytes|));
  }

  lemma PadEndSize(s: Str, width: nat)
    requires |s| <= width
    ensures |PadEnd(s, width)| == width
  {
  }

  lemma Doubled(n: nat)
    requires n % 32 == 0
    ensures (64 + 2 * n) % 64 == 0
  {
  }

  /** A tail is a length word, the bytes in hex, and zeros up to a whole word. */
  lemma TailShape(bytes: Bytes)
    requires StringTail(bytes).Success?
    ensures var tail := StringTail(bytes).value;
      && IsHex(tail) && 64 + |ToHex(bytes)| <= |tail|
      && tail[..64] == Word(|bytes|).value && tail[64..64 + |ToHex(bytes)|] == ToHex(bytes)
  {
    TailSize(bytes);
    WordReads(|bytes|);
    ToHexIsHex(bytes);
    var width := 2 * Padded(|bytes|);
    TailParts(Word(|bytes|).value, ToHex(bytes), ZeroDigits(width - |ToHex(bytes)|));
    PadEndIs(ToHex(bytes), width);
  }

  /** The length, the bytes, and nothing but the zeros that fill the last word. */
  lemma TailIsTight(bytes: Bytes)
    requires StringTail(bytes).Success?
    ensures var tail := StringTail(bytes).value;
      && |tail| % 64 == 0 && 64 + 2 * |bytes| <= |tail| < 128 + 2 * |bytes|
      && forall i :: 64 + 2 * |bytes| <= i < |tail| ==> tail[i] == 48
  {
    TailSize(bytes);
    WordReads(|bytes|);
    PadEndIs(ToHex(bytes), 2 * Padded(|bytes|));
    PaddedTight(|bytes|);
  }

  lemma PaddedTight(n: nat)
    ensures n <= Padded(n) < n + 32
  {
  }

  lemma PadEndIs(s: Str, width: nat)
    requires |s| <= width
    ensures PadEnd(s, width) == s + ZeroDigits(width - |s|)
  {
  }

  lemma PaddedWhole(n: nat)
    ensures n <= Padded(n) && Padded(n) % 32 == 0
  {
  }

  lemma TailParts(length: Str, digits: Str, fill: Str)
    requires |length| == 64 && IsHex(length) && IsHex(digits) && forall i :: 0 <= i < |fill| ==> fill[i] == 48
    ensures var tail := length + (digits + fill);
      IsHex(tail) && tail[..64] == length && tail[64..64 + |digits|] == digits
  {
    var tail := length + (digits + fill);
    forall i | 0 <= i < |tail| ensures HexValue(tail[i]).Some? {
      assert tail[i] ==
        if i < 64 then length[i]
        else if i < 64 + |digits| then digits[i - 64]
        else fill[i - 64 - |digits|];
    }
  }

  lemma ByteReads(body: HexText, start: nat, bytes: Bytes, i: nat)
    requires start + |ToHex(bytes)| <= |body| && i < |bytes|
    requires body[start..start + |ToHex(bytes)|] == ToHex(bytes)
    ensures ByteAt(body, start, i) == bytes[i]
  {
    ToHexAt(bytes, i);
    assert body[start + 2 * i] == body[start..start + |ToHex(bytes)|][2 * i];
    assert body[start + 2 * i + 1] == body[start..start + |ToHex(bytes)|][2 * i + 1];
    DigitReads(bytes[i] / 16);
    DigitReads(bytes[i] % 16);
  }

  /** The tail of a string, at a place in the body. */
  ghost predicate TailAt(body: HexText, at: nat, bytes: Bytes) {
    && StringTail(bytes).Success?
    && at + |StringTail(bytes).value| <= |body|
    && body[at..at + |StringTail(bytes).value|] == StringTail(bytes).value
  }

  lemma TailPlaces(body: HexText, at: nat, bytes: Bytes)
    requires TailAt(body, at, bytes)
    ensures at + 64 + |ToHex(bytes)| <= |body|
    ensures Word(|bytes|) == Success(body[at..at + 64])
    ensures body[at + 64..at + 64 + |ToHex(bytes)|] == ToHex(bytes)
  {
    TailShape(bytes);
    TailSlices(body, StringTail(bytes).value, at, Word(|bytes|).value, ToHex(bytes));
  }

  lemma TailSlices(body: Str, tail: Str, at: nat, length: Str, digits: Str)
    requires at + |tail| <= |body| && body[at..at + |tail|] == tail
    requires |length| == 64 && 64 + |digits| <= |tail| && tail[..64] == length && tail[64..64 + |digits|] == digits
    ensures body[at..at + 64] == length && body[at + 64..at + 64 + |digits|] == digits
  {
    assert forall j :: at <= j < at + |tail| ==> body[j] == tail[j - at];
  }

  /** A string whose head word points at its tail is read back byte for byte. */
  lemma TailReads(body: HexText, index: nat, at: nat, offset: nat, bytes: Bytes)
    requires at == offset * 2 && offset % 32 == 0 && TailAt(body, at, bytes) && UintAt(body, index) == Success(offset)
    ensures StringAt(body, index) == Success(bytes)
  {
    TailPlaces(body, at, bytes);
    WordReads(|bytes|);
    BytesRead(body, at + 64, bytes);
    StringReads(body, index, offset, |bytes|);
  }

  lemma StringReads(body: HexText, index: nat, offset: nat, length: nat)
    requires UintAt(body, index) == Success(offset) && offset % 32 == 0 && offset * 2 + 64 + length * 2 <= |body|
    requires UintOf(body[offset * 2..offset * 2 + 64]) == length
    ensures StringAt(body, index) == Success(BytesAt(body, offset * 2 + 64, length))
  {
  }

  lemma BytesRead(body: HexText, start: nat, bytes: Bytes)
    requires start + |ToHex(bytes)| <= |body| && body[start..start + |ToHex(bytes)|] == ToHex(bytes)
    ensures BytesAt(body, start, |bytes|) == bytes
  {
    forall i | 0 <= i < |bytes| ensures ByteAt(body, start, i) == bytes[i] { ByteReads(body, start, bytes, i); }
  }

  // ----- The tuple reads back ----------------------------------------------

  ghost predicate AreWords(words: seq<Str>) {
    forall i :: 0 <= i < |words| ==> |words[i]| == 64 && IsHex(words[i])
  }

  lemma {:induction false} FlattenShape(words: seq<Str>)
    requires AreWords(words)
    ensures |Flatten(words)| == 64 * |words| && IsHex(Flatten(words))
  {
    if words != [] { FlattenShape(words[1..]); }
  }

  lemma {:induction false} FlattenAt(words: seq<Str>, i: nat)
    requires AreWords(words) && i < |words|
    ensures |Flatten(words)| == 64 * |words|
    ensures Flatten(words)[64 * i..64 * i + 64] == words[i]
  {
    FlattenShape(words);
    FlattenShape(words[1..]);
    if i > 0 {
      FlattenAt(words[1..], i - 1);
      var rest := Flatten(words[1..]);
      assert Flatten(words)[64 * i..64 * i + 64] == rest[64 * (i - 1)..64 * (i - 1) + 64];
    }
  }

  lemma AddressReads(value: Str)
    requires AddressWord(value).Success?
    ensures var w := AddressWord(value).value;
      |w| == 64 && IsHex(w) && Lower(w[24..]) == Clean(value)
  {
    var w := AddressWord(value).value;
    assert w[24..] == Clean(value);
    assert Lower(Clean(value)) == Clean(value);
    assert forall i :: 0 <= i < 24 ==> HexValue(w[i]).Some?;
  }

  ghost predicate HoldsAddress(w: Str, value: Str) {
    |w| == 64 && IsHex(w) && Lower(w[24..]) == Clean(value)
  }

  ghost predicate HoldsBytes32(w: Str, value: Str) {
    |w| == 64 && IsHex(w) && w == Clean(value)
  }

  ghost predicate IdentityHolds(h: seq<Str>, a: Adapter) {
    && |h| == 10
    && HoldsUint(h[0], a.agentId) && HoldsUint(h[1], a.kind)
    && HoldsBytes32(h[3], a.schemaRoot) && HoldsUint(h[4], a.version) && HoldsUint(h[5], if a.active then 1 else 0)
  }

  ghost predicate TermsHold(h: seq<Str>, a: Adapter) {
    && |h| == 10
    && HoldsAddress(h[6], a.payTo) && HoldsAddress(h[7], a.signer) && HoldsUint(h[8], a.pricePerCall)
  }

  ghost predicate OffsetsHold(h: seq<Str>, size: nat) {
    |h| == 10 && HoldsUint(h[2], 320) && HoldsUint(h[9], 320 + size / 2)
  }

  ghost predicate HeadHolds(h: seq<Str>, a: Adapter, size: nat) {
    IdentityHolds(h, a) && TermsHold(h, a) && OffsetsHold(h, size)
  }

  /** The words of a head that encodes. */
  lemma HeadIs(a: Adapter, size: nat)
    requires HeadOf(a, size).Success?
    ensures var h := HeadOf(a, size).value;
      && |h| == 10
      && Word(a.agentId) == Success(h[0]) && Word(a.kind) == Success(h[1]) && Word(HEAD_WORDS * 32) == Success(h[2])
      && Bytes32Word(a.schemaRoot) == Success(h[3]) && Word(a.version) == Success(h[4])
  {
  }

  lemma HeadGoesOn(a: Adapter, size: nat)
    requires HeadOf(a, size).Success?
    ensures var h := HeadOf(a, size).value;
      && |h| == 10
      && Word(if a.active then 1 else 0) == Success(h[5])
      && AddressWord(a.payTo) == Success(h[6]) && AddressWord(a.signer) == Success(h[7])
      && Word(a.pricePerCall) == Success(h[8]) && Word(HEAD_WORDS * 32 + size / 2) == Success(h[9])
  {
  }

  lemma IdentityReads(a: Adapter, size: nat)
    requires HeadOf(a, size).Success?
    ensures IdentityHolds(HeadOf(a, size).value, a)
  {
    HeadIs(a, size);
    HeadGoesOn(a, size);
    WordReads(a.agentId);
    WordReads(a.kind);
    WordReads(a.version);
    WordReads(if a.active then 1 else 0);
  }

  lemma TermsRead(a: Adapter, size: nat)
    requires HeadOf(a, size).Success?
    ensures TermsHold(HeadOf(a, size).value, a)
  {
    HeadGoesOn(a, size);
    AddressReads(a.payTo);
    AddressReads(a.signer);
    WordReads(a.pricePerCall);
  }

  lemma OffsetsRead(a: Adapter, size: nat)
    requires HeadOf(a, size).Success?
    ensures OffsetsHold(HeadOf(a, size).value, size)
  {
    HeadIs(a, size);
    HeadGoesOn(a, size);
    WordReads(HEAD_WORDS * 32);
    WordReads(HEAD_WORDS * 32 + size / 2);
  }

  /** The head holds ten words, each saying what it was given. */
  lemma HeadReads(a: Adapter, size: nat)
    requires HeadOf(a, size).Success?
    ensures HeadHolds(HeadOf(a, size).value, a, size)
  {
    IdentityReads(a, size);
    TermsRead(a, size);
    OffsetsRead(a, size);
  }

  /** Where the parts of a tuple lie. */
  ghost predicate Laid(body: HexText, head: seq<Str>, endpoint: Bytes, metadata: Bytes) {
    && StringTail(endpoint).Success?
    && TailAt(body, 640, endpoint) && TailAt(body, 640 + |StringTail(endpoint).value|, metadata)
    && |head| == 10 && forall i :: 0 <= i < 10 ==> WordAt(body, i) == Success(head[i])
  }

  lemma HeadLaid(head: seq<Str>, rest: Str)
    requires AreWords(head) && |head| == 10 && IsHex(rest)
    ensures var body := Flatten(head) + rest;
      && IsHex(body) && |Flatten(head)| == 640
      && forall i :: 0 <= i < 10 ==> WordAt(body, i) == Success(head[i])
  {
    FlattenShape(head);
    var body := Flatten(head) + rest;
    forall i | 0 <= i < 10 ensures body[64 * i..64 * i + 64] == head[i] {
      FlattenAt(head, i);
      assert body[64 * i..64 * i + 64] == Flatten(head)[64 * i..64 * i + 64];
    }
  }

  lemma TailsLaid(front: Str, endpoint: Str, metadata: Str)
    ensures var body := front + (endpoint + metadata);
      && body[|front|..|front| + |endpoint|] == endpoint
      && body[|front| + |endpoint|..|front| + |endpoint| + |metadata|] == metadata
  {
  }

  lemma BodyLaid(head: seq<Str>, endpoint: Bytes, metadata: Bytes)
    requires AreWords(head) && |head| == 10 && StringTail(endpoint).Success? && StringTail(metadata).Success?
    ensures var body := Flatten(head) + (StringTail(endpoint).value + StringTail(metadata).value);
      IsHex(body) && Laid(body, head, endpoint, metadata)
  {
    TailSize(endpoint);
    TailShape(endpoint);
    TailShape(metadata);
    HeadLaid(head, StringTail(endpoint).value + StringTail(metadata).value);
    TailsLaid(Flatten(head), StringTail(endpoint).value, StringTail(metadata).value);
  }

  lemma TupleIs(a: Adapter) returns (head: seq<Str>)
    requires EncodeTuple(a).Success?
    ensures StringTail(a.endpoint).Success? && StringTail(a.metadataURI).Success?
    ensures HeadOf(a, |StringTail(a.endpoint).value|) == Success(head)
    ensures EncodeTuple(a).value == Flatten(head) + (StringTail(a.endpoint).value + StringTail(a.metadataURI).value)
  {
    head := HeadOf(a, |StringTail(a.endpoint).value|).value;
  }

  lemma TupleLaid(a: Adapter) returns (head: seq<Str>)
    requires EncodeTuple(a).Success?
    ensures IsHex(EncodeTuple(a).value) && Laid(EncodeTuple(a).value, head, a.endpoint, a.metadataURI)
    ensures StringTail(a.endpoint).Success? && HeadHolds(head, a, |StringTail(a.endpoint).value|)
  {
    head := TupleIs(a);
    HeadReads(a, |StringTail(a.endpoint).value|);
    HoldsWords(head, a, |StringTail(a.endpoint).value|);
    BodyLaid(head, a.endpoint, a.metadataURI);
  }

  lemma HoldsWords(h: seq<Str>, a: Adapter, size: nat)
    requires HeadHolds(h, a, size)
    ensures AreWords(h)
  {
  }

  lemma UintReads(body: HexText, index: nat, w: Str, value: int)
    requires HoldsUint(w, value) && WordAt(body, index) == Success(w)
    ensures UintAt(body, index) == Success(value)
  {
  }

  ghost predicate ReadsStatics(body: HexText, a: Adapter) {
    && UintAt(body, 0) == Success(a.agentId) && UintAt(body, 1) == Success(a.kind)
    && Bytes32At(body, 3) == Success([48, 120] + Clean(a.schemaRoot))
    && UintAt(body, 4) == Success(a.version) && UintAt(body, 5) == Success(if a.active then 1 else 0)
    && AddressAt(body, 6) == Success([48, 120] + Clean(a.payTo))
    && AddressAt(body, 7) == Success([48, 120] + Clean(a.signer))
    && UintAt(body, 8) == Success(a.pricePerCall)
  }

  lemma StaticsRead(body: HexText, head: seq<Str>, a: Adapter, size: nat)
    requires HeadHolds(head, a, size) && forall i :: 0 <= i < 10 ==> WordAt(body, i) == Success(head[i])
    ensures ReadsStatics(body, a)
    ensures UintAt(body, 2) == Success(320) && UintAt(body, 9) == Success(320 + size / 2)
  {
    UintReads(body, 0, head[0], a.agentId);
    UintReads(body, 1, head[1], a.kind);
    UintReads(body, 2, head[2], 320);
    assert Lower(head[3]) == head[3];
    UintReads(body, 4, head[4], a.version);
    UintReads(body, 5, head[5], if a.active then 1 else 0);
    UintReads(body, 8, head[8], a.pricePerCall);
    UintReads(body, 9, head[9], 320 + size / 2);
  }

  /** Reading the tuple with the decoder's rules returns every field and the
      bytes of both strings; no bounds check fires, for strings of any length. */
  lemma TupleRoundTrip(a: Adapter)
    requires EncodeTuple(a).Success?
    ensures var body := EncodeTuple(a).value;
      && IsHex(body) && ReadsStatics(body, a)
      && StringAt(body, 2) == Success(a.endpoint)
      && StringAt(body, 9) == Success(a.metadataURI)
  {
    var head := TupleLaid(a);
    var body := EncodeTuple(a).value;
    var size := |StringTail(a.endpoint).value|;
    StaticsRead(body, head, a, size);
    TailSize(a.endpoint);
    SecondReads(body, a.metadataURI, size);
    TailReads(body, 2, 640, 320, a.endpoint);
  }

  lemma SecondReads(body: HexText, metadata: Bytes, size: nat)
    requires size % 64 == 0 && TailAt(body, 640 + size, metadata) && UintAt(body, 9) == Success(320 + size / 2)
    ensures StringAt(body, 9) == Success(metadata)
  {
    Halved(size);
    TailReads(body, 9, 640 + size, 320 + size / 2, metadata);
  }

  lemma Halved(size: nat)
    requires size % 64 == 0
    ensures (320 + size / 2) * 2 == 640 + size && (320 + size / 2) % 32 == 0
  {
  }

  lemma {:induction false} LowerSpells(t: HexText)
    ensures IsHex(Lower(t)) && UintOf(Lower(t)) == UintOf(t)
  {
    assert forall i :: 0 <= i < |t| ==> HexValue(Lower(t)[i]) == HexValue(t[i]);
    if t != [] {
      LowerSpells(t[..|t| - 1]);
      assert Lower(t)[..|t| - 1] == Lower(t[..|t| - 1]);
    }
  }

  /** Forty hex digits, in any case and with or without their prefix, are the
      address they spell; and sixty-four the 32 bytes. */
  lemma TextSpells(t: HexText, prefix: Str)
    requires prefix == [] || prefix == Text("0x") || prefix == Text("0X")
    ensures |t| == 40 ==> AddressWord(prefix + t).Success? && HoldsUint(AddressWord(prefix + t).value, UintOf(t))
    ensures |t| == 64 ==> Bytes32Word(prefix + t).Success? && HoldsUint(Bytes32Word(prefix + t).value, UintOf(t))
  {
    if |t| >= 2 { assert HexValue(t[1]).Some?; }
    assert StripPrefix(prefix + t) == t;
    LowerSpells(t);
    if |t| == 40 { PaddingReads(24, Lower(t)); }
  }

  /** The same listing, however its addresses and its root are cased or prefixed. */
  ghost predicate SameListing(a: Adapter, b: Adapter) {
    && a.agentId == b.agentId && a.kind == b.kind && a.endpoint == b.endpoint
    && Clean(a.schemaRoot) == Clean(b.schemaRoot) && a.version == b.version && a.active == b.active
    && Clean(a.payTo) == Clean(b.payTo) && Clean(a.signer) == Clean(b.signer)
    && a.pricePerCall == b.pricePerCall && a.metadataURI == b.metadataURI
  }

  /** Two encodings agree exactly when they list the same thing. */
  lemma EncodingBinds(a: Adapter, b: Adapter)
    requires EncodeTuple(a).Success? && EncodeTuple(b).Success?
    ensures EncodeTuple(a) == EncodeTuple(b) <==> SameListing(a, b)
  {
    if EncodeTuple(a) == EncodeTuple(b) { EncodedListingsAgree(a, b); }
    if SameListing(a, b) { HeadsAgree(a, b, |StringTail(a.endpoint).value|); }
  }

  lemma EncodedListingsAgree(a: Adapter, b: Adapter)
    requires EncodeTuple(a).Success? && EncodeTuple(a) == EncodeTuple(b)
    ensures SameListing(a, b)
  {
    TupleRoundTrip(a);
    TupleRoundTrip(b);
    StaticsAgree(EncodeTuple(a).value, a, b);
  }

  lemma HeadsAgree(a: Adapter, b: Adapter, size: nat)
    requires SameListing(a, b)
    ensures HeadOf(a, size) == HeadOf(b, size)
  {
  }

  lemma StaticsAgree(body: HexText, a: Adapter, b: Adapter)
    requires ReadsStatics(body, a) && ReadsStatics(body, b)
    ensures a.agentId == b.agentId && a.kind == b.kind && a.version == b.version && a.active == b.active
    ensures a.pricePerCall == b.pricePerCall && Clean(a.schemaRoot) == Clean(b.schemaRoot)
    ensures Clean(a.payTo) == Clean(b.payTo) && Clean(a.signer) == Clean(b.signer)
  {
    CleanReads(a, b);
  }

  lemma CleanReads(a: Adapter, b: Adapter)
    requires [48, 120] + Clean(a.schemaRoot) == [48, 120] + Clean(b.schemaRoot)
    requires [48, 120] + Clean(a.payTo) == [48, 120] + Clean(b.payTo)
    requires [48, 120] + Clean(a.signer) == [48, 120] + Clean(b.signer)
    ensures Clean(a.schemaRoot) == Clean(b.schemaRoot) && Clean(a.payTo) == Clean(b.payTo) &&
      Clean(a.signer) == Clean(b.signer)
  {
    Unprefix(Clean(a.schemaRoot), Clean(b.schemaRoot));
    Unprefix(Clean(a.payTo), Clean(b.payTo));
    Unprefix(Clean(a.signer), Clean(b.signer));
  }

  lemma Unprefix(s: Str, t: Str)
    requires [48, 120] + s == [48, 120] + t
    ensures s == t
  {
    assert s == ([48, 120] + s)[2..] && t == ([48, 120] + t)[2..];
  }

  lemma HeadSucceeds(a: Adapter, size: nat)
    ensures HeadOf(a, size).Success? <==>
      && Word(a.agentId).Success? && Word(a.kind).Success? && Word(HEAD_WORDS * 32).Success?
      && Bytes32Word(a.schemaRoot).Success? && Word(a.version).Success? && Word(if a.active then 1 else 0).Success?
      && AddressWord(a.payTo).Success? && AddressWord(a.signer).Success?
      && Word(a.pricePerCall).Success? && Word(HEAD_WORDS * 32 + size / 2).Success?
  {
  }

  lemma HeadEncodes(a: Adapter, size: nat)
    ensures HeadOf(a, size).Success? <==>
      && Fits(a.agentId) && Fits(a.kind) && Fits(a.version) && Fits(a.pricePerCall) && Fits(320 + size / 2)
      && IsBytes32(a.schemaRoot) && IsAddress(a.payTo) && IsAddress(a.signer)
  {
    HeadSucceeds(a, size);
    WordReads(a.agentId);
    WordReads(a.kind);
    WordReads(a.version);
    WordReads(a.pricePerCall);
    ConstantsFit(a.active);
    WordReads(HEAD_WORDS * 32 + size / 2);
  }

  lemma ConstantsFit(active: bool)
    ensures Word(HEAD_WORDS * 32).Success? && Word(if active then 1 else 0).Success?
  {
    PowBig(64);
    WordReads(HEAD_WORDS * 32);
    WordReads(if active then 1 else 0);
  }

  /** Encoding succeeds exactly when every field has a word to go in. */
  lemma EncodesWhenItFits(a: Adapter)
    ensures EncodeTuple(a).Success? <==>
      && Fits(a.agentId) && Fits(a.kind) && Fits(a.version) && Fits(a.pricePerCall)
      && Fits(|a.endpoint|) && Fits(|a.metadataURI|) && Fits(352 + Padded(|a.endpoint|))
      && IsBytes32(a.schemaRoot) && IsAddress(a.payTo) && IsAddress(a.signer)
  {
    WordReads(|a.endpoint|);
    WordReads(|a.metadataURI|);
    if StringTail(a.endpoint).Success? {
      TailSize(a.endpoint);
      HeadEncodes(a, |StringTail(a.endpoint).value|);
    }
  }

  predicate Fits(value: int) {
    0 <= value < Pow16(64)
  }

  predicate IsBytes32(value: Str) {
    |Clean(value)| == 64 && IsHex(Clean(value))
  }

  predicate IsAddress(value: Str) {
    |Clean(value)| == 40 && IsHex(Clean(value))
  }

  lemma {:induction false} PowBig(k: nat)
    requires k >= 3
    ensures Pow16(k) >= 4096
  {
    if k > 3 {
      PowBig(k - 1);
    } else {
      assert Pow16(3) == 16 * Pow16(2) && Pow16(2) == 16 * Pow16(1) && Pow16(1) == 16 * Pow16(0);
    }
  }

  /** The calldata is a selector, the word 32, and the tuple 32 bytes further on. */
  lemma CalldataHoldsTuple(a: Adapter)
    requires EncodeRegisterAdapter(a).Success?
    ensures EncodeTuple(a).Success?
    ensures var calldata := EncodeRegisterAdapter(a).value;
      && |calldata| >= 74 && calldata[..10] == Text("0x0c8f4393")
      && IsHex(calldata[10..74]) && UintOf(calldata[10..74]) == 32
      && calldata[10 + 2 * 32..] == EncodeTuple(a).value
  {
    WordReads(32);
    var offset, calldata := Word(32).value, EncodeRegisterAdapter(a).value;
    assert calldata == SELECTOR + offset + EncodeTuple(a).value;
    assert calldata[10..74] == offset;
  }
}
