/** What resolving a template gives: which value a reference reads, and what a
    string, an array and an object with references in them become. */
module TemplateMeaning {
  import opened Json
  import opened Results
  import opened Tokens
  import opened Template
  import Canonicalize
  import Canonical
  import Hex
  import Unicode

  // ----- Indices ----------------------------------------------------------

  function Zeros(n: nat): (s: Str)
    ensures |s| == n && forall i :: 0 <= i < n ==> s[i] == 48
  {
    seq(n, i => 48)
  }

  /** A segment that is k in decimal, leading zeros allowed. */
  ghost predicate Denotes(segment: Str, k: nat) {
    exists z: nat :: segment == Zeros(z) + Hex.Digits(k)
  }

  lemma {:induction false} ZerosAreZero(n: nat)
    ensures Decimal(Zeros(n)) == 0
  {
    if n > 0 {
      ZerosAreZero(n - 1);
      assert Zeros(n)[..n - 1] == Zeros(n - 1);
    }
  }

  lemma {:induction false} DigitsRead(z: nat, k: nat)
    ensures IsIndex(Zeros(z) + Hex.Digits(k)) && Decimal(Zeros(z) + Hex.Digits(k)) == k
    decreases k
  {
    var s := Zeros(z) + Hex.Digits(k);
    if k < 10 {
      ZerosAreZero(z);
      assert s[..|s| - 1] == Zeros(z);
    } else {
      DigitsRead(z, k / 10);
      assert s[..|s| - 1] == Zeros(z) + Hex.Digits(k / 10);
    }
  }

  lemma {:induction false} IndexDenotes(s: Str)
    requires IsIndex(s)
    ensures Denotes(s, Decimal(s))
  {
    var front, d := s[..|s| - 1], s[|s| - 1] - 48;
    assert IsDigit(s[|s| - 1]) && s == front + [48 + d];
    if front == [] {
      OneDigit(d);
    } else {
      IndexDenotes(front);
      OneMoreDigit(front, Decimal(front), d);
    }
  }

  lemma OneDigit(d: nat)
    requires d < 10
    ensures Denotes([48 + d], Decimal([48 + d]))
  {
    assert Decimal([48 + d][..0]) == 0;
    assert Decimal([48 + d]) == d;
    assert [48 + d] == Zeros(0) + Hex.Digits(d);
  }

  lemma OneMoreDigit(s: Str, k: nat, d: nat)
    requires Denotes(s, k) && d < 10
    ensures Denotes(s + [48 + d], 10 * k + d)
  {
    var z: nat :| s == Zeros(z) + Hex.Digits(k);
    if k == 0 {
      assert s + [48 + d] == Zeros(z + 1) + Hex.Digits(d);
    } else {
      assert s + [48 + d] == Zeros(z) + Hex.Digits(10 * k + d);
    }
  }

  // ----- Reading a value --------------------------------------------------

  /** x is the item or the field of a value that a segment names. */
  ghost predicate Child(value: Json, segment: Str, x: Json) {
    match value
    case Array(items) => exists k: nat :: k < |items| && Denotes(segment, k) && items[k] == x
    case Object(fields) => exists j :: FirstField(fields, segment, j) && fields[j].value == x
    case _ => false
  }

  ghost predicate FirstField(fields: seq<Field>, key: Str, j: int) {
    0 <= j < |fields| && fields[j].key == key && forall i :: 0 <= i < j ==> fields[i].key != key
  }

  lemma {:induction false} FieldFound(fields: seq<Field>, key: Str, j: int)
    ensures FieldIndex(fields, key) < |fields| ==> FirstField(fields, key, FieldIndex(fields, key))
    ensures FirstField(fields, key, j) ==> FieldIndex(fields, key) == j
  {
    if fields != [] && fields[0].key != key {
      var rest := fields[1..];
      assert forall i :: 0 <= i < |rest| ==> rest[i] == fields[i + 1];
      FieldFound(rest, key, j - 1);
    }
  }

  lemma SegmentReadsChild(value: Json, segment: Str, x: Json)
    ensures ReadSegment(value, segment) == Success(x) <==> Child(value, segment, x)
  {
    match value
    case Array(items) =>
      if IsIndex(segment) { IndexDenotes(segment); }
      forall k: nat | Denotes(segment, k) ensures IsIndex(segment) && Decimal(segment) == k {
        var z: nat :| segment == Zeros(z) + Hex.Digits(k);
        DigitsRead(z, k);
      }
    case Object(fields) =>
      FieldFound(fields, segment, 0);
      forall j | FirstField(fields, segment, j) ensures FieldIndex(fields, segment) == j {
        FieldFound(fields, segment, j);
      }
    case _ =>
  }

  ghost predicate Chain(chain: seq<Json>, path: seq<Str>) {
    && |chain| == |path| + 1
    && forall i :: 0 <= i < |path| ==> Child(chain[i], path[i], chain[i + 1])
  }

  /** Following the path from root, child by child, leads to v. */
  ghost predicate Leads(root: Json, path: seq<Str>, v: Json) {
    exists chain :: Chain(chain, path) && chain[0] == root && chain[|path|] == v
  }

  lemma {:induction false} TraversalIsChain(root: Json, path: seq<Str>) returns (chain: seq<Json>)
    requires Traverse(root, path).Success?
    ensures Chain(chain, path) && chain[0] == root && chain[|path|] == Traverse(root, path).value
  {
    if path == [] {
      chain := [root];
    } else {
      var next := ReadSegment(root, path[0]).value;
      SegmentReadsChild(root, path[0], next);
      var rest := TraversalIsChain(next, path[1..]);
      chain := [root] + rest;
      assert forall i :: 0 <= i < |path| ==> chain[i + 1] == rest[i];
      assert forall i :: 0 < i < |path| ==> path[i] == path[1..][i - 1] && chain[i] == rest[i - 1];
    }
  }

  lemma {:induction false} ChainIsTraversal(chain: seq<Json>, path: seq<Str>)
    requires Chain(chain, path)
    ensures Traverse(chain[0], path) == Success(chain[|path|])
    decreases |path|
  {
    if path != [] {
      SegmentReadsChild(chain[0], path[0], chain[1]);
      assert Child(chain[0], path[0], chain[0 + 1]);
      ChainTail(chain, path);
      ChainIsTraversal(chain[1..], path[1..]);
    }
  }

  lemma ChainTail(chain: seq<Json>, path: seq<Str>)
    requires Chain(chain, path) && path != []
    ensures Chain(chain[1..], path[1..])
  {
    var rest, tail := chain[1..], path[1..];
    forall i | 0 <= i < |tail| ensures Child(rest[i], tail[i], rest[i + 1]) {
      assert Child(chain[i + 1], path[i + 1], chain[i + 1 + 1]);
    }
  }

  lemma TraversalLeads(root: Json, path: seq<Str>, v: Json)
    ensures Traverse(root, path) == Success(v) <==> Leads(root, path, v)
  {
    if Traverse(root, path) == Success(v) { var chain := TraversalIsChain(root, path); }
    if Leads(root, path, v) {
      var chain :| Chain(chain, path) && chain[0] == root && chain[|path|] == v;
      ChainIsTraversal(chain, path);
    }
  }

  // ----- The text of a reference --------------------------------------------

  ghost predicate Blank(s: Str) {
    forall i :: 0 <= i < |s| ==> IsSpace(s[i])
  }

  ghost predicate AllSegments(path: seq<Str>) {
    forall i :: 0 <= i < |path| ==> IsSegment(path[i])
  }

  /** A letter, a digit, an underscore or a hyphen. */
  predicate IsNameUnit(c: CodeUnit) {
    || 'A' as int <= c <= 'Z' as int || 'a' as int <= c <= 'z' as int || '0' as int <= c <= '9' as int
    || c == '_' as int || c == '-' as int
  }

  /** The names a path can be made of. */
  lemma SegmentsAreNames(s: Str)
    ensures IsSegment(s) <==> s != [] && forall i :: 0 <= i < |s| ==> IsNameUnit(s[i])
  {
  }

  /** The white space and line terminators of ECMAScript. */
  const WHITE: set<int> := {
    0x09, 0x0A, 0x0B, 0x0C, 0x0D, 0x20, 0xA0, 0x1680, 0x2000, 0x2001, 0x2002, 0x2003, 0x2004, 0x2005, 0x2006, 0x2007,
    0x2008, 0x2009, 0x200A, 0x2028, 0x2029, 0x202F, 0x205F, 0x3000, 0xFEFF}

  lemma BlankIsWhite(s: Str)
    ensures Blank(s) <==> forall i :: 0 <= i < |s| ==> s[i] in WHITE
  {
  }

  function Dotted(path: seq<Str>): Str
    requires path != []
  {
    if |path| == 1 then path[0] else path[0] + [46] + Dotted(path[1..])
  }

  /** The expression is this path of two or more names joined by dots, with
      white space around it. */
  ghost predicate Refers(expression: Str, path: seq<Str>) {
    && |path| >= 2 && AllSegments(path)
    && exists before, after :: Blank(before) && Blank(after) && expression == before + Dotted(path) + after
  }

  lemma {:induction false} TrimKeeps(s: Str) returns (before: Str, after: Str)
    ensures Blank(before) && Blank(after) && s == before + Trim(s) + after
    decreases |s|
  {
    if s != [] && IsSpace(s[0]) {
      before, after := TrimKeeps(s[1..]);
      before := [s[0]] + before;
      assert s == [s[0]] + s[1..];
    } else if s != [] && IsSpace(s[|s| - 1]) {
      before, after := TrimKeeps(s[..|s| - 1]);
      var t := Trim(s);
      after := after + [s[|s| - 1]];
      assert s == s[..|s| - 1] + [s[|s| - 1]];
    } else {
      before, after := [], [];
    }
  }

  lemma {:induction false} TrimStrips(before: Str, t: Str, after: Str)
    requires Blank(before) && Blank(after) && t != [] && !IsSpace(t[0]) && !IsSpace(t[|t| - 1])
    ensures Trim(before + t + after) == t
    decreases |before| + |after|
  {
    var s := before + t + after;
    if before != [] {
      assert s[0] == before[0] && s[1..] == before[1..] + t + after;
      TrimStrips(before[1..], t, after);
    } else if after != [] {
      assert s[0] == t[0] && s[|s| - 1] == after[|after| - 1];
      assert s[..|s| - 1] == before + t + after[..|after| - 1];
      TrimStrips(before, t, after[..|after| - 1]);
    } else {
      assert s == t;
    }
  }

  lemma {:induction false} SplitRejoins(s: Str)
    ensures Dotted(SplitDots(s)) == s
    decreases |s|
  {
    var d := NextDot(s, 0);
    if d < |s| {
      SplitRejoins(s[d + 1..]);
      var rest := SplitDots(s[d + 1..]);
      assert ([s[..d]] + rest)[1..] == rest;
      NextDotIsDot(s, 0);
      assert s == s[..d] + [46] + s[d + 1..];
    }
  }

  lemma {:induction false} NextDotIsDot(s: Str, i: nat)
    requires i <= |s|
    ensures var j := NextDot(s, i); (j < |s| ==> s[j] == 46) && forall k :: i <= k < j ==> s[k] != 46
    decreases |s| - i
  {
    if i < |s| && s[i] != DOT { NextDotIsDot(s, i + 1); }
  }

  lemma NextDotAt(s: Str, j: nat)
    requires j <= |s| && (j < |s| ==> s[j] == 46) && forall k :: 0 <= k < j ==> s[k] != 46
    ensures NextDot(s, 0) == j
  {
    NextDotIsDot(s, 0);
  }

  lemma {:induction false} SplitUndoesDots(path: seq<Str>)
    requires path != [] && AllSegments(path)
    ensures SplitDots(Dotted(path)) == path
    decreases |path|
  {
    var s, first := Dotted(path), path[0];
    assert forall k :: 0 <= k < |first| ==> s[k] == first[k] && IsSegmentUnit(first[k]);
    NextDotAt(s, |first|);
    if |path| > 1 {
      SplitUndoesDots(path[1..]);
      assert s[|first| + 1..] == Dotted(path[1..]) && s[..|first|] == first;
      assert path == [first] + path[1..];
    } else {
      assert path == [first];
    }
  }

  lemma {:induction false} DottedEnds(path: seq<Str>)
    requires path != [] && AllSegments(path)
    ensures var s := Dotted(path); s != [] && !IsSpace(s[0]) && !IsSpace(s[|s| - 1])
    decreases |path|
  {
    assert IsSegment(path[0]) && IsSegmentUnit(path[0][0]) && IsSegmentUnit(path[0][|path[0]| - 1]);
    if |path| > 1 {
      DottedEnds(path[1..]);
      assert Dotted(path)[0] == path[0][0];
    }
  }

  lemma ParsesExactly(expression: Str, path: seq<Str>)
    ensures ParsePath(expression) == Success(path) <==> Refers(expression, path)
  {
    if ParsePath(expression) == Success(path) {
      var before, after := TrimKeeps(expression);
      SplitRejoins(Trim(expression));
    }
    if Refers(expression, path) {
      var before, after :| Blank(before) && Blank(after) && expression == before + Dotted(path) + after;
      DottedEnds(path);
      TrimStrips(before, Dotted(path), after);
      SplitUndoesDots(path);
    }
  }

  /** The path starts at the run's inputs, or at the output of a step. */
  ghost predicate ReadsFrom(context: Context, path: seq<Str>, v: Json)
    requires |path| >= 2
  {
    || (path[0] == Text("inputs") && Leads(context.inputs, path[1..], v))
    || (path[0] == Text("steps") && |path| >= 3 && path[2] == Text("output") && path[1] in context.outputs
        && Leads(context.outputs[path[1]], path[3..], v))
  }

  /** A reference reads v. */
  ghost predicate Reads(expression: Str, context: Context, v: Json) {
    exists path :: Refers(expression, path) && ReadsFrom(context, path, v)
  }

  /** A reference resolves to exactly the value its path leads to. */
  lemma ReadsExactly(expression: Str, context: Context, v: Json)
    ensures ResolveExpression(expression, context) == Success(v) <==> Reads(expression, context, v)
  {
    assert |Text("inputs")| != |Text("steps")|;
    if ResolveExpression(expression, context) == Success(v) {
      var path := ParsePath(expression).value;
      ParsesExactly(expression, path);
      PathReads(path, context, v);
    }
    if Reads(expression, context, v) {
      var path :| Refers(expression, path) && ReadsFrom(context, path, v);
      ParsesExactly(expression, path);
      PathReads(path, context, v);
    }
  }

  lemma PathReads(path: seq<Str>, context: Context, v: Json)
    requires |path| >= 2
    ensures ResolvePath(path, context) == Success(v) <==> ReadsFrom(context, path, v)
  {
    assert |Text("inputs")| != |Text("steps")|;
    TraversalLeads(context.inputs, path[1..], v);
    if |path| >= 3 && path[1] in context.outputs { TraversalLeads(context.outputs[path[1]], path[3..], v); }
  }

  // ----- A reference inside a text --------------------------------------------

  /** How a value reads inside a text. */
  ghost predicate Shows(value: Json, text: Str) {
    match value
    case Null => text == Text("null")
    case Bool(b) => text == if b then Text("true") else Text("false")
    case Number(Finite(shown)) => text == shown
    case Number(NegativeZero) => text == Text("0")
    case String(s) => text == s
    case _ => false
  }

  lemma ShowsExactly(value: Json, text: Str)
    ensures RenderScalar(value) == Success(text) <==> Shows(value, text)
  {
  }

  /** Apart from strings, which stand as they are, that is its canonical text. */
  lemma ShowsCanonically(value: Json, text: Str, nfc: Canonicalize.Nfc)
    requires value.Null? || value.Bool? || value.Number?
    ensures RenderScalar(value) == Success(text) <==> Canonicalize.CanonicalText(value, nfc) == Success(text)
  {
    if Canonicalize.TreeOf(value, nfc).Success? {
      ScalarPrints(value, nfc);
      UnitsEncode(Canonical.Print(Canonicalize.TreeOf(value, nfc).value));
    }
  }

  lemma ScalarPrints(value: Json, nfc: Canonicalize.Nfc)
    requires value.Null? || value.Bool? || value.Number?
    requires Canonicalize.TreeOf(value, nfc).Success?
    ensures RenderScalar(value).Success?
    ensures Canonical.Print(Canonicalize.TreeOf(value, nfc).value) == RenderScalar(value).value
  {
  }

  lemma {:induction false} UnitsEncode(p: Unicode.Points)
    requires forall i :: 0 <= i < |p| ==> p[i] < 0x10000
    ensures Unicode.Encode(p) == p
  {
    if p != [] {
      UnitsEncode(p[1..]);
      assert p == [p[0]] + p[1..];
    }
  }

  /** What a token contributes to the text: itself, or what its reference shows. */
  ghost predicate Contributes(token: Token, context: Context, text: Str) {
    match token
    case Literal(own) => text == own
    case Expr(e) => exists v :: Reads(e, context, v) && Shows(v, text)
  }

  lemma RendersExactly(token: Token, context: Context, text: Str)
    ensures RenderToken(token, context) == Success(text) <==> Contributes(token, context, text)
  {
    match token
    case Literal(_) =>
    case Expr(e) =>
      var value := ResolveExpression(e, context);
      if value.Success? { ReadsExactly(e, context, value.value); ShowsExactly(value.value, text); }
      forall v | Reads(e, context, v) ensures value == Success(v) { ReadsExactly(e, context, v); }
  }

  function Concat(parts: seq<Str>): Str {
    if parts == [] then [] else parts[0] + Concat(parts[1..])
  }

  ghost predicate Parts(tokens: seq<Token>, context: Context, parts: seq<Str>) {
    |parts| == |tokens| && forall i :: 0 <= i < |tokens| ==> Contributes(tokens[i], context, parts[i])
  }

  lemma {:induction false} RenderedIsParts(tokens: seq<Token>, context: Context) returns (parts: seq<Str>)
    requires RenderTokens(tokens, context).Success?
    ensures Parts(tokens, context, parts) && RenderTokens(tokens, context).value == Concat(parts)
  {
    if tokens == [] {
      parts := [];
    } else {
      var first := RenderToken(tokens[0], context).value;
      RendersExactly(tokens[0], context, first);
      var rest := RenderedIsParts(tokens[1..], context);
      parts := [first] + rest;
      assert parts[1..] == rest;
      assert forall i :: 0 < i < |tokens| ==> tokens[i] == tokens[1..][i - 1] && parts[i] == rest[i - 1];
    }
  }

  lemma {:induction false} PartsAreRendered(tokens: seq<Token>, context: Context, parts: seq<Str>)
    requires Parts(tokens, context, parts)
    ensures RenderTokens(tokens, context) == Success(Concat(parts))
    decreases |tokens|
  {
    if tokens != [] {
      assert Contributes(tokens[0], context, parts[0]);
      RendersExactly(tokens[0], context, parts[0]);
      assert forall i :: 0 <= i < |tokens[1..]| ==> tokens[1..][i] == tokens[i + 1] && parts[1..][i] == parts[i + 1];
      PartsAreRendered(tokens[1..], context, parts[1..]);
    }
  }

  ghost predicate IsReading(s: Str, tokens: seq<Token>) {
    Reading(tokens) && Join(tokens) == s
  }

  /** A string read as its tokens becomes, when it is one reference, the value
      that reference reads; otherwise the text that its tokens contribute, in
      order. It resolves to nothing else. */
  lemma StringMeans(s: Str, tokens: seq<Token>, context: Context, v: Json)
    requires IsReading(s, tokens)
    ensures Resolve(String(s), context) == Success(v) <==>
      if |tokens| == 1 && tokens[0].Expr? then Reads(tokens[0].expression, context, v)
      else exists parts :: Parts(tokens, context, parts) && v == String(Concat(parts))
  {
    TokenizeIsTheOnlyReading(s, tokens);
    if |tokens| == 1 && tokens[0].Expr? {
      ReadsExactly(tokens[0].expression, context, v);
    } else {
      if Resolve(String(s), context) == Success(v) {
        var parts := RenderedIsParts(tokens, context);
        if tokens == [] { assert Concat(parts) == s; }
      }
      forall parts | Parts(tokens, context, parts)
        ensures Resolve(String(s), context) == Success(String(Concat(parts)))
      {
        PartsAreRendered(tokens, context, parts);
        if tokens == [] { assert Concat(parts) == s; }
      }
    }
  }

  /** A string with no reading does not resolve. */
  lemma UnreadableFails(s: Str, context: Context)
    ensures (forall tokens :: !IsReading(s, tokens)) <==> Resolve(String(s), context) == Failure(Unbalanced)
  {
    if Tokenize(s).Some? {
      TokenizeIsTheOnlyReading(s, Tokenize(s).value);
      assert IsReading(s, Tokenize(s).value);
      NeverUnbalanced(Tokenize(s).value, context);
    }
    forall tokens | IsReading(s, tokens) ensures Tokenize(s) == Some(tokens) {
      TokenizeIsTheOnlyReading(s, tokens);
    }
  }

  lemma {:induction false} TraversalIsBalanced(root: Json, path: seq<Str>)
    ensures Traverse(root, path) != Failure(Unbalanced)
  {
    if path != [] && ReadSegment(root, path[0]).Success? {
      TraversalIsBalanced(ReadSegment(root, path[0]).value, path[1..]);
    }
  }

  lemma ExpressionIsBalanced(expression: Str, context: Context)
    ensures ResolveExpression(expression, context) != Failure(Unbalanced)
  {
    if ParsePath(expression).Success? {
      var path := ParsePath(expression).value;
      TraversalIsBalanced(context.inputs, path[1..]);
      if |path| >= 3 && path[1] in context.outputs { TraversalIsBalanced(context.outputs[path[1]], path[3..]); }
    }
  }

  lemma {:induction false} NeverUnbalanced(tokens: seq<Token>, context: Context)
    ensures RenderTokens(tokens, context) != Failure(Unbalanced)
    ensures |tokens| == 1 && tokens[0].Expr? ==> ResolveExpression(tokens[0].expression, context) != Failure(Unbalanced)
  {
    if tokens != [] {
      if tokens[0].Expr? { ExpressionIsBalanced(tokens[0].expression, context); }
      NeverUnbalanced(tokens[1..], context);
    }
  }

  // ----- Substituting a text for itself ----------------------------------------

  /** Every reference reads the string of its own source text. */
  ghost predicate NamesItself(tokens: seq<Token>, context: Context) {
    forall i :: 0 <= i < |tokens| && tokens[i].Expr? ==>
      Reads(tokens[i].expression, context, String([123, 123] + tokens[i].expression + [125, 125]))
  }

  /** Where each reference reads as its own source text, a string of more than
      a lone reference resolves to itself. */
  lemma IdentitySubstitution(s: Str, tokens: seq<Token>, context: Context)
    requires IsReading(s, tokens) && NamesItself(tokens, context) && !(|tokens| == 1 && tokens[0].Expr?)
    ensures Resolve(String(s), context) == Success(String(s))
  {
    var parts := Sources(tokens);
    forall i | 0 <= i < |tokens| ensures Contributes(tokens[i], context, parts[i]) {
      if tokens[i].Expr? { assert Shows(String(parts[i]), parts[i]); }
    }
    SourcesJoin(tokens);
    StringMeans(s, tokens, context, String(s));
  }

  function Sources(tokens: seq<Token>): (parts: seq<Str>)
    ensures |parts| == |tokens| && forall i :: 0 <= i < |tokens| ==> parts[i] == Source(tokens[i])
  {
    seq(|tokens|, i requires 0 <= i < |tokens| => Source(tokens[i]))
  }

  lemma {:induction false} SourcesJoin(tokens: seq<Token>)
    ensures Concat(Sources(tokens)) == Join(tokens)
  {
    if tokens != [] {
      SourcesJoin(tokens[1..]);
      assert Sources(tokens)[1..] == Sources(tokens[1..]);
    }
  }

  // ----- Values without references, arrays and objects ----------------------------

  /** No string of the value holds a brace, and no key does. */
  ghost predicate Plain(value: Json) {
    match value
    case String(s) => BraceFree(s)
    case Array(items) => forall i :: 0 <= i < |items| ==> Plain(items[i])
    case Object(fields) => forall i :: 0 <= i < |fields| ==> BraceFree(fields[i].key) && Plain(fields[i].value)
    case _ => true
  }

  /** An array resolves item by item. */
  lemma ArrayMeans(items: seq<Json>, context: Context, v: Json)
    ensures Resolve(Array(items), context) == Success(v) <==>
      && v.Array? && |v.items| == |items|
      && forall i :: 0 <= i < |items| ==> Resolve(items[i], context) == Success(v.items[i])
  {
    if v.Array? { ItemsMean(items, context, v.items); }
  }

  lemma {:induction false} ItemsMean(items: seq<Json>, context: Context, out: seq<Json>)
    ensures ResolveItems(items, context) == Success(out) <==>
      |out| == |items| && forall i :: 0 <= i < |items| ==> Resolve(items[i], context) == Success(out[i])
    decreases |items|
  {
    if items != [] && out != [] {
      ItemsMean(items[1..], context, out[1..]);
      assert out == [out[0]] + out[1..];
      assert forall i :: 0 < i < |items| ==> items[i] == items[1..][i - 1];
      assert forall i :: 0 < i < |out| ==> out[i] == out[1..][i - 1];
    }
  }

  /** An object keeps its keys in order and resolves field by field; a key with
      an opening pair of braces is refused. */
  lemma ObjectMeans(fields: seq<Field>, context: Context, v: Json)
    ensures Resolve(Object(fields), context) == Success(v) <==>
      && v.Object? && |v.fields| == |fields|
      && forall i :: 0 <= i < |fields| ==> FieldMeans(fields[i], context, v.fields[i])
  {
    if v.Object? { FieldsMean(fields, context, v.fields); }
  }

  ghost predicate FieldMeans(field: Field, context: Context, out: Field) {
    && out.key == field.key && Resolve(field.value, context) == Success(out.value)
    && forall i: nat :: i + 1 < |field.key| ==> !(field.key[i] == 123 && field.key[i + 1] == 123)
  }

  lemma KeyIsFree(key: Str)
    ensures Contains(key, OPEN) <==> exists i: nat :: i + 1 < |key| && key[i] == 123 && key[i + 1] == 123
  {
    if Contains(key, OPEN) {
      var i: nat :| i < |key| && PairAt(key, i, OPEN);
      assert i + 1 < |key| && key[i] == 123 && key[i + 1] == 123;
    }
    if exists i: nat :: i + 1 < |key| && key[i] == 123 && key[i + 1] == 123 {
      var i: nat :| i + 1 < |key| && key[i] == 123 && key[i + 1] == 123;
      assert PairAt(key, i, OPEN);
    }
  }

  lemma {:induction false} FieldsMean(fields: seq<Field>, context: Context, out: seq<Field>)
    ensures ResolveFields(fields, context) == Success(out) <==>
      |out| == |fields| && forall i :: 0 <= i < |fields| ==> FieldMeans(fields[i], context, out[i])
    decreases |fields|
  {
    if fields != [] && out != [] {
      FieldsMean(fields[1..], context, out[1..]);
      KeyIsFree(fields[0].key);
      assert out == [out[0]] + out[1..];
      assert out[0] == Field(out[0].key, out[0].value);
      assert forall i :: 0 < i < |fields| ==> fields[i] == fields[1..][i - 1];
      assert forall i :: 0 < i < |out| ==> out[i] == out[1..][i - 1];
    }
  }

  /** A value without braces resolves to itself. */
  lemma {:induction false} PlainStays(value: Json, context: Context)
    requires Plain(value)
    ensures Resolve(value, context) == Success(value)
    decreases value
  {
    match value
    case String(s) =>
      var tokens := if s == [] then [] else [Literal(s)];
      assert Join(tokens) == s && Reading(tokens);
      IdentitySubstitution(s, tokens, context);
    case Array(items) =>
      forall i | 0 <= i < |items| ensures Resolve(items[i], context) ==
        Success(items[i]) { PlainStays(items[i], context); }
      ArrayMeans(items, context, value);
    case Object(fields) =>
      forall i | 0 <= i < |fields| ensures FieldMeans(fields[i], context, fields[i]) {
        PlainStays(fields[i].value, context);
      }
      ObjectMeans(fields, context, value);
    case _ =>
  }

  // ----- What is put at a path is read there ----------------------------------

  /** A place in a value: a field or an item. */
  datatype Place = Name(key: Str) | Index(i: nat)

  function SegmentOf(place: Place): Str {
    match place
    case Name(key) => key
    case Index(i) => Hex.Digits(i)
  }

  function Segments(path: seq<Place>): (segments: seq<Str>)
    ensures |segments| == |path| && forall i :: 0 <= i < |path| ==> segments[i] == SegmentOf(path[i])
  {
    seq(|path|, i requires 0 <= i < |path| => SegmentOf(path[i]))
  }

  /** The value with v at this path of it, whatever was there. */
  function Put(root: Json, path: seq<Place>, v: Json): Json
    decreases |path|
  {
    if path == [] then v
    else
      match path[0]
      case Name(key) =>
        var fields := if root.Object? then root.fields else [];
        Object([Field(key, Put(Null, path[1..], v))] + fields)
      case Index(i) =>
        var items := if root.Array? then root.items else [];
        if i < |items| then Array(items[i := Put(items[i], path[1..], v)])
        else Array(items + seq(i - |items|, k => Null) + [Put(Null, path[1..], v)])
  }

  lemma {:induction false} PutThenTraverse(root: Json, path: seq<Place>, v: Json)
    ensures Traverse(Put(root, path, v), Segments(path)) == Success(v)
    decreases |path|
  {
    if path != [] {
      var next := PutOneThenRead(root, path, v);
      assert Segments(path)[1..] == Segments(path[1..]);
      PutThenTraverse(next, path[1..], v);
    }
  }

  /** The first segment reads what the rest of the path was put in. */
  lemma PutOneThenRead(root: Json, path: seq<Place>, v: Json) returns (next: Json)
    requires path != []
    ensures ReadSegment(Put(root, path, v), SegmentOf(path[0])) == Success(Put(next, path[1..], v))
  {
    match path[0]
    case Name(key) =>
      next := Null;
    case Index(i) =>
      next := ItemBelow(root, i);
      PutItem(root, path, v, i);
      IndexReads(Put(root, path, v).items, i);
  }

  function ItemBelow(root: Json, i: nat): Json {
    if root.Array? && i < |root.items| then root.items[i] else Null
  }

  lemma PutItem(root: Json, path: seq<Place>, v: Json, i: nat)
    requires path != [] && path[0] == Index(i)
    ensures var put := Put(root, path, v);
      put.Array? && i < |put.items| && put.items[i] == Put(ItemBelow(root, i), path[1..], v)
  {
  }

  lemma IndexReads(items: seq<Json>, i: nat)
    requires i < |items|
    ensures ReadSegment(Array(items), Hex.Digits(i)) == Success(items[i])
  {
    DigitsAreIndex(i);
    ItemRead(items, Hex.Digits(i));
  }

  lemma DigitsAreIndex(i: nat)
    ensures IsIndex(Hex.Digits(i)) && Decimal(Hex.Digits(i)) == i
  {
    DigitsRead(0, i);
    assert Zeros(0) + Hex.Digits(i) == Hex.Digits(i);
  }

  lemma ItemRead(items: seq<Json>, segment: Str)
    requires IsIndex(segment) && Decimal(segment) < |items|
    ensures ReadSegment(Array(items), segment) == Success(items[Decimal(segment)])
  {
  }

  lemma IndexIsSegment(i: nat)
    ensures IsSegment(Hex.Digits(i))
  {
  }

  ghost predicate NamesAreSegments(path: seq<Place>) {
    forall i :: 0 <= i < |path| && path[i].Name? ==> IsSegment(path[i].key)
  }

  /** A value at a path of the inputs is what `inputs.<path>` reads, with white
      space around it or none. */
  lemma PutThenReadInput(root: Json, path: seq<Place>, v: Json, outputs: map<Str, Json>, before: Str, after: Str)
    requires path != [] && NamesAreSegments(path) && Blank(before) && Blank(after)
    ensures var expression := before + Dotted([Text("inputs")] + Segments(path)) + after;
      ResolveExpression(expression, Context(Put(root, path, v), outputs)) == Success(v)
  {
    var whole := [Text("inputs")] + Segments(path);
    SegmentsAreSegments(path);
    KeywordsAreSegments();
    ParsesExactly(before + Dotted(whole) + after, whole);
    assert whole[1..] == Segments(path);
    PutThenTraverse(root, path, v);
  }

  /** A value at a path of a step's output is what `steps.<id>.output.<path>` reads. */
  lemma PutThenReadOutput(root: Json, id: Str, path: seq<Place>, v: Json, context: Context, before: Str, after: Str)
    requires IsSegment(id) && NamesAreSegments(path) && Blank(before) && Blank(after)
    ensures var expression := before + Dotted([Text("steps"), id, Text("output")] + Segments(path)) + after;
      var put := Context(context.inputs, context.outputs[id := Put(root, path, v)]);
      ResolveExpression(expression, put) == Success(v)
  {
    var whole := [Text("steps"), id, Text("output")] + Segments(path);
    SegmentsAreSegments(path);
    KeywordsAreSegments();
    ParsesExactly(before + Dotted(whole) + after, whole);
    assert whole[3..] == Segments(path);
    assert |Text("inputs")| != |Text("steps")|;
    PutThenTraverse(root, path, v);
  }

  lemma SegmentsAreSegments(path: seq<Place>)
    requires NamesAreSegments(path)
    ensures AllSegments(Segments(path))
  {
    forall i | 0 <= i < |path| ensures IsSegment(Segments(path)[i]) {
      if path[i].Index? { IndexIsSegment(path[i].i); }
    }
  }

  lemma KeywordsAreSegments()
    ensures IsSegment(Text("inputs")) && IsSegment(Text("steps")) && IsSegment(Text("output"))
  {
  }
}
