/** Template resolution: the same code runs in the executor, which builds a
    step's input with it, and in the verifier, which re-derives that input. */
module Template {
  import opened Json
  import opened Results
  import opened Tokens

  /** What a template is resolved against: the run's inputs, and the outputs of
      the steps that have one, by step id. */
  datatype Context = Context(inputs: Json, outputs: map<Str, Json>)

  datatype TemplateError =
    | Unbalanced
    | PathTooShort
    | BadPath
    | CannotRead(segment: Str)
    | IndexExpected(segment: Str)
    | OutOfRange(index: nat)
    | NoField(segment: Str)
    | MissingOutput
    | OnlyOutputs(keyword: Option<Str>)
    | UnknownStep(id: Str)
    | UnknownRoot(root: Str)
    | NotFinite
    | Composite
    | TemplatedKey(key: Str)

  type Resolved = Result<Json, TemplateError>

  const INPUTS: Str := Text("inputs")
  const STEPS: Str := Text("steps")
  const OUTPUT: Str := Text("output")
  const DOT: CodeUnit := 46

  // ----- Reference paths --------------------------------------------------

  /** White space and line terminators, as `String.prototype.trim` strips. */
  predicate IsSpace(c: CodeUnit) {
    9 <= c <= 13 || c == 32 || c == 0xA0 || c == 0x1680 || 0x2000 <= c <= 0x200A ||
    c == 0x2028 || c == 0x2029 || c == 0x202F || c == 0x205F || c == 0x3000 || c == 0xFEFF
  }

  function Trim(s: Str): Str {
    if s != [] && IsSpace(s[0]) then Trim(s[1..])
    else if s != [] && IsSpace(s[|s| - 1]) then Trim(s[..|s| - 1])
    else s
  }

  function NextDot(s: Str, i: nat): (j: nat)
    requires i <= |s|
    ensures i <= j <= |s|
    decreases |s| - i
  {
    if i == |s| || s[i] == DOT then i else NextDot(s, i + 1)
  }

  function SplitDots(s: Str): (parts: seq<Str>)
    ensures |parts| > 0
    decreases |s|
  {
    var d := NextDot(s, 0);
    if d == |s| then [s] else [s[..d]] + SplitDots(s[d + 1..])
  }

  predicate IsDigit(c: CodeUnit) {
    48 <= c <= 57
  }

  predicate IsSegmentUnit(c: CodeUnit) {
    IsDigit(c) || 65 <= c <= 90 || 97 <= c <= 122 || c == 95 || c == 45
  }

  predicate IsSegment(s: Str) {
    s != [] && forall i :: 0 <= i < |s| ==> IsSegmentUnit(s[i])
  }

  predicate IsIndex(s: Str) {
    s != [] && forall i :: 0 <= i < |s| ==> IsDigit(s[i])
  }

  function Decimal(s: Str): nat
    requires forall i :: 0 <= i < |s| ==> IsDigit(s[i])
  {
    if s == [] then 0
    else
      assert IsDigit(s[|s| - 1]);
      10 * Decimal(s[..|s| - 1]) + (s[|s| - 1] as int - 48)
  }

  function ParsePath(expression: Str): (path: Result<seq<Str>, TemplateError>)
    ensures path.Success? ==> |path.value| >= 2
  {
    var path := SplitDots(Trim(expression));
    if |path| < 2 then Failure(PathTooShort)
    else if exists i | 0 <= i < |path| :: !IsSegment(path[i]) then Failure(BadPath)
    else Success(path)
  }

  // ----- Reading a value --------------------------------------------------

  function FieldIndex(fields: seq<Field>, key: Str): (i: nat)
    ensures i <= |fields|
    ensures i < |fields| ==> fields[i].key == key
  {
    if fields == [] then 0
    else if fields[0].key == key then 0
    else 1 + FieldIndex(fields[1..], key)
  }

  /** One own-property or array step; no prototype access, no method lookup. */
  function ReadSegment(value: Json, segment: Str): Resolved {
    match value
    case Array(items) =>
      if !IsIndex(segment) then Failure(IndexExpected(segment))
      else if Decimal(segment) >= |items| then Failure(OutOfRange(Decimal(segment)))
      else Success(items[Decimal(segment)])
    case Object(fields) =>
      var i := FieldIndex(fields, segment);
      if i == |fields| then Failure(NoField(segment)) else Success(fields[i].value)
    case _ => Failure(CannotRead(segment))
  }

  function Traverse(root: Json, path: seq<Str>): Resolved {
    if path == [] then Success(root)
    else
      var next :- ReadSegment(root, path[0]);
      Traverse(next, path[1..])
  }

  /** The source's loop over the path, with its `current` cursor. */
  method TraverseLoop(root: Json, path: seq<Str>) returns (result: Resolved)
    ensures result == Traverse(root, path)
  {
    var current := root;
    for i := 0 to |path|
      invariant Traverse(root, path) == Traverse(current, path[i..])
    {
      var next := ReadSegment(current, path[i]);
      if next.Failure? {
        return next;
      }
      current := next.value;
      assert path[i..][1..] == path[i + 1..];
    }
    return Success(current);
  }

  function ResolvePath(path: seq<Str>, context: Context): Resolved
    requires |path| >= 2
  {
    if path[0] == INPUTS then Traverse(context.inputs, path[1..])
    else if path[0] == STEPS then
      if |path| < 3 then Failure(MissingOutput)
      else if path[2] != OUTPUT then Failure(OnlyOutputs(Some(path[2])))
      else if path[1] !in context.outputs then Failure(UnknownStep(path[1]))
      else Traverse(context.outputs[path[1]], path[3..])
    else Failure(UnknownRoot(path[0]))
  }

  function ResolveExpression(expression: Str, context: Context): Resolved {
    var path :- ParsePath(expression);
    ResolvePath(path, context)
  }

  // ----- Resolving a whole value ------------------------------------------

  function RenderScalar(value: Json): Result<Str, TemplateError> {
    match value
    case Null => Success(Text("null"))
    case Bool(b) => Success(if b then Text("true") else Text("false"))
    case Number(Finite(shown)) => Success(shown)
    case Number(NegativeZero) => Success(Text("0"))
    case Number(NonFinite) => Failure(NotFinite)
    case String(s) => Success(s)
    case _ => Failure(Composite)
  }

  function RenderToken(token: Token, context: Context): Result<Str, TemplateError> {
    match token
    case Literal(text) => Success(text)
    case Expr(e) =>
      var value :- ResolveExpression(e, context);
      RenderScalar(value)
  }

  function RenderTokens(tokens: seq<Token>, context: Context): Result<Str, TemplateError> {
    if tokens == [] then Success([])
    else
      var head :- RenderToken(tokens[0], context);
      var tail :- RenderTokens(tokens[1..], context);
      Success(head + tail)
  }

  /** A string that is exactly one reference keeps the type of what it names. */
  function ResolveTokens(s: Str, tokens: seq<Token>, context: Context): Resolved {
    if |tokens| == 0 then Success(String(s))
    else if |tokens| == 1 && tokens[0].Expr? then ResolveExpression(tokens[0].expression, context)
    else
      var text :- RenderTokens(tokens, context);
      Success(String(text))
  }

  function ResolveString(s: Str, context: Context): Resolved {
    match Tokenize(s)
    case None => Failure(Unbalanced)
    case Some(tokens) => ResolveTokens(s, tokens, context)
  }

  /** The source's loop over the tokens, with its `out` accumulator. */
  method ResolveStringLoop(s: Str, context: Context) returns (result: Resolved)
    ensures result == ResolveString(s, context)
  {
    var tokenized := TokenizeLoop(s);
    if tokenized.None? {
      return Failure(Unbalanced);
    }
    var tokens := tokenized.value;
    if |tokens| == 0 {
      return Success(String(s));
    }
    if |tokens| == 1 && tokens[0].Expr? {
      return ResolveExpression(tokens[0].expression, context);
    }
    result := RenderLoop(tokens, context);
  }

  method RenderLoop(tokens: seq<Token>, context: Context) returns (result: Resolved)
    ensures result == match RenderTokens(tokens, context)
                      case Success(text) => Success(String(text))
                      case Failure(e) => Failure(e)
  {
    var out: Str := [];
    RenderBounds(tokens, out, context);
    for i := 0 to |tokens|
      invariant Rendered(tokens, i, out, context)
    {
      var text := RenderToken(tokens[i], context);
      RenderStep(tokens, i, out, context);
      if text.Failure? {
        return Failure(text.error);
      }
      out := out + text.value;
    }
    RenderBounds(tokens, out, context);
    return Success(String(out));
  }

  /** What rendering all the tokens gives, once the first i gave `out`. */
  ghost predicate Rendered(tokens: seq<Token>, i: nat, out: Str, context: Context)
    requires i <= |tokens|
  {
    RenderTokens(tokens, context) ==
      match RenderTokens(tokens[i..], context)
      case Success(rest) => Success(out + rest)
      case Failure(e) => Failure(e)
  }

  lemma RenderBounds(tokens: seq<Token>, out: Str, context: Context)
    ensures Rendered(tokens, 0, [], context)
    ensures Rendered(tokens, |tokens|, out, context) ==> RenderTokens(tokens, context) == Success(out)
  {
    assert tokens[0..] == tokens;
    if RenderTokens(tokens, context).Success? {
      var all := RenderTokens(tokens, context).value;
      assert [] + all == all;
    }
    assert out + [] == out;
  }

  lemma RenderStep(tokens: seq<Token>, i: nat, out: Str, context: Context)
    requires i < |tokens| && Rendered(tokens, i, out, context)
    ensures match RenderToken(tokens[i], context)
      case Failure(e) => RenderTokens(tokens, context) == Failure(e)
      case Success(text) => Rendered(tokens, i + 1, out + text, context)
  {
    assert tokens[i..][1..] == tokens[i + 1..];
    var text, rest := RenderToken(tokens[i], context), RenderTokens(tokens[i + 1..], context);
    if text.Success? && rest.Success? {
      assert out + (text.value + rest.value) == (out + text.value) + rest.value;
    }
  }

  function Resolve(value: Json, context: Context): Resolved
    decreases value, 1
  {
    match value
    case String(s) => ResolveString(s, context)
    case Array(items) =>
      var out :- ResolveItems(items, context);
      Success(Array(out))
    case Object(fields) =>
      var out :- ResolveFields(fields, context);
      Success(Object(out))
    case _ => Success(value)
  }

  function ResolveItems(items: seq<Json>, context: Context): Result<seq<Json>, TemplateError>
    decreases items, 0
  {
    if items == [] then Success([])
    else
      var head :- Resolve(items[0], context);
      var tail :- ResolveItems(items[1..], context);
      Success([head] + tail)
  }

  function ResolveFields(fields: seq<Field>, context: Context): Result<seq<Field>, TemplateError>
    decreases fields, 0
  {
    if fields == [] then Success([])
    else if Contains(fields[0].key, OPEN) then Failure(TemplatedKey(fields[0].key))
    else
      var value :- Resolve(fields[0].value, context);
      var tail :- ResolveFields(fields[1..], context);
      Success([Field(fields[0].key, value)] + tail)
  }

  // ----- Which steps a template reads -------------------------------------

  function Add(found: seq<Str>, id: Str): seq<Str> {
    if id in found then found else found + [id]
  }

  type Found = Result<seq<Str>, TemplateError>

  function WalkPath(path: seq<Str>, found: seq<Str>): Found
    requires |path| >= 2
  {
    if path[0] != STEPS then Success(found)
    else if |path| < 3 then Failure(OnlyOutputs(None))
    else if path[2] != OUTPUT then Failure(OnlyOutputs(Some(path[2])))
    else Success(Add(found, path[1]))
  }

  function WalkTokens(tokens: seq<Token>, found: seq<Str>): Found {
    if tokens == [] then Success(found)
    else if tokens[0].Literal? then WalkTokens(tokens[1..], found)
    else
      var path :- ParsePath(tokens[0].expression);
      var more :- WalkPath(path, found);
      WalkTokens(tokens[1..], more)
  }

  /** The walk of `referencedSteps`, threading the set it fills. */
  function Walk(value: Json, found: seq<Str>): Found
    decreases value, 1
  {
    match value
    case String(s) =>
      (match Tokenize(s)
       case None => Failure(Unbalanced)
       case Some(tokens) => WalkTokens(tokens, found))
    case Array(items) => WalkItems(items, found)
    case Object(fields) => WalkFields(fields, found)
    case _ => Success(found)
  }

  function WalkItems(items: seq<Json>, found: seq<Str>): Found
    decreases items, 0
  {
    if items == [] then Success(found)
    else
      var more :- Walk(items[0], found);
      WalkItems(items[1..], more)
  }

  function WalkFields(fields: seq<Field>, found: seq<Str>): Found
    decreases fields, 0
  {
    if fields == [] then Success(found)
    else
      var more :- Walk(fields[0].value, found);
      WalkFields(fields[1..], more)
  }

  /** The ids of the steps a value reads, in order of first mention. */
  function ReferencedSteps(value: Json): Found {
    Walk(value, [])
  }

  // ----- The frame of a template ------------------------------------------

  /** The two contexts cannot be told apart by a template that reads `ids`. */
  ghost predicate Agree(c1: Context, c2: Context, ids: seq<Str>) {
    && c1.inputs == c2.inputs
    && forall id :: id in ids ==>
         && (id in c1.outputs <==> id in c2.outputs)
         && (id in c1.outputs && id in c2.outputs ==> c1.outputs[id] == c2.outputs[id])
  }

  ghost predicate Within(ids: seq<Str>, all: seq<Str>) {
    forall id :: id in ids ==> id in all
  }

  /** Every id in `ids` has an output to read. */
  ghost predicate Available(ids: seq<Str>, context: Context) {
    forall id :: id in ids ==> id in context.outputs
  }

  lemma {:induction false} WalkTokensFrame(tokens: seq<Token>, found: seq<Str>, c1: Context, c2: Context)
    requires WalkTokens(tokens, found).Success?
    ensures Within(found, WalkTokens(tokens, found).value)
    ensures Agree(c1, c2, WalkTokens(tokens, found).value) ==>
      RenderTokens(tokens, c1) == RenderTokens(tokens, c2)
    ensures RenderTokens(tokens, c1).Success? && Available(found, c1) ==>
      Available(WalkTokens(tokens, found).value, c1)
  {
    if tokens != [] {
      if tokens[0].Literal? {
        WalkTokensFrame(tokens[1..], found, c1, c2);
      } else {
        var path := ParsePath(tokens[0].expression).value;
        var more := WalkPath(path, found).value;
        assert |INPUTS| != |STEPS|;
        WalkTokensFrame(tokens[1..], more, c1, c2);
      }
    }
  }

  /** The frame facts for a whole string. */
  lemma StringFrame(s: Str, found: seq<Str>, c1: Context, c2: Context)
    requires Walk(String(s), found).Success?
    ensures Within(found, Walk(String(s), found).value)
    ensures Agree(c1, c2, Walk(String(s), found).value) ==>
      ResolveString(s, c1) == ResolveString(s, c2)
    ensures ResolveString(s, c1).Success? && Available(found, c1) ==>
      Available(Walk(String(s), found).value, c1)
  {
    var tokens := Tokenize(s).value;
    WalkTokensFrame(tokens, found, c1, c2);
    if |tokens| == 1 && tokens[0].Expr? {
      var path := ParsePath(tokens[0].expression).value;
      assert WalkTokens(tokens, found) == WalkPath(path, found);
      assert |INPUTS| != |STEPS|;
    }
  }

  lemma {:induction false} WalkFrame(value: Json, found: seq<Str>, c1: Context, c2: Context)
    requires Walk(value, found).Success?
    ensures Within(found, Walk(value, found).value)
    ensures Agree(c1, c2, Walk(value, found).value) ==> Resolve(value, c1) == Resolve(value, c2)
    ensures Resolve(value, c1).Success? && Available(found, c1) ==>
      Available(Walk(value, found).value, c1)
    decreases value, 1
  {
    match value
    case String(s) => StringFrame(s, found, c1, c2);
    case Array(items) => ItemsFrame(items, found, c1, c2);
    case Object(fields) => FieldsFrame(fields, found, c1, c2);
    case _ =>
  }

  lemma {:induction false} ItemsFrame(items: seq<Json>, found: seq<Str>, c1: Context, c2: Context)
    requires WalkItems(items, found).Success?
    ensures Within(found, WalkItems(items, found).value)
    ensures Agree(c1, c2, WalkItems(items, found).value) ==>
      ResolveItems(items, c1) == ResolveItems(items, c2)
    ensures ResolveItems(items, c1).Success? && Available(found, c1) ==>
      Available(WalkItems(items, found).value, c1)
    decreases items, 0
  {
    if items != [] {
      var more := Walk(items[0], found).value;
      WalkFrame(items[0], found, c1, c2);
      ItemsFrame(items[1..], more, c1, c2);
    }
  }

  lemma {:induction false} FieldsFrame(fields: seq<Field>, found: seq<Str>, c1: Context, c2: Context)
    requires WalkFields(fields, found).Success?
    ensures Within(found, WalkFields(fields, found).value)
    ensures Agree(c1, c2, WalkFields(fields, found).value) ==>
      ResolveFields(fields, c1) == ResolveFields(fields, c2)
    ensures ResolveFields(fields, c1).Success? && Available(found, c1) ==>
      Available(WalkFields(fields, found).value, c1)
    decreases fields, 0
  {
    if fields != [] {
      var more := Walk(fields[0].value, found).value;
      WalkFrame(fields[0].value, found, c1, c2);
      FieldsFrame(fields[1..], more, c1, c2);
    }
  }

  /** Two contexts that agree on the inputs and on the outputs a template names
      give it the same value or the same failure. */
  lemma TemplateFrame(value: Json, c1: Context, c2: Context)
    requires ReferencedSteps(value).Success?
    requires Agree(c1, c2, ReferencedSteps(value).value)
    ensures Resolve(value, c1) == Resolve(value, c2)
  {
    WalkFrame(value, [], c1, c2);
  }

  /** The frame is exact: a template resolves only where every step it names
      has an output. */
  lemma ResolvedReadsAreAvailable(value: Json, context: Context)
    requires ReferencedSteps(value).Success?
    requires Resolve(value, context).Success?
    ensures Available(ReferencedSteps(value).value, context)
  {
    WalkFrame(value, [], context, context);
  }
}
