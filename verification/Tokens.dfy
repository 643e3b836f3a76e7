/** Splitting a template string into literal text and `{{ … }}` references. */
module Tokens {
  import opened Json
  import opened Results

  const OPEN: CodeUnit := 123
  const CLOSE: CodeUnit := 125

  datatype Token = Literal(text: Str) | Expr(expression: Str)

  predicate IsBrace(c: CodeUnit) {
    c == OPEN || c == CLOSE
  }

  predicate BraceFree(s: Str) {
    forall i :: 0 <= i < |s| ==> !IsBrace(s[i])
  }

  /** The pair of units `c c` starts at index i. */
  predicate PairAt(s: Str, i: nat, c: CodeUnit) {
    i + 2 <= |s| && s[i] == c && s[i + 1] == c
  }

  predicate Contains(s: Str, c: CodeUnit) {
    exists i: nat | i < |s| :: PairAt(s, i, c)
  }

  function NextBrace(s: Str, i: nat): (j: nat)
    requires i <= |s|
    ensures i <= j <= |s|
    ensures forall k :: i <= k < j ==> !IsBrace(s[k])
    ensures j < |s| ==> IsBrace(s[j])
    decreases |s| - i
  {
    if i == |s| || IsBrace(s[i]) then i else NextBrace(s, i + 1)
  }

  /** Where a reference that starts at i ends, when one does start there. */
  function MatchEnd(s: Str, i: nat): (end: Option<nat>)
    ensures end.Some? ==> i + 4 <= end.value <= |s|
  {
    if PairAt(s, i, OPEN) then
      var j := NextBrace(s, i + 2);
      if PairAt(s, j, CLOSE) then Some(j + 2) else None
    else
      None
  }

  /** The leftmost reference at or after i, as its start and its end. */
  function FindMatch(s: Str, i: nat): (m: Option<(nat, nat)>)
    requires i <= |s|
    ensures m.Some? ==> i <= m.value.0 && MatchEnd(s, m.value.0) == Some(m.value.1)
    ensures m.Some? ==> forall k: nat :: i <= k < m.value.0 ==> MatchEnd(s, k).None?
    ensures m.None? ==> forall k: nat :: i <= k ==> MatchEnd(s, k).None?
    decreases |s| - i
  {
    if i == |s| then None
    else if MatchEnd(s, i).Some? then Some((i, MatchEnd(s, i).value))
    else FindMatch(s, i + 1)
  }

  /** The tokens of s from the cursor on. */
  function Scan(s: Str, cursor: nat): seq<Token>
    requires cursor <= |s|
    decreases |s| - cursor
  {
    match FindMatch(s, cursor)
    case None =>
      if cursor < |s| then [Literal(s[cursor..])] else []
    case Some((m, end)) =>
      if cursor < m then [Literal(s[cursor..m])] + Scan(s, m)
      else [Expr(s[m + 2..end - 2])] + Scan(s, end)
  }

  predicate Balanced(token: Token) {
    token.Literal? ==> !Contains(token.text, OPEN) && !Contains(token.text, CLOSE)
  }

  predicate AllBalanced(tokens: seq<Token>) {
    forall i :: 0 <= i < |tokens| ==> Balanced(tokens[i])
  }

  /** None when the delimiters are unbalanced. */
  function Tokenize(s: Str): Option<seq<Token>> {
    if AllBalanced(Scan(s, 0)) then Some(Scan(s, 0)) else None
  }

  /** The text a token was read from. */
  function Source(token: Token): Str {
    match token
    case Literal(text) => text
    case Expr(e) => [OPEN, OPEN] + e + [CLOSE, CLOSE]
  }

  function Join(tokens: seq<Token>): Str {
    if tokens == [] then [] else Source(tokens[0]) + Join(tokens[1..])
  }

  /** The literal before a match, if any, and the match. */
  method PushMatch(s: Str, cursor: nat, before: seq<Token>, m: nat, end: nat) returns (tokens: seq<Token>)
    requires cursor <= |s| && FindMatch(s, cursor) == Some((m, end)) && Scanned(s, cursor, before)
    ensures end <= |s| && Scanned(s, end, tokens)
  {
    ScanSteps(s, cursor, before);
    tokens := before;
    if cursor < m {
      tokens := tokens + [Literal(s[cursor..m])];
    }
    tokens := tokens + [Expr(s[m + 2..end - 2])];
  }

  /** The source's loop over `pattern.exec`. */
  method ScanLoop(s: Str) returns (tokens: seq<Token>)
    ensures tokens == Scan(s, 0)
  {
    tokens := [];
    var cursor := 0;
    var found := FindMatch(s, cursor);
    while found.Some?
      invariant cursor <= |s| && found == FindMatch(s, cursor)
      invariant Scanned(s, cursor, tokens)
      decreases |s| - cursor
    {
      tokens := PushMatch(s, cursor, tokens, found.value.0, found.value.1);
      cursor := found.value.1;
      found := FindMatch(s, cursor);
    }
    ScanEnds(s, cursor, tokens);
    if cursor < |s| {
      tokens := tokens + [Literal(s[cursor..])];
    }
  }

  /** The tokens before the cursor, followed by those from it, are the tokens
      of the whole string. */
  ghost predicate Scanned(s: Str, cursor: nat, before: seq<Token>)
    requires cursor <= |s|
  {
    before + Scan(s, cursor) == Scan(s, 0)
  }

  lemma ScanEnds(s: Str, cursor: nat, before: seq<Token>)
    requires cursor <= |s| && FindMatch(s, cursor).None? && Scanned(s, cursor, before)
    ensures Scan(s, 0) == if cursor < |s| then before + [Literal(s[cursor..])] else before
  {
  }

  /** The loop over the matches, then the source's check of every literal. */
  method TokenizeLoop(s: Str) returns (result: Option<seq<Token>>)
    ensures result == Tokenize(s)
  {
    var tokens := ScanLoop(s);
    for i := 0 to |tokens|
      invariant forall k :: 0 <= k < i ==> Balanced(tokens[k])
    {
      if !Balanced(tokens[i]) {
        return None;
      }
    }
    return Some(tokens);
  }

  /** What one match adds to the tokens read so far. */
  lemma ScanSteps(s: Str, cursor: nat, before: seq<Token>)
    requires cursor <= |s| && FindMatch(s, cursor).Some? && Scanned(s, cursor, before)
    ensures var (m, end) := FindMatch(s, cursor).value;
      var literal := if cursor < m then before + [Literal(s[cursor..m])] else before;
      Scanned(s, end, literal + [Expr(s[m + 2..end - 2])])
  {
    var (m, end) := FindMatch(s, cursor).value;
    ScanAtMatch(s, m, end);
    if cursor < m {
      Regroup(before, [Literal(s[cursor..m])], [Expr(s[m + 2..end - 2])], Scan(s, end));
    } else {
      Regroup(before, [], [Expr(s[m + 2..end - 2])], Scan(s, end));
      assert before + [] == before;
    }
  }

  lemma Regroup(a: seq<Token>, b: seq<Token>, c: seq<Token>, d: seq<Token>)
    ensures a + b + c + d == a + (b + (c + d))
    ensures b == [] ==> a + (b + (c + d)) == a + (c + d)
  {
    assert b == [] ==> b + (c + d) == c + d;
  }

  lemma FindsAt(s: Str, i: nat, m: nat)
    requires i <= m <= |s|
    requires forall k: nat :: i <= k < m ==> MatchEnd(s, k).None?
    requires MatchEnd(s, m).Some?
    ensures FindMatch(s, i) == Some((m, MatchEnd(s, m).value))
  {
  }

  lemma MatchIsBraced(s: Str, m: nat)
    requires MatchEnd(s, m).Some?
    ensures var end := MatchEnd(s, m).value;
      && s[m..end] == Source(Expr(s[m + 2..end - 2]))
      && BraceFree(s[m + 2..end - 2])
  {
    var j := NextBrace(s, m + 2);
    BracedSlice(s, m, j);
    FreeSlice(s, m + 2, j);
    MatchEndsAt(s, m, j);
  }

  lemma MatchEndsAt(s: Str, m: nat, j: nat)
    requires MatchEnd(s, m).Some? && m + 2 <= |s| && j == NextBrace(s, m + 2)
    ensures MatchEnd(s, m).value - 2 == j
  {
  }

  lemma FreeSlice(s: Str, i: nat, j: nat)
    requires i <= j <= |s| && forall k :: i <= k < j ==> !IsBrace(s[k])
    ensures BraceFree(s[i..j])
  {
  }

  lemma BracedSlice(s: Str, m: nat, j: nat)
    requires m + 2 <= j && PairAt(s, m, OPEN) && PairAt(s, j, CLOSE)
    ensures s[m..j + 2] == [OPEN, OPEN] + s[m + 2..j] + [CLOSE, CLOSE]
  {
    assert s[m..m + 2] == [OPEN, OPEN] && s[j..j + 2] == [CLOSE, CLOSE];
    assert s[m..j + 2] == s[m..m + 2] + s[m + 2..j] + s[j..j + 2];
  }

  lemma {:induction false} ScanRejoins(s: Str, cursor: nat)
    requires cursor <= |s|
    ensures Join(Scan(s, cursor)) == s[cursor..]
    decreases |s| - cursor
  {
    var found := FindMatch(s, cursor);
    if found.None? {
      TailRejoins(s, cursor);
    } else if cursor < found.value.0 {
      ScanRejoins(s, found.value.0);
      LiteralRejoins(s, cursor, found.value.0);
    } else {
      ScanRejoins(s, found.value.1);
      ExprRejoins(s, cursor, found.value.1);
    }
  }

  lemma TailRejoins(s: Str, cursor: nat)
    requires cursor <= |s| && FindMatch(s, cursor).None?
    ensures Join(Scan(s, cursor)) == s[cursor..]
  {
    if cursor < |s| { JoinCons(Literal(s[cursor..]), []); }
  }

  lemma LiteralRejoins(s: Str, cursor: nat, m: nat)
    requires cursor < m <= |s| && FindMatch(s, cursor).Some? && FindMatch(s, cursor).value.0 == m
    requires Join(Scan(s, m)) == s[m..]
    ensures Join(Scan(s, cursor)) == s[cursor..]
  {
    JoinCons(Literal(s[cursor..m]), Scan(s, m));
    SliceJoins(s, cursor, m);
  }

  lemma ExprRejoins(s: Str, m: nat, end: nat)
    requires m <= |s| && FindMatch(s, m) == Some((m, end)) && Join(Scan(s, end)) == s[end..]
    ensures Join(Scan(s, m)) == s[m..]
  {
    ScanAtMatch(s, m, end);
    MatchIsBraced(s, m);
    JoinCons(Expr(s[m + 2..end - 2]), Scan(s, end));
    SliceJoins(s, m, end);
  }

  lemma SliceJoins(s: Str, i: nat, j: nat)
    requires i <= j <= |s|
    ensures s[i..j] + s[j..] == s[i..]
  {
  }

  /** Where the two parts of a suffix that splits as x + y lie. */
  lemma SuffixSplits(s: Str, i: nat, x: Str, y: Str)
    requires i <= |s| && s[i..] == x + y
    ensures i + |x| <= |s| && s[i..i + |x|] == x && s[i + |x|..] == y
    ensures forall k :: i <= k < i + |x| ==> s[k] == x[k - i]
  {
    var t := s[i..];
    assert |t| == |x| + |y| && t[..|x|] == x && t[|x|..] == y;
    assert forall k :: i <= k < i + |x| ==> s[k] == t[k - i];
  }

  lemma JoinCons(token: Token, rest: seq<Token>)
    ensures Join([token] + rest) == Source(token) + Join(rest)
  {
    assert ([token] + rest)[1..] == rest;
  }

  /** A way of reading a string as template tokens. Literals are non-empty, are
      never adjacent and hold no doubled brace; references hold no brace. */
  predicate Reading(tokens: seq<Token>) {
    tokens == [] ||
    ( && Reading(tokens[1..])
      && match tokens[0]
         case Literal(text) =>
           text != [] && Balanced(tokens[0]) && (|tokens| > 1 ==> tokens[1].Expr?)
         case Expr(e) => BraceFree(e))
  }

  lemma {:induction false} ScanReads(s: Str, cursor: nat)
    requires cursor <= |s|
    requires AllBalanced(Scan(s, cursor))
    ensures Reading(Scan(s, cursor))
    decreases |s| - cursor
  {
    match FindMatch(s, cursor)
    case None =>
    case Some((m, end)) =>
      var all := Scan(s, cursor);
      assert forall i :: 0 <= i < |all[1..]| ==> all[1..][i] == all[i + 1];
      if cursor < m {
        FindsAt(s, m, m);
        assert all[1..] == Scan(s, m);
        ScanReads(s, m);
      } else {
        MatchIsBraced(s, m);
        assert all[1..] == Scan(s, end);
        ScanReads(s, end);
      }
  }

  /** A reading that starts with a reference matches where it starts. */
  lemma MatchAtExpr(s: Str, cursor: nat, e: Str, rest: Str)
    requires cursor <= |s| && s[cursor..] == Source(Expr(e)) + rest
    requires BraceFree(e)
    ensures MatchEnd(s, cursor) == Some(cursor + |e| + 4)
    ensures s[cursor + 2..cursor + 2 + |e|] == e
    ensures s[cursor + |e| + 4..] == rest
  {
    var x := Source(Expr(e));
    SuffixSplits(s, cursor, x, rest);
    assert forall k :: 0 <= k < |e| ==> x[k + 2] == e[k];
    assert x[|e| + 2] == CLOSE && x[|e| + 3] == CLOSE;
    var j := cursor + 2 + |e|;
    assert forall k :: cursor + 2 <= k < j ==> s[k] == e[k - cursor - 2];
    assert NextBrace(s, cursor + 2) == j;
  }

  /** No reference starts inside a balanced literal, even one that ends in a
      brace just before a reference. */
  lemma NoMatchInLiteral(s: Str, cursor: nat, text: Str, k: nat)
    requires cursor + |text| <= |s| && s[cursor..cursor + |text|] == text
    requires Balanced(Literal(text))
    requires cursor + |text| < |s| ==> PairAt(s, cursor + |text|, OPEN)
    requires cursor <= k < cursor + |text|
    ensures MatchEnd(s, k).None?
  {
    if PairAt(s, k, OPEN) {
      assert forall i :: 0 <= i < |text| ==> text[i] == s[cursor + i];
      assert !PairAt(text, k - cursor, OPEN);
      assert s[k + 2] == OPEN;
      assert NextBrace(s, k + 2) == k + 2;
    }
  }

  lemma {:induction false} ReadingIsScan(s: Str, cursor: nat, tokens: seq<Token>)
    requires cursor <= |s| && Reading(tokens) && Join(tokens) == s[cursor..]
    ensures Scan(s, cursor) == tokens
    decreases |tokens|
  {
    if tokens == [] {
      assert cursor == |s|;
    } else {
      var end := TokenThenScan(s, cursor, tokens);
      ReadingIsScan(s, end, tokens[1..]);
    }
  }

  lemma TokenThenScan(s: Str, cursor: nat, tokens: seq<Token>) returns (end: nat)
    requires cursor <= |s| && tokens != []
    requires Reading(tokens) && Join(tokens) == s[cursor..]
    ensures end <= |s| && Reading(tokens[1..]) && Join(tokens[1..]) == s[end..]
    ensures Scan(s, cursor) == [tokens[0]] + Scan(s, end)
  {
    if tokens[0].Expr? {
      end := ExprThenScan(s, cursor, tokens);
    } else {
      end := LiteralThenScan(s, cursor, tokens);
    }
  }

  lemma ExprThenScan(s: Str, cursor: nat, tokens: seq<Token>) returns (end: nat)
    requires cursor <= |s| && tokens != [] && tokens[0].Expr?
    requires Reading(tokens) && Join(tokens) == s[cursor..]
    ensures end <= |s| && Join(tokens[1..]) == s[end..]
    ensures Scan(s, cursor) == [tokens[0]] + Scan(s, end)
  {
    var e := tokens[0].expression;
    end := cursor + |e| + 4;
    MatchAtExpr(s, cursor, e, Join(tokens[1..]));
    ScanAtMatch(s, cursor, end);
  }

  lemma ScanAtMatch(s: Str, cursor: nat, end: nat)
    requires cursor <= |s| && MatchEnd(s, cursor) == Some(end)
    ensures Scan(s, cursor) == [Expr(s[cursor + 2..end - 2])] + Scan(s, end)
  {
    FindsAt(s, cursor, cursor);
  }

  lemma LiteralThenScan(s: Str, cursor: nat, tokens: seq<Token>) returns (end: nat)
    requires cursor <= |s| && tokens != [] && tokens[0].Literal?
    requires Reading(tokens) && Join(tokens) == s[cursor..]
    ensures end <= |s| && Join(tokens[1..]) == s[end..]
    ensures Scan(s, cursor) == [tokens[0]] + Scan(s, end)
  {
    var text := tokens[0].text;
    var m := cursor + |text|;
    end := m;
    SuffixSplits(s, cursor, text, Join(tokens[1..]));
    if |tokens| == 1 {
      forall k: nat | cursor <= k ensures MatchEnd(s, k).None? {
        if k < m { NoMatchInLiteral(s, cursor, text, k); }
      }
      assert s[cursor..] == text;
      assert Scan(s, m) == [];
    } else {
      var e := tokens[1].expression;
      assert Reading(tokens[1..]);
      MatchAtExpr(s, m, e, Join(tokens[1..][1..]));
      forall k: nat | cursor <= k < m ensures MatchEnd(s, k).None? {
        NoMatchInLiteral(s, cursor, text, k);
      }
      FindsAt(s, cursor, m);
    }
  }

  /** Tokenizing succeeds with exactly the one reading a string has, and fails
      exactly when it has none. */
  lemma TokenizeIsTheOnlyReading(s: Str, tokens: seq<Token>)
    ensures Tokenize(s) == Some(tokens) <==> Reading(tokens) && Join(tokens) == s
  {
    assert s[0..] == s;
    if Tokenize(s) == Some(tokens) {
      ScanReads(s, 0);
      ScanRejoins(s, 0);
    }
    if Reading(tokens) && Join(tokens) == s {
      ReadingIsScan(s, 0, tokens);
      ReadingIsBalanced(tokens);
    }
  }

  lemma {:induction false} ReadingIsBalanced(tokens: seq<Token>)
    requires Reading(tokens)
    ensures AllBalanced(tokens)
  {
    if tokens != [] {
      ReadingIsBalanced(tokens[1..]);
      forall i | 0 <= i < |tokens| ensures Balanced(tokens[i]) {
        if i > 0 { assert tokens[i] == tokens[1..][i - 1]; }
      }
    }
  }
}
