/** The lexer of src/scanner.rs: splits one ASCII input line into tokens, always
    terminated by a single end-of-input token. */
module Scanner {
  import opened Util

  datatype OperatorType = And | Not | Or | Cndl | BiCndl

  datatype TokenType =
    | Operator(op: OperatorType)
    | Variable
    | Literal(value: bool)
    | LeftParen
    | RightParen
    | LeftBrace
    | RightBrace
    | Error
    | EOF

  /** A token: the slice of the input it was made from, and its kind. */
  datatype Token = Token(lexeme: string, tokenType: TokenType)

  /** The token appended after the last character of every input. */
  const EofToken: Token := Token("<EOF>", EOF)

  predicate IsAscii(s: string)
  {
    forall i :: 0 <= i < |s| ==> (s[i] as int) < 128
  }

  /** The characters the lexer skips without producing a token. */
  predicate IsBlank(c: char)
  {
    c == ' ' || c == '\t' || c == '\n'
  }

  predicate IsAsciiAlphabetic(c: char)
  {
    ('a' <= c <= 'z') || ('A' <= c <= 'Z')
  }

  predicate IsAsciiAlphanumeric(c: char)
  {
    IsAsciiAlphabetic(c) || ('0' <= c <= '9')
  }

  function ToAsciiLowercase(w: string): string
  {
    seq(|w|, i requires 0 <= i < |w| => if 'A' <= w[i] <= 'Z' then (w[i] as int + 32) as char else w[i])
  }

  /** The keyword table: exact, case-sensitive spellings only. */
  function KeywordOperator(w: string): Option<OperatorType>
  {
    if w == "and" then Some(And)
    else if w == "or" then Some(Or)
    else if w == "not" then Some(Not)
    else None
  }

  /** Kind of an identifier: a keyword operator, else a literal (spelled in any case),
      else a variable. */
  function IdentifierType(w: string): TokenType
  {
    match KeywordOperator(w)
    case Some(op) => Operator(op)
    case None =>
      var lower := ToAsciiLowercase(w);
      if lower == "true" || lower == "t" then Literal(true)
      else if lower == "false" || lower == "f" then Literal(false)
      else Variable
  }

  predicate IsIdentifier(w: string)
  {
    |w| > 0 && IsAsciiAlphabetic(w[0]) && forall i :: 1 <= i < |w| ==> IsAsciiAlphanumeric(w[i])
  }

  /** Reference classification of a lexeme on its own, independent of the scanning
      procedure: the token kind that the lexeme `w` denotes. */
  function LexemeType(w: string): TokenType
  {
    if w == "&" then Operator(And)
    else if w == "|" then Operator(Or)
    else if w == "!" || w == "~" then Operator(Not)
    else if w == "=>" then Operator(Cndl)
    else if w == "<=>" then Operator(BiCndl)
    else if w == "(" then LeftParen
    else if w == ")" then RightParen
    else if w == "{" then LeftBrace
    else if w == "}" then RightBrace
    else if IsIdentifier(w) then IdentifierType(w)
    else Error
  }

  /** The lexer's cursor: `start` is where the current lexeme began and
      `nextUnobserved` the next character to read. */
  datatype ScanState = ScanState(source: string, start: nat, nextUnobserved: nat)
  {
    predicate Valid()
    {
      start <= nextUnobserved <= |source|
    }

    predicate IsAtEnd()
      requires Valid()
    {
      nextUnobserved == |source|
    }

    function Peek(): char
      requires Valid() && !IsAtEnd()
    {
      source[nextUnobserved]
    }

    function MoveForward(): (r: (char, ScanState))
      requires Valid() && !IsAtEnd()
      ensures r.1.Valid()
    {
      (Peek(), this.(nextUnobserved := nextUnobserved + 1))
    }

    /** Consumes the next character only when it is `target`. */
    function MoveIfMatch(target: char): (r: (bool, ScanState))
      requires Valid()
      ensures r.1.Valid() && r.1.source == source && r.1.start == start
      ensures r.0 <==> nextUnobserved < |source| && source[nextUnobserved] == target
      ensures r.1.nextUnobserved == nextUnobserved + (if r.0 then 1 else 0)
    {
      if IsAtEnd() then (false, this)
      else if Peek() != target then (false, this)
      else (true, MoveForward().1)
    }

    function MakeToken(tokenType: TokenType): Token
      requires Valid()
    {
      Token(source[start..nextUnobserved], tokenType)
    }

    /** The inner loop of an identifier: consumes the maximal run of ASCII
        alphanumerics. */
    function SkipAlphanumeric(): (r: ScanState)
      requires Valid()
      ensures r.Valid() && r.source == source && r.start == start
      ensures nextUnobserved <= r.nextUnobserved
      ensures forall k :: nextUnobserved <= k < r.nextUnobserved ==> IsAsciiAlphanumeric(source[k])
      ensures r.nextUnobserved == |source| || !IsAsciiAlphanumeric(source[r.nextUnobserved])
      decreases |source| - nextUnobserved
    {
      if IsAtEnd() then this
      else if IsAsciiAlphanumeric(Peek()) then MoveForward().1.SkipAlphanumeric()
      else this
    }
  }

  /** Kind of the one-character tokens `& | ! ~ ( ) { }`. */
  function SingleCharType(ch: char): Option<TokenType>
  {
    if ch == '&' then Some(Operator(And))
    else if ch == '|' then Some(Operator(Or))
    else if ch == '!' || ch == '~' then Some(Operator(Not))
    else if ch == '(' then Some(LeftParen)
    else if ch == ')' then Some(RightParen)
    else if ch == '{' then Some(LeftBrace)
    else if ch == '}' then Some(RightBrace)
    else None
  }

  /** Facts shared by every token-producing branch of `ScanStep`: the lexeme is the
      consumed slice, it is classified as `LexemeType` classifies it on its own, and
      it holds no blank. */
  predicate ProducedToken(st: ScanState, token: Token, next: ScanState)
    requires st.Valid() && next.Valid() && next.source == st.source
    requires st.start <= next.nextUnobserved
  {
    && token.lexeme == st.source[st.start..next.nextUnobserved]
    && token.tokenType == LexemeType(token.lexeme)
    && forall k :: st.start <= k < next.nextUnobserved ==> !IsBlank(st.source[k])
  }

  /** `s` holds `c` at position `i`. */
  predicate CharAt(s: string, i: nat, c: char)
  {
    i < |s| && s[i] == c
  }

  /** The branch for `=`: `=>` is a conditional, a lone `=` an error. */
  function ScanAfterEquals(st: ScanState): (r: (Token, ScanState))
    requires st.Valid() && st.nextUnobserved == st.start + 1 && st.source[st.start] == '='
    ensures r.1.Valid() && r.1.source == st.source && r.1.start == st.start
    ensures st.nextUnobserved <= r.1.nextUnobserved
    ensures ProducedToken(st, r.0, r.1)
    ensures CharAt(st.source, st.nextUnobserved, '>') ==>
      r.0 == Token("=>", Operator(Cndl)) && r.1.nextUnobserved == st.nextUnobserved + 1
    ensures !CharAt(st.source, st.nextUnobserved, '>') ==>
      r.0 == Token("=", Error) && r.1.nextUnobserved == st.nextUnobserved
  {
    var (matched, next) := st.MoveIfMatch('>');
    if matched then
      ghost var w := next.source[next.start..next.nextUnobserved];
      assert |w| == 2 && w[0] == '=' && w[1] == '>';
      assert w == "=>";
      (next.MakeToken(Operator(Cndl)), next)
    else
      ghost var w := next.source[next.start..next.nextUnobserved];
      assert |w| == 1 && w[0] == '=';
      assert w == "=";
      (next.MakeToken(Error), next)
  }

  /** The branch for `<`: `<=>` is a biconditional; `<` and `<=` are errors whose
      lexeme is the consumed prefix. */
  function ScanAfterLess(st: ScanState): (r: (Token, ScanState))
    requires st.Valid() && st.nextUnobserved == st.start + 1 && st.source[st.start] == '<'
    ensures r.1.Valid() && r.1.source == st.source && r.1.start == st.start
    ensures st.nextUnobserved <= r.1.nextUnobserved
    ensures ProducedToken(st, r.0, r.1)
    ensures !CharAt(st.source, st.nextUnobserved, '=') ==>
      r.0 == Token("<", Error) && r.1.nextUnobserved == st.nextUnobserved
    ensures CharAt(st.source, st.nextUnobserved, '=') && CharAt(st.source, st.nextUnobserved + 1, '>') ==>
      r.0 == Token("<=>", Operator(BiCndl)) && r.1.nextUnobserved == st.nextUnobserved + 2
    ensures CharAt(st.source, st.nextUnobserved, '=') && !CharAt(st.source, st.nextUnobserved + 1, '>') ==>
      r.0 == Token("<=", Error) && r.1.nextUnobserved == st.nextUnobserved + 1
  {
    var (matchedEq, afterEq) := st.MoveIfMatch('=');
    if !matchedEq then
      ghost var w := afterEq.source[afterEq.start..afterEq.nextUnobserved];
      assert |w| == 1 && w[0] == '<';
      assert w == "<";
      (afterEq.MakeToken(Error), afterEq)
    else
      var (matchedGt, afterGt) := afterEq.MoveIfMatch('>');
      if matchedGt then
        ghost var w := afterGt.source[afterGt.start..afterGt.nextUnobserved];
        assert |w| == 3 && w[0] == '<' && w[1] == '=' && w[2] == '>';
        assert w == "<=>";
        (afterGt.MakeToken(Operator(BiCndl)), afterGt)
      else
        ghost var w := afterGt.source[afterGt.start..afterGt.nextUnobserved];
        assert |w| == 2 && w[0] == '<' && w[1] == '=';
        assert w == "<=";
        (afterGt.MakeToken(Error), afterGt)
  }

  /** The branch for a letter: the maximal alphanumeric run, classified by
      `IdentifierType`. */
  function ScanIdentifier(st: ScanState): (r: (Token, ScanState))
    requires st.Valid() && st.nextUnobserved == st.start + 1 && IsAsciiAlphabetic(st.source[st.start])
    ensures r.1.Valid() && r.1.source == st.source && r.1.start == st.start
    ensures st.nextUnobserved <= r.1.nextUnobserved
    ensures ProducedToken(st, r.0, r.1)
    ensures IsIdentifier(r.0.lexeme) && r.0.tokenType == IdentifierType(r.0.lexeme)
    ensures r.1.nextUnobserved == |st.source| || !IsAsciiAlphanumeric(st.source[r.1.nextUnobserved])
  {
    var next := st.SkipAlphanumeric();
    AlphanumericRun(st.source, st.start, next.nextUnobserved);
    (next.MakeToken(IdentifierType(st.source[st.start..next.nextUnobserved])), next)
  }

  /** A letter followed by alphanumerics is an identifier, classified by
      `IdentifierType`, and holds no blank. */
  lemma AlphanumericRun(s: string, i: nat, j: nat)
    requires i < j <= |s| && IsAsciiAlphabetic(s[i])
    requires forall k :: i + 1 <= k < j ==> IsAsciiAlphanumeric(s[k])
    ensures IsIdentifier(s[i..j]) && LexemeType(s[i..j]) == IdentifierType(s[i..j])
    ensures forall k :: i <= k < j ==> !IsBlank(s[k])
  {
    var w := s[i..j];
    assert IsIdentifier(w) by {
      assert forall k :: 1 <= k < |w| ==> w[k] == s[i + k];
    }
    IdentifierLexemeType(w);
    assert forall k :: i <= k < j ==> IsAsciiAlphanumeric(s[k]);
  }

  /** An identifier is classified by `IdentifierType`. */
  lemma IdentifierLexemeType(w: string)
    requires IsIdentifier(w)
    ensures LexemeType(w) == IdentifierType(w)
  {
    assert w[0] !in "&|!~=<(){}";
  }

  /** The characters that may begin a lexeme longer than one character. Every
      other character is consumed alone: a blank is skipped, and any other makes a
      one-character token (an operator, a bracket, or an error token for a digit,
      `$`, and so on). */
  predicate StartsLongerLexeme(c: char)
  {
    IsAsciiAlphabetic(c) || c == '=' || c == '<'
  }

  /** One iteration of the lexer loop, starting at a fresh lexeme: reads one
      character and, unless it is a blank, produces exactly one token whose
      lexeme is the consumed slice. */
  function ScanStep(st: ScanState): (r: (Option<Token>, ScanState))
    requires st.Valid() && st.start == st.nextUnobserved && !st.IsAtEnd()
    ensures r.1.Valid() && r.1.source == st.source && r.1.start == st.start
    ensures st.nextUnobserved < r.1.nextUnobserved
    ensures r.0.None? <==> IsBlank(st.source[st.start])
    ensures r.0.None? ==> r.1.nextUnobserved == st.start + 1
    ensures r.0.Some? ==> ProducedToken(st, r.0.value, r.1)
    ensures IsAsciiAlphabetic(st.source[st.start]) ==>
      && r.0.Some? && IsIdentifier(r.0.value.lexeme)
      && (r.1.nextUnobserved == |st.source| || !IsAsciiAlphanumeric(st.source[r.1.nextUnobserved]))
    ensures StartsLongerLexeme(st.source[st.start]) || r.1.nextUnobserved == st.start + 1
    ensures st.source[st.start] == '=' ==>
      && r.0.Some?
      && (if CharAt(st.source, st.start + 1, '>')
          then r.0.value.tokenType == Operator(Cndl) && r.1.nextUnobserved == st.start + 2
          else r.0.value.tokenType == Error && r.1.nextUnobserved == st.start + 1)
    ensures st.source[st.start] == '<' ==>
      && r.0.Some?
      && (if !CharAt(st.source, st.start + 1, '=')
          then r.0.value.tokenType == Error && r.1.nextUnobserved == st.start + 1
          else if CharAt(st.source, st.start + 2, '>')
          then r.0.value.tokenType == Operator(BiCndl) && r.1.nextUnobserved == st.start + 3
          else r.0.value.tokenType == Error && r.1.nextUnobserved == st.start + 2)
  {
    var (ch, next) := st.MoveForward();
    if IsBlank(ch) then (None, next)
    else if SingleCharType(ch).Some? then
      assert next.source[next.start..next.nextUnobserved] == [ch];
      (Some(next.MakeToken(SingleCharType(ch).value)), next)
    else if ch == '=' then
      var (token, after) := ScanAfterEquals(next);
      (Some(token), after)
    else if ch == '<' then
      var (token, after) := ScanAfterLess(next);
      (Some(token), after)
    else if IsAsciiAlphabetic(ch) then
      var (token, after) := ScanIdentifier(next);
      (Some(token), after)
    else
      assert next.source[next.start..next.nextUnobserved] == [ch];
      (Some(next.MakeToken(Error)), next)
  }

  /** A character that begins no longer lexeme and is not a blank makes a token of
      its own: the one-character lexeme, classified as `LexemeType` classifies it. */
  lemma OneCharacterToken(st: ScanState)
    requires st.Valid() && st.start == st.nextUnobserved && !st.IsAtEnd()
    requires !IsBlank(st.source[st.start]) && !StartsLongerLexeme(st.source[st.start])
    ensures var c := st.source[st.start];
      ScanStep(st) == (Some(Token([c], LexemeType([c]))), st.(nextUnobserved := st.start + 1))
  {
    assert st.source[st.start..st.start + 1] == [st.source[st.start]];
  }

  /** The lexer loop from a fresh lexeme to the end of the input. */
  function TokenizeFrom(st: ScanState): (r: seq<Token>)
    requires st.Valid() && st.start == st.nextUnobserved
    ensures |r| >= 1 && r[|r| - 1] == EofToken
    ensures forall k :: 0 <= k < |r| - 1 ==>
      && r[k].tokenType != EOF
      && r[k].tokenType == LexemeType(r[k].lexeme)
      && |r[k].lexeme| > 0
    decreases |st.source| - st.nextUnobserved
  {
    if st.IsAtEnd() then [EofToken]
    else
      var (token, next) := ScanStep(st);
      var rest := TokenizeFrom(next.(start := next.nextUnobserved));
      if token.Some? then
        PrependToken(token.value, rest);
        [token.value] + rest
      else rest
  }

  /** Prepending a non-empty, self-classified token keeps the shape `TokenizeFrom`
      promises. */
  lemma PrependToken(t: Token, rest: seq<Token>)
    requires t.tokenType != EOF && t.tokenType == LexemeType(t.lexeme) && |t.lexeme| > 0
    requires |rest| >= 1 && rest[|rest| - 1] == EofToken
    requires forall k :: 0 <= k < |rest| - 1 ==>
      && rest[k].tokenType != EOF
      && rest[k].tokenType == LexemeType(rest[k].lexeme)
      && |rest[k].lexeme| > 0
    ensures var r := [t] + rest;
      && r[|r| - 1] == EofToken
      && forall k :: 0 <= k < |r| - 1 ==>
        && r[k].tokenType != EOF
        && r[k].tokenType == LexemeType(r[k].lexeme)
        && |r[k].lexeme| > 0
  {
  }

  function Tokenize(stmt: string): (r: seq<Token>)
    requires IsAscii(stmt)
  {
    TokenizeFrom(ScanState(stmt, 0, 0))
  }

  /** Concatenation of the lexemes of `tokens`, in order. */
  function JoinLexemes(tokens: seq<Token>): string
  {
    if tokens == [] then [] else tokens[0].lexeme + JoinLexemes(tokens[1..])
  }

  /** `s` with every blank removed. */
  function RemoveBlanks(s: string): string
  {
    if s == [] then [] else (if IsBlank(s[0]) then [] else [s[0]]) + RemoveBlanks(s[1..])
  }

  lemma {:induction false} RemoveBlanksAppend(a: string, b: string)
    ensures RemoveBlanks(a + b) == RemoveBlanks(a) + RemoveBlanks(b)
  {
    if a == [] {
      assert a + b == b;
    } else {
      assert (a + b)[1..] == a[1..] + b;
      RemoveBlanksAppend(a[1..], b);
    }
  }

  lemma {:induction false} RemoveBlanksKeepsNonBlank(a: string)
    requires forall k :: 0 <= k < |a| ==> !IsBlank(a[k])
    ensures RemoveBlanks(a) == a
  {
    if a != [] {
      RemoveBlanksKeepsNonBlank(a[1..]);
    }
  }

  lemma {:induction false} TokenizeFromRejoins(st: ScanState)
    requires st.Valid() && st.start == st.nextUnobserved
    ensures var r := TokenizeFrom(st); JoinLexemes(r[..|r| - 1]) == RemoveBlanks(st.source[st.nextUnobserved..])
    decreases |st.source| - st.nextUnobserved, 1
  {
    var r := TokenizeFrom(st);
    if st.IsAtEnd() {
      assert r[..|r| - 1] == [];
      assert st.source[st.nextUnobserved..] == [];
    } else {
      RejoinsStep(st);
    }
  }

  /** The inductive step of `TokenizeFromRejoins`: one lexer iteration extends the
      rejoined lexemes by the blank-free part of what it consumed. */
  lemma {:induction false} RejoinsStep(st: ScanState)
    requires st.Valid() && st.start == st.nextUnobserved && !st.IsAtEnd()
    ensures var r := TokenizeFrom(st); JoinLexemes(r[..|r| - 1]) == RemoveBlanks(st.source[st.nextUnobserved..])
    decreases |st.source| - st.nextUnobserved, 0
  {
    var step := ScanStep(st);
    TokenizeFromRejoins(step.1.(start := step.1.nextUnobserved));
    if step.0.None? {
      RejoinsBlank(st);
    } else {
      RejoinsToken(st);
    }
  }

  /** The rejoined lexemes after one lexer iteration: a blank adds nothing. */
  lemma RejoinsBlank(st: ScanState)
    requires st.Valid() && st.start == st.nextUnobserved && !st.IsAtEnd() && ScanStep(st).0.None?
    requires var after := ScanStep(st).1.(start := ScanStep(st).1.nextUnobserved);
             var rest := TokenizeFrom(after);
             JoinLexemes(rest[..|rest| - 1]) == RemoveBlanks(st.source[after.nextUnobserved..])
    ensures var r := TokenizeFrom(st); JoinLexemes(r[..|r| - 1]) == RemoveBlanks(st.source[st.nextUnobserved..])
  {
    BlankRemoveBlanks(st.source, st.nextUnobserved);
  }

  /** The rejoined lexemes after one lexer iteration: a token adds its lexeme,
      the blank-free slice it consumed. */
  lemma RejoinsToken(st: ScanState)
    requires st.Valid() && st.start == st.nextUnobserved && !st.IsAtEnd() && ScanStep(st).0.Some?
    requires var after := ScanStep(st).1.(start := ScanStep(st).1.nextUnobserved);
             var rest := TokenizeFrom(after);
             JoinLexemes(rest[..|rest| - 1]) == RemoveBlanks(st.source[after.nextUnobserved..])
    ensures var r := TokenizeFrom(st); JoinLexemes(r[..|r| - 1]) == RemoveBlanks(st.source[st.nextUnobserved..])
  {
    var step := ScanStep(st);
    var rest := TokenizeFrom(step.1.(start := step.1.nextUnobserved));
    SliceRemoveBlanks(st.source, st.nextUnobserved, step.1.nextUnobserved);
    JoinAfterToken(step.0.value, rest);
    assert TokenizeFrom(st) == [step.0.value] + rest;
  }

  lemma JoinAfterToken(t: Token, rest: seq<Token>)
    requires |rest| >= 1
    ensures var r := [t] + rest; JoinLexemes(r[..|r| - 1]) == t.lexeme + JoinLexemes(rest[..|rest| - 1])
  {
    var r := [t] + rest;
    assert r[..|r| - 1] == [t] + rest[..|rest| - 1];
  }

  lemma BlankRemoveBlanks(s: string, i: nat)
    requires i < |s| && IsBlank(s[i])
    ensures RemoveBlanks(s[i..]) == RemoveBlanks(s[i + 1..])
  {
    assert s[i..][1..] == s[i + 1..];
  }

  lemma SliceRemoveBlanks(s: string, i: nat, j: nat)
    requires i <= j <= |s|
    requires forall k :: i <= k < j ==> !IsBlank(s[k])
    ensures RemoveBlanks(s[i..]) == s[i..j] + RemoveBlanks(s[j..])
  {
    assert s[i..] == s[i..j] + s[j..];
    RemoveBlanksAppend(s[i..j], s[j..]);
    RemoveBlanksKeepsNonBlank(s[i..j]);
  }

  /** The lexemes of the tokens before the end-of-input token, joined in order, give
      back the input without its blanks: tokens are contiguous, do not overlap, and
      only blanks are dropped. */
  lemma TokenizeRejoins(stmt: string)
    requires IsAscii(stmt)
    ensures var r := Tokenize(stmt); JoinLexemes(r[..|r| - 1]) == RemoveBlanks(stmt)
  {
    TokenizeFromRejoins(ScanState(stmt, 0, 0));
    assert stmt[0..] == stmt;
  }

  lemma {:induction false} JoinNonEmptyLexemes(tokens: seq<Token>)
    requires forall k :: 0 <= k < |tokens| ==> |tokens[k].lexeme| > 0
    ensures |JoinLexemes(tokens)| >= |tokens|
  {
    if tokens != [] {
      JoinNonEmptyLexemes(tokens[1..]);
    }
  }

  /** The input produces nothing but the end-of-input token exactly when it consists
      of blanks only (the case the caller skips before compiling). */
  lemma OnlyEofIffBlank(stmt: string)
    requires IsAscii(stmt)
    ensures |Tokenize(stmt)| == 1 <==> RemoveBlanks(stmt) == []
  {
    var r := Tokenize(stmt);
    TokenizeRejoins(stmt);
    JoinNonEmptyLexemes(r[..|r| - 1]);
  }

  /** Lexing a lexeme on its own consumes all of it and yields the token that
      `LexemeType` names. */
  predicate Relexes(w: string)
    requires |w| > 0
  {
    ScanStep(ScanState(w, 0, 0)) == (Some(Token(w, LexemeType(w))), ScanState(w, 0, |w|))
  }

  lemma RelexIdentifier(w: string)
    requires IsIdentifier(w)
    ensures Relexes(w)
  {
    var st := ScanState(w, 0, 0);
    var next := st.MoveForward().1;
    var after := ScanIdentifier(next).1;
    assert after.nextUnobserved == |w| by {
      assert forall i :: 1 <= i < |w| ==> IsAsciiAlphanumeric(w[i]);
    }
    assert w[0..|w|] == w;
    assert w[0] !in "&|!~=<(){}";
  }

  lemma RelexEquals(w: string)
    requires w == "=>" || w == "="
    ensures Relexes(w)
  {
    assert w[0..|w|] == w;
  }

  lemma RelexLess(w: string)
    requires w == "<" || w == "<=" || w == "<=>"
    ensures Relexes(w)
  {
    assert w[0..|w|] == w;
  }

  lemma RelexSingle(ch: char)
    requires !IsBlank(ch) && !IsAsciiAlphabetic(ch) && ch != '=' && ch != '<'
    ensures Relexes([ch])
  {
    assert [ch][0..1] == [ch];
  }

  /** Lexing a produced lexeme on its own consumes all of it and yields the same
      token. */
  lemma ScanStepStandalone(st: ScanState)
    requires st.Valid() && st.start == st.nextUnobserved && !st.IsAtEnd()
    requires !IsBlank(st.source[st.start])
    ensures var (token, next) := ScanStep(st);
      var w := token.value.lexeme;
      && |w| > 0
      && ScanStep(ScanState(w, 0, 0)) == (token, ScanState(w, 0, |w|))
  {
    var (token, next) := ScanStep(st);
    var w := token.value.lexeme;
    var s, i, j := st.source, st.start, next.nextUnobserved;
    assert w == s[i..j] && token.value == Token(w, LexemeType(w));
    var ch := s[i];
    assert |w| > 0 && w[0] == ch;
    if IsAsciiAlphabetic(ch) {
      assert IsIdentifier(w) by {
        assert ScanIdentifier(st.MoveForward().1).1 == next;
      }
      RelexIdentifier(w);
    } else if ch == '=' {
      assert w == "=>" || w == "=";
      RelexEquals(w);
    } else if ch == '<' {
      assert w == "<" || w == "<=" || w == "<=>";
      RelexLess(w);
    } else {
      assert w == [ch];
      RelexSingle(ch);
    }
  }

  lemma {:induction false} TokenizeFromRelexes(st: ScanState, k: nat)
    requires st.Valid() && st.start == st.nextUnobserved && IsAscii(st.source)
    requires k < |TokenizeFrom(st)| - 1
    ensures var t := TokenizeFrom(st)[k]; IsAscii(t.lexeme) && Tokenize(t.lexeme) == [t, EofToken]
    decreases |st.source| - st.nextUnobserved
  {
    var (token, next) := ScanStep(st);
    var after := next.(start := next.nextUnobserved);
    var rest := TokenizeFrom(after);
    if token.None? {
      assert TokenizeFrom(st) == rest;
      TokenizeFromRelexes(after, k);
    } else if k > 0 {
      assert TokenizeFrom(st)[k] == rest[k - 1];
      TokenizeFromRelexes(after, k - 1);
    } else {
      var w := token.value.lexeme;
      assert TokenizeFrom(st)[0] == token.value;
      assert IsAscii(w) by {
        assert w == st.source[st.start..next.nextUnobserved];
      }
      ScanStepStandalone(st);
      TokenizeSingle(w, token.value);
    }
  }

  /** A text the first scan step consumes entirely lexes to that one token. */
  lemma TokenizeSingle(w: string, t: Token)
    requires IsAscii(w) && |w| > 0 && ScanStep(ScanState(w, 0, 0)) == (Some(t), ScanState(w, 0, |w|))
    ensures Tokenize(w) == [t, EofToken]
  {
    assert TokenizeFrom(ScanState(w, |w|, |w|)) == [EofToken];
  }

  /** Every token is self-delimiting: lexing its lexeme alone gives back exactly that
      token followed by the end-of-input token. */
  lemma TokenizeRelexes(stmt: string, k: nat)
    requires IsAscii(stmt) && k < |Tokenize(stmt)| - 1
    ensures var t := Tokenize(stmt)[k]; IsAscii(t.lexeme) && Tokenize(t.lexeme) == [t, EofToken]
  {
    TokenizeFromRelexes(ScanState(stmt, 0, 0), k);
  }
}
