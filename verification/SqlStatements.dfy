/**
 Splitting a migration into statements at its top-level semicolons: the scanner, the literals it must
 not cut, and the round trip of joining and splitting.
 */
module SqlStatements {
  import opened Options

  // Which characters the regular expression's \w and the strip method's white space take in.
  datatype Lexis = Lexis(word: char -> bool, blank: char -> bool)

  // Neither class holds one of the scanner's marks, and no character is in both.
  ghost predicate Proper(lx: Lexis) {
    && !lx.word('$') && !lx.word(';') && !lx.word('\'')
    && forall c :: lx.blank(c) ==> !lx.word(c) && c != '$' && c != ';' && c != '\''
  }

  // ------------------------------------------------------------------ tokens

  // The first position from i on that holds a quote, or the end of the text.
  function QuoteAt(text: string, i: nat): (j: nat)
    requires i <= |text|
    ensures i <= j <= |text| && (j < |text| ==> text[j] == '\'')
    decreases |text| - i
  {
    if i == |text| || text[i] == '\'' then i else QuoteAt(text, i + 1)
  }

  lemma {:induction false} QuoteAtIsFirst(text: string, i: nat)
    requires i <= |text|
    ensures forall k :: i <= k < QuoteAt(text, i) ==> text[k] != '\''
    decreases |text| - i
  {
    if i < |text| && text[i] != '\'' {
      QuoteAtIsFirst(text, i + 1);
    }
  }

  function WordEnd(lx: Lexis, text: string, i: nat): (j: nat)
    requires i <= |text|
    ensures i <= j <= |text| && (j < |text| ==> !lx.word(text[j]))
    decreases |text| - i
  {
    if i == |text| || !lx.word(text[i]) then i else WordEnd(lx, text, i + 1)
  }

  lemma {:induction false} WordEndIsFirst(lx: Lexis, text: string, i: nat)
    requires i <= |text|
    ensures forall k :: i <= k < WordEnd(lx, text, i) ==> lx.word(text[k])
    decreases |text| - i
  {
    if i < |text| && lx.word(text[i]) {
      WordEndIsFirst(lx, text, i + 1);
    }
  }

  // The dollar tag that opens at i, if one does.
  function TagAt(lx: Lexis, text: string, i: nat): (tag: Option<string>)
    requires i < |text| && text[i] == '$'
    ensures tag.Some? ==> 2 <= |tag.value| <= |text| - i && text[i..i + |tag.value|] == tag.value
  {
    var j := WordEnd(lx, text, i + 1);
    if j < |text| && text[j] == '$' then Some(text[i..j + 1]) else None
  }

  predicate Occurs(text: string, part: string, j: nat) {
    j + |part| <= |text| && text[j..j + |part|] == part
  }

  // The first occurrence of `part` at or after i.
  function Find(text: string, part: string, i: nat): (j: Option<nat>)
    ensures j.Some? ==> i <= j.value && j.value + |part| <= |text|
    decreases |text| - i
  {
    if Occurs(text, part, i) then Some(i)
    else if i >= |text| then None
    else Find(text, part, i + 1)
  }

  lemma {:induction false} FindIsFirst(text: string, part: string, i: nat)
    ensures var j := Find(text, part, i);
      && (j.Some? ==> Occurs(text, part, j.value))
      && forall k :: i <= k < (if j.Some? then j.value else |text|) ==> !Occurs(text, part, k)
    decreases |text| - i
  {
    if !Occurs(text, part, i) && i < |text| {
      FindIsFirst(text, part, i + 1);
    }
  }

  // The position after the next occurrence of a tag that opens at i.
  function CloseAfter(text: string, tag: string, i: nat): (j: Option<nat>)
    ensures j.Some? && tag != "" ==> i < j.value <= |text|
  {
    match Find(text, tag, i + |tag|)
    case None => None
    case Some(close) => Some(close + |tag|)
  }

  // The position after the dollar-quoted literal that opens at i, if one does and it is closed.
  function DollarEnd(lx: Lexis, text: string, i: nat): (j: Option<nat>)
    requires i < |text| && text[i] == '$'
    ensures j.Some? ==> i < j.value <= |text|
  {
    match TagAt(lx, text, i)
    case None => None
    case Some(tag) => CloseAfter(text, tag, i)
  }

  // The position after the token that starts at i: a quoted literal, a dollar-quoted literal, or one
  // character.
  function TokenEnd(lx: Lexis, text: string, i: nat): (j: nat)
    requires i < |text|
    ensures i < j <= |text|
  {
    if text[i] == '\'' then
      var close := QuoteAt(text, i + 1);
      if close < |text| then close + 1 else close
    else if text[i] == '$' && DollarEnd(lx, text, i).Some? then DollarEnd(lx, text, i).value
    else i + 1
  }

  // ------------------------------------------------------------------ statements

  function DropBlanks(lx: Lexis, s: string): string {
    if s != "" && lx.blank(s[0]) then DropBlanks(lx, s[1..]) else s
  }

  function DropTrailingBlanks(lx: Lexis, s: string): string {
    if s != "" && lx.blank(s[|s| - 1]) then DropTrailingBlanks(lx, s[..|s| - 1]) else s
  }

  function Strip(lx: Lexis, s: string): string {
    DropTrailingBlanks(lx, DropBlanks(lx, s))
  }

  predicate AllBlank(lx: Lexis, s: string) {
    forall i :: 0 <= i < |s| ==> lx.blank(s[i])
  }

  // t is s without the blanks at its ends.
  ghost predicate Trims(lx: Lexis, s: string, t: string) {
    && (t != "" ==> !lx.blank(t[0]) && !lx.blank(t[|t| - 1]))
    && exists left, right :: AllBlank(lx, left) && AllBlank(lx, right) && s == left + t + right
  }

  lemma {:induction false} DropBlanksSplits(lx: Lexis, s: string) returns (left: string)
    ensures AllBlank(lx, left) && s == left + DropBlanks(lx, s)
    ensures var rest := DropBlanks(lx, s); rest != "" ==> !lx.blank(rest[0])
  {
    left := "";
    if s != "" && lx.blank(s[0]) {
      var more := DropBlanksSplits(lx, s[1..]);
      left := [s[0]] + more;
    }
  }

  lemma {:induction false} DropTrailingBlanksSplits(lx: Lexis, s: string) returns (right: string)
    ensures AllBlank(lx, right) && s == DropTrailingBlanks(lx, s) + right
    ensures var rest := DropTrailingBlanks(lx, s); rest != "" ==> !lx.blank(rest[|rest| - 1])
  {
    right := "";
    if s != "" && lx.blank(s[|s| - 1]) {
      var n := |s| - 1;
      var more := DropTrailingBlanksSplits(lx, s[..n]);
      right := more + [s[n]];
      assert s == s[..n] + [s[n]];
    }
  }

  lemma StripTrims(lx: Lexis, s: string)
    ensures Trims(lx, s, Strip(lx, s))
  {
    var left := DropBlanksSplits(lx, s);
    var right := DropTrailingBlanksSplits(lx, DropBlanks(lx, s));
    assert Strip(lx, s) != "" ==> Strip(lx, s)[0] == DropBlanks(lx, s)[0];
    assert s == left + Strip(lx, s) + right;
  }

  lemma {:induction false} DropBlanksDrops(lx: Lexis, left: string, rest: string)
    requires AllBlank(lx, left) && (rest != "" ==> !lx.blank(rest[0]))
    ensures DropBlanks(lx, left + rest) == rest
    decreases |left|
  {
    if left == "" {
      assert left + rest == rest;
    } else {
      assert (left + rest)[0] == left[0] && (left + rest)[1..] == left[1..] + rest;
      DropBlanksDrops(lx, left[1..], rest);
    }
  }

  lemma {:induction false} DropTrailingBlanksDrops(lx: Lexis, rest: string, right: string)
    requires AllBlank(lx, right) && (rest != "" ==> !lx.blank(rest[|rest| - 1]))
    ensures DropTrailingBlanks(lx, rest + right) == rest
    decreases |right|
  {
    if right == "" {
      assert rest + right == rest;
    } else {
      var n := |right| - 1;
      assert (rest + right)[..|rest| + n] == rest + right[..n];
      DropTrailingBlanksDrops(lx, rest, right[..n]);
    }
  }

  // Stripping gives the one text that is s without the blanks at its ends.
  lemma StripsExactly(lx: Lexis, s: string, t: string)
    ensures Trims(lx, s, t) <==> Strip(lx, s) == t
  {
    StripTrims(lx, s);
    if Trims(lx, s, t) {
      var left, right :| AllBlank(lx, left) && AllBlank(lx, right) && s == left + t + right;
      if t == "" {
        DropBlanksDrops(lx, s, "");
        assert s + "" == s;
      } else {
        assert s == left + (t + right) && (t + right)[0] == t[0];
        DropBlanksDrops(lx, left, t + right);
        DropTrailingBlanksDrops(lx, t, right);
      }
    }
  }

  lemma BlankTrimsToNothing(lx: Lexis, s: string)
    ensures AllBlank(lx, s) <==> Strip(lx, s) == ""
  {
    StripsExactly(lx, s, "");
    if AllBlank(lx, s) {
      assert s == s + "" + "" && AllBlank(lx, "");
    }
  }

  datatype Piece = Piece(start: nat, end: nat)

  datatype Statement = Statement(offset: nat, text: string)

  function Slice(text: string, piece: Piece): string {
    if piece.start <= piece.end <= |text| then text[piece.start..piece.end] else ""
  }

  // The token boundaries from i to the end of the text.
  function Boundaries(lx: Lexis, text: string, i: nat): (b: seq<nat>)
    requires i <= |text|
    ensures |b| > 0 && b[0] == i
    decreases |text| - i
  {
    if i == |text| then [i] else [i] + Boundaries(lx, text, TokenEnd(lx, text, i))
  }

  // The boundaries b belong to the text and the last of them is its end.
  predicate Within(text: string, b: seq<nat>) {
    |b| > 0 && b[|b| - 1] == |text| && forall k :: 0 <= k < |b| - 1 ==> b[k] < |text|
  }

  // The stretches of text between top-level semicolons, in a stretch begun at `start` before b[0].
  function Pieces(text: string, start: nat, b: seq<nat>): seq<Piece>
    decreases |b|
  {
    if |b| <= 1 then [Piece(start, |text|)]
    else if b[0] < |text| && text[b[0]] == ';' then [Piece(start, b[0])] + Pieces(text, b[0] + 1, b[1..])
    else Pieces(text, start, b[1..])
  }

  // The stretches that hold a statement, stripped, each with its start.
  function Statements(lx: Lexis, text: string, pieces: seq<Piece>): seq<Statement> {
    if pieces == [] then []
    else
      var chunk := Strip(lx, Slice(text, pieces[0]));
      (if chunk == "" then [] else [Statement(pieces[0].start, chunk)]) + Statements(lx, text, pieces[1..])
  }

  // The statements are the stretches that are not blank, trimmed, each at its stretch's start.
  ghost predicate AreStatements(lx: Lexis, text: string, pieces: seq<Piece>, statements: seq<Statement>)
    decreases |pieces|
  {
    if pieces == [] then statements == []
    else
      var stretch := Slice(text, pieces[0]);
      if AllBlank(lx, stretch) then AreStatements(lx, text, pieces[1..], statements)
      else
        && statements != [] && statements[0].offset == pieces[0].start
        && statements[0].text != "" && Trims(lx, stretch, statements[0].text)
        && AreStatements(lx, text, pieces[1..], statements[1..])
  }

  lemma {:induction false} StatementsAreTrimmed(lx: Lexis, text: string, pieces: seq<Piece>)
    ensures AreStatements(lx, text, pieces, Statements(lx, text, pieces))
  {
    if pieces != [] {
      var stretch, later := Slice(text, pieces[0]), Statements(lx, text, pieces[1..]);
      StripTrims(lx, stretch);
      BlankTrimsToNothing(lx, stretch);
      StatementsAreTrimmed(lx, text, pieces[1..]);
      assert [] + later == later;
      assert ([Statement(pieces[0].start, Strip(lx, stretch))] + later)[1..] == later;
    }
  }

  lemma {:induction false} BoundariesAreScanned(lx: Lexis, text: string, i: nat)
    requires i <= |text|
    ensures var b := Boundaries(lx, text, i);
      Within(text, b) && forall k :: 0 <= k < |b| - 1 ==> b[k + 1] == TokenEnd(lx, text, b[k])
    decreases |text| - i
  {
    if i < |text| {
      BoundariesAreScanned(lx, text, TokenEnd(lx, text, i));
    }
  }

  // The stretches that a scan standing at i, in a stretch begun at `start`, still has to find.
  function PiecesFrom(lx: Lexis, text: string, start: nat, i: nat): seq<Piece>
    requires i <= |text|
  {
    Pieces(text, start, Boundaries(lx, text, i))
  }

  function Split(lx: Lexis, text: string): seq<Statement> {
    Statements(lx, text, PiecesFrom(lx, text, 0, 0))
  }

  // `done` followed by the statement in text[start..end], if there is one.
  function Emit(lx: Lexis, text: string, done: seq<Statement>, start: nat, end: nat): seq<Statement>
    requires start <= end <= |text|
  {
    var chunk := Strip(lx, text[start..end]);
    if chunk == "" then done else done + [Statement(start, chunk)]
  }

  lemma EmitFirst(lx: Lexis, text: string, done: seq<Statement>, start: nat, end: nat, rest: seq<Piece>)
    requires start <= end <= |text|
    ensures Emit(lx, text, done, start, end) + Statements(lx, text, rest)
         == done + Statements(lx, text, [Piece(start, end)] + rest)
  {
    var all := [Piece(start, end)] + rest;
    assert all[1..] == rest && Slice(text, all[0]) == text[start..end];
  }

  lemma SkipToken(lx: Lexis, text: string, start: nat, i: nat)
    requires i < |text|
    ensures text[i] != ';' ==> PiecesFrom(lx, text, start, i) == PiecesFrom(lx, text, start, TokenEnd(lx, text, i))
    ensures text[i] == ';' ==> PiecesFrom(lx, text, start, i) == [Piece(start, i)] + PiecesFrom(lx, text, i + 1, i + 1)
  {
    assert Boundaries(lx, text, i)[1..] == Boundaries(lx, text, TokenEnd(lx, text, i));
  }

  lemma LastPiece(lx: Lexis, text: string, start: nat)
    ensures PiecesFrom(lx, text, start, |text|) == [Piece(start, |text|)] + []
  {
  }

  // The scan itself, standing at i in a stretch begun at `start`, with `done` emitted so far.
  function Scan(lx: Lexis, text: string, done: seq<Statement>, start: nat, i: nat): seq<Statement>
    requires start <= i <= |text|
    decreases |text| - i
  {
    if i == |text| then Emit(lx, text, done, start, i)
    else if text[i] == ';' then Scan(lx, text, Emit(lx, text, done, start, i), i + 1, i + 1)
    else Scan(lx, text, done, start, TokenEnd(lx, text, i))
  }

  lemma {:induction false} ScanEmitsPieces(lx: Lexis, text: string, done: seq<Statement>, start: nat, i: nat)
    requires start <= i <= |text|
    ensures Scan(lx, text, done, start, i) == done + Statements(lx, text, PiecesFrom(lx, text, start, i))
    decreases |text| - i
  {
    if i == |text| {
      LastPiece(lx, text, start);
      EmitFirst(lx, text, done, start, i, []);
      assert Emit(lx, text, done, start, i) + Statements(lx, text, []) == Emit(lx, text, done, start, i);
    } else {
      SkipToken(lx, text, start, i);
      if text[i] == ';' {
        ScanEmitsPieces(lx, text, Emit(lx, text, done, start, i), i + 1, i + 1);
        EmitFirst(lx, text, done, start, i, PiecesFrom(lx, text, i + 1, i + 1));
      } else {
        ScanEmitsPieces(lx, text, done, start, TokenEnd(lx, text, i));
      }
    }
  }

  lemma ScanIsSplit(lx: Lexis, text: string)
    ensures Scan(lx, text, [], 0, 0) == Split(lx, text)
  {
    ScanEmitsPieces(lx, text, [], 0, 0);
    assert [] + Split(lx, text) == Split(lx, text);
  }

  // The inner loop: past a quoted literal's characters.
  method SkipQuoted(text: string, from: nat) returns (i: nat)
    requires from <= |text|
    ensures i == QuoteAt(text, from)
  {
    i := from;
    while i < |text| && text[i] != '\''
      invariant i <= |text| && QuoteAt(text, i) == QuoteAt(text, from)
    {
      i := i + 1;
    }
  }

  // The branches on a quote and a dollar sign: where the loop goes on, one past the end after an unclosed quote.
  method Advance(lx: Lexis, text: string, i: nat) returns (next: nat)
    requires i < |text|
    ensures next == TokenEnd(lx, text, i) || (next == |text| + 1 && TokenEnd(lx, text, i) == |text|)
  {
    next := i;
    if text[i] == '\'' {
      next := SkipQuoted(text, i + 1);
    } else if text[i] == '$' {
      var end := DollarEnd(lx, text, i);
      if end.Some? {
        return end.value;
      }
    }
    next := next + 1;
  }

  method SplitStatements(lx: Lexis, text: string) returns (statements: seq<Statement>)
    ensures statements == Split(lx, text)
    ensures AreStatements(lx, text, PiecesFrom(lx, text, 0, 0), statements)
  {
    statements := [];
    var start, i, n := 0, 0, |text|;
    ghost var at := 0;
    ghost var goal := Scan(lx, text, [], 0, 0);
    while i < n
      invariant start <= at <= n && (i == at || (at == n && i == n + 1))
      invariant Scan(lx, text, statements, start, at) == goal
      decreases n - i
    {
      at := TokenEnd(lx, text, i);
      if text[i] == ';' {
        statements := Emit(lx, text, statements, start, i);
        start := i + 1;
      }
      i := Advance(lx, text, i);
    }
    statements := Emit(lx, text, statements, start, n);
    ScanIsSplit(lx, text);
    StatementsAreTrimmed(lx, text, PiecesFrom(lx, text, 0, 0));
  }

  // ------------------------------------------------------------------ cuts and literals

  // text[a..b] is one token, said without the scanner: a quoted literal up to its first quote, a
  // dollar-quoted literal up to the first recurrence of its tag, or a character that opens neither.
  ghost predicate IsQuoted(text: string, a: nat, b: nat) {
    && a < b <= |text| && text[a] == '\''
    && (forall k :: a < k < b - 1 ==> text[k] != '\'')
    && ((b > a + 1 && text[b - 1] == '\'') || (b == |text| && forall k :: a < k < b ==> text[k] != '\''))
  }

  ghost predicate IsTag(lx: Lexis, tag: string) {
    |tag| >= 2 && tag[0] == '$' && tag[|tag| - 1] == '$' && forall k :: 0 < k < |tag| - 1 ==> lx.word(tag[k])
  }

  ghost predicate IsDollarQuoted(lx: Lexis, text: string, a: nat, b: nat, tag: string) {
    && IsTag(lx, tag) && Occurs(text, tag, a) && a + 2 * |tag| <= b <= |text| && Occurs(text, tag, b - |tag|)
    && forall k :: a + |tag| <= k < b - |tag| ==> !Occurs(text, tag, k)
  }

  ghost predicate IsPlain(lx: Lexis, text: string, a: nat, b: nat) {
    && b == a + 1 <= |text| && text[a] != '\''
    && !exists c: nat, tag :: IsDollarQuoted(lx, text, a, c, tag)
  }

  ghost predicate IsToken(lx: Lexis, text: string, a: nat, b: nat) {
    IsQuoted(text, a, b) || (exists tag :: IsDollarQuoted(lx, text, a, b, tag)) || IsPlain(lx, text, a, b)
  }

  lemma TagsAreUnique(lx: Lexis, text: string, a: nat, tag: string)
    requires Proper(lx) && IsTag(lx, tag) && Occurs(text, tag, a)
    ensures text[a] == '$' && TagAt(lx, text, a) == Some(tag)
  {
    var n := |tag|;
    assert forall k :: 0 <= k < n ==> text[a + k] == text[a..a + n][k] == tag[k];
    var j := WordEnd(lx, text, a + 1);
    WordEndIsFirst(lx, text, a + 1);
    assert text[a + n - 1] == tag[n - 1] && forall k :: a < k < a + n - 1 ==> text[k] == tag[k - a];
  }

  lemma DollarsAreScanned(lx: Lexis, text: string, a: nat, b: nat, tag: string)
    requires Proper(lx) && IsDollarQuoted(lx, text, a, b, tag)
    ensures text[a] == '$' && DollarEnd(lx, text, a) == Some(b)
  {
    TagsAreUnique(lx, text, a, tag);
    FindIsFirst(text, tag, a + |tag|);
    assert Occurs(text, tag, b - |tag|);
  }

  lemma ScannedTag(lx: Lexis, text: string, a: nat)
    requires Proper(lx) && a < |text| && text[a] == '$' && TagAt(lx, text, a).Some?
    ensures IsTag(lx, TagAt(lx, text, a).value) && Occurs(text, TagAt(lx, text, a).value, a)
  {
    var j := WordEnd(lx, text, a + 1);
    var tag := text[a..j + 1];
    WordEndIsFirst(lx, text, a + 1);
    forall k | 0 < k < |tag| - 1
      ensures lx.word(tag[k])
    {
      assert tag[k] == text[a + k];
    }
  }

  lemma ScannedIsDollar(lx: Lexis, text: string, a: nat)
    requires Proper(lx) && a < |text| && text[a] == '$' && DollarEnd(lx, text, a).Some?
    ensures IsDollarQuoted(lx, text, a, DollarEnd(lx, text, a).value, TagAt(lx, text, a).value)
  {
    ScannedTag(lx, text, a);
    FindIsFirst(text, TagAt(lx, text, a).value, a + |TagAt(lx, text, a).value|);
  }

  // The scanner's tokens are the tokens.
  lemma TokensAreScanned(lx: Lexis, text: string, a: nat, b: nat)
    requires Proper(lx) && a < |text|
    ensures IsToken(lx, text, a, b) <==> b == TokenEnd(lx, text, a)
  {
    forall c: nat, tag | IsDollarQuoted(lx, text, a, c, tag)
      ensures text[a] == '$' && DollarEnd(lx, text, a) == Some(c)
    {
      DollarsAreScanned(lx, text, a, c, tag);
    }
    if text[a] == '\'' {
      QuoteAtIsFirst(text, a + 1);
      assert IsQuoted(text, a, b) <==> b == TokenEnd(lx, text, a);
    } else if text[a] == '$' && DollarEnd(lx, text, a).Some? {
      ScannedIsDollar(lx, text, a);
    }
  }

  ghost predicate IsLiteral(lx: Lexis, text: string, a: nat, b: nat) {
    IsQuoted(text, a, b) || exists tag :: IsDollarQuoted(lx, text, a, b, tag)
  }

  // The boundaries b cut the whole text into tokens.
  ghost predicate IsLexing(lx: Lexis, text: string, b: seq<nat>) {
    Within(text, b) && b[0] == 0 && forall k :: 0 <= k < |b| - 1 ==> IsToken(lx, text, b[k], b[k + 1])
  }

  lemma {:induction false} SameTail(lx: Lexis, text: string, b: seq<nat>, k: nat)
    requires Proper(lx) && IsLexing(lx, text, b) && k < |b| && b[k] <= |text|
    ensures b[k..] == Boundaries(lx, text, b[k])
    decreases |b| - k
  {
    if k + 1 < |b| {
      TokensAreScanned(lx, text, b[k], b[k + 1]);
      SameTail(lx, text, b, k + 1);
      assert b[k..] == [b[k]] + b[k + 1..];
    }
  }

  // Every text has exactly one division into tokens, and the scanner finds it.
  lemma OneLexing(lx: Lexis, text: string, b: seq<nat>)
    requires Proper(lx)
    ensures IsLexing(lx, text, b) <==> b == Boundaries(lx, text, 0)
  {
    if IsLexing(lx, text, b) {
      SameTail(lx, text, b, 0);
    }
    BoundariesAreScanned(lx, text, 0);
    var c := Boundaries(lx, text, 0);
    forall k | 0 <= k < |c| - 1 ensures IsToken(lx, text, c[k], c[k + 1]) {
      TokensAreScanned(lx, text, c[k], c[k + 1]);
    }
  }

  // c is a semicolon the text was cut at.
  predicate IsCut(pieces: seq<Piece>, c: nat) {
    exists m :: 0 <= m < |pieces| - 1 && pieces[m].end == c
  }

  predicate IsTopLevelSemicolon(text: string, b: seq<nat>, c: nat) {
    c < |text| && text[c] == ';' && exists k :: 0 <= k < |b| - 1 && b[k] == c
  }

  // The text is cut at the semicolons that are tokens by themselves and at nothing else.
  lemma {:induction false} CutsAreTopLevel(text: string, start: nat, b: seq<nat>, c: nat)
    requires Within(text, b)
    ensures IsCut(Pieces(text, start, b), c) <==> IsTopLevelSemicolon(text, b, c)
    ensures Pieces(text, start, b) != []
    decreases |b|
  {
    if |b| > 1 {
      var rest := b[1..];
      if text[b[0]] == ';' {
        CutsAreTopLevel(text, b[0] + 1, rest, c);
        var tail := Pieces(text, b[0] + 1, rest);
        var all := [Piece(start, b[0])] + tail;
        if IsCut(tail, c) {
          var m :| 0 <= m < |tail| - 1 && tail[m].end == c;
          assert all[m + 1].end == c;
        }
        if c == b[0] {
          assert all[0].end == c;
        }
        if IsCut(all, c) {
          var m :| 0 <= m < |all| - 1 && all[m].end == c;
          assert m > 0 ==> tail[m - 1].end == c;
        }
      } else {
        CutsAreTopLevel(text, start, rest, c);
      }
      if IsTopLevelSemicolon(text, rest, c) {
        var k :| 0 <= k < |rest| - 1 && rest[k] == c;
        assert b[k + 1] == c;
      }
      if IsTopLevelSemicolon(text, b, c) {
        var k :| 0 <= k < |b| - 1 && b[k] == c;
        assert k > 0 ==> rest[k - 1] == c;
      }
    }
  }

  lemma {:induction false} TokensAdvance(lx: Lexis, text: string, b: seq<nat>, j: nat, k: nat)
    requires IsLexing(lx, text, b) && j < k < |b|
    ensures b[j] < b[k]
  {
    assert IsToken(lx, text, b[k - 1], b[k]);
    if j < k - 1 {
      TokensAdvance(lx, text, b, j, k - 1);
    }
  }

  // No cut lies inside a quoted or dollar-quoted literal.
  lemma NoCutInsideALiteral(lx: Lexis, text: string, b: seq<nat>, c: nat, k: nat)
    requires Proper(lx) && IsLexing(lx, text, b) && k < |b| - 1
    requires IsLiteral(lx, text, b[k], b[k + 1]) && IsCut(PiecesFrom(lx, text, 0, 0), c)
    ensures !(b[k] <= c < b[k + 1])
  {
    OneLexing(lx, text, b);
    CutsAreTopLevel(text, 0, b, c);
    var j :| 0 <= j < |b| - 1 && b[j] == c;
    if j < k {
      TokensAdvance(lx, text, b, j, k);
    } else if k < j {
      if k + 1 < j {
        TokensAdvance(lx, text, b, k + 1, j);
      }
    } else {
      LiteralsOpenWithAQuote(lx, text, b[k], b[k + 1]);
    }
  }

  lemma LiteralsOpenWithAQuote(lx: Lexis, text: string, a: nat, b: nat)
    requires Proper(lx) && IsLiteral(lx, text, a, b)
    ensures text[a] == '\'' || text[a] == '$'
  {
    if !IsQuoted(text, a, b) {
      var tag :| IsDollarQuoted(lx, text, a, b, tag);
      TagsAreUnique(lx, text, a, tag);
    }
  }

  function Rejoin(text: string, pieces: seq<Piece>): string {
    if pieces == [] then ""
    else if |pieces| == 1 then Slice(text, pieces[0])
    else Slice(text, pieces[0]) + ";" + Rejoin(text, pieces[1..])
  }

  lemma SemicolonBetween(text: string, start: nat, c: nat)
    requires start <= c < |text| && text[c] == ';'
    ensures text[start..c] + ";" + text[c + 1..] == text[start..]
  {
  }

  lemma RejoinFirst(text: string, start: nat, c: nat, tail: seq<Piece>)
    requires start <= c < |text| && text[c] == ';' && tail != [] && Rejoin(text, tail) == text[c + 1..]
    ensures Rejoin(text, [Piece(start, c)] + tail) == text[start..]
  {
    var all := [Piece(start, c)] + tail;
    assert all[1..] == tail && all[0] == Piece(start, c) && |all| > 1;
    assert Rejoin(text, all) == text[start..c] + ";" + text[c + 1..];
    SemicolonBetween(text, start, c);
  }

  lemma {:induction false} PiecesRejoin(lx: Lexis, text: string, start: nat, i: nat)
    requires start <= i <= |text|
    ensures PiecesFrom(lx, text, start, i) != [] && Rejoin(text, PiecesFrom(lx, text, start, i)) == text[start..]
    decreases |text| - i
  {
    if i == |text| {
      LastPiece(lx, text, start);
      assert text[start..|text|] == text[start..];
    } else {
      SkipToken(lx, text, start, i);
      if text[i] == ';' {
        PiecesRejoin(lx, text, i + 1, i + 1);
        RejoinFirst(text, start, i, PiecesFrom(lx, text, i + 1, i + 1));
      } else {
        PiecesRejoin(lx, text, start, TokenEnd(lx, text, i));
      }
    }
  }

  // The raw stretches, put back together with the semicolons they were cut at, are the text.
  lemma CutsLoseNothing(lx: Lexis, text: string)
    ensures Rejoin(text, PiecesFrom(lx, text, 0, 0)) == text
  {
    PiecesRejoin(lx, text, 0, 0);
    assert text[0..] == text;
  }

  // ------------------------------------------------------------------ joining and splitting

  function Join(statements: seq<string>): string {
    if statements == [] then ""
    else if |statements| == 1 then statements[0]
    else statements[0] + ";" + Join(statements[1..])
  }

  // From token boundary i on, every literal of s closes inside s and no semicolon is at top level.
  predicate SelfContained(lx: Lexis, s: string, i: nat)
    requires i <= |s|
    decreases |s| - i
  {
    i == |s| ||
    (&& s[i] != ';'
     && (s[i] == '\'' ==> QuoteAt(s, i + 1) < |s|)
     && (s[i] == '$' ==> TagAt(lx, s, i) == None || DollarEnd(lx, s, i).Some?)
     && SelfContained(lx, s, TokenEnd(lx, s, i)))
  }

  predicate IsStatement(lx: Lexis, s: string) {
    s != "" && !lx.blank(s[0]) && !lx.blank(s[|s| - 1]) && SelfContained(lx, s, 0)
  }

  // `text` holds s at p, followed by a character that continues no tag, or by nothing.
  predicate Holds(lx: Lexis, text: string, p: nat, s: string) {
    Occurs(text, s, p) && (p + |s| == |text| || (!lx.word(text[p + |s|]) && text[p + |s|] != '$'))
  }

  lemma HeldCharacters(text: string, p: nat, s: string)
    requires Occurs(text, s, p)
    ensures forall k :: 0 <= k < |s| ==> text[p + k] == s[k]
  {
    forall k | 0 <= k < |s| ensures text[p + k] == s[k] {
      assert text[p..p + |s|][k] == s[k];
    }
  }

  lemma {:induction false} QuoteInContext(text: string, p: nat, s: string, i: nat)
    requires Occurs(text, s, p) && i <= |s| && QuoteAt(s, i) < |s|
    ensures QuoteAt(text, p + i) == p + QuoteAt(s, i)
    decreases |s| - i
  {
    HeldCharacters(text, p, s);
    if i < |s| && s[i] != '\'' {
      QuoteInContext(text, p, s, i + 1);
    }
  }

  lemma {:induction false} WordInContext(lx: Lexis, text: string, p: nat, s: string, i: nat)
    requires Proper(lx) && Holds(lx, text, p, s) && i <= |s|
    ensures WordEnd(lx, text, p + i) == p + WordEnd(lx, s, i)
    decreases |s| - i
  {
    HeldCharacters(text, p, s);
    if i < |s| && lx.word(s[i]) {
      WordInContext(lx, text, p, s, i + 1);
    }
  }

  lemma TagInContext(lx: Lexis, text: string, p: nat, s: string, i: nat)
    requires Proper(lx) && Holds(lx, text, p, s) && i < |s| && s[i] == '$'
    ensures text[p + i] == '$' && TagAt(lx, text, p + i) == TagAt(lx, s, i)
  {
    HeldCharacters(text, p, s);
    WordInContext(lx, text, p, s, i + 1);
    var j := WordEnd(lx, s, i + 1);
    if j < |s| {
      assert text[p + i..p + j + 1] == s[i..j + 1];
    }
  }

  lemma OccursInContext(text: string, p: nat, s: string, part: string, k: nat)
    requires Occurs(text, s, p) && k + |part| <= |s|
    ensures Occurs(text, part, p + k) <==> Occurs(s, part, k)
  {
    HeldCharacters(text, p, s);
    assert text[p + k..p + k + |part|] == s[k..k + |part|];
  }

  lemma FindInContext(text: string, p: nat, s: string, part: string, i: nat)
    requires Occurs(text, s, p) && i <= |s| && Find(s, part, i).Some?
    ensures Find(text, part, p + i) == Some(p + Find(s, part, i).value)
  {
    var first, found := Find(s, part, i).value, Find(text, part, p + i);
    FindIsFirst(s, part, i);
    FindIsFirst(text, part, p + i);
    assert first <= |s| && p + first <= |text|;
    OccursInContext(text, p, s, part, first);
    if found.Some? && found.value < p + first {
      OccursInContext(text, p, s, part, found.value - p);
    }
  }

  lemma CloseInContext(text: string, p: nat, s: string, tag: string, i: nat)
    requires Occurs(text, s, p) && i + |tag| <= |s| && CloseAfter(s, tag, i).Some?
    ensures CloseAfter(text, tag, p + i) == Some(p + CloseAfter(s, tag, i).value)
  {
    var open := i + |tag|;
    FindInContext(text, p, s, tag, open);
    assert p + open == (p + i) + |tag|;
  }

  lemma DollarInContext(lx: Lexis, text: string, p: nat, s: string, i: nat)
    requires Proper(lx) && Holds(lx, text, p, s) && i < |s| && s[i] == '$'
    requires TagAt(lx, s, i) == None || DollarEnd(lx, s, i).Some?
    ensures text[p + i] == '$'
    ensures TagAt(lx, s, i) == None ==> DollarEnd(lx, text, p + i) == None
    ensures TagAt(lx, s, i).Some? ==> DollarEnd(lx, text, p + i) == Some(p + DollarEnd(lx, s, i).value)
  {
    TagInContext(lx, text, p, s, i);
    if TagAt(lx, s, i).Some? {
      CloseInContext(text, p, s, TagAt(lx, s, i).value, i);
    }
  }

  // A token that closes inside s is the same token wherever s stands.
  lemma TokenInContext(lx: Lexis, text: string, p: nat, s: string, i: nat)
    requires Proper(lx) && Holds(lx, text, p, s) && i < |s| && SelfContained(lx, s, i)
    ensures text[p + i] == s[i] && TokenEnd(lx, text, p + i) == p + TokenEnd(lx, s, i)
  {
    assert text[p..p + |s|][i] == s[i];
    if s[i] == '\'' {
      QuoteInContext(text, p, s, i + 1);
    } else if s[i] == '$' {
      DollarInContext(lx, text, p, s, i);
    }
  }

  lemma SkipInContext(lx: Lexis, text: string, p: nat, s: string, i: nat, next: nat)
    requires Proper(lx) && Holds(lx, text, p, s) && i < |s| && SelfContained(lx, s, i) && next == TokenEnd(lx, s, i)
    ensures PiecesFrom(lx, text, p, p + i) == PiecesFrom(lx, text, p, p + next)
  {
    TokenInContext(lx, text, p, s, i);
    SkipToken(lx, text, p, p + i);
  }

  lemma {:induction false} ScanThrough(lx: Lexis, text: string, p: nat, s: string, i: nat)
    requires Proper(lx) && Holds(lx, text, p, s) && i <= |s| && SelfContained(lx, s, i)
    ensures PiecesFrom(lx, text, p, p + i) == PiecesFrom(lx, text, p, p + |s|)
    decreases |s| - i
  {
    if i < |s| {
      var next := TokenEnd(lx, s, i);
      assert SelfContained(lx, s, next);
      assert PiecesFrom(lx, text, p, p + i) == PiecesFrom(lx, text, p, p + next) by {
        SkipInContext(lx, text, p, s, i, next);
      }
      ScanThrough(lx, text, p, s, next);
    }
  }

  lemma ClosesInContext(lx: Lexis, text: string, p: nat, s: string, i: nat)
    requires Proper(lx) && Holds(lx, text, p, s) && i < |s| && SelfContained(lx, s, i)
    requires SelfContained(lx, text, p + TokenEnd(lx, s, i))
    ensures SelfContained(lx, text, p + i)
  {
    TokenInContext(lx, text, p, s, i);
    if s[i] == '\'' {
      QuoteInContext(text, p, s, i + 1);
    } else if s[i] == '$' {
      TagInContext(lx, text, p, s, i);
      DollarInContext(lx, text, p, s, i);
    }
  }

  lemma {:induction false} ContainedInContext(lx: Lexis, text: string, p: nat, s: string, i: nat)
    requires Proper(lx) && Holds(lx, text, p, s) && i <= |s| && SelfContained(lx, s, i)
    requires SelfContained(lx, text, p + |s|)
    ensures SelfContained(lx, text, p + i)
    decreases |s| - i
  {
    if i < |s| {
      ContainedInContext(lx, text, p, s, TokenEnd(lx, s, i));
      ClosesInContext(lx, text, p, s, i);
    }
  }

  lemma {:induction false} BlanksAreContained(lx: Lexis, text: string, i: nat, n: nat)
    requires Proper(lx) && i + n <= |text| && AllBlank(lx, text[i..i + n]) && SelfContained(lx, text, i + n)
    ensures SelfContained(lx, text, i)
    decreases n
  {
    if n > 0 {
      assert lx.blank(text[i..i + n][0]);
      assert text[i + 1..i + n] == text[i..i + n][1..];
      BlanksAreContained(lx, text, i + 1, n - 1);
    }
  }

  // A statement between blanks, or blanks alone.
  datatype Chunk = Chunk(left: string, body: string, right: string)

  predicate IsChunk(lx: Lexis, c: Chunk) {
    AllBlank(lx, c.left) && AllBlank(lx, c.right) && (c.body == "" || IsStatement(lx, c.body))
  }

  function Written(c: Chunk): string {
    c.left + c.body + c.right
  }

  lemma ChunksTrim(lx: Lexis, c: Chunk)
    requires IsChunk(lx, c)
    ensures Strip(lx, Written(c)) == c.body
  {
    StripsExactly(lx, Written(c), c.body);
  }

  lemma ChunksAreContained(lx: Lexis, c: Chunk)
    requires Proper(lx) && IsChunk(lx, c)
    ensures SelfContained(lx, Written(c), 0)
  {
    var text, p, q := Written(c), |c.left|, |c.left| + |c.body|;
    assert text[q..q + |c.right|] == c.right && text[0..0 + p] == c.left && text[p..q] == c.body;
    BlanksAreContained(lx, text, q, |c.right|);
    if c.body != "" {
      assert q < |text| ==> text[q] == c.right[0];
      ContainedInContext(lx, text, p, c.body, 0);
    }
    BlanksAreContained(lx, text, 0, p);
  }

  function Texts(statements: seq<Statement>): seq<string> {
    if statements == [] then [] else [statements[0].text] + Texts(statements[1..])
  }

  // The texts of the statements a scan that starts a stretch at p finds.
  function TextsFrom(lx: Lexis, text: string, p: nat): seq<string>
    requires p <= |text|
  {
    Texts(Statements(lx, text, PiecesFrom(lx, text, p, p)))
  }

  // What splitting makes of one chunk.
  function Bodies(chunks: seq<Chunk>): seq<string> {
    if chunks == [] then []
    else (if chunks[0].body == "" then [] else [chunks[0].body]) + Bodies(chunks[1..])
  }

  lemma ChunkEmitted(lx: Lexis, text: string, p: nat, c: Chunk, q: nat, rest: seq<Piece>)
    requires Occurs(text, Written(c), p) && q == p + |Written(c)| && IsChunk(lx, c)
    ensures Texts(Statements(lx, text, [Piece(p, q)] + rest)) == Bodies([c]) + Texts(Statements(lx, text, rest))
  {
    assert text[p..q] == Written(c);
    ChunksTrim(lx, c);
    EmitFirst(lx, text, [], p, q, rest);
    var later := Statements(lx, text, rest);
    assert [] + Statements(lx, text, [Piece(p, q)] + rest) == Statements(lx, text, [Piece(p, q)] + rest);
    assert Bodies([]) == [] && [c][0] == c && [c][1..] == [];
    if c.body == "" {
      assert [] + later == later && Bodies([c]) + Texts(later) == Texts(later);
    } else {
      var all := [Statement(p, c.body)] + later;
      assert all[1..] == later && Emit(lx, text, [], p, q) == [Statement(p, c.body)];
      assert Bodies([c]) == [c.body];
    }
  }

  // The scan of a chunk in context yields its statement, and goes on after its semicolon if it has one.
  lemma ScanLastChunk(lx: Lexis, text: string, p: nat, c: Chunk)
    requires Proper(lx) && Holds(lx, text, p, Written(c)) && IsChunk(lx, c) && p + |Written(c)| == |text|
    ensures TextsFrom(lx, text, p) == Bodies([c])
  {
    ChunksAreContained(lx, c);
    ScanThrough(lx, text, p, Written(c), 0);
    LastPiece(lx, text, p);
    ChunkEmitted(lx, text, p, c, |text|, []);
    assert Texts(Statements(lx, text, [])) == [];
  }

  lemma ScanOneChunk(lx: Lexis, text: string, p: nat, c: Chunk, q: nat, next: nat)
    requires Proper(lx) && Holds(lx, text, p, Written(c)) && IsChunk(lx, c)
    requires q == p + |Written(c)| < |text| && text[q] == ';' && next == q + 1
    ensures TextsFrom(lx, text, p) == Bodies([c]) + TextsFrom(lx, text, next)
  {
    var rest := PiecesFrom(lx, text, next, next);
    assert PiecesFrom(lx, text, p, p) == [Piece(p, q)] + rest by {
      ChunksAreContained(lx, c);
      ScanThrough(lx, text, p, Written(c), 0);
      SkipToken(lx, text, p, q);
    }
    ChunkEmitted(lx, text, p, c, q, rest);
  }

  function AllWritten(chunks: seq<Chunk>): seq<string> {
    if chunks == [] then [] else [Written(chunks[0])] + AllWritten(chunks[1..])
  }

  // Where a join of chunks begins, its first chunk stands, before a semicolon or the end.
  lemma JoinHolds(lx: Lexis, text: string, p: nat, parts: seq<string>, q: nat, next: nat)
    requires Proper(lx) && parts != [] && p <= |text| && text[p..] == Join(parts)
    requires q == p + |parts[0]| && next == q + 1
    ensures Holds(lx, text, p, parts[0])
    ensures |parts| == 1 ==> q == |text|
    ensures |parts| > 1 ==> q < |text| && text[q] == ';' && text[next..] == Join(parts[1..])
  {
    var s := parts[0];
    assert text[p..][..|s|] == s && text[p..q] == s;
    if |parts| > 1 {
      assert text[p..][|s|] == ';' && text[p..][|s| + 1..] == Join(parts[1..]);
    }
  }

  lemma BodiesUnfold(chunks: seq<Chunk>)
    requires chunks != []
    ensures Bodies(chunks) == Bodies([chunks[0]]) + Bodies(chunks[1..])
    ensures AllWritten(chunks) != [] && AllWritten(chunks)[0] == Written(chunks[0])
    ensures AllWritten(chunks)[1..] == AllWritten(chunks[1..])
    ensures |AllWritten(chunks)| == 1 <==> |chunks| == 1
  {
    var rest, one := AllWritten(chunks[1..]), [chunks[0]];
    assert one[1..] == [] && one[0] == chunks[0];
    assert chunks[1..] != [] ==> rest != [];
  }

  lemma {:induction false} SplitFrom(lx: Lexis, text: string, p: nat, chunks: seq<Chunk>)
    requires Proper(lx) && chunks != [] && p <= |text| && text[p..] == Join(AllWritten(chunks))
    requires forall c :: c in chunks ==> IsChunk(lx, c)
    ensures TextsFrom(lx, text, p) == Bodies(chunks)
    decreases |chunks|
  {
    var c, rest := chunks[0], chunks[1..];
    assert c in chunks && chunks == [c] + rest;
    var q := p + |Written(c)|;
    var next := q + 1;
    BodiesUnfold(chunks);
    JoinHolds(lx, text, p, AllWritten(chunks), q, next);
    if rest == [] {
      ScanLastChunk(lx, text, p, c);
    } else {
      ScanOneChunk(lx, text, p, c, q, next);
      SplitFrom(lx, text, next, rest);
    }
  }

  // Joining statements with semicolons, between any blanks and with any blank stretches among them, and
  // splitting the result gives the statements back.
  lemma SplitInvertsJoin(lx: Lexis, chunks: seq<Chunk>)
    requires Proper(lx) && forall c :: c in chunks ==> IsChunk(lx, c)
    ensures Texts(Split(lx, Join(AllWritten(chunks)))) == Bodies(chunks)
  {
    var text := Join(AllWritten(chunks));
    if chunks == [] {
      assert Boundaries(lx, text, 0) == [0] && PiecesFrom(lx, text, 0, 0) == [Piece(0, 0)];
      assert Slice(text, Piece(0, 0)) == "" && Strip(lx, "") == "";
      assert Statements(lx, text, [Piece(0, 0)]) == [];
    } else {
      assert text[0..] == text;
      SplitFrom(lx, text, 0, chunks);
    }
  }
}
