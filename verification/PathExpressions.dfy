/**
 The evaluator of C++ path expressions: it normalises white space, splits conditionals and
 concatenations by hand-written scans, and resolves names through their declarations. Proved against
 the evaluation of the expression a text spells.
 */
module PathExpressions {
  import opened Options
  import opened Text

  // ------------------------------------------------------------------ the evaluator

  // The text's words; `word` is the one being read.
  function WordsFrom(word: string, rest: string): seq<string>
    decreases |rest|
  {
    if rest == "" then (if word == "" then [] else [word])
    else if Blank(rest[0]) then (if word == "" then [] else [word]) + WordsFrom("", rest[1..])
    else WordsFrom(word + [rest[0]], rest[1..])
  }

  function JoinWords(words: seq<string>): string {
    if words == [] then ""
    else if |words| == 1 then words[0]
    else words[0] + " " + JoinWords(words[1..])
  }

  function Normalize(text: string): string {
    JoinWords(WordsFrom("", text))
  }

  predicate IsOpen(c: char) {
    c == '(' || c == '[' || c == '{'
  }

  predicate IsClose(c: char) {
    c == ')' || c == ']' || c == '}'
  }

  datatype Ternary = Ternary(cond: string, whenTrue: string, whenFalse: string)

  // The scan of _split_ternary with `before` read and `rest` to read; `cond` is what stood before the
  // first top-level question mark.
  function TernaryFrom(before: string, rest: string, depth: int, inString: bool, cond: Option<string>): Option<Ternary>
    requires cond.Some? ==> |cond.value| < |before|
    decreases |rest|
  {
    if rest == "" then None
    else
      var ch := rest[0];
      if inString && ch == '\\' then
        if |rest| == 1 then None
        else TernaryFrom(before + rest[..2], rest[2..], depth, true, cond)
      else if inString then TernaryFrom(before + [ch], rest[1..], depth, ch != '"', cond)
      else if ch == '"' then TernaryFrom(before + [ch], rest[1..], depth, true, cond)
      else if IsOpen(ch) then TernaryFrom(before + [ch], rest[1..], depth + 1, false, cond)
      else if IsClose(ch) then TernaryFrom(before + [ch], rest[1..], depth - 1, false, cond)
      else if ch == '?' && depth == 0 && cond == None then
        TernaryFrom(before + [ch], rest[1..], depth, false, Some(before))
      else if ch == ':' && depth == 0 && cond.Some?
              && !((|rest| > 1 && rest[1] == ':') || (before != "" && before[|before| - 1] == ':')) then
        Some(Ternary(Strip(cond.value), Strip(before[|cond.value| + 1..]), Strip(rest[1..])))
      else TernaryFrom(before + [ch], rest[1..], depth, false, cond)
  }

  function SplitTernary(expr: string): Option<Ternary> {
    TernaryFrom("", expr, 0, false, None)
  }

  predicate BesideColon(expr: string, i: nat) {
    (i + 1 < |expr| && expr[i + 1] == ':') || (0 < i <= |expr| && expr[i - 1] == ':')
  }

  // The same scan by position; `qpos` is where the first top-level question mark stands.
  function ScanFrom(expr: string, i: nat, depth: int, inString: bool, qpos: Option<nat>): Option<Ternary>
    requires qpos.Some? ==> qpos.value < i && qpos.value < |expr|
    decreases |expr| - i
  {
    if i >= |expr| then None
    else
      var ch := expr[i];
      if inString && ch == '\\' then ScanFrom(expr, i + 2, depth, true, qpos)
      else if inString then ScanFrom(expr, i + 1, depth, ch != '"', qpos)
      else if ch == '"' then ScanFrom(expr, i + 1, depth, true, qpos)
      else if IsOpen(ch) then ScanFrom(expr, i + 1, depth + 1, false, qpos)
      else if IsClose(ch) then ScanFrom(expr, i + 1, depth - 1, false, qpos)
      else if ch == '?' && depth == 0 && qpos == None then ScanFrom(expr, i + 1, depth, false, Some(i))
      else if ch == ':' && depth == 0 && qpos.Some? && !BesideColon(expr, i) then
        Some(Ternary(Strip(expr[..qpos.value]), Strip(expr[qpos.value + 1..i]), Strip(expr[i + 1..])))
      else ScanFrom(expr, i + 1, depth, false, qpos)
  }

  function Upto(expr: string, qpos: Option<nat>): Option<string>
    requires qpos.Some? ==> qpos.value < |expr|
  {
    if qpos == None then None else Some(expr[..qpos.value])
  }

  lemma {:induction false} ScanIsTernary(expr: string, i: nat, depth: int, inString: bool, qpos: Option<nat>)
    requires i <= |expr| && (qpos.Some? ==> qpos.value < i)
    ensures ScanFrom(expr, i, depth, inString, qpos)
         == TernaryFrom(expr[..i], expr[i..], depth, inString, Upto(expr, qpos))
    decreases |expr| - i
  {
    if i < |expr| {
      var ch := expr[i];
      assert expr[i..][0] == ch && expr[..i] + [ch] == expr[..i + 1] && expr[i..][1..] == expr[i + 1..];
      if inString && ch == '\\' {
        if i + 1 < |expr| {
          assert expr[..i] + expr[i..][..2] == expr[..i + 2] && expr[i..][2..] == expr[i + 2..];
          ScanIsTernary(expr, i + 2, depth, true, qpos);
        }
      } else if inString {
        ScanIsTernary(expr, i + 1, depth, ch != '"', qpos);
      } else {
        ScanPlain(expr, i, depth, qpos);
      }
    }
  }

  lemma ScanPlain(expr: string, i: nat, depth: int, qpos: Option<nat>)
    requires i < |expr| && (qpos.Some? ==> qpos.value < i)
    ensures ScanFrom(expr, i, depth, false, qpos) == TernaryFrom(expr[..i], expr[i..], depth, false, Upto(expr, qpos))
    decreases |expr| - i, 0
  {
    var ch := expr[i];
    assert expr[i..][0] == ch && expr[..i] + [ch] == expr[..i + 1] && expr[i..][1..] == expr[i + 1..];
    if ch == '"' {
      ScanIsTernary(expr, i + 1, depth, true, qpos);
    } else if IsOpen(ch) {
      ScanIsTernary(expr, i + 1, depth + 1, false, qpos);
    } else if IsClose(ch) {
      ScanIsTernary(expr, i + 1, depth - 1, false, qpos);
    } else if ch == '?' && depth == 0 && qpos == None {
      ScanIsTernary(expr, i + 1, depth, false, Some(i));
    } else {
      assert i + 1 < |expr| ==> expr[i..][1] == expr[i + 1];
      assert i > 0 ==> expr[..i][i - 1] == expr[i - 1];
      assert qpos.Some? ==> expr[..i][qpos.value + 1..] == expr[qpos.value + 1..i];
      ScanIsTernary(expr, i + 1, depth, false, qpos);
    }
  }

  method ScanTernary(expr: string) returns (ternary: Option<Ternary>)
    ensures ternary == SplitTernary(expr)
  {
    assert SplitTernary(expr) == ScanFrom(expr, 0, 0, false, None) by {
      ScanIsTernary(expr, 0, 0, false, None);
      assert expr[..0] == "" && expr[0..] == expr;
    }
    var depth, inString, i := 0, false, 0;
    var qpos: Option<nat> := None;
    while i < |expr|
      invariant qpos.Some? ==> qpos.value < i && qpos.value < |expr|
      invariant ScanFrom(expr, i, depth, inString, qpos) == ScanFrom(expr, 0, 0, false, None)
      decreases |expr| - i
    {
      var ch := expr[i];
      if inString {
        if ch == '\\' {
          i := i + 2;
          continue;
        }
        if ch == '"' {
          inString := false;
        }
        i := i + 1;
        continue;
      }
      if ch == '"' {
        inString := true;
      } else if IsOpen(ch) {
        depth := depth + 1;
      } else if IsClose(ch) {
        depth := depth - 1;
      } else if ch == '?' && depth == 0 && qpos == None {
        qpos := Some(i);
      } else if ch == ':' && depth == 0 && qpos != None {
        if BesideColon(expr, i) {
          i := i + 1;
          continue;
        }
        return Some(Ternary(Strip(expr[..qpos.value]), Strip(expr[qpos.value + 1..i]), Strip(expr[i + 1..])));
      }
      i := i + 1;
    }
    return None;
  }

  function ConcatFrom(current: string, rest: string, inString: bool): seq<string>
    decreases |rest|
  {
    if rest == "" then [current]
    else
      var quoted := if rest[0] == '"' then !inString else inString;
      if rest[0] == '+' && !quoted then [current] + ConcatFrom("", rest[1..], quoted)
      else ConcatFrom(current + [rest[0]], rest[1..], quoted)
  }

  method SplitConcat(expr: string) returns (parts: seq<string>)
    ensures parts == ConcatFrom("", expr, false)
  {
    parts := [];
    var current, inString := "", false;
    for i := 0 to |expr|
      invariant parts + ConcatFrom(current, expr[i..], inString) == ConcatFrom("", expr, false)
    {
      var ch := expr[i];
      assert expr[i..][0] == ch && expr[i..][1..] == expr[i + 1..];
      if ch == '"' {
        inString := !inString;
      }
      if ch == '+' && !inString {
        parts := parts + [current];
        current := "";
        continue;
      }
      current := current + [ch];
    }
    parts := parts + [current];
  }

  // "[^"]*" matched against the whole of s.
  function MatchLiteral(s: string): Option<string> {
    if |s| >= 2 && s[0] == '"' && s[|s| - 1] == '"' && '"' !in s[1..|s| - 1] then Some(s[1..|s| - 1]) else None
  }

  const CAST := "std::string("

  // std::string\(\s*"[^"]*"\s*\) matched against the whole of s.
  function MatchCast(s: string): Option<string> {
    if |s| > |CAST| && StartsWith(s, CAST) && s[|s| - 1] == ')' then MatchLiteral(Strip(s[|CAST|..|s| - 1])) else None
  }

  function WordLength(s: string): (n: nat)
    ensures n <= |s|
  {
    if s != "" && Word(s[0]) then 1 + WordLength(s[1..]) else 0
  }

  // (\w+)\s*==\s*"([^"]*)" matched against the whole of s: the literal compared with.
  function MatchCondition(s: string): Option<string> {
    var afterName := StripLeft(s[WordLength(s)..]);
    if WordLength(s) == 0 || !StartsWith(afterName, "==") then None
    else MatchLiteral(StripLeft(afterName[2..]))
  }

  // A path, an error the evaluator reports, or recursion beyond the interpreter's limit.
  datatype Resolution = Path(path: string) | Refused | TooDeep

  function Resolve(limit: nat, expr: string, base: string, variables: map<string, string>): Resolution
    decreases limit, 1, 0
  {
    if limit == 0 then TooDeep
    else
      var text := Normalize(expr);
      if text == "" then Refused
      else
        match SplitTernary(text)
        case Some(t) =>
          (match MatchCondition(t.cond)
           case None => Refused
           case Some(literal) =>
             Resolve(limit - 1, if base == literal then t.whenTrue else t.whenFalse, base, variables))
        case None =>
          var r := ResolveParts(limit, "", ConcatFrom("", text, false), base, variables);
          if r.Path? && !StartsWith(r.path, "/") then Refused else r
  }

  // The value of one token, if the evaluator knows it.
  function ResolveToken(limit: nat, token: string, base: string, variables: map<string, string>): Resolution
    requires limit > 0
    decreases limit, 0, 0
  {
    if MatchLiteral(token).Some? then Path(MatchLiteral(token).value)
    else if MatchCast(token).Some? then Path(MatchCast(token).value)
    else if token == "basePath_" then Path(base)
    else if token in variables then Resolve(limit - 1, variables[token], base, variables)
    else Refused
  }

  // The accumulating loop of _resolve.
  function ResolveParts(
    limit: nat, out: string, parts: seq<string>, base: string, variables: map<string, string>): Resolution
    requires limit > 0
    decreases limit, 0, |parts| + 1
  {
    if parts == [] then Path(out)
    else
      var token := Strip(parts[0]);
      if token == "" then ResolveParts(limit, out, parts[1..], base, variables)
      else
        var r := ResolveToken(limit, token, base, variables);
        if r.Path? then ResolveParts(limit, out + r.path, parts[1..], base, variables) else r
  }

  method ResolvePath(limit: nat, expr: string, base: string, variables: map<string, string>) returns (r: Resolution)
    ensures r == Resolve(limit, expr, base, variables)
    decreases limit, 1
  {
    if limit == 0 {
      return TooDeep;
    }
    var text := Normalize(expr);
    if text == "" {
      return Refused;
    }
    var ternary := ScanTernary(text);
    if ternary.Some? {
      var literal := MatchCondition(ternary.value.cond);
      if literal == None {
        return Refused;
      }
      var branch := if base == literal.value then ternary.value.whenTrue else ternary.value.whenFalse;
      r := ResolvePath(limit - 1, branch, base, variables);
      return;
    }
    var parts := SplitConcat(text);
    var out := "";
    for i := 0 to |parts|
      invariant ResolveParts(limit, out, parts[i..], base, variables) == ResolveParts(limit, "", parts, base, variables)
    {
      assert parts[i..][0] == parts[i] && parts[i..][1..] == parts[i + 1..];
      var token := Strip(parts[i]);
      if token == "" {
        continue;
      }
      var value := TokenValue(limit, token, base, variables);
      if !value.Path? {
        return value;
      }
      out := out + value.path;
    }
    return if StartsWith(out, "/") then Path(out) else Refused;
  }

  // The loop's body: what one token adds, or why it adds nothing.
  method TokenValue(limit: nat, token: string, base: string, variables: map<string, string>) returns (r: Resolution)
    requires limit > 0
    ensures r == ResolveToken(limit, token, base, variables)
    decreases limit, 0
  {
    if MatchLiteral(token).Some? {
      return Path(MatchLiteral(token).value);
    }
    if MatchCast(token).Some? {
      return Path(MatchCast(token).value);
    }
    if token == "basePath_" {
      return Path(base);
    }
    if token in variables {
      r := ResolvePath(limit - 1, variables[token], base, variables);
      return;
    }
    return Refused;
  }

  // ------------------------------------------------------------------ expressions and their meaning

  datatype Term = Literal(text: string) | Cast(text: string) | Base | Name(name: string)

  // A concatenation of at least one term, or a conditional whose first branch is one and whose condition
  // compares the base path or a name with a literal.
  datatype Expr =
    | Concat(terms: seq<Term>)
    | Cond(subject: Term, test: string, whenTrue: seq<Term>, whenFalse: Expr)

  predicate Unescaped(s: string) {
    forall i :: 0 <= i < |s| ==> s[i] != '"' && s[i] != '\\'
  }

  // The text of a literal: no quotes, no escapes, and white space only as single spaces, which the
  // normalisation of an expression keeps.
  predicate IsText(s: string) {
    Unescaped(s) && Tidy(Quoted(s))
  }

  predicate Words(s: string) {
    forall i :: 0 <= i < |s| ==> Word(s[i])
  }

  predicate IsName(s: string) {
    s != "" && s != "basePath_" && Words(s)
  }

  predicate IsTerm(t: Term) {
    match t
    case Literal(text) => IsText(text)
    case Cast(text) => IsText(text)
    case Base => true
    case Name(name) => IsName(name)
  }

  predicate AreTerms(terms: seq<Term>) {
    terms != [] && forall t :: t in terms ==> IsTerm(t)
  }

  predicate IsSubject(t: Term) {
    t.Base? || (t.Name? && IsName(t.name))
  }

  predicate IsExpr(e: Expr) {
    match e
    case Concat(terms) => AreTerms(terms)
    case Cond(subject, test, whenTrue, whenFalse) =>
      IsSubject(subject) && IsText(test) && AreTerms(whenTrue) && IsExpr(whenFalse)
  }

  function Quoted(text: string): string {
    "\"" + text + "\""
  }

  // Whether a space stands before and after a token.
  datatype Gap = Gap(before: bool, after: bool)

  const TIGHT := Gap(false, false)

  function Pad(space: bool): string {
    if space then " " else ""
  }

  function Spread(gap: Gap, token: string): string {
    Pad(gap.before) + token + Pad(gap.after)
  }

  // The gaps of a text come in a fixed order, and those not listed are tight.
  function GapAt(gaps: seq<Gap>, i: nat): Gap {
    if i < |gaps| then gaps[i] else TIGHT
  }

  function Later(gaps: seq<Gap>, n: nat): seq<Gap> {
    if n <= |gaps| then gaps[n..] else []
  }

  // The gap of a cast surrounds its literal.
  function PrintTerm(t: Term, gap: Gap): string {
    match t
    case Literal(text) => Quoted(text)
    case Cast(text) => CAST + Spread(gap, Quoted(text)) + ")"
    case Base => "basePath_"
    case Name(name) => name
  }

  // A gap for each term and one for each plus sign.
  function PrintTerms(terms: seq<Term>, gaps: seq<Gap>): string
    decreases |terms|
  {
    if terms == [] then ""
    else if |terms| == 1 then PrintTerm(terms[0], GapAt(gaps, 0))
    else PrintTerm(terms[0], GapAt(gaps, 0)) + Spread(GapAt(gaps, 1), "+") + PrintTerms(terms[1..], Later(gaps, 2))
  }

  // What stands before the question mark.
  function PrintCondition(subject: Term, gap: Gap, test: string): string {
    PrintTerm(subject, TIGHT) + Spread(gap, "==") + Quoted(test)
  }

  // The gaps of a conditional: its comparison, question mark and colon, its first branch, its second.
  function TrueGaps(gaps: seq<Gap>): seq<Gap> {
    Later(gaps, 3)
  }

  function FalseGaps(whenTrue: seq<Term>, gaps: seq<Gap>): seq<Gap> {
    Later(gaps, 3 + 2 * |whenTrue|)
  }

  function PrintConditional(cond: string, question: Gap, whenTrue: string, colon: Gap, whenFalse: string): string {
    cond + Spread(question, "?") + whenTrue + Spread(colon, ":") + whenFalse
  }

  function Print(e: Expr, gaps: seq<Gap>): string
    decreases e
  {
    match e
    case Concat(terms) => PrintTerms(terms, gaps)
    case Cond(subject, test, whenTrue, whenFalse) =>
      PrintConditional(
        PrintCondition(subject, GapAt(gaps, 0), test), GapAt(gaps, 1), PrintTerms(whenTrue, TrueGaps(gaps)),
        GapAt(gaps, 2), Print(whenFalse, FalseGaps(whenTrue, gaps)))
  }

  // The text is s with a run of one or more blanks, of any kind, in place of each space.
  predicate Widens(text: string, s: string)
    decreases |text|
  {
    if s == "" then text == ""
    else if s[0] == ' ' then
      text != "" && Blank(text[0]) && (Widens(text[1..], s) || Widens(text[1..], s[1..]))
    else text != "" && text[0] == s[0] && Widens(text[1..], s[1..])
  }

  // The text is a widening of s between blanks.
  ghost predicate Writes(text: string, s: string) {
    exists i, j :: 0 <= i <= j <= |text| && AllBlank(text[..i]) && Widens(text[i..j], s) && AllBlank(text[j..])
  }

  // The text is the expression with any white space, or none, around its operators, inside its casts and at
  // both ends; each operator and cast may be spaced in its own way.
  ghost predicate Spells(text: string, e: Expr) {
    exists gaps: seq<Gap> :: Writes(text, Print(e, gaps))
  }

  // The declared names with the expressions they stand for, ranked so that each expression only uses
  // names of lower rank, and the configured base path.
  datatype Scope = Scope(env: map<string, Expr>, rank: map<string, nat>, base: string)

  // Every name in the terms is declared with a rank below h.
  ghost predicate TermsBelow(sc: Scope, h: nat, terms: seq<Term>) {
    forall n :: Name(n) in terms ==> n in sc.env && n in sc.rank && sc.rank[n] < h
  }

  // Every name the expression compares or concatenates is so declared.
  ghost predicate Below(sc: Scope, h: nat, e: Expr) {
    match e
    case Concat(terms) => TermsBelow(sc, h, terms)
    case Cond(subject, _, whenTrue, whenFalse) =>
      TermsBelow(sc, h, [subject]) && TermsBelow(sc, h, whenTrue) && Below(sc, h, whenFalse)
  }

  ghost predicate Acyclic(sc: Scope) {
    forall n :: n in sc.env ==> n in sc.rank && IsExpr(sc.env[n]) && Below(sc, sc.rank[n], sc.env[n])
  }

  // The value of the concatenations that the evaluator takes: at a conditional it compares the configured
  // base path with the literal, whatever the condition's left side is.
  ghost function Follow(sc: Scope, h: nat, e: Expr): string
    requires Acyclic(sc) && Below(sc, h, e)
    decreases h, 1, e
  {
    match e
    case Concat(terms) => FollowTerms(sc, h, terms)
    case Cond(_, test, whenTrue, whenFalse) =>
      if sc.base == test then FollowTerms(sc, h, whenTrue) else Follow(sc, h, whenFalse)
  }

  ghost function FollowTerm(sc: Scope, h: nat, t: Term): string
    requires Acyclic(sc) && TermsBelow(sc, h, [t])
    decreases h, 0, 0
  {
    match t
    case Literal(text) => text
    case Cast(text) => text
    case Base => sc.base
    case Name(n) => assert Name(n) in [t]; Follow(sc, sc.rank[n], sc.env[n])
  }

  ghost function FollowTerms(sc: Scope, h: nat, terms: seq<Term>): string
    requires Acyclic(sc) && TermsBelow(sc, h, terms)
    decreases h, 0, |terms| + 1
  {
    if terms == [] then "" else FollowTerm(sc, h, terms[0]) + FollowTerms(sc, h, terms[1..])
  }

  // Every concatenation that the evaluator reaches, in the expression and in the names it uses, has an
  // absolute path for its value.
  ghost predicate AllAbsolute(sc: Scope, h: nat, e: Expr)
    requires Acyclic(sc) && Below(sc, h, e)
    decreases h, 1, e
  {
    match e
    case Concat(terms) => NamesAbsolute(sc, h, terms) && StartsWith(FollowTerms(sc, h, terms), "/")
    case Cond(_, test, whenTrue, whenFalse) =>
      if sc.base == test then NamesAbsolute(sc, h, whenTrue) && StartsWith(FollowTerms(sc, h, whenTrue), "/")
      else AllAbsolute(sc, h, whenFalse)
  }

  ghost predicate NamesAbsolute(sc: Scope, h: nat, terms: seq<Term>)
    requires Acyclic(sc) && TermsBelow(sc, h, terms)
    decreases h, 0, |terms|
  {
    terms == [] ||
    (assert terms[0] in terms;
     && (terms[0].Name? ==> AllAbsolute(sc, sc.rank[terms[0].name], sc.env[terms[0].name]))
     && NamesAbsolute(sc, h, terms[1..]))
  }

  // The nested calls that resolving the expression takes.
  ghost function Depth(sc: Scope, h: nat, e: Expr): nat
    requires Acyclic(sc) && Below(sc, h, e)
    decreases h, 1, e
  {
    match e
    case Concat(terms) => 1 + DepthTerms(sc, h, terms)
    case Cond(_, test, whenTrue, whenFalse) =>
      if sc.base == test then 2 + DepthTerms(sc, h, whenTrue) else 1 + Depth(sc, h, whenFalse)
  }

  ghost function DepthTerms(sc: Scope, h: nat, terms: seq<Term>): nat
    requires Acyclic(sc) && TermsBelow(sc, h, terms)
    decreases h, 0, |terms|
  {
    if terms == [] then 0
    else
      assert terms[0] in terms;
      var first := if terms[0].Name? then Depth(sc, sc.rank[terms[0].name], sc.env[terms[0].name]) else 0;
      var rest := DepthTerms(sc, h, terms[1..]);
      if first > rest then first else rest
  }

  // ------------------------------------------------------------------ white space

  predicate NoBlanks(s: string) {
    forall i :: 0 <= i < |s| ==> !Blank(s[i])
  }

  // The text has single spaces between its words and no other white space.
  predicate Tidy(s: string) {
    && s != "" && !Blank(s[0]) && !Blank(s[|s| - 1])
    && forall i :: 0 <= i < |s| - 1 && Blank(s[i]) ==> s[i] == ' ' && !Blank(s[i + 1])
  }

  lemma TidyTail(word: string, rest: string)
    requires word != "" && Tidy(word + rest) && rest != "" && Blank(rest[0])
    ensures |rest| > 1 && rest[0] == ' ' && !Blank(rest[1]) && Tidy(rest[1..])
  {
    var s := word + rest;
    assert s[|word|] == rest[0] && s[|s| - 1] == rest[|rest| - 1];
    assert s[|word| + 1] == rest[1];
    assert forall i :: 0 <= i < |rest| - 1 ==> rest[1..][i] == s[|word| + 1 + i];
  }

  lemma JoinCons(word: string, words: seq<string>)
    requires words != []
    ensures JoinWords([word] + words) == word + " " + JoinWords(words)
  {
    assert ([word] + words)[1..] == words;
  }

  lemma {:induction false} WordsOfTidy(word: string, rest: string)
    requires word != "" && NoBlanks(word) && Tidy(word + rest)
    ensures WordsFrom(word, rest) != [] && JoinWords(WordsFrom(word, rest)) == word + rest
    decreases |rest|
  {
    if rest == "" {
      assert word + rest == word;
    } else if Blank(rest[0]) {
      TidyTail(word, rest);
      var next, first, tail := rest[1..], [rest[1]], rest[2..];
      assert next[0] == rest[1] && next[1..] == tail && first + tail == next;
      WordsOfTidy(first, tail);
      assert "" + first == first;
      assert WordsFrom("", next) == WordsFrom(first, tail);
      JoinCons(word, WordsFrom(first, tail));
      assert word + rest == word + " " + next;
    } else {
      assert (word + [rest[0]]) + rest[1..] == word + rest;
      WordsOfTidy(word + [rest[0]], rest[1..]);
    }
  }

  lemma TidyStays(s: string)
    requires Tidy(s)
    ensures Normalize(s) == s
  {
    assert [s[0]] + s[1..] == s && "" + [s[0]] == [s[0]];
    WordsOfTidy([s[0]], s[1..]);
    assert WordsFrom("", s) == WordsFrom([s[0]], s[1..]);
  }

  lemma {:induction false} BlanksBefore(blanks: string, rest: string)
    requires AllBlank(blanks)
    ensures WordsFrom("", blanks + rest) == WordsFrom("", rest)
    decreases |blanks|
  {
    if blanks == "" {
      assert blanks + rest == rest;
    } else {
      assert (blanks + rest)[0] == blanks[0] && (blanks + rest)[1..] == blanks[1..] + rest;
      BlanksBefore(blanks[1..], rest);
    }
  }

  lemma BlanksAfter(word: string, blanks: string)
    requires AllBlank(blanks)
    ensures WordsFrom(word, blanks) == WordsFrom(word, "")
  {
    if blanks != "" {
      BlanksBefore(blanks[1..], "");
      assert blanks[1..] + "" == blanks[1..];
    }
  }

  // A widening has the same words.
  lemma {:induction false} WidenedWords(word: string, text: string, s: string, blanks: string)
    requires Widens(text, s) && AllBlank(blanks)
    ensures WordsFrom(word, text + blanks) == WordsFrom(word, s)
    decreases |text|
  {
    if s == "" {
      assert text + blanks == blanks;
      BlanksAfter(word, blanks);
    } else {
      var rest := text[1..];
      assert (text + blanks)[0] == text[0] && (text + blanks)[1..] == rest + blanks;
      if s[0] != ' ' {
        WidenedWords(if Blank(s[0]) then "" else word + [s[0]], rest, s[1..], blanks);
      } else if Widens(rest, s[1..]) {
        WidenedWords("", rest, s[1..], blanks);
      } else {
        WidenedWords("", rest, s, blanks);
      }
    }
  }

  // Whatever white space stands for the spaces of a tidy text, and at its ends, is normalised away.
  lemma WrittenTextsNormalize(text: string, s: string)
    requires Tidy(s) && Writes(text, s)
    ensures Normalize(text) == s
  {
    var i, j :| 0 <= i <= j <= |text| && AllBlank(text[..i]) && Widens(text[i..j], s) && AllBlank(text[j..]);
    assert text == text[..i] + (text[i..j] + text[j..]);
    BlanksBefore(text[..i], text[i..j] + text[j..]);
    WidenedWords("", text[i..j], s, text[j..]);
    TidyStays(s);
  }

  lemma {:induction false} WidensItself(s: string)
    ensures Widens(s, s)
  {
    if s != "" {
      assert s[0] == ' ' ==> Blank(s[0]);
      WidensItself(s[1..]);
    }
  }

  lemma BlankTextsVanish(text: string)
    requires AllBlank(text)
    ensures Normalize(text) == ""
  {
    BlanksAfter("", text);
  }

  lemma TidyJoin(a: string, b: string)
    requires Tidy(a) && Tidy(b)
    ensures Tidy(a + " " + b)
  {
    var s := a + " " + b;
    assert s[|a|] == ' ' && s[|a| + 1] == b[0] && s[|s| - 1] == b[|b| - 1];
    forall i | 0 <= i < |s| - 1 && Blank(s[i]) ensures s[i] == ' ' && !Blank(s[i + 1]) {
      if i < |a| {
        assert s[i] == a[i];
        assert i < |a| - 1 && s[i + 1] == a[i + 1];
      } else if i > |a| {
        assert s[i] == b[i - |a| - 1] && s[i + 1] == b[i - |a|];
      }
    }
  }

  lemma TidyPad(a: string, space: bool, b: string)
    requires Tidy(a) && Tidy(b)
    ensures Tidy(a + Pad(space) + b)
  {
    if space {
      TidyJoin(a, b);
    } else {
      var s := a + b;
      assert a + Pad(space) + b == s;
      forall i | 0 <= i < |s| - 1 && Blank(s[i]) ensures s[i] == ' ' && !Blank(s[i + 1]) {
        if i < |a| {
          assert s[i] == a[i];
          assert i < |a| - 1 && s[i + 1] == a[i + 1];
        } else {
          assert s[i] == b[i - |a|] && s[i + 1] == b[i - |a| + 1];
        }
      }
    }
  }

  lemma TidySpread(a: string, gap: Gap, token: string, b: string)
    requires Tidy(a) && Tidy(token) && Tidy(b)
    ensures Tidy(a + Spread(gap, token) + b)
  {
    TidyPad(a, gap.before, token);
    TidyPad(a + Pad(gap.before) + token, gap.after, b);
    assert a + Spread(gap, token) + b == (a + Pad(gap.before) + token) + Pad(gap.after) + b;
  }

  // The text has no colon at either end; no printed expression has one.
  predicate Edged(s: string) {
    s != "" && s[0] != ':' && s[|s| - 1] != ':'
  }

  lemma EdgesStay(a: string, b: string, c: string)
    requires Edged(a) && Edged(c)
    ensures Edged(a + b + c)
  {
    var s := a + b + c;
    assert s[0] == a[0] && s[|s| - 1] == c[|c| - 1];
  }

  lemma TermIsTidy(t: Term, gap: Gap)
    requires IsTerm(t)
    ensures Tidy(PrintTerm(t, gap)) && Edged(PrintTerm(t, gap))
  {
    var s := PrintTerm(t, gap);
    match t {
      case Literal(text) =>
      case Cast(text) =>
        CastIsTidy();
        TidySpread(CAST, gap, Quoted(text), ")");
        assert s[0] == CAST[0] && s[|s| - 1] == ')';
      case Base =>
        assert s == ['b', 'a', 's', 'e', 'P', 'a', 't', 'h', '_'];
      case Name(name) =>
    }
  }

  lemma CastIsTidy()
    ensures Tidy(CAST) && CAST[0] == 's'
  {
    assert CAST == ['s', 't', 'd', ':', ':', 's', 't', 'r', 'i', 'n', 'g', '('];
  }

  lemma {:induction false} TermsAreTidy(terms: seq<Term>, gaps: seq<Gap>)
    requires AreTerms(terms)
    ensures Tidy(PrintTerms(terms, gaps)) && Edged(PrintTerms(terms, gaps))
    decreases |terms|
  {
    assert terms[0] in terms;
    TermIsTidy(terms[0], GapAt(gaps, 0));
    if |terms| > 1 {
      var first, rest := PrintTerm(terms[0], GapAt(gaps, 0)), PrintTerms(terms[1..], Later(gaps, 2));
      TermsAreTidy(terms[1..], Later(gaps, 2));
      TidySpread(first, GapAt(gaps, 1), "+", rest);
      EdgesStay(first, Spread(GapAt(gaps, 1), "+"), rest);
    }
  }

  lemma ConditionIsTidy(subject: Term, gap: Gap, test: string)
    requires IsSubject(subject) && IsText(test)
    ensures Tidy(PrintCondition(subject, gap, test)) && Edged(PrintCondition(subject, gap, test))
  {
    TermIsTidy(subject, TIGHT);
    TidySpread(PrintTerm(subject, TIGHT), gap, "==", Quoted(test));
    EdgesStay(PrintTerm(subject, TIGHT), Spread(gap, "=="), Quoted(test));
  }

  lemma ConditionalIsTidy(c: string, question: Gap, t: string, colon: Gap, f: string)
    requires Tidy(c) && Tidy(t) && Tidy(f) && Edged(c) && Edged(t) && Edged(f)
    ensures Tidy(PrintConditional(c, question, t, colon, f)) && Edged(PrintConditional(c, question, t, colon, f))
  {
    var left := c + Spread(question, "?") + t;
    TidySpread(c, question, "?", t);
    TidySpread(left, colon, ":", f);
    EdgesStay(c, Spread(question, "?"), t);
    EdgesStay(left, Spread(colon, ":"), f);
  }

  lemma {:induction false} PrintIsTidy(e: Expr, gaps: seq<Gap>)
    requires IsExpr(e)
    ensures Tidy(Print(e, gaps)) && Edged(Print(e, gaps))
    decreases e
  {
    match e {
      case Concat(terms) => TermsAreTidy(terms, gaps);
      case Cond(subject, test, whenTrue, whenFalse) =>
        ConditionIsTidy(subject, GapAt(gaps, 0), test);
        TermsAreTidy(whenTrue, TrueGaps(gaps));
        PrintIsTidy(whenFalse, FalseGaps(whenTrue, gaps));
        ConditionalIsTidy(
          PrintCondition(subject, GapAt(gaps, 0), test), GapAt(gaps, 1), PrintTerms(whenTrue, TrueGaps(gaps)),
          GapAt(gaps, 2), Print(whenFalse, FalseGaps(whenTrue, gaps)));
    }
  }

  lemma PadLeft(space: bool, s: string)
    requires s != "" && !Blank(s[0])
    ensures StripLeft(Pad(space) + s) == s
  {
    assert (" " + s)[1..] == s && "" + s == s;
  }

  lemma PadRight(s: string, space: bool)
    requires s != "" && !Blank(s[|s| - 1])
    ensures StripRight(s + Pad(space)) == s
  {
    assert (s + " ")[..|s|] == s && s + "" == s;
  }

  lemma StripOfTidy(left: bool, s: string, right: bool)
    requires Tidy(s)
    ensures Strip(Pad(left) + s + Pad(right)) == s
  {
    var padded := s + Pad(right);
    assert Pad(left) + s + Pad(right) == Pad(left) + padded;
    assert padded[0] == s[0];
    PadLeft(left, padded);
    PadRight(s, right);
  }

  // ------------------------------------------------------------------ the scan for a conditional

  predicate PlainForTernary(s: string) {
    forall i :: 0 <= i < |s| ==> s[i] != '"' && !IsOpen(s[i]) && !IsClose(s[i]) && s[i] != '?' && s[i] != ':'
  }

  lemma {:induction false} PlainTernary(before: string, seg: string, rest: string, depth: int, cond: Option<string>)
    requires PlainForTernary(seg) && (cond.Some? ==> |cond.value| < |before|)
    ensures TernaryFrom(before, seg + rest, depth, false, cond) == TernaryFrom(before + seg, rest, depth, false, cond)
    decreases |seg|
  {
    if seg == "" {
      assert seg + rest == rest && before + seg == before;
    } else {
      assert (seg + rest)[0] == seg[0] && (seg + rest)[1..] == seg[1..] + rest;
      assert (before + [seg[0]]) + seg[1..] == before + seg;
      PlainTernary(before + [seg[0]], seg[1..], rest, depth, cond);
    }
  }

  // The text of a literal as C++ writes it: each backslash takes the character behind it along.
  predicate Closed(text: string)
    decreases |text|
  {
    if text == "" then true
    else if text[0] == '\\' then |text| > 1 && Closed(text[2..])
    else text[0] != '"' && Closed(text[1..])
  }

  lemma {:induction false} UnescapedIsClosed(text: string)
    requires Unescaped(text)
    ensures Closed(text)
  {
    if text != "" {
      UnescapedIsClosed(text[1..]);
    }
  }

  // The scan passes over a literal, escapes included, whatever marks it holds.
  lemma {:induction false} StringTernary(before: string, text: string, rest: string, depth: int, cond: Option<string>)
    requires Closed(text) && (cond.Some? ==> |cond.value| < |before|)
    ensures TernaryFrom(before, text + "\"" + rest, depth, true, cond)
         == TernaryFrom(before + text + "\"", rest, depth, false, cond)
    decreases |text|
  {
    var all := text + "\"" + rest;
    if text == "" {
      assert all[0] == '"' && all[1..] == rest && before + text + "\"" == before + ['"'];
    } else if text[0] == '\\' {
      assert all[0] == text[0] && all[..2] == text[..2] && all[2..] == text[2..] + "\"" + rest;
      assert (before + text[..2]) + text[2..] + "\"" == before + text + "\"";
      StringTernary(before + text[..2], text[2..], rest, depth, cond);
    } else {
      assert all[0] == text[0] && all[1..] == text[1..] + "\"" + rest;
      assert (before + [text[0]]) + text[1..] + "\"" == before + text + "\"";
      StringTernary(before + [text[0]], text[1..], rest, depth, cond);
    }
  }

  lemma QuotedTernary(before: string, text: string, rest: string, depth: int, cond: Option<string>)
    requires Unescaped(text) && (cond.Some? ==> |cond.value| < |before|)
    ensures TernaryFrom(before, Quoted(text) + rest, depth, false, cond)
         == TernaryFrom(before + Quoted(text), rest, depth, false, cond)
  {
    UnescapedIsClosed(text);
    LiteralsHide(before, text, rest, depth, cond);
  }

  lemma LiteralsHide(before: string, text: string, rest: string, depth: int, cond: Option<string>)
    requires Closed(text) && (cond.Some? ==> |cond.value| < |before|)
    ensures TernaryFrom(before, Quoted(text) + rest, depth, false, cond)
         == TernaryFrom(before + Quoted(text), rest, depth, false, cond)
  {
    var all := Quoted(text) + rest;
    assert all[0] == '"' && all[1..] == text + "\"" + rest;
    assert before + ['"'] + text + "\"" == before + Quoted(text);
    StringTernary(before + ['"'], text, rest, depth, cond);
  }

  // No quotes and no brackets.
  predicate Bare(s: string) {
    forall i :: 0 <= i < |s| ==>
      s[i] != '"' && s[i] != '(' && s[i] != '[' && s[i] != '{' && s[i] != ')' && s[i] != ']' && s[i] != '}'
  }

  // Below the top level the scan stops at no question mark and no colon.
  lemma {:induction false} NestedTernary(before: string, seg: string, rest: string, depth: int, cond: Option<string>)
    requires Bare(seg) && depth != 0 && (cond.Some? ==> |cond.value| < |before|)
    ensures TernaryFrom(before, seg + rest, depth, false, cond) == TernaryFrom(before + seg, rest, depth, false, cond)
    decreases |seg|
  {
    if seg == "" {
      assert seg + rest == rest && before + seg == before;
    } else {
      assert (seg + rest)[0] == seg[0] && (seg + rest)[1..] == seg[1..] + rest;
      assert (before + [seg[0]]) + seg[1..] == before + seg;
      NestedTernary(before + [seg[0]], seg[1..], rest, depth, cond);
    }
  }

  // So round, square and curly brackets hide what they hold.
  lemma BracketsHide(before: string, left: char, seg: string, right: char, rest: string, cond: Option<string>)
    requires (left == '(' && right == ')') || (left == '[' && right == ']') || (left == '{' && right == '}')
    requires Bare(seg) && (cond.Some? ==> |cond.value| < |before|)
    ensures TernaryFrom(before, [left] + (seg + ([right] + rest)), 0, false, cond)
         == TernaryFrom(before + [left] + seg + [right], rest, 0, false, cond)
  {
    var tail := [right] + rest;
    var all := [left] + (seg + tail);
    assert all[0] == left && all[1..] == seg + tail;
    NestedTernary(before + [left], seg, tail, 1, cond);
    assert tail[0] == right && tail[1..] == rest;
  }

  // A colon beside another one splits nothing.
  lemma ColonTernary(before: string, rest: string, cond: Option<string>)
    requires cond.Some? ==> |cond.value| < |before|
    requires (rest != "" && rest[0] == ':') || (before != "" && before[|before| - 1] == ':')
    ensures TernaryFrom(before, ":" + rest, 0, false, cond) == TernaryFrom(before + ":", rest, 0, false, cond)
  {
    var s := ":" + rest;
    assert s[0] == ':' && s[1..] == rest;
    assert rest != "" ==> s[1] == rest[0];
  }

  lemma ScopeTernary(before: string, rest: string, cond: Option<string>)
    requires cond.Some? ==> |cond.value| < |before|
    ensures TernaryFrom(before, "::" + rest, 0, false, cond) == TernaryFrom(before + "::", rest, 0, false, cond)
  {
    var colon := ":";
    assert colon + (colon + rest) == "::" + rest;
    assert (before + colon) + colon == before + "::";
    ColonTernary(before, colon + rest, cond);
    ColonTernary(before + colon, rest, cond);
  }

  lemma Regroup(a: string, b: string, c: string, d: string)
    ensures a + b + c + d == a + (b + (c + d)) && a + b + c + d == a + (b + c + d)
  {
  }

  lemma RegroupFour(before: string, a: string, b: string, c: string, d: string, rest: string)
    ensures a + b + c + d + rest == a + (b + (c + (d + rest)))
    ensures before + a + b + c + d == before + (a + b + c + d)
  {
    Regroup(a, b, c, d);
    Regroup(before, a, b, c);
    assert before + (a + b + c) + d == before + ((a + b + c) + d);
    assert (a + b + c + d) + rest == (a + b + c) + (d + rest);
    Regroup(a, b, c, d + rest);
  }

  lemma CastOpens(before: string, rest: string, cond: Option<string>)
    requires cond.Some? ==> |cond.value| < |before|
    ensures TernaryFrom(before, CAST + rest, 0, false, cond) == TernaryFrom(before + CAST, rest, 1, false, cond)
  {
    var std, scope, name, open := "std", "::", "string", "(";
    assert CAST == std + scope + name + open;
    RegroupFour(before, std, scope, name, open, rest);
    PlainTernary(before, std, scope + (name + (open + rest)), 0, cond);
    ScopeTernary(before + std, name + (open + rest), cond);
    PlainTernary(before + std + scope, name, open + rest, 0, cond);
    OpenTernary(before + std + scope + name, rest, 0, cond);
  }

  lemma OpenTernary(before: string, rest: string, depth: int, cond: Option<string>)
    requires cond.Some? ==> |cond.value| < |before|
    ensures TernaryFrom(before, "(" + rest, depth, false, cond)
         == TernaryFrom(before + "(", rest, depth + 1, false, cond)
  {
    var s := "(" + rest;
    assert s[0] == '(' && s[1..] == rest;
  }

  lemma CastTernary(before: string, text: string, gap: Gap, rest: string, cond: Option<string>)
    requires Unescaped(text) && (cond.Some? ==> |cond.value| < |before|)
    ensures TernaryFrom(before, PrintTerm(Cast(text), gap) + rest, 0, false, cond)
         == TernaryFrom(before + PrintTerm(Cast(text), gap), rest, 0, false, cond)
  {
    var close := ")";
    var left, quoted, right, tail := Pad(gap.before), Quoted(text), Pad(gap.after), close + rest;
    assert CAST + Spread(gap, quoted) + close == CAST + left + quoted + right + close;
    RegroupFour(before, CAST, left, quoted, right, tail);
    assert (CAST + left + quoted + right + close) + rest == CAST + left + quoted + right + tail;
    CastOpens(before, left + (quoted + (right + tail)), cond);
    PlainTernary(before + CAST, left, quoted + (right + tail), 1, cond);
    QuotedTernary(before + CAST + left, text, right + tail, 1, cond);
    PlainTernary(before + CAST + left + quoted, right, tail, 1, cond);
    assert tail[0] == ')' && tail[1..] == rest;
    assert (before + CAST + left + quoted + right) + close == before + (CAST + left + quoted + right + close);
  }

  lemma TermTernary(before: string, t: Term, gap: Gap, rest: string, cond: Option<string>)
    requires IsTerm(t) && (cond.Some? ==> |cond.value| < |before|)
    ensures TernaryFrom(before, PrintTerm(t, gap) + rest, 0, false, cond)
         == TernaryFrom(before + PrintTerm(t, gap), rest, 0, false, cond)
  {
    match t {
      case Literal(text) => QuotedTernary(before, text, rest, 0, cond);
      case Cast(text) => CastTernary(before, text, gap, rest, cond);
      case Base =>
        assert PrintTerm(t, gap) == ['b', 'a', 's', 'e', 'P', 'a', 't', 'h', '_'];
        PlainTernary(before, PrintTerm(t, gap), rest, 0, cond);
      case Name(name) =>
        PlainTernary(before, name, rest, 0, cond);
    }
  }

  lemma {:induction false} TermsTernary(
    before: string, terms: seq<Term>, gaps: seq<Gap>, rest: string, cond: Option<string>)
    requires AreTerms(terms) && (cond.Some? ==> |cond.value| < |before|)
    ensures TernaryFrom(before, PrintTerms(terms, gaps) + rest, 0, false, cond)
         == TernaryFrom(before + PrintTerms(terms, gaps), rest, 0, false, cond)
    decreases |terms|
  {
    assert terms[0] in terms;
    var first := PrintTerm(terms[0], GapAt(gaps, 0));
    if |terms| == 1 {
      TermTernary(before, terms[0], GapAt(gaps, 0), rest, cond);
    } else {
      var plus, others := Spread(GapAt(gaps, 1), "+"), PrintTerms(terms[1..], Later(gaps, 2));
      Regroup(first, plus, others, rest);
      Regroup(before, first, plus, others);
      TermTernary(before, terms[0], GapAt(gaps, 0), plus + (others + rest), cond);
      PlainTernary(before + first, plus, others + rest, 0, cond);
      TermsTernary(before + first + plus, terms[1..], Later(gaps, 2), rest, cond);
    }
  }

  lemma NoTernaryInTerms(terms: seq<Term>, gaps: seq<Gap>)
    requires AreTerms(terms)
    ensures SplitTernary(PrintTerms(terms, gaps)) == None
  {
    TermsTernary("", terms, gaps, "", None);
    assert PrintTerms(terms, gaps) + "" == PrintTerms(terms, gaps);
  }

  lemma ScanCondition(subject: Term, gap: Gap, test: string, space: bool, rest: string)
    requires IsSubject(subject) && IsText(test)
    ensures var c := PrintCondition(subject, gap, test);
      TernaryFrom("", c + (Pad(space) + rest), 0, false, None) == TernaryFrom(c + Pad(space), rest, 0, false, None)
  {
    var name, equals, quoted := PrintTerm(subject, TIGHT), Spread(gap, "=="), Quoted(test);
    var c, r1 := PrintCondition(subject, gap, test), Pad(space) + rest;
    assert c + r1 == name + (equals + (quoted + r1));
    TermTernary("", subject, TIGHT, equals + (quoted + r1), None);
    assert "" + name == name;
    PlainTernary(name, equals, quoted + r1, 0, None);
    QuotedTernary(name + equals, test, r1, 0, None);
    PlainTernary(c, Pad(space), rest, 0, None);
  }

  lemma AtQuestion(before: string, rest: string)
    requires rest != "" && rest[0] == '?'
    ensures TernaryFrom(before, rest, 0, false, None) == TernaryFrom(before + ['?'], rest[1..], 0, false, Some(before))
  {
  }

  lemma AtColon(before: string, rest: string, cond: string)
    requires |rest| > 1 && rest[0] == ':' && rest[1] != ':'
    requires |cond| < |before| && before[|before| - 1] != ':'
    ensures TernaryFrom(before, rest, 0, false, Some(cond))
         == Some(Ternary(Strip(cond), Strip(before[|cond| + 1..]), Strip(rest[1..])))
  {
  }

  lemma BranchShapes(cond: string, a: bool, t: string, b: bool, d: bool, f: string)
    requires Edged(t) && Edged(f)
    ensures var before, rest := cond + ['?'] + Pad(a) + t + Pad(b), ":" + (Pad(d) + f);
      && before[|before| - 1] != ':' && before[|cond| + 1..] == Pad(a) + t + Pad(b)
      && |rest| > 1 && rest[0] == ':' && rest[1] != ':' && rest[1..] == Pad(d) + f
  {
    var before := cond + ['?'] + Pad(a) + t + Pad(b);
    assert before == (cond + ['?']) + (Pad(a) + t + Pad(b));
    assert before[|before| - 1] == if b then ' ' else t[|t| - 1];
  }

  lemma ScanBranches(c: string, question: Gap, whenTrue: seq<Term>, gaps: seq<Gap>, colon: Gap, f: string)
    requires Tidy(c) && AreTerms(whenTrue) && Tidy(f) && Edged(f)
    ensures var t := PrintTerms(whenTrue, gaps);
      TernaryFrom(
        c + Pad(question.before),
        "?" + (Pad(question.after) + (t + (Pad(colon.before) + (":" + (Pad(colon.after) + f))))), 0, false, None)
      == Some(Ternary(c, t, f))
  {
    var t, cond := PrintTerms(whenTrue, gaps), c + Pad(question.before);
    var r4 := ":" + (Pad(colon.after) + f);
    var r3 := Pad(colon.before) + r4;
    var r2 := t + r3;
    var r1 := Pad(question.after) + r2;
    var all := "?" + r1;
    var b1 := cond + ['?'];
    var b2 := b1 + Pad(question.after);
    var b3 := b2 + t;
    var b4 := b3 + Pad(colon.before);
    assert all[0] == '?' && all[1..] == r1;
    AtQuestion(cond, all);
    PlainTernary(b1, Pad(question.after), r2, 0, Some(cond));
    TermsTernary(b2, whenTrue, gaps, r3, Some(cond));
    PlainTernary(b3, Pad(colon.before), r4, 0, Some(cond));
    TermsAreTidy(whenTrue, gaps);
    BranchShapes(cond, question.after, t, colon.before, colon.after, f);
    AtColon(b4, r4, cond);
    StripParts(c, question, t, colon, f);
  }

  lemma StripParts(c: string, question: Gap, t: string, colon: Gap, f: string)
    requires Tidy(c) && Tidy(t) && Tidy(f)
    ensures Strip(c + Pad(question.before)) == c && Strip(Pad(question.after) + t + Pad(colon.before)) == t
    ensures Strip(Pad(colon.after) + f) == f
  {
    assert StripLeft(c + Pad(question.before)) == c + Pad(question.before) by {
      assert (c + Pad(question.before))[0] == c[0];
    }
    PadRight(c, question.before);
    StripOfTidy(question.after, t, colon.before);
    PadLeft(colon.after, f);
    assert StripRight(f) == f;
  }

  // The printed conditional splits into its printed parts.
  lemma TernaryInConditional(
    subject: Term, equals: Gap, test: string, question: Gap, whenTrue: seq<Term>, gaps: seq<Gap>, colon: Gap, f: string)
    requires IsSubject(subject) && IsText(test) && AreTerms(whenTrue) && Tidy(f) && Edged(f)
    ensures var c, t := PrintCondition(subject, equals, test), PrintTerms(whenTrue, gaps);
      SplitTernary(PrintConditional(c, question, t, colon, f)) == Some(Ternary(c, t, f))
  {
    var c, t := PrintCondition(subject, equals, test), PrintTerms(whenTrue, gaps);
    ConditionIsTidy(subject, equals, test);
    var tail := "?" + (Pad(question.after) + (t + (Pad(colon.before) + (":" + (Pad(colon.after) + f)))));
    ScanCondition(subject, equals, test, question.before, tail);
    ScanBranches(c, question, whenTrue, gaps, colon, f);
    QuestionApart(c, question, t, colon, f);
  }

  lemma SpreadApart(a: string, gap: Gap, token: string, b: string)
    ensures a + Spread(gap, token) + b == a + (Pad(gap.before) + (token + (Pad(gap.after) + b)))
  {
  }

  lemma QuestionApart(c: string, question: Gap, t: string, colon: Gap, f: string)
    ensures PrintConditional(c, question, t, colon, f)
         == c + (Pad(question.before)
              + ("?" + (Pad(question.after) + (t + (Pad(colon.before) + (":" + (Pad(colon.after) + f)))))))
  {
    SpreadApart(t, colon, ":", f);
    SpreadApart(c, question, "?", t + Spread(colon, ":") + f);
    Regroup(c + Spread(question, "?"), t, Spread(colon, ":"), f);
  }

  lemma {:induction false} NameLength(name: string, rest: string)
    requires Words(name) && (rest == "" || !Word(rest[0]))
    ensures WordLength(name + rest) == |name|
    decreases |name|
  {
    if name == "" {
      assert name + rest == rest;
    } else {
      assert (name + rest)[0] == name[0] && (name + rest)[1..] == name[1..] + rest;
      NameLength(name[1..], rest);
    }
  }

  lemma LiteralMatches(text: string)
    requires Unescaped(text)
    ensures MatchLiteral(Quoted(text)) == Some(text)
  {
    assert Quoted(text)[1..|Quoted(text)| - 1] == text;
  }

  // The pattern of a literal takes exactly a quoted text without a quote in it.
  lemma LiteralsExactly(s: string, text: string)
    ensures MatchLiteral(s) == Some(text) <==> s == Quoted(text) && '"' !in text
  {
    if s == Quoted(text) {
      assert s[1..|s| - 1] == text;
    }
    if MatchLiteral(s) == Some(text) {
      assert s == Quoted(s[1..|s| - 1]);
    }
  }

  // A literal between the parentheses, with any white space around it.
  ghost predicate IsCast(s: string, text: string) {
    exists left, right :: AllBlank(left) && AllBlank(right) && s == CAST + (left + Quoted(text) + right) + ")"
  }

  // The pattern of a cast takes exactly these.
  lemma CastsExactly(s: string, text: string)
    ensures MatchCast(s) == Some(text) <==> IsCast(s, text) && '"' !in text
  {
    if '"' !in text {
      forall left, right | AllBlank(left) && AllBlank(right) && s == CAST + (left + Quoted(text) + right) + ")"
        ensures MatchCast(s) == Some(text)
      {
        CastsMatch(s, left, right, text);
      }
    }
    if MatchCast(s) == Some(text) {
      MatchedIsCast(s, text);
    }
  }

  lemma CastsMatch(s: string, left: string, right: string, text: string)
    requires AllBlank(left) && AllBlank(right) && '"' !in text
    requires s == CAST + (left + Quoted(text) + right) + ")"
    ensures MatchCast(s) == Some(text)
  {
    var n := |CAST|;
    assert s[..n] == CAST && s[n..|s| - 1] == left + Quoted(text) + right;
    StripMiddle(left, Quoted(text), right);
    LiteralsExactly(Quoted(text), text);
  }

  lemma MatchedIsCast(s: string, text: string)
    requires MatchCast(s) == Some(text)
    ensures IsCast(s, text) && '"' !in text
  {
    var n := |CAST|;
    var inner := s[n..|s| - 1];
    LiteralsExactly(Strip(inner), text);
    var left, right := StripsExactly(inner);
    assert s[..n] == CAST && s[|s| - 1..] == ")";
    assert s == s[..n] + inner + s[|s| - 1..];
  }

  lemma {:induction false} WordLengthSplits(s: string)
    ensures Words(s[..WordLength(s)]) && (WordLength(s) < |s| ==> !Word(s[WordLength(s)]))
  {
    if s != "" && Word(s[0]) {
      WordLengthSplits(s[1..]);
      assert s[..WordLength(s)] == [s[0]] + s[1..][..WordLength(s) - 1];
    }
  }

  // A word compared with a literal, with any white space beside `==`.
  predicate IsComparison(s: string, name: string, left: string, right: string, text: string) {
    && name != "" && Words(name) && AllBlank(left) && AllBlank(right)
    && s == name + (left + ("==" + (right + Quoted(text))))
  }

  // The pattern of a condition takes exactly these.
  lemma ConditionsExactly(s: string, text: string)
    ensures MatchCondition(s) == Some(text)
      <==> '"' !in text && exists name, left, right :: IsComparison(s, name, left, right, text)
  {
    if '"' !in text {
      forall name, left, right | IsComparison(s, name, left, right, text)
        ensures MatchCondition(s) == Some(text)
      {
        ComparisonsMatch(s, name, left, right, text);
      }
    }
    if MatchCondition(s) == Some(text) {
      var name, left, right := MatchedIsComparison(s, text);
    }
  }

  lemma MatchedIsComparison(s: string, text: string) returns (name: string, left: string, right: string)
    requires MatchCondition(s) == Some(text)
    ensures IsComparison(s, name, left, right, text) && '"' !in text
  {
    var n := WordLength(s);
    var tail := s[n..];
    var afterName := StripLeft(tail);
    var rest := afterName[2..];
    WordLengthSplits(s);
    name := s[..n];
    left := StripLeftSplits(tail);
    right := StripLeftSplits(rest);
    LiteralsExactly(StripLeft(rest), text);
    PrefixApart(afterName, "==");
    PrefixApart(s, name);
  }

  lemma PrefixApart(s: string, prefix: string)
    requires prefix <= s
    ensures s == prefix + s[|prefix|..]
  {
  }

  lemma ComparisonsMatch(s: string, name: string, left: string, right: string, text: string)
    requires IsComparison(s, name, left, right, text) && '"' !in text
    ensures MatchCondition(s) == Some(text)
  {
    var rest := right + Quoted(text);
    var equals := "==" + rest;
    var tail := left + equals;
    BlankIsNoWord(left);
    assert tail[0] == if left == "" then '=' else left[0];
    NameLength(name, tail);
    assert s[|name|..] == tail;
    StripLeftDrops(left, equals);
    assert equals[..2] == "==" && equals[2..] == rest;
    StripLeftDrops(right, Quoted(text));
    LiteralsExactly(Quoted(text), text);
  }

  lemma BlankIsNoWord(blanks: string)
    requires AllBlank(blanks)
    ensures blanks != "" ==> !Word(blanks[0])
  {
  }

  lemma SubjectsAreWords(subject: Term)
    requires IsSubject(subject)
    ensures PrintTerm(subject, TIGHT) != "" && Words(PrintTerm(subject, TIGHT))
  {
    assert subject.Base? ==> PrintTerm(subject, TIGHT) == ['b', 'a', 's', 'e', 'P', 'a', 't', 'h', '_'];
  }

  lemma ConditionMatches(subject: Term, gap: Gap, test: string)
    requires IsSubject(subject) && IsText(test)
    ensures MatchCondition(PrintCondition(subject, gap, test)) == Some(test)
  {
    var name, c, quoted := PrintTerm(subject, TIGHT), PrintCondition(subject, gap, test), Quoted(test);
    var padded := Pad(gap.after) + quoted;
    var equals := "==" + padded;
    var spaced := Pad(gap.before) + equals;
    SubjectsAreWords(subject);
    SpreadApart(name, gap, "==", quoted);
    assert c == name + spaced && !Word(spaced[0]);
    NameLength(name, spaced);
    assert c[|name|..] == spaced && c[..|name|] == name;
    PadLeft(gap.before, equals);
    assert equals[..2] == "==" && equals[2..] == padded;
    PadLeft(gap.after, quoted);
    LiteralMatches(test);
  }

  // ------------------------------------------------------------------ the scan for a concatenation

  lemma {:induction false} PlainConcat(current: string, seg: string, rest: string)
    requires forall i :: 0 <= i < |seg| ==> seg[i] != '"' && seg[i] != '+'
    ensures ConcatFrom(current, seg + rest, false) == ConcatFrom(current + seg, rest, false)
    decreases |seg|
  {
    if seg == "" {
      assert seg + rest == rest && current + seg == current;
    } else {
      assert (seg + rest)[0] == seg[0] && (seg + rest)[1..] == seg[1..] + rest;
      assert (current + [seg[0]]) + seg[1..] == current + seg;
      PlainConcat(current + [seg[0]], seg[1..], rest);
    }
  }

  lemma {:induction false} StringConcat(current: string, text: string, rest: string)
    requires Unescaped(text)
    ensures ConcatFrom(current, text + "\"" + rest, true) == ConcatFrom(current + text + "\"", rest, false)
    decreases |text|
  {
    var all := text + "\"" + rest;
    if text == "" {
      assert all[0] == '"' && all[1..] == rest && current + text + "\"" == current + ['"'];
    } else {
      assert all[0] == text[0] && all[1..] == text[1..] + "\"" + rest;
      assert (current + [text[0]]) + text[1..] + "\"" == current + text + "\"";
      StringConcat(current + [text[0]], text[1..], rest);
    }
  }

  lemma QuotedConcat(current: string, text: string, rest: string)
    requires Unescaped(text)
    ensures ConcatFrom(current, Quoted(text) + rest, false) == ConcatFrom(current + Quoted(text), rest, false)
  {
    var all := Quoted(text) + rest;
    assert all[0] == '"' && all[1..] == text + "\"" + rest;
    assert current + ['"'] + text + "\"" == current + Quoted(text);
    StringConcat(current + ['"'], text, rest);
  }

  lemma CastConcat(current: string, text: string, gap: Gap, rest: string)
    requires Unescaped(text)
    ensures ConcatFrom(current, PrintTerm(Cast(text), gap) + rest, false)
         == ConcatFrom(current + PrintTerm(Cast(text), gap), rest, false)
  {
    assert CAST == ['s', 't', 'd', ':', ':', 's', 't', 'r', 'i', 'n', 'g', '('];
    var head, quoted, tail := CAST + Pad(gap.before), Quoted(text), Pad(gap.after) + ")";
    var all := head + quoted + tail;
    assert PrintTerm(Cast(text), gap) == all;
    assert all + rest == head + (quoted + (tail + rest));
    PlainConcat(current, head, quoted + (tail + rest));
    QuotedConcat(current + head, text, tail + rest);
    PlainConcat(current + head + quoted, tail, rest);
    assert (current + head + quoted) + tail == current + all;
  }

  lemma TermConcat(current: string, t: Term, gap: Gap, rest: string)
    requires IsTerm(t)
    ensures ConcatFrom(current, PrintTerm(t, gap) + rest, false)
         == ConcatFrom(current + PrintTerm(t, gap), rest, false)
  {
    match t {
      case Literal(text) => QuotedConcat(current, text, rest);
      case Cast(text) => CastConcat(current, text, gap, rest);
      case Base =>
        assert PrintTerm(t, gap) == ['b', 'a', 's', 'e', 'P', 'a', 't', 'h', '_'];
        PlainConcat(current, PrintTerm(t, gap), rest);
      case Name(name) =>
        PlainConcat(current, name, rest);
    }
  }

  // The parts of a printed concatenation: the printed terms with the spaces beside the plus signs; `pad`
  // stands before the first.
  function Parts(pad: bool, terms: seq<Term>, gaps: seq<Gap>): seq<string>
    decreases |terms|
  {
    if terms == [] then []
    else
      var first := Pad(pad) + PrintTerm(terms[0], GapAt(gaps, 0));
      if |terms| == 1 then [first]
      else [first + Pad(GapAt(gaps, 1).before)] + Parts(GapAt(gaps, 1).after, terms[1..], Later(gaps, 2))
  }

  lemma {:induction false} TermsConcat(pad: bool, terms: seq<Term>, gaps: seq<Gap>)
    requires AreTerms(terms)
    ensures ConcatFrom("", Pad(pad) + PrintTerms(terms, gaps), false) == Parts(pad, terms, gaps)
    decreases |terms|
  {
    assert terms[0] in terms;
    var first := PrintTerm(terms[0], GapAt(gaps, 0));
    assert "" + Pad(pad) == Pad(pad);
    if |terms| == 1 {
      PlainConcat("", Pad(pad), first);
      assert first + "" == first;
      TermConcat(Pad(pad), terms[0], GapAt(gaps, 0), "");
    } else {
      var gap, others := GapAt(gaps, 1), PrintTerms(terms[1..], Later(gaps, 2));
      var later := Pad(gap.after) + others;
      var plus := "+" + later;
      SpreadApart(first, gap, "+", others);
      PlainConcat("", Pad(pad), first + (Pad(gap.before) + plus));
      TermConcat(Pad(pad), terms[0], GapAt(gaps, 0), Pad(gap.before) + plus);
      PlainConcat(Pad(pad) + first, Pad(gap.before), plus);
      assert plus[0] == '+' && plus[1..] == later;
      TermsConcat(gap.after, terms[1..], Later(gaps, 2));
    }
  }

  // ------------------------------------------------------------------ correctness

  // The declarations as text: each spells its expression.
  ghost predicate Declares(sc: Scope, variables: map<string, string>) {
    forall n :: n in sc.env ==> n in variables && Spells(variables[n], sc.env[n])
  }

  lemma TokensAreRecognised(t: Term, gap: Gap)
    requires IsTerm(t)
    ensures match t
      case Literal(text) => MatchLiteral(PrintTerm(t, gap)) == Some(text)
      case Cast(text) => MatchLiteral(PrintTerm(t, gap)) == None && MatchCast(PrintTerm(t, gap)) == Some(text)
      case Base => MatchLiteral(PrintTerm(t, gap)) == None && MatchCast(PrintTerm(t, gap)) == None
      case Name(name) => MatchLiteral(name) == None && MatchCast(name) == None && name != "basePath_"
  {
    match t {
      case Literal(text) => LiteralMatches(text);
      case Cast(text) =>
        var s := PrintTerm(t, gap);
        assert CAST[0] == 's' && s[0] == 's' && s[..|CAST|] == CAST;
        assert s[|CAST|..|s| - 1] == Spread(gap, Quoted(text));
        StripOfTidy(gap.before, Quoted(text), gap.after);
        LiteralMatches(text);
      case Base =>
        assert PrintTerm(t, gap)[0] == 'b' && CAST[0] == 's';
      case Name(name) =>
        assert CAST[3] == ':';
        assert |name| > 3 ==> Word(name[3]);
    }
  }

  lemma PartsShape(pad: bool, terms: seq<Term>, gaps: seq<Gap>)
    requires terms != []
    ensures var parts, token := Parts(pad, terms, gaps), PrintTerm(terms[0], GapAt(gaps, 0));
      && parts != [] && parts[1..] == Parts(GapAt(gaps, 1).after, terms[1..], Later(gaps, 2))
      && parts[0] == Pad(pad) + token + Pad(|terms| > 1 && GapAt(gaps, 1).before)
  {
    var first := Pad(pad) + PrintTerm(terms[0], GapAt(gaps, 0));
    assert first + Pad(false) == first;
  }

  lemma PartsUnfold(pad: bool, terms: seq<Term>, gaps: seq<Gap>)
    requires terms != [] && IsTerm(terms[0])
    ensures var parts, token := Parts(pad, terms, gaps), PrintTerm(terms[0], GapAt(gaps, 0));
      && parts != [] && Strip(parts[0]) == token != ""
      && parts[1..] == Parts(GapAt(gaps, 1).after, terms[1..], Later(gaps, 2))
  {
    PartsShape(pad, terms, gaps);
    TermIsTidy(terms[0], GapAt(gaps, 0));
    StripOfTidy(pad, PrintTerm(terms[0], GapAt(gaps, 0)), |terms| > 1 && GapAt(gaps, 1).before);
  }

  lemma TermsUnfold(sc: Scope, h: nat, terms: seq<Term>)
    requires Acyclic(sc) && TermsBelow(sc, h, terms) && terms != []
    ensures TermsBelow(sc, h, [terms[0]]) && TermsBelow(sc, h, terms[1..])
    ensures NamesAbsolute(sc, h, terms) <==> NamesAbsolute(sc, h, [terms[0]]) && NamesAbsolute(sc, h, terms[1..])
    ensures DepthTerms(sc, h, [terms[0]]) <= DepthTerms(sc, h, terms)
    ensures DepthTerms(sc, h, terms[1..]) <= DepthTerms(sc, h, terms)
  {
    var t := terms[0];
    assert t in terms && [t][0] == t && [t][1..] == [] && t in [t];
    assert NamesAbsolute(sc, h, []) && DepthTerms(sc, h, []) == 0;
  }

  lemma {:induction false} PartsResolve(
    sc: Scope, variables: map<string, string>, limit: nat, h: nat, out: string, pad: bool, terms: seq<Term>,
    gaps: seq<Gap>)
    requires Acyclic(sc) && Declares(sc, variables) && TermsBelow(sc, h, terms)
    requires (forall t :: t in terms ==> IsTerm(t)) && limit > DepthTerms(sc, h, terms)
    ensures ResolveParts(limit, out, Parts(pad, terms, gaps), sc.base, variables)
         == if NamesAbsolute(sc, h, terms) then Path(out + FollowTerms(sc, h, terms)) else Refused
    decreases h, 0, |terms|
  {
    if terms == [] {
      assert out + "" == out;
    } else {
      var t, later := terms[0], terms[1..];
      assert t in terms;
      PartsUnfold(pad, terms, gaps);
      TermsUnfold(sc, h, terms);
      TokenResolves(sc, variables, limit, h, t, GapAt(gaps, 0));
      if NamesAbsolute(sc, h, [t]) {
        PartsResolve(sc, variables, limit, h, out + FollowTerm(sc, h, t), GapAt(gaps, 1).after, later, Later(gaps, 2));
        assert (out + FollowTerm(sc, h, t)) + FollowTerms(sc, h, later) == out + FollowTerms(sc, h, terms);
      }
    }
  }

  lemma OneName(sc: Scope, h: nat, n: string)
    requires Acyclic(sc) && TermsBelow(sc, h, [Name(n)])
    ensures n in sc.env && n in sc.rank && sc.rank[n] < h
    ensures NamesAbsolute(sc, h, [Name(n)]) <==> AllAbsolute(sc, sc.rank[n], sc.env[n])
    ensures DepthTerms(sc, h, [Name(n)]) == Depth(sc, sc.rank[n], sc.env[n])
    ensures FollowTerm(sc, h, Name(n)) == Follow(sc, sc.rank[n], sc.env[n])
  {
    var terms, none: seq<Term> := [Name(n)], [];
    assert Name(n) in terms && terms[0] == Name(n) && terms[1..] == none;
    assert NamesAbsolute(sc, h, none) && DepthTerms(sc, h, none) == 0;
  }

  lemma NoName(sc: Scope, h: nat, t: Term)
    requires Acyclic(sc) && TermsBelow(sc, h, [t]) && !t.Name?
    ensures NamesAbsolute(sc, h, [t])
  {
    var terms, none: seq<Term> := [t], [];
    assert terms[0] == t && terms[1..] == none && NamesAbsolute(sc, h, none);
  }

  lemma {:induction false} TokenResolves(
    sc: Scope, variables: map<string, string>, limit: nat, h: nat, t: Term, gap: Gap)
    requires Acyclic(sc) && Declares(sc, variables) && TermsBelow(sc, h, [t]) && IsTerm(t)
    requires limit > DepthTerms(sc, h, [t])
    ensures ResolveToken(limit, PrintTerm(t, gap), sc.base, variables)
         == if NamesAbsolute(sc, h, [t]) then Path(FollowTerm(sc, h, t)) else Refused
    decreases h, 0, 0, 2
  {
    if t.Name? {
      NameResolves(sc, variables, limit, h, t.name);
    } else {
      TokensAreRecognised(t, gap);
      NoName(sc, h, t);
    }
  }

  lemma DeclaredNames(sc: Scope, variables: map<string, string>, n: string)
    requires Acyclic(sc) && Declares(sc, variables) && n in sc.env
    ensures n in variables && Spells(variables[n], sc.env[n])
    ensures IsExpr(sc.env[n]) && n in sc.rank && Below(sc, sc.rank[n], sc.env[n])
  {
  }

  lemma NamesAreLookedUp(limit: nat, n: string, base: string, variables: map<string, string>)
    requires IsName(n) && limit > 0 && n in variables
    ensures ResolveToken(limit, n, base, variables) == Resolve(limit - 1, variables[n], base, variables)
  {
    TokensAreRecognised(Name(n), TIGHT);
  }

  lemma NameOutcome(sc: Scope, h: nat, n: string)
    requires Acyclic(sc) && TermsBelow(sc, h, [Name(n)]) && n in sc.env && n in sc.rank
    requires Below(sc, sc.rank[n], sc.env[n])
    ensures Outcome(sc, sc.rank[n], sc.env[n])
         == if NamesAbsolute(sc, h, [Name(n)]) then Path(FollowTerm(sc, h, Name(n))) else Refused
  {
    OneName(sc, h, n);
  }

  lemma {:induction false} NameFollows(
    sc: Scope, variables: map<string, string>, limit: nat, text: string, h: nat, k: nat, e: Expr)
    requires Acyclic(sc) && Declares(sc, variables) && IsExpr(e) && Below(sc, k, e) && k < h
    requires Spells(text, e) && limit > Depth(sc, k, e)
    ensures Resolve(limit - 1, text, sc.base, variables) == Outcome(sc, k, e)
    decreases h, 0, 0, 0
  {
    ResolveFollows(sc, variables, limit - 1, text, k, e);
  }

  lemma {:induction false} NameResolves(sc: Scope, variables: map<string, string>, limit: nat, h: nat, n: string)
    requires Acyclic(sc) && Declares(sc, variables) && TermsBelow(sc, h, [Name(n)]) && IsName(n)
    requires limit > DepthTerms(sc, h, [Name(n)])
    ensures ResolveToken(limit, n, sc.base, variables)
         == if NamesAbsolute(sc, h, [Name(n)]) then Path(FollowTerm(sc, h, Name(n))) else Refused
    decreases h, 0, 0, 1
  {
    OneName(sc, h, n);
    DeclaredNames(sc, variables, n);
    NamesAreLookedUp(limit, n, sc.base, variables);
    NameFollows(sc, variables, limit, variables[n], h, sc.rank[n], sc.env[n]);
    NameOutcome(sc, h, n);
  }

  // A conditional's text splits into the texts of its parts.
  lemma ConditionalSplits(text: string, e: Expr, gaps: seq<Gap>)
    requires e.Cond? && IsExpr(e) && Normalize(text) == Print(e, gaps)
    ensures SplitTernary(Normalize(text)) == Some(Ternary(
      PrintCondition(e.subject, GapAt(gaps, 0), e.test), PrintTerms(e.whenTrue, TrueGaps(gaps)),
      Print(e.whenFalse, FalseGaps(e.whenTrue, gaps))))
    ensures Normalize(text) != ""
  {
    PrintIsTidy(e, gaps);
    PrintIsTidy(e.whenFalse, FalseGaps(e.whenTrue, gaps));
    TernaryInConditional(
      e.subject, GapAt(gaps, 0), e.test, GapAt(gaps, 1), e.whenTrue, TrueGaps(gaps), GapAt(gaps, 2),
      Print(e.whenFalse, FalseGaps(e.whenTrue, gaps)));
  }

  lemma ConditionalResolves(
    limit: nat, text: string, base: string, variables: map<string, string>, e: Expr, gaps: seq<Gap>)
    requires e.Cond? && IsExpr(e) && Normalize(text) == Print(e, gaps) && limit > 0
    ensures Resolve(limit, text, base, variables)
         == if base == e.test then Resolve(limit - 1, PrintTerms(e.whenTrue, TrueGaps(gaps)), base, variables)
            else Resolve(limit - 1, Print(e.whenFalse, FalseGaps(e.whenTrue, gaps)), base, variables)
  {
    ConditionalSplits(text, e, gaps);
    ConditionMatches(e.subject, GapAt(gaps, 0), e.test);
  }

  // What resolving an expression, or a concatenation, must give.
  ghost function Outcome(sc: Scope, h: nat, e: Expr): Resolution
    requires Acyclic(sc) && Below(sc, h, e)
  {
    if AllAbsolute(sc, h, e) then Path(Follow(sc, h, e)) else Refused
  }

  ghost function SumOutcome(sc: Scope, h: nat, terms: seq<Term>): Resolution
    requires Acyclic(sc) && TermsBelow(sc, h, terms)
  {
    var sum := FollowTerms(sc, h, terms);
    if NamesAbsolute(sc, h, terms) && StartsWith(sum, "/") then Path(sum) else Refused
  }

  lemma OutcomeCases(sc: Scope, h: nat, e: Expr)
    requires Acyclic(sc) && Below(sc, h, e)
    ensures e.Concat? ==> Outcome(sc, h, e) == SumOutcome(sc, h, e.terms)
    ensures e.Cond? && sc.base == e.test ==> Outcome(sc, h, e) == SumOutcome(sc, h, e.whenTrue)
    ensures e.Cond? && sc.base != e.test ==> Outcome(sc, h, e) == Outcome(sc, h, e.whenFalse)
  {
  }

  // For every spelling of an expression whose names are declared without a cycle, and every recursion
  // limit that covers it, the evaluator gives the value of the concatenation it takes when every value it
  // passes on the way is absolute, and otherwise reports an error.
  lemma {:induction false} ResolveFollows(
    sc: Scope, variables: map<string, string>, limit: nat, text: string, h: nat, e: Expr)
    requires Acyclic(sc) && Declares(sc, variables) && IsExpr(e) && Below(sc, h, e)
    requires Spells(text, e) && limit >= Depth(sc, h, e)
    ensures Resolve(limit, text, sc.base, variables) == Outcome(sc, h, e)
    decreases h, 1, e, 1
  {
    var gaps := GapsOf(text, e);
    if e.Concat? {
      TermsResolve(sc, variables, limit, text, h, e.terms, gaps);
      OutcomeCases(sc, h, e);
    } else {
      ConditionalFollows(sc, variables, limit, text, h, e, gaps);
    }
  }

  lemma {:induction false} ConditionalFollows(
    sc: Scope, variables: map<string, string>, limit: nat, text: string, h: nat, e: Expr, gaps: seq<Gap>)
    requires Acyclic(sc) && Declares(sc, variables) && e.Cond? && IsExpr(e) && Below(sc, h, e)
    requires Normalize(text) == Print(e, gaps) && limit >= Depth(sc, h, e)
    ensures Resolve(limit, text, sc.base, variables) == Outcome(sc, h, e)
    decreases h, 1, e, 0
  {
    ConditionalResolves(limit, text, sc.base, variables, e, gaps);
    OutcomeCases(sc, h, e);
    if sc.base == e.test {
      TrueBranchFollows(sc, variables, limit - 1, h, e.whenTrue, TrueGaps(gaps));
    } else {
      PrintedFollows(sc, variables, limit - 1, h, e.whenFalse, FalseGaps(e.whenTrue, gaps));
    }
  }

  lemma {:induction false} PrintedFollows(
    sc: Scope, variables: map<string, string>, limit: nat, h: nat, e: Expr, gaps: seq<Gap>)
    requires Acyclic(sc) && Declares(sc, variables) && IsExpr(e) && Below(sc, h, e) && limit >= Depth(sc, h, e)
    ensures Resolve(limit, Print(e, gaps), sc.base, variables) == Outcome(sc, h, e)
    decreases h, 1, e, 2
  {
    PrintSpells(e, gaps);
    ResolveFollows(sc, variables, limit, Print(e, gaps), h, e);
  }

  lemma {:induction false} TrueBranchFollows(
    sc: Scope, variables: map<string, string>, limit: nat, h: nat, terms: seq<Term>, gaps: seq<Gap>)
    requires Acyclic(sc) && Declares(sc, variables) && AreTerms(terms) && TermsBelow(sc, h, terms)
    requires limit >= 1 + DepthTerms(sc, h, terms)
    ensures Resolve(limit, PrintTerms(terms, gaps), sc.base, variables) == SumOutcome(sc, h, terms)
    decreases h, 0, |terms| + 2
  {
    SumStays(terms, gaps);
    TermsResolve(sc, variables, limit, PrintTerms(terms, gaps), h, terms, gaps);
  }

  lemma SumStays(terms: seq<Term>, gaps: seq<Gap>)
    requires AreTerms(terms)
    ensures Normalize(PrintTerms(terms, gaps)) == PrintTerms(terms, gaps)
  {
    TermsAreTidy(terms, gaps);
    TidyStays(PrintTerms(terms, gaps));
  }

  // An expression printed with any gaps spells it.
  lemma PrintSpells(e: Expr, gaps: seq<Gap>)
    requires IsExpr(e)
    ensures Normalize(Print(e, gaps)) == Print(e, gaps) && Spells(Print(e, gaps), e)
  {
    var s := Print(e, gaps);
    PrintIsTidy(e, gaps);
    TidyStays(s);
    WidensItself(s);
    assert s[0..|s|] == s && AllBlank(s[..0]) && AllBlank(s[|s|..]);
    assert Writes(s, s);
  }

  // Normalising a spelling gives the expression printed with some gaps.
  lemma GapsOf(text: string, e: Expr) returns (gaps: seq<Gap>)
    requires IsExpr(e) && Spells(text, e)
    ensures Normalize(text) == Print(e, gaps)
  {
    gaps :| Writes(text, Print(e, gaps));
    PrintIsTidy(e, gaps);
    WrittenTextsNormalize(text, Print(e, gaps));
  }

  // A concatenation's text is resolved part by part.
  lemma SumsResolveByParts(
    limit: nat, text: string, base: string, variables: map<string, string>, terms: seq<Term>, gaps: seq<Gap>)
    requires AreTerms(terms) && Normalize(text) == PrintTerms(terms, gaps) && limit > 0
    ensures Resolve(limit, text, base, variables)
         == var r := ResolveParts(limit, "", Parts(false, terms, gaps), base, variables);
            if r.Path? && !StartsWith(r.path, "/") then Refused else r
  {
    TermsAreTidy(terms, gaps);
    NoTernaryInTerms(terms, gaps);
    TermsConcat(false, terms, gaps);
    assert Pad(false) + PrintTerms(terms, gaps) == PrintTerms(terms, gaps);
  }

  lemma {:induction false} TermsResolve(
    sc: Scope, variables: map<string, string>, limit: nat, text: string, h: nat, terms: seq<Term>, gaps: seq<Gap>)
    requires Acyclic(sc) && Declares(sc, variables) && AreTerms(terms) && TermsBelow(sc, h, terms)
    requires Normalize(text) == PrintTerms(terms, gaps) && limit >= 1 + DepthTerms(sc, h, terms)
    ensures Resolve(limit, text, sc.base, variables) == SumOutcome(sc, h, terms)
    decreases h, 0, |terms| + 1
  {
    SumsResolveByParts(limit, text, sc.base, variables, terms, gaps);
    PartsResolve(sc, variables, limit, h, "", false, terms, gaps);
    assert "" + FollowTerms(sc, h, terms) == FollowTerms(sc, h, terms);
  }

  // ------------------------------------------------------------------ refusals

  lemma BlankTextsAreRefused(limit: nat, text: string, base: string, variables: map<string, string>)
    requires limit > 0 && AllBlank(text)
    ensures Resolve(limit, text, base, variables) == Refused
  {
    BlankTextsVanish(text);
  }

  // A conditional is refused unless its condition compares a word with a literal.
  lemma OtherConditionsAreRefused(
    limit: nat, text: string, base: string, variables: map<string, string>, t: Ternary)
    requires limit > 0 && SplitTernary(Normalize(text)) == Some(t)
    requires forall literal, name, left, right :: !IsComparison(t.cond, name, left, right, literal)
    ensures Resolve(limit, text, base, variables) == Refused
  {
    if MatchCondition(t.cond).Some? {
      ConditionsExactly(t.cond, MatchCondition(t.cond).value);
      assert false;
    }
  }

  // A name that is declared nowhere stops the sum.
  lemma {:induction false} UndeclaredNamesStop(
    sc: Scope, variables: map<string, string>, limit: nat, h: nat, out: string, pad: bool, terms: seq<Term>,
    gaps: seq<Gap>, k: nat)
    requires Acyclic(sc) && Declares(sc, variables) && k < |terms| && TermsBelow(sc, h, terms[..k])
    requires (forall t :: t in terms ==> IsTerm(t)) && limit > DepthTerms(sc, h, terms[..k])
    requires terms[k].Name? && terms[k].name !in variables
    ensures ResolveParts(limit, out, Parts(pad, terms, gaps), sc.base, variables) == Refused
    decreases k
  {
    var t, later := terms[0], terms[1..];
    assert t in terms;
    PartsUnfold(pad, terms, gaps);
    if k == 0 {
      TokensAreRecognised(t, GapAt(gaps, 0));
    } else {
      var first := terms[..k];
      assert first[0] == t && first[1..] == later[..k - 1];
      TermsUnfold(sc, h, first);
      TokenResolves(sc, variables, limit, h, t, GapAt(gaps, 0));
      if NamesAbsolute(sc, h, [t]) {
        UndeclaredNamesStop(
          sc, variables, limit, h, out + FollowTerm(sc, h, t), GapAt(gaps, 1).after, later, Later(gaps, 2), k - 1);
      }
    }
  }

  // So an expression that reaches one is refused.
  lemma UndeclaredNamesAreRefused(
    sc: Scope, variables: map<string, string>, limit: nat, text: string, h: nat, terms: seq<Term>, k: nat)
    requires Acyclic(sc) && Declares(sc, variables) && AreTerms(terms) && k < |terms|
    requires TermsBelow(sc, h, terms[..k]) && terms[k].Name? && terms[k].name !in variables
    requires Spells(text, Concat(terms)) && limit > DepthTerms(sc, h, terms[..k])
    ensures Resolve(limit, text, sc.base, variables) == Refused
  {
    var gaps := GapsOf(text, Concat(terms));
    SumsResolveByParts(limit, text, sc.base, variables, terms, gaps);
    UndeclaredNamesStop(sc, variables, limit, h, "", false, terms, gaps, k);
  }
}
