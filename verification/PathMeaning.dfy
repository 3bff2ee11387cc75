/** What a path expression means, and exactly when the evaluator of `PathExpressions` gives that. */
module PathMeaning {
  import opened PathExpressions
  import opened Text

  // ------------------------------------------------------------------ meaning

  // A conditional compares the value of its subject with the literal.
  ghost function Eval(sc: Scope, h: nat, e: Expr): string
    requires Acyclic(sc) && Below(sc, h, e)
    decreases h, 1, e
  {
    match e
    case Concat(terms) => EvalTerms(sc, h, terms)
    case Cond(subject, test, whenTrue, whenFalse) =>
      if EvalTerm(sc, h, subject) == test then EvalTerms(sc, h, whenTrue) else Eval(sc, h, whenFalse)
  }

  ghost function EvalTerm(sc: Scope, h: nat, t: Term): string
    requires Acyclic(sc) && TermsBelow(sc, h, [t])
    decreases h, 0, 0
  {
    match t
    case Literal(text) => text
    case Cast(text) => text
    case Base => sc.base
    case Name(n) => assert Name(n) in [t]; Eval(sc, sc.rank[n], sc.env[n])
  }

  ghost function EvalTerms(sc: Scope, h: nat, terms: seq<Term>): string
    requires Acyclic(sc) && TermsBelow(sc, h, terms)
    decreases h, 0, |terms| + 1
  {
    if terms == [] then "" else EvalTerm(sc, h, terms[0]) + EvalTerms(sc, h, terms[1..])
  }

  // The subject equals the literal exactly when the configured base path does.
  ghost predicate GuardAgrees(sc: Scope, h: nat, e: Expr)
    requires Acyclic(sc) && Below(sc, h, e) && e.Cond?
  {
    EvalTerm(sc, h, e.subject) == e.test <==> sc.base == e.test
  }

  ghost predicate BranchesAgree(sc: Scope, h: nat, e: Expr)
    requires Acyclic(sc) && Below(sc, h, e) && e.Cond?
  {
    EvalTerms(sc, h, e.whenTrue) == Eval(sc, h, e.whenFalse)
  }

  // ------------------------------------------------------------------ when the evaluator is right

  // At every conditional reached, in the expression and in the names it uses, the guard agrees or both
  // branches have one value; every concatenation reached has an absolute value.
  ghost predicate Sound(sc: Scope, h: nat, e: Expr)
    requires Acyclic(sc) && Below(sc, h, e)
    decreases h, 1, e, 1
  {
    match e
    case Concat(terms) => SumSound(sc, h, terms)
    case Cond(_, _, _, _) =>
      (GuardAgrees(sc, h, e) || BranchesAgree(sc, h, e)) && BranchSound(sc, h, e)
  }

  // The branch the evaluator takes is sound.
  ghost predicate BranchSound(sc: Scope, h: nat, e: Expr)
    requires Acyclic(sc) && Below(sc, h, e) && e.Cond?
    decreases h, 1, e, 0
  {
    if sc.base == e.test then SumSound(sc, h, e.whenTrue) else Sound(sc, h, e.whenFalse)
  }

  ghost predicate SumSound(sc: Scope, h: nat, terms: seq<Term>)
    requires Acyclic(sc) && TermsBelow(sc, h, terms)
    decreases h, 0, |terms| + 1
  {
    NamesSound(sc, h, terms) && StartsWith(EvalTerms(sc, h, terms), "/")
  }

  ghost predicate NamesSound(sc: Scope, h: nat, terms: seq<Term>)
    requires Acyclic(sc) && TermsBelow(sc, h, terms)
    decreases h, 0, |terms|
  {
    terms == [] ||
    (assert terms[0] in terms;
     && (terms[0].Name? ==> Sound(sc, sc.rank[terms[0].name], sc.env[terms[0].name]))
     && NamesSound(sc, h, terms[1..]))
  }

  // The evaluator, given this text, returns the expression's value, and so does every nested call it makes:
  // for the branch it takes, and for each name it uses.
  ghost predicate RightThroughout(
    sc: Scope, variables: map<string, string>, limit: nat, text: string, h: nat, e: Expr)
    requires Acyclic(sc) && Declares(sc, variables) && Below(sc, h, e)
    decreases h, 1, e, 1
  {
    && limit > 0
    && Resolve(limit, text, sc.base, variables) == Path(Eval(sc, h, e))
    && match e
       case Concat(terms) => NamesRight(sc, variables, limit - 1, h, terms)
       case Cond(_, _, _, _) =>
         var split := SplitTernary(Normalize(text));
         split.Some? && BranchRight(sc, variables, limit - 1, split.value, h, e)
  }

  // The branch taken, at its own text.
  ghost predicate BranchRight(sc: Scope, variables: map<string, string>, limit: nat, t: Ternary, h: nat, e: Expr)
    requires Acyclic(sc) && Declares(sc, variables) && Below(sc, h, e) && e.Cond?
    decreases h, 1, e, 0
  {
    if sc.base == e.test then SumRight(sc, variables, limit, t.whenTrue, h, e.whenTrue)
    else RightThroughout(sc, variables, limit, t.whenFalse, h, e.whenFalse)
  }

  ghost predicate SumRight(
    sc: Scope, variables: map<string, string>, limit: nat, text: string, h: nat, terms: seq<Term>)
    requires Acyclic(sc) && Declares(sc, variables) && TermsBelow(sc, h, terms)
    decreases h, 0, |terms| + 1
  {
    && limit > 0
    && Resolve(limit, text, sc.base, variables) == Path(EvalTerms(sc, h, terms))
    && NamesRight(sc, variables, limit - 1, h, terms)
  }

  ghost predicate NamesRight(sc: Scope, variables: map<string, string>, limit: nat, h: nat, terms: seq<Term>)
    requires Acyclic(sc) && Declares(sc, variables) && TermsBelow(sc, h, terms)
    decreases h, 0, |terms|
  {
    terms == [] ||
    (assert terms[0] in terms;
     && (terms[0].Name? ==>
           var n := terms[0].name; RightThroughout(sc, variables, limit, variables[n], sc.rank[n], sc.env[n]))
     && NamesRight(sc, variables, limit, h, terms[1..]))
  }

  // On a sound expression the evaluator's route leads to the value.
  lemma {:induction false} SoundFollows(sc: Scope, h: nat, e: Expr)
    requires Acyclic(sc) && Below(sc, h, e) && Sound(sc, h, e)
    ensures AllAbsolute(sc, h, e) && Follow(sc, h, e) == Eval(sc, h, e)
    decreases h, 1, e
  {
    match e {
      case Concat(terms) => NamesFollow(sc, h, terms);
      case Cond(_, test, whenTrue, whenFalse) =>
        assert BranchSound(sc, h, e);
        if sc.base == test {
          assert SumSound(sc, h, whenTrue);
          NamesFollow(sc, h, whenTrue);
        } else {
          SoundFollows(sc, h, whenFalse);
        }
    }
  }

  lemma {:induction false} NamesFollow(sc: Scope, h: nat, terms: seq<Term>)
    requires Acyclic(sc) && TermsBelow(sc, h, terms) && NamesSound(sc, h, terms)
    ensures NamesAbsolute(sc, h, terms) && FollowTerms(sc, h, terms) == EvalTerms(sc, h, terms)
    decreases h, 0, |terms|
  {
    if terms != [] {
      assert terms[0] in terms;
      if terms[0].Name? {
        SoundFollows(sc, sc.rank[terms[0].name], sc.env[terms[0].name]);
      }
      NamesFollow(sc, h, terms[1..]);
    }
  }

  // A sum with sound names, whose names are exactly the right ones, is right exactly when it is sound.
  lemma SumExactly(
    sc: Scope, variables: map<string, string>, limit: nat, text: string, h: nat, terms: seq<Term>, gaps: seq<Gap>)
    requires Acyclic(sc) && Declares(sc, variables) && AreTerms(terms) && TermsBelow(sc, h, terms)
    requires Normalize(text) == PrintTerms(terms, gaps) && limit >= 1 + DepthTerms(sc, h, terms)
    requires NamesSound(sc, h, terms)
    ensures Resolve(limit, text, sc.base, variables) == Path(EvalTerms(sc, h, terms)) <==> SumSound(sc, h, terms)
  {
    TermsResolve(sc, variables, limit, text, h, terms, gaps);
    NamesFollow(sc, h, terms);
  }

  lemma {:induction false} NamesExactly(
    sc: Scope, variables: map<string, string>, limit: nat, h: nat, terms: seq<Term>)
    requires Acyclic(sc) && Declares(sc, variables) && TermsBelow(sc, h, terms) && limit >= DepthTerms(sc, h, terms)
    ensures NamesRight(sc, variables, limit, h, terms) <==> NamesSound(sc, h, terms)
    decreases h, 0, |terms|
  {
    if terms != [] {
      assert terms[0] in terms;
      TermsUnfold(sc, h, terms);
      if terms[0].Name? {
        var n := terms[0].name;
        RightExactly(sc, variables, limit, variables[n], sc.rank[n], sc.env[n]);
      }
      NamesExactly(sc, variables, limit, h, terms[1..]);
    }
  }

  lemma {:induction false} SumRightExactly(
    sc: Scope, variables: map<string, string>, limit: nat, text: string, h: nat, terms: seq<Term>, gaps: seq<Gap>)
    requires Acyclic(sc) && Declares(sc, variables) && AreTerms(terms) && TermsBelow(sc, h, terms)
    requires Normalize(text) == PrintTerms(terms, gaps) && limit >= 1 + DepthTerms(sc, h, terms)
    ensures SumRight(sc, variables, limit, text, h, terms) <==> SumSound(sc, h, terms)
    decreases h, 0, |terms| + 1
  {
    NamesExactly(sc, variables, limit - 1, h, terms);
    if NamesSound(sc, h, terms) {
      SumExactly(sc, variables, limit, text, h, terms, gaps);
    }
  }

  // For every spelling of an expression over acyclic names, and every recursion limit that covers it, the
  // evaluator returns the value throughout exactly when the expression is sound.
  lemma {:induction false} RightExactly(
    sc: Scope, variables: map<string, string>, limit: nat, text: string, h: nat, e: Expr)
    requires Acyclic(sc) && Declares(sc, variables) && IsExpr(e) && Below(sc, h, e)
    requires Spells(text, e) && limit >= Depth(sc, h, e)
    ensures RightThroughout(sc, variables, limit, text, h, e) <==> Sound(sc, h, e)
    decreases h, 1, e, 2
  {
    var gaps := GapsOf(text, e);
    if e.Concat? {
      SumRightExactly(sc, variables, limit, text, h, e.terms, gaps);
    } else {
      ConditionalExactly(sc, variables, limit, text, h, e, gaps);
    }
  }

  // With its branch sound, a conditional is right exactly when its guard agrees or its branches do.
  lemma ConditionalRight(sc: Scope, variables: map<string, string>, limit: nat, text: string, h: nat, e: Expr)
    requires Acyclic(sc) && Declares(sc, variables) && e.Cond? && IsExpr(e) && Below(sc, h, e)
    requires Spells(text, e) && limit >= Depth(sc, h, e)
    requires BranchSound(sc, h, e)
    ensures Resolve(limit, text, sc.base, variables) == Path(Eval(sc, h, e))
      <==> GuardAgrees(sc, h, e) || BranchesAgree(sc, h, e)
  {
    ResolveFollows(sc, variables, limit, text, h, e);
    if sc.base == e.test {
      NamesFollow(sc, h, e.whenTrue);
    } else {
      SoundFollows(sc, h, e.whenFalse);
    }
  }

  lemma {:induction false} BranchExactly(
    sc: Scope, variables: map<string, string>, limit: nat, t: Ternary, h: nat, e: Expr, gaps: seq<Gap>)
    requires Acyclic(sc) && Declares(sc, variables) && e.Cond? && IsExpr(e) && Below(sc, h, e)
    requires t.whenTrue == PrintTerms(e.whenTrue, TrueGaps(gaps))
    requires t.whenFalse == Print(e.whenFalse, FalseGaps(e.whenTrue, gaps)) && limit + 1 >= Depth(sc, h, e)
    ensures BranchRight(sc, variables, limit, t, h, e) <==> BranchSound(sc, h, e)
    decreases h, 1, e, 0
  {
    if sc.base == e.test {
      SumStays(e.whenTrue, TrueGaps(gaps));
      SumRightExactly(sc, variables, limit, t.whenTrue, h, e.whenTrue, TrueGaps(gaps));
    } else {
      PrintSpells(e.whenFalse, FalseGaps(e.whenTrue, gaps));
      RightExactly(sc, variables, limit, t.whenFalse, h, e.whenFalse);
    }
  }

  lemma {:induction false} ConditionalExactly(
    sc: Scope, variables: map<string, string>, limit: nat, text: string, h: nat, e: Expr, gaps: seq<Gap>)
    requires Acyclic(sc) && Declares(sc, variables) && e.Cond? && IsExpr(e) && Below(sc, h, e)
    requires Spells(text, e) && Normalize(text) == Print(e, gaps) && limit >= Depth(sc, h, e)
    ensures RightThroughout(sc, variables, limit, text, h, e) <==> Sound(sc, h, e)
    decreases h, 1, e, 1
  {
    ConditionalSplits(text, e, gaps);
    BranchExactly(sc, variables, limit - 1, SplitTernary(Normalize(text)).value, h, e, gaps);
    if BranchSound(sc, h, e) {
      ConditionalRight(sc, variables, limit, text, h, e);
    }
  }

  // A sound expression resolves to its value.
  lemma SoundResolves(sc: Scope, variables: map<string, string>, limit: nat, text: string, h: nat, e: Expr)
    requires Acyclic(sc) && Declares(sc, variables) && IsExpr(e) && Below(sc, h, e)
    requires Spells(text, e) && limit >= Depth(sc, h, e) && Sound(sc, h, e)
    ensures Resolve(limit, text, sc.base, variables) == Path(Eval(sc, h, e))
  {
    RightExactly(sc, variables, limit, text, h, e);
  }

  // ------------------------------------------------------------------ where every guard agrees

  // At every conditional reached, in the expression and in the names it uses, the guard agrees.
  ghost predicate Guarded(sc: Scope, h: nat, e: Expr)
    requires Acyclic(sc) && Below(sc, h, e)
    decreases h, 1, e
  {
    match e
    case Concat(terms) => NamesGuarded(sc, h, terms)
    case Cond(_, test, whenTrue, whenFalse) =>
      GuardAgrees(sc, h, e) && if sc.base == test then NamesGuarded(sc, h, whenTrue) else Guarded(sc, h, whenFalse)
  }

  ghost predicate NamesGuarded(sc: Scope, h: nat, terms: seq<Term>)
    requires Acyclic(sc) && TermsBelow(sc, h, terms)
    decreases h, 0, |terms|
  {
    terms == [] ||
    (assert terms[0] in terms;
     && (terms[0].Name? ==> Guarded(sc, sc.rank[terms[0].name], sc.env[terms[0].name]))
     && NamesGuarded(sc, h, terms[1..]))
  }

  lemma {:induction false} GuardedFollows(sc: Scope, h: nat, e: Expr)
    requires Acyclic(sc) && Below(sc, h, e) && Guarded(sc, h, e)
    ensures Follow(sc, h, e) == Eval(sc, h, e)
    decreases h, 1, e
  {
    match e {
      case Concat(terms) => GuardedNamesFollow(sc, h, terms);
      case Cond(_, test, whenTrue, whenFalse) =>
        if sc.base == test {
          GuardedNamesFollow(sc, h, whenTrue);
        } else {
          GuardedFollows(sc, h, whenFalse);
        }
    }
  }

  lemma {:induction false} GuardedNamesFollow(sc: Scope, h: nat, terms: seq<Term>)
    requires Acyclic(sc) && TermsBelow(sc, h, terms) && NamesGuarded(sc, h, terms)
    ensures FollowTerms(sc, h, terms) == EvalTerms(sc, h, terms)
    decreases h, 0, |terms|
  {
    if terms != [] {
      assert terms[0] in terms;
      if terms[0].Name? {
        GuardedFollows(sc, sc.rank[terms[0].name], sc.env[terms[0].name]);
      }
      GuardedNamesFollow(sc, h, terms[1..]);
    }
  }

  // Where every guard reached agrees, the evaluator gives the value if every value on the way is absolute,
  // and otherwise reports an error.
  lemma ResolveIsEval(sc: Scope, variables: map<string, string>, limit: nat, text: string, h: nat, e: Expr)
    requires Acyclic(sc) && Declares(sc, variables) && IsExpr(e) && Below(sc, h, e) && Guarded(sc, h, e)
    requires Spells(text, e) && limit >= Depth(sc, h, e)
    ensures Resolve(limit, text, sc.base, variables)
         == if AllAbsolute(sc, h, e) then Path(Eval(sc, h, e)) else Refused
  {
    ResolveFollows(sc, variables, limit, text, h, e);
    GuardedFollows(sc, h, e);
  }

  // The expression's own conditionals compare the base path, as all of the repository's do.
  predicate ComparesBase(e: Expr) {
    e.Cond? ==> e.subject.Base? && ComparesBase(e.whenFalse)
  }

  ghost predicate ScopeComparesBase(sc: Scope) {
    forall n :: n in sc.env ==> ComparesBase(sc.env[n])
  }

  lemma {:induction false} BaseConditionsAgree(sc: Scope, h: nat, e: Expr)
    requires Acyclic(sc) && Below(sc, h, e) && ComparesBase(e) && ScopeComparesBase(sc)
    ensures Guarded(sc, h, e)
    decreases h, 1, e
  {
    match e {
      case Concat(terms) => BaseNamesAgree(sc, h, terms);
      case Cond(_, _, whenTrue, whenFalse) =>
        BaseNamesAgree(sc, h, whenTrue);
        BaseConditionsAgree(sc, h, whenFalse);
    }
  }

  lemma {:induction false} BaseNamesAgree(sc: Scope, h: nat, terms: seq<Term>)
    requires Acyclic(sc) && TermsBelow(sc, h, terms) && ScopeComparesBase(sc)
    ensures NamesGuarded(sc, h, terms)
    decreases h, 0, |terms|
  {
    if terms != [] {
      assert terms[0] in terms;
      if terms[0].Name? {
        BaseConditionsAgree(sc, sc.rank[terms[0].name], sc.env[terms[0].name]);
      }
      BaseNamesAgree(sc, h, terms[1..]);
    }
  }

  // So where only the base path is compared, every spelling resolves to the value or is refused.
  lemma SpellingsResolve(sc: Scope, variables: map<string, string>, limit: nat, text: string, h: nat, e: Expr)
    requires Acyclic(sc) && Declares(sc, variables) && IsExpr(e) && Below(sc, h, e)
    requires Spells(text, e) && limit >= Depth(sc, h, e)
    requires ComparesBase(e) && ScopeComparesBase(sc)
    ensures Resolve(limit, text, sc.base, variables)
         == if AllAbsolute(sc, h, e) then Path(Eval(sc, h, e)) else Refused
  {
    BaseConditionsAgree(sc, h, e);
    ResolveIsEval(sc, variables, limit, text, h, e);
  }

  // ------------------------------------------------------------------ the QR route, and where it goes wrong

  lemma LiteralAlone(sc: Scope, h: nat, text: string)
    requires Acyclic(sc)
    ensures var terms := [Literal(text)];
      && TermsBelow(sc, h, terms) && NamesAbsolute(sc, h, terms) && DepthTerms(sc, h, terms) == 0
      && EvalTerms(sc, h, terms) == text && FollowTerms(sc, h, terms) == text
  {
    var terms, none: seq<Term> := [Literal(text)], [];
    assert terms[0] == Literal(text) && terms[1..] == none;
    assert EvalTerms(sc, h, none) == "" && FollowTerms(sc, h, none) == "" && NamesAbsolute(sc, h, none);
    assert text + "" == text;
  }

  lemma BasePlus(sc: Scope, text: string)
    requires Acyclic(sc)
    ensures var terms := [Base, Literal(text)];
      && TermsBelow(sc, 0, terms) && NamesAbsolute(sc, 0, terms) && DepthTerms(sc, 0, terms) == 0
      && EvalTerms(sc, 0, terms) == sc.base + text && FollowTerms(sc, 0, terms) == sc.base + text
  {
    var terms := [Base, Literal(text)];
    LiteralAlone(sc, 0, text);
    assert terms[0] == Base && terms[1..] == [Literal(text)];
  }

  lemma CastAlone(sc: Scope, text: string)
    requires Acyclic(sc)
    ensures var terms := [Cast(text)];
      && TermsBelow(sc, 0, terms) && NamesAbsolute(sc, 0, terms) && DepthTerms(sc, 0, terms) == 0
      && EvalTerms(sc, 0, terms) == text && FollowTerms(sc, 0, terms) == text
  {
    var terms, none: seq<Term> := [Cast(text)], [];
    assert terms[0] == Cast(text) && terms[1..] == none;
    assert EvalTerms(sc, 0, none) == "" && FollowTerms(sc, 0, none) == "" && NamesAbsolute(sc, 0, none);
    assert text + "" == text;
  }

  // A conditional on the base path between a fixed path and a path below it.
  function FixedOrBelow(test: string, fixed: string, tail: string): Expr {
    Cond(Base, test, [Cast(fixed)], Concat([Base, Literal(tail)]))
  }

  lemma FixedOrBelowResolves(
    test: string, fixed: string, tail: string, text: string, base: string, variables: map<string, string>, limit: nat)
    requires IsText(test) && IsText(fixed) && IsText(tail) && limit >= 2
    requires Spells(text, FixedOrBelow(test, fixed, tail))
    ensures var path := if base == test then fixed else base + tail;
      Resolve(limit, text, base, variables) == if StartsWith(path, "/") then Path(path) else Refused
  {
    var sc, e := Scope(map[], map[], base), FixedOrBelow(test, fixed, tail);
    BasePlus(sc, tail);
    CastAlone(sc, fixed);
    assert IsExpr(e) && Below(sc, 0, e);
    assert Depth(sc, 0, e) == 2;
    SpellingsResolve(sc, variables, limit, text, 0, e);
    assert Eval(sc, 0, e) == if base == test then fixed else base + tail;
    assert AllAbsolute(sc, 0, e) <==> StartsWith(Eval(sc, 0, e), "/");
  }

  const QR_PATH := FixedOrBelow("/api/pay", "/api/qrpay/create", "/qrpay/create")

  predicate Unbroken(s: string) {
    forall i :: 0 <= i < |s| ==> s[i] != '"' && s[i] != '\\' && !Blank(s[i])
  }

  lemma UnbrokenIsText(s: string)
    requires Unbroken(s)
    ensures IsText(s)
  {
    var quoted := Quoted(s);
    forall i | 0 <= i < |quoted| ensures !Blank(quoted[i]) {
      if 0 < i < |quoted| - 1 {
        assert quoted[i] == s[i - 1];
      }
    }
  }

  lemma QrTextsAreUnbroken()
    ensures Unbroken("/api/pay") && Unbroken("/api/qrpay/create") && Unbroken("/qrpay/create")
  {
  }

  // The route that the plugin registers under a conditional path, however it is spaced, for every base path
  // and any declarations.
  lemma QrPathResolves(text: string, base: string, variables: map<string, string>, limit: nat)
    requires Spells(text, QR_PATH) && limit >= 2
    ensures var path := if base == "/api/pay" then "/api/qrpay/create" else base + "/qrpay/create";
      Resolve(limit, text, base, variables) == if StartsWith(path, "/") then Path(path) else Refused
  {
    QrTextsAreUnbroken();
    UnbrokenIsText("/api/pay");
    UnbrokenIsText("/api/qrpay/create");
    UnbrokenIsText("/qrpay/create");
    FixedOrBelowResolves("/api/pay", "/api/qrpay/create", "/qrpay/create", text, base, variables, limit);
  }

  // The conditional that compares a name with its own value.
  ghost function ItsOwnValue(sc: Scope, n: string, a: string, b: string): Expr
    requires Acyclic(sc) && n in sc.env
  {
    Cond(Name(n), Eval(sc, sc.rank[n], sc.env[n]), [Literal(a)], Concat([Literal(b)]))
  }

  lemma ItsOwnValueMeans(sc: Scope, h: nat, n: string, a: string, b: string)
    requires Acyclic(sc) && n in sc.env && sc.rank[n] < h && Eval(sc, sc.rank[n], sc.env[n]) != sc.base
    ensures var e := ItsOwnValue(sc, n, a, b);
      && Below(sc, h, e) && Eval(sc, h, e) == a && Follow(sc, h, e) == b && Depth(sc, h, e) == 2
      && (AllAbsolute(sc, h, e) <==> StartsWith(b, "/"))
  {
    var e := ItsOwnValue(sc, n, a, b);
    LiteralAlone(sc, h, a);
    LiteralAlone(sc, h, b);
    assert TermsBelow(sc, h, [Name(n)]);
    assert EvalTerm(sc, h, Name(n)) == e.test;
    assert Follow(sc, h, e.whenFalse) == b && (AllAbsolute(sc, h, e.whenFalse) <==> StartsWith(b, "/"));
  }

  // Every declared name whose value is not the base path misleads: compared with its own value it is taken
  // to differ.
  lemma ComparedNamesMislead(
    sc: Scope, variables: map<string, string>, limit: nat, h: nat, n: string, a: string, b: string, gaps: seq<Gap>)
    requires Acyclic(sc) && Declares(sc, variables) && IsName(n) && n in sc.env && sc.rank[n] < h && limit >= 2
    requires IsText(Eval(sc, sc.rank[n], sc.env[n])) && Eval(sc, sc.rank[n], sc.env[n]) != sc.base
    requires IsText(a) && IsText(b) && StartsWith(b, "/")
    ensures var e := ItsOwnValue(sc, n, a, b);
      && IsExpr(e) && Below(sc, h, e) && Eval(sc, h, e) == a
      && Resolve(limit, Print(e, gaps), sc.base, variables) == Path(b)
  {
    ItsOwnValueMeans(sc, h, n, a, b);
    PrintedFollows(sc, variables, limit, h, ItsOwnValue(sc, n, a, b), gaps);
  }

  // One declaration, x, of a literal.
  function ScopeOfX(value: string, base: string): Scope {
    Scope(map["x" := Concat([Literal(value)])], map["x" := 0], base)
  }

  lemma ScopeOfXIsAcyclic(value: string, base: string)
    requires IsText(value)
    ensures var sc := ScopeOfX(value, base);
      && Acyclic(sc) && Below(sc, 0, sc.env["x"]) && Eval(sc, 0, sc.env["x"]) == value
      && Declares(sc, map["x" := Quoted(value)])
  {
    var sc := ScopeOfX(value, base);
    assert AreTerms([Literal(value)]) && Acyclic(sc);
    LiteralAlone(sc, 0, value);
    PrintSpells(sc.env["x"], []);
    assert Print(sc.env["x"], []) == Quoted(value);
  }

  // `x == "value" ? "a" : "b"`, with x declared as "value" and another base path configured: its value is a,
  // and it resolves to b.
  lemma ComparedNamesAreIgnored(value: string, base: string, a: string, b: string, gaps: seq<Gap>)
    requires IsText(value) && value != base && IsText(a) && IsText(b) && StartsWith(b, "/")
    ensures var sc, e := ScopeOfX(value, base), Cond(Name("x"), value, [Literal(a)], Concat([Literal(b)]));
      && Acyclic(sc) && Declares(sc, map["x" := Quoted(value)]) && IsExpr(e) && Below(sc, 1, e)
      && Eval(sc, 1, e) == a && Resolve(2, Print(e, gaps), base, map["x" := Quoted(value)]) == Path(b)
  {
    ScopeOfXIsAcyclic(value, base);
    ComparedNamesMislead(ScopeOfX(value, base), map["x" := Quoted(value)], 2, 1, "x", a, b, gaps);
  }

  lemma NameAlone(value: string, base: string)
    requires IsText(value) && !StartsWith(value, "/")
    ensures var sc, terms := ScopeOfX(value, base), [Name("x")];
      && Acyclic(sc) && TermsBelow(sc, 1, terms)
      && EvalTerms(sc, 1, terms) == value && NamesGuarded(sc, 1, terms)
      && !NamesAbsolute(sc, 1, terms) && DepthTerms(sc, 1, terms) == 1
  {
    var sc, terms, none: seq<Term> := ScopeOfX(value, base), [Name("x")], [];
    ScopeOfXIsAcyclic(value, base);
    LiteralAlone(sc, 0, value);
    BaseConditionsAgree(sc, 0, sc.env["x"]);
    assert terms[0] == Name("x") && terms[1..] == none;
    assert EvalTerms(sc, 1, none) == "" && NamesGuarded(sc, 1, none) && DepthTerms(sc, 1, none) == 0;
    assert value + "" == value;
    assert !AllAbsolute(sc, 0, sc.env["x"]);
    assert Depth(sc, 0, sc.env["x"]) == 1;
  }

  lemma LiteralPlusName(sc: Scope, a: string, rest: seq<Term>)
    requires Acyclic(sc) && TermsBelow(sc, 1, rest) && NamesGuarded(sc, 1, rest)
    ensures var terms := [Literal(a)] + rest;
      && TermsBelow(sc, 1, terms) && NamesGuarded(sc, 1, terms)
      && EvalTerms(sc, 1, terms) == a + EvalTerms(sc, 1, rest)
      && (NamesAbsolute(sc, 1, terms) <==> NamesAbsolute(sc, 1, rest))
      && DepthTerms(sc, 1, terms) == DepthTerms(sc, 1, rest)
  {
    var terms := [Literal(a)] + rest;
    assert terms[0] == Literal(a) && terms[1..] == rest;
  }

  // `"a" + x` with x declared as a relative text: its value may well be absolute, and it is refused.
  lemma RelativeNamesAreRefused(a: string, value: string, base: string, limit: nat, gaps: seq<Gap>)
    requires IsText(a) && IsText(value) && !StartsWith(value, "/") && limit >= 2
    ensures var sc, e := ScopeOfX(value, base), Concat([Literal(a)] + [Name("x")]);
      && Acyclic(sc) && IsExpr(e) && Below(sc, 1, e) && Guarded(sc, 1, e) && Eval(sc, 1, e) == a + value
      && Resolve(limit, Print(e, gaps), base, map["x" := Quoted(value)]) == Refused
  {
    var sc, e := ScopeOfX(value, base), Concat([Literal(a)] + [Name("x")]);
    ScopeOfXIsAcyclic(value, base);
    NameAlone(value, base);
    LiteralPlusName(sc, a, [Name("x")]);
    assert AreTerms(e.terms);
    assert !AllAbsolute(sc, 1, e) && Depth(sc, 1, e) == 2;
    PrintedFollows(sc, map["x" := Quoted(value)], limit, 1, e, gaps);
  }
}
