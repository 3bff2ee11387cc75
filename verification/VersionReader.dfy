/** The contract's version: one scalar read or refused, and the line reader that finds it in the document. */
module VersionReader {
  import opened Options
  import opened Text

  datatype Reading = Version(text: string) | SyncError

  // ------------------------------------------------------------------ X.Y.Z

  predicate Digit(c: char) {
    '0' <= c <= '9'
  }

  predicate Number(s: string) {
    s == "0" || (s != "" && s[0] != '0' && forall i :: 0 <= i < |s| ==> Digit(s[i]))
  }

  predicate DotsAt(s: string, i: nat, j: nat) {
    i < j < |s| && s[i] == '.' && s[j] == '.' && Number(s[..i]) && Number(s[i + 1..j]) && Number(s[j + 1..])
  }

  predicate SemVer(s: string) {
    exists i, j :: 0 <= i < j < |s| && DotsAt(s, i, j)
  }

  // The characters of X.Y.Z, which is all the proofs below need to know of it.
  predicate Tight(v: string) {
    v != "" && Digit(v[0]) && forall k :: 0 <= k < |v| ==> Digit(v[k]) || v[k] == '.'
  }

  lemma SemVerCharacters(s: string)
    requires SemVer(s)
    ensures Tight(s)
  {
    var i: nat, j: nat :| i < j < |s| && DotsAt(s, i, j);
    NumbersAreDigits(s[..i]);
    NumbersAreDigits(s[i + 1..j]);
    NumbersAreDigits(s[j + 1..]);
    assert s[0] == s[..i][0];
    forall k | 0 <= k < |s|
      ensures Digit(s[k]) || s[k] == '.'
    {
      assert k < i ==> s[k] == s[..i][k];
      assert i < k < j ==> s[k] == s[i + 1..j][k - i - 1];
      assert j < k ==> s[k] == s[j + 1..][k - j - 1];
    }
  }

  lemma NumbersAreDigits(s: string)
    requires Number(s)
    ensures s != "" && forall k :: 0 <= k < |s| ==> Digit(s[k])
  {
  }

  // Digits without a leading zero, unless they are that zero.
  predicate Numeric(n: string) {
    n != "" && (forall i :: 0 <= i < |n| ==> '0' <= n[i] <= '9') && (|n| > 1 ==> n[0] != '0')
  }

  lemma NumbersAreNumeric(n: string)
    ensures Number(n) <==> Numeric(n)
  {
    if |n| == 1 && n[0] == '0' {
      assert n == "0";
    }
  }

  predicate IsTriple(s: string, a: string, b: string, c: string) {
    Numeric(a) && Numeric(b) && Numeric(c) && s == a + ("." + (b + ("." + c)))
  }

  lemma DotsMakeATriple(s: string, i: nat, j: nat)
    requires i < j < |s| && DotsAt(s, i, j)
    ensures IsTriple(s, s[..i], s[i + 1..j], s[j + 1..])
  {
    NumbersAreNumeric(s[..i]);
    NumbersAreNumeric(s[i + 1..j]);
    NumbersAreNumeric(s[j + 1..]);
    assert s[j..] == "." + s[j + 1..];
    assert s[i..] == "." + (s[i + 1..j] + s[j..]);
    assert s == s[..i] + s[i..];
  }

  lemma TriplesHaveDots(s: string, a: string, b: string, c: string)
    requires IsTriple(s, a, b, c)
    ensures SemVer(s)
  {
    var i := |a|;
    var j := i + 1 + |b|;
    var behind := b + ("." + c);
    assert s[..i] == a && s[i] == '.' && s[i + 1..] == behind;
    assert behind[..|b|] == b && behind[|b|] == '.' && behind[|b| + 1..] == c;
    assert s[i + 1..j] == b && s[j] == '.' && s[j + 1..] == c;
    NumbersAreNumeric(a);
    NumbersAreNumeric(b);
    NumbersAreNumeric(c);
    assert DotsAt(s, i, j);
  }

  // The versions are three such numbers between dots.
  lemma SemVersExactly(s: string)
    ensures SemVer(s) <==> exists a, b, c :: IsTriple(s, a, b, c)
  {
    if i, j :| 0 <= i < j < |s| && DotsAt(s, i, j) {
      DotsMakeATriple(s, i, j);
    }
    if a, b, c :| IsTriple(s, a, b, c) {
      TriplesHaveDots(s, a, b, c);
    }
  }

  // ------------------------------------------------------------------ the scalar

  function Trim(s: string): string {
    DropSpacesRight(DropSpaces(s))
  }

  // str.find(c, from), with |s| for "not found".
  function Find(s: string, c: char, from: nat): (k: nat)
    requires from <= |s|
    ensures from <= k <= |s| && (k < |s| ==> s[k] == c) && forall j :: from <= j < k ==> s[j] != c
    decreases |s| - from
  {
    if from == |s| || s[from] == c then from else Find(s, c, from + 1)
  }

  // str.split(" #", 1)[0]
  function BeforeComment(s: string): string {
    if s == "" || (|s| > 1 && s[0] == ' ' && s[1] == '#') then "" else [s[0]] + BeforeComment(s[1..])
  }

  predicate OnlySpaces(s: string) {
    forall i :: 0 <= i < |s| && Blank(s[i]) ==> s[i] == ' '
  }

  // A quoted scalar, from its opening quote on: its value, if it is closed, unescaped and followed by
  // nothing but a comment.
  function QuotedValue(text: string): Option<string>
    requires text != ""
  {
    var end := Find(text, text[0], 1);
    if end == |text| then None
    else
      var value := text[1..end];
      var rest := Trim(text[end + 1..]);
      if rest != "" && rest[0] != '#' then None
      else if text[0] == '"' && '\\' in value then None
      else Some(value)
  }

  function PlainValue(text: string): string {
    DropSpacesRight(BeforeComment(text))
  }

  function Value(text: string): Option<string> {
    if text == "" || text[0] in "&*!" || text[0] in "|>" then None
    else if text[0] == '\'' || text[0] == '"' then QuotedValue(text)
    else Some(PlainValue(text))
  }

  function SemverScalar(scalar: string): Reading {
    if !OnlySpaces(scalar) then SyncError
    else match Value(Trim(scalar))
      case None => SyncError
      case Some(value) => if SemVer(value) then Version(value) else SyncError
  }

  // ------------------------------------------------------------------ its exact language

  predicate Padding(s: string) {
    forall i :: 0 <= i < |s| ==> s[i] == ' '
  }

  // Nothing but spaces, or spaces and a comment.
  predicate PadOrComment(s: string) {
    DropSpaces(s) == "" || DropSpaces(s)[0] == '#'
  }

  // The same, the comment set off by a space.
  predicate Trailer(s: string) {
    PadOrComment(s) && (s == "" || s[0] == ' ')
  }

  // Nothing, or spaces, or spaces and a comment behind them.
  predicate IsTrailer(s: string) {
    Padding(s) || exists n :: 0 < n < |s| && s[n] == '#' && Padding(s[..n])
  }

  lemma TrailersExactly(s: string)
    ensures Trailer(s) <==> IsTrailer(s)
  {
    var lead := DropSpacesCuts(s);
    var n := |lead|;
    if n < |s| {
      assert s[..n] == lead && s[n] == DropSpaces(s)[0];
    }
    if Padding(s) {
      DropSpacesOf(s, "");
      assert s + "" == s;
    } else if k :| 0 < k < |s| && s[k] == '#' && Padding(s[..k]) {
      assert s == s[..k] + s[k..] && s[0] == s[..k][0];
      DropSpacesOf(s[..k], s[k..]);
    }
  }

  predicate Plain(scalar: string, lead: string, v: string, tail: string) {
    Padding(lead) && scalar == lead + v + tail && Trailer(tail)
  }

  predicate Quoted(scalar: string, lead: string, q: char, v: string, tail: string) {
    Padding(lead) && (q == '\'' || q == '"') && scalar == lead + [q] + v + [q] + tail && PadOrComment(tail)
  }

  // X.Y.Z, plain or quoted, with padding and a comment around it, and no white space but spaces.
  ghost predicate Written(scalar: string, v: string) {
    && OnlySpaces(scalar) && SemVer(v)
    && ((exists lead, tail :: Plain(scalar, lead, v, tail))
        || (exists lead, q, tail :: Quoted(scalar, lead, q, v, tail)))
  }

  lemma {:induction false} DropSpacesCuts(s: string) returns (lead: string)
    ensures Padding(lead) && s == lead + DropSpaces(s)
    ensures DropSpaces(s) != "" ==> DropSpaces(s)[0] != ' '
  {
    if s != "" && s[0] == ' ' {
      var rest := DropSpacesCuts(s[1..]);
      lead := [s[0]] + rest;
    } else {
      lead := "";
    }
  }

  lemma {:induction false} DropSpacesRightCuts(s: string) returns (tail: string)
    ensures Padding(tail) && s == DropSpacesRight(s) + tail
    ensures DropSpacesRight(s) != "" ==> DropSpacesRight(s)[|DropSpacesRight(s)| - 1] != ' '
  {
    if s != "" && s[|s| - 1] == ' ' {
      var rest := DropSpacesRightCuts(s[..|s| - 1]);
      tail := rest + [s[|s| - 1]];
    } else {
      tail := "";
    }
  }

  lemma {:induction false} DropSpacesOf(lead: string, s: string)
    requires Padding(lead) && (s == "" || s[0] != ' ')
    ensures DropSpaces(lead + s) == s
  {
    if lead == "" {
      assert lead + s == s;
    } else {
      assert (lead + s)[1..] == lead[1..] + s;
      DropSpacesOf(lead[1..], s);
    }
  }

  lemma {:induction false} DropSpacesRightOf(s: string, tail: string)
    requires Padding(tail) && (s == "" || s[|s| - 1] != ' ')
    ensures DropSpacesRight(s + tail) == s
  {
    if tail == "" {
      assert s + tail == s;
    } else {
      assert (s + tail)[..|s + tail| - 1] == s + tail[..|tail| - 1];
      DropSpacesRightOf(s, tail[..|tail| - 1]);
    }
  }

  // Trimming what starts with other than a space trims its end only; a tail loses its trailing spaces.
  lemma TrimOf(lead: string, v: string, tail: string)
    requires Padding(lead) && v != "" && v[0] != ' ' && v[|v| - 1] != ' '
    ensures Trim(lead + v + tail) == v + DropSpacesRight(tail)
  {
    assert lead + v + tail == lead + (v + tail);
    DropSpacesOf(lead, v + tail);
    var cut := DropSpacesRightCuts(tail);
    assert v + tail == (v + DropSpacesRight(tail)) + cut;
    DropSpacesRightOf(v + DropSpacesRight(tail), cut);
  }

  // Trailing spaces are no part of a trailer.
  lemma TrailersTrim(tail: string)
    ensures PadOrComment(DropSpacesRight(tail)) <==> PadOrComment(tail)
    ensures Trailer(tail) ==> Trailer(DropSpacesRight(tail))
    ensures PadOrComment(tail) <==> Trim(tail) == "" || Trim(tail)[0] == '#'
  {
    var lead := DropSpacesCuts(tail);
    var body := DropSpaces(tail);
    var cut := DropSpacesRightCuts(body);
    if body != "" {
      var trimmed := DropSpacesRight(body);
      assert tail == (lead + trimmed) + cut;
      DropSpacesRightOf(lead + trimmed, cut);
      DropSpacesOf(lead, trimmed);
      assert trimmed[0] == body[0];
    } else {
      assert tail == "" + lead;
      DropSpacesRightOf("", lead);
    }
  }

  lemma {:induction false} BeforeCommentCuts(s: string) returns (rest: string)
    ensures s == BeforeComment(s) + rest
    ensures rest == "" || (|rest| > 1 && rest[0] == ' ' && rest[1] == '#')
  {
    if s == "" || (|s| > 1 && s[0] == ' ' && s[1] == '#') {
      rest := s;
    } else {
      rest := BeforeCommentCuts(s[1..]);
    }
  }

  lemma {:induction false} BeforeCommentOf(v: string, tail: string)
    requires ' ' !in v
    ensures BeforeComment(v + tail) == v + BeforeComment(tail)
  {
    if v == "" {
      assert v + tail == tail;
    } else {
      assert (v + tail)[1..] == v[1..] + tail;
      BeforeCommentOf(v[1..], tail);
    }
  }

  // In a trailer there are only spaces before the comment.
  lemma {:induction false} TrailersHoldNoText(tail: string)
    requires Trailer(tail)
    ensures Padding(BeforeComment(tail))
  {
    if tail != "" && !(|tail| > 1 && tail[1] == '#') {
      assert DropSpaces(tail) == DropSpaces(tail[1..]);
      TrailersHoldNoText(tail[1..]);
    }
  }

  lemma PlainIsRead(scalar: string, lead: string, v: string, tail: string)
    requires Tight(v) && Plain(scalar, lead, v, tail)
    ensures Value(Trim(scalar)) == Some(v)
  {
    TrimOf(lead, v, tail);
    TrailersTrim(tail);
    var cut := DropSpacesRight(tail);
    var text := v + cut;
    assert text[0] == v[0];
    BeforeCommentOf(v, cut);
    TrailersHoldNoText(cut);
    DropSpacesRightOf(v, BeforeComment(cut));
  }

  lemma QuotedIsRead(scalar: string, lead: string, q: char, v: string, tail: string)
    requires Tight(v) && Quoted(scalar, lead, q, v, tail)
    ensures Value(Trim(scalar)) == Some(v)
  {
    var quoted := [q] + v + [q];
    assert scalar == lead + quoted + tail;
    TrimOf(lead, quoted, tail);
    TrailersTrim(tail);
    TrailersTrim(DropSpacesRight(tail));
    var text := quoted + DropSpacesRight(tail);
    assert text[0] == q && text[|v| + 1] == q;
    assert forall k :: 1 <= k <= |v| ==> text[k] == v[k - 1];
    assert Find(text, q, 1) == |v| + 1;
    assert text[1..|v| + 1] == v && text[|v| + 2..] == DropSpacesRight(tail);
  }

  // What the plain branch leaves of the text after the value is a trailer.
  lemma PlainValueCuts(text: string) returns (tail: string)
    ensures text == PlainValue(text) + tail && Trailer(tail)
  {
    var rest := BeforeCommentCuts(text);
    var pad := DropSpacesRightCuts(BeforeComment(text));
    tail := pad + rest;
    if rest == "" {
      assert tail == pad + "";
      DropSpacesOf(pad, "");
    } else {
      assert tail == (pad + " ") + rest[1..];
      DropSpacesOf(pad + " ", rest[1..]);
    }
  }

  lemma QuotedValueCuts(text: string) returns (tail: string)
    requires text != "" && QuotedValue(text).Some?
    ensures text == [text[0]] + QuotedValue(text).value + [text[0]] + tail && PadOrComment(tail)
  {
    tail := text[Find(text, text[0], 1) + 1..];
    TrailersTrim(tail);
  }

  lemma Regroup(a: string, b: string, c: string, d: string)
    ensures a + ((b + c) + d) == (a + b) + (c + d)
  {
  }

  lemma PlainIsWritten(text: string, lead: string, cut: string)
    requires Padding(lead) && Padding(cut)
    ensures exists tail :: Plain(lead + text + cut, lead, PlainValue(text), tail)
  {
    var v := PlainValue(text);
    var rest := PlainValueCuts(text);
    PaddedTrailers(rest, cut);
    Regroup(lead, v, rest, cut);
    assert lead + text + cut == lead + ((v + rest) + cut);
    assert Plain(lead + text + cut, lead, v, rest + cut);
  }

  lemma QuotedIsWritten(text: string, lead: string, cut: string)
    requires Padding(lead) && Padding(cut)
    requires text != "" && (text[0] == '\'' || text[0] == '"') && QuotedValue(text).Some?
    ensures exists tail :: Quoted(lead + text + cut, lead, text[0], QuotedValue(text).value, tail)
  {
    var q, v := [text[0]], QuotedValue(text).value;
    var rest := QuotedValueCuts(text);
    PaddedTrailers(rest, cut);
    var quoted := q + v + q;
    Regroup(lead, quoted, rest, cut);
    assert lead + text + cut == lead + ((quoted + rest) + cut);
    assert lead + quoted == lead + q + v + q;
    assert Quoted(lead + text + cut, lead, text[0], v, rest + cut);
  }

  lemma ReadIsWritten(scalar: string, v: string)
    requires Value(Trim(scalar)) == Some(v)
    ensures || (exists lead, tail :: Plain(scalar, lead, v, tail))
            || (exists lead, q, tail :: Quoted(scalar, lead, q, v, tail))
  {
    var lead := DropSpacesCuts(scalar);
    var cut := DropSpacesRightCuts(DropSpaces(scalar));
    var text := Trim(scalar);
    assert scalar == lead + text + cut;
    if text[0] == '\'' || text[0] == '"' {
      QuotedIsWritten(text, lead, cut);
    } else {
      PlainIsWritten(text, lead, cut);
    }
  }

  // Spaces after a trailer leave it a trailer.
  lemma PaddedTrailers(tail: string, pad: string)
    requires PadOrComment(tail) && Padding(pad)
    ensures PadOrComment(tail + pad)
    ensures Trailer(tail) ==> Trailer(tail + pad)
  {
    var lead := DropSpacesCuts(tail);
    var body := DropSpaces(tail);
    if body == "" {
      assert tail + pad == (lead + pad) + "";
      DropSpacesOf(lead + pad, "");
    } else {
      assert tail + pad == lead + (body + pad);
      DropSpacesOf(lead, body + pad);
    }
  }

  // The scalar reader returns v exactly when the scalar is v, written in one of the accepted ways.
  lemma ScalarLanguage(scalar: string, v: string)
    ensures SemverScalar(scalar) == Version(v) <==> Written(scalar, v)
  {
    if SemverScalar(scalar) == Version(v) {
      ReadIsWritten(scalar, v);
    }
    if Written(scalar, v) {
      SemVerCharacters(v);
      if lead, tail :| Plain(scalar, lead, v, tail) {
        PlainIsRead(scalar, lead, v, tail);
      } else {
        var lead, q, tail :| Quoted(scalar, lead, q, v, tail);
        QuotedIsRead(scalar, lead, q, v, tail);
      }
    }
  }
}
