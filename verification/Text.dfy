/** White space and words, as Python's str methods and regular expressions see them. */
module Text {
  // str.isspace of one character.
  predicate Blank(c: char) {
    || '\t' <= c <= '\r' || c == ' ' || '\U{1c}' <= c <= '\U{1f}' || c == '\U{85}' || c == '\U{a0}'
    || c == '\U{1680}' || '\U{2000}' <= c <= '\U{200a}' || c == '\U{2028}' || c == '\U{2029}'
    || c == '\U{202f}' || c == '\U{205f}' || c == '\U{3000}'
  }

  // \w, among ASCII characters.
  predicate Word(c: char) {
    'a' <= c <= 'z' || 'A' <= c <= 'Z' || '0' <= c <= '9' || c == '_'
  }

  function StripLeft(s: string): string {
    if s != "" && Blank(s[0]) then StripLeft(s[1..]) else s
  }

  function StripRight(s: string): string {
    if s != "" && Blank(s[|s| - 1]) then StripRight(s[..|s| - 1]) else s
  }

  function Strip(s: string): string {
    StripRight(StripLeft(s))
  }

  function DropSpaces(s: string): string {
    if s != "" && s[0] == ' ' then DropSpaces(s[1..]) else s
  }

  function DropSpacesRight(s: string): string {
    if s != "" && s[|s| - 1] == ' ' then DropSpacesRight(s[..|s| - 1]) else s
  }

  predicate StartsWith(s: string, prefix: string) {
    prefix <= s
  }

  predicate AllBlank(s: string) {
    forall i :: 0 <= i < |s| ==> Blank(s[i])
  }

  // Among ASCII characters white space is the space, the controls from tab to carriage return, and the four
  // separators.
  lemma AsciiBlanks(c: char)
    requires c < 128 as char
    ensures Blank(c) <==> c in " \t\n\r\U{b}\U{c}\U{1c}\U{1d}\U{1e}\U{1f}"
  {
  }

  lemma {:induction false} StripLeftDrops(blanks: string, rest: string)
    requires AllBlank(blanks) && (rest != "" ==> !Blank(rest[0]))
    ensures StripLeft(blanks + rest) == rest
    decreases |blanks|
  {
    if blanks == "" {
      assert blanks + rest == rest;
    } else {
      assert (blanks + rest)[0] == blanks[0] && (blanks + rest)[1..] == blanks[1..] + rest;
      StripLeftDrops(blanks[1..], rest);
    }
  }

  lemma {:induction false} StripRightDrops(rest: string, blanks: string)
    requires AllBlank(blanks) && (rest != "" ==> !Blank(rest[|rest| - 1]))
    ensures StripRight(rest + blanks) == rest
    decreases |blanks|
  {
    if blanks == "" {
      assert rest + blanks == rest;
    } else {
      var n := |blanks| - 1;
      assert (rest + blanks)[..|rest| + n] == rest + blanks[..n];
      StripRightDrops(rest, blanks[..n]);
    }
  }

  lemma {:induction false} StripLeftSplits(s: string) returns (blanks: string)
    ensures AllBlank(blanks) && s == blanks + StripLeft(s)
    ensures StripLeft(s) != "" ==> !Blank(StripLeft(s)[0])
  {
    blanks := "";
    if s != "" && Blank(s[0]) {
      var more := StripLeftSplits(s[1..]);
      blanks := [s[0]] + more;
    }
  }

  lemma {:induction false} StripRightSplits(s: string) returns (blanks: string)
    ensures AllBlank(blanks) && s == StripRight(s) + blanks
    ensures StripRight(s) != "" ==> !Blank(StripRight(s)[|StripRight(s)| - 1])
  {
    blanks := "";
    if s != "" && Blank(s[|s| - 1]) {
      var n := |s| - 1;
      var more := StripRightSplits(s[..n]);
      blanks := more + [s[n]];
      assert s == s[..n] + [s[n]];
    }
  }

  // Stripping takes the blanks at both ends and nothing else.
  lemma StripsExactly(s: string) returns (left: string, right: string)
    ensures AllBlank(left) && AllBlank(right) && s == left + Strip(s) + right
    ensures var body := Strip(s); body != "" ==> !Blank(body[0]) && !Blank(body[|body| - 1])
  {
    left := StripLeftSplits(s);
    right := StripRightSplits(StripLeft(s));
    assert Strip(s) != "" ==> Strip(s)[0] == StripLeft(s)[0];
  }

  lemma StripMiddle(left: string, body: string, right: string)
    requires AllBlank(left) && AllBlank(right) && body != "" && !Blank(body[0]) && !Blank(body[|body| - 1])
    ensures Strip(left + body + right) == body
  {
    assert left + body + right == left + (body + right) && (body + right)[0] == body[0];
    StripLeftDrops(left, body + right);
    StripRightDrops(body, right);
  }

  lemma {:induction false} DropSpacesSplits(s: string) returns (n: nat)
    ensures n <= |s| && (forall i :: 0 <= i < n ==> s[i] == ' ') && DropSpaces(s) == s[n..]
    ensures n < |s| ==> s[n] != ' '
  {
    n := 0;
    if s != "" && s[0] == ' ' {
      var more := DropSpacesSplits(s[1..]);
      n := more + 1;
    }
  }
}
