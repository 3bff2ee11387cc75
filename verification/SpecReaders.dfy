/**
 The two readers of the OpenAPI contract's paths, over the lines that one shared line reader yields:
 which lines that is, and when the two agree.
 */
module SpecReaders {
  import opened Options
  import opened Text

  // ------------------------------------------------------------------ significant lines

  // The spaces a line starts with, trailing white space aside.
  function Indent(line: string): nat {
    var raw := StripRight(line);
    DropSpacesShortens(raw);
    |raw| - |DropSpaces(raw)|
  }

  lemma {:induction false} DropSpacesShortens(s: string)
    ensures |DropSpaces(s)| <= |s|
  {
    if s != "" && s[0] == ' ' {
      DropSpacesShortens(s[1..]);
    }
  }

  function Content(line: string): string {
    DropSpaces(StripRight(line))
  }

  predicate IsContent(line: string) {
    Content(line) != "" && Content(line)[0] != '#'
  }

  // Ends with | or >, or with one of these and then - or +.
  predicate IsScalarHeader(s: string) {
    var n := |s|;
    || (n > 0 && (s[n - 1] == '|' || s[n - 1] == '>'))
    || (n > 1 && (s[n - 1] == '-' || s[n - 1] == '+') && (s[n - 2] == '|' || s[n - 2] == '>'))
  }

  predicate OpensScalar(line: string) {
    IsScalarHeader(Content(line))
  }

  // A line is its indent in spaces, its content, and white space.
  lemma LinesReadExactly(line: string) returns (blanks: string)
    ensures Indent(line) + |Content(line)| + |blanks| == |line| && AllBlank(blanks)
    ensures forall i :: 0 <= i < Indent(line) ==> line[i] == ' '
    ensures var n, c := Indent(line), Content(line);
      && line == line[..n] + c + blanks
      && (c != "" ==> c[0] != ' ' && !Blank(c[|c| - 1]))
  {
    var raw := StripRight(line);
    blanks := StripRightSplits(line);
    var n := DropSpacesSplits(raw);
    DropSpacesShortens(raw);
    assert Indent(line) == n && Content(line) == raw[n..];
    assert line[..n] == raw[..n];
  }

  predicate EndsWith(s: string, suffix: string) {
    |suffix| <= |s| && s[|s| - |suffix|..] == suffix
  }

  lemma EndsWithOne(s: string, c: char)
    ensures EndsWith(s, [c]) <==> s != "" && s[|s| - 1] == c
  {
    if s != "" {
      assert s[|s| - 1..] == [s[|s| - 1]];
    }
  }

  lemma EndsWithTwo(s: string, c: char, d: char)
    ensures EndsWith(s, [c, d]) <==> |s| > 1 && s[|s| - 2] == c && s[|s| - 1] == d
  {
    if |s| > 1 {
      assert s[|s| - 2..] == [s[|s| - 2], s[|s| - 1]];
    }
  }

  // The six endings that open a block scalar.
  lemma ScalarHeadersExactly(s: string)
    ensures IsScalarHeader(s) <==>
      || EndsWith(s, ['|']) || EndsWith(s, ['|', '-']) || EndsWith(s, ['|', '+'])
      || EndsWith(s, ['>']) || EndsWith(s, ['>', '-']) || EndsWith(s, ['>', '+'])
  {
    EndsWithOne(s, '|');
    EndsWithOne(s, '>');
    EndsWithTwo(s, '|', '-');
    EndsWithTwo(s, '|', '+');
    EndsWithTwo(s, '>', '-');
    EndsWithTwo(s, '>', '+');
  }

  // The first line from j on that is not blank and not indented deeper than `indent`.
  function AfterScalar(lines: seq<string>, j: nat, indent: nat): (k: nat)
    requires j <= |lines|
    ensures j <= k <= |lines|
    ensures forall y :: j <= y < k ==> AllBlank(lines[y]) || Indent(lines[y]) > indent
    ensures k < |lines| ==> !AllBlank(lines[k]) && Indent(lines[k]) <= indent
    decreases |lines| - j
  {
    if j == |lines| || (!AllBlank(lines[j]) && Indent(lines[j]) <= indent) then j
    else AfterScalar(lines, j + 1, indent)
  }

  // Where the reader goes on after yielding line i.
  function After(lines: seq<string>, i: nat): (k: nat)
    requires i < |lines|
    ensures i < k <= |lines|
  {
    if OpensScalar(lines[i]) then AfterScalar(lines, i + 1, Indent(lines[i])) else i + 1
  }

  // The positions of the lines the reader yields from i on.
  function Yields(lines: seq<string>, i: nat): (ys: seq<nat>)
    requires i <= |lines|
    ensures forall k :: 0 <= k < |ys| ==> i <= ys[k] < |lines|
    decreases |lines| - i
  {
    if i == |lines| then []
    else if !IsContent(lines[i]) then Yields(lines, i + 1)
    else [i] + Yields(lines, After(lines, i))
  }

  datatype Line = Line(indent: nat, text: string)

  function LinesAt(lines: seq<string>, ys: seq<nat>): seq<Line>
    requires forall k :: 0 <= k < |ys| ==> ys[k] < |lines|
  {
    seq(|ys|, k requires 0 <= k < |ys| => Line(Indent(lines[ys[k]]), Content(lines[ys[k]])))
  }

  function SignificantLines(lines: seq<string>): seq<Line> {
    LinesAt(lines, Yields(lines, 0))
  }

  // The lines the reader still yields from i on.
  function LinesFrom(lines: seq<string>, i: nat): seq<Line>
    requires i <= |lines|
    decreases |lines| - i
  {
    if i == |lines| then []
    else if !IsContent(lines[i]) then LinesFrom(lines, i + 1)
    else [Line(Indent(lines[i]), Content(lines[i]))] + LinesFrom(lines, After(lines, i))
  }

  lemma LinesAtOneMore(lines: seq<string>, y: nat, ys: seq<nat>)
    requires y < |lines| && forall k :: 0 <= k < |ys| ==> ys[k] < |lines|
    ensures LinesAt(lines, [y] + ys) == [Line(Indent(lines[y]), Content(lines[y]))] + LinesAt(lines, ys)
  {
    var all := [y] + ys;
    assert forall k :: 1 <= k < |all| ==> all[k] == ys[k - 1];
  }

  lemma {:induction false} LinesAreYielded(lines: seq<string>, i: nat)
    requires i <= |lines|
    ensures LinesFrom(lines, i) == LinesAt(lines, Yields(lines, i))
    decreases |lines| - i
  {
    if i < |lines| {
      if IsContent(lines[i]) {
        LinesAreYielded(lines, After(lines, i));
        LinesAtOneMore(lines, i, Yields(lines, After(lines, i)));
      } else {
        LinesAreYielded(lines, i + 1);
      }
    }
  }

  // The loop over a block scalar's lines.
  method SkipScalar(lines: seq<string>, i: nat, indent: nat) returns (j: nat)
    requires i <= |lines|
    ensures j == AfterScalar(lines, i, indent)
  {
    j := i;
    while j < |lines| && !(!AllBlank(lines[j]) && Indent(lines[j]) <= indent)
      invariant i <= j <= |lines| && AfterScalar(lines, j, indent) == AfterScalar(lines, i, indent)
    {
      j := j + 1;
    }
  }

  // What the loop has yielded before line i, with what it will yield from there on.
  function Yielding(out: seq<Line>, lines: seq<string>, i: nat): seq<Line>
    requires i <= |lines|
  {
    out + LinesFrom(lines, i)
  }

  lemma YieldTurn(out: seq<Line>, lines: seq<string>, i: nat)
    requires i < |lines|
    ensures !IsContent(lines[i]) ==> Yielding(out, lines, i) == Yielding(out, lines, i + 1)
    ensures IsContent(lines[i]) ==>
      Yielding(out, lines, i) == Yielding(out + [Line(Indent(lines[i]), Content(lines[i]))], lines, After(lines, i))
  {
  }

  method ReadSignificantLines(lines: seq<string>) returns (out: seq<Line>)
    ensures out == SignificantLines(lines)
  {
    out := [];
    var i := 0;
    ghost var goal := Yielding([], lines, 0);
    while i < |lines|
      invariant i <= |lines| && Yielding(out, lines, i) == goal
      decreases |lines| - i
    {
      ghost var here := i;
      var line, indent, stripped := ReadLine(lines, i);
      YieldTurn(out, lines, here);
      i := i + 1;
      if stripped == "" || stripped[0] == '#' {
        continue;
      }
      out := out + [line];
      if IsScalarHeader(stripped) {
        i := SkipScalar(lines, i, indent);
      }
    }
    YieldedAll(out, lines);
  }

  // One line, as the loop's body reads it.
  method ReadLine(lines: seq<string>, i: nat) returns (line: Line, indent: nat, stripped: string)
    requires i < |lines|
    ensures indent == Indent(lines[i]) && stripped == Content(lines[i]) && line == Line(indent, stripped)
  {
    var raw := StripRight(lines[i]);
    stripped := DropSpaces(raw);
    DropSpacesShortens(raw);
    indent := |raw| - |stripped|;
    line := Line(indent, stripped);
  }

  lemma YieldedAll(out: seq<Line>, lines: seq<string>)
    ensures Yielding(out, lines, |lines|) == out
    ensures Yielding([], lines, 0) == SignificantLines(lines)
  {
    LinesAreYielded(lines, 0);
    assert out + [] == out;
    assert [] + LinesFrom(lines, 0) == LinesFrom(lines, 0);
  }

  // Line x lies in the block scalar that line k opens: nothing from k to x is content at k's indent or
  // further left.
  predicate InScalar(lines: seq<string>, k: nat, x: nat) {
    && k < x < |lines| && OpensScalar(lines[k])
    && forall y :: k < y <= x ==> AllBlank(lines[y]) || Indent(lines[y]) > Indent(lines[k])
  }

  lemma {:induction false} BlankLinesAreNotContent(line: string)
    requires AllBlank(line)
    ensures !IsContent(line)
    decreases |line|
  {
    if line != "" {
      BlankLinesAreNotContent(line[..|line| - 1]);
    }
  }

  // From i on the reader yields each line at most once, in order, and exactly the content lines that do
  // not lie in the block scalar of a line it yielded.
  lemma {:induction false} YieldsOutsideScalars(lines: seq<string>, i: nat, x: nat)
    requires i <= x < |lines|
    ensures x in Yields(lines, i) <==>
      && Content(lines[x]) != "" && Content(lines[x])[0] != '#'
      && forall k :: k in Yields(lines, i) ==> !InScalar(lines, k, x)
    decreases |lines| - i
  {
    if !IsContent(lines[i]) {
      if x == i {
        assert forall k :: k in Yields(lines, i) ==> k >= i;
      } else {
        YieldsOutsideScalars(lines, i + 1, x);
      }
    } else {
      var next := After(lines, i);
      var rest := Yields(lines, next);
      assert forall k :: k in Yields(lines, i) <==> k == i || k in rest;
      assert forall k :: k in rest ==> k >= next;
      if x == i {
        assert forall k :: k in Yields(lines, i) ==> !InScalar(lines, k, x);
      } else if x < next {
        assert InScalar(lines, i, x);
      } else {
        YieldsOutsideScalars(lines, next, x);
        assert OpensScalar(lines[i]) ==> !AllBlank(lines[next]) && Indent(lines[next]) <= Indent(lines[i]);
        assert !InScalar(lines, i, x);
      }
    }
  }

  lemma {:induction false} YieldsInOrder(lines: seq<string>, i: nat, j: nat, k: nat)
    requires i <= |lines| && j < k < |Yields(lines, i)|
    ensures Yields(lines, i)[j] < Yields(lines, i)[k]
    decreases |lines| - i
  {
    if !IsContent(lines[i]) {
      YieldsInOrder(lines, i + 1, j, k);
    } else {
      var ys, next := Yields(lines, i), After(lines, i);
      var rest := Yields(lines, next);
      assert ys == [i] + rest;
      assert ys[k] == rest[k - 1] && (j > 0 ==> ys[j] == rest[j - 1]);
      if j > 0 {
        YieldsInOrder(lines, next, j - 1, k - 1);
      }
    }
  }

  // ------------------------------------------------------------------ the two readers

  const HTTP_METHODS := {"get", "post", "put", "patch", "delete", "head", "options", "trace"}

  datatype Spec = Found(paths: map<string, set<string>>) | SpecError

  predicate EndsWithColon(s: string) {
    s != "" && s[|s| - 1] == ':'
  }

  // A key as both readers cut it from a line: all but the last character, stripped.
  function Key(line: string): string {
    if line == "" then "" else Strip(line[..|line| - 1])
  }

  function DropColons(s: string): string {
    if EndsWithColon(s) then DropColons(s[..|s| - 1]) else s
  }

  // Cutting a key drops the last character and the white space around what is left.
  lemma KeysExactly(left: string, key: string, right: string, last: char)
    requires AllBlank(left) && AllBlank(right) && (key != "" ==> !Blank(key[0]) && !Blank(key[|key| - 1]))
    ensures Key(left + key + right + [last]) == key
  {
    var line := left + key + right + [last];
    assert line[..|line| - 1] == left + key + right;
    if key == "" {
      StripLeftDrops(left + right, "");
      assert left + key + right == left + right + "";
    } else {
      StripMiddle(left, key, right);
    }
  }

  lemma {:induction false} DropColonsDrops(s: string)
    ensures DropColons(s) == "paths" && !EndsWithColon(s) <==> s == "paths"
  {
  }

  // parse_spec_paths over the remaining lines.
  function ParseFrom(lines: seq<Line>, found: map<string, set<string>>, inPaths: bool, current: Option<string>): Spec
    requires current.Some? ==> current.value in found
    decreases |lines|
  {
    if lines == [] then Found(found)
    else
      var (indent, line, rest) := (lines[0].indent, lines[0].text, lines[1..]);
      if indent == 0 then
        if DropColons(line) == "paths" && !EndsWithColon(line) then SpecError
        else ParseFrom(rest, found, line == "paths:", None)
      else if !inPaths then ParseFrom(rest, found, inPaths, current)
      else if indent == 2 then
        if !EndsWithColon(line) || !StartsWith(Key(line), "/") then SpecError
        else ParseFrom(rest, found[Key(line) := {}], inPaths, Some(Key(line)))
      else if indent == 4 && current.Some? then
        var key := if EndsWithColon(line) then Key(line) else line;
        if key in HTTP_METHODS then
          ParseFrom(rest, found[current.value := found[current.value] + {key}], inPaths, current)
        else ParseFrom(rest, found, inPaths, current)
      else ParseFrom(rest, found, inPaths, current)
  }

  function ParseSpecPaths(lines: seq<Line>): Spec {
    match ParseFrom(lines, map[], false, None)
    case SpecError => SpecError
    case Found(paths) => if paths == map[] then SpecError else Found(paths)
  }

  // The last line of indent 0 before line k is `paths:`.
  predicate UnderPaths(lines: seq<Line>, k: nat) {
    k > 0 && k <= |lines|
    && if lines[k - 1].indent == 0 then lines[k - 1].text == "paths:" else UnderPaths(lines, k - 1)
  }

  // The lines the parity check refuses: `paths` without its colon, and a key under `paths:` that is no path.
  predicate Refuses(lines: seq<Line>, k: nat)
    requires k < |lines|
  {
    || lines[k] == Line(0, "paths")
    || (UnderPaths(lines, k) && lines[k].indent == 2
        && !(EndsWith(lines[k].text, ":") && StartsWith(Key(lines[k].text), "/")))
  }

  predicate SomeRefused(lines: seq<Line>, i: nat) {
    exists k: nat :: i <= k < |lines| && Refuses(lines, k)
  }

  predicate NoKeys(lines: seq<Line>, i: nat) {
    forall k: nat :: i <= k < |lines| && UnderPaths(lines, k) ==> lines[k].indent != 2
  }

  lemma RefusedUnfold(lines: seq<Line>, i: nat)
    requires i < |lines|
    ensures SomeRefused(lines, i) <==> Refuses(lines, i) || SomeRefused(lines, i + 1)
    ensures NoKeys(lines, i) <==> (UnderPaths(lines, i) ==> lines[i].indent != 2) && NoKeys(lines, i + 1)
  {
  }

  lemma LineRefused(lines: seq<Line>, i: nat)
    requires i < |lines|
    ensures var (indent, line) := (lines[i].indent, lines[i].text);
      Refuses(lines, i) <==>
        || (indent == 0 && DropColons(line) == "paths" && !EndsWithColon(line))
        || (UnderPaths(lines, i) && indent == 2 && !(EndsWithColon(line) && StartsWith(Key(line), "/")))
    ensures UnderPaths(lines, i + 1) <==>
      if lines[i].indent == 0 then lines[i].text == "paths:" else UnderPaths(lines, i)
  {
    var line := lines[i].text;
    DropColonsDrops(line);
    assert EndsWith(line, ":") <==> EndsWithColon(line);
  }

  lemma {:induction false} ParsingRefuses(
    lines: seq<Line>, i: nat, found: map<string, set<string>>, inPaths: bool, current: Option<string>)
    requires i <= |lines| && (inPaths <==> UnderPaths(lines, i)) && (current.Some? ==> current.value in found)
    ensures var spec := ParseFrom(lines[i..], found, inPaths, current);
      && (spec.SpecError? <==> SomeRefused(lines, i))
      && (spec.Found? ==> (spec.paths == map[] <==> found == map[] && NoKeys(lines, i)))
    decreases |lines| - i
  {
    if i < |lines| {
      var indent, line := lines[i].indent, lines[i].text;
      assert lines[i..][0] == lines[i] && lines[i..][1..] == lines[i + 1..];
      LineRefused(lines, i);
      RefusedUnfold(lines, i);
      if !Refuses(lines, i) {
        if indent == 0 {
          ParsingRefuses(lines, i + 1, found, line == "paths:", None);
        } else if inPaths && indent == 2 {
          assert Key(line) in found[Key(line) := {}];
          ParsingRefuses(lines, i + 1, found[Key(line) := {}], inPaths, Some(Key(line)));
        } else if inPaths && indent == 4 && current.Some? {
          var key := if EndsWithColon(line) then Key(line) else line;
          var more := if key in HTTP_METHODS then found[current.value := found[current.value] + {key}] else found;
          assert current.value in more;
          ParsingRefuses(lines, i + 1, more, inPaths, current);
        } else {
          ParsingRefuses(lines, i + 1, found, inPaths, current);
        }
      }
    }
  }

  // A text is refused exactly for such a line, or when no key stands under `paths:`.
  lemma RefusedExactly(lines: seq<Line>)
    ensures ParseSpecPaths(lines).SpecError? <==> SomeRefused(lines, 0) || NoKeys(lines, 0)
  {
    ParsingRefuses(lines, 0, map[], false, None);
    assert lines[0..] == lines;
  }

  method ReadSpecPaths(lines: seq<Line>) returns (spec: Spec)
    ensures spec == ParseSpecPaths(lines)
  {
    var found: map<string, set<string>> := map[];
    var inPaths := false;
    var current: Option<string> := None;
    for i := 0 to |lines|
      invariant current.Some? ==> current.value in found
      invariant ParseFrom(lines[i..], found, inPaths, current) == ParseFrom(lines, map[], false, None)
    {
      var indent, line := lines[i].indent, lines[i].text;
      assert lines[i..][1..] == lines[i + 1..];
      if indent == 0 {
        inPaths := line == "paths:";
        current := None;
        if DropColons(line) == "paths" && !EndsWithColon(line) {
          return SpecError;
        }
        continue;
      }
      if !inPaths {
        continue;
      }
      if indent == 2 {
        if !EndsWithColon(line) {
          return SpecError;
        }
        var path := Key(line);
        if !StartsWith(path, "/") {
          return SpecError;
        }
        current := Some(path);
        found := found[path := {}];
        continue;
      }
      if indent == 4 && current != None {
        var key := if EndsWithColon(line) then Key(line) else line;
        if key in HTTP_METHODS {
          found := found[current.value := found[current.value] + {key}];
        }
      }
    }
    if found == map[] {
      return SpecError;
    }
    return Found(found);
  }

  datatype Operation = Operation(path: string, verb: string, body: seq<string>)

  // What the nested function flush appends.
  function Flushed(path: Option<string>, verb: Option<string>, body: seq<string>): seq<Operation> {
    if path.Some? && verb.Some? then [Operation(path.value, verb.value, body)] else []
  }

  // _operation_blocks over the remaining lines.
  function BlocksFrom(
    lines: seq<Line>, inPaths: bool, path: Option<string>, verb: Option<string>, body: seq<string>): seq<Operation>
    decreases |lines|
  {
    if lines == [] then Flushed(path, verb, body)
    else
      var (indent, line, rest) := (lines[0].indent, lines[0].text, lines[1..]);
      if indent == 0 then
        (if inPaths then Flushed(path, verb, body) else []) + BlocksFrom(rest, line == "paths:", None, None, [])
      else if !inPaths then BlocksFrom(rest, inPaths, path, verb, body)
      else if indent == 2 then Flushed(path, verb, body) + BlocksFrom(rest, inPaths, Some(Key(line)), None, [])
      else if indent == 4 then Flushed(path, verb, body) + BlocksFrom(rest, inPaths, path, Some(Key(line)), [])
      else if verb.Some? then BlocksFrom(rest, inPaths, path, verb, body + [line])
      else BlocksFrom(rest, inPaths, path, verb, body)
  }

  function OperationBlocks(lines: seq<Line>): seq<Operation> {
    BlocksFrom(lines, false, None, None, [])
  }

  // The lines below a verb line, up to the next of indent 0, 2 or 4.
  function BodyLines(lines: seq<Line>): seq<string> {
    if lines == [] || lines[0].indent == 0 || lines[0].indent == 2 || lines[0].indent == 4 then []
    else [lines[0].text] + BodyLines(lines[1..])
  }

  // The operations as they stand in the text: each verb line below a path, with the lines below it.
  function Operations(lines: seq<Line>, inPaths: bool, path: Option<string>): seq<Operation>
    decreases |lines|
  {
    if lines == [] then []
    else
      var (indent, line, rest) := (lines[0].indent, lines[0].text, lines[1..]);
      if indent == 0 then Operations(rest, line == "paths:", None)
      else if inPaths && indent == 2 then Operations(rest, inPaths, Some(Key(line)))
      else if inPaths && indent == 4 && path.Some? then
        [Operation(path.value, Key(line), BodyLines(rest))] + Operations(rest, inPaths, path)
      else Operations(rest, inPaths, path)
  }

  // What a reader that has an operation open still reads into it.
  function Open(path: Option<string>, verb: Option<string>, body: seq<string>): seq<Operation> {
    match (path, verb)
    case (Some(p), Some(v)) => [Operation(p, v, body)]
    case _ => []
  }

  lemma {:induction false} BlocksAreOperations(
    lines: seq<Line>, inPaths: bool, path: Option<string>, verb: Option<string>, body: seq<string>)
    requires !inPaths ==> path == None && verb == None
    ensures BlocksFrom(lines, inPaths, path, verb, body)
         == Open(path, verb, body + BodyLines(lines)) + Operations(lines, inPaths, path)
    decreases |lines|
  {
    assert body + [] == body;
    if lines != [] {
      var indent, line, rest := lines[0].indent, lines[0].text, lines[1..];
      if indent == 0 {
        BlocksAreOperations(rest, line == "paths:", None, None, []);
      } else if !inPaths {
        BlocksAreOperations(rest, inPaths, path, verb, body);
      } else if indent == 2 {
        BlocksAreOperations(rest, inPaths, Some(Key(line)), None, []);
      } else if indent == 4 {
        BlocksAreOperations(rest, inPaths, path, Some(Key(line)), []);
        assert [] + BodyLines(rest) == BodyLines(rest);
      } else {
        assert (body + [line]) + BodyLines(rest) == body + BodyLines(lines);
        BlocksAreOperations(rest, inPaths, path, verb, if verb.Some? then body + [line] else body);
      }
    }
  }

  lemma Regroup(a: seq<Operation>, b: seq<Operation>, c: seq<Operation>)
    ensures a + (b + c) == (a + b) + c
  {
  }

  // A line of indent 0, 2 or 4 closes the open operation; what the loop has appended so far stays in front.
  lemma BlocksTurn(
    ops: seq<Operation>, lines: seq<Line>, inPaths: bool, path: Option<string>, verb: Option<string>, body: seq<string>)
    requires lines != []
    ensures ops + BlocksFrom(lines, inPaths, path, verb, body) ==
      var (indent, line, rest) := (lines[0].indent, lines[0].text, lines[1..]);
      if indent == 0 then
        (if inPaths then ops + Flushed(path, verb, body) else ops) + BlocksFrom(rest, line == "paths:", None, None, [])
      else if !inPaths then ops + BlocksFrom(rest, inPaths, path, verb, body)
      else if indent == 2 then (ops + Flushed(path, verb, body)) + BlocksFrom(rest, inPaths, Some(Key(line)), None, [])
      else if indent == 4 then (ops + Flushed(path, verb, body)) + BlocksFrom(rest, inPaths, path, Some(Key(line)), [])
      else ops + BlocksFrom(rest, inPaths, path, verb, if verb.Some? then body + [line] else body)
  {
    var indent, line, rest, flushed := lines[0].indent, lines[0].text, lines[1..], Flushed(path, verb, body);
    if indent == 0 {
      Regroup(ops, if inPaths then flushed else [], BlocksFrom(rest, line == "paths:", None, None, []));
      assert ops + [] == ops;
    } else if inPaths && indent == 2 {
      Regroup(ops, flushed, BlocksFrom(rest, inPaths, Some(Key(line)), None, []));
    } else if inPaths && indent == 4 {
      Regroup(ops, flushed, BlocksFrom(rest, inPaths, path, Some(Key(line)), []));
    }
  }

  method ReadOperationBlocks(lines: seq<Line>) returns (ops: seq<Operation>)
    ensures ops == OperationBlocks(lines)
    ensures ops == Operations(lines, false, None)
  {
    BlocksAreOperations(lines, false, None, None, []);
    assert [] + Operations(lines, false, None) == Operations(lines, false, None);
    ops := [];
    var path: Option<string> := None;
    var verb: Option<string> := None;
    var body: seq<string> := [];
    var inPaths := false;
    for i := 0 to |lines|
      invariant ops + BlocksFrom(lines[i..], inPaths, path, verb, body) == OperationBlocks(lines)
    {
      var indent, line := lines[i].indent, lines[i].text;
      assert lines[i..][0] == lines[i] && lines[i..][1..] == lines[i + 1..];
      BlocksTurn(ops, lines[i..], inPaths, path, verb, body);
      if indent == 0 {
        if inPaths {
          ops := ops + Flushed(path, verb, body);
        }
        inPaths, path, verb, body := line == "paths:", None, None, [];
        continue;
      }
      if !inPaths {
        continue;
      }
      if indent == 2 {
        ops := ops + Flushed(path, verb, body);
        path, verb, body := Some(Key(line)), None, [];
      } else if indent == 4 {
        ops := ops + Flushed(path, verb, body);
        verb, body := Some(Key(line)), [];
      } else if verb != None {
        body := body + [line];
      }
    }
    ops := ops + Flushed(path, verb, body);
  }

  // ------------------------------------------------------------------ agreement

  // A path key inside `paths:`, with the lines of indent 4 below it.
  datatype Section = Section(path: string, verbLines: seq<string>)

  // The lines of indent 4 before the next line of indent 0 or 2.
  function VerbLines(lines: seq<Line>): seq<string> {
    if lines == [] || lines[0].indent == 0 || lines[0].indent == 2 then []
    else (if lines[0].indent == 4 then [lines[0].text] else []) + VerbLines(lines[1..])
  }

  function Sections(lines: seq<Line>, inPaths: bool): seq<Section>
    decreases |lines|
  {
    if lines == [] then []
    else if lines[0].indent == 0 then Sections(lines[1..], lines[0].text == "paths:")
    else if inPaths && lines[0].indent == 2 then
      [Section(Key(lines[0].text), VerbLines(lines[1..]))] + Sections(lines[1..], inPaths)
    else Sections(lines[1..], inPaths)
  }

  // How the parity check reads a verb line; the other reader reads Key(line).
  function DocumentedKey(line: string): string {
    if EndsWithColon(line) then Key(line) else line
  }

  predicate DocumentsVerb(verbLines: seq<string>, verb: string) {
    exists i :: 0 <= i < |verbLines| && DocumentedKey(verbLines[i]) == verb
  }

  predicate ListsVerb(verbLines: seq<string>, verb: string) {
    exists i :: 0 <= i < |verbLines| && Key(verbLines[i]) == verb
  }

  // The last section of a path documents the verb.
  predicate LastDocuments(sections: seq<Section>, path: string, verb: string) {
    exists i :: 0 <= i < |sections| && IsLast(sections, i) && sections[i].path == path
      && DocumentsVerb(sections[i].verbLines, verb)
  }

  // No later section has the same path.
  predicate IsLast(sections: seq<Section>, i: nat) {
    i < |sections| && forall j :: i < j < |sections| ==> sections[j].path != sections[i].path
  }

  predicate SomeLists(sections: seq<Section>, path: string, verb: string) {
    exists i :: 0 <= i < |sections| && sections[i].path == path && ListsVerb(sections[i].verbLines, verb)
  }

  predicate HasSection(sections: seq<Section>, path: string) {
    exists i :: 0 <= i < |sections| && sections[i].path == path
  }

  predicate Documents(found: map<string, set<string>>, path: string, verb: string) {
    path in found && verb in found[path]
  }

  predicate Lists(ops: seq<Operation>, path: string, verb: string) {
    exists k :: 0 <= k < |ops| && ops[k].path == path && ops[k].verb == verb
  }

  lemma ListsEither(a: seq<Operation>, b: seq<Operation>, path: string, verb: string)
    ensures Lists(a + b, path, verb) <==> Lists(a, path, verb) || Lists(b, path, verb)
  {
    var s := a + b;
    if k :| 0 <= k < |a| && a[k].path == path && a[k].verb == verb {
      assert s[k] == a[k];
    }
    if k :| 0 <= k < |b| && b[k].path == path && b[k].verb == verb {
      assert s[|a| + k] == b[k];
    }
    if k :| 0 <= k < |s| && s[k].path == path && s[k].verb == verb {
      assert k < |a| ==> a[k] == s[k];
      assert k >= |a| ==> b[k - |a|] == s[k];
    }
  }

  lemma ListsFlushed(at: Option<string>, open: Option<string>, body: seq<string>, path: string, verb: string)
    ensures Lists(Flushed(at, open, body), path, verb) <==> at == Some(path) && open == Some(verb)
  {
    if at.Some? && open.Some? {
      assert Flushed(at, open, body)[0] == Operation(at.value, open.value, body);
    }
  }

  lemma VerbLinesOneMore(line: string, rest: seq<string>, verb: string)
    ensures DocumentsVerb([line] + rest, verb) <==> DocumentedKey(line) == verb || DocumentsVerb(rest, verb)
    ensures ListsVerb([line] + rest, verb) <==> Key(line) == verb || ListsVerb(rest, verb)
  {
    var all := [line] + rest;
    assert all[0] == line && forall i :: 0 <= i < |rest| ==> rest[i] == all[i + 1];
    assert forall i :: 1 <= i < |all| ==> all[i] == rest[i - 1];
  }

  lemma IsLastBehind(s: Section, rest: seq<Section>, i: nat)
    requires i < |rest|
    ensures IsLast([s] + rest, i + 1) <==> IsLast(rest, i)
  {
    var all := [s] + rest;
    assert forall j :: 1 <= j < |all| ==> all[j] == rest[j - 1];
    if IsLast(all, i + 1) {
      forall j | i < j < |rest|
        ensures rest[j].path != rest[i].path
      {
        assert all[j + 1] == rest[j];
      }
    }
  }

  lemma LastOneMore(s: Section, rest: seq<Section>, path: string, verb: string)
    ensures LastDocuments([s] + rest, path, verb) <==>
      if HasSection(rest, path) then LastDocuments(rest, path, verb)
      else s.path == path && DocumentsVerb(s.verbLines, verb)
  {
    var all := [s] + rest;
    assert forall i :: 1 <= i < |all| ==> all[i] == rest[i - 1];
    if i: nat :| i < |rest| && IsLast(rest, i) && rest[i].path == path && DocumentsVerb(rest[i].verbLines, verb) {
      IsLastBehind(s, rest, i);
      assert IsLast(all, i + 1) && all[i + 1] == rest[i];
    }
    if k: nat :| k < |rest| && rest[k].path == path {
      assert all[k + 1] == rest[k];
    }
    if i: nat :| i < |all| && IsLast(all, i) && all[i].path == path && DocumentsVerb(all[i].verbLines, verb) {
      if i > 0 {
        IsLastBehind(s, rest, i - 1);
        assert rest[i - 1] == all[i];
      }
    }
    if s.path == path && !HasSection(rest, path) {
      assert IsLast(all, 0) && all[0] == s;
    }
  }

  lemma SectionsOneMore(s: Section, rest: seq<Section>, path: string, verb: string)
    ensures HasSection([s] + rest, path) <==> s.path == path || HasSection(rest, path)
    ensures SomeLists([s] + rest, path, verb) <==>
      (s.path == path && ListsVerb(s.verbLines, verb)) || SomeLists(rest, path, verb)
  {
    var all := [s] + rest;
    assert all[0] == s && forall i :: 0 <= i < |rest| ==> rest[i] == all[i + 1];
    assert forall i :: 1 <= i < |all| ==> all[i] == rest[i - 1];
  }

  // What is documented in the end: by the last section still to come, or by what was found and the lines
  // left of the open section.
  lemma {:induction false} LastSectionDocuments(
    lines: seq<Line>, found: map<string, set<string>>, inPaths: bool, current: Option<string>,
    path: string, verb: string)
    requires current.Some? ==> current.value in found
    requires ParseFrom(lines, found, inPaths, current).Found? && verb in HTTP_METHODS
    requires !inPaths ==> current == None
    ensures Documents(ParseFrom(lines, found, inPaths, current).paths, path, verb) <==>
      if HasSection(Sections(lines, inPaths), path) then LastDocuments(Sections(lines, inPaths), path, verb)
      else Documents(found, path, verb) || (current == Some(path) && DocumentsVerb(VerbLines(lines), verb))
    decreases |lines|
  {
    if lines != [] {
      var indent, line, rest := lines[0].indent, lines[0].text, lines[1..];
      if indent == 0 {
        LastSectionDocuments(rest, found, line == "paths:", None, path, verb);
      } else if !inPaths {
        LastSectionDocuments(rest, found, inPaths, current, path, verb);
      } else if indent == 2 {
        LastSectionDocuments(rest, found[Key(line) := {}], inPaths, Some(Key(line)), path, verb);
        SectionsOneMore(Section(Key(line), VerbLines(rest)), Sections(rest, inPaths), path, verb);
        LastOneMore(Section(Key(line), VerbLines(rest)), Sections(rest, inPaths), path, verb);
      } else if indent == 4 {
        VerbLinesOneMore(line, VerbLines(rest), verb);
        if current.Some? && DocumentedKey(line) in HTTP_METHODS {
          var more := found[current.value := found[current.value] + {DocumentedKey(line)}];
          LastSectionDocuments(rest, more, inPaths, current, path, verb);
        } else {
          LastSectionDocuments(rest, found, inPaths, current, path, verb);
        }
      } else {
        assert VerbLines(lines) == [] + VerbLines(rest) == VerbLines(rest);
        LastSectionDocuments(rest, found, inPaths, current, path, verb);
      }
    }
  }

  // What is listed in the end: the open operation, the lines left of the open section, or a section still
  // to come.
  lemma {:induction false} SomeSectionLists(
    lines: seq<Line>, inPaths: bool, at: Option<string>, open: Option<string>, body: seq<string>,
    path: string, verb: string)
    requires !inPaths ==> at == None && open == None
    ensures Lists(BlocksFrom(lines, inPaths, at, open, body), path, verb) <==>
      || (at == Some(path) && (open == Some(verb) || ListsVerb(VerbLines(lines), verb)))
      || SomeLists(Sections(lines, inPaths), path, verb)
    decreases |lines|
  {
    ListsFlushed(at, open, body, path, verb);
    if lines != [] {
      var indent, line, rest, flushed := lines[0].indent, lines[0].text, lines[1..], Flushed(at, open, body);
      if indent == 0 {
        SomeSectionLists(rest, line == "paths:", None, None, [], path, verb);
        ListsEither(if inPaths then flushed else [], BlocksFrom(rest, line == "paths:", None, None, []), path, verb);
      } else if !inPaths {
        SomeSectionLists(rest, inPaths, at, open, body, path, verb);
      } else if indent == 2 {
        SomeSectionLists(rest, inPaths, Some(Key(line)), None, [], path, verb);
        ListsEither(flushed, BlocksFrom(rest, inPaths, Some(Key(line)), None, []), path, verb);
        SectionsOneMore(Section(Key(line), VerbLines(rest)), Sections(rest, inPaths), path, verb);
      } else if indent == 4 {
        SomeSectionLists(rest, inPaths, at, Some(Key(line)), [], path, verb);
        ListsEither(flushed, BlocksFrom(rest, inPaths, at, Some(Key(line)), []), path, verb);
        VerbLinesOneMore(line, VerbLines(rest), verb);
      } else {
        assert VerbLines(lines) == [] + VerbLines(rest) == VerbLines(rest);
        SomeSectionLists(rest, inPaths, at, open, if open.Some? then body + [line] else body, path, verb);
      }
    }
  }

  // The two readers see the same pairs of path and HTTP method.
  ghost predicate Agree(lines: seq<Line>)
    requires ParseSpecPaths(lines).Found?
  {
    forall path, verb :: verb in HTTP_METHODS ==>
      (Documents(ParseSpecPaths(lines).paths, path, verb) <==> Lists(OperationBlocks(lines), path, verb))
  }

  // The last section i of a path documents exactly the HTTP methods that the path's sections list.
  predicate Complete(sections: seq<Section>, i: nat)
    requires i < |sections|
  {
    forall verb :: verb in HTTP_METHODS ==>
      (DocumentsVerb(sections[i].verbLines, verb) <==> SomeLists(sections, sections[i].path, verb))
  }

  predicate SectionsAgree(sections: seq<Section>) {
    forall i :: 0 <= i < |sections| && IsLast(sections, i) ==> Complete(sections, i)
  }

  lemma ReadersBySection(lines: seq<Line>, path: string, verb: string)
    requires ParseSpecPaths(lines).Found? && verb in HTTP_METHODS
    ensures Documents(ParseSpecPaths(lines).paths, path, verb) <==> LastDocuments(Sections(lines, false), path, verb)
    ensures Lists(OperationBlocks(lines), path, verb) <==> SomeLists(Sections(lines, false), path, verb)
  {
    LastSectionDocuments(lines, map[], false, None, path, verb);
    SomeSectionLists(lines, false, None, None, [], path, verb);
  }

  lemma {:induction false} LastSectionExists(sections: seq<Section>, path: string) returns (i: nat)
    requires HasSection(sections, path)
    ensures i < |sections| && IsLast(sections, i) && sections[i].path == path
    decreases |sections|
  {
    var n := |sections| - 1;
    if sections[n].path == path {
      i := n;
    } else {
      var front := sections[..n];
      var k :| 0 <= k < |sections| && sections[k].path == path;
      assert front[k].path == path;
      i := LastSectionExists(front, path);
      assert forall j :: 0 <= j < n ==> sections[j] == front[j];
    }
  }

  // On every text the parity check accepts, the two readers agree exactly when the last section of each
  // path documents just what all the sections of that path list.
  lemma ReadersAgreeExactly(lines: seq<Line>)
    requires ParseSpecPaths(lines).Found?
    ensures Agree(lines) <==> SectionsAgree(Sections(lines, false))
  {
    var sections := Sections(lines, false);
    if Agree(lines) {
      forall i, verb | 0 <= i < |sections| && IsLast(sections, i) && verb in HTTP_METHODS
        ensures DocumentsVerb(sections[i].verbLines, verb) <==> SomeLists(sections, sections[i].path, verb)
      {
        ReadersBySection(lines, sections[i].path, verb);
        OnlyLastSection(sections, i, verb);
      }
    }
    if SectionsAgree(sections) {
      forall path, verb | verb in HTTP_METHODS
        ensures Documents(ParseSpecPaths(lines).paths, path, verb) <==> Lists(OperationBlocks(lines), path, verb)
      {
        ReadersBySection(lines, path, verb);
        if HasSection(sections, path) {
          var i := LastSectionExists(sections, path);
          OnlyLastSection(sections, i, verb);
          assert Complete(sections, i);
        }
      }
    }
  }

  lemma OnlyLastSection(sections: seq<Section>, i: nat, verb: string)
    requires i < |sections| && IsLast(sections, i)
    ensures LastDocuments(sections, sections[i].path, verb) <==> DocumentsVerb(sections[i].verbLines, verb)
  {
    forall j: nat | j < |sections| && IsLast(sections, j) && sections[j].path == sections[i].path
      ensures j == i
    {
    }
  }

  // A verb line without a colon that is an HTTP method, or is one to the reader that drops a last character.
  predicate Misleading(line: string) {
    !EndsWithColon(line) && (line in HTTP_METHODS || Key(line) in HTTP_METHODS)
  }

  // The two readers take a verb line for the same HTTP method, or both for none, exactly when it is not
  // misleading.
  lemma LinesReadAlike(line: string)
    ensures (forall verb :: verb in HTTP_METHODS ==> (DocumentedKey(line) == verb <==> Key(line) == verb))
      <==> !Misleading(line)
  {
    if Misleading(line) {
      KeysAreShorter(line);
      if line in HTTP_METHODS {
        assert DocumentedKey(line) == line != Key(line);
      } else {
        assert DocumentedKey(line) == line != Key(line);
      }
    }
  }

  lemma KeysAreShorter(line: string)
    requires line != ""
    ensures |Key(line)| < |line|
  {
    StripShortens(line[..|line| - 1]);
  }

  lemma {:induction false} StripShortens(s: string)
    ensures |Strip(s)| <= |s|
  {
    StripLeftShortens(s);
    StripRightShortens(StripLeft(s));
  }

  lemma {:induction false} StripLeftShortens(s: string)
    ensures |StripLeft(s)| <= |s|
  {
    if s != "" && Blank(s[0]) {
      StripLeftShortens(s[1..]);
    }
  }

  lemma {:induction false} StripRightShortens(s: string)
    ensures |StripRight(s)| <= |s|
    decreases |s|
  {
    if s != "" && Blank(s[|s| - 1]) {
      StripRightShortens(s[..|s| - 1]);
    }
  }

  predicate Distinct(sections: seq<Section>) {
    forall i, j :: 0 <= i < j < |sections| ==> sections[i].path != sections[j].path
  }

  predicate NothingMisleads(sections: seq<Section>) {
    forall i, k :: 0 <= i < |sections| && 0 <= k < |sections[i].verbLines| ==> !Misleading(sections[i].verbLines[k])
  }

  // So with distinct path keys they agree if no verb line misleads, as none does that ends with a colon.
  lemma ReadersAgree(lines: seq<Line>)
    requires ParseSpecPaths(lines).Found?
    requires Distinct(Sections(lines, false)) && NothingMisleads(Sections(lines, false))
    ensures Agree(lines)
  {
    var sections := Sections(lines, false);
    forall i | 0 <= i < |sections|
      ensures Complete(sections, i)
    {
      forall verb | verb in HTTP_METHODS
        ensures DocumentsVerb(sections[i].verbLines, verb) <==> SomeLists(sections, sections[i].path, verb)
      {
        VerbLinesReadAlike(sections[i].verbLines, verb);
        assert SomeLists(sections, sections[i].path, verb) <==> ListsVerb(sections[i].verbLines, verb);
      }
    }
    ReadersAgreeExactly(lines);
  }

  lemma VerbLinesReadAlike(verbLines: seq<string>, verb: string)
    requires forall k :: 0 <= k < |verbLines| ==> !Misleading(verbLines[k])
    requires verb in HTTP_METHODS
    ensures DocumentsVerb(verbLines, verb) <==> ListsVerb(verbLines, verb)
  {
    forall k | 0 <= k < |verbLines|
      ensures DocumentedKey(verbLines[k]) == verb <==> Key(verbLines[k]) == verb
    {
      LinesReadAlike(verbLines[k]);
    }
  }

  // ------------------------------------------------------------------ where they part

  lemma KeysOfTheExamples()
    ensures Key("/a:") == "/a" && Key("get:") == "get" && Key("get") == "ge"
    ensures DropColons("paths:") == "paths"
  {
    assert "/a:"[..2] == "/a" && "get:"[..3] == "get" && "get"[..2] == "ge";
    assert Strip("/a") == "/a" && Strip("get") == "get" && Strip("ge") == "ge";
    assert "paths:"[..5] == "paths" && DropColons("paths") == "paths";
  }

  const HEAD := [Line(0, "paths:"), Line(2, "/a:")]

  // After the two first lines, both readers are inside `/a`.
  lemma HeadIsRead(more: seq<Line>)
    ensures ParseFrom(HEAD + more, map[], false, None) == ParseFrom(more, map["/a" := {}], true, Some("/a"))
    ensures Sections(HEAD + more, false) == [Section("/a", VerbLines(more))] + Sections(more, true)
  {
    KeysOfTheExamples();
    var all, one := HEAD + more, [HEAD[1]] + more;
    assert all[1..] == one && one[1..] == more && one[0] == HEAD[1] && all[0] == HEAD[0];
    var none: map<string, set<string>> := map[];
    assert ParseFrom(all, none, false, None) == ParseFrom(one, none, true, None);
    assert ParseFrom(one, none, true, None) == ParseFrom(more, none["/a" := {}], true, Some("/a"));
    assert none["/a" := {}] == map["/a" := {}];
    assert Sections(all, false) == Sections(one, true);
  }

  lemma RepeatedIsRead()
    ensures var lines := HEAD + [Line(4, "get:"), Line(2, "/a:")];
      ParseSpecPaths(lines).Found? && Sections(lines, false) == [Section("/a", ["get:"]), Section("/a", [])]
  {
    KeysOfTheExamples();
    var more := [Line(4, "get:"), Line(2, "/a:")];
    var last := more[1..];
    HeadIsRead(more);
    assert last == [Line(2, "/a:")] && last[1..] == [];
    var seen := map["/a" := {}]["/a" := {} + {"get"}];
    assert ParseFrom(more, map["/a" := {}], true, Some("/a")) == ParseFrom(last, seen, true, Some("/a"));
    assert ParseFrom(last, seen, true, Some("/a")) == Found(seen["/a" := {}]);
    assert "/a" in seen["/a" := {}];
    assert VerbLines(last) == [] && VerbLines(more) == ["get:"] + [] == ["get:"];
    assert Sections(more, true) == Sections(last, true) == [Section("/a", [])] + [];
  }

  // One text with a repeated path: `/a:` with `get:`, then `/a:` once more. The last section documents
  // nothing and the first one lists `get`.
  lemma RepeatedPathsDisagree()
    ensures var lines := HEAD + [Line(4, "get:"), Line(2, "/a:")];
      ParseSpecPaths(lines).Found? && NothingMisleads(Sections(lines, false)) && !Agree(lines)
  {
    KeysOfTheExamples();
    RepeatedIsRead();
    var lines := HEAD + [Line(4, "get:"), Line(2, "/a:")];
    var sections := Sections(lines, false);
    assert sections[1].verbLines == [] && IsLast(sections, 1);
    assert sections[0].verbLines[0] == "get:" && ListsVerb(sections[0].verbLines, "get");
    assert sections[0].path == "/a" && SomeLists(sections, "/a", "get");
    assert !DocumentsVerb(sections[1].verbLines, "get") && !Complete(sections, 1);
    ReadersAgreeExactly(lines);
  }

  // One text with a verb line without a colon: `get` is a verb to the parity check, and `ge` to the other.
  lemma MissingColonsDisagree()
    ensures var lines := HEAD + [Line(4, "get")];
      ParseSpecPaths(lines).Found? && Distinct(Sections(lines, false)) && !Agree(lines)
  {
    KeysOfTheExamples();
    var more := [Line(4, "get")];
    var lines := HEAD + more;
    HeadIsRead(more);
    assert more[1..] == [];
    var found := map["/a" := {}]["/a" := {} + {"get"}];
    assert ParseFrom(more, map["/a" := {}], true, Some("/a")) == Found(found);
    assert "/a" in found;
    assert VerbLines(more) == ["get"] + [] == ["get"] && Sections(more, true) == [];
    var sections := Sections(lines, false);
    assert sections == [Section("/a", ["get"])];
    assert sections[0].verbLines == ["get"] && IsLast(sections, 0);
    assert DocumentedKey(sections[0].verbLines[0]) == "get" && Key(sections[0].verbLines[0]) == "ge";
    assert DocumentsVerb(sections[0].verbLines, "get") && !ListsVerb(sections[0].verbLines, "get");
    assert !SomeLists(sections, "/a", "get") && !Complete(sections, 0);
    ReadersAgreeExactly(lines);
  }

  // One text with a repeated path on which they agree all the same: `/a:` with `get:`, twice.
  lemma RepeatedPathsMayAgree()
    ensures var lines := HEAD + [Line(4, "get:"), Line(2, "/a:"), Line(4, "get:")];
      ParseSpecPaths(lines).Found? && !Distinct(Sections(lines, false)) && Agree(lines)
  {
    KeysOfTheExamples();
    var more := [Line(4, "get:"), Line(2, "/a:"), Line(4, "get:")];
    var lines, two, last := HEAD + more, more[1..], more[2..];
    HeadIsRead(more);
    assert two == [Line(2, "/a:"), Line(4, "get:")] && two[1..] == last == [Line(4, "get:")] && last[1..] == [];
    var seen := map["/a" := {}]["/a" := {} + {"get"}];
    var again := seen["/a" := {}];
    assert ParseFrom(more, map["/a" := {}], true, Some("/a")) == ParseFrom(two, seen, true, Some("/a"));
    assert ParseFrom(two, seen, true, Some("/a")) == ParseFrom(last, again, true, Some("/a"));
    assert ParseFrom(last, again, true, Some("/a")) == Found(again["/a" := again["/a"] + {"get"}]);
    assert "/a" in again["/a" := again["/a"] + {"get"}];
    assert VerbLines(two) == [] && VerbLines(more) == ["get:"] + [] == ["get:"];
    assert VerbLines(last) == ["get:"] + [] == ["get:"] && Sections(last, true) == [];
    assert Sections(more, true) == Sections(two, true) == [Section("/a", ["get:"])] + [];
    TwiceTheSameAgrees(Sections(lines, false));
    ReadersAgreeExactly(lines);
  }

  lemma TwiceTheSameAgrees(sections: seq<Section>)
    requires sections == [Section("/a", ["get:"]), Section("/a", ["get:"])]
    ensures !Distinct(sections) && SectionsAgree(sections)
  {
    KeysOfTheExamples();
    assert sections[0].path == sections[1].path;
    assert DocumentedKey("get:") == "get" == Key("get:");
    forall verb
      ensures DocumentsVerb(["get:"], verb) <==> verb == "get"
      ensures SomeLists(sections, "/a", verb) <==> verb == "get"
    {
      assert ["get:"][0] == "get:" && (verb == "get" ==> ListsVerb(["get:"], verb));
      assert sections[0].path == "/a" && sections[0].verbLines == ["get:"];
    }
    assert Complete(sections, 0) && Complete(sections, 1);
  }
}
