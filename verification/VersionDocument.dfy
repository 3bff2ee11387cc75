/** The line reader that finds the contract's version in its document, or refuses the document. */
module VersionDocument {
  import opened Options
  import opened Text
  import opened VersionReader

  // ------------------------------------------------------------------ lines

  predicate IsContent(line: string) {
    Strip(line) != "" && Strip(line)[0] != '#'
  }

  predicate LooksLikeMarker(line: string) {
    StartsWith(line, "---") || StartsWith(line, "...")
  }

  // MARKER_RE
  predicate IsMarker(line: string) {
    LooksLikeMarker(line) && Trailer(line[3..])
  }

  // INFO_HEADER_RE
  predicate IsHeader(line: string) {
    StartsWith(line, "info") &&
    var rest := DropSpaces(line[4..]);
    rest != "" && rest[0] == ':' && Trailer(rest[1..])
  }

  // OPENAPI_VERSION_RE, whose group is what follows.
  predicate IsVersionLine(line: string) {
    StartsWith(line, "  version:")
  }

  function Scalar(line: string): string
    requires IsVersionLine(line)
  {
    line[10..]
  }

  predicate KeyChar(c: char) {
    Word(c) || c == '.' || c == '-'
  }

  predicate KeyEndsAt(line: string, k: nat) {
    && 3 <= k < |line| && line[k] == ':' && (k + 1 == |line| || line[k + 1] == ' ')
    && forall j :: 3 <= j < k ==> KeyChar(line[j])
  }

  // SIBLING_KEY_RE
  predicate IsSiblingKey(line: string) {
    && StartsWith(line, "  ") && |line| > 2 && Word(line[2]) && !Digit(line[2])
    && exists k :: 3 <= k < |line| && KeyEndsAt(line, k)
  }

  // The length of the white space a line starts with.
  function LeadingBlank(line: string, i: nat): (n: nat)
    requires i <= |line|
    ensures i <= n <= |line| && (forall j :: i <= j < n ==> Blank(line[j])) && (n < |line| ==> !Blank(line[n]))
    decreases |line| - i
  {
    if i < |line| && Blank(line[i]) then LeadingBlank(line, i + 1) else i
  }

  // Whether a line may follow the version line without belonging to its value.
  predicate EndsValue(line: string) {
    var pad := LeadingBlank(line, 0);
    (forall j :: 0 <= j < pad ==> line[j] == ' ') && (pad < 2 || (pad == 2 && IsSiblingKey(line)))
  }

  // A line outside the info block, unless it is blank.
  predicate EndsBlock(line: string) {
    Strip(line) != "" && !StartsWith(line, "  ")
  }

  // ------------------------------------------------------------------ what the line patterns take

  lemma MarkersExactly(line: string)
    ensures IsMarker(line) <==> exists tail :: IsTrailer(tail) && (line == "---" + tail || line == "..." + tail)
  {
    if LooksLikeMarker(line) {
      TrailersExactly(line[3..]);
      assert line == line[..3] + line[3..] && (line[..3] == "---" || line[..3] == "...");
    }
    if tail :| IsTrailer(tail) && (line == "---" + tail || line == "..." + tail) {
      assert line[3..] == tail;
      TrailersExactly(tail);
    }
  }

  predicate IsInfo(line: string, pad: string, tail: string) {
    Padding(pad) && IsTrailer(tail) && line == "info" + (pad + (":" + tail))
  }

  lemma HeadersExactly(line: string)
    ensures IsHeader(line) <==> exists pad, tail :: IsInfo(line, pad, tail)
  {
    if IsHeader(line) {
      var rest := DropSpaces(line[4..]);
      var pad := DropSpacesCuts(line[4..]);
      TrailersExactly(rest[1..]);
      assert line == line[..4] + line[4..] && line[..4] == "info" && rest == ":" + rest[1..];
      assert IsInfo(line, pad, rest[1..]);
    }
    if pad, tail :| IsInfo(line, pad, tail) {
      assert line[..4] == "info" && line[4..] == pad + (":" + tail);
      DropSpacesOf(pad, ":" + tail);
      assert (":" + tail)[1..] == tail;
      TrailersExactly(tail);
    }
  }

  lemma VersionLinesExactly(line: string, scalar: string)
    ensures IsVersionLine(line) && Scalar(line) == scalar <==> line == "  version:" + scalar
  {
    assert IsVersionLine(line) ==> line == line[..10] + line[10..] && line[..10] == "  version:";
    assert line == "  version:" + scalar ==> line[..10] == "  version:" && line[10..] == scalar;
  }

  // A line is content whose first character other than white space is no number sign.
  lemma ContentExactly(line: string)
    ensures IsContent(line) <==> exists k :: 0 <= k < |line| && !Blank(line[k]) && line[k] != '#' && AllBlank(line[..k])
  {
    var k := StripsToFirst(line);
    if k < |line| {
      assert forall i :: 0 <= i < k ==> line[..k][i] == line[i];
      forall i | 0 <= i < |line| && !Blank(line[i]) && AllBlank(line[..i])
        ensures Strip(line)[0] == line[i]
      {
        StripLeftDrops(line[..i], line[i..]);
        StripLeftDrops(line[..k], line[k..]);
        assert line == line[..i] + line[i..] && line == line[..k] + line[k..];
        assert |line[i..]| == |line[k..]|;
      }
    }
  }

  // The first character that is not white space is the first of the stripped line.
  lemma StripsToFirst(line: string) returns (k: nat)
    ensures k <= |line| && AllBlank(line[..k])
    ensures Strip(line) == "" <==> k == |line|
    ensures k < |line| ==> !Blank(line[k]) && Strip(line)[0] == line[k]
  {
    var lead := StripLeftSplits(line);
    k := |lead|;
    assert line[..k] == lead && line[k..] == StripLeft(line);
    if k < |line| {
      FirstStays(line[k..]);
    }
  }

  lemma BlockEndsExactly(line: string)
    ensures EndsBlock(line) <==> !AllBlank(line) && !(|line| > 1 && line[0] == ' ' && line[1] == ' ')
  {
    var k := StripsToFirst(line);
    assert k == |line| ==> line[..k] == line;
    assert StartsWith(line, "  ") <==> |line| > 1 && line[0] == ' ' && line[1] == ' ' by {
      assert |line| > 1 ==> line[..2] == [line[0], line[1]];
    }
  }

  // A word without a leading digit that may hold dots and dashes.
  predicate IsKey(key: string) {
    && key != "" && Word(key[0]) && !('0' <= key[0] <= '9')
    && forall i :: 0 <= i < |key| ==> Word(key[i]) || key[i] == '.' || key[i] == '-'
  }

  predicate IsEntry(line: string, key: string, rest: string) {
    IsKey(key) && (rest == "" || rest[0] == ' ') && line == "  " + (key + (":" + rest))
  }

  lemma SiblingsExactly(line: string)
    ensures IsSiblingKey(line) <==> exists key, rest :: IsEntry(line, key, rest)
  {
    if IsSiblingKey(line) {
      var k :| 3 <= k < |line| && KeyEndsAt(line, k);
      var key, rest := line[2..k], line[k + 1..];
      assert line[..2] == "  " && line == line[..2] + (key + ([line[k]] + rest));
      assert forall i :: 0 < i < |key| ==> key[i] == line[i + 2];
      assert IsEntry(line, key, rest);
    }
    if key, rest :| IsEntry(line, key, rest) {
      var k := 2 + |key|;
      assert line[..2] == "  " && forall i :: 0 <= i < |key| ==> line[i + 2] == key[i];
      assert line[k] == ':' && line[k + 1..] == rest;
      assert rest != "" ==> line[k + 1] == rest[0];
      assert KeyEndsAt(line, k);
    }
  }

  predicate IsIndented(line: string, pad: string, rest: string) {
    AllBlank(pad) && (rest == "" || !Blank(rest[0])) && line == pad + rest
  }

  // A line ends the value above it exactly when it is indented by spaces alone, and by none, one, or two with
  // a key behind them.
  lemma ValuesEndExactly(line: string, pad: string, rest: string)
    requires IsIndented(line, pad, rest)
    ensures EndsValue(line) <==> Padding(pad) && (|pad| < 2 || (|pad| == 2 && IsSiblingKey(line)))
  {
    var n := LeadingBlank(line, 0);
    assert forall i :: 0 <= i < |pad| ==> line[i] == pad[i];
    assert |pad| < |line| ==> line[|pad|] == rest[0];
    assert n == |pad|;
  }

  // ------------------------------------------------------------------ the reader

  predicate HasContent(lines: seq<string>) {
    exists j :: 0 <= j < |lines| && IsContent(lines[j])
  }

  predicate HasGluedMarker(lines: seq<string>) {
    exists i :: 0 <= i < |lines| && LooksLikeMarker(lines[i]) && !IsMarker(lines[i])
  }

  // Whether some marker of the remaining lines separates content; `above` says that content precedes them.
  predicate IsSplit(lines: seq<string>, above: bool) {
    lines != [] &&
    (|| (StartsWith(lines[0], "---") && above)
     || (StartsWith(lines[0], "...") && HasContent(lines[1..]))
     || IsSplit(lines[1..], above || IsContent(lines[0])))
  }

  // What follows each header.
  function Blocks(lines: seq<string>): seq<seq<string>> {
    if lines == [] then []
    else if IsHeader(lines[0]) then [lines[1..]] + Blocks(lines[1..])
    else Blocks(lines[1..])
  }

  function NextContent(lines: seq<string>): Option<string> {
    if lines == [] then None else if IsContent(lines[0]) then Some(lines[0]) else NextContent(lines[1..])
  }

  predicate Closes(rest: seq<string>) {
    NextContent(rest).Some? ==> EndsValue(NextContent(rest).value)
  }

  // The version scalars of the block at the start of the lines; None once one of them runs on.
  function Scalars(lines: seq<string>): Option<seq<string>> {
    if lines == [] || EndsBlock(lines[0]) then Some([])
    else if !IsVersionLine(lines[0]) then Scalars(lines[1..])
    else if !Closes(lines[1..]) then None
    else Behind([Scalar(lines[0])], Scalars(lines[1..]))
  }

  function BlockVersion(lines: seq<string>): Reading {
    match Scalars(lines)
    case None => SyncError
    case Some(found) => if |found| == 1 then SemverScalar(found[0]) else SyncError
  }

  function InfoVersion(lines: seq<string>): Reading {
    if HasGluedMarker(lines) || IsSplit(lines, false) || |Blocks(lines)| != 1 then SyncError
    else BlockVersion(Blocks(lines)[0])
  }

  // _next_content: the position of the first content line from `start` on, or -1.
  method FindContent(lines: seq<string>, start: nat) returns (k: int)
    requires start <= |lines|
    ensures k == -1 ==> NextContent(lines[start..]) == None
    ensures k != -1 ==> start <= k < |lines| && NextContent(lines[start..]) == Some(lines[k])
  {
    for i := start to |lines|
      invariant NextContent(lines[start..]) == NextContent(lines[i..])
    {
      assert lines[i..][1..] == lines[i + 1..];
      if IsContent(lines[i]) {
        return i;
      }
    }
    return -1;
  }

  function Behind(seen: seq<string>, found: Option<seq<string>>): Option<seq<string>> {
    match found
    case None => None
    case Some(more) => Some(seen + more)
  }

  lemma BehindOneMore(seen: seq<string>, scalar: string, found: Option<seq<string>>)
    ensures Behind([], found) == found
    ensures Behind(seen, Behind([scalar], found)) == Behind(seen + [scalar], found)
  {
    if found.Some? {
      assert [] + found.value == found.value;
      assert seen + ([scalar] + found.value) == (seen + [scalar]) + found.value;
    }
  }

  // The block scan; `start` is the line after the header.
  method ScanBlock(lines: seq<string>, start: nat) returns (found: Option<seq<string>>)
    requires start <= |lines|
    ensures found == Scalars(lines[start..])
  {
    var scalars := [];
    BehindOneMore([], "", Scalars(lines[start..]));
    for i := start to |lines|
      invariant Scalars(lines[start..]) == Behind(scalars, Scalars(lines[i..]))
    {
      assert lines[i..][0] == lines[i] && lines[i..][1..] == lines[i + 1..];
      var line := lines[i];
      if EndsBlock(line) {
        assert scalars + [] == scalars;
        return Some(scalars);
      }
      if !IsVersionLine(line) {
        continue;
      }
      var next := FindContent(lines, i + 1);
      if next >= 0 && !EndsValue(lines[next]) {
        return None;
      }
      BehindOneMore(scalars, Scalar(line), Scalars(lines[i + 1..]));
      scalars := scalars + [Scalar(line)];
    }
    assert scalars + [] == scalars;
    return Some(scalars);
  }

  method ContentLines(lines: seq<string>) returns (content: seq<nat>)
    ensures forall j :: j in content <==> 0 <= j < |lines| && IsContent(lines[j])
  {
    content := [];
    for i := 0 to |lines|
      invariant forall j :: j in content <==> 0 <= j < i && IsContent(lines[j])
    {
      if IsContent(lines[i]) {
        content := content + [i];
      }
    }
  }

  // The list of content lines answers both questions the marker scan asks of it.
  lemma ContentAround(lines: seq<string>, content: seq<nat>, i: nat)
    requires i < |lines| && forall j :: j in content <==> 0 <= j < |lines| && IsContent(lines[j])
    ensures HasContent(lines[..i]) <==> exists j :: j in content && j < i
    ensures HasContent(lines[i + 1..]) <==> exists j :: j in content && j > i
  {
    var above, below := lines[..i], lines[i + 1..];
    if HasContent(above) {
      var j :| 0 <= j < |above| && IsContent(above[j]);
      assert j in content;
    }
    if j :| j in content && j < i {
      assert IsContent(above[j]);
    }
    if HasContent(below) {
      var j :| 0 <= j < |below| && IsContent(below[j]);
      assert i + 1 + j in content;
    }
    if j :| j in content && j > i {
      assert IsContent(below[j - i - 1]);
    }
  }

  lemma ContentSoFar(lines: seq<string>, i: nat)
    requires i < |lines|
    ensures HasContent(lines[..i + 1]) <==> HasContent(lines[..i]) || IsContent(lines[i])
  {
    assert lines[..i + 1] == lines[..i] + [lines[i]];
    assert lines[..i + 1][i] == lines[i];
    assert forall j :: 0 <= j < i ==> lines[..i][j] == lines[..i + 1][j];
  }

  // What is left of the question at line i.
  predicate IsSplitFrom(lines: seq<string>, i: nat)
    requires i <= |lines|
  {
    IsSplit(lines[i..], HasContent(lines[..i]))
  }

  predicate SplitsAt(lines: seq<string>, n: nat)
    requires n < |lines|
  {
    || (StartsWith(lines[n], "---") && HasContent(lines[..n]))
    || (StartsWith(lines[n], "...") && HasContent(lines[n + 1..]))
  }

  lemma SplitTurn(lines: seq<string>, i: nat)
    requires i < |lines|
    ensures IsSplitFrom(lines, i) <==> SplitsAt(lines, i) || IsSplitFrom(lines, i + 1)
  {
    assert lines[i..][0] == lines[i] && lines[i..][1..] == lines[i + 1..];
    ContentSoFar(lines, i);
  }

  // The first two scans: a glued marker refuses the document at once, a separating one after the scan.
  method ScanMarkers(lines: seq<string>) returns (refused: bool)
    ensures refused == (HasGluedMarker(lines) || IsSplit(lines, false))
  {
    var content := ContentLines(lines);
    var splits := [];
    assert lines[0..] == lines && lines[..0] == [];
    for i := 0 to |lines|
      invariant forall j :: 0 <= j < i && LooksLikeMarker(lines[j]) ==> IsMarker(lines[j])
      invariant IsSplitFrom(lines, 0) <==> splits != [] || IsSplitFrom(lines, i)
    {
      SplitTurn(lines, i);
      var line := lines[i];
      if !LooksLikeMarker(line) {
        continue;
      }
      if !IsMarker(line) {
        return true;
      }
      ContentAround(lines, content, i);
      if (StartsWith(line, "---") && exists j :: j in content && j < i)
         || (StartsWith(line, "...") && exists j :: j in content && j > i) {
        splits := splits + [i];
      }
    }
    return splits != [];
  }

  method FindHeaders(lines: seq<string>) returns (starts: seq<nat>)
    ensures |Blocks(lines)| == |starts| && forall k :: 0 <= k < |starts| ==> starts[k] < |lines|
    ensures starts != [] ==> Blocks(lines)[0] == lines[starts[0] + 1..]
  {
    starts := [];
    assert lines[0..] == lines;
    for i := 0 to |lines|
      invariant forall k :: 0 <= k < |starts| ==> starts[k] < i
      invariant |Blocks(lines)| == |starts| + |Blocks(lines[i..])|
      invariant starts == [] ==> Blocks(lines) == Blocks(lines[i..])
      invariant starts != [] ==> Blocks(lines)[0] == lines[starts[0] + 1..]
    {
      assert lines[i..][0] == lines[i] && lines[i..][1..] == lines[i + 1..];
      if IsHeader(lines[i]) {
        starts := starts + [i];
      }
    }
  }

  method ReadInfoVersion(lines: seq<string>) returns (r: Reading)
    ensures r == InfoVersion(lines)
  {
    var refused := ScanMarkers(lines);
    if refused {
      return SyncError;
    }
    var starts := FindHeaders(lines);
    if |starts| != 1 {
      return SyncError;
    }
    var found := ScanBlock(lines, starts[0] + 1);
    if found == None || |found.value| != 1 {
      return SyncError;
    }
    return SemverScalar(found.value[0]);
  }

  // ------------------------------------------------------------------ lines that say nothing

  // A blank line, or a comment indented by two spaces or more.
  predicate IsNoise(line: string) {
    Strip(line) == "" || (Strip(line)[0] == '#' && StartsWith(line, "  "))
  }

  function Tidy(lines: seq<string>): seq<string> {
    if lines == [] then [] else if IsNoise(lines[0]) then Tidy(lines[1..]) else [lines[0]] + Tidy(lines[1..])
  }

  lemma {:induction false} TidyAppends(a: seq<string>, b: seq<string>)
    ensures Tidy(a + b) == Tidy(a) + Tidy(b)
  {
    if a == [] {
      assert a + b == b;
    } else {
      assert (a + b)[1..] == a[1..] + b;
      TidyAppends(a[1..], b);
    }
  }

  lemma {:induction false} NotStripped(line: string)
    requires line != "" && !Blank(line[0])
    ensures Strip(line) != "" && Strip(line)[0] == line[0]
  {
    FirstStays(line);
  }

  lemma {:induction false} FirstStays(s: string)
    requires s != "" && !Blank(s[0])
    ensures StripRight(s) != "" && StripRight(s)[0] == s[0]
    decreases |s|
  {
    if Blank(s[|s| - 1]) {
      FirstStays(s[..|s| - 1]);
    }
  }

  lemma VersionLinesStrip(line: string)
    requires IsVersionLine(line)
    ensures Strip(line) != "" && Strip(line)[0] == 'v'
  {
    assert line[0] == ' ' && line[1] == ' ' && line[2] == 'v' by {
      assert forall i :: 0 <= i < 10 ==> line[i] == "  version:"[i];
    }
    assert StripLeft(line) == StripLeft(line[1..]) == StripLeft(line[2..]) == line[2..];
    FirstStays(line[2..]);
  }

  // To no scan is such a line anything.
  lemma NoiseIsNothing(line: string)
    requires IsNoise(line)
    ensures !IsContent(line) && !LooksLikeMarker(line) && !IsHeader(line) && !IsVersionLine(line) && !EndsBlock(line)
  {
    if LooksLikeMarker(line) {
      assert line[0] == "---"[0] || line[0] == "..."[0];
      NotStripped(line);
    }
    if IsHeader(line) {
      assert line[0] == "info"[0];
      NotStripped(line);
    }
    if IsVersionLine(line) {
      VersionLinesStrip(line);
    }
  }

  lemma {:induction false} TidyKeepsContent(lines: seq<string>)
    ensures HasContent(Tidy(lines)) <==> HasContent(lines)
    ensures HasGluedMarker(Tidy(lines)) <==> HasGluedMarker(lines)
    ensures NextContent(Tidy(lines)) == NextContent(lines)
  {
    if lines != [] {
      var first, rest := lines[0], lines[1..];
      TidyKeepsContent(rest);
      assert lines == [first] + rest;
      assert forall j :: 0 <= j < |rest| ==> lines[j + 1] == rest[j];
      if IsNoise(first) {
        NoiseIsNothing(first);
      } else {
        assert forall j :: 0 <= j < |Tidy(rest)| ==> Tidy(lines)[j + 1] == Tidy(rest)[j];
        assert Tidy(lines)[1..] == Tidy(rest);
      }
    }
  }

  lemma {:induction false} TidyKeepsSplits(lines: seq<string>, above: bool)
    ensures IsSplit(Tidy(lines), above) <==> IsSplit(lines, above)
    decreases |lines|
  {
    if lines != [] {
      var first, rest := lines[0], lines[1..];
      TidyKeepsSplits(rest, above || IsContent(first));
      TidyKeepsContent(rest);
      if IsNoise(first) {
        NoiseIsNothing(first);
      } else {
        assert Tidy(lines)[1..] == Tidy(rest);
      }
    }
  }

  lemma {:induction false} TidyKeepsBlocks(lines: seq<string>)
    ensures |Blocks(Tidy(lines))| == |Blocks(lines)|
    ensures Blocks(lines) != [] ==> Blocks(Tidy(lines))[0] == Tidy(Blocks(lines)[0])
  {
    if lines != [] {
      TidyKeepsBlocks(lines[1..]);
      if IsNoise(lines[0]) {
        NoiseIsNothing(lines[0]);
      } else {
        assert Tidy(lines)[1..] == Tidy(lines[1..]);
      }
    }
  }

  lemma {:induction false} TidyKeepsScalars(lines: seq<string>)
    ensures Scalars(Tidy(lines)) == Scalars(lines)
  {
    if lines != [] {
      TidyKeepsScalars(lines[1..]);
      TidyKeepsContent(lines[1..]);
      if IsNoise(lines[0]) {
        NoiseIsNothing(lines[0]);
      } else {
        assert Tidy(lines)[1..] == Tidy(lines[1..]);
      }
    }
  }

  // The outcome depends only on the lines that are neither blank nor indented comments.
  lemma OutcomeIsTidy(lines: seq<string>)
    ensures InfoVersion(Tidy(lines)) == InfoVersion(lines)
  {
    TidyKeepsContent(lines);
    TidyKeepsSplits(lines, false);
    TidyKeepsBlocks(lines);
    if Blocks(lines) != [] {
      TidyKeepsScalars(Blocks(lines)[0]);
    }
  }

  // Inserting a blank line, or a comment indented by two spaces or more, changes nothing, wherever it goes.
  lemma NoiseChangesNothing(above: seq<string>, line: string, below: seq<string>)
    requires IsNoise(line)
    ensures InfoVersion(above + [line] + below) == InfoVersion(above + below)
  {
    TidyAppends(above + [line], below);
    TidyAppends(above, [line]);
    TidyAppends(above, below);
    assert Tidy([line]) == [];
    assert Tidy(above) + [] == Tidy(above);
    OutcomeIsTidy(above + [line] + below);
    OutcomeIsTidy(above + below);
  }

  // ------------------------------------------------------------------ the accepted documents

  // No marker is misspelt, none that opens a document has content above it, none that closes one has
  // content below it.
  predicate OneDocument(lines: seq<string>) {
    forall i :: 0 <= i < |lines| && LooksLikeMarker(lines[i]) ==>
      && IsMarker(lines[i])
      && (StartsWith(lines[i], "---") ==> !HasContent(lines[..i]))
      && (StartsWith(lines[i], "...") ==> !HasContent(lines[i + 1..]))
  }

  // The lines from i to j all belong to the block.
  predicate InRun(lines: seq<string>, i: nat, j: nat) {
    i <= j < |lines| && forall m :: i <= m <= j ==> !EndsBlock(lines[m])
  }

  // Line h is the only header from i on.
  predicate OnlyHeader(lines: seq<string>, i: nat, h: nat) {
    i <= h < |lines| && forall n :: i <= n < |lines| ==> (IsHeader(lines[n]) <==> n == h)
  }

  // Line k is the only version line of the block that goes on at line i.
  ghost predicate OnlyVersion(lines: seq<string>, i: nat, k: nat) {
    && InRun(lines, i, k)
    && forall j: nat :: InRun(lines, i, j) ==> (IsVersionLine(lines[j]) <==> j == k)
  }

  // Line n is the first content line from i on.
  predicate FirstContent(lines: seq<string>, i: nat, n: nat) {
    i <= n < |lines| && IsContent(lines[n]) && forall j :: i <= j < n ==> !IsContent(lines[j])
  }

  // The first content line from `start` on, if there is one, is no part of the value above it.
  ghost predicate ClosedFrom(lines: seq<string>, start: nat) {
    forall n: nat :: FirstContent(lines, start, n) ==> EndsValue(lines[n])
  }

  ghost predicate ClosedAt(lines: seq<string>, k: nat) {
    ClosedFrom(lines, k + 1)
  }

  lemma {:induction false} SplitsSomewhere(lines: seq<string>, i: nat)
    requires i <= |lines|
    ensures IsSplitFrom(lines, i) <==> exists n :: i <= n < |lines| && SplitsAt(lines, n)
    decreases |lines| - i
  {
    if i < |lines| {
      SplitTurn(lines, i);
      SplitsSomewhere(lines, i + 1);
    }
  }

  lemma MarkersAreOneDocument(lines: seq<string>)
    ensures !HasGluedMarker(lines) && !IsSplit(lines, false) <==> OneDocument(lines)
  {
    SplitsSomewhere(lines, 0);
    assert lines[0..] == lines && lines[..0] == [];
    if !HasGluedMarker(lines) && !IsSplit(lines, false) {
      forall i | 0 <= i < |lines| && LooksLikeMarker(lines[i])
        ensures IsMarker(lines[i]) && !SplitsAt(lines, i)
      {
      }
    }
    if OneDocument(lines) {
      assert forall i :: 0 <= i < |lines| && SplitsAt(lines, i) ==> LooksLikeMarker(lines[i]);
    }
  }

  lemma {:induction false} BlocksFrom(lines: seq<string>, i: nat)
    requires i <= |lines|
    ensures Blocks(lines[i..]) == [] <==> forall n :: i <= n < |lines| ==> !IsHeader(lines[n])
    ensures |Blocks(lines[i..])| == 1 <==> exists h: nat :: OnlyHeader(lines, i, h)
    ensures forall h: nat :: OnlyHeader(lines, i, h) ==>
      |Blocks(lines[i..])| == 1 && Blocks(lines[i..])[0] == lines[h + 1..]
    decreases |lines| - i
  {
    if i < |lines| {
      assert lines[i..][0] == lines[i] && lines[i..][1..] == lines[i + 1..];
      var next := i + 1;
      BlocksFrom(lines, next);
      if IsHeader(lines[i]) {
        assert forall h: nat :: OnlyHeader(lines, i, h) ==> h == i;
        assert Blocks(lines[i + 1..]) == [] ==> OnlyHeader(lines, i, i);
      } else {
        forall h: nat
          ensures OnlyHeader(lines, i, h) <==> OnlyHeader(lines, i + 1, h)
        {
        }
        if h: nat :| OnlyHeader(lines, next, h) {
          assert OnlyHeader(lines, i, h);
        }
      }
    }
  }

  lemma {:induction false} NextContentFrom(lines: seq<string>, i: nat)
    requires i <= |lines|
    ensures forall n: nat :: FirstContent(lines, i, n) ==> NextContent(lines[i..]) == Some(lines[n])
    ensures NextContent(lines[i..]).Some? ==> exists n: nat :: FirstContent(lines, i, n)
    decreases |lines| - i
  {
    if i < |lines| {
      var next := i + 1;
      assert lines[i..][0] == lines[i] && lines[i..][1..] == lines[next..];
      NextContentFrom(lines, next);
      if IsContent(lines[i]) {
        assert FirstContent(lines, i, i);
        assert forall n: nat :: FirstContent(lines, i, n) ==> n == i;
      } else {
        forall n: nat
          ensures FirstContent(lines, i, n) <==> FirstContent(lines, next, n)
        {
        }
        if n: nat :| FirstContent(lines, next, n) {
          assert FirstContent(lines, i, n);
        }
      }
    }
  }

  lemma ClosesAt(lines: seq<string>, k: nat)
    requires k < |lines|
    ensures Closes(lines[k + 1..]) <==> ClosedAt(lines, k)
  {
    var start := k + 1;
    NextContentFrom(lines, start);
    if NextContent(lines[start..]).Some? {
      var n: nat :| FirstContent(lines, start, n);
      assert ClosedFrom(lines, start) ==> EndsValue(lines[n]);
    }
  }

  lemma RunsOn(lines: seq<string>, i: nat)
    requires i < |lines| && !EndsBlock(lines[i])
    ensures forall j: nat :: InRun(lines, i, j) <==> j == i || InRun(lines, i + 1, j)
  {
  }

  lemma {:induction false} NoScalars(lines: seq<string>, i: nat)
    requires i <= |lines|
    ensures Scalars(lines[i..]) == Some([]) <==> forall j: nat :: InRun(lines, i, j) ==> !IsVersionLine(lines[j])
    decreases |lines| - i
  {
    if i < |lines| {
      assert lines[i..][0] == lines[i] && lines[i..][1..] == lines[i + 1..];
      if !EndsBlock(lines[i]) {
        RunsOn(lines, i);
        NoScalars(lines, i + 1);
      }
    }
  }

  // Past a line of the block that is no version line, the only version line is the same.
  lemma OnlyVersionRunsOn(lines: seq<string>, i: nat, k: nat)
    requires i < |lines| && !EndsBlock(lines[i]) && !IsVersionLine(lines[i])
    ensures OnlyVersion(lines, i, k) <==> OnlyVersion(lines, i + 1, k)
  {
    RunsOn(lines, i);
    assert InRun(lines, i, i);
  }

  lemma OnlyVersionHere(lines: seq<string>, i: nat, k: nat)
    requires i < |lines| && !EndsBlock(lines[i]) && IsVersionLine(lines[i])
    ensures OnlyVersion(lines, i, k) <==> k == i && Scalars(lines[i + 1..]) == Some([])
  {
    RunsOn(lines, i);
    NoScalars(lines, i + 1);
    assert InRun(lines, i, i);
  }

  ghost predicate TheScalar(lines: seq<string>, i: nat, k: nat, scalar: string) {
    OnlyVersion(lines, i, k) && ClosedAt(lines, k) && Scalar(lines[k]) == scalar
  }

  lemma {:induction false} OneScalar(lines: seq<string>, i: nat, scalar: string)
    requires i <= |lines|
    ensures Scalars(lines[i..]) == Some([scalar]) <==> exists k: nat :: TheScalar(lines, i, k, scalar)
    decreases |lines| - i
  {
    if i < |lines| {
      var next := i + 1;
      assert lines[i..][0] == lines[i] && lines[i..][1..] == lines[next..];
      if !EndsBlock(lines[i]) {
        if IsVersionLine(lines[i]) {
          ClosesAt(lines, i);
          forall k: nat
            ensures OnlyVersion(lines, i, k) <==> k == i && Scalars(lines[next..]) == Some([])
          {
            OnlyVersionHere(lines, i, k);
          }
          assert [Scalar(lines[i])] + [] == [Scalar(lines[i])];
          if Scalars(lines[i..]) == Some([scalar]) {
            assert Scalars(lines[next..]).Some? && [scalar] == [Scalar(lines[i])] + Scalars(lines[next..]).value;
            assert Scalars(lines[next..]).value == [];
            assert [scalar][0] == scalar;
          }
          assert TheScalar(lines, i, i, scalar) <==> Scalars(lines[i..]) == Some([scalar]);
        } else {
          OneScalar(lines, next, scalar);
          forall k: nat
            ensures TheScalar(lines, i, k, scalar) <==> TheScalar(lines, next, k, scalar)
          {
            OnlyVersionRunsOn(lines, i, k);
          }
          if k: nat :| TheScalar(lines, next, k, scalar) {
            assert TheScalar(lines, i, k, scalar);
          }
        }
      }
    }
  }

  // From line `start` on, the block holds one version line, k, complete on that line, which writes v.
  ghost predicate BlockStates(lines: seq<string>, start: nat, k: nat, v: string) {
    OnlyVersion(lines, start, k) && ClosedAt(lines, k) && Written(Scalar(lines[k]), v)
  }

  lemma BlockExactly(lines: seq<string>, start: nat, v: string)
    requires start <= |lines|
    ensures BlockVersion(lines[start..]) == Version(v) <==> exists k: nat :: BlockStates(lines, start, k, v)
  {
    var found := Scalars(lines[start..]);
    if BlockVersion(lines[start..]) == Version(v) {
      assert found.Some? && |found.value| == 1;
      assert found.value == [found.value[0]];
      ScalarLanguage(found.value[0], v);
      OneScalar(lines, start, found.value[0]);
      var k: nat :| TheScalar(lines, start, k, found.value[0]);
      assert BlockStates(lines, start, k, v);
    }
    if k: nat :| BlockStates(lines, start, k, v) {
      assert TheScalar(lines, start, k, Scalar(lines[k]));
      OneScalar(lines, start, Scalar(lines[k]));
      ScalarLanguage(Scalar(lines[k]), v);
    }
  }

  // One header h, and one version line in its block, that writes v.
  ghost predicate States(lines: seq<string>, h: nat, v: string) {
    OnlyHeader(lines, 0, h) && var start: nat := h + 1; exists k: nat :: BlockStates(lines, start, k, v)
  }

  lemma AcceptedUnderHeader(lines: seq<string>, h: nat, v: string)
    requires OnlyHeader(lines, 0, h)
    ensures InfoVersion(lines) == Version(v) <==> OneDocument(lines) && States(lines, h, v)
  {
    MarkersAreOneDocument(lines);
    BlocksFrom(lines, 0);
    assert lines[0..] == lines;
    var start := h + 1;
    BlockExactly(lines, start, v);
  }

  // The reader returns v exactly for the documents that are one document with one info header, in whose
  // block there is one version line, complete on that line, that writes v.
  lemma AcceptedExactly(lines: seq<string>, v: string)
    ensures InfoVersion(lines) == Version(v) <==> OneDocument(lines) && exists h: nat :: States(lines, h, v)
  {
    if h: nat :| OnlyHeader(lines, 0, h) {
      AcceptedUnderHeader(lines, h, v);
      forall g: nat | States(lines, g, v)
        ensures g == h
      {
        assert IsHeader(lines[g]);
      }
    } else {
      BlocksFrom(lines, 0);
      assert lines[0..] == lines;
    }
  }
}
