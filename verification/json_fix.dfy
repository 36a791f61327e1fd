/**
 The JSON repair heuristics of `fix_json_file`: given a file's text and the
 line, column and message of the first decoding error, try a fixed series of
 line-based edits and keep the result only if it decodes.

 The text is split into lines on `\n`. Then, in this order:
   1. duplicate `}`: delete the error line when it is a lone `}` between a
      line ending in `}` and a line starting with `]`;
   2. duplicate `{`: delete the error line when it is a lone `{` after a line
      ending in `{`;
   3. placeholders: rewrite every `[...` followed by optional whitespace and
      `]` to `[]` (this works on the joined text and can merge lines);
   4. missing comma: insert `,` after the last `}` at or before column
      `errorCol - 1` (index `errorCol - 2`) on the error line.
 Reading and writing the file are modelled by the text going in and the
 optional text written; the JSON decoder is the parameter `valid`.
 */
module JsonFix {
  import opened Text
  import opened Wrappers

  /** What `fix_json_file` reports, one entry per message of its list. */
  datatype Note =
    | RemovedClosingBrace(line: int)
    | RemovedOpeningBrace(line: int)
    | ReplacedPlaceholder
    | AddedComma(line: int, col: int)
    | StillInvalid
    | NoFix

  /** The returned pair, plus the text written back to the file, if any. */
  datatype FixResult = FixResult(fixed: bool, notes: seq<Note>, written: Option<string>)

  /** The lines being edited and the fixes applied so far. */
  datatype Edit = Edit(lines: seq<string>, notes: seq<Note>)

  const DelimiterMessage := "Expecting ',' delimiter"
  const PropertyNameMessage := "Expecting property name"

  /** Python's `del lines[i]`: the line at i is gone and the later lines move
      up by one. */
  function DeleteLine(lines: seq<string>, i: nat): (r: seq<string>)
    requires i < |lines|
    ensures |r| == |lines| - 1
    ensures forall k :: 0 <= k < i ==> r[k] == lines[k]
    ensures forall k :: i <= k < |r| ==> r[k] == lines[k + 1]
  {
    lines[..i] + lines[i + 1..]
  }

  // ---------------------------------------------------------------------
  // Rule 1: duplicate closing brace
  // ---------------------------------------------------------------------

  /** When the duplicate-`}` rule deletes line `errorLine`: the message is the
      missing-delimiter one, that line stripped is `}`, the line before it
      stripped ends in `}`, and the line after it stripped starts with `]`. */
  predicate ClosingBraceApplies(lines: seq<string>, errorLine: int, msg: string)
    requires errorLine >= 0
  {
    var i := errorLine - 1;
    && Contains(msg, DelimiterMessage)
    && 0 < i < |lines|
    && Trim(lines[i]) == "}"
    && (EndsWith(Trim(lines[i - 1]), "}") || Trim(lines[i - 1]) == "}")
    && i + 1 < |lines|
    && StartsWith(Trim(lines[i + 1]), "]")
  }

  /** Rule 1. When it applies, exactly line `errorLine` is deleted, the text
      loses that line and one line break, and one note is added; otherwise
      nothing changes. */
  function FixClosingBrace(e: Edit, errorLine: int, msg: string): (r: Edit)
    requires errorLine >= 0
    ensures ClosingBraceApplies(e.lines, errorLine, msg) ==>
      && r.lines == DeleteLine(e.lines, errorLine - 1)
      && |Join(r.lines, '\n')| + |e.lines[errorLine - 1]| + 1 == |Join(e.lines, '\n')|
      && r.notes == e.notes + [RemovedClosingBrace(errorLine)]
    ensures !ClosingBraceApplies(e.lines, errorLine, msg) ==> r == e
  {
    if ClosingBraceApplies(e.lines, errorLine, msg) then
      JoinRemoveLength(e.lines, errorLine - 1, '\n');
      Edit(DeleteLine(e.lines, errorLine - 1), e.notes + [RemovedClosingBrace(errorLine)])
    else e
  }

  // ---------------------------------------------------------------------
  // Rule 2: duplicate opening brace
  // ---------------------------------------------------------------------

  /** When the duplicate-`{` rule deletes line `errorLine`: the message is the
      missing-property-name one, that line stripped is `{`, and there is a
      line before it that stripped ends in `{`. */
  predicate OpeningBraceApplies(lines: seq<string>, errorLine: int, msg: string)
    requires errorLine >= 0
  {
    var i := errorLine - 1;
    && Contains(msg, PropertyNameMessage)
    && 0 < i < |lines|
    && Trim(lines[i]) == "{"
    && (EndsWith(Trim(lines[i - 1]), "{") || Trim(lines[i - 1]) == "{")
  }

  /** Rule 2. When it applies, exactly line `errorLine` is deleted, the text
      loses that line and one line break, and one note is added; otherwise
      nothing changes. */
  function FixOpeningBrace(e: Edit, errorLine: int, msg: string): (r: Edit)
    requires errorLine >= 0
    ensures OpeningBraceApplies(e.lines, errorLine, msg) ==>
      && r.lines == DeleteLine(e.lines, errorLine - 1)
      && |Join(r.lines, '\n')| + |e.lines[errorLine - 1]| + 1 == |Join(e.lines, '\n')|
      && r.notes == e.notes + [RemovedOpeningBrace(errorLine)]
    ensures !OpeningBraceApplies(e.lines, errorLine, msg) ==> r == e
  {
    if OpeningBraceApplies(e.lines, errorLine, msg) then
      JoinRemoveLength(e.lines, errorLine - 1, '\n');
      Edit(DeleteLine(e.lines, errorLine - 1), e.notes + [RemovedOpeningBrace(errorLine)])
    else e
  }

  // ---------------------------------------------------------------------
  // Rule 3: array placeholders
  // ---------------------------------------------------------------------

  /** `s` starts with a match of length n of the pattern `\[\.\.\.\s*\]`. */
  predicate PlaceholderShape(s: string, n: int) {
    && 5 <= n <= |s|
    && s[..4] == "[..."
    && s[n - 1] == ']'
    && forall k :: 4 <= k < n - 1 ==> IsWhitespace(s[k])
  }

  /** The length of the pattern's match at the start of `s`, or 0 when the
      pattern does not match there. */
  function PlaceholderAt(s: string): (n: nat)
    ensures n > 0 ==> PlaceholderShape(s, n)
  {
    if |s| >= 4 && s[..4] == "[..." then
      var k := 4 + LeadingBlanks(s[4..]);
      assert forall j :: 4 <= j < k ==> IsWhitespace(s[j]) by {
        forall j | 4 <= j < k ensures IsWhitespace(s[j]) {
          assert s[4..][j - 4] == s[j];
        }
      }
      if k < |s| && s[k] == ']' then k + 1 else 0
    else 0
  }

  /** The pattern matches at the start of `s` in at most one way, and
      `PlaceholderAt` finds it. */
  lemma PlaceholderAtFindsMatch(s: string, m: int)
    requires PlaceholderShape(s, m)
    ensures PlaceholderAt(s) == m
  {
    var k := 4 + LeadingBlanks(s[4..]);
    forall j | 4 <= j < |s| ensures s[4..][j - 4] == s[j] {
    }
  }

  /** No position of `s` starts a match of the pattern (`re.search` finds
      nothing). */
  predicate NoPlaceholder(s: string)
    decreases |s|
  {
    |s| == 0 || (PlaceholderAt(s) == 0 && NoPlaceholder(s[1..]))
  }

  /** `NoPlaceholder` says that the pattern matches at no position. */
  lemma {:induction false} NoPlaceholderEverywhere(s: string)
    ensures NoPlaceholder(s) <==> forall i :: 0 <= i < |s| ==> PlaceholderAt(s[i..]) == 0
    decreases |s|
  {
    if |s| > 0 {
      NoPlaceholderEverywhere(s[1..]);
      assert forall i :: 1 <= i < |s| ==> s[1..][i - 1..] == s[i..];
      assert s[0..] == s;
    }
  }

  /** `re.sub(r'\[\.\.\.\s*\]', '[]', s)`: matches are replaced left to right
      and never overlap. The result is no longer, and at least three
      characters shorter when there was a match. */
  function ReplacePlaceholders(s: string): (r: string)
    ensures |r| <= |s|
    decreases |s|
  {
    if |s| == 0 then ""
    else
      var n := PlaceholderAt(s);
      if n > 0 then "[]" + ReplacePlaceholders(s[n..])
      else [s[0]] + ReplacePlaceholders(s[1..])
  }

  /** A text with a match loses at least three characters: `[...]` is
      the shortest match and becomes `[]`. */
  lemma {:induction false} ReplacementShrinks(s: string)
    requires !NoPlaceholder(s)
    ensures |ReplacePlaceholders(s)| + 3 <= |s|
    decreases |s|
  {
    if PlaceholderAt(s) == 0 {
      ReplacementShrinks(s[1..]);
    }
  }

  /** A text without matches is left as it is. */
  lemma {:induction false} ReplacementKeepsClean(s: string)
    requires NoPlaceholder(s)
    ensures ReplacePlaceholders(s) == s
    decreases |s|
  {
    if |s| > 0 {
      ReplacementKeepsClean(s[1..]);
      assert [s[0]] + s[1..] == s;
    }
  }

  /** A character that can sit inside a match before its closing `]`. */
  predicate InsideMatch(c: char) {
    c == '.' || IsWhitespace(c)
  }

  /** Where a match starts, the rewritten text starts with `[]`. */
  lemma ReplacementOpensWithEmptyArray(u: string)
    requires PlaceholderAt(u) > 0
    ensures |ReplacePlaceholders(u)| >= 2
    ensures ReplacePlaceholders(u)[0] == '[' && ReplacePlaceholders(u)[1] == ']'
  {
  }

  /** The replacement only ever writes `[]`, whose `]` follows a `[`: so when
      the result starts with characters that can sit inside a match and then
      a `]`, those characters and that `]` were already there in the input. */
  lemma {:induction false} ReplacementKeepsMatchBody(u: string, m: nat)
    requires m < |ReplacePlaceholders(u)|
    requires forall k :: 0 <= k < m ==> InsideMatch(ReplacePlaceholders(u)[k])
    requires ReplacePlaceholders(u)[m] == ']'
    ensures m < |u| && forall k :: 0 <= k <= m ==> u[k] == ReplacePlaceholders(u)[k]
    decreases |u|
  {
    var t := ReplacePlaceholders(u);
    if PlaceholderAt(u) == 0 {
      var t' := ReplacePlaceholders(u[1..]);
      assert t == [u[0]] + t';
      if m > 0 {
        forall k | 0 <= k < m - 1 ensures InsideMatch(t'[k]) {
          assert t'[k] == t[k + 1];
        }
        ReplacementKeepsMatchBody(u[1..], m - 1);
        forall k | 1 <= k <= m ensures u[k] == t[k] {
          assert u[k] == u[1..][k - 1];
        }
      }
    } else {
      ReplacementOpensWithEmptyArray(u);
    }
  }

  /** A `[]` written by the replacement starts no match, and neither does
      its `]`. */
  lemma NoPlaceholderAfterEmptyArray(rest: string)
    requires NoPlaceholder(rest)
    ensures NoPlaceholder("[]" + rest)
  {
    var t := "[]" + rest;
    assert t[1..] == "]" + rest;
    assert t[1..][1..] == rest;
    assert t[1] == ']';
    assert |t| < 4 || t[..4][1] != '.';
  }

  /** Past its opening `[`, a match holds only characters that can sit
      inside a match, up to its closing `]`. */
  lemma MatchBody(t: string, n: int)
    requires PlaceholderShape(t, n)
    ensures forall k :: 0 <= k < n - 2 ==> InsideMatch(t[1..][k])
    ensures t[1..][n - 2] == ']'
  {
    forall k | 0 <= k < 3 ensures InsideMatch(t[1..][k]) {
      assert t[1..][k] == t[..4][k + 1];
    }
  }

  /** A match is decided by the characters it covers: a match in front of
      which the first character is put back is one of the original text. */
  lemma MatchByPrefix(s: string, rest: string, n: int)
    requires |s| > 0 && PlaceholderShape([s[0]] + rest, n) && n <= |s|
    requires forall k :: 0 <= k <= n - 2 ==> s[1..][k] == rest[k]
    ensures PlaceholderShape(s, n)
  {
    var t := [s[0]] + rest;
    forall k | 1 <= k < n ensures s[k] == t[k] {
      assert s[k] == s[1..][k - 1];
    }
    assert s[..4] == t[..4];
  }

  /** A character copied by the replacement starts no match: such a match
      would already have been one in the input. */
  lemma CopyStartsNoMatch(s: string, rest: string)
    requires |s| > 0 && PlaceholderAt(s) == 0
    requires rest == ReplacePlaceholders(s[1..])
    ensures PlaceholderAt([s[0]] + rest) == 0
  {
    var n := PlaceholderAt([s[0]] + rest);
    if n > 0 {
      CopiedMatchWasThere(s, rest, n);
    }
  }

  /** A match in front of which the first character of `s` was copied was
      already a match of `s`. */
  lemma CopiedMatchWasThere(s: string, rest: string, n: int)
    requires |s| > 0 && rest == ReplacePlaceholders(s[1..])
    requires PlaceholderShape([s[0]] + rest, n)
    ensures PlaceholderAt(s) == n
  {
    var t := [s[0]] + rest;
    MatchBody(t, n);
    assert t[1..] == rest;
    ReplacementKeepsMatchBody(s[1..], n - 2);
    MatchByPrefix(s, rest, n);
    PlaceholderAtFindsMatch(s, n);
  }

  /** So copying a character in front of a text without matches leaves none. */
  lemma NoPlaceholderAfterCopy(s: string)
    requires |s| > 0 && PlaceholderAt(s) == 0
    requires NoPlaceholder(ReplacePlaceholders(s[1..]))
    ensures NoPlaceholder([s[0]] + ReplacePlaceholders(s[1..]))
  {
    var rest := ReplacePlaceholders(s[1..]);
    CopyStartsNoMatch(s, rest);
    assert ([s[0]] + rest)[1..] == rest;
  }

  /** After the replacement no match is left. */
  lemma {:induction false} ReplacementLeavesNoPlaceholder(s: string)
    ensures NoPlaceholder(ReplacePlaceholders(s))
    decreases |s|
  {
    if |s| > 0 {
      var n := PlaceholderAt(s);
      if n > 0 {
        ReplacementLeavesNoPlaceholder(s[n..]);
        NoPlaceholderAfterEmptyArray(ReplacePlaceholders(s[n..]));
      } else {
        ReplacementLeavesNoPlaceholder(s[1..]);
        NoPlaceholderAfterCopy(s);
      }
    }
  }

  /** The rewrite is idempotent: rewriting again changes nothing. */
  lemma ReplacementIdempotent(s: string)
    ensures ReplacePlaceholders(ReplacePlaceholders(s)) == ReplacePlaceholders(s)
  {
    ReplacementLeavesNoPlaceholder(s);
    ReplacementKeepsClean(ReplacePlaceholders(s));
  }

  /** Where no match starts, the rewrite copies the first character. */
  lemma CopyStep(s: string)
    requires |s| > 0 && PlaceholderAt(s) == 0
    ensures ReplacePlaceholders(s) == [s[0]] + ReplacePlaceholders(s[1..])
  {
  }

  /** No match starts at any of the first i positions of `s`. */
  predicate NoMatchBefore(s: string, i: nat)
    requires i <= |s|
    decreases i
  {
    i == 0 || (PlaceholderAt(s) == 0 && NoMatchBefore(s[1..], i - 1))
  }

  /** `NoMatchBefore` says that the pattern matches at none of the first i
      positions. */
  lemma {:induction false} NoMatchBeforeEverywhere(s: string, i: nat)
    requires i <= |s|
    ensures NoMatchBefore(s, i) <==> forall j :: 0 <= j < i ==> PlaceholderAt(s[j..]) == 0
    decreases i
  {
    if i > 0 {
      NoMatchBeforeEverywhere(s[1..], i - 1);
      assert forall j :: 1 <= j < i ==> s[1..][j - 1..] == s[j..];
      assert s[0..] == s;
    }
  }

  /** The rewrite takes the leftmost match first: when no match starts before
      position i and one of length n starts there, the first i characters are
      copied, the match becomes `[]` and the rewrite goes on after it. With
      `ReplacementKeepsClean` for a text without matches, this fixes the
      result of every rewrite. */
  lemma {:induction false} ReplaceFirstMatch(s: string, i: nat, n: int)
    requires i <= |s| && NoMatchBefore(s, i)
    requires PlaceholderShape(s[i..], n)
    ensures ReplacePlaceholders(s) == s[..i] + "[]" + ReplacePlaceholders(s[i + n..])
    decreases i
  {
    if i == 0 {
      ReplaceMatchHere(s, i, n);
    } else {
      var t, j := s[1..], i - 1;
      assert t[j..] == s[i..];
      ReplaceFirstMatch(t, j, n);
      ReplaceAfterCopy(s, t, i, j, n);
    }
  }

  /** A match at the start becomes `[]`. */
  lemma ReplaceMatchHere(s: string, i: nat, n: int)
    requires i == 0 && PlaceholderShape(s[i..], n)
    ensures ReplacePlaceholders(s) == s[..i] + "[]" + ReplacePlaceholders(s[i + n..])
  {
    assert s[i..] == s;
    PlaceholderAtFindsMatch(s, n);
    var rest := ReplacePlaceholders(s[i + n..]);
    assert s[i + n..] == s[n..];
    assert ReplacePlaceholders(s) == "[]" + rest;
    assert s[..i] + "[]" == "[]";
  }

  /** The step of `ReplaceFirstMatch`: the first character, starting no
      match, is copied in front of the rewrite of the rest `t`, where the
      match sits at position j. */
  lemma ReplaceAfterCopy(s: string, t: string, i: nat, j: nat, n: int)
    requires 0 <= n && i == j + 1 && i + n <= |s| && PlaceholderAt(s) == 0 && t == s[1..]
    requires ReplacePlaceholders(t) == t[..j] + "[]" + ReplacePlaceholders(t[j + n..])
    ensures ReplacePlaceholders(s) == s[..i] + "[]" + ReplacePlaceholders(s[i + n..])
  {
    assert t[j + n..] == s[i + n..];
    CopyStep(s);
    CopyPrefix(s, i, "[]", ReplacePlaceholders(s[i + n..]));
  }

  /** The first character in front of the next i - 1 is the first i. */
  lemma CopyPrefix(s: string, i: nat, x: string, y: string)
    requires 0 < i <= |s|
    ensures [s[0]] + (s[1..][..i - 1] + x + y) == s[..i] + x + y
  {
    assert [s[0]] + s[1..][..i - 1] == s[..i];
  }

  /** Rule 3, on the joined text. The lines join to the rewritten text. When
      the pattern occurs, the text is re-split into lines, no match is left
      and the text is at least three characters shorter; otherwise nothing
      changes. */
  function FixPlaceholders(e: Edit): (r: Edit)
    ensures Join(r.lines, '\n') == ReplacePlaceholders(Join(e.lines, '\n'))
    ensures NoPlaceholder(Join(r.lines, '\n'))
    ensures !NoPlaceholder(Join(e.lines, '\n')) ==>
      && |r.lines| >= 1
      && (forall k :: 0 <= k < |r.lines| ==> '\n' !in r.lines[k])
      && |Join(r.lines, '\n')| + 3 <= |Join(e.lines, '\n')|
      && r.notes == e.notes + [ReplacedPlaceholder]
    ensures NoPlaceholder(Join(e.lines, '\n')) ==> r == e
  {
    var content := Join(e.lines, '\n');
    if !NoPlaceholder(content) then
      var replaced := ReplacePlaceholders(content);
      ReplacementLeavesNoPlaceholder(content);
      ReplacementShrinks(content);
      JoinSplit(replaced, '\n');
      Edit(Split(replaced, '\n'), e.notes + [ReplacedPlaceholder])
    else
      ReplacementKeepsClean(content);
      e
  }

  // ---------------------------------------------------------------------
  // Rule 4: missing comma
  // ---------------------------------------------------------------------

  /** `while pos > 0 and line[pos] != '}': pos -= 1`: the last `}` at or
      before `pos` other than at position 0, or 0 when there is none. */
  function ScanBackForBrace(line: string, pos: nat): (r: nat)
    requires pos < |line|
    ensures r <= pos
    ensures r > 0 ==> line[r] == '}'
    ensures forall k :: r < k <= pos ==> line[k] != '}'
    decreases pos
  {
    if pos > 0 && line[pos] != '}' then ScanBackForBrace(line, pos - 1) else pos
  }

  /** `lines[error_line - 1]` as Python indexes: a line number of 0, which
      the caller passes when the file could not be read as text, wraps round
      to the last line. */
  function LineIndex(errorLine: int, n: nat): (i: int)
    requires errorLine >= 0
    ensures 0 <= i < n <==> n > 0 && errorLine <= n
    ensures 0 < errorLine <= n ==> i == errorLine - 1
  {
    if errorLine >= 1 then errorLine - 1 else n - 1
  }

  /** When the missing-comma rule edits line `errorLine`: the message is the
      missing-delimiter one, the column is past 50 and inside the line, and a
      `}` sits after position 0 and at or before column `errorCol - 1`. */
  predicate CommaApplies(lines: seq<string>, errorLine: int, errorCol: int, msg: string)
    requires errorLine >= 0
  {
    var i := LineIndex(errorLine, |lines|);
    && Contains(msg, DelimiterMessage)
    && errorCol > 50
    && 0 <= i < |lines|
    && errorCol - 1 < |lines[i]|
    && var pos := ScanBackForBrace(lines[i], errorCol - 2);
       pos > 0 && lines[i][pos] == '}'
  }

  /** `line[:pos+1] + ',' + line[pos+1:]` */
  function InsertCommaAfter(line: string, pos: nat): (r: string)
    requires pos < |line|
    ensures |r| == |line| + 1
    ensures r[..pos + 1] == line[..pos + 1] && r[pos + 1] == ',' && r[pos + 2..] == line[pos + 1..]
  {
    line[..pos + 1] + "," + line[pos + 1..]
  }

  /** Rule 4. When it applies, only line `errorLine` changes: a `,` goes in
      right after the last `}` found before the error column, the text grows
      by that one character, and one note is added; otherwise nothing
      changes. */
  function FixMissingComma(e: Edit, errorLine: int, errorCol: int, msg: string): (r: Edit)
    requires errorLine >= 0
    ensures CommaApplies(e.lines, errorLine, errorCol, msg) ==>
      var i := LineIndex(errorLine, |e.lines|);
      var pos := ScanBackForBrace(e.lines[i], errorCol - 2);
      && |r.lines| == |e.lines|
      && (forall k :: 0 <= k < |e.lines| && k != i ==> r.lines[k] == e.lines[k])
      && r.lines[i] == InsertCommaAfter(e.lines[i], pos)
      && |Join(r.lines, '\n')| == |Join(e.lines, '\n')| + 1
      && r.notes == e.notes + [AddedComma(errorLine, pos + 2)]
    ensures !CommaApplies(e.lines, errorLine, errorCol, msg) ==> r == e
  {
    if CommaApplies(e.lines, errorLine, errorCol, msg) then
      var i := LineIndex(errorLine, |e.lines|);
      var pos := ScanBackForBrace(e.lines[i], errorCol - 2);
      var line := InsertCommaAfter(e.lines[i], pos);
      JoinReplaceLength(e.lines, i, line, '\n');
      Edit(e.lines[i := line], e.notes + [AddedComma(errorLine, pos + 2)])
    else e
  }

  // ---------------------------------------------------------------------
  // The whole repair
  // ---------------------------------------------------------------------

  /** The four rules applied in order to the file's lines. */
  function Repair(content: string, errorLine: int, errorCol: int, msg: string): Edit
    requires errorLine >= 0
  {
    var e1 := FixClosingBrace(Edit(Split(content, '\n'), []), errorLine, msg);
    var e2 := FixOpeningBrace(e1, errorLine, msg);
    var e3 := FixPlaceholders(e2);
    FixMissingComma(e3, errorLine, errorCol, msg)
  }

  /** The repaired text, `'\n'.join(lines)` after the four rules. */
  function RepairedText(content: string, errorLine: int, errorCol: int, msg: string): string
    requires errorLine >= 0
  {
    Join(Repair(content, errorLine, errorCol, msg).lines, '\n')
  }

  /** The text changes exactly when some rule fired: with no rule the lines
      are the split text and join back to it; any deletion or placeholder
      rewrite shortens the text by at least two characters, which the one
      comma cannot make up, and the comma alone lengthens it. */
  lemma ChangedIffSomeRuleFired(content: string, errorLine: int, errorCol: int, msg: string)
    requires errorLine >= 0
    ensures RepairedText(content, errorLine, errorCol, msg) != content
      <==> Repair(content, errorLine, errorCol, msg).notes != []
  {
    var e0 := Edit(Split(content, '\n'), []);
    var e1 := FixClosingBrace(e0, errorLine, msg);
    var e2 := FixOpeningBrace(e1, errorLine, msg);
    var e3 := FixPlaceholders(e2);
    var e4 := FixMissingComma(e3, errorLine, errorCol, msg);
    JoinSplit(content, '\n');
    if ClosingBraceApplies(e0.lines, errorLine, msg) {
      assert Trim(e0.lines[errorLine - 1]) != "";
    }
    if OpeningBraceApplies(e1.lines, errorLine, msg) {
      assert Trim(e1.lines[errorLine - 1]) != "";
    }
  }

  /** A note that reports a fix, not the outcome of the whole repair. */
  predicate IsFix(n: Note) {
    !n.NoFix? && !n.StillInvalid?
  }

  predicate AllFixes(notes: seq<Note>) {
    forall k :: 0 <= k < |notes| ==> IsFix(notes[k])
  }

  /** One rule either leaves the edit alone or adds one fix note. */
  lemma AppendFix(notes: seq<Note>, n: Note)
    requires AllFixes(notes) && IsFix(n)
    ensures AllFixes(notes + [n])
  {
    assert forall k :: 0 <= k < |notes| ==> (notes + [n])[k] == notes[k];
  }

  /** The rules only ever report fixes they applied. */
  lemma RepairNotesAreFixes(content: string, errorLine: int, errorCol: int, msg: string)
    requires errorLine >= 0
    ensures AllFixes(Repair(content, errorLine, errorCol, msg).notes)
  {
    var e0 := Edit(Split(content, '\n'), []);
    var e1 := FixClosingBrace(e0, errorLine, msg);
    if ClosingBraceApplies(e0.lines, errorLine, msg) {
      AppendFix(e0.notes, RemovedClosingBrace(errorLine));
    }
    var e2 := FixOpeningBrace(e1, errorLine, msg);
    if OpeningBraceApplies(e1.lines, errorLine, msg) {
      AppendFix(e1.notes, RemovedOpeningBrace(errorLine));
    }
    var e3 := FixPlaceholders(e2);
    if !NoPlaceholder(Join(e2.lines, '\n')) {
      AppendFix(e2.notes, ReplacedPlaceholder);
    }
    var e4 := FixMissingComma(e3, errorLine, errorCol, msg);
    if CommaApplies(e3.lines, errorLine, errorCol, msg) {
      AppendFix(e3.notes, AddedComma(errorLine, ScanBackForBrace(e3.lines[LineIndex(errorLine, |e3.lines|)], errorCol - 2) + 2));
    }
  }

  /** `fix_json_file`: the repaired text is written, and success reported
      with the fixes applied, exactly when it differs from the original and
      decodes; a changed text that still does not decode is reported as such
      and not written; an unchanged text is reported as having no fix. */
  function FixJsonFile(content: string, errorLine: int, errorCol: int, msg: string, valid: string -> bool): (r: FixResult)
    requires errorLine >= 0
    ensures r.fixed <==> r.written.Some?
    ensures r.fixed <==>
      RepairedText(content, errorLine, errorCol, msg) != content && valid(RepairedText(content, errorLine, errorCol, msg))
    ensures r.written.Some? ==> r.written.value == RepairedText(content, errorLine, errorCol, msg)
    ensures r.fixed ==> r.notes == Repair(content, errorLine, errorCol, msg).notes && r.notes != []
    ensures !r.fixed ==> r.notes == [if RepairedText(content, errorLine, errorCol, msg) == content then NoFix else StillInvalid]
    ensures r.notes == [NoFix] <==> Repair(content, errorLine, errorCol, msg).notes == []
  {
    var e := Repair(content, errorLine, errorCol, msg);
    var newContent := Join(e.lines, '\n');
    ChangedIffSomeRuleFired(content, errorLine, errorCol, msg);
    RepairNotesAreFixes(content, errorLine, errorCol, msg);
    assert e.notes != [] ==> IsFix(e.notes[0]);
    if newContent != content then
      if valid(newContent) then FixResult(true, e.notes, Some(newContent))
      else FixResult(false, [StillInvalid], None)
    else FixResult(false, [NoFix], None)
  }
}

/** The optional value used for "was a file written, and with what". */
module Wrappers {
  datatype Option<+T> = None | Some(value: T)
}
