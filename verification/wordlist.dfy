/**
 The word-list loader: the text of the word-list file is split into lines on
 `\r?\n`, every line is trimmed, and the blank ones are dropped. Reading the
 file itself is not modelled; the loader starts from the file's text.
 */
module Wordlist {
  import opened Text

  /** A line that ends in a carriage return loses it. */
  function DropCR(p: string): (r: string)
    ensures |r| <= |p| && r == p[..|r|]
    ensures |r| < |p| ==> p == r + ['\r']
  {
    if |p| > 0 && p[|p| - 1] == '\r' then p[..|p| - 1] else p
  }

  /** `text.split(/\r?\n/)`: the pieces between line feeds, where every piece
      that is followed by a line feed also loses a carriage return just before
      it. The last piece is followed by nothing and keeps any `\r` it ends in. */
  function SplitLines(text: string): (r: seq<string>)
    ensures |r| == Count(text, '\n') + 1
    ensures forall i :: 0 <= i < |r| ==> '\n' !in r[i]
  {
    var pieces := Split(text, '\n');
    seq(|pieces|, i requires 0 <= i < |pieces| =>
      if i < |pieces| - 1 then DropCR(pieces[i]) else pieces[i])
  }

  /** `lines.map((line) => line.trim())` */
  function TrimAll(lines: seq<string>): (r: seq<string>)
    ensures |r| == |lines|
    ensures forall i :: 0 <= i < |r| ==> r[i] == Trim(lines[i])
  {
    seq(|lines|, i requires 0 <= i < |lines| => Trim(lines[i]))
  }

  /** `lines.filter((line) => line.length > 0)` */
  function NonBlank(lines: seq<string>): (r: seq<string>)
    ensures |r| <= |lines|
    ensures forall i :: 0 <= i < |r| ==> r[i] != ""
  {
    if |lines| == 0 then []
    else if lines[0] != "" then [lines[0]] + NonBlank(lines[1..])
    else NonBlank(lines[1..])
  }

  /** `loadWordlist`, from the file's text on: the trimmed, non-blank lines in
      file order. Every word is non-empty, has no surrounding whitespace and no
      line feed, and there are no more words than lines. */
  function LoadWordlist(text: string): (r: seq<string>)
    ensures forall i :: 0 <= i < |r| ==> r[i] != "" && IsTrimmed(r[i]) && '\n' !in r[i]
    ensures |r| <= Count(text, '\n') + 1
  {
    var lines := TrimAll(SplitLines(text));
    TrimmedLinesAreClean(SplitLines(text));
    NonBlankKeepsClean(lines);
    NonBlank(lines)
  }

  /** A line without line feeds has none after trimming either. */
  lemma TrimKeepsNoLineFeed(s: string)
    requires '\n' !in s
    ensures '\n' !in Trim(s)
  {
    TrimIsInfix(s);
    var a, r := LeadingBlanks(s), Trim(s);
    forall j | 0 <= j < |r| ensures r[j] != '\n' {
      assert r[j] == s[a + j];
    }
  }

  /** Trimmed lines of the split text are trimmed and free of line feeds. */
  lemma TrimmedLinesAreClean(split: seq<string>)
    requires forall i :: 0 <= i < |split| ==> '\n' !in split[i]
    ensures forall i :: 0 <= i < |split| ==> IsTrimmed(TrimAll(split)[i]) && '\n' !in TrimAll(split)[i]
  {
    forall i | 0 <= i < |split| ensures '\n' !in TrimAll(split)[i] {
      TrimKeepsNoLineFeed(split[i]);
    }
  }

  /** The filter only keeps entries of its input, so it keeps their
      cleanliness. */
  lemma NonBlankKeepsClean(lines: seq<string>)
    requires forall i :: 0 <= i < |lines| ==> IsTrimmed(lines[i]) && '\n' !in lines[i]
    ensures forall k :: 0 <= k < |NonBlank(lines)| ==> IsTrimmed(NonBlank(lines)[k]) && '\n' !in NonBlank(lines)[k]
  {
    NonBlankAtKeptPositions(lines);
  }

  /** Every position moved one place to the right. */
  function Shift(p: seq<nat>): (r: seq<nat>)
    ensures |r| == |p|
    ensures forall k :: 0 <= k < |r| ==> r[k] == p[k] + 1
  {
    seq(|p|, k requires 0 <= k < |p| => p[k] + 1)
  }

  /** The positions of the non-blank entries. */
  function KeptPositions(lines: seq<string>): seq<nat>
  {
    if |lines| == 0 then []
    else if lines[0] != "" then [0] + Shift(KeptPositions(lines[1..]))
    else Shift(KeptPositions(lines[1..]))
  }

  /** The kept positions are in range and strictly increasing. */
  lemma {:induction false} KeptPositionsIncrease(lines: seq<string>)
    ensures forall k :: 0 <= k < |KeptPositions(lines)| ==> KeptPositions(lines)[k] < |lines|
    ensures forall k, l :: 0 <= k < l < |KeptPositions(lines)| ==> KeptPositions(lines)[k] < KeptPositions(lines)[l]
    decreases |lines|
  {
    if |lines| > 0 {
      var tail := lines[1..];
      KeptPositionsIncrease(tail);
      var p' := KeptPositions(tail);
      var p, shifted := KeptPositions(lines), Shift(p');
      assert forall k :: 0 <= k < |shifted| ==> 0 < shifted[k] < |lines|;
      assert forall k, l :: 0 <= k < l < |shifted| ==> shifted[k] < shifted[l];
      if lines[0] != "" {
        assert p == [0] + shifted;
      } else {
        assert p == shifted;
      }
    }
  }

  /** Every non-blank position is kept. */
  lemma {:induction false} KeptPositionsCover(lines: seq<string>)
    ensures forall j :: 0 <= j < |lines| && lines[j] != "" ==> j in KeptPositions(lines)
    decreases |lines|
  {
    if |lines| > 0 {
      KeptPositionsCover(lines[1..]);
      var p, shifted := KeptPositions(lines), Shift(KeptPositions(lines[1..]));
      assert forall k :: 0 <= k < |shifted| ==> shifted[k] in p;
      forall j | 0 < j < |lines| && lines[j] != "" ensures j in p {
        assert lines[1..][j - 1] == lines[j];
        var k :| 0 <= k < |shifted| && KeptPositions(lines[1..])[k] == j - 1;
        assert shifted[k] == j;
      }
    }
  }

  /** The k-th kept entry is the entry at the k-th kept position. */
  lemma {:induction false} NonBlankAtKeptPositions(lines: seq<string>)
    ensures |KeptPositions(lines)| == |NonBlank(lines)|
    ensures forall k :: 0 <= k < |KeptPositions(lines)| ==>
      KeptPositions(lines)[k] < |lines| && NonBlank(lines)[k] == lines[KeptPositions(lines)[k]]
    decreases |lines|
  {
    if |lines| > 0 {
      var tail := lines[1..];
      NonBlankAtKeptPositions(tail);
      var r', p' := NonBlank(tail), KeptPositions(tail);
      var shifted := Shift(p');
      var r, p := NonBlank(lines), KeptPositions(lines);
      if lines[0] != "" {
        assert r == [lines[0]] + r';
        assert p == [0] + shifted;
        forall k | 0 < k < |p| ensures p[k] < |lines| && r[k] == lines[p[k]] {
          assert r[k] == r'[k - 1] == tail[p'[k - 1]];
        }
      } else {
        assert r == r';
        assert p == shifted;
        forall k | 0 <= k < |p| ensures p[k] < |lines| && r[k] == lines[p[k]] {
          assert r[k] == tail[p'[k]];
        }
      }
    }
  }

  /** The filter keeps exactly the non-blank entries, in their original order:
      the k-th kept entry is the entry at the k-th non-blank position, those
      positions increase strictly, and every non-blank position is among them. */
  lemma NonBlankIsOrderedSelection(lines: seq<string>)
    ensures var r, p := NonBlank(lines), KeptPositions(lines);
      && |p| == |r|
      && (forall k :: 0 <= k < |p| ==> p[k] < |lines| && r[k] == lines[p[k]])
      && (forall k, l :: 0 <= k < l < |p| ==> p[k] < p[l])
      && (forall j :: 0 <= j < |lines| && lines[j] != "" ==> j in p)
  {
    KeptPositionsIncrease(lines);
    KeptPositionsCover(lines);
    NonBlankAtKeptPositions(lines);
  }

  /** The filter keeps only entries of its input, and keeps every non-blank
      one. */
  lemma NonBlankMembers(lines: seq<string>)
    ensures forall i :: 0 <= i < |NonBlank(lines)| ==> NonBlank(lines)[i] in lines
    ensures forall j :: 0 <= j < |lines| && lines[j] != "" ==> lines[j] in NonBlank(lines)
  {
    NonBlankIsOrderedSelection(lines);
    var r, p := NonBlank(lines), KeptPositions(lines);
    forall j | 0 <= j < |lines| && lines[j] != "" ensures lines[j] in r {
      var k :| 0 <= k < |p| && p[k] == j;
      assert r[k] == lines[j];
    }
  }

  /** The loaded words are the trimmed lines that are not blank, in file
      order: relative order is preserved and no non-blank line is skipped. */
  lemma WordsAreNonBlankLinesInOrder(text: string)
    ensures var lines, r, p := TrimAll(SplitLines(text)), LoadWordlist(text), KeptPositions(TrimAll(SplitLines(text)));
      && |p| == |r|
      && (forall k :: 0 <= k < |p| ==> p[k] < |lines| && r[k] == lines[p[k]])
      && (forall k, l :: 0 <= k < l < |p| ==> p[k] < p[l])
      && (forall j :: 0 <= j < |lines| && lines[j] != "" ==> j in p)
  {
    NonBlankIsOrderedSelection(TrimAll(SplitLines(text)));
  }

  /** The filter keeps nothing exactly when every entry is blank. */
  lemma {:induction false} NonBlankEmpty(lines: seq<string>)
    ensures NonBlank(lines) == [] <==> forall i :: 0 <= i < |lines| ==> lines[i] == ""
    decreases |lines|
  {
    if |lines| > 0 {
      NonBlankEmpty(lines[1..]);
      assert forall i :: 0 < i < |lines| ==> lines[i] == lines[1..][i - 1];
    }
  }

  /** A file of blank and whitespace-only lines yields no words, and it is the
      only kind of file that yields none. */
  lemma EmptyExactlyWhenBlank(text: string)
    ensures LoadWordlist(text) == [] <==> forall k :: 0 <= k < |text| ==> IsWhitespace(text[k])
  {
    var pieces := Split(text, '\n');
    var lines := SplitLines(text);
    var trimmed := TrimAll(lines);
    SplitChars(text, '\n');
    if forall k :: 0 <= k < |text| ==> IsWhitespace(text[k]) {
      forall i | 0 <= i < |trimmed| ensures trimmed[i] == "" {
        assert lines[i] == pieces[i][..|lines[i]|];
        forall j | 0 <= j < |lines[i]| ensures IsWhitespace(lines[i][j]) {
          var c := lines[i][j];
          assert c in pieces[i];
          assert c in text;
          var k :| 0 <= k < |text| && text[k] == c;
        }
        TrimBlank(lines[i]);
      }
      NonBlankEmpty(trimmed);
    } else {
      var k :| 0 <= k < |text| && !IsWhitespace(text[k]);
      var i :| 0 <= i < |pieces| && text[k] in pieces[i];
      var j :| 0 <= j < |pieces[i]| && pieces[i][j] == text[k];
      if i < |pieces| - 1 && |lines[i]| < |pieces[i]| {
        assert pieces[i] == lines[i] + ['\r'];
      }
      assert lines[i][j] == text[k];
      TrimBlank(lines[i]);
      NonBlankMembers(trimmed);
      assert trimmed[i] in LoadWordlist(text);
    }
  }

  /** Keeping every entry when none is blank. */
  lemma {:induction false} NonBlankKeepsAll(lines: seq<string>)
    requires forall i :: 0 <= i < |lines| ==> lines[i] != ""
    ensures NonBlank(lines) == lines
    decreases |lines|
  {
    if |lines| > 0 {
      NonBlankKeepsAll(lines[1..]);
      assert [lines[0]] + lines[1..] == lines;
    }
  }

  /** Lines joined with line feeds split back into the same lines, when none
      holds a line feed or ends in a carriage return. */
  lemma SplitLinesOfJoined(words: seq<string>)
    requires |words| >= 1
    requires forall i :: 0 <= i < |words| ==> words[i] != "" && IsTrimmed(words[i]) && '\n' !in words[i]
    ensures SplitLines(Join(words, '\n')) == words
  {
    SplitJoin(words, '\n');
    var r := SplitLines(Join(words, '\n'));
    forall i | 0 <= i < |words| - 1 ensures r[i] == words[i] {
      assert words[i][|words[i]| - 1] != '\r';
    }
  }

  /** Trimming lines that are already trimmed changes nothing. */
  lemma TrimAllTrimmed(lines: seq<string>)
    requires forall i :: 0 <= i < |lines| ==> IsTrimmed(lines[i])
    ensures TrimAll(lines) == lines
  {
    forall i | 0 <= i < |lines| ensures Trim(lines[i]) == lines[i] {
      TrimFixesTrimmed(lines[i]);
    }
  }

  /** Loading is idempotent on its own output: writing the words back one per
      line and loading that text again gives the same words. */
  lemma LoadJoinedWords(words: seq<string>)
    requires forall i :: 0 <= i < |words| ==> words[i] != "" && IsTrimmed(words[i]) && '\n' !in words[i]
    ensures LoadWordlist(Join(words, '\n')) == words
  {
    var text := Join(words, '\n');
    if |words| == 0 {
      assert Split(text, '\n') == [""];
      assert SplitLines(text) == [""];
      assert TrimAll([""]) == [""];
    } else {
      SplitLinesOfJoined(words);
      TrimAllTrimmed(words);
      NonBlankKeepsAll(words);
    }
  }

  /** Loading the loaded words again, one per line, gives them back. */
  lemma LoadIdempotent(text: string)
    ensures LoadWordlist(Join(LoadWordlist(text), '\n')) == LoadWordlist(text)
  {
    LoadJoinedWords(LoadWordlist(text));
  }

  /** The text with every line feed turned into a carriage return and a
      line feed, as a Windows editor would save it. */
  function ToCRLF(text: string): (r: string)
    ensures |r| == |text| + Count(text, '\n')
    decreases |text|
  {
    if |text| == 0 then ""
    else (if text[0] == '\n' then "\r\n" else [text[0]]) + ToCRLF(text[1..])
  }

  /** The pieces q are the pieces p, each one but the last with a carriage
      return added. */
  predicate CRPieces(p: seq<string>, q: seq<string>) {
    && |q| == |p| >= 1
    && q[|p| - 1] == p[|p| - 1]
    && forall i :: 0 <= i < |p| - 1 ==> q[i] == p[i] + ['\r']
  }

  /** A new empty piece in front: a carriage return on its own in the
      Windows form. */
  lemma CRPiecesNewLine(p: seq<string>, q: seq<string>)
    requires CRPieces(p, q)
    ensures CRPieces([""] + p, [['\r'] + ""] + q)
  {
    var p1, q1 := [""] + p, [['\r'] + ""] + q;
    assert q1[0] == p1[0] + ['\r'];
    forall i | 0 <= i < |p1| - 1 ensures q1[i] == p1[i] + ['\r'] {
      if i > 0 {
        assert q1[i] == q[i - 1] && p1[i] == p[i - 1];
      }
    }
  }

  /** A character added to the first piece in both forms. */
  lemma CRPiecesGrow(c: char, p: seq<string>, q: seq<string>)
    requires CRPieces(p, q)
    ensures CRPieces([[c] + p[0]] + p[1..], [[c] + q[0]] + q[1..])
  {
    var p1, q1 := [[c] + p[0]] + p[1..], [[c] + q[0]] + q[1..];
    forall i | 0 <= i < |p1| - 1 ensures q1[i] == p1[i] + ['\r'] {
      if i > 0 {
        assert q1[i] == q[i] && p1[i] == p[i];
      }
    }
  }

  /** Splitting the Windows form on line feeds gives the same pieces, each
      one but the last ending in an extra carriage return. */
  lemma {:induction false} SplitCRLF(text: string)
    ensures CRPieces(Split(text, '\n'), Split(ToCRLF(text), '\n'))
    decreases |text|
  {
    if |text| == 0 {
      assert Split(ToCRLF(text), '\n') == [""];
    } else {
      var t := ToCRLF(text[1..]);
      SplitCRLF(text[1..]);
      var p', q' := Split(text[1..], '\n'), Split(t, '\n');
      SplitFront(text[0], text[1..], '\n');
      assert [text[0]] + text[1..] == text;
      if text[0] == '\n' {
        assert ToCRLF(text) == ['\r'] + (['\n'] + t);
        SplitFront('\n', t, '\n');
        SplitFront('\r', ['\n'] + t, '\n');
        assert ([""] + q')[1..] == q';
        CRPiecesNewLine(p', q');
      } else {
        assert ToCRLF(text) == [text[0]] + t;
        SplitFront(text[0], t, '\n');
        CRPiecesGrow(text[0], p', q');
      }
    }
  }

  /** An added carriage return is dropped again. */
  lemma DropAddedCR(p: string)
    ensures DropCR(p + ['\r']) == p
  {
    assert (p + ['\r'])[..|p|] == p;
  }

  /** Dropping a final carriage return makes no difference once the line is
      trimmed. */
  lemma TrimDropCR(p: string)
    ensures Trim(DropCR(p)) == Trim(p)
  {
    if DropCR(p) != p {
      TrimIgnoresTrailingBlank(DropCR(p), '\r');
    }
  }

  /** Windows line endings load like Unix ones: the `\r?` of the split and
      the trimming together make the two texts give the same words. */
  lemma LoadIgnoresCRLF(text: string)
    ensures LoadWordlist(ToCRLF(text)) == LoadWordlist(text)
  {
    var l1, l2 := SplitLines(text), SplitLines(ToCRLF(text));
    assert TrimAll(l1) == TrimAll(l2) by {
      SplitCRLF(text);
      var p, q := Split(text, '\n'), Split(ToCRLF(text), '\n');
      assert CRPieces(p, q);
      assert |l1| == |p| == |l2|;
      forall i | 0 <= i < |p| ensures Trim(l1[i]) == Trim(l2[i]) {
        if i < |p| - 1 {
          assert l1[i] == DropCR(p[i]);
          assert l2[i] == DropCR(p[i] + ['\r']);
          DropAddedCR(p[i]);
          TrimDropCR(p[i]);
        } else {
          assert l1[i] == p[i] && l2[i] == q[i];
        }
      }
    }
  }
}
