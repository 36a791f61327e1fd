/**
 String helpers shared by the word-list loader, the result-path computation
 and the JSON repair rules: whitespace, trimming, splitting and joining on a
 separator character, prefix/suffix/infix tests and upper-casing.

 Whitespace and case mapping are restricted to ASCII; JavaScript's `trim`,
 Python's `strip` and both languages' upper-casing also know Unicode
 characters, which this model does not.
 */
module Text {

  /** The ASCII whitespace characters: space, tab, line feed, vertical tab,
      form feed and carriage return. */
  predicate IsWhitespace(c: char) {
    c == ' ' || c == '\t' || c == '\n' || c == '\r' || c as int == 11 || c as int == 12
  }

  /** Neither the first nor the last character is whitespace. */
  predicate IsTrimmed(s: string) {
    |s| == 0 || (!IsWhitespace(s[0]) && !IsWhitespace(s[|s| - 1]))
  }

  /** The length of the leading whitespace run. */
  function LeadingBlanks(s: string): (n: nat)
    ensures n <= |s|
    ensures forall i :: 0 <= i < n ==> IsWhitespace(s[i])
    ensures n < |s| ==> !IsWhitespace(s[n])
  {
    if |s| > 0 && IsWhitespace(s[0]) then 1 + LeadingBlanks(s[1..]) else 0
  }

  /** The length of the trailing whitespace run. */
  function TrailingBlanks(s: string): (n: nat)
    ensures n <= |s|
    ensures forall i :: |s| - n <= i < |s| ==> IsWhitespace(s[i])
    ensures n < |s| ==> !IsWhitespace(s[|s| - n - 1])
  {
    if |s| > 0 && IsWhitespace(s[|s| - 1]) then 1 + TrailingBlanks(s[..|s| - 1]) else 0
  }

  /** JavaScript's `String.prototype.trim` and Python's `str.strip()`: the
      leading whitespace run goes, then the trailing run of what is left. */
  function Trim(s: string): (r: string)
    ensures IsTrimmed(r) && |r| <= |s|
  {
    var a := LeadingBlanks(s);
    var b := TrailingBlanks(s[a..]);
    assert b < |s| - a ==> s[|s| - b - 1] == s[a..][|s| - a - b - 1];
    s[a..|s| - b]
  }

  /** The trimmed string is the infix of `s` left after removing the leading
      and the trailing whitespace runs. */
  lemma TrimIsInfix(s: string)
    ensures var a, r := LeadingBlanks(s), Trim(s);
      && a + |r| <= |s|
      && r == s[a..a + |r|]
      && (forall i :: 0 <= i < a ==> IsWhitespace(s[i]))
      && (forall i :: a + |r| <= i < |s| ==> IsWhitespace(s[i]))
  {
    var a := LeadingBlanks(s);
    var t := s[a..];
    var b := TrailingBlanks(t);
    assert Trim(s) == s[a..|s| - b];
    forall i | |s| - b <= i < |s| ensures IsWhitespace(s[i]) {
      assert s[i] == t[i - a];
    }
  }

  /** `Trim` is the only infix with whitespace-only surroundings whose ends
      are not whitespace: any such infix is the trimmed string. */
  lemma TrimUnique(s: string, a: nat, b: nat)
    requires a < b <= |s|
    requires forall i :: 0 <= i < a ==> IsWhitespace(s[i])
    requires forall i :: b <= i < |s| ==> IsWhitespace(s[i])
    requires !IsWhitespace(s[a]) && !IsWhitespace(s[b - 1])
    ensures Trim(s) == s[a..b]
  {
    TrimIsInfix(s);
    TrimBlank(s);
    var a', r := LeadingBlanks(s), Trim(s);
    assert r != "";
    assert r[0] == s[a'] && r[|r| - 1] == s[a' + |r| - 1];
    assert a' == a;
    assert a' + |r| == b;
  }

  /** Whitespace after the trimmed infix of a non-blank string can grow
      without changing the trimmed string. */
  lemma TrimIgnoresTrailingBlankText(q: string, c: char)
    requires IsWhitespace(c) && Trim(q) != ""
    ensures Trim(q + [c]) == Trim(q)
  {
    var s := q + [c];
    var a, r := LeadingBlanks(q), Trim(q);
    var b := a + |r|;
    assert && a < b <= |q| && r == q[a..b]
           && !IsWhitespace(q[a]) && !IsWhitespace(q[b - 1])
           && (forall i :: b <= i < |q| ==> IsWhitespace(q[i]))
    by {
      TrimIsInfix(q);
      assert r[0] == q[a] && r[|r| - 1] == q[b - 1];
    }
    assert forall i :: b <= i < |s| ==> IsWhitespace(s[i]) by {
      forall i | b <= i < |s| ensures IsWhitespace(s[i]) {
        if i < |q| {
          assert s[i] == q[i];
        }
      }
    }
    assert s[a..b] == q[a..b];
    TrimUnique(s, a, b);
  }

  /** A whitespace character at the end makes no difference to `Trim`. */
  lemma TrimIgnoresTrailingBlank(q: string, c: char)
    requires IsWhitespace(c)
    ensures Trim(q + [c]) == Trim(q)
  {
    var s := q + [c];
    if Trim(q) != "" {
      TrimIgnoresTrailingBlankText(q, c);
    } else {
      TrimBlank(q);
      forall j | 0 <= j < |s| ensures IsWhitespace(s[j]) {
        if j < |q| {
          assert s[j] == q[j];
        }
      }
      TrimBlank(s);
    }
  }

  /** A trimmed string is left as it is by `Trim`. */
  lemma TrimFixesTrimmed(s: string)
    requires IsTrimmed(s)
    ensures Trim(s) == s
  {
    assert LeadingBlanks(s) == 0;
  }

  /** Trimming leaves nothing exactly when every character is whitespace. */
  lemma TrimBlank(s: string)
    ensures Trim(s) == "" <==> forall j :: 0 <= j < |s| ==> IsWhitespace(s[j])
  {
    TrimIsInfix(s);
  }

  /** The first character of the trimmed string is the first character after
      the leading whitespace run, and there is one exactly when the trimmed
      string is not empty. */
  lemma TrimFirstChar(s: string)
    ensures LeadingBlanks(s) < |s| <==> Trim(s) != ""
    ensures LeadingBlanks(s) < |s| ==> Trim(s)[0] == s[LeadingBlanks(s)]
  {
    var a := LeadingBlanks(s);
    if a < |s| {
      var t := s[a..];
      assert t[0] == s[a];
      assert TrailingBlanks(t) < |t|;
    }
  }

  /** Number of occurrences of `c` in `s`. */
  function Count(s: string, c: char): nat
  {
    if |s| == 0 then 0 else (if s[0] == c then 1 else 0) + Count(s[1..], c)
  }

  /** Python's `str.split(sep)` and JavaScript's `split` with a one-character
      separator: the pieces between consecutive separators, including empty
      ones at either end. */
  function Split(s: string, sep: char): (r: seq<string>)
    ensures |r| == Count(s, sep) + 1
    ensures forall i :: 0 <= i < |r| ==> sep !in r[i]
    decreases |s|
  {
    if |s| == 0 then [""]
    else
      var rest := Split(s[1..], sep);
      if s[0] == sep then [""] + rest
      else [[s[0]] + rest[0]] + rest[1..]
  }

  /** One step of the split: a separator in front starts a new empty piece,
      any other character joins the first piece. */
  lemma SplitFront(c: char, s: string, sep: char)
    ensures c == sep ==> Split([c] + s, sep) == [""] + Split(s, sep)
    ensures c != sep ==> Split([c] + s, sep) == [[c] + Split(s, sep)[0]] + Split(s, sep)[1..]
  {
    assert ([c] + s)[1..] == s;
  }

  /** The pieces of a split hold exactly the non-separator characters of
      the text: nothing is invented and nothing but separators is lost. */
  lemma {:induction false} SplitChars(s: string, sep: char)
    ensures forall i, c :: 0 <= i < |Split(s, sep)| && c in Split(s, sep)[i] ==> c in s
    ensures forall k :: 0 <= k < |s| && s[k] != sep ==>
      exists i :: 0 <= i < |Split(s, sep)| && s[k] in Split(s, sep)[i]
    decreases |s|
  {
    if |s| > 0 {
      var rest := Split(s[1..], sep);
      var r := Split(s, sep);
      SplitChars(s[1..], sep);
      if s[0] == sep {
        assert r == [""] + rest;
        forall i, c | 0 <= i < |r| && c in r[i] ensures c in s {
          assert c in rest[i - 1];
          assert c in s[1..];
        }
        forall k | 0 <= k < |s| && s[k] != sep
          ensures exists i :: 0 <= i < |r| && s[k] in r[i]
        {
          assert s[1..][k - 1] == s[k];
          var i :| 0 <= i < |rest| && s[k] in rest[i];
          assert r[i + 1] == rest[i];
        }
      } else {
        assert r == [[s[0]] + rest[0]] + rest[1..];
        forall i, c | 0 <= i < |r| && c in r[i] ensures c in s {
          if i == 0 {
            if c != s[0] {
              assert c in rest[0];
              assert c in s[1..];
            }
          } else {
            assert r[i] == rest[i];
            assert c in s[1..];
          }
        }
        forall k | 0 <= k < |s| && s[k] != sep
          ensures exists i :: 0 <= i < |r| && s[k] in r[i]
        {
          if k == 0 {
            assert s[k] in r[0];
          } else {
            assert s[1..][k - 1] == s[k];
            var i :| 0 <= i < |rest| && s[k] in rest[i];
            if i == 0 {
              assert r[0] == [s[0]] + rest[0];
              assert s[k] in r[0];
            } else {
              assert r[i] == rest[i];
            }
          }
        }
      }
    }
  }

  /** Python's `sep.join(parts)`. */
  function Join(parts: seq<string>, sep: char): string
  {
    if |parts| == 0 then ""
    else if |parts| == 1 then parts[0]
    else parts[0] + [sep] + Join(parts[1..], sep)
  }

  /** Splitting and joining again on the same separator gives back the text. */
  lemma {:induction false} JoinSplit(s: string, sep: char)
    ensures Join(Split(s, sep), sep) == s
    decreases |s|
  {
    if |s| > 0 {
      var rest := Split(s[1..], sep);
      JoinSplit(s[1..], sep);
      if s[0] == sep {
        assert Split(s, sep) == [""] + rest;
        assert ([""] + rest)[1..] == rest;
        assert s == [sep] + s[1..];
      } else {
        var r := Split(s, sep);
        assert r == [[s[0]] + rest[0]] + rest[1..];
        if |rest| == 1 {
          assert s == [s[0]] + s[1..];
        } else {
          assert r[1..] == rest[1..];
          assert Join(rest, sep) == rest[0] + [sep] + Join(rest[1..], sep);
          assert s == [s[0]] + s[1..];
        }
      }
    }
  }

  /** A piece without the separator splits to itself. */
  lemma {:induction false} SplitPlain(p: string, sep: char)
    requires sep !in p
    ensures Split(p, sep) == [p]
    decreases |p|
  {
    if |p| > 0 {
      assert sep !in p[1..] by {
        forall i | 0 <= i < |p| - 1 ensures p[1..][i] != sep {
          assert p[1..][i] == p[i + 1];
        }
      }
      SplitPlain(p[1..], sep);
      assert [p[0]] + p[1..] == p;
    }
  }

  /** A piece without the separator, followed by the separator, becomes the
      first piece of the split. */
  lemma {:induction false} SplitCons(p: string, sep: char, rest: string)
    requires sep !in p
    ensures Split(p + [sep] + rest, sep) == [p] + Split(rest, sep)
    decreases |p|
  {
    var s := p + [sep] + rest;
    if |p| == 0 {
      assert s[1..] == rest;
    } else {
      assert sep !in p[1..] by {
        forall i | 0 <= i < |p| - 1 ensures p[1..][i] != sep {
          assert p[1..][i] == p[i + 1];
        }
      }
      SplitCons(p[1..], sep, rest);
      assert s[1..] == p[1..] + [sep] + rest;
      assert [p[0]] + p[1..] == p;
    }
  }

  /** Joining pieces that do not contain the separator and splitting again
      gives back the pieces (as long as there is at least one: `Join([])` and
      `Join([""])` are both empty). */
  lemma {:induction false} SplitJoin(parts: seq<string>, sep: char)
    requires |parts| >= 1
    requires forall i :: 0 <= i < |parts| ==> sep !in parts[i]
    ensures Split(Join(parts, sep), sep) == parts
    decreases |parts|
  {
    if |parts| == 1 {
      SplitPlain(parts[0], sep);
    } else {
      SplitJoin(parts[1..], sep);
      SplitCons(parts[0], sep, Join(parts[1..], sep));
      assert [parts[0]] + parts[1..] == parts;
    }
  }

  /** The total number of characters in the pieces. */
  function Width(parts: seq<string>): nat
  {
    if |parts| == 0 then 0 else |parts[0]| + Width(parts[1..])
  }

  lemma {:induction false} WidthConcat(a: seq<string>, b: seq<string>)
    ensures Width(a + b) == Width(a) + Width(b)
    decreases |a|
  {
    if |a| > 0 {
      WidthConcat(a[1..], b);
      assert (a + b)[1..] == a[1..] + b;
    } else {
      assert a + b == b;
    }
  }

  /** A joined text has the pieces' characters plus one separator between
      each two neighbours. */
  lemma {:induction false} JoinLength(parts: seq<string>, sep: char)
    requires |parts| >= 1
    ensures |Join(parts, sep)| == Width(parts) + |parts| - 1
    decreases |parts|
  {
    if |parts| > 1 {
      JoinLength(parts[1..], sep);
    }
  }

  /** Removing the i-th of at least two pieces shortens the joined text by
      that piece and one separator. */
  lemma JoinRemoveLength(parts: seq<string>, i: nat, sep: char)
    requires |parts| >= 2 && i < |parts|
    ensures |Join(parts[..i] + parts[i + 1..], sep)| + |parts[i]| + 1 == |Join(parts, sep)|
  {
    var pre, post := parts[..i], parts[i + 1..];
    var rest := pre + post;
    assert Width(parts) == Width(pre) + |parts[i]| + Width(post) by {
      assert parts == pre + [parts[i]] + post;
      WidthConcat(pre, [parts[i]]);
      WidthConcat(pre + [parts[i]], post);
    }
    assert Width(rest) == Width(pre) + Width(post) by {
      WidthConcat(pre, post);
    }
    JoinLength(rest, sep);
    JoinLength(parts, sep);
  }

  /** Replacing the i-th piece changes the joined text's length by the
      difference in the piece's length. */
  lemma JoinReplaceLength(parts: seq<string>, i: nat, p: string, sep: char)
    requires i < |parts|
    ensures |Join(parts[i := p], sep)| + |parts[i]| == |Join(parts, sep)| + |p|
  {
    var pre, post := parts[..i], parts[i + 1..];
    var next := parts[i := p];
    assert Width(parts) == Width(pre) + |parts[i]| + Width(post) by {
      assert parts == pre + [parts[i]] + post;
      WidthConcat(pre, [parts[i]]);
      WidthConcat(pre + [parts[i]], post);
    }
    assert Width(next) == Width(pre) + |p| + Width(post) by {
      assert next == pre + [p] + post;
      WidthConcat(pre, [p]);
      WidthConcat(pre + [p], post);
    }
    JoinLength(next, sep);
    JoinLength(parts, sep);
  }

  /** Python's `s.startswith(p)`. */
  predicate StartsWith(s: string, p: string) {
    |p| <= |s| && s[..|p|] == p
  }

  /** Python's `s.endswith(p)`. */
  predicate EndsWith(s: string, p: string) {
    |p| <= |s| && s[|s| - |p|..] == p
  }

  /** Python's `needle in hay` on strings: some position of `hay` starts a
      copy of `needle`. */
  predicate Contains(hay: string, needle: string)
    decreases |hay|
  {
    StartsWith(hay, needle) || (|hay| > 0 && Contains(hay[1..], needle))
  }

  /** `needle` occurs in `hay` starting at position `i`. */
  predicate OccursAt(hay: string, needle: string, i: int) {
    0 <= i <= |hay| - |needle| && hay[i..i + |needle|] == needle
  }

  /** `Contains` holds exactly when `needle` occurs at some position. */
  lemma {:induction false} ContainsAt(hay: string, needle: string)
    ensures Contains(hay, needle) <==> exists i :: OccursAt(hay, needle, i)
    decreases |hay|
  {
    if StartsWith(hay, needle) {
      assert OccursAt(hay, needle, 0);
    } else if |hay| > 0 {
      ContainsAt(hay[1..], needle);
      if exists i :: OccursAt(hay, needle, i) {
        var i :| OccursAt(hay, needle, i);
        assert i > 0;
        assert hay[1..][i - 1..i - 1 + |needle|] == hay[i..i + |needle|];
        assert OccursAt(hay[1..], needle, i - 1);
      }
      if Contains(hay[1..], needle) {
        var i :| OccursAt(hay[1..], needle, i);
        assert hay[i + 1..i + 1 + |needle|] == hay[1..][i..i + |needle|];
        assert OccursAt(hay, needle, i + 1);
      }
    } else {
      assert forall i :: !OccursAt(hay, needle, i);
    }
  }

  /** ASCII upper-casing of one character; other characters are unchanged. */
  function Upper(c: char): (r: char)
    ensures 'a' <= c <= 'z' ==> 'A' <= r <= 'Z' && r as int - c as int == 'A' as int - 'a' as int
    ensures !('a' <= c <= 'z') ==> r == c
  {
    if 'a' <= c <= 'z' then (c as int - 32) as char else c
  }

  /** JavaScript's `c.repeat(n)`. */
  function Repeat(c: char, n: nat): (r: string)
    ensures |r| == n
    ensures forall i :: 0 <= i < n ==> r[i] == c
  {
    seq(n, _ => c)
  }
}
