/** The string built-ins the keyword and category matchers rely on, over ASCII text:
    `str.lower`, `str.strip`, `str.split(' ')`, `" ".join`, `re.split(r"\W+", ...)`,
    and the tokenizer pipeline that combines them. */
module Text {

  /** A member of the regular-expression class `\w`, restricted to ASCII: `[A-Za-z0-9_]`. */
  predicate IsWordChar(c: char)
  {
    ('a' <= c <= 'z') || ('A' <= c <= 'Z') || ('0' <= c <= '9') || c == '_'
  }

  predicate IsUpper(c: char)
  {
    'A' <= c <= 'Z'
  }

  /** A character `str.isspace()` accepts, restricted to ASCII: tab, line feed, vertical tab,
      form feed, carriage return, the four information separators 0x1C-0x1F, and space. */
  predicate IsSpace(c: char)
  {
    (9 <= c as int <= 13) || (28 <= c as int <= 31) || c == ' '
  }

  predicate AllWordChars(s: string)
  {
    forall k :: 0 <= k < |s| ==> IsWordChar(s[k])
  }

  predicate AllSpace(s: string)
  {
    forall k :: 0 <= k < |s| ==> IsSpace(s[k])
  }

  predicate NoUpper(s: string)
  {
    forall k :: 0 <= k < |s| ==> !IsUpper(s[k])
  }

  function LowerChar(c: char): (d: char)
    ensures !IsUpper(d)
    ensures IsWordChar(d) <==> IsWordChar(c)
    ensures IsSpace(d) <==> IsSpace(c)
    ensures !IsUpper(c) ==> d == c
  {
    if IsUpper(c) then (c as int + 32) as char else c
  }

  /** `s.lower()` on ASCII text. */
  function Lower(s: string): (r: string)
    ensures |r| == |s|
  {
    seq(|s|, i requires 0 <= i < |s| => LowerChar(s[i]))
  }

  /** Lower-casing turns each letter `A`-`Z` into its own lower-case letter and keeps every
      other character; so it leaves no upper-case letter, keeps each position a word character
      exactly when it was one, and leaves a string without upper-case letters unchanged. */
  lemma LowerFacts(s: string)
    ensures forall k :: 0 <= k < |s| && IsUpper(s[k]) ==> Lower(s)[k] as int - 'a' as int == s[k] as int - 'A' as int
    ensures forall k :: 0 <= k < |s| && !IsUpper(s[k]) ==> Lower(s)[k] == s[k]
    ensures NoUpper(Lower(s))
    ensures forall k :: 0 <= k < |s| ==> (IsWordChar(Lower(s)[k]) <==> IsWordChar(s[k]))
    ensures NoUpper(s) ==> Lower(s) == s
  {
  }

  /** The number of whitespace characters `s.lstrip()` removes. */
  function LeadingSpaces(s: string): (n: nat)
    ensures n <= |s|
    ensures forall k :: 0 <= k < n ==> IsSpace(s[k])
    ensures n == |s| || !IsSpace(s[n])
  {
    if |s| > 0 && IsSpace(s[0]) then
      var m := LeadingSpaces(s[1..]);
      assert forall k :: 1 <= k < m + 1 ==> s[k] == s[1..][k - 1];
      m + 1
    else
      0
  }

  /** The number of whitespace characters `s.rstrip()` removes. */
  function TrailingSpaces(s: string): (n: nat)
    ensures n <= |s|
    ensures forall k :: |s| - n <= k < |s| ==> IsSpace(s[k])
    ensures n == |s| || !IsSpace(s[|s| - n - 1])
  {
    if |s| > 0 && IsSpace(s[|s| - 1]) then
      var m := TrailingSpaces(s[..|s| - 1]);
      assert forall k :: |s| - 1 - m <= k < |s| - 1 ==> s[k] == s[..|s| - 1][k];
      m + 1
    else
      0
  }

  /** `s.strip()`: the slice of `s` left once the whitespace on both ends is gone
      (`StripIsSlice`); it neither starts nor ends with whitespace. */
  function Strip(s: string): (r: string)
    ensures r == [] || (!IsSpace(r[0]) && !IsSpace(r[|r| - 1]))
  {
    var a := LeadingSpaces(s);
    var n := TrailingSpaces(s[a..]);
    LeadingSpacesSlice(s, a);
    TrailingSpacesSlice(s, a, n);
    s[a..|s| - n]
  }

  /** `strip()` returns a contiguous slice of its input with only whitespace on either side. */
  lemma {:induction false} StripIsSlice(s: string) returns (a: nat)
    ensures a + |Strip(s)| <= |s| && s[a..a + |Strip(s)|] == Strip(s)
    ensures AllSpace(s[..a]) && AllSpace(s[a + |Strip(s)|..])
  {
    a := LeadingSpaces(s);
    var n := TrailingSpaces(s[a..]);
    LeadingSpacesSlice(s, a);
    TrailingSpacesSlice(s, a, n);
    assert Strip(s) == s[a..|s| - n];
  }

  lemma {:induction false} LeadingSpacesSlice(s: string, a: nat)
    requires a == LeadingSpaces(s)
    ensures AllSpace(s[..a])
    ensures a < |s| ==> !IsSpace(s[a])
  {
    assert forall k :: 0 <= k < a ==> s[..a][k] == s[k];
  }

  lemma {:induction false} TrailingSpacesSlice(s: string, a: nat, n: nat)
    requires a <= |s| && n == TrailingSpaces(s[a..])
    ensures a <= |s| - n
    ensures AllSpace(s[|s| - n..])
    ensures a < |s| - n ==> !IsSpace(s[|s| - n - 1])
  {
    var t := s[a..];
    assert forall k :: |s| - n <= k < |s| ==> s[k] == t[k - a];
    if a < |s| - n {
      assert s[|s| - n - 1] == t[|t| - n - 1];
    }
  }

  /** A string with no whitespace on either end is left alone by `strip()`. */
  lemma {:induction false} StripUnchanged(s: string)
    requires s == [] || (!IsSpace(s[0]) && !IsSpace(s[|s| - 1]))
    ensures Strip(s) == s
  {
    assert LeadingSpaces(s) == 0;
    assert s[0..] == s;
    assert TrailingSpaces(s) == 0;
  }

  /** A line as `readlines()` returns it loses its line feed to `strip()`. */
  lemma {:induction false} StripLineEnd(s: string)
    requires s != [] && !IsSpace(s[0]) && !IsSpace(s[|s| - 1])
    ensures Strip(s + "\n") == s
  {
    var line := s + "\n";
    assert LeadingSpaces(line) == 0;
    assert line[0..] == line;
    assert line[..|line| - 1] == s;
    assert TrailingSpaces(s) == 0;
    assert TrailingSpaces(line) == 1;
  }

  lemma {:induction false} StripIdempotent(s: string)
    ensures Strip(Strip(s)) == Strip(s)
  {
    StripUnchanged(Strip(s));
  }

  /** `" ".join(ws)`. */
  function JoinSpace(ws: seq<string>): string
  {
    if |ws| == 0 then "" else if |ws| == 1 then ws[0] else ws[0] + " " + JoinSpace(ws[1..])
  }

  /** `s.split(' ')`: the pieces between single spaces, empty pieces included, so the result
      is never empty (`"".split(' ') == [""]`); joining the pieces with spaces gives `s` back. */
  function SplitSpace(s: string): (r: seq<string>)
    ensures |r| >= 1
    ensures forall w :: w in r ==> ' ' !in w
    ensures JoinSpace(r) == s
  {
    if |s| == 0 then [""]
    else
      var rest := SplitSpace(s[1..]);
      if s[0] == ' ' then
        [""] + rest
      else
        assert s == [s[0]] + s[1..];
        [[s[0]] + rest[0]] + rest[1..]
  }

  lemma {:induction false} SplitSpaceNoSpace(w: string)
    requires ' ' !in w
    ensures SplitSpace(w) == [w]
  {
    if |w| > 0 {
      SplitSpaceNoSpace(w[1..]);
      assert [w[0]] + w[1..] == w;
    }
  }

  lemma {:induction false} SplitSpaceAfterWord(w: string, t: string)
    requires ' ' !in w
    ensures SplitSpace(w + " " + t) == [w] + SplitSpace(t)
  {
    if |w| == 0 {
      assert w + " " + t == [' '] + t;
      assert (w + " " + t)[1..] == t;
    } else {
      assert (w + " " + t)[1..] == w[1..] + " " + t;
      SplitSpaceAfterWord(w[1..], t);
      assert [w[0]] + w[1..] == w;
    }
  }

  /** Splitting a space-joined list of space-free words gives the words back. */
  lemma {:induction false} SplitJoinSpace(ws: seq<string>)
    requires |ws| >= 1
    requires forall w :: w in ws ==> ' ' !in w
    ensures SplitSpace(JoinSpace(ws)) == ws
  {
    if |ws| == 1 {
      SplitSpaceNoSpace(ws[0]);
    } else {
      SplitJoinSpace(ws[1..]);
      SplitSpaceAfterWord(ws[0], JoinSpace(ws[1..]));
    }
  }

  /** All word characters of `s`, in order. */
  function WordChars(s: string): string
  {
    if |s| == 0 then "" else (if IsWordChar(s[0]) then [s[0]] else "") + WordChars(s[1..])
  }

  function Concat(ws: seq<string>): string
  {
    if |ws| == 0 then "" else ws[0] + Concat(ws[1..])
  }

  /** `re.split(r"\W+", s)`: the pieces between maximal runs of non-word characters. A run at
      either end leaves an empty first or last piece (`re.split(r"\W+", ",a,") == ["", "a", ""]`),
      and the result is never empty. The pieces hold exactly the word characters of `s`, in order. */
  function SplitNonWord(s: string): (r: seq<string>)
    ensures |r| >= 1
    ensures forall w :: w in r ==> AllWordChars(w)
    ensures Concat(r) == WordChars(s)
  {
    if |s| == 0 then [""]
    else
      var rest := SplitNonWord(s[1..]);
      if IsWordChar(s[0]) then
        PrependToFirstPiece(s[0], rest);
        [[s[0]] + rest[0]] + rest[1..]
      else if |s| > 1 && !IsWordChar(s[1]) then
        rest
      else
        ConcatCons([""] + rest);
        [""] + rest
  }

  lemma {:induction false} PrependToFirstPiece(c: char, rest: seq<string>)
    requires IsWordChar(c) && |rest| >= 1
    requires forall w :: w in rest ==> AllWordChars(w)
    ensures forall w :: w in [[c] + rest[0]] + rest[1..] ==> AllWordChars(w)
    ensures Concat([[c] + rest[0]] + rest[1..]) == [c] + Concat(rest)
  {
    PrependKeepsWordPieces(c, rest);
    PrependConcat(c, rest);
  }

  lemma {:induction false} PrependKeepsWordPieces(c: char, rest: seq<string>)
    requires IsWordChar(c) && |rest| >= 1
    requires forall w :: w in rest ==> AllWordChars(w)
    ensures forall w :: w in [[c] + rest[0]] + rest[1..] ==> AllWordChars(w)
  {
    var r := [[c] + rest[0]] + rest[1..];
    forall w | w in r ensures AllWordChars(w) {
      var k :| 0 <= k < |r| && r[k] == w;
      if k == 0 {
        assert rest[0] in rest;
      } else {
        assert w == rest[k] && rest[k] in rest;
      }
    }
  }

  lemma {:induction false} PrependConcat(c: char, rest: seq<string>)
    requires |rest| >= 1
    ensures Concat([[c] + rest[0]] + rest[1..]) == [c] + Concat(rest)
  {
    var r := [[c] + rest[0]] + rest[1..];
    var tail := Concat(rest[1..]);
    calc {
      Concat(r);
      { assert r[0] == [c] + rest[0] && r[1..] == rest[1..]; }
      ([c] + rest[0]) + tail;
      [c] + (rest[0] + tail);
      [c] + Concat(rest);
    }
  }

  lemma {:induction false} ConcatCons(ws: seq<string>)
    requires |ws| >= 1
    ensures Concat(ws) == ws[0] + Concat(ws[1..])
  {
  }

  /** `list(map(lambda s: s.strip(), ws))`. */
  function StripEach(ws: seq<string>): (r: seq<string>)
    ensures |r| == |ws|
    ensures forall k :: 0 <= k < |ws| ==> r[k] == Strip(ws[k])
  {
    if |ws| == 0 then [] else [Strip(ws[0])] + StripEach(ws[1..])
  }

  /** `list(filter(lambda s: s != "", ws))`. */
  function DropEmpty(ws: seq<string>): (r: seq<string>)
    ensures forall w :: w in r ==> w != "" && w in ws
    ensures Concat(r) == Concat(ws)
  {
    if |ws| == 0 then []
    else if ws[0] == "" then DropEmpty(ws[1..])
    else
      ConcatCons([ws[0]] + DropEmpty(ws[1..]));
      [ws[0]] + DropEmpty(ws[1..])
  }

  /** `DropEmpty` removes the empty strings and keeps the others in order: it distributes over
      concatenation and keeps exactly the non-empty one-element lists. */
  lemma {:induction false} DropEmptyAppend(a: seq<string>, b: seq<string>)
    ensures DropEmpty(a + b) == DropEmpty(a) + DropEmpty(b)
    ensures forall w :: DropEmpty([w]) == (if w == "" then [] else [w])
  {
    DropEmptyConcat(a, b);
    DropEmptySingle();
  }

  lemma {:induction false} DropEmptyConcat(a: seq<string>, b: seq<string>)
    ensures DropEmpty(a + b) == DropEmpty(a) + DropEmpty(b)
  {
    if |a| == 0 {
      assert a + b == b;
    } else {
      assert (a + b)[0] == a[0];
      assert (a + b)[1..] == a[1..] + b;
      DropEmptyConcat(a[1..], b);
    }
  }

  lemma DropEmptySingle()
    ensures forall w :: DropEmpty([w]) == (if w == "" then [] else [w])
  {
    forall w ensures DropEmpty([w]) == (if w == "" then [] else [w]) {
      assert [w][1..] == [];
    }
  }

  /** `s` is made of no word character. */
  predicate NoWordChars(s: string)
  {
    forall k :: 0 <= k < |s| ==> !IsWordChar(s[k])
  }

  /** A separator of `re.split(r"\W+", ...)`: a non-empty run of non-word characters. */
  predicate IsSeparator(g: string)
  {
    g != "" && NoWordChars(g)
  }

  /** `pieces[0] + gaps[0] + pieces[1] + ... + gaps[n - 2] + pieces[n - 1]`. */
  function Interleave(pieces: seq<string>, gaps: seq<string>): string
    requires |pieces| >= 1 && |gaps| == |pieces| - 1
  {
    if |pieces| == 1 then pieces[0]
    else pieces[0] + gaps[0] + Interleave(pieces[1..], gaps[1..])
  }

  /** `pieces` and `gaps` are a way of cutting `s` as `re.split(r"\W+", s)` does: the pieces are
      runs of word characters, the gaps between them non-empty runs of non-word characters, and
      only the first and the last piece may be empty (the gaps are maximal). */
  predicate IsWordSplit(s: string, pieces: seq<string>, gaps: seq<string>)
  {
    |pieces| >= 1 && |gaps| == |pieces| - 1 &&
    (forall w :: w in pieces ==> AllWordChars(w)) &&
    (forall g :: g in gaps ==> IsSeparator(g)) &&
    (forall k :: 0 < k < |pieces| - 1 ==> pieces[k] != "") &&
    Interleave(pieces, gaps) == s
  }

  /** The pieces of `re.split(r"\W+", s)` are the runs of word characters between the maximal
      runs of non-word characters of `s`: there are separators that cut `s` into them. */
  lemma {:induction false} SplitNonWordBreaks(s: string) returns (gaps: seq<string>)
    ensures IsWordSplit(s, SplitNonWord(s), gaps)
  {
    var r := SplitNonWord(s);
    if |s| == 0 {
      gaps := [];
    } else {
      var rest := SplitNonWord(s[1..]);
      var g := SplitNonWordBreaks(s[1..]);
      assert s == [s[0]] + s[1..];
      if IsWordChar(s[0]) {
        gaps := g;
        PrependPiece(s[0], s[1..], rest, g);
      } else if |s| > 1 && !IsWordChar(s[1]) {
        assert rest[0] in rest;
        assert |rest| > 1 && rest[0] == "" by {
          assert s[1..][0] == s[1];
        }
        assert g[0] in g;
        gaps := [[s[0]] + g[0]] + g[1..];
        GlueToGap(s[0], s[1..], rest, g);
      } else {
        gaps := [[s[0]]] + g;
        assert r == [""] + rest;
        assert Interleave(r, gaps) == "" + [s[0]] + Interleave(rest, g) by {
          assert r[1..] == rest && gaps[1..] == g;
        }
        assert forall k :: 0 < k < |r| - 1 ==> r[k] == rest[k - 1];
        assert rest[0] in rest;
        if |s| > 1 {
          assert s[1..][0] == s[1];
          assert rest[0] != "";
        }
      }
    }
  }

  lemma {:induction false} PrependPiece(c: char, t: string, rest: seq<string>, g: seq<string>)
    requires IsWordChar(c) && IsWordSplit(t, rest, g)
    ensures IsWordSplit([c] + t, [[c] + rest[0]] + rest[1..], g)
  {
    var r := [[c] + rest[0]] + rest[1..];
    PrependKeepsWordPieces(c, rest);
    assert forall k :: 0 < k < |r| - 1 ==> r[k] == rest[k];
    if |rest| > 1 {
      assert r[1..] == rest[1..];
    }
  }

  lemma {:induction false} GlueToGap(c: char, t: string, rest: seq<string>, g: seq<string>)
    requires !IsWordChar(c) && IsWordSplit(t, rest, g)
    requires |rest| > 1 && rest[0] == ""
    ensures IsWordSplit([c] + t, rest, [[c] + g[0]] + g[1..])
  {
    var gaps := [[c] + g[0]] + g[1..];
    assert g[0] in g;
    forall x | x in gaps ensures IsSeparator(x) {
      if x != gaps[0] {
        var k :| 0 <= k < |gaps| && gaps[k] == x;
        assert x == g[k] && g[k] in g;
      }
    }
    assert gaps[1..] == g[1..];
  }

  /** Of two words followed by text that does not continue them, the shorter is the longer:
      a run of characters of one class that is followed by the end or by a character of the
      other class is determined by the string. */
  lemma {:induction false} MaximalRunUnique(a: string, x: string, b: string, y: string, word: bool)
    requires a + x == b + y
    requires forall k :: 0 <= k < |a| ==> IsWordChar(a[k]) == word
    requires forall k :: 0 <= k < |b| ==> IsWordChar(b[k]) == word
    requires x == [] || IsWordChar(x[0]) != word
    requires y == [] || IsWordChar(y[0]) != word
    ensures a == b && x == y
  {
    assert a == (a + x)[..|a|] && b == (b + y)[..|b|];
    assert x == (a + x)[|a|..] && y == (b + y)[|b|..];
  }

  /** A string has one cut in the sense of `IsWordSplit`, so the pieces of `SplitNonWord(s)`
      are the only pieces `re.split(r"\W+", s)` can return. */
  lemma {:induction false} WordSplitUnique(s: string, p: seq<string>, g: seq<string>, q: seq<string>, h: seq<string>)
    requires IsWordSplit(s, p, g) && IsWordSplit(s, q, h)
    ensures p == q && g == h
    decreases |p|
  {
    assert p[0] in p && q[0] in q;
    var x := if |p| == 1 then "" else g[0] + Interleave(p[1..], g[1..]);
    var y := if |q| == 1 then "" else h[0] + Interleave(q[1..], h[1..]);
    assert s == p[0] + x && s == q[0] + y;
    if |p| > 1 { assert g[0] in g; assert x[0] == g[0][0]; }
    if |q| > 1 { assert h[0] in h; assert y[0] == h[0][0]; }
    MaximalRunUnique(p[0], x, q[0], y, true);
    if |p| > 1 && |q| > 1 {
      var u, v := Interleave(p[1..], g[1..]), Interleave(q[1..], h[1..]);
      TailIsWordSplit(s, p, g);
      TailIsWordSplit(s, q, h);
      AfterSeparator(u, p[1..], g[1..]);
      AfterSeparator(v, q[1..], h[1..]);
      assert g[0] in g && h[0] in h;
      MaximalRunUnique(g[0], u, h[0], v, false);
      WordSplitUnique(u, p[1..], g[1..], q[1..], h[1..]);
      assert p == [p[0]] + p[1..] && q == [q[0]] + q[1..];
      assert g == [g[0]] + g[1..] && h == [h[0]] + h[1..];
    }
  }

  lemma {:induction false} TailIsWordSplit(s: string, p: seq<string>, g: seq<string>)
    requires IsWordSplit(s, p, g) && |p| > 1
    ensures IsWordSplit(Interleave(p[1..], g[1..]), p[1..], g[1..])
  {
    assert forall w :: w in p[1..] ==> w in p;
    assert forall x :: x in g[1..] ==> x in g;
    assert forall k :: 0 < k < |p| - 2 ==> p[1..][k] == p[k + 1];
  }

  /** What follows a separator starts with a word character, unless it is the empty last piece. */
  lemma {:induction false} AfterSeparator(s: string, p: seq<string>, g: seq<string>)
    requires IsWordSplit(s, p, g)
    requires |p| == 1 || p[0] != ""
    ensures s == [] || IsWordChar(s[0])
  {
    assert p[0] in p;
    if p[0] != "" {
      if |p| > 1 {
        assert Interleave(p, g) == p[0] + (g[0] + Interleave(p[1..], g[1..]));
      }
      assert Interleave(p, g)[0] == p[0][0];
    }
  }

  /** `re.split(r"\W+", s)` is characterized by its cut: a list of pieces is the result exactly
      when separators exist that cut `s` into those pieces. */
  lemma SplitNonWordExactly(s: string, pieces: seq<string>)
    ensures pieces == SplitNonWord(s) <==> exists gaps :: IsWordSplit(s, pieces, gaps)
  {
    var g := SplitNonWordBreaks(s);
    if exists gaps :: IsWordSplit(s, pieces, gaps) {
      var gaps :| IsWordSplit(s, pieces, gaps);
      WordSplitUnique(s, pieces, gaps, SplitNonWord(s), g);
    }
  }

  lemma SplitOfCut(s: string, pieces: seq<string>, gaps: seq<string>)
    requires IsWordSplit(s, pieces, gaps)
    ensures SplitNonWord(s) == pieces
  {
    SplitNonWordExactly(s, pieces);
  }

  /** `gaps[0] + tokens[0] + gaps[1] + ... + tokens[n - 1] + gaps[n]`. */
  function Weave(gaps: seq<string>, tokens: seq<string>): string
    requires |gaps| == |tokens| + 1
  {
    if |tokens| == 0 then gaps[0]
    else gaps[0] + tokens[0] + Weave(gaps[1..], tokens[1..])
  }

  /** `tokens` are the maximal runs of word characters of `s`, in order: `s` is the tokens with
      runs of non-word characters around and between them, those between them non-empty. */
  predicate AreWordRuns(s: string, tokens: seq<string>, gaps: seq<string>)
  {
    |gaps| == |tokens| + 1 &&
    (forall t :: t in tokens ==> t != "" && AllWordChars(t)) &&
    (forall g :: g in gaps ==> NoWordChars(g)) &&
    (forall k :: 0 < k < |tokens| ==> gaps[k] != "") &&
    Weave(gaps, tokens) == s
  }

  lemma {:induction false} WeaveGlue(x: string, gaps: seq<string>, tokens: seq<string>)
    requires |gaps| == |tokens| + 1
    ensures Weave([x + gaps[0]] + gaps[1..], tokens) == x + Weave(gaps, tokens)
  {
    var w := [x + gaps[0]] + gaps[1..];
    assert w[1..] == gaps[1..];
  }

  lemma {:induction false} WordRunsGlueGap(x: string, t: string, d: seq<string>, w: seq<string>)
    requires AreWordRuns(t, d, w) && NoWordChars(x)
    ensures AreWordRuns(x + t, d, [x + w[0]] + w[1..])
  {
    var gaps := [x + w[0]] + w[1..];
    WeaveGlue(x, w, d);
    assert w[0] in w;
    forall y | y in gaps ensures NoWordChars(y) {
      if y != gaps[0] {
        var k :| 0 <= k < |gaps| && gaps[k] == y;
        assert y == w[k] && w[k] in w;
      }
    }
  }

  lemma {:induction false} WordRunsPrependToken(tok: string, x: string, t: string, d: seq<string>, w: seq<string>)
    requires AreWordRuns(t, d, w) && IsSeparator(x)
    requires tok != "" && AllWordChars(tok)
    ensures AreWordRuns(tok + x + t, [tok] + d, ["", x + w[0]] + w[1..])
  {
    var gaps := ["", x + w[0]] + w[1..];
    WordRunsGlueGap(x, t, d, w);
    assert gaps[1..] == [x + w[0]] + w[1..];
    assert ([tok] + d)[1..] == d;
    assert Weave(gaps, [tok] + d) == "" + tok + Weave(gaps[1..], d);
    forall y | y in gaps ensures NoWordChars(y) {
      if y != gaps[0] {
        assert y in gaps[1..];
      }
    }
    forall u | u in [tok] + d ensures u != "" && AllWordChars(u) {
      if u != tok { assert u in d; }
    }
  }

  lemma {:induction false} OnePieceWordRuns(w: string) returns (gaps: seq<string>)
    requires AllWordChars(w)
    ensures AreWordRuns(w, DropEmpty([w]), gaps)
  {
    if w == "" {
      gaps := [""];
    } else {
      gaps := ["", ""];
      assert DropEmpty([w]) == [w] by { assert [w][1..] == []; }
      assert Weave(gaps, [w]) == w by { assert gaps[1..] == [""]; }
    }
  }

  /** Dropping the empty pieces of a cut leaves the maximal runs of word characters. */
  lemma {:induction false} DropEmptyWordRuns(s: string, p: seq<string>, g: seq<string>) returns (gaps: seq<string>)
    requires IsWordSplit(s, p, g)
    ensures AreWordRuns(s, DropEmpty(p), gaps)
    decreases |p|
  {
    assert p[0] in p;
    if |p| == 1 {
      assert p == [p[0]];
      gaps := OnePieceWordRuns(p[0]);
    } else {
      TailIsWordSplit(s, p, g);
      var w := DropEmptyWordRuns(Interleave(p[1..], g[1..]), p[1..], g[1..]);
      gaps := DropEmptyWordRunsStep(s, p, g, w);
    }
  }

  lemma {:induction false} DropEmptyWordRunsStep(s: string, p: seq<string>, g: seq<string>, w: seq<string>) returns (gaps: seq<string>)
    requires IsWordSplit(s, p, g) && |p| > 1
    requires AreWordRuns(Interleave(p[1..], g[1..]), DropEmpty(p[1..]), w)
    ensures AreWordRuns(s, DropEmpty(p), gaps)
  {
    var tail := Interleave(p[1..], g[1..]);
    assert p[0] in p && g[0] in g;
    assert s == p[0] + g[0] + tail;
    if p[0] == "" {
      gaps := [g[0] + w[0]] + w[1..];
      WordRunsGlueGap(g[0], tail, DropEmpty(p[1..]), w);
    } else {
      gaps := ["", g[0] + w[0]] + w[1..];
      WordRunsPrependToken(p[0], g[0], tail, DropEmpty(p[1..]), w);
    }
  }

  /** The tokens of a text are exactly the maximal runs of word characters of the lower-cased
      text, in order, with nothing but non-word characters around and between them. */
  lemma TokenBoundaries(text: string) returns (gaps: seq<string>)
    ensures AreWordRuns(Lower(text), Tokenize(text), gaps)
  {
    TokenizeUnfold(text);
    var g := SplitNonWordBreaks(Lower(text));
    gaps := DropEmptyWordRuns(Lower(text), SplitNonWord(Lower(text)), g);
  }

  /** The tokenizer both readers apply to a document's text:
      `filter(s != "", map(strip, re.split(r"\W+", text.lower())))`. */
  function Tokenize(text: string): seq<string>
  {
    DropEmpty(StripEach(SplitNonWord(Lower(text))))
  }

  /** Every token is non-empty, lower case and made of word characters only, and the tokens
      spell out the word characters of the lower-cased text in their original order. */
  lemma TokensAreWords(text: string)
    ensures forall t :: t in Tokenize(text) ==> t != "" && AllWordChars(t) && NoUpper(t)
    ensures Concat(Tokenize(text)) == WordChars(Lower(text))
  {
    var pieces := SplitNonWord(Lower(text));
    TokenizeUnfold(text);
    LowerFacts(text);
    forall t | t in pieces ensures NoUpper(t) {
      SliceNoUpper(Lower(text), pieces, t);
    }
  }

  /** A string of word characters holds no space. */
  lemma WordHasNoSpace(w: string)
    requires AllWordChars(w)
    ensures ' ' !in w
  {
  }

  lemma {:induction false} WordNotSpace(w: string)
    requires AllWordChars(w)
    ensures w == [] || (!IsSpace(w[0]) && !IsSpace(w[|w| - 1]))
  {
  }

  /** A piece of `SplitNonWord(s)` is a run of characters of `s`, so it has no upper-case letter
      when `s` has none. */
  lemma {:induction false} SliceNoUpper(s: string, pieces: seq<string>, t: string)
    requires pieces == SplitNonWord(s) && t in pieces
    requires NoUpper(s)
    ensures NoUpper(t)
  {
    if |s| > 0 {
      var rest := SplitNonWord(s[1..]);
      forall u | u in rest ensures NoUpper(u) {
        SliceNoUpper(s[1..], rest, u);
      }
      if IsWordChar(s[0]) {
        assert rest[0] in rest;
        if t != [s[0]] + rest[0] {
          assert t in rest[1..];
        }
      } else if |s| > 1 && !IsWordChar(s[1]) {
      } else {
        if t != "" {
          assert t in rest;
        }
      }
    }
  }

  lemma {:induction false} SplitNonWordOfWord(w: string)
    requires AllWordChars(w)
    ensures SplitNonWord(w) == [w]
  {
    if |w| > 0 {
      SplitNonWordOfWord(w[1..]);
      assert [w[0]] + w[1..] == w;
    }
  }

  /** A word followed by a single space and a text that starts with a word character splits
      into that word followed by the pieces of the text. */
  lemma {:induction false} SplitNonWordAfterWord(w: string, t: string)
    requires AllWordChars(w)
    requires |t| > 0 && IsWordChar(t[0])
    ensures SplitNonWord(w + " " + t) == [w] + SplitNonWord(t)
  {
    if |w| == 0 {
      assert w + " " + t == [' '] + t;
      assert (w + " " + t)[1..] == t;
    } else {
      assert (w + " " + t)[1..] == w[1..] + " " + t;
      SplitNonWordAfterWord(w[1..], t);
      assert [w[0]] + w[1..] == w;
    }
  }

  predicate IsToken(w: string)
  {
    w != "" && AllWordChars(w) && NoUpper(w)
  }

  lemma {:induction false} SplitNonWordOfJoin(ws: seq<string>)
    requires |ws| >= 1
    requires forall w :: w in ws ==> IsToken(w)
    ensures SplitNonWord(JoinSpace(ws)) == ws
  {
    assert ws[0] in ws;
    if |ws| == 1 {
      SplitNonWordOfWord(ws[0]);
    } else {
      SplitNonWordOfJoin(ws[1..]);
      var t := JoinSpace(ws[1..]);
      assert ws[1] in ws;
      assert |t| > 0 && t[0] == ws[1][0] by {
        if |ws| > 2 {
          assert t == ws[1] + (" " + JoinSpace(ws[2..]));
        }
      }
      SplitNonWordAfterWord(ws[0], t);
    }
  }

  lemma {:induction false} JoinSpaceNoUpper(ws: seq<string>)
    requires forall w :: w in ws ==> NoUpper(w)
    ensures NoUpper(JoinSpace(ws))
  {
    if |ws| > 1 {
      JoinSpaceNoUpper(ws[1..]);
      assert ws[0] in ws;
    } else if |ws| == 1 {
      assert ws[0] in ws;
    }
  }

  /** The tokenizer, unfolded: `strip` changes no piece of `re.split(r"\W+", ...)`. */
  lemma {:induction false} TokenizeUnfold(text: string)
    ensures Tokenize(text) == DropEmpty(SplitNonWord(Lower(text)))
  {
    var pieces := SplitNonWord(Lower(text));
    forall k | 0 <= k < |pieces| ensures StripEach(pieces)[k] == pieces[k] {
      WordNotSpace(pieces[k]);
      StripUnchanged(pieces[k]);
    }
    assert StripEach(pieces) == pieces;
  }

  /** Tokenizing a space-joined list of tokens gives the tokens back: the tokenizer and
      `" ".join` are inverse on sequences of tokens. */
  lemma {:induction false} TokenizeJoinSpace(ws: seq<string>)
    requires forall w :: w in ws ==> IsToken(w)
    ensures Tokenize(JoinSpace(ws)) == ws
  {
    var text := JoinSpace(ws);
    assert Lower(text) == text by {
      JoinSpaceNoUpper(ws);
      LowerFacts(text);
    }
    TokenizeUnfold(text);
    if |ws| == 0 {
      calc {
        Tokenize(text);
        DropEmpty(SplitNonWord(text));
        { assert SplitNonWord(text) == [""]; }
        DropEmpty([""]);
        ws;
      }
    } else {
      calc {
        Tokenize(text);
        DropEmpty(SplitNonWord(text));
        { SplitNonWordOfJoin(ws); }
        DropEmpty(ws);
        { DropEmptyOfNonEmpty(ws); }
        ws;
      }
    }
  }

  lemma {:induction false} DropEmptyOfNonEmpty(ws: seq<string>)
    requires forall w :: w in ws ==> w != ""
    ensures DropEmpty(ws) == ws
  {
    if |ws| > 0 {
      assert ws[0] in ws;
      assert forall k :: 1 <= k < |ws| ==> ws[k] in ws;
      DropEmptyOfNonEmpty(ws[1..]);
    }
  }

  /** The text `Near-Field.` gives the tokens `near` and `field`: the hyphen and the full stop
      separate words. */
  lemma NearFieldTokens()
    ensures Tokenize("Near-Field.") == ["near", "field"]
  {
    NearFieldLower();
    NearFieldSplit();
    TokenizeUnfold("Near-Field.");
    DropTrailingEmpty();
  }

  lemma NearFieldLower()
    ensures Lower("Near-Field.") == "near-field."
  {
    var low := "near-field.";
    forall k | 0 <= k < |low| ensures Lower("Near-Field.")[k] == low[k] {
      assert LowerChar("Near-Field."[k]) == low[k];
    }
  }

  lemma NearFieldSplit()
    ensures SplitNonWord("near-field.") == ["near", "field", ""]
  {
    NearFieldCut();
    SplitOfCut("near-field.", ["near", "field", ""], ["-", "."]);
  }

  lemma NearFieldCut()
    ensures IsWordSplit("near-field.", ["near", "field", ""], ["-", "."])
  {
    var pieces: seq<string> := ["near", "field", ""];
    var gaps: seq<string> := ["-", "."];
    assert Interleave(pieces, gaps) == "near-field." by {
      assert Interleave(pieces[2..], gaps[2..]) == "";
      assert Interleave(pieces[1..], gaps[1..]) == "field" + "." + "";
    }
    assert AllWordChars("near") && AllWordChars("field") && AllWordChars("");
    assert forall w :: w in pieces ==> w == "near" || w == "field" || w == "";
    assert IsSeparator("-") && IsSeparator(".");
    assert forall g :: g in gaps ==> g == "-" || g == ".";
  }

  lemma DropTrailingEmpty()
    ensures DropEmpty(["near", "field", ""]) == ["near", "field"]
  {
    var pieces: seq<string> := ["near", "field", ""];
    assert pieces[1..] == ["field", ""] && pieces[1..][1..] == [""] && [""][1..] == [];
  }
}
