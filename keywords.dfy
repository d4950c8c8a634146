/** The keyword vocabulary built from the keyword file (`parse_keywords_file`) and the phrase
    matcher that finds vocabulary phrases in a document's tokens (`get_keywords`). */
module Keywords {
  import opened Text

  /** A node of the keyword tree: each word leads to a child node. Reaching a node by a word
      sequence means that sequence is the start of some vocabulary line; whether it is a whole
      phrase is decided by the separate phrase set. */
  datatype Trie = Trie(children: map<string, Trie>)

  const EmptyTrie := Trie(map[])

  /** True when the words of `p` can be followed one by one from `t`. */
  predicate HasPath(t: Trie, p: seq<string>)
  {
    |p| == 0 || (p[0] in t.children && HasPath(t.children[p[0]], p[1..]))
  }

  /** The node reached from `t` by following the words of `p`. */
  function Subtrie(t: Trie, p: seq<string>): Trie
    requires HasPath(t, p)
  {
    if |p| == 0 then t else Subtrie(t.children[p[0]], p[1..])
  }

  /** A path extends by one word exactly when the node it reaches has that word as a child. */
  lemma {:induction false} PathExtend(t: Trie, p: seq<string>, w: string)
    requires HasPath(t, p)
    ensures HasPath(t, p + [w]) <==> w in Subtrie(t, p).children
    ensures HasPath(t, p + [w]) ==> Subtrie(t, p + [w]) == Subtrie(t, p).children[w]
  {
    if |p| == 0 {
      assert p + [w] == [w];
    } else {
      assert (p + [w])[0] == p[0] && (p + [w])[1..] == p[1..] + [w];
      PathExtend(t.children[p[0]], p[1..], w);
    }
  }

  /** Paths are closed under taking prefixes. */
  lemma {:induction false} PathPrefix(t: Trie, p: seq<string>, q: seq<string>)
    requires HasPath(t, p) && q <= p
    ensures HasPath(t, q)
  {
    if |q| > 0 {
      PathPrefix(t.children[p[0]], p[1..], q[1..]);
    }
  }

  /** One pass of `for w in words: subkw = subkw[w]` over the auto-vivifying tree: follow the
      words from the root, creating each missing node on the way. */
  function Insert(t: Trie, ws: seq<string>): Trie
    decreases |ws|
  {
    if |ws| == 0 then t
    else
      var child := if ws[0] in t.children then t.children[ws[0]] else EmptyTrie;
      Trie(t.children[ws[0] := Insert(child, ws[1..])])
  }

  lemma {:induction false} EmptyTriePaths(p: seq<string>)
    ensures HasPath(EmptyTrie, p) <==> p == []
  {
  }

  /** After inserting `ws`, the paths are the old paths and the prefixes of `ws`. */
  lemma {:induction false} InsertPaths(t: Trie, ws: seq<string>, p: seq<string>)
    ensures HasPath(Insert(t, ws), p) <==> HasPath(t, p) || p <= ws
    decreases |ws|
  {
    if |ws| > 0 && |p| > 0 {
      var child := if ws[0] in t.children then t.children[ws[0]] else EmptyTrie;
      if p[0] == ws[0] {
        InsertPaths(child, ws[1..], p[1..]);
        EmptyTriePaths(p[1..]);
        assert p <= ws <==> p[1..] <= ws[1..];
      }
    }
  }

  /** Inserting a word sequence that is already a path changes nothing. */
  lemma {:induction false} InsertExisting(t: Trie, ws: seq<string>)
    requires HasPath(t, ws)
    ensures Insert(t, ws) == t
  {
    if |ws| > 0 {
      InsertExisting(t.children[ws[0]], ws[1..]);
      assert t.children[ws[0] := t.children[ws[0]]] == t.children;
    }
  }

  /** The words of one line of the keyword file: `line.strip().split(' ')`. */
  function PhraseWords(line: string): seq<string>
  {
    SplitSpace(Strip(line))
  }

  /** The tree `parse_keywords_file` builds from the lines of the keyword file, in file order. */
  function BuildTrie(lines: seq<string>): Trie
  {
    if |lines| == 0 then EmptyTrie
    else Insert(BuildTrie(lines[..|lines| - 1]), PhraseWords(lines[|lines| - 1]))
  }

  /** The phrase set `parse_keywords_file` builds: every stripped line. */
  function PhraseSet(lines: seq<string>): set<string>
  {
    set line | line in lines :: Strip(line)
  }

  /** A non-empty word sequence is a path of the built tree exactly when it is a prefix of the
      words of some line. */
  lemma {:induction false} BuildTriePaths(lines: seq<string>, p: seq<string>)
    requires |p| > 0
    ensures HasPath(BuildTrie(lines), p) <==> exists k :: 0 <= k < |lines| && p <= PhraseWords(lines[k])
  {
    if HasPath(BuildTrie(lines), p) {
      var k := BuildTriePathFromLine(lines, p);
    }
    if exists k :: 0 <= k < |lines| && p <= PhraseWords(lines[k]) {
      var k :| 0 <= k < |lines| && p <= PhraseWords(lines[k]);
      LinePrefixIsPath(lines, k, p);
    }
  }

  /** Every non-empty path of the built tree is a prefix of the words of some line `k`. */
  lemma {:induction false} BuildTriePathFromLine(lines: seq<string>, p: seq<string>) returns (k: nat)
    requires |p| > 0 && HasPath(BuildTrie(lines), p)
    ensures k < |lines| && p <= PhraseWords(lines[k])
  {
    if |lines| == 0 {
      EmptyTriePaths(p);
    } else {
      var init := lines[..|lines| - 1];
      InsertPaths(BuildTrie(init), PhraseWords(lines[|lines| - 1]), p);
      if p <= PhraseWords(lines[|lines| - 1]) {
        k := |lines| - 1;
      } else {
        k := BuildTriePathFromLine(init, p);
        assert lines[k] == init[k];
      }
    }
  }

  /** Every prefix of the words of line `k` is a path of the built tree. */
  lemma {:induction false} LinePrefixIsPath(lines: seq<string>, k: nat, p: seq<string>)
    requires k < |lines| && p <= PhraseWords(lines[k])
    ensures HasPath(BuildTrie(lines), p)
  {
    var init := lines[..|lines| - 1];
    InsertPaths(BuildTrie(init), PhraseWords(lines[|lines| - 1]), p);
    if k < |lines| - 1 {
      assert lines[k] == init[k];
      LinePrefixIsPath(init, k, p);
    }
  }

  lemma PhraseSetStep(lines: seq<string>, n: nat)
    requires n < |lines|
    ensures PhraseSet(lines[..n + 1]) == PhraseSet(lines[..n]) + {Strip(lines[n])}
  {
    var before, after := lines[..n], lines[..n + 1];
    assert after == before + [lines[n]];
    forall x | x in PhraseSet(after) ensures x in PhraseSet(before) + {Strip(lines[n])} {
      var line :| line in after && Strip(line) == x;
      if line != lines[n] {
        assert line in before;
      }
    }
    forall x | x in PhraseSet(before) ensures x in PhraseSet(after) {
      var line :| line in before && Strip(line) == x;
      assert line in after;
    }
    assert lines[n] in after;
  }

  /** The words of every phrase in the phrase set form a path of the built tree. */
  lemma PhrasesArePaths(lines: seq<string>, phrase: string)
    requires phrase in PhraseSet(lines)
    ensures HasPath(BuildTrie(lines), SplitSpace(phrase))
  {
    var k :| 0 <= k < |lines| && Strip(lines[k]) == phrase;
    BuildTriePaths(lines, SplitSpace(phrase));
    assert SplitSpace(phrase) <= PhraseWords(lines[k]);
  }

  /** A line that occurs earlier in the keyword file leaves both the tree and the phrase set
      unchanged when it occurs again. */
  lemma DuplicateLine(lines: seq<string>, line: string)
    requires line in lines
    ensures BuildTrie(lines + [line]) == BuildTrie(lines)
    ensures PhraseSet(lines + [line]) == PhraseSet(lines)
  {
    assert (lines + [line])[..|lines|] == lines;
    PhrasesArePaths(lines, Strip(line));
    InsertExisting(BuildTrie(lines), PhraseWords(line));
  }

  /** `parse_keywords_file`, with the lines of the keyword file passed in. */
  method ParseKeywordsFile(lines: seq<string>) returns (keywordsTree: Trie, keyPhrases: set<string>)
    ensures keywordsTree == BuildTrie(lines) && keyPhrases == PhraseSet(lines)
    ensures forall phrase :: phrase in keyPhrases ==> HasPath(keywordsTree, SplitSpace(phrase))
  {
    keywordsTree := EmptyTrie;
    keyPhrases := {};
    for n := 0 to |lines|
      invariant keywordsTree == BuildTrie(lines[..n])
      invariant keyPhrases == PhraseSet(lines[..n])
    {
      var keyPhrase := Strip(lines[n]);
      keyPhrases := keyPhrases + {keyPhrase};
      keywordsTree := Insert(keywordsTree, SplitSpace(keyPhrase));
      assert lines[..n + 1][..n] == lines[..n];
      PhraseSetStep(lines, n);
    }
    assert lines[..|lines|] == lines;
    forall phrase | phrase in keyPhrases ensures HasPath(keywordsTree, SplitSpace(phrase)) {
      PhrasesArePaths(lines, phrase);
    }
  }

  /** The runs `words[i..e]` that start at `i` and end before `hi`, among those the tree holds. */
  function RecordedAt(words: seq<string>, t: Trie, i: nat, hi: nat): set<string>
    requires i < hi <= |words|
  {
    set e | i < e < hi && HasPath(t, words[i..e]) :: JoinSpace(words[i..e])
  }

  /** The runs the tree holds that start before `n` and end before the last token. */
  function RecordedBefore(words: seq<string>, t: Trie, n: nat): set<string>
    requires n <= |words|
  {
    set i, e | 0 <= i < n && i < e < |words| && HasPath(t, words[i..e]) :: JoinSpace(words[i..e])
  }

  /** What the loops of `get_keywords` collect before the final intersection: every run
      `words[i..e]` that is a path of the tree, except that, because the loop guard is
      `i + j < len(words)`, no run that ends at the last token is ever recorded. */
  function Recorded(words: seq<string>, t: Trie): set<string>
  {
    RecordedBefore(words, t, |words|)
  }

  /** The keywords `get_keywords` reports: the recorded runs that are whole phrases. */
  function ReportedKeywords(words: seq<string>, t: Trie, keyPhrases: set<string>): set<string>
  {
    Recorded(words, t) * keyPhrases
  }

  lemma RecordedAtStep(words: seq<string>, t: Trie, i: nat, m: nat)
    requires i < m < |words| && HasPath(t, words[i..m])
    ensures RecordedAt(words, t, i, m + 1) == RecordedAt(words, t, i, m) + {JoinSpace(words[i..m])}
  {
    assert JoinSpace(words[i..m]) in RecordedAt(words, t, i, m + 1);
  }

  lemma RecordedAtStop(words: seq<string>, t: Trie, i: nat, m: nat)
    requires i < m <= |words| && !HasPath(t, words[i..m])
    ensures RecordedAt(words, t, i, |words|) == RecordedAt(words, t, i, m)
  {
    forall e | m <= e < |words| ensures !HasPath(t, words[i..e]) {
      if HasPath(t, words[i..e]) {
        PathPrefix(t, words[i..e], words[i..m]);
      }
    }
  }

  lemma RecordedBeforeStep(words: seq<string>, t: Trie, i: nat)
    requires i < |words|
    ensures RecordedBefore(words, t, i + 1) == RecordedBefore(words, t, i) + RecordedAt(words, t, i, |words|)
  {
    forall x | x in RecordedBefore(words, t, i + 1)
      ensures x in RecordedBefore(words, t, i) + RecordedAt(words, t, i, |words|)
    {
      var s, e :| 0 <= s < i + 1 && s < e < |words| && HasPath(t, words[s..e]) && x == JoinSpace(words[s..e]);
      if s == i {
        assert x in RecordedAt(words, t, i, |words|);
      } else {
        assert x in RecordedBefore(words, t, i);
      }
    }
  }

  /** `get_keywords`, with the document's text passed in: tokenize it, then match. */
  method GetKeywords(text: string, keywordsTree: Trie, keyPhrases: set<string>) returns (found: set<string>)
    ensures found == ReportedKeywords(Tokenize(text), keywordsTree, keyPhrases)
  {
    found := MatchKeywords(Tokenize(text), keywordsTree, keyPhrases);
  }

  /** The loops of `get_keywords` over the token list: from each start `i` it walks the tree
      along `words[i], words[i + 1], ...` while `i + j < len(words)`, recording every run it can
      follow, and then keeps the recorded runs that are whole phrases. */
  method MatchKeywords(words: seq<string>, keywordsTree: Trie, keyPhrases: set<string>) returns (found: set<string>)
    ensures found == ReportedKeywords(words, keywordsTree, keyPhrases)
  {
    var paperKeywords: set<string> := {};
    var i := 0;
    while i < |words|
      invariant 0 <= i <= |words|
      invariant paperKeywords == RecordedBefore(words, keywordsTree, i)
    {
      var j := 1;
      var nextWord := words[i];
      var subtree := keywordsTree;
      while i + j < |words|
        invariant 1 <= j && i + j <= |words|
        invariant HasPath(keywordsTree, words[i..i + j - 1])
        invariant subtree == Subtrie(keywordsTree, words[i..i + j - 1])
        invariant nextWord == words[i + j - 1]
        invariant paperKeywords == RecordedBefore(words, keywordsTree, i) + RecordedAt(words, keywordsTree, i, i + j)
      {
        assert words[i..i + j - 1] + [nextWord] == words[i..i + j];
        PathExtend(keywordsTree, words[i..i + j - 1], nextWord);
        if nextWord in subtree.children {
          RecordedAtStep(words, keywordsTree, i, i + j);
          paperKeywords := paperKeywords + {JoinSpace(words[i..i + j])};
          subtree := subtree.children[nextWord];
          nextWord := words[i + j];
          j := j + 1;
        } else {
          RecordedAtStop(words, keywordsTree, i, i + j);
          break;
        }
      }
      assert paperKeywords == RecordedBefore(words, keywordsTree, i) + RecordedAt(words, keywordsTree, i, |words|);
      RecordedBeforeStep(words, keywordsTree, i);
      i := i + 1;
    }
    found := paperKeywords * keyPhrases;
  }

  /** The reference the matcher falls short of: every run of `words` that is a path of the tree,
      wherever it ends. */
  function Occurrences(words: seq<string>, t: Trie): set<string>
  {
    set i, e | 0 <= i < e <= |words| && HasPath(t, words[i..e]) :: JoinSpace(words[i..e])
  }

  /** The loop guard `i + j < len(words)` makes the matcher behave as if the last token of the
      document were not there: what it records is exactly the occurrences in the document without
      its last token (and nothing at all for an empty document). */
  lemma RecordedIgnoresLastToken(words: seq<string>, t: Trie)
    ensures |words| == 0 ==> Recorded(words, t) == {}
    ensures |words| > 0 ==> Recorded(words, t) == Occurrences(words[..|words| - 1], t)
  {
    if |words| > 0 {
      var front := words[..|words| - 1];
      forall x | x in Recorded(words, t) ensures x in Occurrences(front, t) {
        var i, e :| 0 <= i < e < |words| && HasPath(t, words[i..e]) && x == JoinSpace(words[i..e]);
        assert front[i..e] == words[i..e];
      }
      forall x | x in Occurrences(front, t) ensures x in Recorded(words, t) {
        var i, e :| 0 <= i < e <= |front| && HasPath(t, front[i..e]) && x == JoinSpace(front[i..e]);
        assert front[i..e] == words[i..e];
      }
    }
  }

  /** For the tree and phrase set built from a keyword file and a document whose tokens hold no
      space, a string is reported exactly when it is a phrase of the file whose words occur
      contiguously in the document, ending before the last token. A shorter phrase that starts a
      longer one is reported on its own; it is not hidden by the longer match. */
  lemma {:induction false} KeywordsCharacterized(lines: seq<string>, words: seq<string>, x: string)
    requires forall w :: w in words ==> ' ' !in w
    ensures x in ReportedKeywords(words, BuildTrie(lines), PhraseSet(lines)) <==>
            x in PhraseSet(lines) && exists i, e :: 0 <= i < e < |words| && SplitSpace(x) == words[i..e]
  {
    if x in ReportedKeywords(words, BuildTrie(lines), PhraseSet(lines)) {
      var i, e := KeywordsSound(lines, words, x);
    }
    if x in PhraseSet(lines) && exists i, e :: 0 <= i < e < |words| && SplitSpace(x) == words[i..e] {
      var i, e :| 0 <= i < e < |words| && SplitSpace(x) == words[i..e];
      KeywordsComplete(lines, words, x, i, e);
    }
  }

  /** A reported string is a phrase of the keyword file whose words occur as `words[i..e]`,
      ending before the last token. */
  lemma KeywordsSound(lines: seq<string>, words: seq<string>, x: string) returns (i: nat, e: nat)
    requires forall w :: w in words ==> ' ' !in w
    requires x in ReportedKeywords(words, BuildTrie(lines), PhraseSet(lines))
    ensures x in PhraseSet(lines) && i < e < |words|
    ensures x == JoinSpace(words[i..e]) && SplitSpace(x) == words[i..e]
  {
    i, e :| 0 <= i < e < |words| && HasPath(BuildTrie(lines), words[i..e]) && x == JoinSpace(words[i..e]);
    forall w | w in words[i..e] ensures ' ' !in w {
      assert w in words;
    }
    SplitJoinSpace(words[i..e]);
  }

  /** For the tree and phrase set built from a keyword file, a string is reported for a
      document's text exactly when it is a phrase of the file whose words occur contiguously
      among the text's tokens, ending before the last token. */
  lemma KeywordsOfText(lines: seq<string>, text: string, x: string)
    ensures x in ReportedKeywords(Tokenize(text), BuildTrie(lines), PhraseSet(lines)) <==>
            x in PhraseSet(lines) &&
            exists i, e :: 0 <= i < e < |Tokenize(text)| && SplitSpace(x) == Tokenize(text)[i..e]
  {
    var words := Tokenize(text);
    TokensAreWords(text);
    forall w | w in words ensures ' ' !in w {
      WordHasNoSpace(w);
    }
    KeywordsCharacterized(lines, words, x);
  }

  /** A blank line of the keyword file puts the empty phrase into the phrase set, but no
      token is empty, so the empty phrase is never reported. */
  lemma EmptyPhraseNeverReported(lines: seq<string>, text: string)
    ensures "" !in ReportedKeywords(Tokenize(text), BuildTrie(lines), PhraseSet(lines))
  {
    KeywordsOfText(lines, text, "");
    TokensAreWords(text);
    NoEmptyRun(Tokenize(text));
    assert SplitSpace("") == [""];
  }

  /** No run of a list of non-empty words is the one-word list `[""]`. */
  lemma NoEmptyRun(words: seq<string>)
    requires forall w :: w in words ==> w != ""
    ensures forall i, e :: 0 <= i < e <= |words| ==> words[i..e] != [""]
  {
    forall i, e | 0 <= i < e <= |words| ensures words[i..e] != [""] {
      assert words[i..e][0] == words[i];
      assert words[i] in words;
    }
  }

  /** A phrase of the keyword file whose words occur as `words[i..e]`, ending before the last
      token, is reported. */
  lemma KeywordsComplete(lines: seq<string>, words: seq<string>, x: string, i: nat, e: nat)
    requires x in PhraseSet(lines)
    requires i < e < |words| && SplitSpace(x) == words[i..e]
    ensures x in ReportedKeywords(words, BuildTrie(lines), PhraseSet(lines))
  {
    PhrasesArePaths(lines, x);
    assert x == JoinSpace(words[i..e]);
    assert x in Recorded(words, BuildTrie(lines));
  }

  /** A phrase whose words start a longer phrase is reported on its own wherever the longer
      one is: matches are additive, the longer match does not hide the shorter one. */
  lemma {:induction false} PrefixPhraseNotShadowed(lines: seq<string>, words: seq<string>, short: string, long: string, i: nat, e: nat)
    requires short in PhraseSet(lines) && long in PhraseSet(lines)
    requires i < e < |words| && SplitSpace(long) == words[i..e]
    requires SplitSpace(short) <= SplitSpace(long)
    ensures short in ReportedKeywords(words, BuildTrie(lines), PhraseSet(lines))
  {
    ShorterRun(words, short, long, i, e);
    KeywordsComplete(lines, words, short, i, i + |SplitSpace(short)|);
  }

  lemma ShorterRun(words: seq<string>, short: string, long: string, i: nat, e: nat)
    requires i < e <= |words| && SplitSpace(long) == words[i..e]
    requires SplitSpace(short) <= SplitSpace(long)
    ensures i + |SplitSpace(short)| <= e && SplitSpace(short) == words[i..i + |SplitSpace(short)|]
  {
  }

  /** `{"near field"}` against the tokens `near field`: the phrase ends at the last token and is
      not reported. */
  lemma NearFieldAtEnd()
    ensures ReportedKeywords(["near", "field"], BuildTrie(["near field\n"]), PhraseSet(["near field\n"])) == {}
  {
    assert "near" + " " + "field" == "near field";
    assert "near field" + "\n" == "near field\n";
    TwoWordPhraseAtEnd("near", "field");
  }

  /** A keyword file holding the one phrase `a b`, against the tokens `a b`: the only run the
      matcher records is `a`, so nothing is reported. */
  lemma TwoWordPhraseAtEnd(a: string, b: string)
    requires a != [] && b != [] && ' ' !in a && ' ' !in b
    requires !IsSpace(a[0]) && !IsSpace(b[|b| - 1])
    ensures ReportedKeywords([a, b], BuildTrie([a + " " + b + "\n"]), PhraseSet([a + " " + b + "\n"])) == {}
  {
    var x := a + " " + b;
    var t := BuildTrie([x + "\n"]);
    assert x[0] == a[0] && x[|x| - 1] == b[|b| - 1];
    OneLinePhrase(x);
    RecordedOfTwo(a, b, t);
    assert |x| > |a|;
  }

  /** Two tokens leave the matcher one run it may record: the first token. */
  lemma RecordedOfTwo(a: string, b: string, t: Trie)
    ensures Recorded([a, b], t) <= {a}
  {
    forall y | y in Recorded([a, b], t) ensures y == a {
      var i, e :| 0 <= i < e < 2 && y == JoinSpace([a, b][i..e]);
      assert [a, b][i..e] == [a];
    }
  }

  /** One token more after `near field` and the phrase is reported. */
  lemma NearFieldBeforeEnd()
    ensures "near field" in ReportedKeywords(["near", "field", "probe"], BuildTrie(["near field\n"]), PhraseSet(["near field\n"]))
  {
    assert "near" + " " + "field" == "near field";
    assert "near field" + "\n" == "near field\n";
    TwoWordPhraseBeforeEnd("near", "field", "probe");
  }

  /** A keyword file holding the one phrase `a b`, against the tokens `a b c`: the phrase is
      reported. */
  lemma TwoWordPhraseBeforeEnd(a: string, b: string, c: string)
    requires a != [] && b != [] && ' ' !in a && ' ' !in b
    requires !IsSpace(a[0]) && !IsSpace(b[|b| - 1])
    ensures a + " " + b in ReportedKeywords([a, b, c], BuildTrie([a + " " + b + "\n"]), PhraseSet([a + " " + b + "\n"]))
  {
    var x := a + " " + b;
    assert x[0] == a[0] && x[|x| - 1] == b[|b| - 1];
    OneLinePhrase(x);
    TwoWordSplit(a, b);
    assert [a, b, c][0..2] == [a, b];
    KeywordsComplete([x + "\n"], [a, b, c], x, 0, 2);
  }

  /** A keyword file holding `a` and `a b`, against the tokens `a b c`: both phrases are
      reported, the shorter one alongside the longer one that starts with it. */
  lemma PrefixAndPhraseBeforeEnd(a: string, b: string, c: string)
    requires a != [] && b != [] && ' ' !in a && ' ' !in b
    requires !IsSpace(a[0]) && !IsSpace(a[|a| - 1]) && !IsSpace(b[|b| - 1])
    ensures a in ReportedKeywords([a, b, c], BuildTrie([a + "\n", a + " " + b + "\n"]), PhraseSet([a + "\n", a + " " + b + "\n"]))
    ensures a + " " + b in ReportedKeywords([a, b, c], BuildTrie([a + "\n", a + " " + b + "\n"]), PhraseSet([a + "\n", a + " " + b + "\n"]))
  {
    var x := a + " " + b;
    var lines := [a + "\n", x + "\n"];
    assert x[0] == a[0] && x[|x| - 1] == b[|b| - 1];
    TwoLinePhrases(a, x);
    TwoWordSplit(a, b);
    SplitSpaceNoSpace(a);
    assert [a, b, c][0..2] == [a, b] && [a, b, c][0..1] == [a];
    KeywordsComplete(lines, [a, b, c], x, 0, 2);
    KeywordsComplete(lines, [a, b, c], a, 0, 1);
  }

  lemma TwoLinePhrases(x: string, y: string)
    requires x != [] && !IsSpace(x[0]) && !IsSpace(x[|x| - 1])
    requires y != [] && !IsSpace(y[0]) && !IsSpace(y[|y| - 1])
    ensures PhraseSet([x + "\n", y + "\n"]) == {x, y}
  {
    StripLineEnd(x);
    StripLineEnd(y);
    PhraseSetOfTwo(x + "\n", y + "\n");
  }

  lemma PhraseSetOfTwo(l1: string, l2: string)
    ensures PhraseSet([l1, l2]) == {Strip(l1), Strip(l2)}
  {
    assert [l1, l2][0] == l1 && [l1, l2][1] == l2;
  }

  /** `{"near", "near field"}` against the tokens `near field array`: both are reported. */
  lemma NearAndNearField()
    ensures "near" in ReportedKeywords(["near", "field", "array"], BuildTrie(["near\n", "near field\n"]), PhraseSet(["near\n", "near field\n"]))
    ensures "near field" in ReportedKeywords(["near", "field", "array"], BuildTrie(["near\n", "near field\n"]), PhraseSet(["near\n", "near field\n"]))
  {
    assert "near" + " " + "field" == "near field";
    assert "near" + "\n" == "near\n";
    assert "near field" + "\n" == "near field\n";
    PrefixAndPhraseBeforeEnd("near", "field", "array");
  }

  lemma OneLinePhrase(x: string)
    requires x != [] && !IsSpace(x[0]) && !IsSpace(x[|x| - 1])
    ensures PhraseSet([x + "\n"]) == {x}
  {
    StripLineEnd(x);
  }

  lemma TwoWordSplit(a: string, b: string)
    requires ' ' !in a && ' ' !in b
    ensures SplitSpace(a + " " + b) == [a, b]
  {
    SplitSpaceNoSpace(b);
    SplitSpaceAfterWord(a, b);
  }
}
