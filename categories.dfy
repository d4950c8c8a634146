/** The category table (`CAT_IDS`, `CATEGORY_TO_ID`, `DEFAULT_CAT_ID`) and the category
    resolver that looks each token of a document up in it (`get_category_ids`). */
module Categories {
  import opened Text

  /** The (id, label) pairs of `CAT_IDS`, in the order they are written. Two ids carry two
      labels each: 32 ("Far Field", "Far-Field") and 42 ("Near Field", "Near-Field"). */
  const CatIdPairs: seq<(int, string)> := [
    (24, "Absorber"), (26, "Accuracy"), (28, "Alignment"), (27, "Analysis"),
    (25, "Anechoic Chamber"), (29, "Calibration"), (30, "Compact Range"), (31, "Errors"),
    (32, "Far Field"), (32, "Far-Field"), (33, "Ground Bounce"), (34, "Ground Plane"),
    (35, "Holography"), (36, "History"), (37, "Imaging"), (38, "Impedance"),
    (39, "Instrumentation"), (40, "Intermodulation"), (41, "Materials"), (42, "Near Field"),
    (42, "Near-Field"), (43, "Pattern"), (44, "Phased Array"), (45, "Polarization"),
    (46, "Radar"), (47, "RCS"), (48, "Certification"), (49, "Scale Model"),
    (50, "Tapered Chamber"), (51, "Time Domain")
  ]

  /** The id reported for a document in which no category label is found. */
  const DefaultCatId := 52

  /** The ids whose labels hold a space or a hyphen. */
  const MultiWordIds: set<int> := {25, 30, 32, 33, 34, 42, 44, 49, 50, 51}

  /** A fingerprint of a label that is preserved by lower-casing: its length and its
      lower-cased characters at positions 0, 3 and 4. */
  function LowerKey(s: string): (int, char, char, char)
  {
    (|s|,
     if |s| > 0 then LowerChar(s[0]) else ' ',
     if |s| > 3 then LowerChar(s[3]) else ' ',
     if |s| > 4 then LowerChar(s[4]) else ' ')
  }

  /** Labels that lower-case to the same string have the same fingerprint. */
  lemma LowerKeyOfEqual(a: string, b: string)
    ensures Lower(a) == Lower(b) ==> LowerKey(a) == LowerKey(b)
  {
    if Lower(a) == Lower(b) {
      assert |a| == |Lower(a)| == |Lower(b)| == |b|;
      if |a| > 0 { assert Lower(a)[0] == Lower(b)[0]; }
      if |a| > 3 { assert Lower(a)[3] == Lower(b)[3]; }
      if |a| > 4 { assert Lower(a)[4] == Lower(b)[4]; }
    }
  }

  /** The fingerprints of the labels of `CatIdPairs`, position by position. */
  const Prints: seq<(int, char, char, char)> := [
    (8, 'a', 'o', 'r'), (8, 'a', 'u', 'r'), (9, 'a', 'g', 'n'), (8, 'a', 'l', 'y'),
    (16, 'a', 'c', 'h'), (11, 'c', 'i', 'b'), (13, 'c', 'p', 'a'), (6, 'e', 'o', 'r'),
    (9, 'f', ' ', 'f'), (9, 'f', '-', 'f'), (13, 'g', 'u', 'n'), (12, 'g', 'u', 'n'),
    (10, 'h', 'o', 'g'), (7, 'h', 't', 'o'), (7, 'i', 'g', 'i'), (9, 'i', 'e', 'd'),
    (15, 'i', 't', 'r'), (15, 'i', 'e', 'r'), (9, 'm', 'e', 'r'), (10, 'n', 'r', ' '),
    (10, 'n', 'r', '-'), (7, 'p', 't', 'e'), (12, 'p', 's', 'e'), (12, 'p', 'a', 'r'),
    (5, 'r', 'a', 'r'), (3, 'r', ' ', ' '), (13, 'c', 't', 'i'), (11, 's', 'l', 'e'),
    (15, 't', 'e', 'r'), (11, 't', 'e', ' ')
  ]

  /** For each label, a position holding a space or a hyphen, or -1 when there is none. */
  const Gaps: seq<int> := [
    -1, -1, -1, -1, 8, -1, 7, -1, 3, 3, 6, 6, -1, -1, -1,
    -1, -1, -1, -1, 4, 4, -1, 6, -1, -1, -1, -1, 5, 7, 4
  ]

  lemma PrintsDistinct()
    ensures forall i, j :: 0 <= i < j < |Prints| ==> Prints[i] != Prints[j]
  {
  }

  lemma PrintsAt()
    ensures |Prints| == |CatIdPairs|
    ensures forall i :: 0 <= i < |CatIdPairs| ==> LowerKey(CatIdPairs[i].1) == Prints[i]
  {
    PrintsAtFirst();
    PrintsAtSecond();
    PrintsAtThird();
  }

  lemma PrintsAtFirst()
    ensures forall i :: 0 <= i < 10 ==> LowerKey(CatIdPairs[i].1) == Prints[i]
  {
    forall i | 0 <= i < 10 ensures LowerKey(CatIdPairs[i].1) == Prints[i] {
      assert i == 0 || i == 1 || i == 2 || i == 3 || i == 4 || i == 5 || i == 6 || i == 7 || i == 8 || i == 9;
    }
  }

  lemma PrintsAtSecond()
    ensures forall i :: 10 <= i < 20 ==> LowerKey(CatIdPairs[i].1) == Prints[i]
  {
    forall i | 10 <= i < 20 ensures LowerKey(CatIdPairs[i].1) == Prints[i] {
      assert i == 10 || i == 11 || i == 12 || i == 13 || i == 14 || i == 15 || i == 16 || i == 17 || i == 18 || i == 19;
    }
  }

  lemma PrintsAtThird()
    ensures forall i :: 20 <= i < 30 ==> LowerKey(CatIdPairs[i].1) == Prints[i]
  {
    forall i | 20 <= i < 30 ensures LowerKey(CatIdPairs[i].1) == Prints[i] {
      assert i == 20 || i == 21 || i == 22 || i == 23 || i == 24 || i == 25 || i == 26 || i == 27 || i == 28 || i == 29;
    }
  }

  /** Every id of `CAT_IDS` lies between 24 and 51. */
  lemma IdsInRange()
    ensures forall i :: 0 <= i < |CatIdPairs| ==> 24 <= CatIdPairs[i].0 <= 51
  {
    forall i | 0 <= i < |CatIdPairs| ensures 24 <= CatIdPairs[i].0 <= 51 {
      assert i == 0 || i == 1 || i == 2 || i == 3 || i == 4 || i == 5 || i == 6 || i == 7 ||
             i == 8 || i == 9 || i == 10 || i == 11 || i == 12 || i == 13 || i == 14 ||
             i == 15 || i == 16 || i == 17 || i == 18 || i == 19 || i == 20 || i == 21 ||
             i == 22 || i == 23 || i == 24 || i == 25 || i == 26 || i == 27 || i == 28 ||
             i == 29;
    }
  }

  /** True when `s` holds a character that is not a word character. */
  predicate HasSeparator(s: string)
  {
    exists j :: 0 <= j < |s| && !IsWordChar(s[j])
  }

  /** Every id of `MultiWordIds` has a label with a separator, at the position `Gaps` names. */
  lemma MultiWordLabels()
    ensures forall i :: 0 <= i < |CatIdPairs| && CatIdPairs[i].0 in MultiWordIds ==>
              HasSeparator(CatIdPairs[i].1)
  {
    forall i | 0 <= i < |CatIdPairs| && CatIdPairs[i].0 in MultiWordIds
      ensures HasSeparator(CatIdPairs[i].1)
    {
      assert i == 0 || i == 1 || i == 2 || i == 3 || i == 4 || i == 5 || i == 6 || i == 7 ||
             i == 8 || i == 9 || i == 10 || i == 11 || i == 12 || i == 13 || i == 14 ||
             i == 15 || i == 16 || i == 17 || i == 18 || i == 19 || i == 20 || i == 21 ||
             i == 22 || i == 23 || i == 24 || i == 25 || i == 26 || i == 27 || i == 28 ||
             i == 29;
      assert 0 <= Gaps[i] < |CatIdPairs[i].1| && !IsWordChar(CatIdPairs[i].1[Gaps[i]]);
    }
  }

  /** No two pairs of `CAT_IDS` have labels that lower-case to the same key, so the dict
      comprehension `CATEGORY_TO_ID` loses no pair. */
  lemma LabelsDistinct()
    ensures forall i, j :: 0 <= i < |CatIdPairs| && 0 <= j < |CatIdPairs| && i != j ==>
              Lower(CatIdPairs[i].1) != Lower(CatIdPairs[j].1)
  {
    PrintsAt();
    PrintsDistinct();
    forall i, j | 0 <= i < |CatIdPairs| && 0 <= j < |CatIdPairs| && i != j
      ensures Lower(CatIdPairs[i].1) != Lower(CatIdPairs[j].1)
    {
      if i < j { assert Prints[i] != Prints[j]; } else { assert Prints[j] != Prints[i]; }
      LowerKeyOfEqual(CatIdPairs[i].1, CatIdPairs[j].1);
    }
  }

  /** `CATEGORY_TO_ID`, the dict comprehension `{v.lower(): k for k, v in CAT_IDS}`, taken over
      the pairs by position. */
  function CategoryToId(): map<string, int>
  {
    LabelsDistinct();
    map i | 0 <= i < |CatIdPairs| :: Lower(CatIdPairs[i].1) := CatIdPairs[i].0
  }

  /** Each label of `CAT_IDS`, lower-cased, is a key of the table and maps to its own id. */
  lemma LabelMapsToId(i: nat)
    requires i < |CatIdPairs|
    ensures Lower(CatIdPairs[i].1) in CategoryToId()
    ensures CategoryToId()[Lower(CatIdPairs[i].1)] == CatIdPairs[i].0
  {
    LabelsDistinct();
  }

  /** The table has no other keys: each key is the lower-cased label of a pair of `CAT_IDS`
      and maps to that pair's id. */
  lemma KeyOrigin(k: string) returns (i: nat)
    requires k in CategoryToId()
    ensures i < |CatIdPairs| && Lower(CatIdPairs[i].1) == k && CategoryToId()[k] == CatIdPairs[i].0
  {
    i :| 0 <= i < |CatIdPairs| && Lower(CatIdPairs[i].1) == k;
    LabelMapsToId(i);
  }

  /** Every value of the table is an id between 24 and 51; in particular the default id 52
      is never a value. */
  lemma CategoryIdRange(k: string)
    requires k in CategoryToId()
    ensures 24 <= CategoryToId()[k] <= 51
    ensures CategoryToId()[k] != DefaultCatId
  {
    IdsInRange();
    var i := KeyOrigin(k);
  }

  /** A key made of word characters only is never the label of a multi-word id. */
  lemma WordKeyIsSingleWord(k: string)
    requires k in CategoryToId() && AllWordChars(k)
    ensures CategoryToId()[k] !in MultiWordIds
  {
    MultiWordLabels();
    var i := KeyOrigin(k);
    LowerFacts(CatIdPairs[i].1);
  }

  /** The ids of the table entries the tokens hit. */
  function MatchedIds(words: seq<string>, table: map<string, int>): set<int>
  {
    set w | w in words && w in table :: table[w]
  }

  /** What `get_category_ids` returns for a document with tokens `words`: the ids the tokens
      hit, or the default id alone when they hit none. */
  function CategoryIds(words: seq<string>, table: map<string, int>): set<int>
  {
    if MatchedIds(words, table) == {} then {DefaultCatId} else MatchedIds(words, table)
  }

  /** One more token adds its id, if it has one, and nothing else. */
  lemma MatchedIdsStep(words: seq<string>, n: nat, table: map<string, int>)
    requires n < |words|
    ensures MatchedIds(words[..n + 1], table) ==
              MatchedIds(words[..n], table) + (if words[n] in table then {table[words[n]]} else {})
  {
    assert words[..n + 1] == words[..n] + [words[n]];
    MatchedIdsSnoc(words[..n], words[n], table);
  }

  lemma MatchedIdsSnoc(words: seq<string>, w: string, table: map<string, int>)
    ensures MatchedIds(words + [w], table) ==
              MatchedIds(words, table) + (if w in table then {table[w]} else {})
  {
    forall id | id in MatchedIds(words + [w], table)
      ensures id in MatchedIds(words, table) + (if w in table then {table[w]} else {})
    {
      var v :| v in words + [w] && v in table && table[v] == id;
      if v != w { assert v in words; }
    }
    forall id | id in MatchedIds(words, table) ensures id in MatchedIds(words + [w], table) {
      var v :| v in words && v in table && table[v] == id;
      assert v in words + [w];
    }
    if w in table {
      assert w in words + [w];
    }
  }

  /** `get_category_ids` on the text of a document: tokenize, add the id of every token that
      is a key of `CATEGORY_TO_ID`, and fall back to the default id when none is. */
  method GetCategoryIds(text: string, table: map<string, int>) returns (categories: set<int>)
    ensures categories == CategoryIds(Tokenize(text), table)
  {
    var words := Tokenize(text);
    categories := {};
    for n := 0 to |words|
      invariant categories == MatchedIds(words[..n], table)
    {
      MatchedIdsStep(words, n, table);
      if words[n] in table {
        categories := categories + {table[words[n]]};
      }
    }
    assert words[..|words|] == words;
    if |categories| == 0 {
      categories := categories + {DefaultCatId};
    }
  }

  /** The result is never empty; it holds the default id 52 exactly when no token is a key of
      the table, and then it is `{52}` alone. */
  lemma DefaultExactlyWhenNoMatch(words: seq<string>)
    ensures CategoryIds(words, CategoryToId()) != {}
    ensures CategoryIds(words, CategoryToId()) == {DefaultCatId} <==>
              forall w :: w in words ==> w !in CategoryToId()
    ensures DefaultCatId in CategoryIds(words, CategoryToId()) <==>
              forall w :: w in words ==> w !in CategoryToId()
  {
    var table := CategoryToId();
    if exists w :: w in words && w in table {
      var w :| w in words && w in table;
      assert table[w] in MatchedIds(words, table);
      forall id | id in MatchedIds(words, table) ensures id != DefaultCatId {
        var v :| v in words && v in table && table[v] == id;
        CategoryIdRange(v);
      }
    } else {
      assert MatchedIds(words, table) == {};
    }
  }

  /** An id other than the default is reported exactly when some token is a key for it. */
  lemma ReportedIds(words: seq<string>, table: map<string, int>, id: int)
    requires id != DefaultCatId
    ensures id in CategoryIds(words, table) <==> exists w :: w in words && w in table && table[w] == id
  {
    if exists w :: w in words && w in table && table[w] == id {
      var w :| w in words && w in table && table[w] == id;
      assert id in MatchedIds(words, table);
    }
  }

  /** Only the set of tokens matters: repeating a token, or reordering tokens, changes
      nothing. */
  lemma SameTokensSameIds(words: seq<string>, other: seq<string>, table: map<string, int>)
    requires forall w :: w in words <==> w in other
    ensures CategoryIds(words, table) == CategoryIds(other, table)
  {
    assert MatchedIds(words, table) == MatchedIds(other, table) by {
      forall id | id in MatchedIds(words, table) ensures id in MatchedIds(other, table) {
        var v :| v in words && v in table && table[v] == id;
        assert v in other;
      }
      forall id | id in MatchedIds(other, table) ensures id in MatchedIds(words, table) {
        var v :| v in other && v in table && table[v] == id;
        assert v in words;
      }
    }
  }

  /** Tokens made of word characters only never hit a label with a space or a hyphen. */
  lemma WordTokensMissMultiWordIds(words: seq<string>)
    requires forall w :: w in words ==> AllWordChars(w)
    ensures CategoryIds(words, CategoryToId()) !! MultiWordIds
  {
    var table := CategoryToId();
    forall id | id in MatchedIds(words, table) ensures id !in MultiWordIds {
      var v :| v in words && v in table && table[v] == id;
      WordKeyIsSingleWord(v);
    }
  }

  /** The tokenizer splits at every non-word character, so the ids in `MultiWordIds` are never
      reported for any text. */
  lemma OnlySingleWordLabelsMatch(text: string)
    ensures CategoryIds(Tokenize(text), CategoryToId()) !! MultiWordIds
  {
    TokensAreWords(text);
    WordTokensMissMultiWordIds(Tokenize(text));
  }

  /** Every id reported for a text, other than the default, is the id of a label of `CAT_IDS`
      that lower-cases to word characters only: a label with a space, a hyphen or any other
      separator never contributes, whichever ids carry such labels. */
  lemma ReportedIdsHaveWordLabels(text: string, id: int)
    requires id in CategoryIds(Tokenize(text), CategoryToId()) && id != DefaultCatId
    ensures exists i :: 0 <= i < |CatIdPairs| && CatIdPairs[i].0 == id && AllWordChars(Lower(CatIdPairs[i].1))
  {
    var table := CategoryToId();
    TokensAreWords(text);
    var v :| v in Tokenize(text) && v in table && table[v] == id;
    var i := KeyOrigin(v);
  }

  /** The label at position `i` of `CAT_IDS`, lower-cased to `key`, maps to that pair's id. */
  lemma KeyAt(i: nat, key: string)
    requires i < |CatIdPairs| && Lower(CatIdPairs[i].1) == key
    ensures key in CategoryToId() && CategoryToId()[key] == CatIdPairs[i].0
  {
    LabelMapsToId(i);
  }

  /** The far-field labels lower-cased. */
  lemma FarFieldLabels()
    ensures Lower(CatIdPairs[8].1) == "far field" && Lower(CatIdPairs[9].1) == "far-field"
  {
  }

  /** The near-field labels lower-cased. */
  lemma NearFieldLabels()
    ensures Lower(CatIdPairs[19].1) == "near field" && Lower(CatIdPairs[20].1) == "near-field"
  {
  }

  /** The labels "Radar" and "RCS" lower-cased. */
  lemma RadarAndRcsLabels()
    ensures Lower(CatIdPairs[24].1) == "radar" && Lower(CatIdPairs[25].1) == "rcs"
  {
  }

  /** The two spellings of the far-field label lower-case to keys of id 32, and the two
      spellings of the near-field label to keys of id 42. */
  lemma FieldSynonyms()
    ensures "far field" in CategoryToId() && CategoryToId()["far field"] == 32
    ensures "far-field" in CategoryToId() && CategoryToId()["far-field"] == 32
    ensures "near field" in CategoryToId() && CategoryToId()["near field"] == 42
    ensures "near-field" in CategoryToId() && CategoryToId()["near-field"] == 42
  {
    FarFieldLabels();
    NearFieldLabels();
    KeyAt(8, "far field");
    KeyAt(9, "far-field");
    KeyAt(19, "near field");
    KeyAt(20, "near-field");
  }

  /** The labels "Radar" and "RCS" lower-case to keys of ids 46 and 47. */
  lemma RadarAndRcsKeys()
    ensures "radar" in CategoryToId() && CategoryToId()["radar"] == 46
    ensures "rcs" in CategoryToId() && CategoryToId()["rcs"] == 47
  {
    RadarAndRcsLabels();
    KeyAt(24, "radar");
    KeyAt(25, "rcs");
  }

  /** A document whose tokens include `radar` and `rcs`, any number of times, gets both
      ids 46 and 47. */
  lemma RadarAndRcs(words: seq<string>)
    requires "radar" in words && "rcs" in words
    ensures {46, 47} <= CategoryIds(words, CategoryToId())
  {
    RadarAndRcsKeys();
    var table := CategoryToId();
    assert table["radar"] in MatchedIds(words, table);
    assert table["rcs"] in MatchedIds(words, table);
  }
}
