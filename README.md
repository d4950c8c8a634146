# paper_metadata: keyword and category matching

This project models the matching engine of `metadata.py`, which catalogues antenna-measurement papers. The engine has four parts:

- **Tokenizer.** Both document readers apply the same pipeline to a document's text: lower-case the text, split it on runs of non-word characters (`re.split("\W+")`), strip each piece, and drop the empty pieces. `Text.Tokenize` models it over ASCII text, together with the string built-ins it uses: `lower`, `strip`, `split(' ')` and `" ".join`.
- **Keyword vocabulary.** `parse_keywords_file` reads the keyword file line by line and builds two things. The phrase set holds every stripped line. The keyword tree follows each line's space-separated words from the root, creating missing nodes on the way. `Keywords.Trie` is the tree: a datatype mapping each word to a child tree. `Keywords.ParseKeywordsFile` is the loop that builds both.
- **Phrase matcher.** `get_keywords` starts at each token and walks the tree along the following tokens while `i + j < len(words)`. It records every run it can follow, then keeps the recorded runs that are whole phrases. `Keywords.MatchKeywords` is that loop and `Keywords.GetKeywords` tokenizes the text first. Because of the loop guard, a run that ends at the last token is never recorded. The model keeps this behaviour: `Keywords.RecordedIgnoresLastToken` shows that the matcher behaves as if the last token were not there.
- **Category resolver.** `get_category_ids` looks every token up in `CATEGORY_TO_ID`, collects the ids found, and returns `{52}` when none is found. `CATEGORY_TO_ID` maps each lower-cased label of `CAT_IDS` to its id. `Categories.CategoryToId` is that table and `Categories.GetCategoryIds` is the loop.

In two places the code does something a reader of the matcher might not expect. The model follows the code in both:

- A blank line of the keyword file is not skipped. Stripping turns it into `""`, which goes into the phrase set, and `"".split(' ') == [""]`, which gives the tree a `""` child. No token is ever empty, so `""` is never reported (`Keywords.EmptyPhraseNeverReported`).
- A phrase is reported only when its occurrence ends before the last token. An occurrence that ends the document is missed (`Keywords.KeywordsCharacterized`, `Keywords.NearFieldAtEnd`).

Multi-word labels of the category table cannot match anything. Tokens hold word characters only, so the labels with a space or a hyphen never match a token. These are ids 25, 30, 32, 33, 34, 42, 44, 49, 50 and 51 (`Categories.OnlySingleWordLabelsMatch`). Category matching is single-word matching, so the model states this as a property rather than a defect.

## Model

| member | source | states |
|---|---|---|
| `Text.LowerFacts` | metadata.py:157 | `lower()` on ASCII turns each letter `A`-`Z` into its own lower-case letter and keeps every other character. So it leaves no upper-case letter, keeps every position a word character exactly when it was one, and leaves text without capitals unchanged. |
| `Text.Lower` | metadata.py:157 | `lower()` keeps the length of the text; its character-by-character behaviour is stated by `Text.LowerFacts`. |
| `Text.Strip` | metadata.py:142 | The result of `strip()` neither starts nor ends with whitespace. |
| `Text.StripIsSlice` | metadata.py:142 | `strip()` returns a contiguous slice of the line with only whitespace on either side. Together with `Text.Strip` this fixes the result. |
| `Text.StripIdempotent` | metadata.py:142 | Stripping a stripped line changes nothing. |
| `Text.StripLineEnd` | metadata.py:141-142 | A line as `readlines()` returns it, with its line feed, strips to its text when that text has no whitespace at either end. |
| `Text.SplitSpace` | metadata.py:145 | `split(' ')` yields at least one piece and no piece holds a space. Joining the pieces with single spaces gives the string back. |
| `Text.JoinSpace` | metadata.py:165 | `" ".join(words)`. `Text.SplitSpace` and `Text.SplitJoinSpace` state that `split(' ')` and it are inverse. |
| `Text.SplitJoinSpace` | metadata.py:165 | `split(' ')` inverts `" ".join` on a non-empty list of words that hold no space. |
| `Text.SplitNonWord` | metadata.py:157 | `re.split("\W+")` yields at least one piece, and every piece is made of word characters. The pieces, concatenated, are exactly the word characters of the input in order. |
| `Text.SplitNonWordBreaks` | metadata.py:157 | The pieces of `re.split("\W+")` are runs of word characters, and non-empty runs of non-word characters separate them. Only the first and last piece may be empty, and the pieces and separators interleaved give the input back. |
| `Text.WordSplitUnique` | metadata.py:157 | A string has only one such cut into pieces and separators. |
| `Text.SplitNonWordExactly` | metadata.py:157 | A list is the result of `re.split("\W+", s)` exactly when separators exist that cut `s` into it. |
| `Text.DropEmptyAppend` | metadata.py:155 | `filter(lambda s: s != "", ...)` distributes over concatenation and keeps exactly the non-empty one-element lists, so it removes the empty strings and keeps the rest in order. |
| `Text.StripEach` | metadata.py:156 | `map(lambda s: s.strip(), ...)`: one stripped string per input string, in order. |
| `Text.DropEmpty` | metadata.py:155 | `filter(lambda s: s != "", ...)`. It keeps only non-empty strings of its input, and its pieces concatenate to the same text as the input's. `Text.DropEmptyAppend` states that it removes the empty strings and keeps the rest in order. |
| `Text.TokensAreWords` | metadata.py:155-157 | Every token is non-empty, lower case and made of word characters. The tokens spell out the word characters of the lower-cased text in order. |
| `Text.Tokenize` | metadata.py:155-157 | The tokenizer pipeline. What its tokens are is stated by `Text.TokensAreWords` and `Text.TokenBoundaries`. |
| `Text.TokenBoundaries` | metadata.py:155-157 | The tokens are exactly the maximal runs of word characters of the lower-cased text, in order. Only non-word characters lie around and between them, and at least one lies between two tokens. |
| `Text.NearFieldTokens` | metadata.py:155-157 | The text `Near-Field.` gives the tokens `near` and `field`. |
| `Text.TokenizeJoinSpace` | metadata.py:155-157 | Tokenizing a space-joined list of tokens gives the same list back. |
| `Keywords.Insert` | metadata.py:144-146 | The walk that follows a line's words from the root, creating missing nodes. What it builds is stated by `Keywords.InsertPaths` and `Keywords.InsertExisting`. |
| `Keywords.InsertPaths` | metadata.py:144-146 | After walking a word list into the tree, the paths of the tree are its old paths plus the prefixes of that word list. |
| `Keywords.InsertExisting` | metadata.py:144-146 | Walking a word list that is already a path leaves the tree unchanged. |
| `Keywords.Trie` | metadata.py:126-127 | The nested auto-vivifying `defaultdict` as a tree value, each word leading to a child tree. What the built tree holds is stated by `Keywords.InsertPaths` and `Keywords.BuildTriePaths`. |
| `Keywords.PhraseWords` | metadata.py:142-145 | `key_phrase.strip().split(' ')`, the words walked into the tree for one line. `Keywords.BuildTriePaths` states that the tree's paths are exactly the prefixes of these word lists. |
| `Keywords.BuildTrie` | metadata.py:140-146 | The tree built from all lines in file order. Its paths are stated by `Keywords.BuildTriePaths`. |
| `Keywords.PhraseSet` | metadata.py:140-143 | The set of stripped lines. `Keywords.PhrasesArePaths` and `Keywords.DuplicateLine` state its properties. |
| `Keywords.BuildTriePaths` | metadata.py:140-146 | A non-empty word sequence is a path of the built tree exactly when it is a prefix of `line.strip().split(' ')` for some line. |
| `Keywords.PhrasesArePaths` | metadata.py:140-146 | The words of every phrase in the phrase set form a path of the tree. |
| `Keywords.DuplicateLine` | metadata.py:140-146 | A line that repeats an earlier line changes neither the tree nor the phrase set. |
| `Keywords.ParseKeywordsFile` | metadata.py:125-148 | The loop builds the tree and the phrase set that the lines define, and every phrase it adds is a path of the tree. |
| `Keywords.MatchKeywords` | metadata.py:159-172 | The nested loops return the runs they can follow in the tree and end before the last token, restricted to whole phrases. |
| `Keywords.GetKeywords` | metadata.py:151-172 | On a document's text, the matcher returns the keywords of the text's tokens. |
| `Keywords.Recorded` | metadata.py:159-168 | The runs the loops of `get_keywords` record before the intersection. `Keywords.RecordedIgnoresLastToken` characterizes them. |
| `Keywords.ReportedKeywords` | metadata.py:159-172 | The recorded runs that are whole phrases. `Keywords.KeywordsCharacterized` characterizes them. |
| `Keywords.RecordedIgnoresLastToken` | metadata.py:163 | The guard `i + j < len(words)` makes the recorded runs exactly the tree paths occurring in the document without its last token. An empty document records nothing. |
| `Keywords.KeywordsCharacterized` | metadata.py:159-172 | A string is reported exactly when it is a phrase of the keyword file whose words occur contiguously in the document and end before the last token. |
| `Keywords.KeywordsSound` | metadata.py:164-172 | A reported string is a phrase of the file. It equals `" ".join(words[i:e])` for some run with `i < e < len(words)`. |
| `Keywords.KeywordsComplete` | metadata.py:159-172 | A phrase of the file whose words occur as `words[i:e]` with `e < len(words)` is reported. |
| `Keywords.KeywordsOfText` | metadata.py:151-172 | The same characterization holds for a document's text and its tokens. |
| `Keywords.PrefixPhraseNotShadowed` | metadata.py:163-168 | A phrase whose words start a longer phrase is reported wherever the longer one occurs before the last token, so a longer match does not hide it. |
| `Keywords.EmptyPhraseNeverReported` | metadata.py:142-143 | The empty phrase that a blank line puts into the phrase set is never reported. |
| `Keywords.TwoWordPhraseAtEnd` | metadata.py:163 | A keyword file holding one two-word phrase `a b`, matched against the tokens `a b`, reports nothing. |
| `Keywords.TwoWordPhraseBeforeEnd` | metadata.py:163-165 | The same phrase, matched against the tokens `a b c`, is reported. |
| `Keywords.NearFieldAtEnd` | metadata.py:163 | With the vocabulary `near field` and the tokens `near field`, nothing is reported, because the phrase ends at the last token. |
| `Keywords.NearFieldBeforeEnd` | metadata.py:163-165 | With one more token after `near field`, the phrase is reported. |
| `Keywords.PrefixAndPhraseBeforeEnd` | metadata.py:159-172 | A keyword file holding `a` and `a b`, matched against the tokens `a b c`, reports both phrases: the shorter one is not hidden by the longer one. |
| `Keywords.NearAndNearField` | metadata.py:159-172 | With the vocabulary `near` and `near field` and the tokens `near field array`, both `near` and `near field` are reported. |
| `Categories.LabelsDistinct` | metadata.py:23-54 | No two labels of `CAT_IDS` lower-case to the same key, so the table comprehension loses no pair. |
| `Categories.LabelMapsToId` | metadata.py:58 | Every label of `CAT_IDS`, lower-cased, is a key of `CATEGORY_TO_ID` and maps to its own id. |
| `Categories.KeyOrigin` | metadata.py:58 | Every key of `CATEGORY_TO_ID` is a lower-cased label of `CAT_IDS` and maps to that label's id. |
| `Categories.CategoryIdRange` | metadata.py:23-56 | Every value of the table lies between 24 and 51, so it is never the default id 52. |
| `Categories.FieldSynonyms` | metadata.py:23-58 | `"far field"` and `"far-field"` both map to 32, and `"near field"` and `"near-field"` both map to 42. |
| `Categories.CatIdPairs` | metadata.py:23-54 | The thirty (id, label) pairs of `CAT_IDS`. `Categories.LabelsDistinct` and `Categories.CategoryIdRange` state their properties. |
| `Categories.DefaultCatId` | metadata.py:56 | The default id 52. `Categories.CategoryIdRange` states that no label maps to it. |
| `Categories.CategoryToId` | metadata.py:58 | The comprehension `{v.lower(): k for k, v in CAT_IDS}`. `Categories.LabelMapsToId` and `Categories.KeyOrigin` characterize it. |
| `Categories.GetCategoryIds` | metadata.py:175-190 | The loop returns the ids of the tokens that are keys of the table, or `{52}` when there are none. |
| `Categories.MatchedIds` | metadata.py:181-185 | The ids of the tokens that are keys of the table, each once. `Categories.ReportedIds` characterizes them. |
| `Categories.CategoryIds` | metadata.py:181-188 | The matched ids, or `{52}` when there are none. `Categories.DefaultExactlyWhenNoMatch` and `Categories.ReportedIds` characterize it. |
| `Categories.DefaultExactlyWhenNoMatch` | metadata.py:183-188 | The result is never empty. It contains 52 exactly when no token is a key of the table, and then it is `{52}`. |
| `Categories.ReportedIds` | metadata.py:183-185 | An id other than 52 is in the result exactly when some token is a key that maps to it. |
| `Categories.SameTokensSameIds` | metadata.py:183-185 | The result depends only on which tokens occur. Repetition and order do not matter. |
| `Categories.OnlySingleWordLabelsMatch` | metadata.py:177-185 | No text ever yields an id whose labels all contain a space or a hyphen. |
| `Categories.ReportedIdsHaveWordLabels` | metadata.py:23-58 | Every id reported for a text, other than 52, is the id of a label of `CAT_IDS` that lower-cases to word characters only. This holds whichever ids carry labels with separators. |
| `Categories.RadarAndRcs` | metadata.py:183-185 | A document whose tokens include `radar` and `rcs` gets both ids 46 and 47. |

## Left out

- Reading files is left out: `open`, `read` and `readlines` are I/O. `ParseKeywordsFile` takes the lines of the keyword file, and `GetKeywords` and `GetCategoryIds` take the document's text.
- `GetCategoryIds` takes the table as a parameter rather than reading the module-level `CATEGORY_TO_ID`. The lemmas about the result are stated for `CategoryToId()`.
- `untree` (metadata.py:129-135) is left out. It only converts the nested `defaultdict` into a plain `dict`, and the tree is a datatype here.
- `Keywords.ParseKeywordsFile` does not model the in-place walk `subkw = subkw[w]` (metadata.py:144-146), which creates nested dictionaries as it goes. The model builds the same tree as a value with the function `Insert`. Sharing between the nested dictionaries is not modelled, because nothing else holds a reference to them.
- `Categories.CategoryToId` takes the pairs of `CAT_IDS` in the order they are written, while Python iterates over a set. The order cannot matter, because the lower-cased labels are distinct (`LabelsDistinct`).
- `extract_metadata` (metadata.py:86-122) is left out: it parses TEI XML with lxml, a foreign library.
- `generate_intermediate_files` (metadata.py:65-83) is left out: it runs `pdftotext` and the GROBID jar as subprocesses.
- `get_pdf_filenames`, `build_metadata_dict`, `build_i4a_upload` and the `__main__` block (metadata.py:61-62, 194-253) are left out: they list directories, write CSV, format dates and orchestrate.
- The tokenizer and `strip` are modelled over ASCII only. `\w` is `[A-Za-z0-9_]` and `lower()` maps only `A`-`Z`. Whitespace is tab through carriage return, the separators 0x1C-0x1F, and space. Unicode letters and Unicode whitespace are not modelled.
