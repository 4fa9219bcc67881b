# Text embedder: whitespace normaliser and embedding loop

This project models the `Embedder` of a small CSV-to-vector-index pipeline in
Dafny. It covers `src/utils/embedder.py`, in module `Embedder` in
`embedder.dfy`, and its two pieces of local logic:

- `_clean_text` is a whitespace normaliser, `re.sub(r'\s+', ' ', text).strip()`.
  It is modelled as the pure function `CleanText`. `Collapse` replaces each
  maximal run of whitespace with a single space. `Strip` removes the leading
  and trailing whitespace, using `LeadingWhitespace` and `TrailingWhitespace`.
- `embed_texts` is the loop that optionally cleans each text, encodes it with
  the model and collects the results. It is modelled as the method
  `EmbedTexts`, with a `for` loop over the texts. As in the source, `clean`
  defaults to `true`. The text handed to the model is `Prepared(text, clean)`,
  which is `CleanText(text)` when `clean` is set and `text` unchanged
  otherwise.

The sentence-embedding model is a parameter. `encode: string -> Result<E>` is
an arbitrary function that either returns an embedding of an opaque type `E`
or fails with an error message. A failure stands for the exception that
`model.encode` raises. `embed_texts` catches it, logs it and raises it again,
so the method returns that same error.

Whitespace is Python's: the class `\s` of a `str` pattern and `str.strip()`
with no argument both use the Unicode whitespace test, and so does
`IsWhitespace`. That test covers TAB, LF, VT, FF and CR, U+001C to U+001F,
SPACE, U+0085, U+00A0, U+1680, U+2000 to U+200A, U+2028, U+2029, U+202F,
U+205F and U+3000. So `\s` covers far more than the ASCII space, tab and
newline.

To state what cleaning preserves, the model uses a reference view of a text:
`Words(s)`, the maximal runs of non-whitespace characters in order (Python's
`s.split()`), and `JoinWords`, which joins words with single spaces
(`" ".join`). A text is *clean* (`IsClean`) when three things hold:

- it neither starts nor ends with whitespace;
- every whitespace character in it is `' '`;
- no two whitespace characters are adjacent.

## Model

| member | source | states |
|---|---|---|
| Embedder.IsWhitespace | src/utils/embedder.py:26 | definition: Python's Unicode whitespace test on one character. Both `\s` and `strip()` use it; the code points are listed above |
| Embedder.TrimStart | src/utils/embedder.py:26 | definition: the front half of `strip()`, the text after its leading whitespace. `LeadingWhitespace` states how much is removed, and `LeadingWhitespaceUnique` that this amount is the only one fitting that description |
| Embedder.TrimEnd | src/utils/embedder.py:26 | definition: the back half of `strip()`, the text before its trailing whitespace. `TrailingWhitespace` and `TrailingWhitespaceUnique` state where the cut falls |
| Embedder.Strip | src/utils/embedder.py:26 | definition: `strip()` with no argument, trimming both ends. `StripClean` states that it turns a single-spaced text into a clean one |
| Embedder.Words | src/utils/embedder.py:26 | reference definition of `str.split()`: the maximal runs of non-whitespace characters, in order. Its properties are stated by `WordsAreWords`, `WordsEmpty` and `WordsOfJoin` |
| Embedder.JoinWords | src/utils/embedder.py:26 | reference definition of `" ".join(ws)`. `WordsOfJoin` states that splitting the join gives back the words, and `CleanIsJoinOfWords` that a clean text is the join of its words |
| Embedder.Prepared | src/utils/embedder.py:41-42 | definition: the text passed to `encode` is `_clean_text(text)` when `clean` is set and `text` unchanged otherwise. `EmbedTexts` states its results in terms of it |
| Embedder.CleanText | src/utils/embedder.py:23-26 | the cleaned text neither starts nor ends with whitespace, every whitespace character in it is a single `' '` with no whitespace after it, and it is no longer than the input |
| Embedder.Collapse | src/utils/embedder.py:26 | `re.sub(r'\s+', ' ', s)` is no longer than `s`, is empty exactly when `s` is, and starts with whitespace exactly when `s` does |
| Embedder.CollapseSingleSpaced | src/utils/embedder.py:26 | after `re.sub(r'\s+', ' ', s)` every whitespace character is `' '` and no two whitespace characters are adjacent |
| Embedder.LeadingWhitespace | src/utils/embedder.py:26 | the part that `strip` removes at the front is the maximal whitespace prefix: all of it is whitespace and the next character is not |
| Embedder.TrailingWhitespace | src/utils/embedder.py:26 | the part that `strip` removes at the back is the maximal whitespace suffix: all of it is whitespace and the character before it is not |
| Embedder.StripClean | src/utils/embedder.py:26 | `strip` applied to a single-spaced text gives a clean text that is no longer than the input |
| Embedder.WordLength | src/utils/embedder.py:26 | a word ends at the first whitespace character or at the end of the text |
| Embedder.WordsAreWords | src/utils/embedder.py:26 | every element of `Words(s)` is a non-empty run of non-whitespace characters |
| Embedder.WordsEmpty | src/utils/embedder.py:26 | a text has no words exactly when it consists of whitespace only |
| Embedder.TrimEndCollapse | src/utils/embedder.py:26 | on a text that starts with a non-whitespace character, collapsing and then trimming the end gives the words joined by single spaces |
| Embedder.CleanTextIsJoinedWords | src/utils/embedder.py:26 | `_clean_text(t) == " ".join(t.split())` for every text |
| Embedder.WordsOfJoin | src/utils/embedder.py:26 | splitting words that were joined with single spaces gives back exactly those words |
| Embedder.CleanTextKeepsWords | src/utils/embedder.py:26 | the cleaned text has exactly the words of the input, in the same order |
| Embedder.CleanIsJoinOfWords | src/utils/embedder.py:26 | a clean text is the join of its own words with single spaces |
| Embedder.CleanTextFixedPoint | src/utils/embedder.py:26 | `_clean_text` leaves a text unchanged exactly when the text is clean |
| Embedder.CleanTextIdempotent | src/utils/embedder.py:26 | `_clean_text(_clean_text(t)) == _clean_text(t)` |
| Embedder.CleanTextEmpty | src/utils/embedder.py:26 | `_clean_text(t)` is the empty string exactly when `t` is empty or all whitespace |
| Embedder.WordsOfThree | src/utils/embedder.py:26 | three words with whitespace around and between them split into exactly those three words |
| Embedder.CleanTextThreeWords | src/utils/embedder.py:26 | runs of whitespace between three words become single spaces, and runs at either end are dropped |
| Embedder.CleanTextExample | src/utils/embedder.py:26 | `_clean_text("a   b\n\tc") == "a b c"` |
| Embedder.EmbedTexts | src/utils/embedder.py:28-49 | the call succeeds exactly when every encode call succeeds. On success it returns one embedding per text, in input order, and the i-th is the encoding of the i-th text, cleaned exactly when `clean` is set, which it is by default. On failure it returns the error of the first text whose encoding failed, with no partial list. An empty list of texts gives an empty list |

## Left out

- Loading the SentenceTransformer model (src/utils/embedder.py:14-21) is left out because it is a foreign call. The model enters only as the `encode` parameter.
- The numerical content of the embeddings and the `np.array` conversion (src/utils/embedder.py:44) are left out because they are floating-point library work. Embeddings are values of an opaque type `E`, and the conversion is taken to be the identity that cannot fail.
- The logging calls (src/utils/embedder.py:18, 20, 45, 48) are left out because they are output only.
- The `show_progress_bar` argument to `encode` is left out because it affects only the display.
- EmbedTexts: an exception is modelled as the error message it carries, and a failing encode is the only failure source. `_clean_text`, `append` and the conversion are taken never to raise.
- EmbedTexts: `encode` is a total, deterministic function of the text: the same text always gives the same outcome, so an error that occurs on one call and not on another is not modelled.
- Python strings may hold lone surrogate code points (U+D800 to U+DFFF), which Dafny's `char` cannot represent. Such strings are outside the model; they are all non-whitespace to Python.
- `model_name` and its default from the settings are left out because they only choose which model to load.
- src/utils/vector_connection.py, src/components/extract.py and src/config/setting.py are not part of this model. They pass calls through to the vector-database client, pandas and environment-based settings, with no local logic.
