# São Paulo school-connectivity dashboard: decision logic

This project models the decision logic inside the dashboard of school internet
speeds in São Paulo (`ideb_internet.py`). It covers the sidebar filters, the
speed categories and gauge, and the FAQ-first question-answering assistant.
The rest of the file draws maps and charts and is not modelled. The model has
four modules.

- `Truncation`: `limitar_resposta`. The answer is split on whitespace, the
  first `max_palavras` words are kept and joined with single spaces, and
  `"..."` is glued to the last kept word when words were dropped. Splitting
  (`Words`) and joining (`Join`) are defined on `seq<char>`. Whitespace is the
  set of characters Python's `str.isspace` accepts. The slice
  `palavras[:max_palavras]` follows Python's rules, negative bounds included
  (`SliceTo`).
- `SpeedTiers`: the four speed categories "Muito Baixa", "Baixa", "Média" and
  "Alta". They are cut at the quartiles `q1`, `q2`, `q3`, and each boundary
  belongs to the lower category. The module has the category conditions, the
  if/elif ladder and arrow of the speed gauge, the category mask built by OR-ing
  each selected category, and the global mask (slider range AND category mask).
- `Filters`: the six sidebar filters (DRE, SUBPREF, TIPOESC, BAIRRO,
  DISTRITO, NOMES).
  - `AvailableOptions` narrows a copy of the global mask by every other
    non-empty filter. It returns the sorted distinct values of one column.
  - `InteractiveMask` is the final conjunction.
  - Masks are `seq<bool>`. Python's string order (code point by code point) is
    the predicate `Less`.
- `Assistant`: `buscar_resposta_faq`, `buscar_resposta_hibrida` and the chat
  history.
  - The embedding service and the vector-index search together become one
    function parameter, `nearest: string -> Hit`. It returns a distance and a
    row position.
  - The chat-completion call becomes the parameter
    `generate: (string, int) -> Option<string>`. It takes the question and the
    token budget `2 * max_palavras`, and `None` stands for a call that raised.
  - The session's chat history is the class `ChatSession`, with a `seq` field
    that `Submit` updates.

Edge cases of the code that the model keeps:
- For `max_palavras = 0`, a text with at least one word becomes `"..."` and not the empty
  string. For a negative `max_palavras`, the code drops words from the end and
  always appends `"..."`, even to empty text (`NegativeLimitCountsFromEnd`).
  Re-applying the truncation is idempotent only for a limit of 0 or more.
- "The result ends with `...` iff words were dropped" holds only when the
  text's own last word does not already end with `...`
  (`MarkerIffTruncated`).
- The similarity threshold used by the hybrid answerer is the default 0.5
  of `buscar_resposta_faq`.
- An FAQ answer that is empty after truncation is falsy, so it also falls
  through to the generator (`HybridDecision`).

## Model

| member | source | states |
|---|---|---|
| `Truncation.Words` | ideb_internet.py:1012 | every token of `split()` is non-empty and free of whitespace |
| `Truncation.WordsSplitAtSpace` | ideb_internet.py:1012 | a whitespace character splits the text: the words of `a + c + b` are the words of `a` followed by the words of `b`, so no word spans a space and no run of non-space characters is split |
| `Truncation.WordsKeepNonSpace` | ideb_internet.py:1012 | the tokens of `split()`, laid end to end, are exactly the non-whitespace characters of the text in their original order |
| `Truncation.WordsOfJoin` | ideb_internet.py:1012-1013 | splitting the single-space join of a list of words gives back exactly that list |
| `Truncation.LimitWords` | ideb_internet.py:1011-1013 | when there are more words than the limit, the result ends with `...`; otherwise it is the text's words joined by single spaces |
| `Truncation.LimitWordsKeepsPrefix` | ideb_internet.py:1012-1013 | for a limit of 0 or more, splitting the result gives the first `min(#words, limit)` words of the text in order. When words were dropped the last kept word carries `...`, and a limit of 0 gives just `...` |
| `Truncation.NegativeLimitCountsFromEnd` | ideb_internet.py:1013 | a negative limit keeps all words but the last `-limit` and always ends with `...` |
| `Truncation.LimitWordsIdempotent` | ideb_internet.py:1013 | truncating the result again with the same limit (0 or more) returns it unchanged |
| `Truncation.MarkerIffTruncated` | ideb_internet.py:1013 | if the text's last word does not already end with `...`, the result ends with `...` iff the text has more words than the limit |
| `Truncation.SingleWordUnchanged` | ideb_internet.py:1011-1013 | a single whitespace-free word comes back unchanged for any limit of at least 1 |
| `Truncation.LimitWordsBlank` | ideb_internet.py:1013 | the result is empty iff the text has no words and the limit is not negative |
| `Truncation.WordsWithinLimit` | ideb_internet.py:1013 | with a limit of at least 1 the result never has more words than the limit |
| `SpeedTiers.GaugeTier` | ideb_internet.py:447-454 | for ordered quartiles the ladder's choice satisfies that category's condition |
| `SpeedTiers.CategoriesPartition` | ideb_internet.py:288-293 | for ordered quartiles a speed satisfies a category's condition iff that category is the one the gauge ladder picks, so exactly one holds |
| `SpeedTiers.ColoursDistinct` | ideb_internet.py:428-433 | two categories share a colour iff they are the same category |
| `SpeedTiers.SpeedGauge` | ideb_internet.py:445-457 | for ordered quartiles the colour is that of category c iff the value meets c's condition; the arrow is up iff the value exceeds the reference, down otherwise |
| `SpeedTiers.CategoryMask` | ideb_internet.py:305-318 | a row passes iff no category is selected or its speed meets the condition of some selected category; for ordered quartiles, iff its gauge category is selected |
| `SpeedTiers.GlobalMask` | ideb_internet.py:302-320 | a row passes iff its speed lies in the closed slider range and it passes the category mask |
| `Filters.Insert` | ideb_internet.py:330 | inserting into a strictly sorted list keeps it strictly sorted and adds exactly the new value |
| `Filters.SortedDistinct` | ideb_internet.py:330 | `sorted(unique(...))` is strictly sorted and holds exactly the input's values |
| `Filters.SortedUnique` | ideb_internet.py:330 | two strictly sorted lists with the same elements are equal, so the option list is determined by its value set |
| `Filters.Picked` | ideb_internet.py:330 | `rows.loc[mask, col]` holds exactly the column values of the rows whose mask entry is true |
| `Filters.AvailableOptions` | ideb_internet.py:324-330 | the options are strictly sorted and are exactly the column values of rows that pass the global mask and every non-empty filter other than the excluded one |
| `Filters.OptionsIgnoreExcluded` | ideb_internet.py:327-328 | changing the excluded filter's own selection never changes its option list |
| `Filters.InteractiveMask` | ideb_internet.py:370-382 | a row passes iff it passes the global mask and, for every non-empty selection, its value is in that selection |
| `Filters.ShownSchoolIsOffered` | ideb_internet.py:324-382 | every school that passes the interactive mask has its value of each column among that column's options |
| `Filters.NoSelectionOffersAll` | ideb_internet.py:324-330 | with every selection empty, each row in the global mask contributes its value to the options |
| `Assistant.FirstWithQuestion` | ideb_internet.py:1005 | the position found is the first row whose question equals the given one |
| `Assistant.FaqAnswer` | ideb_internet.py:991-1007 | no answer iff the nearest distance exceeds the threshold. Otherwise the truncated answer of the first row carrying the matched question (as found by `FirstWithQuestion`), which is the matched row itself when questions are unique |
| `Assistant.HybridAnswer` | ideb_internet.py:1017-1056 | above the threshold the result is the generator's reply (budget `2 * maxWords`) truncated; in every case it is either that or a truncated FAQ answer at a distance within the threshold; there is no answer only when the generator call failed |
| `Assistant.HybridDecision` | ideb_internet.py:1018-1020 | for a limit of 0 or more: within the threshold, a matched answer with at least one word is returned truncated and a blank one falls through to the generator; above it, the generator answers |
| `Assistant.AnswerWithinLimit` | ideb_internet.py:1017-1056 | with a limit of at least 1, an answer has at most that many words on either path |
| `Assistant.ExactMatchReturnsAnswer` | ideb_internet.py:1001-1007 | at distance 0, with unique questions and an answer within the limit, the FAQ answer is returned with its whitespace collapsed |
| `Assistant.ChatSession.constructor` | ideb_internet.py:1062-1063 | a new session starts with an empty chat history |
| `Assistant.ChatSession.Submit` | ideb_internet.py:1076-1079 | on a submit with a non-empty question the history gains exactly one turn and earlier turns are unchanged. That turn is `(question, answer)` when the answer was computed, and `(question, "Processando...")` when computing it raised; otherwise the history is unchanged |

## Left out

- Page layout, CSS, the theme toggle and the widgets (Streamlit) are user interface.
- The folium maps, GeoJSON layers, colour maps and plotly charts are rendering. So is the gauge's axis range, including the `"Alta": 100` entry, which only sets that range.
- Loading the school CSV, the shapefile and the GeoJSON is I/O and geospatial library code. That includes CRS reprojection and the randomly simulated speed column.
- Loading the FAQ CSV and the embeddings JSON, and building, normalising and saving the FAISS index, are file I/O and floating-point numerics. The search is the parameter `nearest`.
- The OpenAI embedding and chat-completion calls are network services and are not modelled. A failed chat-completion call is the result `None` of `generate`; the fixed system context sent with the question is part of what `generate` stands for.
- `np.percentile` quartiles and the mean speeds are floating-point statistics and are inputs. Speeds are `real`.
- `@st.cache_data` memoisation is a process-wide cache keyed by the arguments and shared by every session; with the pure `nearest` and `generate` of the model it does not change any result. `st.rerun()` is user interface.
- `SpeedTiers.CategoryMask`: selected categories are the enumeration `Category`. The source's elif chain would silently ignore a string outside the four names, but the widget offers only these four.
- `Assistant.ChatSession.Submit`: a failure of the embedding call is not modelled, since `nearest` is total. Like a failed chat-completion call, it would leave the placeholder turn in the history.
- `Assistant.FaqAnswer`: requires that a search within the threshold reports a row of the FAQ table. When the index holds more vectors than the FAQ table has rows, `iloc` raises `IndexError` or lands on a row the vector did not come from; that case is not modelled.
- `Filters.AvailableOptions`: column values are strings. The option list is built by sorted insertion; `SortedUnique` shows it equals `sorted(unique(...))`.
