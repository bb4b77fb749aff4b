# Word-frequency pipeline of the article analyser, in Dafny

The application fetches one web page, strips its markup, and counts the words of its visible text. It then draws the counts as a chart of the user's choice and shows a table of the twenty most frequent words. This project models the pipeline from the page text onward. It covers the punctuation-and-whitespace normaliser `clean_text`, the token filter of `word_segmentation`, and the `Counter` built by `count_word_frequency`. It also covers the slider's minimum-occurrence filter, the ranking (`sorted(..., reverse=True)[:20]` and `most_common(20)`), and the data each chart adapter hands to its plotting library. Everything is pure functions and lemmas, because the source computes these stages with comprehensions, `split`/`join`, slicing, `sorted` and `Counter`, and changes nothing in place.

Modules, in pipeline order:

- `Seqs` (seqs.dfy): order-preserving filtering (the shape of `[x for x in s if p(x)]`), subsequences, repetition-free sequences and first occurrences. `Option` lives here too.
- `Normalizer` (normalize.dfy): the exact removal set. This is `string.punctuation` plus the 77 code points listed in `clean_text`, among them U+1F4D0, U+2697 with the variation selector U+FE0E, and a second `.`. `IsSpace` is Python's `str.isspace` table. The module also holds `str.split()`, `' '.join` and `clean_text`.
- `Tokenizer` (tokens.dfy): the `len(word) > 1 and not word.isspace()` filter over the segmenter's tokens.
- `Frequency` (frequency.dfy): the insertion-ordered counter, as a key sequence plus a `map<string, nat>`. It holds the counting function and the threshold filter of line 200.
- `Ranking` (ranking.dfy): a stable sort by descending count (insertion sort, which keeps ties in insertion order, as Python's sort does with `reverse=True`) and the top-n prefix.
- `Charts` (charts.dfy): series for the line and scatter charts, bars, pie slices, the radar schema and values, and heat-map cells.
- `Pipeline` (pipeline.dfy): how lines 192-223 wire the stages together. The chart gets the FILTERED counter (line 215); the table ranks the UNFILTERED one (line 223).
- `Scenarios` (scenarios.dfy): the worked example "the the the cat cat dog", stated for any three different words.

Two behaviours of the code are easy to misread, and the model follows the code in both:

- One could expect the ranked bar chart to bypass the threshold filter. The code passes `filtered_words` to every adapter, the bar chart included (line 215). Only the table uses the unfiltered counter (line 223). `Pipeline.BarRespectsThreshold` and `Pipeline.BarMatchesTableAtThresholdOne` state the behaviour as written.
- One could expect every adapter to return "no chart" for an empty input. In the code only the radar adapter returns `None` to signal an empty input (line 149). The others build an empty chart. The bar adapter returns `None` for every input, because it draws the figure itself through `st.pyplot` (line 90). `Pipeline.Draw` treats the bars as drawn and nothing else as absent except an empty radar.

## Model

| member | source | states |
|---|---|---|
| Normalizer.RemovePunctuation | app.py:40-41 | No character of the removal set is left. The result is a subsequence of the input. Every other character keeps exactly its number of occurrences; removed ones have none. |
| Normalizer.Split | app.py:42 | `str.split()` yields only non-empty fields free of whitespace. |
| Normalizer.SplitAtSpace | app.py:42 | `str.split()` cuts at every whitespace character: for a whitespace `c`, the fields of `a + c + b` are the fields of `a` followed by those of `b`. With `SplitOneField` and the empty case, this makes the fields exactly the maximal whitespace-free runs, however long the whitespace between them. |
| Normalizer.SplitOneField | app.py:42 | A non-empty, whitespace-free word splits into exactly itself. |
| Normalizer.Join | app.py:42 | `' '.join(ws)` has the fields' total length plus one separator between each two neighbouring fields. |
| Normalizer.SplitJoin | app.py:42 | Splitting `' '.join(fields)` gives back the fields, for non-empty whitespace-free fields. |
| Normalizer.ConcatSplit | app.py:42 | The fields of `s.split()`, laid end to end, are exactly the non-whitespace characters of `s`, in order. |
| Normalizer.FilterJoin | app.py:42 | `' '.join` adds nothing but whitespace: the non-whitespace characters of the joined string are the fields laid end to end. |
| Normalizer.JoinCollapsed | app.py:42 | Joining non-empty whitespace-free fields gives a collapsed string. Every whitespace character in it is an ASCII space with a non-whitespace character on each side, so there is no leading, trailing or repeated separator. |
| Normalizer.JoinSplitCollapsed | app.py:42 | A collapsed string is unchanged by `' '.join(s.split())`. |
| Normalizer.CleanText | app.py:39-43 | The output has no punctuation character and is collapsed. Its words (`split()`) are exactly the words of the text with punctuation deleted. With `JoinSplitCollapsed` these facts fix the output: every inner whitespace run becomes one space, and leading and trailing whitespace is dropped. |
| Normalizer.CleanTextKeepsWordChars | app.py:40-42 | The non-whitespace characters of the output are exactly the input's characters that are neither punctuation nor whitespace, in their original order. |
| Normalizer.CleanTextFixesCollapsed | app.py:41-43 | A punctuation-free, collapsed string is a fixed point of `clean_text`. |
| Normalizer.CleanTextIdempotent | app.py:39-43 | `clean_text(clean_text(t)) == clean_text(t)` for every text. |
| Tokenizer.BlankIffNoFields | app.py:20 | `word.isspace()` holds exactly when the word is non-empty and `word.split()` finds no field. The whitespace table `IsSpace` is thus the same for the token filter (line 20) and for `split()` (line 42). |
| Tokenizer.WordSegmentation | app.py:18-21 | Every output token has length at least 2 and is not all whitespace. The output is a subsequence of the segmenter's tokens. A kept token occurs exactly as often as the segmenter produced it; a dropped one does not occur. |
| Frequency.Counter.Items | app.py:200 | `.items()` lists one (word, count) pair per key, in insertion order, each with that key's count, and no word twice. |
| Frequency.CountWords | app.py:47-49 | Counting yields a well-formed ordered counter: no repeated key, and the keys are exactly the words with a count. |
| Frequency.CountWordsSpec | app.py:47-49 | The keys are exactly the distinct tokens. Each count is that token's number of occurrences, so at least 1. Keys are ordered by first occurrence in the token list. |
| Frequency.TotalIsLength | app.py:47-49 | The counts sum to the length of the token list. |
| Frequency.Threshold | app.py:200 | A word is kept iff its count is at least the threshold. Kept counts are unchanged. The kept keys stay in their relative order, and the result is still a well-formed counter. |
| Frequency.ThresholdOneKeepsAll | app.py:190-200 | At the slider's default of 1, a counter with positive counts comes back unchanged. |
| Frequency.ThresholdMonotone | app.py:200 | Filtering at t1 and then at t2 >= t1 equals filtering at t2. Raising the threshold can only shrink the key set. |
| Ranking.InsertWithCount | app.py:70 | Inserting an entry into a descending list puts it after every entry of its own count and leaves the entries of other counts in order. This is the stability step of the sort. |
| Ranking.SortByCount | app.py:70 | `sorted(items, key=count, reverse=True)` is a permutation with counts descending. For every count value, the entries with that count appear in their input order (stability). |
| Ranking.MostCommon | app.py:223 | `most_common(n)` returns `min(n, len)` entries with counts descending. Each entry is a (word, count) item of the counter, and no word repeats. No omitted item counts more than any listed one. The entries of each count are a leading part of that count's entries in insertion order. |
| Charts.Series | app.py:54-55 | The line and scatter x series is the key list. The y series has the same length, and the i-th value is the count of the i-th key. |
| Charts.BarData | app.py:70-71 | The bar data is `min(20, len)` labels and lengths, longest first. Each length is the count of its label in the counter passed in. Label i and length i together are entry i of `most_common(20)` of that counter, so the labels are distinct, no left-out item outranks a bar, and ties keep insertion order. |
| Charts.PieData | app.py:119 | The pie has `min(20, len)` slices, and they are a prefix of the items in insertion order. |
| Charts.PieIgnoresRank | app.py:119 | The pie truncates by position, not by count. When the 21st item has the single largest count, it heads `most_common(20)` but is not in the pie. |
| Charts.MaxOf | app.py:151 | The maximum over a non-empty key list is at least every count of the list and equals one of them. |
| Charts.MaxCount | app.py:151 | `max(c.values())` is at least every count of the counter and is one of its counts. |
| Charts.RadarChart | app.py:147-156 | The result is `None` iff the counter is empty. Otherwise there are `min(6, len)` axes named by the first keys in insertion order, with values equal to their counts. Every axis max is the largest count of the whole counter, so every plotted value is at most its axis max. |
| Charts.HeatMap | app.py:164-167 | The x axis is the key list. There is one cell per key, and cell i is `(i, 0, count of the i-th key)`. |
| Pipeline.Frequencies | app.py:195-197 | The counter built from a page's text is well-formed and positive. A word is a key iff it is a segmenter token of the cleaned text that passes the token filter. Its count is its number of occurrences among the segmenter's tokens. |
| Pipeline.Draw | app.py:203-215 | No chart is drawn iff the radar is chosen and the filtered counter is empty. |
| Pipeline.Analyze | app.py:192-223 | Nothing is shown iff the page text is empty. Otherwise the chart is absent exactly when the radar is chosen and no word reaches the minimum, and the table has `min(20, distinct words)` rows. |
| Pipeline.TableIgnoresSettings | app.py:223 | The top-20 table does not depend on the slider or the chart type. |
| Pipeline.TableWordsAreTokens | app.py:223 | Every table row is a segmenter token of the cleaned text, at least 2 characters long, with a count of at least 1. |
| Pipeline.BarMatchesTableAtThresholdOne | app.py:215 | At threshold 1 the bars are exactly the table's rows, in the same order. |
| Pipeline.BarRespectsThreshold | app.py:215 | Every bar's length reaches the threshold, because the bar adapter ranks the filtered counter. |
| Scenarios.ExampleCounts | app.py:47-49 | For any three different words a, b, c, the tokens a a a b b c (for example "the the the cat cat dog") count as a = 3, b = 2, c = 1, with keys in that order. |
| Scenarios.CollapsesDoubleSpace | app.py:42 | `clean_text` turns `x  y` (two spaces) into `x y` for any two word characters. |
| Scenarios.ExampleThreshold | app.py:200 | At minimum 2 the same example keeps the keys a and b, in that order. |

## Left out

- `fetch_text_from_url` (app.py:25-35): the HTTP GET through `requests`, HTML parsing, and the removal of script and style elements by BeautifulSoup. This is network I/O and foreign libraries. The model starts from the extracted page text.
- `jieba.lcut` (app.py:19): dictionary and statistical Chinese segmentation in a library that is not part of this model. The caller passes it in as a function `lcut: string -> seq<string>`, about which nothing is assumed.
- All rendering: the pyecharts builders and their options, `render_embed`, matplotlib and seaborn figures, `invert_yaxis`, label rotation, the word cloud's font-size range, and `st.pyplot`. The model stops at the data handed to each builder. The word cloud's data is the filtered items in insertion order, passed through as they are.
- `plot_heatmap_with_seaborn` (app.py:93-99): a pandas pivot table plus a seaborn drawing, never reachable from the chart selector.
- The Streamlit script body (app.py:178-225): widgets, the rerun model, and the `isinstance`/HTML embedding dispatch. Only the data flow of lines 192-223 is kept (`Pipeline.Analyze`). The slider's range 1-100 is a widget bound and is not required by the filter, which accepts any integer.
- Unicode: strings are sequences of code points. Python's length is the code-point count. `IsSpace` is Python's whitespace table written out. No lemma depends on its exact contents beyond ' ' being whitespace and not punctuation.
- `Counter` behaviour the pipeline never uses: the default 0 for missing keys, arithmetic between counters, and negative counts.
- `Normalizer.RemovePunctuation` deletes punctuation characters one at a time. The source deletes maximal runs with `re.sub('[...]+', '', ...)`. Because the replacement is empty, both give the same string.
- `Ranking.SortByCount` is an insertion sort, not Timsort. It is specified only by what a stable descending sort guarantees (permutation, descending, ties in input order), and any two sorts meeting that specification agree.
