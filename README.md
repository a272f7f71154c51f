# Topic-trend pipeline and topic service, modelled in Dafny

This project models the data-shaping core of a topic-trend dashboard. The
dashboard has an offline pipeline that cleans bibliographic JSON records,
tokenises the abstracts, batches the token records into parquet parts and
suggests topic labels. It also has a read-only backend service that answers
topic, trend and topic-year queries from the model's tables. Every rule is
modelled in Dafny and verified.

| file | module | models |
|---|---|---|
| wrappers.dfy | `Wrappers` | `Option` and `Result` |
| strings.dfy | `PyStrings` | the Python `str` operations used: `strip`, `lower` (ASCII), `startswith`, `join`, `replace`, `str(int)`, `int(str)`, slicing, `<` on strings |
| tables.dfy | `PyTables` | the pandas operations used: column `apply`, `dropna`, counting, stable `sort` |
| label_maps.dfy | `LabelMaps` | label dictionaries and the key-by-key override `d[k] = v` |
| topic_terms.dfy | `TopicTerms` | the topic-term table, `groupby('topic_id')` and `nlargest` |
| preprocess.dfy | `Preprocess` | `ultra_clean_text` and `clean_affiliation_text`, each regular expression written as a string function |
| preprocess_tables.dfy | `PreprocessTables` | the table building of `extract_and_process_data` |
| preprocess_nlp.dfy | `PreprocessNlp` | `normalize_text`, the abstract-column choice, and the buffer-and-flush loop with its part names |
| topic_service.dfy | `TopicServices` | `TopicService`: its cache fields and loaders, `get_topics`, `get_topic`, `get_trends`, `get_topic_year_detail` |
| label_topics.dfy | `LabelTopics` | `generate_labels_suggestion` and `persist_labels` |

Form of the model:

- Loops that the source runs become methods with loop invariants. Each method is proved equal to a specification function, and the properties are proved about that function. This covers the tag rounds and the prefix loop, the noise-pattern loop, the file, record and author loops, the token loop, the batching loop, the label merge, the topic loop, the trends loop, and the two loops of the label script.
- The service is a class whose fields are the cached label dictionary and frames. Its methods state the whole new state of the cache.
- File contents (JSON, CSV, parquet) reach the model as parameters. A missing optional file is `None`.
- `html.unescape` and the lemmatiser are function-valued parameters.
- `persist_labels` returns a new map. Dafny maps are values, so the caller's dictionary cannot change.

## Model

| member | source | states |
|---|---|---|
| Preprocess.CleanText | data_processing/preprocess.py:21-69 | None for a missing, empty or blank value and for 'nan', 'none', 'null' in any case; any other result has at least 3 characters, no whitespace at either end, only single plain spaces, no `<` followed later by `>`, and is no longer than the normalised text |
| Preprocess.UltraCleanText | data_processing/preprocess.py:21-69 | the five tag rounds and the prefix loop compute `CleanText`, so the same null, length, whitespace and tag guarantees hold |
| Preprocess.Normalise | data_processing/preprocess.py:43-54 | after decoding, the tag rounds, the `\s+` collapse and `strip()`, the text is trimmed, has single plain spaces only and no tag |
| Preprocess.TagRoundsAreOneRound | data_processing/preprocess.py:46-50 | any n >= 1 rounds of the two tag substitutions equal one round, and no `<` is then followed by a `>` |
| Preprocess.SubSingleTagLeavesNoTag | data_processing/preprocess.py:50 | after `re.sub('<[^>]*>', ' ')` no `<` is followed anywhere later by `>` |
| Preprocess.SubTagOfTagFree | data_processing/preprocess.py:48-50 | neither tag substitution changes a text that holds no tag |
| Preprocess.SubTagAvoids | data_processing/preprocess.py:48-50 | tag removal brings in no character except the space |
| Preprocess.CollapseShape | data_processing/preprocess.py:53 | after `re.sub(r'\s+', ' ')` every whitespace character is a plain space and no two are adjacent |
| Preprocess.CollapseKeepsNoTag | data_processing/preprocess.py:53 | collapsing whitespace keeps a tag-free text tag-free |
| Preprocess.StripKeeps | data_processing/preprocess.py:54 | `strip()` leaves no whitespace at either end and keeps single plain spaces, no whitespace beside `;` and no tag |
| Preprocess.DropPrefixesKeeps | data_processing/preprocess.py:57-63 | the prefix loop keeps a tidy tag-free text tidy and tag-free and never lengthens it |
| Preprocess.DropPrefixesUnmatched | data_processing/preprocess.py:57-59 | a text that starts with none of the prefixes is left unchanged |
| Preprocess.DropAbstractPrefixes | data_processing/preprocess.py:57-63 | the loop is one pass per label, in the order Abstract, ABSTRACT, Summary, SUMMARY |
| Preprocess.AbstractThenSummary | data_processing/preprocess.py:57-63 | "Abstract: Summary - w" becomes w: both labels go, in list order, each with its ':' or '-' and the spaces around it |
| Preprocess.RepeatedLabelStays | data_processing/preprocess.py:57-63 | each label is removed at most once: "SUMMARY SUMMARY w" becomes "SUMMARY w" |
| Preprocess.PrefixInsideAWord | data_processing/preprocess.py:59-60 | the check is `startswith`, not a word match: "Abstract" + w becomes w, so "Abstraction" loses its first eight letters |
| Preprocess.NoiseEnd | data_processing/preprocess.py:84-95 | a match at the start of the text ends inside it; a clause pattern ends at the end of the text or on `;`, `,` or `.` |
| Preprocess.OccursBetweenMeans | data_processing/preprocess.py:94 | the search for 'correspondence' inside the `[^;,\.]*` run succeeds exactly when an occurrence (any case) fits in the run |
| Preprocess.RemoveNoiseOfNoiseFree | data_processing/preprocess.py:97-98 | a pattern that matches at no position leaves the text unchanged |
| Preprocess.AddressMatch | data_processing/preprocess.py:85-90 | a contact pattern matches its label and the value up to, and not including, the first '.' |
| Preprocess.AddressStopsAtDot | data_processing/preprocess.py:85-90 | after a contact label and its value, the '.' and everything after it are kept |
| Preprocess.DelimiterKept | data_processing/preprocess.py:84-95 | a pattern whose label does not start with `;`, `,` or `.` cannot match on a leading delimiter: the delimiter is kept and scanning goes on after it |
| Preprocess.ClauseRemovalLeavesNoLabel | data_processing/preprocess.py:91-93 | after a labelled clause is removed, its label occurs nowhere in the result, in any case |
| Preprocess.JoinLeavesNoSpaceBeside | data_processing/preprocess.py:101 | after `re.sub(r'\s*;\s*', ';')` no whitespace character touches a `;` |
| Preprocess.CollapseKeepsSemicolons | data_processing/preprocess.py:102 | collapsing whitespace keeps "no whitespace beside `;`" |
| Preprocess.TidyAffiliationShape | data_processing/preprocess.py:101-103 | the normalisation leaves no whitespace at either end, single plain spaces, no whitespace beside `;`, and no `;` at either end |
| Preprocess.CleanAffiliation | data_processing/preprocess.py:73-105 | None for a missing, empty or blank value; otherwise None or a non-empty text, trimmed, with single plain spaces, no whitespace beside `;` and no `;` at either end |
| Preprocess.CleanAffiliationText | data_processing/preprocess.py:73-105 | the pattern loop and the three normalisation steps compute `CleanAffiliation` |
| PreprocessTables.LeadingRecords | data_processing/preprocess.py:125-150 | the records of a list file are its dict elements up to the first element on which `record.get` raises; the `except` drops the rest of that file |
| PreprocessTables.ReadFile | data_processing/preprocess.py:126-150 | the record loop of one file yields `FileRecords` of it: nothing for an unreadable or non-list file |
| PreprocessTables.ReadRecords | data_processing/preprocess.py:122-150 | the file loop collects the records of every file, file by file |
| PreprocessTables.CleanMainTable | data_processing/preprocess.py:159-163 | every record, in order, with `ultra_clean_text` applied to Title, Abstract, Keywords and JournalTitle |
| PreprocessTables.BuildPapers | data_processing/preprocess.py:167-172 | the papers table is the four-column projection, then `dropna` on title and abstract |
| PreprocessTables.CollectAuthorRows | data_processing/preprocess.py:177-200 | the `iterrows` loop yields `RawAuthorRows` of the main table |
| PreprocessTables.RecordAuthorRows | data_processing/preprocess.py:192-200 | one row per dict entry of a record's author list, in order |
| PreprocessTables.CleanAuthors | data_processing/preprocess.py:206-214 | both author columns cleaned, then rows with either one None dropped |
| PreprocessTables.DropIncomplete | data_processing/preprocess.py:217-219 | `dropna` on the main table's Title and Abstract |
| PreprocessTables.ExtractAndProcessData | data_processing/preprocess.py:109-222 | the whole procedure equals `ExtractAndProcess`, including KeyError with no records and KeyError with no author rows |
| PreprocessTables.FailsOnlyWhenEmpty | data_processing/preprocess.py:155-214 | the procedure fails exactly when no record was read or no author row was built |
| PreprocessTables.PapersAreCompleteRecords | data_processing/preprocess.py:167-219 | the papers table is the projection of exactly the main-table rows with a title and an abstract, in order; the count equals the number of complete cleaned records |
| PreprocessTables.SameArticleIds | data_processing/preprocess.py:167-219 | the main and papers tables have the same ArticleId sequence |
| PreprocessTables.EntryRowsMeans | data_processing/preprocess.py:192-200 | a row comes from an author list exactly when the list holds that dict entry |
| PreprocessTables.RawAuthorRowsMeans | data_processing/preprocess.py:179-200 | a raw author row exists exactly when some record's author list (a list, or a string that evaluates to one) holds that dict; non-dict entries and failing strings give none |
| PreprocessTables.AuthorsAreClean | data_processing/preprocess.py:206-214 | every kept author has a cleaned name of at least 3 characters and a non-empty cleaned affiliation |
| PreprocessNlp.RunsFrom | data_processing/preprocess_nlp.py:44 | every token `findall` returns is a non-empty run of ASCII letters |
| PreprocessNlp.RunsAreMaximal | data_processing/preprocess_nlp.py:44 | each token is a run of letters that cannot be extended on either side |
| PreprocessNlp.RunsCoverLetters | data_processing/preprocess_nlp.py:44 | the tokens, concatenated, are exactly the letters of the text, in order |
| PreprocessNlp.RunsOfLowered | data_processing/preprocess_nlp.py:43-44 | in a text without upper-case letters every token is a-z only |
| PreprocessNlp.Normalize | data_processing/preprocess_nlp.py:39-54 | [] for a non-string value; as many tokens as letter runs passing both filters, so never more than the runs; without lemmatising each token has at least `min_token_length` characters and is not a stop word |
| PreprocessNlp.NormalizeText | data_processing/preprocess_nlp.py:39-54 | the method computes `Normalize` |
| PreprocessNlp.KeepTokens | data_processing/preprocess_nlp.py:45-54 | the token loop keeps the tokens that pass both filters, in their order, each lemmatised when lemmatising is on |
| PreprocessNlp.TokensAreLoweredRuns | data_processing/preprocess_nlp.py:43-53 | without lemmatising the tokens are a subsequence of the runs of the lower-cased text, each a maximal run, each a-z only |
| PreprocessNlp.ChecksBeforeLemma | data_processing/preprocess_nlp.py:47-52 | with lemmatising, each token is the lemma of a run that passed the length and stop-word checks |
| PreprocessNlp.ChooseAbstractColumn | data_processing/preprocess_nlp.py:72-76 | 'abstract_cleaned' when present, else 'abstract', else ValueError; success exactly when one of the two is in the header |
| PreprocessNlp.Effective | data_processing/preprocess_nlp.py:100 | the buffer length at which a flush happens: `batch_size` when at least 1, otherwise 1 |
| PreprocessNlp.BuildParts | data_processing/preprocess_nlp.py:96-109 | the parts concatenated are the record stream; part k is named after k; each part holds 1 to b records, all but the last exactly b; the part count p satisfies (p-1)·b < n <= p·b; no records give no parts |
| PreprocessNlp.PartNamesSortByNumber | data_processing/preprocess_nlp.py:102-107 | below 10^6 parts, string order of the names is the numeric order of the parts |
| PreprocessNlp.MillionthPartSortsFirst | data_processing/preprocess_nlp.py:102 | from part 1000000 on, the names no longer sort by number: part_1000000 sorts before part_999999 |
| PyStrings.ParseIntOfIntToString | backend/app/services/topic_service.py:224 | `int(str(k)) == k` for every integer |
| TopicTerms.TopicIds | backend/app/services/topic_service.py:140 | the group keys are strictly increasing, and an id is among them exactly when some row has it |
| TopicTerms.Group | backend/app/services/topic_service.py:193 | the rows of one topic, in table order: every row kept has the id and is a row of the table, every row with the id is kept, and the group is empty exactly when no row has the id |
| TopicTerms.LargestSpec | backend/app/services/topic_service.py:143 | `nlargest(n)` returns min(n, size) rows, heaviest first, taken from the rows, and no row left out is heavier than one kept |
| TopicTerms.LargestHead | data_processing/label_topics_1.py:22 | the first of the n heaviest rows weighs at least as much as every row |
| LabelMaps.Override | data_processing/label_topics_1.py:34-35 | the keys after the assignments are the old keys plus the assigned keys |
| LabelMaps.OverrideLastWins | data_processing/label_topics_1.py:34-35 | the last assignment to a key decides its value |
| LabelMaps.OverrideUntouched | data_processing/label_topics_1.py:34-35 | a key that is never assigned keeps its value |
| LabelMaps.OverrideAt | backend/app/services/topic_service.py:104-105 | key by key, the override holds the last assigned value, or the old one when the key is never assigned |
| LabelMaps.OverrideAgain | backend/app/services/topic_service.py:104-105 | applying the same assignments twice adds nothing |
| TopicServices.CustomLabelKeys | backend/app/services/topic_service.py:62-78 | the custom labels are fifteen, keyed 0..14 |
| TopicServices.MergedLabelsSpec | backend/app/services/topic_service.py:95-105 | after the merge, ids 0..14 carry the custom labels whatever the file or cache held, every other id keeps its value, and no other id appears |
| TopicServices.MergeTwice | backend/app/services/topic_service.py:97-105 | a second merge changes nothing, whatever the file now holds: the cache is no longer empty |
| TopicServices.TopicService.constructor | backend/app/services/topic_service.py:54-60 | the cache starts empty |
| TopicServices.TopicService.LoadLabels | backend/app/services/topic_service.py:95-105 | the file is read only into an empty cache, the custom labels are then written over it, and the other fields stay unchanged |
| TopicServices.TopicService.LoadTopicTerms | backend/app/services/topic_service.py:107-111 | the table is read once; a cached one is kept |
| TopicServices.TopicService.LoadTrends | backend/app/services/topic_service.py:113-117 | the trends frame is read once |
| TopicServices.TopicService.LoadMeta | backend/app/services/topic_service.py:119-124 | the optional meta frame is read once, if the file exists |
| TopicServices.TopicService.LoadDocTopics | backend/app/services/topic_service.py:126-131 | the optional doc-topics frame is read once, if the file exists |
| TopicServices.BuildTopics | backend/app/services/topic_service.py:140-153 | the groupby loop builds one topic per id, in id order |
| TopicServices.TopicService.GetTopics | backend/app/services/topic_service.py:133-156 | loads labels and terms, then returns `TopicList` of the cache, with the new cache stated |
| TopicServices.TopicListIds | backend/app/services/topic_service.py:140-156 | min(15, number of ids) topics, entry i carrying the i-th smallest id, the ids strictly increasing |
| TopicServices.TopicListAt | backend/app/services/topic_service.py:140-156 | entry i of the list is the topic built from the i-th smallest id |
| TopicServices.TopicTermsAreLargest | backend/app/services/topic_service.py:143-147 | a listed topic's terms are the 10 heaviest rows of its group: at most 10, weights non-increasing, no row left out heavier than one kept |
| TopicServices.TopicLabel | backend/app/services/topic_service.py:148-152 | a listed topic's label is the custom label for ids 0..14, else the loaded label, else its first up to three terms joined by ' / ' |
| TopicServices.FindTopic | backend/app/services/topic_service.py:158-163 | success exactly when some listed topic has the id, and then a listed topic with that id; otherwise KeyError 'Topic {id} not found' |
| TopicServices.FindTopicUnique | backend/app/services/topic_service.py:158-162 | with distinct ids, looking up a listed topic's id returns that topic |
| TopicServices.SearchTopics | backend/app/services/topic_service.py:160-163 | the search loop computes `FindTopic` |
| TopicServices.TopicService.GetTopic | backend/app/services/topic_service.py:158-163 | `FindTopic` over `get_topics()`, with the new cache stated |
| TopicServices.TrendTopicsAt | backend/app/services/topic_service.py:174-178 | entry i: id i + 1, the label looked up with the 0-based i, falling back to 'Topic i+1', and the column's series |
| TopicServices.TrendsSpec | backend/app/services/topic_service.py:165-179 | the years unchanged; k = min(15, number of 'topic_' columns) entries with ids 1..k in column order, the 0-based label lookup, and every series as long as the years |
| TopicServices.TopicService.GetTrends | backend/app/services/topic_service.py:165-179 | loads trends and returns `TrendsOf` the cached frame with the cached labels, which it does not reload |
| TopicServices.FirstMax | backend/app/services/topic_service.py:223 | `idxmax(axis=1)`: a column holding the row's largest value, and no earlier column holds as much |
| TopicServices.ArgmaxTopics | backend/app/services/topic_service.py:223-224 | when every argmax column name converts, one topic per row, each the number in that row's argmax column name |
| TopicServices.ColumnTopicOfName | backend/app/services/topic_service.py:224 | the column 'topic_{k}' converts back to k |
| TopicServices.CountMatchesBound | backend/app/services/topic_service.py:225 | the rows whose argmax is the topic and whose year matches are no more than the rows of that year |
| TopicServices.DocCountBound | backend/app/services/topic_service.py:213-227 | the document count never exceeds the number of documents of that year |
| TopicServices.DetailTermsSpec | backend/app/services/topic_service.py:193-207 | `HeaviestTerms` of the detail terms with n = 30: they are the 30 heaviest rows of the topic's group: min(30, group size) of them, heaviest first, each a row of that topic, no row of the group left out heavier than one kept, and none exactly when the topic has no rows |
| TopicServices.YearDetailSpec | backend/app/services/topic_service.py:188-245 | the detail answers with the 1-based id and year it was given, looks the label up 0-based with the fallback 'Topic {id}', and lists the topic's 30 heaviest rows (`HeaviestTerms`): min(30, group size) terms, heaviest first, each a row of that topic, none left out heavier than one kept, none for a topic without rows |
| TopicServices.TopicService.GetTopicYearDetail | backend/app/services/topic_service.py:181-245 | returns `YearDetailOf` the cache; reads trends only when the count from meta and doc-topics is 0 |
| TopicServices.DetailRouteAsWrittenMisses | backend/app/api/topics.py:22-34 | the detail route as written never returns the topic whose listed id it is given |
| TopicServices.DetailRouteFinds | backend/app/api/topics.py:22-34 | with the listed id turned back into the 0-based id, the route returns that topic |
| LabelTopics.SuggestionSpec | data_processing/label_topics_1.py:20-24 | exactly one label per distinct topic id of the table, each that topic's suggestion |
| LabelTopics.SuggestedLabelShape | data_processing/label_topics_1.py:22-23 | the suggestion joins min(topk, group size) terms and starts with the term of a heaviest row of the topic |
| LabelTopics.GenerateLabelsSuggestion | data_processing/label_topics_1.py:15-24 | the groupby loop computes `Suggestion` |
| LabelTopics.ParseKeys | data_processing/label_topics_1.py:34-35 | succeeds exactly when every key converts with `int()`; then one pair per entry, in order, with the converted key and the value |
| LabelTopics.ParseKeysFailurePersists | data_processing/label_topics_1.py:34-35 | once a key fails to convert, the whole override loop fails with that key's error |
| LabelTopics.Persisted | data_processing/label_topics_1.py:30-31 | without overrides the result is the labels unchanged |
| LabelTopics.PersistLabels | data_processing/label_topics_1.py:27-38 | the override loop on a copy computes `Persisted`, raising at the first key `int()` rejects |
| LabelTopics.PersistedSpec | data_processing/label_topics_1.py:30-35 | with convertible keys: the keys are the suggested keys plus the converted override keys, each override key holds its last value, and every other key keeps its suggested label |

## Left out

- The repository's streaming relay for AI narration and its browser consumer are not part of this model: their code is not among the files modelled.
- Reading and writing files is not modelled: the JSON, CSV and parquet reads, the CSV and parquet writes, the write of topic_labels.json, `print` and `tqdm`. File contents are parameters, and a written part is a `Part` value.
- `html.unescape` and the lemmatiser are uninterpreted function parameters. The stop-word set, `min_token_length` and `enable_lemmatize` are parameters.
- `eval` of a string-valued author list is given as its outcome (`Raises`, a list, or another value), since evaluating Python source is outside the model.
- A cell is either missing or a string. `str()` of a number in a text column is not modelled.
- `str.lower` is ASCII-only. `re.IGNORECASE` is ASCII case folding plus the few non-ASCII characters that fold onto ASCII letters. Full Unicode case folding is out of scope.
- `int()` accepts an optional sign followed by ASCII digits. Surrounding whitespace, underscores and non-ASCII digits raise here, whereas Python accepts them.
- Weights and trend values are integers, so floating point is not modelled. The percent column `weight / total` of the year detail is left out. `round(max(val, 0))` of the trends fallback becomes `max(val, 0)`.
- The keys of topic_labels.json are taken as already converted by `int(k)` (topic_service.py:102).
- Loading the gensim model (`_load_model`), the singleton lock of `get_instance` (concurrency) and `get_pyldavis_path` are left out.
- `nlargest(keep='first')` and `sort_values` are both modelled as a stable sort, heaviest first. Ties among equal weights may be ordered differently by pandas' default sort in label_topics_1.py:22.
- The chunked row loop of `iter_tokens_from_csv`, with its `int()` of article_id and year, is not modelled. The batching takes the token records as a sequence.
- The service's frames are assumed well formed (`Valid`): every column is as long as the frame. `astype(int)` of the year columns is assumed to succeed.
- TopicServices.DocCount: of the exceptions the `try` around the count could catch, only a column name that `int()` rejects is modelled (count 0).
- The override entries are `overrides.items()` of the loaded JSON object: distinct key strings, in first-occurrence order, each with its last value. A file that repeats a key string is not modelled, because `json.load` merges the repeats before the loop sees them. Distinct strings that convert to the same integer, such as "1" and "01", are modelled: the later entry wins. Non-string JSON values are not modelled.

## Findings

| source | as written | input that shows it | evidently intended | confidence | as-written member | corrected member |
|---|---|---|---|---|---|---|
| backend/app/api/topics.py:34 | the detail route passes the URL id straight to `get_topic`, which looks up the 0-based service id, while the list route shows `t.id + 1` (line 22) | the topic with service id 0 is listed as id 1; `/api/topics/1` looks up service id 1 and returns another topic, or 404 when there is none | look up `topic_id - 1`, as the year-detail route does | not executed | TopicServices.DetailRouteAsWrittenMisses | TopicServices.DetailRouteFinds |
