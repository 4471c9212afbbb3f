# crashscraper in Dafny

A model of the core of crashscraper, a collector of road-accident news from the regional
press of Jujuy and Salta. The system has three parts, and this project models each one:

- **Classifiers.** Four strategies decide whether an article is about a traffic
  accident: simple substring count, weighted score, stem matches and lemma matches. They
  share one configuration: the search terms, the weights and the thresholds. There is
  also the older any-term classifier. The batch runner applies the strategies to the
  stored articles.
- **Query and maintenance helpers.** These are the search-term extraction and the
  traffic-query test of the question service, the content truncation, the statistics
  partition and the prompt assembly. They also include the duplicate-URL cleanup and the
  back-fill of the accident flag.
- **Per-site crawlers.** There are eleven `scrape` loops, for El Tribuno (Jujuy and
  Salta), Informate Salta, Qué Pasa Salta, Todo Jujuy, Jujuy al Momento (section and
  tags), Jujuy Dice, Pregón, Somos Jujuy and El Submarino Jujuy. Each is modelled as an
  imperative method over an abstract sequence of listing-page answers. Each method is
  proved equal to a fold function, and the stop rules, the seen-set and existence
  de-duplication, the cutoff date and the saved-article count are proved about that
  fold.

## Modules

- `Wrappers`, `Text`, `Seqs`, `Patterns`: Option/Result, Python string operations
  (`lower`, `strip`, `split`, `join`, `in`, `int()`), sequence counts and filters, and
  the small regular expressions the crawlers use.
- `Dates`: dates, `datetime.date(...)`, ISO and day-first formats, `strptime` with `%d`,
  `%m` and `%Y`, `fromisoformat`, and the Spanish month table.
- `JsonLd`: JSON values and the `@type` lookup for JSON-LD scripts.
- `ClassifierConfig`, `Classifiers`, `LegacyClassifier`: the classifiers.
- `Noticias`, `ScraperRunner`, `QueryService`, `Deduplicar`, `FixInconsistentData`: the
  stored record, the runner and the helpers. A database table is a sequence of records
  passed in and returned.
- `Crawl`, `Walks`, `Batches`: what the crawlers share. This is the article record,
  the abstract database insert (`Store`), the cutoff test, numbered URLs and paragraph
  joins, plus a generic walk over judged links.
- One module per site: `ElTribuno`, `ElTribunoSalta`, `InformateSalta`, `QuePasaSalta`,
  `TodoJujuy`, `JujuyAlMomento`, `JujuyDice`, `Pregon`, `SomosJujuy`, `ElSubmarinoJujuy`.

Several things outside the code are parameters:
- HTTP answers, HTML selection and JSON parsing are given as abstract page records.
- The database insert is a `Store`. It says whether an insert succeeds, given the
  earlier offers of the run. For Pregón, whose code commits directly, an article without
  a date never commits, because the `fecha` column is NOT NULL (app/db.py:27); the `Store`
  decides only the commits of dated articles.
- `today`, the order in which Python iterates a set, and the foreign NLP functions are
  parameters too.

## Model

| member | source | states |
|---|---|---|
| ClassifierConfig.SearchTermsAsWritten | app/classifiers/__init__.py:2-8 | the term list has 17 entries; the missing commas merge "vehículo"+"embestió" and "atropello"+"heridos", so none of the four parts is a term |
| ClassifierConfig.WeightsCoverSearchTerms | app/classifiers/__init__.py:11-21 | every search term has a weight: 2 for the eight overridden keys, 1 for the rest |
| ClassifierConfig.WeightsPositive | app/classifiers/__init__.py:11-21 | every weight is at least 1 |
| ClassifierConfig.SiniestroVialOnlyWeighted | app/classifiers/__init__.py:11-21 | "siniestro vial" has a weight but is not a search term |
| ClassifierConfig.ThresholdsAllTwo | app/classifiers/__init__.py:24-29 | there are exactly four default thresholds and each is 2 |
| Classifiers.ClassifierText | app/classifiers/simple.py:9 | the examined text is the lower-cased title, one space, then the lower-cased content |
| Classifiers.TransitoPhraseHasAccidente | app/classifiers/simple.py:10 | "accidente de tránsito" contains "accidente" |
| Classifiers.TransitoPhraseCountsTwice | app/classifiers/simple.py:10 | overlapping entries each count, so a text with "accidente de tránsito" has a default count of at least 2 |
| Classifiers.TransitoPhraseIsSimpleAccident | app/classifiers/simple.py:9-11 | a text with "accidente de tránsito" is an accident for the default simple strategy |
| Classifiers.SimpleDefaults | app/classifiers/simple.py:4-7 | with no arguments the simple strategy counts the shared search terms against threshold 2 |
| Classifiers.SimpleEmptyTerms | app/classifiers/simple.py:9-11 | with no terms the count is 0, so the verdict is `0 >= threshold`; there is no exclusion gate |
| Classifiers.SimpleThresholdMonotone | app/classifiers/simple.py:11 | raising the threshold never turns a False verdict into True |
| Classifiers.WeightedScore | app/classifiers/ml_weighted.py:15 | the score sums the weights of the occurring terms in list order; it fails with KeyError on the first occurring term that has no weight |
| Classifiers.WeightedScoreOk | app/classifiers/ml_weighted.py:15 | a term list whose every entry has a weight never raises KeyError |
| Classifiers.DefaultWeightedNeverFails | app/classifiers/ml_weighted.py:5-10 | under the defaults the weighted score never raises KeyError |
| Classifiers.MlExclusionForcesFalse | app/classifiers/ml_weighted.py:12-14 | when the exclusion test fires on the text the verdict is False, whatever the score |
| Classifiers.MlDefaults | app/classifiers/ml_weighted.py:5-10 | with no threshold given the score is compared with 2 |
| Classifiers.WeightedScoreMonotone | app/classifiers/ml_weighted.py:15 | with non-negative weights, a text that contains every term another text contains scores at least as much |
| Classifiers.WeightedScoreOnlyReadsTerms | app/classifiers/ml_weighted.py:15 | weights of keys that are not search terms do not affect the score |
| Classifiers.SiniestroVialNeverContributes | app/classifiers/ml_weighted.py:15 | under the defaults the weight of "siniestro vial" never reaches any score |
| Classifiers.WeightedScoreAtLeastCount | app/classifiers/ml_weighted.py:15 | when every weight is at least 1 the score is at least the simple count |
| Classifiers.DefaultScoreAtLeastCount | app/classifiers/ml_weighted.py:15 | under the defaults the score succeeds and is at least the simple count |
| Classifiers.SimpleAccidentIsWeightedAccident | app/classifiers/ml_weighted.py:12-16 | under the defaults, a simple-strategy accident is a weighted accident unless the exclusion test fires |
| Classifiers.WeightedThresholdMonotone | app/classifiers/ml_weighted.py:16 | raising the threshold never turns a False verdict into True |
| Classifiers.WordStemPresent | app/classifiers/stemmer.py:20-22 | a word of the text that is not a stop-word contributes its stem |
| Classifiers.SearchWordCountsForStemmer | app/classifiers/stemmer.py:20-24 | a search term that appears as a whole non-stop word makes the stem count positive |
| Classifiers.StemmerExclusionForcesFalse | app/classifiers/stemmer.py:18-19 | a text the exclusion test fires on is never a stemmer accident |
| Classifiers.StemmerThresholdMonotone | app/classifiers/stemmer.py:25 | raising the threshold never turns a False verdict into True |
| Classifiers.LemmaCountBySet | app/classifiers/lemmatizer.py:17-18 | only the set of non-stop lemmas matters, not their order or repetition |
| Classifiers.LemmatizerIgnoresExclusion | app/classifiers/lemmatizer.py:15-19 | there is no exclusion gate: two analyses with the same non-stop lemmas give the same verdict, whatever the exclusion test says |
| Classifiers.LemmaMembershipIsExact | app/classifiers/lemmatizer.py:18 | for all terms and lemmas: one term counts exactly when it equals a lemma (a term only part of a lemma adds nothing); the count is zero exactly when no term is a lemma and full exactly when every term is one |
| Classifiers.LemmatizerThresholdMonotone | app/classifiers/lemmatizer.py:19 | raising the threshold never turns a False verdict into True |
| LegacyClassifier.LegacyTermsSize | app/classifier.py:5-13 | the built-in list has 24 terms |
| LegacyClassifier.LegacyEmptyTerms | app/classifier.py:14-15 | an empty term list never flags an article |
| LegacyClassifier.LegacyIsSimpleThresholdOne | app/classifier.py:14-15 | on the same terms, the legacy test is the simple strategy with threshold 1 |
| ScraperRunner.EffectiveThresholds | app/scraper_runner.py:19 | a missing or empty custom table means the default thresholds; any other table is used as given |
| ScraperRunner.MissingKey | app/scraper_runner.py:62-104 | the result is absent exactly when the table has all four strategy keys; otherwise it is the first key the loop reads that the table lacks |
| ScraperRunner.MlVerdict | app/scraper_runner.py:101-105 | the runner's weighted verdict is the weighted classifier's successful result under the default terms and weights |
| ScraperRunner.TableVerdicts | app/scraper_runner.py:59-106 | one verdict record per row; what each record holds is stated by `RowVerdictsAreClassifiers` |
| ScraperRunner.Selected | app/scraper_runner.py:23-33 | the selection is no longer than the table; which rows it holds is stated by `SelectedSound` and `SelectedComplete` |
| ScraperRunner.SelectedSound | app/scraper_runner.py:28-33 | every selected row is forced or has at least one missing verdict |
| ScraperRunner.SelectedComplete | app/scraper_runner.py:28-33 | every row with a missing verdict is selected |
| ScraperRunner.SelectedEmpty | app/scraper_runner.py:37-43 | the selection is empty exactly when no row is picked |
| ScraperRunner.ForcedSelectsAll | app/scraper_runner.py:23-25 | a forced run selects the whole table |
| ScraperRunner.Accidents | app/scraper_runner.py:65-110 | the count of selected rows a strategy flags, bounded by the selection size |
| ScraperRunner.AfterRun | app/scraper_runner.py:64-106 | the table after a run has the same length; what each row becomes is stated by `AfterRunWritesVerdicts` |
| ScraperRunner.AfterRunWritesVerdicts | app/scraper_runner.py:64-106 | each selected row gets each strategy's verdict in its own column; unselected rows and every other column, `es_accidente_transito` included, are left alone |
| ScraperRunner.RowVerdictsAreClassifiers | app/scraper_runner.py:59-105 | the verdicts on a row are the simple, stemmer, lemmatizer and weighted classifiers on it with the row's thresholds |
| ScraperRunner.SecondRunSelectsNothing | app/scraper_runner.py:28-33 | after a run no row is pending, so a second unforced run selects nothing |
| ScraperRunner.AfterRunNothingPicked | app/scraper_runner.py:37-43 | when nothing is picked the run leaves the table unchanged |
| ScraperRunner.Bump | app/scraper_runner.py:65-68 | one vote adds one to exactly one of the two counters |
| ScraperRunner.RunClassifiers | app/scraper_runner.py:11-132 | an empty selection returns 0 and changes nothing; a threshold table missing a strategy key fails with that key and changes nothing; otherwise the result is the selection size, the new table is the classified table and each strategy's two counters add up to the selection size |
| ScraperRunner.ClassifyRows | app/scraper_runner.py:54-111 | the loop processes exactly the selected rows, writes their verdicts and keeps the counters in step |
| ScraperRunner.ClassifyRow | app/scraper_runner.py:55-111 | one row: a picked row is rewritten with its verdicts and counted once; any other row is kept as is and not counted |
| ScraperRunner.Counted | app/scraper_runner.py:65-110 | each strategy's counters move by the row's verdict for that strategy |
| ScraperRunner.RunClassifiersWithCustomThresholds | app/scraper_runner.py:134-137 | an unforced run with the caller's table; an empty table means the defaults; it fails exactly when rows are pending and a non-empty table lacks a key |
| ScraperRunner.ForceReclassifyAll | app/scraper_runner.py:139-142 | every row is processed and gets the four verdicts under the default thresholds |
| ScraperRunner.RunAllScrapers | app/scraper_runner.py:144-159 | the total is the sum of the scrapers' saved counts, then an unforced default run classifies the pending rows |
| QueryService.ExtractSearchTerms | app/query_service.py:116-143 | the terms are the relevant `\w+` words of the lower-cased query in order, at most five, each a keyword or longer than three characters |
| QueryService.RelevantIsLongOrSur | app/query_service.py:121-140 | a word is relevant exactly when it is longer than three characters or is "sur": the keyword lists add nothing else |
| QueryService.FewRelevantWordsAllKept | app/query_service.py:137-143 | when at most five words are relevant, every relevant word is a search term |
| QueryService.IndicatorTermMakesTrafficQuery | app/query_service.py:145-156 | a search term that is itself a traffic indicator makes the query a traffic query |
| QueryService.ShortQueryIsNotTraffic | app/query_service.py:149-156 | a query shorter than four characters contains no indicator, so it is not a traffic query |
| QueryService.Truncate | app/query_service.py:52 | content of at most 200 characters is returned unchanged; longer content becomes its first 200 characters followed by "..." |
| QueryService.TruncateIdempotent | app/query_service.py:52 | truncating a truncated content changes nothing |
| QueryService.ToNewsItem | app/query_service.py:48-59 | the item copies id, title, url, media and accident flag, holds the truncated content and a date string that `fromisoformat` reads back as the row's date |
| QueryService.StatusCount | app/query_service.py:66-68 | the number of rows with a given accident flag is at most the table size |
| QueryService.MediaCount | app/query_service.py:72 | the number of rows of a media outlet is at most the table size |
| QueryService.MediaKey | app/query_service.py:74 | a present, non-empty media id is its own key; a null or empty one is "sin_medio" |
| QueryService.GetStatistics | app/query_service.py:61-82 | the total is the table size, the three status counts are the rows with true, false and null, they add up to the total, and the per-media map is built from the grouping |
| QueryService.StatusPartition | app/query_service.py:65-68 | the accident, non-accident and unclassified counts add up to the table size |
| QueryService.MediaStatsHasGroupKey | app/query_service.py:73-74 | every group's key is in the per-media map |
| QueryService.MediaStatsKeyFromGroup | app/query_service.py:73-74 | every key of the per-media map comes from some group |
| QueryService.MediaStatsTableKeys | app/query_service.py:72-74 | the per-media keys are exactly the keys of the table's rows |
| QueryService.MediaStatsUniqueKey | app/query_service.py:73-74 | a group whose key no other group shares is listed with its own count |
| QueryService.NamedMediaCounted | app/query_service.py:72-74 | a named outlet (not "" and not "sin_medio") is listed with its number of rows |
| QueryService.NullMediaIsSinMedio | app/query_service.py:72-74 | rows with no media are counted under "sin_medio" when no row uses "" or "sin_medio" as its media |
| QueryService.NewsEntries | app/query_service.py:172-175 | one entry per hit, the k-th numbered `first + k` |
| QueryService.NoNewsPromptIffEmpty | app/query_service.py:162-169 | the fixed no-information prompt is produced exactly when there are no hits |
| QueryService.PromptHasQuestion | app/query_service.py:162-194 | both prompts contain the question |
| QueryService.PromptHasEveryEntry | app/query_service.py:171-183 | every hit appears in the prompt, numbered by its position counted from 1 |
| Deduplicar.UrlCount | scripts/deduplicar_db.py:22-25 | the number of rows stored under a URL is at most the table size |
| Deduplicar.MinId | scripts/deduplicar_db.py:36-39 | absent exactly when no row has the URL; otherwise the id of some row with the URL and no larger than any of them |
| Deduplicar.Deduplicated | scripts/deduplicar_db.py:13-45 | the cleaned table is no longer than the table; its rows are stated by the lemmas below |
| Deduplicar.DeleteCopies | scripts/deduplicar_db.py:36-43 | deleting the copies of one URL never adds rows |
| Deduplicar.DeduplicarNoticias | scripts/deduplicar_db.py:13-47 | walking the duplicated URLs leaves exactly the lowest-id row of each URL, and the total deleted is the sum over those URLs of their count less one |
| Deduplicar.HandledNothing | scripts/deduplicar_db.py:27-29 | with no duplicated URL nothing is deleted |
| Deduplicar.LoopStep | scripts/deduplicar_db.py:34-45 | one turn deletes the next URL's copies and adds its count less one to the total |
| Deduplicar.FilterKeepsUrl | scripts/deduplicar_db.py:42 | a deletion that spares every row of a URL keeps that URL's count and smallest id |
| Deduplicar.HandledRowsOfPending | scripts/deduplicar_db.py:34-42 | a URL not yet handled still has all its rows, with the original count and smallest id |
| Deduplicar.HandleStep | scripts/deduplicar_db.py:34-42 | handling one more URL is one more deletion over the current rows |
| Deduplicar.SoleRowKept | scripts/deduplicar_db.py:22-25 | a row alone under its URL is that URL's lowest-id row |
| Deduplicar.HandledAllIsDeduplicated | scripts/deduplicar_db.py:22-45 | once every duplicated URL is handled, exactly the lowest-id rows remain |
| Deduplicar.FilterUniqueIds | scripts/deduplicar_db.py:42 | deleting rows keeps ids unique |
| Deduplicar.UrlsUniqueAfter | scripts/deduplicar_db.py:13-15 | afterwards no two rows share a URL |
| Deduplicar.SoleRowsUntouched | scripts/deduplicar_db.py:22-25 | a row whose URL is stored once survives |
| Deduplicar.EveryUrlSurvives | scripts/deduplicar_db.py:36-39 | every URL of the table is still stored, under its smallest id |
| Deduplicar.DeduplicatedIsSubset | scripts/deduplicar_db.py:39-42 | every remaining row was in the table and is its URL's lowest-id row |
| FixInconsistentData.AfterRepair | scripts/fix_inconsistent_data.py:27-42 | the repaired table has the same length; what each row becomes is stated by `RepairWrites` |
| FixInconsistentData.FixInconsistent | scripts/fix_inconsistent_data.py:16-45 | the new table is the repaired table and the count is the number of inconsistent rows |
| FixInconsistentData.RepairWrites | scripts/fix_inconsistent_data.py:27-41 | a row with a classification and a null flag gets the flag `classification == "ACCIDENTE"`; every other row stays as it was; no other column changes |
| FixInconsistentData.RepairIdempotent | scripts/fix_inconsistent_data.py:27-30 | after a repair nothing is inconsistent, so a second repair changes nothing |
| Text.Lower | app/classifiers/simple.py:9 | `lower()` keeps the length and lowers each character on its own: no upper-case letter is left, and characters that are not upper-case stay |
| Text.Strip | app/scrapers/todojujuy.py:210 | `strip()` gives a text no longer than the input that neither starts nor ends with white space |
| Text.StripRemovesOnlySpace | app/scrapers/todojujuy.py:210 | `strip()` gives a slice of the text, and everything it cut off before and after that slice is white space |
| Text.StripLeftRemovesSpace | app/scrapers/todojujuy.py:210 | the leading part that `strip()` removes first is all white space |
| Text.StripRightRemovesSpace | app/scrapers/todojujuy.py:210 | the trailing part that `strip()` removes is all white space |
| Text.Split | app/scrapers/pregon.py:122-124 | `split(sep)` gives at least one piece and no piece holds the separator; joining the pieces back gives the text (`Text.JoinSplit`) |
| Text.ParseIntAccepts | app/scrapers/pregon.py:125 | `int(...)` (`Text.ParseInt`) fails on blank text, succeeds only on digits after an optional sign, and reads a run of digits as its decimal value |
| Text.TitleCase | app/scrapers/eltribuno_salta.py:88 | `title()` raises the first character, then lowers each character that follows a cased letter and raises every other one |
| Text.PyIsUpper | app/scrapers/informate_salta.py:222 | an upper-case text is changed by `lower()` |
| Text.PyIsUpperIsLowering | app/scrapers/informate_salta.py:222 | `isupper()` is false of a text with a lower-case letter, and of any other text true exactly when `lower()` changes it |
| JsonLd.IsNews | app/scrapers/somosjujuy.py:73 | an object is a news article exactly when `get('@type')` gives the string "NewsArticle" |
| JsonLd.Field | app/scrapers/somosjujuy.py:134 | `get(key)` gives a value exactly when the key is present, and then the key's value |
| JsonLd.Truthy | app/scrapers/somosjujuy.py:135 | a looked-up value is true exactly when the key is present and the value is none of "", 0, False, null, [] and {} |
| Crawl.Accepted | app/scrapers/eltribuno_salta.py:113-114 | the saved count is the number of offers the store accepted, at most the number of offers |
| Crawl.AcceptedSplit | app/scrapers/eltribuno_salta.py:113-114 | the count over a run is the count over its first part plus the count of the rest, judged after the first part |
| Crawl.AcceptedAll | app/scrapers/eltribuno.py:105-107 | a store that accepts every offer counts every offer, as the unconditional insert does |
| Crawl.NoLimitNothingPast | app/scrapers/eltribuno.py:62 | without a limit no date is past it |
| Crawl.PastLaterLimit | app/scrapers/eltribuno.py:62 | a date before a limit is before every later limit too |
| Crawl.NumberedUrlReadBack | app/scrapers/eltribuno.py:27 | the page number can be read back from the end of a numbered listing URL |
| Crawl.NumberedUrlsDistinct | app/scrapers/eltribuno.py:27 | different page numbers give different listing URLs |
| Crawl.NonEmptyTexts | app/scrapers/eltribuno_salta.py:156 | every kept stripped paragraph text is non-empty |
| Crawl.ContainerContent | app/scrapers/eltribuno_salta.py:151-162 | the raw content is the container's HTML |
| Crawl.ContainerContentHasParagraph | app/scrapers/eltribuno_salta.py:155-156 | every paragraph with text appears in the content |
| Crawl.ContainerContentFallsBack | app/scrapers/eltribuno_salta.py:156-160 | the container's whole stripped text is used exactly when no paragraph has text |
| Crawl.MainTexts | app/scrapers/eltribuno_salta.py:168-177 | the collected paragraphs are no more than the page's paragraphs |
| Crawl.MainParagraphs | app/scrapers/eltribuno_salta.py:165-177 | the loop collects exactly `MainTexts` |
| Crawl.MainTextsSound | app/scrapers/eltribuno_salta.py:172-177 | every collected text passes the filter (non-empty, longer than 20, no keyword, no leading '¿', not all upper case) and is a stripped page paragraph |
| Crawl.MainTextsComplete | app/scrapers/eltribuno_salta.py:169-177 | every page paragraph whose stripped text passes the filter is collected |
| Crawl.MoreKeywordsKeepFewer | app/scrapers/informate_salta.py:220 | a keyword list holding every keyword of another keeps only paragraphs the other keeps, so adding "newsletter" only removes paragraphs |
| Crawl.FallbackEmptyIffNoneKept | app/scrapers/eltribuno_salta.py:179-184 | the page-wide fallback content is empty exactly when no paragraph is collected |
| Crawl.FallbackHasMainParagraph | app/scrapers/eltribuno_salta.py:180 | each of the first ten collected paragraphs appears in the fallback content |
| Crawl.FallbackIgnoresLaterParagraphs | app/scrapers/eltribuno_salta.py:180 | once ten paragraphs are collected, later page paragraphs change nothing |
| Crawl.FirstFound | app/scrapers/informate_salta.py:184-188 | absent exactly when no selector finds anything; otherwise one of the selectors' finds |
| Crawl.FirstFoundIsFirst | app/scrapers/informate_salta.py:185-188 | the selectors before the chosen one find nothing |
| Crawl.ContentElement | app/scrapers/informate_salta.py:184-196 | no content element exactly when no selector finds anything and the page has no `<p>` |
| Crawl.FallbackNeverContributes | app/scrapers/informate_salta.py:190-230 | the page-wide filter never produces content: without a content element the page has no `<p>` and the result is ("", ""); otherwise it is the element's content |
| Crawl.ExtractSelected | app/scrapers/informate_salta.py:170-230 | the selector loop, the first paragraph's parent and the fallback give the selector-driven content |
| Walks.WalkTakenTwice | app/scrapers/eltribuno.py:44-114 | without a seen set, a link that yields an article and comes twice in a row is offered twice |
| Walks.WalkStoppedStays | app/scrapers/eltribuno.py:62-65 | after the stop, later links change nothing |
| Walks.PrefixJudging | app/scrapers/eltribuno_salta.py:47-69 | whether a link is judged depends only on the links before it |
| Walks.WalkState | app/scrapers/eltribuno_salta.py:47-69 | the walk has stopped exactly when a judged link was old, and the seen URLs are those of the reached links |
| Walks.WalkSound | app/scrapers/eltribuno_salta.py:47-114 | every offered article was taken by a judged link |
| Walks.WalkComplete | app/scrapers/eltribuno_salta.py:47-114 | every article a judged link takes is offered |
| Walks.WalkOfferedGrows | app/scrapers/eltribuno_salta.py:113 | a step never withdraws an offer |
| Walks.WalkSeenGrows | app/scrapers/eltribuno_salta.py:52-54 | later links never unmark a URL |
| Walks.WalkDistinct | app/scrapers/eltribuno_salta.py:52-54 | with a seen set every offered URL is marked seen and no URL is offered twice |
| Walks.WalkStopsAtOld | app/scrapers/eltribuno_salta.py:66-69 | the walk stops exactly when some judged link is old |
| Walks.FirstOld | app/scrapers/eltribuno_salta.py:66-69 | among the old unseen links, the first one is judged |
| Batches.PageVisits | app/scrapers/jujuyalmomento.py:58-61 | one visit per new URL of the page, in walking order |
| Batches.ReadUntil | app/scrapers/jujuyalmomento.py:23-56 | the number of pages read lies between the start and the last page |
| Batches.ReadUntilEnds | app/scrapers/jujuyalmomento.py:54-56 | the reading stops at the last page or right after the first page that ends it |
| Batches.ReadUntilGoesOn | app/scrapers/jujuyalmomento.py:54-56 | every page read before the last one let the reading go on |
| Batches.BatchRead | app/scrapers/jujuyalmomento.py:23-85 | the number of listing pages read is between the start and the number of pages |
| Batches.BatchStep | app/scrapers/jujuyalmomento.py:50-61 | a page visits its URLs not yet seen; a page with none adds nothing |
| Batches.BatchVisitsAre | app/scrapers/jujuyalmomento.py:63-75 | every visit is the verdict on its own URL |
| Batches.BatchVisitsListed | app/scrapers/jujuyalmomento.py:42-58 | every visited URL is listed on one of the pages read |
| Batches.NoUrlRevisited | app/scrapers/jujuyalmomento.py:50-61 | URLs seen before a page is read are not visited again on it |
| Batches.BatchJudgesAllNew | app/scrapers/jujuyalmomento.py:50-61 | when the set is iterated in full, every URL of a page not seen before it gets a visit on that page, and is marked seen by the page's end unless the walk has stopped |
| Batches.BatchReadEnds | app/scrapers/jujuyalmomento.py:23-85 | the crawl reads on until the last page, a page with no new URL, or a page whose walk stopped |
| Batches.BatchReadOn | app/scrapers/jujuyalmomento.py:50-85 | every page read before the last had new URLs and left the walk going |
| Dates.DaysInMonth | app/scrapers/eltribuno.py:59 | a month has 28 to 31 days, 29 exactly for February of a leap year |
| Dates.MakeDate | app/scrapers/eltribuno.py:59 | `datetime.date(y, m, d)` succeeds exactly on a valid date, and then holds those fields |
| Dates.DateOrToday | app/scrapers/quepasasalta.py:194-218 | a valid date is built as given; an invalid one falls back to today |
| Dates.BeforeIsKeyOrder | app/scrapers/eltribuno.py:62 | date order is the order of (year, month, day) |
| Dates.BeforeIrreflexive | app/scrapers/eltribuno.py:62 | no date is before itself |
| Dates.BeforeTransitive | app/scrapers/eltribuno.py:62 | date order is transitive |
| Dates.BeforeTotal | app/scrapers/eltribuno.py:62 | any two dates are equal or ordered one way or the other |
| Dates.FromIsoFormat | app/scrapers/somosjujuy.py:136 | a date read from ISO text is valid |
| Dates.IsoRoundTrip | app/query_service.py:53 | reading back the ISO form of a valid date gives the date |
| Dates.IsoOfRead | app/query_service.py:53 | a string that reads as an ISO date is the ISO form of that date |
| Dates.DayDirective | app/scrapers/jujuydice.py:116 | a `%d` field reads as a day from 1 to 31 |
| Dates.MonthDirective | app/scrapers/jujuydice.py:116 | a `%m` field reads as a month from 1 to 12 |
| Dates.YearDirective | app/scrapers/jujuydice.py:116 | a `%Y` field of four digits reads as a year below 10000 |
| Dates.StrptimeDmy | app/scrapers/jujuydice.py:116 | `strptime` with a day-first format gives only valid dates |
| Dates.StrptimeRoundTrip | app/scrapers/jujuydice.py:116 | the zero-padded day-first form of a valid date reads back as that date |
| Dates.StrptimeShortFields | app/scrapers/jujuydice.py:116 | one-digit days and months without padding are accepted too |
| Dates.StrptimeReads | app/scrapers/jujuydice.py:116 | a string that reads as a date is day, separator, month, separator and a four-digit year whose fields give the date |
| Dates.MonthNumber | app/scrapers/quepasasalta.py:202-210 | a month name found in the table gives its position from 1 to 12; a name not in the table gives nothing |
| Dates.MonthNamesRecognised | app/scrapers/quepasasalta.py:202-205 | each of the twelve Spanish month names gives its own number |
| Dates.MonthNameIsLowerWord | app/scrapers/todojujuy.py:179-186 | every month name is a non-empty lower-case word, so it can be matched after lower-casing |
| Dates.MonthNamesDistinct | app/scrapers/quepasasalta.py:202-205 | no two months share a name |
| Dates.DateTimeDate | app/scrapers/somosjujuy.py:136 | a date read by `datetime.fromisoformat(...).date()` is valid and is the date written in the first ten characters |
| Dates.DateTimeRoundTrip | app/scrapers/jujuyalmomento.py:140 | an ISO date, alone or followed by a separator and a time, reads back as that date |
| ElTribuno.PageUrlsDistinct | app/scrapers/eltribuno.py:27 | different page numbers give different listing URLs, page 1 being the bare section URL |
| ElTribuno.SegmentDate | app/scrapers/eltribuno.py:55-59 | a date read from the last URL segment is valid; a segment with fewer than three dash-separated parts gives none |
| ElTribuno.SegmentDateRoundTrip | app/scrapers/eltribuno.py:55-59 | a URL whose last segment starts with a valid date's year, month and day reads back as that date |
| ElTribuno.Content | app/scrapers/eltribuno.py:132-141 | without an `<article>` the content is ("", ""); otherwise the raw content is the article's HTML |
| ElTribuno.ContentHasEveryParagraph | app/scrapers/eltribuno.py:138-139 | every stripped paragraph appears in the content |
| ElTribuno.ContentKeepsEmptyParagraphs | app/scrapers/eltribuno.py:139 | empty paragraphs are not dropped: n empty paragraphs give n-1 blank-line separators |
| ElTribuno.Offer | app/scrapers/eltribuno.py:47-107 | an item yields an article exactly when it has a link, a date in its URL, a heading and a detail page; the article has that URL, the media id and the URL's date |
| ElTribuno.VisitOf | app/scrapers/eltribuno.py:44-114 | an item stops the crawl exactly when its URL date is before the limit; a taken item's article is its offer and within the limit; a skipped item has no offer and is not old |
| ElTribuno.Scrape | app/scrapers/eltribuno.py:17-130 | the crawl reads pages until an empty page or the limit; it offers exactly what the walk without a seen set offers over the items read, and the count is the number of accepted offers |
| ElTribuno.ScrapePage | app/scrapers/eltribuno.py:44-118 | the item loop of one page continues the walk and keeps the count equal to the accepted offers |
| ElTribuno.ScrapeItem | app/scrapers/eltribuno.py:45-118 | one item is one walk step, and the count moves with the store's answer |
| ElTribuno.OffersSound | app/scrapers/eltribuno.py:59-107 | every offered article is dated, within the limit, and is the offer of some item read |
| ElTribuno.StopsAtOldItem | app/scrapers/eltribuno.py:62-65 | the walk stops exactly when some item read is old |
| ElTribuno.ItemsBeforeStopOffered | app/scrapers/eltribuno.py:44-107 | an item with an offer and no old item up to it is offered |
| ElTribunoSalta.PageUrlsDistinct | app/scrapers/eltribuno_salta.py:29 | different page numbers give different listing URLs |
| ElTribunoSalta.ShortField | app/scrapers/eltribuno_salta.py:58 | a `\d{1,2}-` field is one or two digits followed by a dash |
| ElTribunoSalta.DateMatchAt | app/scrapers/eltribuno_salta.py:58 | a match at a position starts with `/policiales/` there and holds the date's digit groups |
| ElTribunoSalta.DateSearch | app/scrapers/eltribuno_salta.py:58 | `re.search` returns digit groups of the date pattern |
| ElTribunoSalta.UrlDate | app/scrapers/eltribuno_salta.py:58-63 | a date read from the URL is valid |
| ElTribunoSalta.NoMarkerNoDate | app/scrapers/eltribuno_salta.py:58-60 | a URL without `/policiales/` has no date, so the link is skipped |
| ElTribunoSalta.UrlDateRoundTrip | app/scrapers/eltribuno_salta.py:57-63 | an article URL built from a valid date and a time reads back as that date |
| ElTribunoSalta.UrlTitleIsSlug | app/scrapers/eltribuno_salta.py:82-88 | the title taken from a URL is its slug after the six date and time fields, dashes as spaces, in title case |
| ElTribunoSalta.ExtractContent | app/scrapers/eltribuno_salta.py:140-187 | the `<article>` branch, the `nota--gral` branch and the page-wide fallback give the content function |
| ElTribunoSalta.LinkTitle | app/scrapers/eltribuno_salta.py:74-88 | a link with text uses that text; an empty title means the link text, the heading and the URL slug are all empty |
| ElTribunoSalta.Offer | app/scrapers/eltribuno_salta.py:49-111 | an offered article has the link's URL, the URL's date, a non-empty title and the media id |
| ElTribunoSalta.VisitOf | app/scrapers/eltribuno_salta.py:47-114 | a link stops the crawl exactly when its URL date is before the limit; a taken link's article is its offer and within the limit; a skipped link has no offer and is not old |
| ElTribunoSalta.Scrape | app/scrapers/eltribuno_salta.py:18-138 | the crawl reads pages until one without links or the limit; it offers exactly what the walk with a seen set offers over the links read, and the count is the number of accepted offers |
| ElTribunoSalta.ScrapePage | app/scrapers/eltribuno_salta.py:47-126 | the link loop of one page continues the walk and keeps the count |
| ElTribunoSalta.ScrapeLink | app/scrapers/eltribuno_salta.py:48-126 | one link is one walk step, and the count moves with the store's answer |
| ElTribunoSalta.OffersSound | app/scrapers/eltribuno_salta.py:49-114 | every offered article is within the limit and is some link's offer, and no URL is offered twice |
| ElTribunoSalta.StopsAtOldLink | app/scrapers/eltribuno_salta.py:52-69 | the walk stops exactly when some judged link is old |
| ElTribunoSalta.JudgedArticlesOffered | app/scrapers/eltribuno_salta.py:52-113 | a judged link with an offer that is not old is offered |
| InformateSalta.PageRequestsDistinct | app/scrapers/informate_salta.py:33-43 | page 1 is a plain GET of the section and only page 1 is; later pages ask the paging endpoint for category 13 and their own number; different pages make different requests |
| InformateSalta.SlashDate | app/scrapers/informate_salta.py:98-99 | a date read from `DD/MM/YYYY` text is valid; text that does not split into three pieces gives none; a piece beyond a C `int` also gives none, and `DateOverflows` tells that case apart for the caller |
| InformateSalta.ListingDate | app/scrapers/informate_salta.py:93-106 | for a date that does not overflow a C `int` (an overflowing one is skipped before this is read): without a date element the date is today; otherwise it is the date the stripped text reads as, or today |
| InformateSalta.SlashReads | app/scrapers/informate_salta.py:98-99 | padded day, month and year read as `datetime.date` of them, which fails exactly on an invalid date |
| InformateSalta.SlashDateFromPieces | app/scrapers/informate_salta.py:98-99 | three digit pieces read as the date of their values |
| InformateSalta.SlashDateRoundTrip | app/scrapers/informate_salta.py:93-99 | the `DD/MM/YYYY` form of a valid date reads back as that date |
| InformateSalta.NonexistentDateIsToday | app/scrapers/informate_salta.py:98-103 | a well-formed but nonexistent date whose numbers fit a C `int` raises ValueError, which is caught, so it falls back to today |
| InformateSalta.OverflowSkips | app/scrapers/informate_salta.py:96-147 | a day, month or year too large for a C `int` makes `datetime.date` raise OverflowError, which `except ValueError` does not catch: the item is skipped by the per-article handler, however old, and offers nothing |
| InformateSalta.OutOfRangeOverflows | app/scrapers/informate_salta.py:98-99 | padded numbers one of which is at least 2^31 overflow |
| InformateSalta.InRangeNoOverflow | app/scrapers/informate_salta.py:98-99 | padded numbers that all fit a C `int` do not overflow |
| InformateSalta.UnreadableDateIsToday | app/scrapers/informate_salta.py:100-106 | a missing date or one that is not three pieces falls back to today |
| InformateSalta.Title | app/scrapers/informate_salta.py:84-90 | the title is the stripped heading when that is non-empty; otherwise there is none |
| InformateSalta.Offer | app/scrapers/informate_salta.py:72-132 | an item is offered exactly when it has a link, a title, a date that does not overflow a C `int` and a detail page; the article carries its URL, title, listing date and the media id |
| InformateSalta.VisitOf | app/scrapers/informate_salta.py:69-147 | an item stops the crawl exactly when it is titled, its date does not overflow, and its listing date is before the limit; a taken item's article is its offer and within the limit; a skipped one has no offer and is not old |
| InformateSalta.Linked | app/scrapers/informate_salta.py:72-74 | the items with a link are no more than the items |
| InformateSalta.LinkedExactly | app/scrapers/informate_salta.py:72-74 | exactly the items with a link are walked |
| InformateSalta.Scrape | app/scrapers/informate_salta.py:20-168 | the crawl reads pages until an empty one or the limit; it offers exactly what the walk with a seen set offers over the linked items read, and the count is the number of accepted offers |
| InformateSalta.ScrapePage | app/scrapers/informate_salta.py:69-147 | the item loop of one page continues the walk and keeps the count |
| InformateSalta.ScrapeItem | app/scrapers/informate_salta.py:70-147 | one linked item is one walk step, and the count moves with the store's answer |
| InformateSalta.OffersSound | app/scrapers/informate_salta.py:76-135 | every offered article is within the limit and is some item's offer, and no URL is offered twice |
| InformateSalta.StopsAtOldItem | app/scrapers/informate_salta.py:79-112 | the walk stops exactly when some judged item is old |
| InformateSalta.JudgedArticlesOffered | app/scrapers/informate_salta.py:79-135 | a judged item with an offer that is not old is offered |
| InformateSalta.UndatedIsToday | app/scrapers/informate_salta.py:104-112 | an undated item with a title is dated today, so it stops the crawl when today is before the limit |
| QuePasaSalta.AjaxPagesZeroBased | app/scrapers/quepasasalta.py:36-53 | page 1 is a plain GET and only page 1 is; page n is an AJAX POST for category 49 with the zero-based page n-1; different pages make different requests |
| QuePasaSalta.ThreeInts | app/scrapers/quepasasalta.py:193 | text that does not split into three pieces cannot be unpacked into day, month and year |
| QuePasaSalta.ParseDate | app/scrapers/quepasasalta.py:188-218 | `_parse_date` gives today or a valid date |
| QuePasaSalta.ItemDate | app/scrapers/quepasasalta.py:118-125 | without a date element the date is today; otherwise it is `_parse_date` of the stripped text |
| QuePasaSalta.SlashShapeOf | app/scrapers/quepasasalta.py:192 | two-digit day and month and four leading year digits match the slash pattern |
| QuePasaSalta.SlashDateFromPieces | app/scrapers/quepasasalta.py:192-194 | slash-shaped text of three digit pieces gives their date, or today when it does not exist |
| QuePasaSalta.SlashDateBadYear | app/scrapers/quepasasalta.py:192-218 | slash-shaped text whose last piece is not an integer gives today |
| QuePasaSalta.NotSlashShape | app/scrapers/quepasasalta.py:192 | text whose second and third characters are digits does not match the slash pattern |
| QuePasaSalta.DashShapeOf | app/scrapers/quepasasalta.py:197 | four-digit year, two-digit month and day match the dash pattern |
| QuePasaSalta.DashDateFromPieces | app/scrapers/quepasasalta.py:197-199 | dash-shaped text of three digit pieces gives their date, or today when it does not exist |
| QuePasaSalta.SpelledDate | app/scrapers/quepasasalta.py:201-214 | a spelled-out date gives its date when the month name is in the table (or today when the date does not exist), and today when the month name is not in the table |
| QuePasaSalta.SlashReads | app/scrapers/quepasasalta.py:192-194 | a padded day/month/year reads as that date, or today when it does not exist |
| QuePasaSalta.SlashRoundTrip | app/scrapers/quepasasalta.py:192-194 | the `DD/MM/YYYY` form of a valid date reads back as that date |
| QuePasaSalta.NonexistentSlashDateIsToday | app/scrapers/quepasasalta.py:194-218 | a well-formed but nonexistent date gives today |
| QuePasaSalta.TrailingTextIsToday | app/scrapers/quepasasalta.py:192-218 | a slash date followed by a space and more text passes the prefix match but fails `int()`, so it gives today |
| QuePasaSalta.SpaceInsideBreaksInt | app/scrapers/quepasasalta.py:193 | `int()` refuses digits followed by a space and more text |
| QuePasaSalta.IsoReadsBack | app/scrapers/quepasasalta.py:197-199 | the ISO form of a valid date reads back as that date |
| QuePasaSalta.SpelledNotNumeric | app/scrapers/quepasasalta.py:192-197 | a spelled date matches neither numeric pattern |
| QuePasaSalta.SpelledIsLower | app/scrapers/quepasasalta.py:206 | a spelled date with a lower-case month is unchanged by lower-casing |
| QuePasaSalta.SpelledGroupsOf | app/scrapers/quepasasalta.py:206-208 | the spelled-date pattern captures day, month word and year |
| QuePasaSalta.SpelledTextReads | app/scrapers/quepasasalta.py:206-214 | "d de mes de yyyy" gives the date when the month is known (or today when the date does not exist), today otherwise |
| QuePasaSalta.SpelledReads | app/scrapers/quepasasalta.py:206-214 | the same for a spelled date built from numbers and a lower-case word |
| QuePasaSalta.SpelledRoundTrip | app/scrapers/quepasasalta.py:202-210 | every valid date spelled with its Spanish month name reads back as that date |
| QuePasaSalta.MonthNamesLowerWords | app/scrapers/quepasasalta.py:202-205 | every month name is a lower-case `\w+` word |
| QuePasaSalta.UnknownMonthIsToday | app/scrapers/quepasasalta.py:209-214 | a spelled date with a month word not in the table gives today |
| QuePasaSalta.SectionUrlPasses | app/scrapers/quepasasalta.py:93-97 | the section's own address passes the article-URL filter |
| QuePasaSalta.Title | app/scrapers/quepasasalta.py:105-115 | the title is the stripped heading when that is non-empty; otherwise there is none |
| QuePasaSalta.Offer | app/scrapers/quepasasalta.py:89-151 | an item is offered exactly when it has a link, a title and a detail page; the article carries its URL, title, item date and the media id |
| QuePasaSalta.VisitOf | app/scrapers/quepasasalta.py:86-154 | an item stops the crawl exactly when its date is before the limit; a taken item's article is its offer and within the limit; a skipped one has no offer and is not old |
| QuePasaSalta.Candidates | app/scrapers/quepasasalta.py:89-97 | the candidate items are no more than the items |
| QuePasaSalta.CandidatesExactly | app/scrapers/quepasasalta.py:89-97 | exactly the items with a link that passes the article-URL filter are walked |
| QuePasaSalta.Scrape | app/scrapers/quepasasalta.py:21-186 | the crawl reads pages until an empty one or the limit; it offers exactly what the walk with a seen set offers over the candidates read, and the count is the number of accepted offers |
| QuePasaSalta.ScrapePage | app/scrapers/quepasasalta.py:86-165 | the item loop of one page continues the walk and keeps the count |
| QuePasaSalta.ScrapeItem | app/scrapers/quepasasalta.py:87-165 | one candidate is one walk step, and the count moves with the store's answer |
| QuePasaSalta.OffersSound | app/scrapers/quepasasalta.py:93-154 | every offered article is within the limit, has an article URL and is some item's offer, and no URL is offered twice |
| QuePasaSalta.StopsAtOldItem | app/scrapers/quepasasalta.py:100-131 | the walk stops exactly when some judged candidate is old |
| QuePasaSalta.JudgedArticlesOffered | app/scrapers/quepasasalta.py:100-154 | a judged candidate with an offer that is not old is offered |
| QuePasaSalta.CommentsNeverKept | app/scrapers/quepasasalta.py:266-274 | no paragraph the page-wide filter keeps mentions "comentarios" |
| TodoJujuy.PageUrl | app/scrapers/todojujuy.py:20-28 | page 0 is the bare section URL and only page 0 is; later pages are the section URL, a slash and the number |
| TodoJujuy.PageUrlReadBack | app/scrapers/todojujuy.py:28 | the page number can be read back from the end of a later page's URL |
| TodoJujuy.PageUrlsDistinct | app/scrapers/todojujuy.py:28 | different page numbers give different listing URLs |
| TodoJujuy.Anchored | app/scrapers/todojujuy.py:51 | `$` matches at the end or before one final newline: the text the pattern must end is the URL without that newline |
| TodoJujuy.TrailingDigitsStart | app/scrapers/todojujuy.py:55 | the start of the longest run of digits at the end of a string |
| TodoJujuy.ArticleId | app/scrapers/todojujuy.py:51-55 | a found article id is a non-empty run of digits that, after an "n", ends the URL |
| TodoJujuy.ArticleIdOf | app/scrapers/todojujuy.py:51-55 | a URL ending in "n" and digits has those digits as its id |
| TodoJujuy.ArticleIdBeforeNewline | app/scrapers/todojujuy.py:51-55 | one trailing newline does not change the id |
| TodoJujuy.HeadlineDate | app/scrapers/todojujuy.py:168-187 | the headline date, when it gives one, is today or a valid date |
| TodoJujuy.GroupsDate | app/scrapers/todojujuy.py:222-233 | three captured groups give a valid date or today |
| TodoJujuy.PatternsDate | app/scrapers/todojujuy.py:219-226 | the first pattern that matches gives a valid date or today |
| TodoJujuy.ElementDate | app/scrapers/todojujuy.py:200-226 | a date element gives, when it gives anything, a valid date or today; its `datetime` attribute is cut at the first "T" and read by `datetime.fromisoformat(...).date()` |
| TodoJujuy.SelectorDate | app/scrapers/todojujuy.py:198-229 | the selector loop gives a valid date or today |
| TodoJujuy.ArticleDate | app/scrapers/todojujuy.py:164-233 | `_extract_date` gives a valid date or today |
| Patterns.FirstMatchIsFirst | app/scrapers/todojujuy.py:220 | the leftmost match from a position has no match before it, and finding none means no position matches |
| Patterns.SearchSpec | app/scrapers/todojujuy.py:172-220 | `re.search` finds nothing exactly when the pattern matches nowhere, and otherwise returns a match at some position |
| Patterns.SearchFindsFirst | app/scrapers/todojujuy.py:172-220 | the match `re.search` returns is the one at the leftmost matching position |
| Patterns.SpelledOutOf | app/scrapers/todojujuy.py:172 | digits, " de ", a word, " de " and four digits match the spelled-date pattern with those three groups |
| Patterns.SpelledSearchOf | app/scrapers/todojujuy.py:170-172 | searching the stripped text of a spelled-out date finds that date's groups |
| Patterns.DayFirstOf | app/scrapers/todojujuy.py:214-215 | a one- or two-digit day and month and a four-digit year joined by the separator match with those groups |
| Patterns.DayFirstNeedsSeparator | app/scrapers/todojujuy.py:214-215 | a day-first pattern finds nothing in text without its separator |
| TodoJujuy.MatchPatterns | app/scrapers/todojujuy.py:213-226 | the pattern loop gives the first matching pattern's date |
| TodoJujuy.ExtractDate | app/scrapers/todojujuy.py:164-233 | the headline branch, the selector loop and the pattern loop give `ArticleDate` |
| TodoJujuy.HeadlineDateOf | app/scrapers/todojujuy.py:172-187 | a spelled-out headline date with a known month gives that date (or today when it does not exist); an unknown month gives none |
| TodoJujuy.HeadlineGroups | app/scrapers/todojujuy.py:172 | the headline pattern captures day, month name and year of "d de mes de yyyy" followed by any tail |
| TodoJujuy.HeadlineNumbers | app/scrapers/todojujuy.py:172-187 | a headline built from day, month name and year gives that date, or today when it does not exist |
| TodoJujuy.HeadlineRoundTrip | app/scrapers/todojujuy.py:168-187 | the headline text of a valid date, as the site writes it, reads back as that date |
| TodoJujuy.UnknownMonthFallsThrough | app/scrapers/todojujuy.py:185-198 | a headline whose month word is not in the table falls through to the selector loop |
| TodoJujuy.NonexistentHeadlineDateIsToday | app/scrapers/todojujuy.py:187-232 | a headline naming a nonexistent date raises, so the date is today |
| TodoJujuy.ElementTextDate | app/scrapers/todojujuy.py:209-226 | an element without a `datetime` attribute is read through the text patterns |
| TodoJujuy.NumericPatternsInOrder | app/scrapers/todojujuy.py:213-226 | slash day-first is tried first, then dash day-first, then year-first |
| TodoJujuy.GroupsDigits | app/scrapers/todojujuy.py:223-226 | a four-digit first group is read year-first; otherwise day-first |
| TodoJujuy.SlashSearch | app/scrapers/todojujuy.py:214-220 | the slash pattern finds day, month and year in the `DD/MM/YYYY` form of a date |
| TodoJujuy.SlashTextReads | app/scrapers/todojujuy.py:209-226 | the `DD/MM/YYYY` text of a valid date reads back as that date |
| TodoJujuy.IsoNotDayFirst | app/scrapers/todojujuy.py:215-220 | the dash day-first pattern never matches an ISO date |
| TodoJujuy.IsoSearch | app/scrapers/todojujuy.py:216-220 | the year-first pattern finds year, month and day in an ISO date |
| TodoJujuy.IsoTextReads | app/scrapers/todojujuy.py:209-226 | the ISO text of a valid date reads back as that date |
| TodoJujuy.DatetimeAttributeReads | app/scrapers/todojujuy.py:202-205 | a `datetime` attribute of an ISO date reads back as that date, with a time after "T" or after a space (what `datetime.fromisoformat` accepts of the part before the first "T") |
| TodoJujuy.SelectorDateIsFirst | app/scrapers/todojujuy.py:198-226 | the first selector whose element gives a date decides |
| TodoJujuy.NoDateIsToday | app/scrapers/todojujuy.py:228-229 | when no selector gives a date the date is today |
| TodoJujuy.FirstTitle | app/scrapers/todojujuy.py:151-158 | with a non-empty fallback the selector loop gives a non-empty title |
| TodoJujuy.FirstTitleSource | app/scrapers/todojujuy.py:151-158 | the selector loop gives the first non-empty stripped element text, or the fallback |
| TodoJujuy.FinalTitleNonEmpty | app/scrapers/todojujuy.py:137-158 | without a headline element and with a non-empty fallback the final title is non-empty |
| TodoJujuy.FinalTitleSource | app/scrapers/todojujuy.py:128-162 | the final title is the headline, the `<title>`, a selector's text or the fallback |
| TodoJujuy.EmptyHeadlineWins | app/scrapers/todojujuy.py:132-134 | an empty headline element still wins, so the title is empty |
| TodoJujuy.ExtractTitle | app/scrapers/todojujuy.py:128-162 | the headline, `<title>` and selector steps give `FinalTitle` |
| TodoJujuy.KeptTexts | app/scrapers/todojujuy.py:248-253 | the kept paragraphs are no more than the paragraphs |
| TodoJujuy.KeptTextsSound | app/scrapers/todojujuy.py:249-253 | every kept text passes the filter and is a stripped paragraph |
| TodoJujuy.KeptTextsComplete | app/scrapers/todojujuy.py:249-253 | every paragraph whose stripped text passes the filter is kept |
| TodoJujuy.PageContent | app/scrapers/todojujuy.py:235-261 | without any container the content is ("", ""); otherwise the raw content is the container's HTML |
| TodoJujuy.BoilerplateLeftOut | app/scrapers/todojujuy.py:249-255 | every kept part is non-empty, free of "Copyright ©" and "Sumate al Canal", and appears in the content |
| TodoJujuy.ExtractContent | app/scrapers/todojujuy.py:235-261 | the container choice and the paragraph loop give `PageContent` |
| TodoJujuy.Title | app/scrapers/todojujuy.py:60-68 | the listing title is the stripped link text, else the child heading's; there is none exactly when both are empty |
| TodoJujuy.Offer | app/scrapers/todojujuy.py:60-99 | a link is offered exactly when it has a title and a detail page; the article has its URL, the media id, the page's date and the final title |
| TodoJujuy.VisitOf | app/scrapers/todojujuy.py:46-102 | a link stops the crawl exactly when its page date is before the limit; a taken link's article is its offer and within the limit; a skipped one has no offer and is not old |
| TodoJujuy.Candidates | app/scrapers/todojujuy.py:48-52 | the candidate links are no more than the links |
| TodoJujuy.CandidatesExactly | app/scrapers/todojujuy.py:48-52 | exactly the links whose URL ends in "n" and digits are walked |
| TodoJujuy.Scrape | app/scrapers/todojujuy.py:18-126 | the crawl reads pages until one without links or the limit; it offers exactly what the walk without a seen set offers over the candidates read, and the count is the number of accepted offers |
| TodoJujuy.ScrapePage | app/scrapers/todojujuy.py:46-114 | the link loop of one page continues the walk and keeps the count |
| TodoJujuy.ScrapeAt | app/scrapers/todojujuy.py:47-114 | one link of the page moves the walk by its view |
| TodoJujuy.ScrapeLink | app/scrapers/todojujuy.py:59-110 | one candidate is one walk step, and the count moves with the store's answer |
| TodoJujuy.OffersSound | app/scrapers/todojujuy.py:51-102 | every offered article is within the limit, has an article id in its URL, is dated today or validly, and is some link's offer |
| TodoJujuy.StopsAtOldLink | app/scrapers/todojujuy.py:78-84 | the walk stops exactly when some reached candidate is old |
| TodoJujuy.ReachedArticlesOffered | app/scrapers/todojujuy.py:46-102 | a reached candidate with an offer that is not old is offered |
| TodoJujuy.RepeatedLinkOfferedAgain | app/scrapers/todojujuy.py:46-102 | without a seen set, a link listed twice in a row is offered twice |
| JujuyAlMomento.PageUrl | app/scrapers/jujuyalmomento.py:25-28 | page 1 is the bare section URL and only page 1 is; later pages add `?page=` and the number |
| JujuyAlMomento.PageUrlReadBack | app/scrapers/jujuyalmomento.py:28 | the page number can be read back from a later page's URL |
| JujuyAlMomento.PageUrlsDistinct | app/scrapers/jujuyalmomento.py:25-28 | different page numbers give different listing URLs |
| JujuyAlMomento.TagPageUrl | app/scrapers/jujuyalmomento.py:181-184 | page 1 of a tag is the base URL, a slash and the tag; later pages add a slash and a number |
| JujuyAlMomento.TagPageUrlReadBack | app/scrapers/jujuyalmomento.py:184 | page n of a tag ends with the number n-1 |
| JujuyAlMomento.TagPageUrlsDistinct | app/scrapers/jujuyalmomento.py:181-184 | different page numbers give different tag URLs |
| JujuyAlMomento.NewsArticle | app/scrapers/jujuyalmomento.py:121-126 | a found object has `@type` "NewsArticle" |
| JujuyAlMomento.FirstNews | app/scrapers/jujuyalmomento.py:123-124 | a found list item has `@type` "NewsArticle" |
| JujuyAlMomento.FirstNewsIs | app/scrapers/jujuyalmomento.py:124 | the first NewsArticle object in the list, after only other objects, is the one found |
| JujuyAlMomento.FirstNewsSound | app/scrapers/jujuyalmomento.py:124 | the found object is in the list with only other objects before it |
| JujuyAlMomento.NonObjectFirstLosesArticle | app/scrapers/jujuyalmomento.py:124-152 | a non-object item before any NewsArticle makes `item.get` raise, so no article is read |
| JujuyAlMomento.ReadArticle | app/scrapers/jujuyalmomento.py:115-152 | a parsed article has a valid date, and anything but "no article" needs a script holding a NewsArticle |
| JujuyAlMomento.ReadArticleOf | app/scrapers/jujuyalmomento.py:132-148 | a NewsArticle with a headline, a readable date and a body gives the stripped headline, that date and the stripped body |
| JujuyAlMomento.ListedNewsFirst | app/scrapers/jujuyalmomento.py:123-126 | a list whose first item is the NewsArticle reads like that object alone |
| JujuyAlMomento.MissingFieldNoArticle | app/scrapers/jujuyalmomento.py:136-138 | a falsy headline, date or body gives no article |
| JujuyAlMomento.UnreadableDateIsMalformed | app/scrapers/jujuyalmomento.py:140-150 | a date string `fromisoformat` refuses raises a ValueError the handler does not catch |
| JujuyAlMomento.Offer | app/scrapers/jujuyalmomento.py:64-79 | a URL is offered exactly when its page is fetched and its article is parsed; the article has the URL, a valid date and the media name |
| JujuyAlMomento.VisitOf | app/scrapers/jujuyalmomento.py:58-80 | a URL stops the crawl exactly when its date is before the limit or unreadable; a taken URL's article is its offer and within the limit; a skipped one has no offer and a readable date |
| JujuyAlMomento.CrawlRead | app/scrapers/jujuyalmomento.py:23-89 | the number of pages read lies between the start and the number of pages |
| JujuyAlMomento.RunVisitsAre | app/scrapers/jujuyalmomento.py:58-80 | every visit is the verdict on its own URL |
| JujuyAlMomento.RunVisitsListed | app/scrapers/jujuyalmomento.py:42-58 | when the set is iterated in full, every visit's URL is listed on a page read |
| JujuyAlMomento.OffersListed | app/scrapers/jujuyalmomento.py:42-80 | when the set is iterated in full, every offered article comes from a URL listed on a page read |
| JujuyAlMomento.OffersSound | app/scrapers/jujuyalmomento.py:58-80 | every offered article is its URL's offer, within the limit, and no URL is offered twice |
| JujuyAlMomento.OffersComplete | app/scrapers/jujuyalmomento.py:58-80 | a judged URL with an offer that is neither old nor badly dated is offered |
| JujuyAlMomento.StopsAtOldOrBadDate | app/scrapers/jujuyalmomento.py:73-89 | the crawl stops exactly when a judged URL is old or has an unreadable date |
| JujuyAlMomento.CrawlEnds | app/scrapers/jujuyalmomento.py:33-89 | the crawl reads on until the last page, a page with no new URL, or a stop; every earlier page let it go on |
| JujuyAlMomento.NoUrlVisitedTwice | app/scrapers/jujuyalmomento.py:50-61 | URLs seen before a page are not visited again on it |
| JujuyAlMomento.NewUrlsJudged | app/scrapers/jujuyalmomento.py:50-75 | on every page the crawl reads, each URL of `nuevas_urls` is judged by the article verdict, and is in `urls_vistas` by the page's end unless the crawl has stopped |
| JujuyAlMomento.Scrape | app/scrapers/jujuyalmomento.py:17-91 | the section crawl reads `CrawlRead` pages, offers what the walk offers, ends exactly when it stopped, and counts the accepted offers |
| JujuyAlMomento.CrawlPages | app/scrapers/jujuyalmomento.py:23-89 | the page loop, counted after the offers made before it |
| JujuyAlMomento.ScrapePage | app/scrapers/jujuyalmomento.py:58-82 | the URL loop of one page continues the walk and keeps the count |
| JujuyAlMomento.ScrapeUrl | app/scrapers/jujuyalmomento.py:59-82 | one URL is one walk step, and the count moves with the store's answer |
| JujuyAlMomento.ScrapeTags | app/scrapers/jujuyalmomento.py:160-174 | the four tags are crawled in order; each tag's count is its accepted offers after the earlier tags' offers, and the total is their sum and the count of all accepted offers |
| JujuyAlMomento.ScrapeTag | app/scrapers/jujuyalmomento.py:176-228 | one tag's crawl adds its offers and counts those accepted |
| JujuyDice.PageUrlReadBack | app/scrapers/jujuydice.py:24 | every listing URL starts with the template's prefix, the page number can be read back from the rest, and different pages give different URLs |
| JujuyDice.ParsearFecha | app/scrapers/jujuydice.py:111-118 | a date that is read is a valid calendar date |
| JujuyDice.ParsearFechaReads | app/scrapers/jujuydice.py:111-118 | empty text gives no date, and every valid date written day/month/year reads back as itself |
| JujuyDice.ParsearFechaOnlyDayMonthYear | app/scrapers/jujuydice.py:116 | text that reads as a date is a day, a slash, a month, a slash and four year digits spelling that date |
| JujuyDice.DottedDateReads | app/scrapers/jujuydice.py:69-70 | removing the dots before parsing lets a dotted day/month/year date read as that date |
| JujuyDice.SlashFormatHasNoDot | app/scrapers/jujuydice.py:116 | a date written day/month/year holds no dot, so removing dots leaves it unchanged |
| JujuyDice.ExtraerContenido | app/scrapers/jujuydice.py:120-153 | a failed fetch gives empty fields and no date; a fetched page keeps at most 60000 characters of its start as raw text, all of it when shorter, and a read date is valid |
| JujuyDice.CandidateOf | app/scrapers/jujuydice.py:61-72 | the page's body and raw text are kept, and the date chosen is valid |
| JujuyDice.PageValuesWin | app/scrapers/jujuydice.py:62-66 | a page with a title and a date is used as it is, whatever the listing says |
| JujuyDice.ListingValuesStandIn | app/scrapers/jujuydice.py:62-72 | when the page gives nothing, the listing's headline and dotted date stand in |
| JujuyDice.KindOf | app/scrapers/jujuydice.py:61-93 | a kept article has the URL and is acceptable under the limit; an old one needs a limit |
| JujuyDice.UntitledOrUndatedSkipped | app/scrapers/jujuydice.py:73-74 | an article is skipped exactly when, after the fallbacks, it has no title or no date |
| JujuyDice.NoLimitNoOld | app/scrapers/jujuydice.py:75 | without a limit no article is old |
| JujuyDice.PageAllAccount | app/scrapers/jujuydice.py:45-98 | the item loop judges exactly the items with a URL not seen before, in order, and records every URL |
| JujuyDice.PageStoppedStays | app/scrapers/jujuydice.py:77-79 | once a page has returned, later items change nothing |
| JujuyDice.PageSavedAccepted | app/scrapers/jujuydice.py:91-93 | the item loop only appends offers, and the saved count grows by the accepted ones |
| JujuyDice.PageAllSound | app/scrapers/jujuydice.py:56-93 | every offer is acceptable and no URL is offered twice, and the seen set only grows |
| JujuyDice.GoingOn | app/scrapers/jujuydice.py:23-107 | a crawl that has not ended has read every page and not returned; one that returned has ended |
| JujuyDice.EndedStays | app/scrapers/jujuydice.py:36-107 | once the crawl has ended, further pages change nothing |
| JujuyDice.StopsOnThirdOldOfAPage | app/scrapers/jujuydice.py:75-79 | the crawl returns exactly when some page read holds a third old article |
| JujuyDice.ZeroSavedEnds | app/scrapers/jujuydice.py:100-102 | a page that saves nothing is the last page read |
| JujuyDice.PagesAllSound | app/scrapers/jujuydice.py:23-107 | over all pages, every offer is acceptable and no URL is offered twice |
| JujuyDice.ScrapeItem | app/scrapers/jujuydice.py:46-98 | one listing item is one step of the item loop, and the count stays the number of accepted offers |
| JujuyDice.ScrapePage | app/scrapers/jujuydice.py:45-98 | the item loop of one page is the page's fold, and the count stays the number of accepted offers |
| JujuyDice.Scrape | app/scrapers/jujuydice.py:17-109 | the crawl offers, reads and returns as the page fold says, and returns the number of accepted offers |
| JujuyDice.OffersSound | app/scrapers/jujuydice.py:56-93 | every offered article is within the limit, listed and offered once |
| JujuyDice.ReturnsOnThirdOld | app/scrapers/jujuydice.py:75-79 | the crawl returns early exactly when some page read holds three old articles |
| JujuyDice.NoLimitNeverReturns | app/scrapers/jujuydice.py:75-79 | without a limit the crawl never returns early |
| JujuyDice.NoOldKinds | app/scrapers/jujuydice.py:75 | without a limit no judged article counts as old |
| Pregon.UrlsOfHrefsAre | app/scrapers/pregon.py:88-95 | one URL per headline link that has an href, each made absolute from its own href |
| Pregon.ExtraerUrlsArticulos | app/scrapers/pregon.py:83-98 | the loop returns the URLs of the headline links that have an href, in order |
| Pregon.FechaPublicada | app/scrapers/pregon.py:119-127 | a date that is read is a valid calendar date |
| Pregon.FechaPublicadaReads | app/scrapers/pregon.py:121-125 | every valid date written day-month-year reads back as itself |
| Pregon.FechaPublicadaOnlyThreePieces | app/scrapers/pregon.py:122-125 | text that reads as a date splits on '-' into exactly three numbers: day, month and year |
| Pregon.ContenidoHasText | app/scrapers/pregon.py:133-137 | the body is non-empty exactly when some paragraph has text after stripping |
| Pregon.Extraer | app/scrapers/pregon.py:100-147 | an extracted article has a title and a body, and a read date is valid |
| Pregon.ExtraerAccepts | app/scrapers/pregon.py:107-143 | an article is extracted exactly when the page was fetched, has a non-empty title and a paragraph with text; with no datePublished it has no date |
| Pregon.IdOf | app/scrapers/pregon.py:165-169 | a URL gives an id exactly when it contains "/nota/", and the id holds no slash |
| Pregon.ContentIdsAre | app/scrapers/pregon.py:163-169 | the ids are exactly the ids of the seen URLs that have one |
| Pregon.ExtraerIds | app/scrapers/pregon.py:163-169 | the loop collects the ids of the seen URLs in their iteration order |
| Pregon.NotaPrefixMark | app/scrapers/pregon.py:208 | the article URL prefix is the site followed by "/nota/", and the mark does not occur earlier |
| Pregon.IdAfterPrefix | app/scrapers/pregon.py:166-168 | after the prefix, the id is the text up to the next slash |
| Pregon.NotaUrlId | app/scrapers/pregon.py:168-208 | the id read back from a guessed article URL is the id it was built from |
| Pregon.NoticiaOf | app/scrapers/pregon.py:57-64 | the record has the URL, the media id and at most 60000 raw characters |
| Pregon.AddKeepsSound | app/scrapers/pregon.py:57-68 | inserting an article the database does not hold keeps the run sound, whether the commit succeeds (the article is held and counted) or raises (the phase fails on an undated or refused article) |
| Pregon.InitialStepSound | app/scrapers/pregon.py:33-71 | one URL of the first page keeps the run sound, including a failed commit, and the seen set only grows |
| Pregon.MoreStepSound | app/scrapers/pregon.py:203-240 | one "Ver Más" id keeps the run sound, including a failed commit, and the seen set only grows |
| Pregon.InitialAllSound | app/scrapers/pregon.py:33-71 | the first page's loop keeps the run sound |
| Pregon.MoreAllSound | app/scrapers/pregon.py:203-240 | one round's id loop keeps the run sound |
| Pregon.StoredSkippedBeforeCutoff | app/scrapers/pregon.py:47-49 | first-page URLs already stored are skipped before the date check, so they neither save nor stop |
| Pregon.OldStoredStopsMore | app/scrapers/pregon.py:219-223 | in a "Ver Más" round an old article stops the run even when it is already stored, and nothing is saved |
| Pregon.ServerIds | app/scrapers/pregon.py:191 | every non-zero id the server returns is among the ids, as text |
| Pregon.ServerIdsFrom | app/scrapers/pregon.py:191 | every id comes from a non-zero id the server returned |
| Pregon.IdsReplaced | app/scrapers/pregon.py:190-247 | a round that does not end had an answer, and the next request's ids are exactly the ids it returned |
| Pregon.EndedStays | app/scrapers/pregon.py:174-250 | once the rounds have ended, further rounds change nothing |
| Pregon.NoNewIdsEnds | app/scrapers/pregon.py:194-198 | a round whose ids are all known ends the rounds and saves nothing more |
| Pregon.OnlyFirstRoundsAsked | app/scrapers/pregon.py:174-185 | n rounds depend only on the server's answers to pages 1 to n |
| Pregon.MoreAllSame | app/scrapers/pregon.py:203-240 | the id loop does not depend on the server |
| Pregon.RoundsAllSound | app/scrapers/pregon.py:174-250 | all rounds keep the run sound |
| Pregon.RunAllSound | app/scrapers/pregon.py:18-81 | every saved article is new to the database, saved once, titled, with a body, dated, within the limit, tagged "pregon" and committed by the store; a stop was caused by an old article seen; a failed commit was caused by a seen article without a date or one the store refused |
| Pregon.UndatedNeverStops | app/scrapers/pregon.py:52-67 | when no article has a date, neither date check (lines 52 and 219) can stop the run, and nothing is saved, because the commit of an undated article raises |
| Pregon.ScrapedSound | app/scrapers/pregon.py:18-81 | the scrape over fetched pages is sound |
| Pregon.InitialUrl | app/scrapers/pregon.py:33-71 | one first-page URL is one step, in which a commit that raises fails the phase, and the count grows by one exactly when it saved |
| Pregon.MoreId | app/scrapers/pregon.py:203-240 | one "Ver Más" id is one step, in which a commit that raises fails the phase, and the count grows by one exactly when it saved |
| Pregon.MoreStoppedStays | app/scrapers/pregon.py:242-254 | once a round has stopped on the date or failed a commit, later ids change nothing |
| Pregon.ProcessIds | app/scrapers/pregon.py:203-240 | the id loop is the round's fold, which stops at a date stop or a failed commit, and the count is what it saved |
| Pregon.CargarMasArticulos | app/scrapers/pregon.py:149-256 | the "Ver Más" phase starts from the ids of the seen URLs and runs the twenty rounds, which end at a date stop or a failed commit, counting what it saved |
| Pregon.VerMasRounds | app/scrapers/pregon.py:174-254 | the round loop is the rounds' fold, in which a failed commit ends the rounds as the `except` does, and the count is what it saved |
| Pregon.InitialPage | app/scrapers/pregon.py:33-71 | the section page's URL loop is the first-page fold, which returns at a date stop and leaves at a failed commit, and the count is what it saved |
| Pregon.VerMasRound | app/scrapers/pregon.py:175-254 | one round is one step, the count is what it saved, and a round that does not end has neither stopped nor failed a commit |
| Pregon.Scrape | app/scrapers/pregon.py:18-81 | the scrape is the whole run, with "Ver Más" skipped after a date stop or a failed commit on the section page, and it returns the number of articles saved |
| Pregon.StoppedStays | app/scrapers/pregon.py:52-77 | once the first page's loop has returned on a date or left on a failed commit, later URLs change nothing |
| Pregon.UndatedFailsInitial | app/scrapers/pregon.py:57-67 | a new, unstored section-page URL whose article has no date fails the commit (`fecha` is NOT NULL, app/db.py:27): nothing is saved and the phase has not stopped |
| Pregon.UndatedFailsMore | app/scrapers/pregon.py:227-236 | a new, unstored "Ver Más" article without a date fails the commit: nothing is saved and the phase has not stopped |
| Pregon.UndatedEndsRun | app/scrapers/pregon.py:33-77 | a new section-page article without a date ends the run there: the run has failed, has not stopped, and has saved only what was saved before that URL, so "Ver Más" never runs |
| Pregon.UndatedEndsRounds | app/scrapers/pregon.py:203-254 | a new "Ver Más" article without a date ends the rounds: after the twenty rounds the run has failed, has not stopped, and has saved only what was saved before that id |
| Pregon.DatedNeverFails | app/scrapers/pregon.py:18-81 | when every article read has a date and the store takes every record, no commit fails |
| Pregon.SavedIsDated | app/scrapers/pregon.py:57-67 | every saved article was read with a date, since only a dated article commits |
| SomosJujuy.PageUrlReadBack | app/scrapers/somosjujuy.py:30 | every listing URL is the section URL with `?page=`, the page number can be read back, and different pages give different URLs |
| SomosJujuy.TrailingDigits | app/scrapers/somosjujuy.py:51 | the count is the length of the run of digits ending the text, and the character before it is not a digit |
| SomosJujuy.TaggedHrefsMatch | app/scrapers/somosjujuy.py:51 | a link ending in `-n` and digits, or in that and one newline, matches the news pattern |
| SomosJujuy.NewsHrefShape | app/scrapers/somosjujuy.py:51 | a matching link ends in `-n` and at least one digit, optionally followed by one newline |
| SomosJujuy.FilteredAccount | app/scrapers/somosjujuy.py:48-53 | the filter keeps exactly the matching links not seen before, first occurrence only, and adds their hrefs to the seen set |
| SomosJujuy.NothingNewKept | app/scrapers/somosjujuy.py:49-53 | links that do not match or were already seen leave nothing kept and the seen set unchanged |
| SomosJujuy.FiltrarLinks | app/scrapers/somosjujuy.py:48-53 | the filter loop computes the filtered links and the new seen set |
| SomosJujuy.LdArticle | app/scrapers/somosjujuy.py:69-75 | a found object has `@type` "NewsArticle" |
| SomosJujuy.LdArticleIsFirst | app/scrapers/somosjujuy.py:71-75 | the first NewsArticle script, after only parsable other scripts, is the one used |
| SomosJujuy.UnparsableScriptLoses | app/scrapers/somosjujuy.py:72-111 | a script that does not parse before the NewsArticle makes `json.loads` raise, so no article is read |
| SomosJujuy.NoNewsNoArticle | app/scrapers/somosjujuy.py:69-79 | without a NewsArticle script there is no article |
| SomosJujuy.TituloFallbacks | app/scrapers/somosjujuy.py:125-131 | a non-empty headline wins; otherwise the stripped `h1`; otherwise the placeholder title |
| SomosJujuy.Fecha | app/scrapers/somosjujuy.py:133-137 | a date that is read is a valid calendar date |
| SomosJujuy.FechaCases | app/scrapers/somosjujuy.py:133-137 | a missing or empty `datePublished` gives today; an ISO date, with or without a time, gives that date |
| SomosJujuy.MalformedDateDrops | app/scrapers/somosjujuy.py:109-136 | a non-empty date `fromisoformat` refuses raises, and the article is dropped |
| SomosJujuy.ContenidoParts | app/scrapers/somosjujuy.py:139-148 | the body holds every stripped paragraph and the raw text is the article's HTML; without the element both are empty |
| SomosJujuy.KindOf | app/scrapers/somosjujuy.py:59-111 | a kept article has the URL and is acceptable under the limit; an old one needs a limit |
| SomosJujuy.NoNewsArticleSkipped | app/scrapers/somosjujuy.py:77-79 | a fetched page without a NewsArticle is skipped |
| SomosJujuy.UndatedIsToday | app/scrapers/somosjujuy.py:83-137 | an article without `datePublished` is dated today, and is old exactly when today is before the limit |
| SomosJujuy.NoLimitNoOld | app/scrapers/somosjujuy.py:83 | without a limit no article is old |
| SomosJujuy.KindsOf | app/scrapers/somosjujuy.py:59-111 | one verdict per link |
| SomosJujuy.PageWithoutOld | app/scrapers/somosjujuy.py:59-111 | a page with no old article offers every kept article in order and does not stop |
| SomosJujuy.PageStoppedStays | app/scrapers/somosjujuy.py:83-86 | once the link loop has stopped, later links change nothing |
| SomosJujuy.PageUpToFirstOld | app/scrapers/somosjujuy.py:83-86 | a page offers the kept articles before its first old one and stops there |
| SomosJujuy.PageStopsOnOld | app/scrapers/somosjujuy.py:83-86 | the link loop stops exactly when some link is old |
| SomosJujuy.PageAllSound | app/scrapers/somosjujuy.py:59-111 | the link loop keeps every offer acceptable |
| SomosJujuy.GoingOn | app/scrapers/somosjujuy.py:29-121 | a stop ends the crawl, and a crawl still going remembers the body of the last page |
| SomosJujuy.EndedStays | app/scrapers/somosjujuy.py:29-121 | once the crawl has ended, further pages change nothing |
| SomosJujuy.DuplicatePageEnds | app/scrapers/somosjujuy.py:37-39 | a page whose body equals the previous one ends the crawl with nothing more offered |
| SomosJujuy.NoNewLinksEnds | app/scrapers/somosjujuy.py:55-57 | a page with no new matching link ends the crawl with nothing more offered |
| SomosJujuy.StopsOnFirstOld | app/scrapers/somosjujuy.py:83-114 | the crawl stops exactly when some page read has an old article |
| SomosJujuy.PagesAllSound | app/scrapers/somosjujuy.py:29-121 | over all pages every offer is acceptable |
| SomosJujuy.ScrapeLink | app/scrapers/somosjujuy.py:60-111 | one link is one step, and the count stays the number of accepted offers |
| SomosJujuy.ScrapePage | app/scrapers/somosjujuy.py:59-111 | the link loop is the page's fold, and the count stays the number of accepted offers |
| SomosJujuy.ScrapeRound | app/scrapers/somosjujuy.py:33-121 | one page is one round of the crawl, and the count stays the number of accepted offers |
| SomosJujuy.Scrape | app/scrapers/somosjujuy.py:18-123 | the crawl offers and stops as the page fold says, and returns the number of accepted offers |
| SomosJujuy.OffersSound | app/scrapers/somosjujuy.py:18-123 | every offered article is acceptable under the limit |
| SomosJujuy.NoLimitNeverStops | app/scrapers/somosjujuy.py:83 | without a limit the crawl never stops on a date |
| SomosJujuy.EveryOfferCounted | app/scrapers/somosjujuy.py:101-104 | when every commit succeeds, every offer is counted |
| ElSubmarinoJujuy.PageUrlShape | app/scrapers/elsubmarinojujuy.py:36-37 | a later page's URL is the tag URL, `page/`, the number and a slash, and the number can be read back |
| ElSubmarinoJujuy.PageUrlReadBack | app/scrapers/elsubmarinojujuy.py:34-37 | page 1 is the bare tag URL, and different pages give different URLs |
| ElSubmarinoJujuy.LaterPagesDistinct | app/scrapers/elsubmarinojujuy.py:36-37 | different later pages give different URLs |
| ElSubmarinoJujuy.LaterPageLonger | app/scrapers/elsubmarinojujuy.py:34-37 | a later page's URL is longer than the tag URL, so it is never page 1's |
| ElSubmarinoJujuy.ArticleOf | app/scrapers/elsubmarinojujuy.py:105-155 | an article is built exactly when the page was fetched; it has the URL, the media id and at most 60000 characters of the page's start as raw text |
| ElSubmarinoJujuy.ArticleDefaults | app/scrapers/elsubmarinojujuy.py:112-141 | a missing title gives "Sin Título", a missing body element an empty body, no date text no date, and the raw text is the page cut to 60000 characters |
| ElSubmarinoJujuy.ArticleHasParagraphs | app/scrapers/elsubmarinojujuy.py:127-131 | the body holds every paragraph of the entry |
| ElSubmarinoJujuy.CutoffBeforeStored | app/scrapers/elsubmarinojujuy.py:77-85 | the listing date is checked before the database: a stored URL stops the crawl exactly when its listing date is old, and is otherwise skipped |
| ElSubmarinoJujuy.UnparsedNeverStops | app/scrapers/elsubmarinojujuy.py:69-77 | an entry with no date text, or one `strptime` refuses, never stops the crawl |
| ElSubmarinoJujuy.PageStopsOnOld | app/scrapers/elsubmarinojujuy.py:60-80 | the entry loop stops exactly when some entry's listing date is old |
| ElSubmarinoJujuy.PageStoppedStays | app/scrapers/elsubmarinojujuy.py:77-80 | once the entry loop has stopped, later entries change nothing |
| ElSubmarinoJujuy.SavedUrlsStep | app/scrapers/elsubmarinojujuy.py:144-147 | an offer adds its URL to the saved URLs exactly when the store accepts it |
| ElSubmarinoJujuy.StoreAccountStep | app/scrapers/elsubmarinojujuy.py:60-95 | one entry keeps the account: the stored URLs are the initial ones and those accepted, and no offer repeats a stored or accepted URL |
| ElSubmarinoJujuy.PageAllAccount | app/scrapers/elsubmarinojujuy.py:60-95 | the entry loop keeps the account |
| ElSubmarinoJujuy.EndedStays | app/scrapers/elsubmarinojujuy.py:33-100 | once the crawl has ended, further pages change nothing |
| ElSubmarinoJujuy.NoArticlesEnds | app/scrapers/elsubmarinojujuy.py:41-57 | a page that fails, is missing or lists no article ends the crawl with nothing more offered |
| ElSubmarinoJujuy.StopsOnListedOld | app/scrapers/elsubmarinojujuy.py:77-98 | the crawl stops exactly when some page read lists an old entry, and a stop ends it |
| ElSubmarinoJujuy.PagesAllAccount | app/scrapers/elsubmarinojujuy.py:33-100 | over all pages the account is kept |
| ElSubmarinoJujuy.ScrapeEntry | app/scrapers/elsubmarinojujuy.py:61-95 | one entry is one step, and the count stays the number of accepted offers |
| ElSubmarinoJujuy.ScrapePage | app/scrapers/elsubmarinojujuy.py:59-95 | the entry loop is the page's fold, and the count stays the number of accepted offers |
| ElSubmarinoJujuy.Scrape | app/scrapers/elsubmarinojujuy.py:28-103 | the crawl offers and stops as the page fold says, and returns the number of accepted offers |
| ElSubmarinoJujuy.OffersSound | app/scrapers/elsubmarinojujuy.py:28-103 | every offer is from this site, cut to the raw limit, not stored before, and no accepted URL is offered again |
| ElSubmarinoJujuy.NoLimitNeverStops | app/scrapers/elsubmarinojujuy.py:77 | without a limit the crawl never stops on a date |

## Left out

- HTTP requests, status codes and timeouts are not modelled. Each page or article fetch is an optional abstract record, and `None` stands for any request error.
- BeautifulSoup parsing and CSS selection are not modelled. The model takes the elements a selector would return as fields of those records: texts, hrefs and paragraph lists.
- `json.loads` is not modelled. A script is given as an optional JSON value, and `None` means the text does not parse.
- JSON numbers are integers here. Floats are not modelled.
- `urljoin` is not modelled. Listing records carry the URL the crawler goes on to use, whether absolute or joined.
- `contiene_exclusion` and `_guardar_noticia` are not defined anywhere in the source. The model takes their evident intent as parameters: an exclusion verdict and the `Store` insert verdict. As written, `app/classifiers/stemmer.py:4` and `app/classifiers/ml_weighted.py:2` raise ImportError, so `app/scraper_runner.py:4-6` cannot be imported and the runner never runs. Every call of `self._guardar_noticia` raises AttributeError. Most crawlers catch it per article, which is a `Store` that always answers false. In Jujuy al Momento (`app/scrapers/jujuyalmomento.py:79` and `:220`) the call sits inside the page-level `try`, so as written the first save ends that crawl (lines 86-88 and 230-232).
- `db.query`, `db.add`, `db.commit` and `db.rollback` are not modelled as operations. An insert is the `Store` verdict, except in Pregón, where it is `Pregon.Commits`: the article must have a date and the `Store` must accept it. An existence check is a set of stored URLs.
- An exception that `db.query` itself raises is not modelled beyond what the `Store` verdict covers.
- ScraperRunner.RunAllScrapers: the scrapers are given as their counts. Constructing and running each scraper object is not modelled.
- The runner's commit-every-ten batching (`app/scraper_runner.py:115-116`, then a final commit at line 119) is left out. It changes when rows are written, not what is written.
- `datetime.date.today()` and `datetime.now()` are a `today` parameter, fixed during one run.
- `time.sleep`, `print` and `traceback` are left out because they have no effect on the results.
- The order in which Python iterates a set is a parameter. This covers Jujuy al Momento's new URLs, Pregón's new ids and seen URLs, and the duplicate-URL groups.
- The cutoff proofs assume no order of dates.
- Each crawler's unbounded `while` loop runs over a finite sequence of listing-page answers. A page beyond the sequence counts as a failed request, which ends the crawl as that failure does in the code.
- NLTK stop words, the Snowball stemmer and spaCy lemmatisation are parameters of the stem and lemma classifiers. So are the NLP model objects and their loading.
- `QueryService`: the `search_news` database query, the LLM client call in `query_with_llm` and the FastAPI app are left out. Only the pure helpers and the statistics fold are modelled.
- The LLM client, the web front end, schema migrations, the dump, cleanup and console scripts, and the live-site test scripts are left out.
- `app/scrapers/clarin.py` inserts a constant, and `app/scrapers/base.py` and `app/scrapers/__init__.py` hold only the interface and configuration. None of them is part of this model.
- Database engine and session setup are not part of this model. The stored record keeps only the `Noticia` fields the core reads and writes.
- The `classification` column read by the inconsistent-data fix is not declared by the `Noticia` class. It is an optional field of the record.
- Dates.DateTimeDate: only the leading `YYYY-MM-DD` is checked. Text after the separator is taken as a valid time of day, whereas `fromisoformat` would also reject a malformed time. Offsets and the other formats Python 3.11 accepts are not modelled.
- FixInconsistentData.FixInconsistent: the model is the intended repair. As written, `Noticia.classification` (`scripts/fix_inconsistent_data.py:28`) raises AttributeError, because the `Noticia` class (`app/db.py:22-37`) declares no such column. The `except` at lines 47-49 then rolls back, so the script as written changes nothing.
- InformateSalta.DateOverflows: a piece of more than 4300 digits makes `int()` itself raise ValueError on Python 3.11 and later, so the item is dated today there. The model reads such a piece as its value and skips the item as an overflow.
- Patterns.DigitsEnd, Patterns.DigitsAt, Patterns.DayFirstAt, Patterns.YearFirstAt, Patterns.SpelledOutAt, TodoJujuy.TrailingDigitsStart, SomosJujuy.TrailingDigits, SomosJujuy.NewsHref, ElTribunoSalta.ShortField and ElTribunoSalta.HeadAt: the regular expressions' `\d` matches ASCII digits only here. Python's `re` also matches other Unicode decimal digits.
- Dates.StrptimeDmy: `strptime` directives match ASCII digits only. Python's `\d` and `int()` also accept other Unicode decimal digits.
- Text.Lower: lower-casing covers ASCII and Latin-1 letters, which is all the Spanish texts use. Other scripts are left unchanged.
- Text.Strip: white space is Python's `isspace()` within Latin-1: tab to carriage return, U+001C to U+001F, the space, U+0085 and U+00A0. Other Unicode spaces such as U+2003 are kept, where Python strips them.
- Text.IsWordChar: the `\w` class covers ASCII and Latin-1 letters, digits, `_`, the superscript digits and the fractions. Letters and digits of other scripts are not word characters here, though Python's `re` counts them.
- Text.PyIsUpper: the cased letters are those of ASCII and Latin-1. Letters of other scripts are not taken into account.
- Text.TitleCase: each character maps to exactly one character, and only ASCII and Latin-1 letters change. Python's `title()` turns `ß` into "Ss", so its result can be longer than its input; the length postcondition holds of the model only. Python also raises `ÿ` to `Ÿ` and `µ` to `Μ`, which lie outside Latin-1; the model keeps them.
- Text.ParseInt: only ASCII digits and Latin-1 white space are read. Python's `int()` also accepts underscores between digits ("1_7" is 17) and other Unicode decimal digits, and strips all Unicode white space.
- ElSubmarinoJujuy.ArticleOf: `strptime` with `'%A, %d %B, %Y'` depends on the process locale. It is the `parse` parameter, not a fixed reading.
- SomosJujuy.Titulo: a true `headline` that is not a string makes the article be dropped. Python would pass the value on to the record, where the insert is expected to fail.
- Pregon.NoticiaOf: the raw text of a "Ver Más" article is `str()` of a Python tuple. Its exact rendering is a parameter, bounded by the same 60000-character cut.
