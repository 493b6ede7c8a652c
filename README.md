# Turkish legal precedent search, modelled in Dafny

This project models the core of a retrieval system for Turkish court
decisions. It has four parts:

- **The retriever** (`retriever.dfy`, with `analysis.dfy`, `scoring.dfy`,
  `ranking.dfy` and `explain.dfy`):
  - pulls search keywords and a case intent out of a description, using the
    language model's replies or tiered fallbacks;
  - scores each decision the vector index returns on three counts:
    similarity, keyword overlap and "benefit" cue words with a court-rank
    bonus;
  - fuses the three into one clamped score and sorts the candidates in
    descending order;
  - returns the best twenty, and explains the best three (the model's text,
    a fixed-form summary, or a notice when there are too few).
  - The retriever also keeps a per-description analysis cache, which is
    cleared at the start of every search.
- **The indexer** (`embed.dfy`):
  - cleans each decision's text and cuts it into chunks, by sections or by
    sentences, adding pieces to a chunk while they fit in 2000 characters (a
    longer piece or sentence becomes a chunk on its own, and a sentence chunk
    with its closing "." can reach 2001);
  - chunks every decision id only once;
  - encodes the chunks in batches of 32, keeping the vectors aligned with
    the metadata entries;
  - counts the distinct decisions in a metadata file.
- **The scraper** (`scraper.dfy`):
  - resumes from a checkpoint and walks the result pages of a court-decision
    service;
  - skips documents without an id or whose URL is already stored;
  - saves each new document with fields taken from key chains of the
    document record, and still saves it, with empty text, when its text
    cannot be fetched or the row cannot be bound to the insert;
  - checkpoints after every page, and moves to the next page only while pages
    come back full.
- **Two helpers** (`utils.dfy`): an endless round-robin over a sequence, and
  a list-file reader that skips blank and comment lines.

`common.dfy` and `text.dfy` model the Python built-ins the core relies on:
- truthiness, `strip`, `split`, `join`, `lower` and `str` of an integer;
- `[f(x) for x in s if p(x)]` and slicing.

Differences between the code and its own comments or documentation are
settled in favour of the code:
- The benefit weight in the fused score is 0.30, although a comment says 20%
  (src/retriever.py:297-298).
- The keyword segment is the text between the first and the second
  "KEYWORDS:" marker, since `split(...)[1]` is taken.
- Empty keyword pieces, from a trailing comma, are kept; they match every
  text.
- A negative index from the vector index is not rejected by the `>= len`
  test. It selects from the end of the metadata, as Python indexing does.
- The second fallback tier can produce "nafaka" and "boşanma" only when the
  first tier, which contains both, found nothing. So these two words never
  come from it (`QueryAnalysis.ImportantWordTierReach`).

## Model

| member | source | states |
|---|---|---|
| QueryAnalysis.ParseKeywordsReply | src/retriever.py:117-123 | a keyword list is parsed exactly when the reply contains "KEYWORDS:", and a parsed list is never empty |
| QueryAnalysis.ParsedKeywordsClean | src/retriever.py:120-121 | every parsed keyword is stripped and contains no comma |
| QueryAnalysis.ParsedKeywordsRejoin | src/retriever.py:120-121 | joining the parsed keywords with commas gives back the segment's non-space text, and the segment holds no further marker |
| QueryAnalysis.ExtractKeywordsSource | src/retriever.py:117-148 | with a marker in the reply the parsed list is returned, and otherwise the fallback tiers |
| QueryAnalysis.ExtractKeywords | src/retriever.py:117-148 | defines the keywords of a description: the parsed list when the reply has one, else the fallback tiers (proved in the rows that follow) |
| QueryAnalysis.TierMembership | src/retriever.py:128-141 | a word is in tier 1 or tier 2 exactly when it is in that tier's list and occurs in the lowered description |
| QueryAnalysis.WordTierShape | src/retriever.py:144-148 | tier 3 is at most five lowered whitespace tokens, each longer than three characters and not a common word; it is the first five such tokens, in order |
| QueryAnalysis.ExtractKeywordsEmpty | src/retriever.py:117-148 | the keywords are empty exactly when the reply has no marker and all three tiers find nothing |
| QueryAnalysis.ImportantWordTierReach | src/retriever.py:138-141 | once tier 1 is empty, tier 2 can only give "dava", "karar", "emsal", "miktar" or "konu" |
| QueryAnalysis.MarkerColon | src/retriever.py:201-208 | a line holding any intent marker holds a colon, so `split(":")[1]` exists |
| QueryAnalysis.CriminalFlag | src/retriever.py:201-204 | after parsing, the criminal flag is true exactly when the case type contains "Ceza" |
| QueryAnalysis.EmptyReplyIntent | src/retriever.py:191-196 | an empty reply yields the defaults "Genel", "", [] and false |
| QueryAnalysis.ApplyLine | src/retriever.py:200-209 | defines the effect of one reply line on the intent, by the first marker it holds (proved in ApplyLineFields) |
| QueryAnalysis.ParseIntent | src/retriever.py:191-209 | defines the intent of a reply: the defaults, updated line by line from the newline split (proved in the intent rows) |
| QueryAnalysis.CaseTypeFromLastLine | src/retriever.py:199-204 | the case type is the field of the last "Dava türü:" line, so later lines overwrite earlier ones |
| QueryAnalysis.ApplyLineFields | src/retriever.py:200-209 | one line sets the case type if it has the case marker, else the topic if it has the topic marker, and leaves the other fields alone |
| QueryAnalysis.NoCaseTypeLine | src/retriever.py:191-204 | with no "Dava türü:" line the case type stays "Genel" and the flag false |
| QueryAnalysis.TopicFromLastLine | src/retriever.py:205-206 | the topic is the field of the last topic line that is not a case-type line |
| Scoring.KeywordMatchScore | src/retriever.py:157-169 | the counting loop computes the keyword score |
| Scoring.KeywordScore | src/retriever.py:157-169 | the keyword score lies in [0, 1] |
| Scoring.MatchCount | src/retriever.py:165-167 | the number of keywords found, lowered, in the lowered text is at most the number of keywords |
| Scoring.MatchCountAppend | src/retriever.py:165-167 | matches over two keyword lists add up |
| Scoring.MatchCountAll | src/retriever.py:165-167 | every keyword matches exactly when it occurs, lowered, in the lowered text |
| Scoring.MatchCountNone | src/retriever.py:165-167 | there are no matches exactly when no lowered keyword occurs in the lowered text |
| Scoring.KeywordScoreExtremes | src/retriever.py:157-169 | the score is 1 exactly when every keyword occurs, and 0 exactly when none does or the list is empty |
| Scoring.KeywordScoreRepeated | src/retriever.py:165-169 | a repeated keyword is counted each time, so doubling the list leaves the score unchanged |
| Scoring.KeywordScoreExample | src/retriever.py:157-169 | worked example: in a sample Turkish text, "boşanma" is found and "velayet" is not, so the score is 0.5 |
| Scoring.MatchCountPair | src/retriever.py:165-167 | for two keywords, the count is the number of them found in the lowered text |
| Scoring.KeywordScoreHalf | src/retriever.py:157-169 | for two keywords, one found and one not, the score is 0.5 |
| Scoring.TermCount | src/retriever.py:229-236 | a cue-word count never exceeds the list length |
| Scoring.HierarchyBonus | src/retriever.py:239-245 | the court bonus is 0, 0.2 or 0.3 |
| Scoring.RecencyBonus | src/retriever.py:247-249 | defines the recency bonus: 0.1 when the court text holds "2023" or "2024" |
| Scoring.BenefitSum | src/retriever.py:221-249 | the uncapped benefit sum of the cue counts, court bonus and recency bonus is never negative |
| Scoring.BenefitScore | src/retriever.py:221-251 | the benefit score lies in [0, 1], and equals the uncapped sum unless it is capped at 1 |
| Scoring.CalculateBenefitScore | src/retriever.py:221-251 | the counting loops and the break loop over the court terms compute the benefit score |
| Scoring.AnyHierarchyTermIff | src/retriever.py:239-240 | some court term is found exactly when one of the four shortest terms occurs |
| Scoring.HierarchyBonusCases | src/retriever.py:239-245 | the bonus is 0.3 with "genel kurul" or "anayasa" present beside a court term, 0.2 with only "yargıtay" or "danıştay", and 0 when no court term is found |
| Scoring.BenefitScoreGeneralAssembly | src/retriever.py:239-245 | court "Yargıtay Hukuk Genel Kurulu" with no cue words gives exactly 0.3 |
| Scoring.BenefitScoreBonusOnly | src/retriever.py:221-251 | with no outcome or principle cue and no 2023 or 2024 in the court text, the benefit score is the court's hierarchy bonus |
| Scoring.TermCountNone | src/retriever.py:229-236 | the cue-word count is 0 exactly when no cue word occurs in the text |
| Ranking.OrUnknown | src/retriever.py:308-311 | a present, non-empty field is kept and anything else becomes "Bilinmiyor" |
| Ranking.PyIndex | src/retriever.py:268-270 | the metadata index is accepted exactly when Python indexing would succeed, and then selects the entry at `idx` or `idx + n` |
| Ranking.SemanticScore | src/retriever.py:286-288 | the rescaled similarity lies in [0.6, 0.9] |
| Ranking.FusedScore | src/retriever.py:297-299 | the fused score lies in [0.60, 0.95] |
| Ranking.FusedScoreMonotone | src/retriever.py:297-299 | the fused score is monotone in each part, and equals the weighted sum when that sum is within bounds |
| Ranking.BuildCandidate | src/retriever.py:268-316 | a hit yields a candidate exactly when its index is valid, its row exists and the row has a court column |
| Ranking.BuildCandidateFields | src/retriever.py:286-313 | every field of a candidate: id and snippet from the metadata, the three scores computed on the raw text or else the snippet, the score as the fused (clamped weighted) score of those three, the defaulted columns, and the raw text or "" when it is NULL or empty |
| Ranking.MakeCandidate | src/retriever.py:286-313 | defines the candidate record of a hit whose lookups succeeded (proved in BuildCandidateFields) |
| Ranking.Assemble | src/retriever.py:267-318 | there are never more candidates than hits |
| Ranking.AssembleAppend | src/retriever.py:267-318 | candidates follow retrieval order, so the hits of a concatenation give the concatenated candidates |
| Ranking.AssembleFromHits | src/retriever.py:267-318 | every candidate comes from some hit and scores in [0.6, 0.95] |
| Ranking.ScoreHits | src/retriever.py:267-318 | the append loop over the hits computes the assembled candidates |
| Ranking.ScoreHit | src/retriever.py:269-316 | one iteration computes the candidate of its hit, or skips it |
| Ranking.InsertR | src/retriever.py:397 | one insertion step lengthens the list by one (its order and members: the InsertR rows) |
| Ranking.SortDesc | src/retriever.py:397 | the sorted list has the length of the input (its order, stability and members: the SortDesc rows) |
| Ranking.InsertRMultiset | src/retriever.py:397 | an insertion step adds exactly one element |
| Ranking.SortDescPermutation | src/retriever.py:397 | sorting permutes the candidates |
| Ranking.InsertRMembers | src/retriever.py:397 | an insertion keeps the old members and adds the new one |
| Ranking.InsertRSorted | src/retriever.py:397 | insertion into a descending list keeps it descending |
| Ranking.SortDescSorted | src/retriever.py:397 | the sorted candidates are in descending order of score |
| Ranking.InsertRStable | src/retriever.py:397 | an insertion keeps candidates of equal score in their order |
| Ranking.SortDescStable | src/retriever.py:397 | sorting is stable: candidates of equal score keep their retrieval order |
| Ranking.SortByScore | src/retriever.py:397 | sorting in place leaves the array equal to the sorted specification |
| Ranking.TopIsBest | src/retriever.py:397-398 | no candidate left out of a prefix of the sorted list scores above one kept |
| Explanation.RoundHalfEven | src/retriever.py:368 | the rounded value is within one half of its argument, and a tie goes to the even neighbour |
| Explanation.PercentDigitsRoundTrip | src/retriever.py:368 | the "I.D%" text of a count of tenths reads back as that count, with no leading zero in the integer part |
| Explanation.Percent1Reads | src/retriever.py:368 | the `.1%` text of a score has the form "I.D%" and reads back as the nearest tenth of a percent (ties to even), within 0.05 of a hundred times the score |
| Explanation.Percent1Negative | src/retriever.py:368 | a negative value prints as "-" followed by the text of its magnitude |
| Explanation.Percent1Examples | src/retriever.py:368 | worked example: 0.5, 0.0625 and 0.0875 print as "50.0%", "6.2%" and "8.8%" (ties to even) |
| Explanation.TitleLineNamesCourt | src/retriever.py:367 | a block's title line contains the court name |
| Explanation.Explain | src/retriever.py:320-360 | the explanation is never empty |
| Explanation.ExplainCases | src/retriever.py:322-360 | fewer than three results give exactly "Yeterli emsal karar bulunamadı."; with three or more an empty reply gives the summary, and any other reply is returned |
| Explanation.FallbackExplanation | src/retriever.py:362-373 | the `+=` loop builds the header, one numbered block per candidate and the closing sentence |
| Explanation.Blocks | src/retriever.py:366-370 | defines the numbered blocks of the summary, one per candidate (proved in BlocksPresentEach) |
| Explanation.FallbackText | src/retriever.py:362-373 | the summary starts with the header and ends with the closing sentence |
| Explanation.ExplainTop3 | src/retriever.py:320-360 | choosing the explanation computes the specified text |
| Explanation.BlocksPresentEach | src/retriever.py:366-370 | every candidate's numbered block appears in the blocks |
| Explanation.FallbackPresentsEach | src/retriever.py:362-373 | the summary contains every candidate's block and court name |
| Retriever.TopOfRanking | src/retriever.py:397-398 | the first n sorted candidates are descending, all drawn from the candidates, and none scores below a candidate left out |
| Retriever.EnhancedQuery | src/retriever.py:260-261 | the enhanced query starts with the description and a space, followed by the search terms |
| Retriever.PrecedentSearch | src/retriever.py:375-411 | defines the search result of a description (proved in PrecedentSearchResult) |
| Retriever.RankedFacts | src/retriever.py:397-399 | twenty and three are taken or all if fewer, the three are the head of the twenty, and the twenty are descending, best, and scored in [0.6, 0.95] |
| Retriever.PrecedentSearchResult | src/retriever.py:375-411 | the whole search result: the count of all candidates, the best twenty in descending order with the best three as their head, the notice when fewer than three are found, and the parsed intent |
| Retriever.RankAndExplain | src/retriever.py:397-403 | sorting in place, slicing and explaining give the specified top twenty, top three and explanation |
| Retriever.TurkishLegalRetriever.constructor | src/retriever.py:27-44 | the metadata is kept and the cache starts empty |
| Retriever.TurkishLegalRetriever.ExtractSearchKeywords | src/retriever.py:94-155 | a cached description returns its stored keywords, or [] when only the intent is stored, with the cache unchanged; otherwise the keywords are computed and stored beside any intent |
| Retriever.TurkishLegalRetriever.ExtractCaseIntent | src/retriever.py:171-219 | a stored intent is returned unchanged; otherwise the reply is parsed line by line and the intent is merged into the entry, keeping its keywords |
| Retriever.TurkishLegalRetriever.SearchBeneficialDecisions | src/retriever.py:253-318 | the candidates are assembled from the hits of the enhanced query, scored with the cached keywords when the description is cached, which leaves the cache unchanged |
| Retriever.TurkishLegalRetriever.AnalyseAfresh | src/retriever.py:380-387 | after clearing, the cache holds exactly the one description with its computed keywords and intent |
| Retriever.TurkishLegalRetriever.SearchBeneficialPrecedents | src/retriever.py:375-411 | the result equals the specified search, and the cache ends with exactly this description's analysis |
| Embed.Collapse | src/embed.py:25 | runs of white space become one space: never longer, empty only for empty input, the first character kept or turned into a space |
| Embed.CollapseNonSpace | src/embed.py:25 | collapsing keeps the non-space characters in order |
| Embed.CollapseSingleSpaced | src/embed.py:25 | the collapsed text has no white space other than single spaces |
| Embed.CleanTextFacts | src/embed.py:25 | the cleaned text keeps the non-space characters, has no white space at either end, and is single-spaced |
| Embed.CleanText | src/embed.py:25 | defines the cleaned text: white space collapsed, then stripped (proved in CleanTextFacts) |
| Embed.ChunksOf | src/embed.py:20-65 | defines the chunks of a text, by sentences when the section split gives at most one piece (proved in the chunk rows) |
| Embed.SentenceChunksNonEmpty | src/embed.py:32-42 | a non-empty sentence split gives at least one chunk, since every sentence is followed by ". " |
| Embed.SectionChunksNonEmpty | src/embed.py:46-65 | a section split with a non-blank piece gives at least one chunk |
| Embed.ChunksNonEmpty | src/embed.py:25-65 | with the guarantees of the two regular expressions, every text gives at least one chunk |
| Embed.PackSentenceChunks | src/embed.py:32-42 | the sentence loop computes the specified sentence chunks |
| Embed.PackSectionChunks | src/embed.py:46-65 | the section loop computes the specified section chunks |
| Embed.Paragraphs | src/embed.py:20-65 | the chunker yields the specified chunks, by sentences when the section split gives at most one piece |
| Embed.ChunksTrimmed | src/embed.py:25-65 | every chunk is non-empty with no white space at either end |
| Embed.PackSentencesTrimmed | src/embed.py:38-40 | every chunk flushed by the sentence loop is trimmed and non-empty |
| Embed.PackSectionsTrimmed | src/embed.py:52-61 | every chunk flushed by the section loop is trimmed and non-empty |
| Embed.PackSectionsLossless | src/embed.py:46-61 | the flushed chunks and the current chunk keep every piece's non-space text, in order |
| Embed.FlushLossless | src/embed.py:64-65 | the final flush loses no non-space character |
| Embed.SectionChunksLossless | src/embed.py:25-65 | the section chunks keep the text's non-space characters, in order |
| Embed.SectionChunksGreedy | src/embed.py:49-61 | every section chunk fits the limit or is one piece on its own |
| Embed.PackSectionsGreedy | src/embed.py:49-61 | while packing, every flushed chunk fits or is one piece, and so does the current chunk |
| Embed.SentenceStepDots | src/embed.py:35-40 | a sentence step keeps the current chunk ending in ". " and every chunk ending in "." |
| Embed.PackSentencesDots | src/embed.py:34-40 | the sentence loop keeps the current chunk ending in ". " and every flushed chunk ending in "." |
| Embed.SentenceChunksEndWithDot | src/embed.py:30-43 | every sentence-mode chunk ends with "." |
| Embed.RowIdsMembers | src/embed.py:122-126 | an id is seen exactly when some row carries it |
| Embed.FirstOccurrencesDistinct | src/embed.py:122-126 | the rows kept carry every id, each id once, and come from the input |
| Embed.BuildParagraphs | src/embed.py:119-130 | the dedup loop yields the chunks of the first row of each id, in order, and sees every id |
| Embed.FirstOccurrencesStep | src/embed.py:124-126 | one row is kept exactly when its id was not seen before |
| Embed.FirstOccurrences | src/embed.py:122-126 | defines the rows chunked: the first row of each id, in table order (proved in FirstOccurrencesDistinct) |
| Embed.Expand | src/embed.py:119-130 | defines the entries of the rows, one decision after the other (proved in ExpandEntries) |
| Embed.ExpandCovers | src/embed.py:122-130 | a row that gives a chunk has an entry under its id |
| Embed.ExpandAppend | src/embed.py:128-130 | one more row appends its own entries |
| Embed.AppendEntries | src/embed.py:129-130 | the inner loop appends one entry per chunk |
| Embed.EntriesMembers | src/embed.py:129-130 | the entries of a row are its chunks under its id, in order |
| Embed.ExpandEntries | src/embed.py:119-130 | every entry holds a trimmed, non-empty chunk of a row's id |
| Embed.Snippets | src/embed.py:141 | the batch texts are the snippets, in order |
| Embed.EncodeAll | src/embed.py:142 | the encoder gives one vector per text, in order |
| Embed.EmbedBatches | src/embed.py:134-144 | the metadata equals the paragraphs, the n-th vector encodes the n-th snippet, and the batch count is the ceiling of the size over 32 |
| Embed.AlignedAppend | src/embed.py:143-144 | extending both lists by one batch keeps them aligned |
| Embed.BuildIndexInput | src/embed.py:119-144 | the index input is the deduplicated chunk entries with one aligned vector each |
| Embed.Written | src/embed.py:150-151 | the written metadata file lists the ids of the entries in order |
| Embed.IdSetMembers | src/embed.py:87 | an id is counted exactly when some entry holds it |
| Embed.IdSetBound | src/embed.py:87-88 | there are no more distinct ids than entries |
| Embed.MetaDecisionCountCases | src/embed.py:78-90 | the count is 0 exactly when the file is absent, malformed, has an entry without an id, or lists nothing; it never exceeds the entries |
| Embed.MetaDecisionCount | src/embed.py:78-90 | defines the count of a metadata file (proved in MetaDecisionCountCases) |
| Embed.WrittenId | src/embed.py:150-151 | the id of every entry is among the ids of the written file |
| Embed.MetaCountAfterBuild | src/embed.py:78-151 | for any splits, the counted ids after indexing are ids of the database rows, and there are no more of them than distinct rows |
| Embed.MetaCountExact | src/embed.py:20-151 | with the guarantees of the two regular expressions, the written file holds exactly the ids of the table, so the count is the number of distinct ids |
| Scraper.Chain | src/mcp_scraper.py:81-85 | an `or` chain yields one of its values (which one: ChainFirstTruthy) |
| Scraper.ChainFirstTruthy | src/mcp_scraper.py:81-85 | an `or` chain yields its first truthy value, or its last value when none is truthy |
| Scraper.Gets | src/mcp_scraper.py:81-85 | the chain's values are the document's values for the keys, in order |
| Scraper.ColumnFirstTruthy | src/mcp_scraper.py:81-85 | a saved column is the value of the first key with a truthy value, or "" when no key has one |
| Scraper.ColumnIsChain | src/mcp_scraper.py:81-85 | a saved column is the `or` chain over the document's values for its keys, ending in "" |
| Scraper.Column | src/mcp_scraper.py:81-85 | defines a saved column (proved in ColumnFirstTruthy and ColumnIsChain) |
| Scraper.SaveDecision | src/mcp_scraper.py:78-94 | defines the inserted row: the five key chains and the text |
| Scraper.DocId | src/mcp_scraper.py:158 | the id is "documentId" when truthy, else "id" |
| Scraper.RawMarkdown | src/mcp_scraper.py:169-178 | defines the fetched text: the attribute, the first truthy of the three keys, or "" for anything else or a failed request |
| Scraper.SavedRow | src/mcp_scraper.py:169-192 | defines the row a new document leaves: the fetched row when it can be bound, else the row with "" |
| Scraper.SavedRowText | src/mcp_scraper.py:169-192 | the saved row has the document's five columns, keeps the fetched text exactly when that row binds (or the text is ""), and has "" for a text that cannot be bound |
| Scraper.DocStep | src/mcp_scraper.py:157-192 | defines the handling of one search hit (proved in DocStepExtends) |
| Scraper.DocStepSkips | src/mcp_scraper.py:158-167 | a hit leaves the crawl state unchanged exactly when it has no truthy id or its URL is already known |
| Scraper.ProcessDocs | src/mcp_scraper.py:156-192 | defines the handling of one page's hits, in order (proved in ProcessDocsExtends and ProcessDocsCovers) |
| Scraper.SavedUrl | src/mcp_scraper.py:163-181 | after `source_url` is set, the saved url is the document URL |
| Scraper.DocStepExtends | src/mcp_scraper.py:157-192 | one document adds at most one row, never for a stored URL, and records its URL |
| Scraper.ExtendsTrans | src/mcp_scraper.py:157-192 | extension of the crawl state is transitive |
| Scraper.ProcessDocsExtends | src/mcp_scraper.py:156-192 | within a page, rows are only appended, each new URL is saved once, the total grows by the rows saved, and so does the page count |
| Scraper.ProcessDocsCovers | src/mcp_scraper.py:157-192 | after a page, the URL of every document with a truthy id is known |
| Scraper.CheckpointRoundTrip | src/mcp_scraper.py:36-51 | a stored checkpoint resumes at the next page with its total; a missing one at page 1 with 0 |
| Scraper.LoadCheckpoint | src/mcp_scraper.py:126-129 | defines where a run resumes (proved in CheckpointRoundTrip) |
| Scraper.FullPage | src/mcp_scraper.py:201-205 | defines a full page: its length equals the page size, 10 by default, under Python's equality of numbers |
| Scraper.RunSpec | src/mcp_scraper.py:145-205 | defines the page loop (proved in RunPages, RunSavesOnce and RunCheckpoint) |
| Scraper.LeadingFullIs | src/mcp_scraper.py:151-205 | the first LeadingFull(responses) responses are all non-empty and full (length equal to the page size, 10 by default), and the response after them, if any, is not |
| Scraper.RunPages | src/mcp_scraper.py:145-205 | the crawl ends on the page after its leading full pages |
| Scraper.RunSavesOnce | src/mcp_scraper.py:145-205 | across the run, rows are only appended and each new URL is saved once, never one stored before; the total grows by the rows saved |
| Scraper.RunCheckpoint | src/mcp_scraper.py:151-205 | after a non-empty first page, the checkpoint holds the running total and the last processed page: the current page exactly when the run stopped on a short non-empty page, and the one before it exactly when it stopped after a full page |
| Scraper.Crawler.constructor | src/mcp_scraper.py:127-132 | the crawl starts at the checkpoint's next page with its total and the stored URLs |
| Scraper.Crawler.ConsiderDoc | src/mcp_scraper.py:157-192 | one document's handling updates the URLs, counters and table as specified |
| Scraper.Crawler.ProcessPage | src/mcp_scraper.py:156-192 | the page loop updates the state as specified, starting the page count at 0 |
| Scraper.Crawler.Run | src/mcp_scraper.py:145-205 | the crawl loop leaves the state the specification gives |
| Utils.CycleAtIndex | src/utils.py:37-44 | the round-robin yields None at every step for an empty sequence, and otherwise the element at the step modulo the length, with that length as period |
| Utils.CycleAt | src/utils.py:37-44 | defines what the round-robin yields at each step (proved in CycleAtIndex) |
| Utils.RoundAtMod | src/utils.py:43-44 | walking the sequence over and over reaches at step n the element at n modulo the length |
| Utils.Cycler.constructor | src/utils.py:37-44 | the generator starts at step 0 over its sequence |
| Utils.Cycler.Next | src/utils.py:37-44 | each step yields the round-robin's value for that step and moves one step on |
| Utils.LoadListFile | src/utils.py:47-52 | a missing file gives the empty list |
| Utils.KeepLine | src/utils.py:52 | defines a kept line: non-blank once stripped, and not starting with "#" before stripping |
| Utils.ListLines | src/utils.py:52 | defines the entries of a list file (proved in ListLinesEntries) |
| Utils.ListLinesAppend | src/utils.py:52 | the lines of two parts of a file give their two results in order |
| Utils.LineContribution | src/utils.py:52 | each line contributes, where it stands, its stripped text when kept and nothing otherwise |
| Utils.CommentDropped | src/utils.py:52 | a line starting with "#" contributes nothing |
| Utils.IndentedCommentKept | src/utils.py:52 | an indented "#" line is kept in stripped form |
| Utils.ListLinesEntries | src/utils.py:52 | every entry is stripped and non-empty, and the entries are exactly the stripped kept lines |

## Left out

- The language model (llama_cpp, its lazy loading and the prompts) is not modelled. Each reply is an input text, and a failed call is the empty reply.
- The sentence encoder, the vector index and numpy are not modelled. The index search is a function from the query text to hits, and the encoder a function from a text to a vector.
- The logistic squashing `1 / (1 + exp(...))` is floating point. Each hit carries its result as a value in [0, 1], and all scores are exact reals rather than floats.
- SQLite is not modelled. The decisions table is a map from id to row for the retriever and a list of rows for the indexer; the scraper's inserted rows are a list. `get_connection`, `ensure_dirs` and the row-count query are I/O.
- The regular-expression splits of the chunker (`re.split` on section headers and on runs of `.!?`) are given as functions. The two facts about them the exact count relies on, that a split is never an empty list and that a captured section header is never blank, are stated as `Embed.RegexSplits`. The clean-up `re.sub(r'\s+', ' ', ...)` is modelled with `Text.IsSpace`, which is the set of characters Python's `str.isspace` accepts, the set `\s` matches in a text pattern.
- `str.lower` is modelled for ASCII and the Turkish capitals, with "İ" lowered to "i" plus a combining dot, as Python does. Other Unicode case folding is left out.
- `splitlines` and the reading of a list file are left out. The file is given as its lines, or as absent.
- The BM25 index is built but never used in scoring, so it is left out.
- The MCP client, `anyio`, the JSON checkpoint file and logging are I/O. Search responses and markdown fetches are inputs, and the checkpoint is a value that the crawl reads and rewrites.
- The crawl is modelled over a given finite sequence of page responses. Running out of responses ends it like an empty page.
- JSON values are reduced to null, booleans, integers, strings, floats (their rendering and exact value, not their rounding) and lists or objects (their rendering and truthiness).
- Inside the per-document `try` (src/mcp_scraper.py:169-192), two exceptions are modelled: a failed markdown request, and an insert that cannot bind its row (a list or object value, or an integer beyond 64 bits). Both save the row again with empty text.
- Scraper.SavedRow: when the value that cannot be bound is one of the five document columns, the insert in the handler raises as well and ends the crawl in the source; the model stores that row with empty text.
- Exceptions elsewhere in the page loop (a raising search call, commit or checkpoint write) end the crawl in the source and are not modelled.
- A search or checkpoint response of the wrong shape raises an uncaught error in the source, and is not modelled. Every shape of markdown response is handled: `Scraper.RawMarkdown` gives "" for one that is neither an object with the markdown attribute nor a dict, and `Scraper.SavedRow` covers a text that cannot be bound. A metadata file whose entries are not objects is not modelled either.
- Retriever.TurkishLegalRetriever.ExtractCaseIntent: on a cache hit the source returns the whole cache entry, keywords included; the model returns only its intent part.
- Ranking.BuildCandidate: the `except Exception: continue` of the candidate loop (src/retriever.py:315-316) is modelled by the two ways the modelled scoring raises, an index outside the metadata (IndexError) and a row whose court is NULL (a TypeError at the recency test, src/retriever.py:248); both skip the hit. Database errors inside the `try` are not modelled.
- Embed.PackSectionChunks: the source's separate branches for content pieces and section headers do the same thing, so the model has one branch.
- Embed.MetaCountAfterBuild: for arbitrary split functions it states only the bound; equality needs the two facts of `Embed.RegexSplits` and is proved in `Embed.MetaCountExact`.
- A NULL `raw_text`, which the scraper stores when the markdown attribute is None, makes `paragraphs` raise at src/embed.py:25 and ends the indexing run. The rows the indexer reads are modelled with a string text, so this case is not modelled.
- `src/cli.py` and `src/settings.py` are not part of this model.
