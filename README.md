# ReadyTensor award assistant: award names and award-filtered retrieval in Dafny

This is a Dafny model of the award-name logic and the query-time selection of
a retrieval-augmented assistant over ReadyTensor publications. The repository
scrapes the publications, ingests them into a vector store, and answers
questions about them. It can restrict the documents it hands to the language
model to those carrying a given award.

The model covers four groups of code:

- **The award normalisers and extractors.** The repository has several versions of these, and they differ. Each is its own module:
  - `Scraper` maps a phrase onto a fixed vocabulary.
  - `CountAllAwards` applies rejection rules and gates the phrase on eight valid keywords.
  - `Ingest` has a light normaliser and returns a sorted award set.
  - `ScrapeFinal` strips one leading prefix and keeps case.
- **The query-time filter.** Candidates pass an exact tier, a fuzzy tier or a difflib tier. They are then deduplicated by publication id and cut to a limit. This is done in `App` (the Streamlit front end) and in `Assistant` (the shared core used by the command line). Both also parse the award from the user's input and build the context string.
- **Ingest bookkeeping.** This covers the `" | "` awards string, the chunk metadata and chunk indices of each publication, and the batched submission to the store.
- **Keyword predicates and counts.** These are the `matches_award` variants in `ScrapeAwards`, `ScrapeClean` and `ScrapeFinal`, the URL collection of the clean scraper, and the counts in `CountAwards`.

Shared modules hold what several files use:

- `Text` has ASCII character classes, `lower`, `strip`, whitespace collapsing, `split()`, `in` on strings, `join` and `split(sep)`.
- `Patterns` has `\b(w1|…|wn)\b` search and removal.
- `Lists` has dedup, filter, subsequence, and the "append when new" loop.
- `Ordering` has Python's `str` order and `sorted` of a set.
- `Retrieval` has the retrieved document and the first-per-id dedup loop.
- `TagQuery` has the `tag\s*['"]([^'"]+)['"]` search.

Some behaviours of the source are worth knowing:

- Adding tags can undo a match in `scrape_readytensor_awards.py`. A keyword may span the spaces between the joined parts, so "adding tags never turns a match into a non-match" is false. `ScrapeAwards.MoreTagsCanUndoMatch` proves a concrete case. Two true weaker facts are proved instead: appending HTML keeps a match, and a keyword inside a single part always matches.
- The normalisers in `scraper.py` and `count_all_awards.py` are not idempotent. Filler removal leaves the surrounding spaces in place, so "best for you" becomes "best  you" (`Scraper.CleanDropsFiller`, `CountAllAwards.CleanDropsFiller`). `CountAllAwards.NormalizeAgain` states when normalising twice changes nothing.
- In `ingest.py` the awards string cannot tell a single award spelled "none" from no awards (`Ingest.AwardsStrNone`).
- In `assistant.py` an award made only of blanks is truthy. It normalises to "", which every awards field contains, so the filter keeps everything (`Assistant.BlankAwardAcceptsAll`).

## Model

| member | source | states |
|---|---|---|
| `Scraper.MatchesAward` | scraper.py:32-37 | true iff the text is present and non-empty and some AWARD_KEYWORDS entry occurs in its lower-cased form |
| `Scraper.MatchesAwardIgnoresCase` | scraper.py:36-37 | lower-casing the text first does not change the answer |
| `Scraper.MatchesAwardExtend` | scraper.py:36-37 | a text that matches still matches once more text is appended |
| `Scraper.Clean` | scraper.py:43-46 | the cleaned phrase has no upper-case letter, no quote or backtick, no leading or trailing whitespace, and is no longer than the input |
| `Scraper.CleanIgnoresCase` | scraper.py:43-46 | cleaning a lower-cased phrase gives the same result as cleaning the phrase |
| `Scraper.FirstRelated` | scraper.py:54-57 | it gives the index of the first vocabulary entry that contains or is contained in the phrase, with no earlier entry related; None iff no entry is related |
| `Scraper.Pick` | scraper.py:54-57 | a result is a vocabulary entry, and it is the first related one in list order; None iff no entry is related |
| `Scraper.NormalizeWith` | scraper.py:39-57 | None for a missing or empty phrase; a result is a vocabulary entry; None for a non-empty phrase means the cleaned phrase was rejected or no entry is related to it |
| `Scraper.NormalizeRejected` | scraper.py:47-52 | a non-empty phrase whose cleaned form is rejected normalises to None, whatever the vocabulary |
| `Scraper.NormalizeUnrelated` | scraper.py:53-57 | a non-empty phrase whose cleaned form is accepted but related to no entry normalises to None |
| `Scraper.NormalizeWithResult` | scraper.py:41-57 | a non-None result comes from a non-empty phrase whose cleaned form passes the rejection rules (length at least 5, no digit, at most 5 tokens, no stop term); it is a vocabulary entry, the first related one |
| `Scraper.NormalizeIgnoresCase` | scraper.py:43-57 | upper- and lower-case spellings normalise alike |
| `Scraper.SameClean` | scraper.py:41-57 | two phrases that are both empty or both non-empty, and clean alike, normalise alike |
| `Scraper.ExtractAwards` | scraper.py:59-108 | the loops over JSON awards, description captures and the four selectors' element texts produce the distinct accepted normalisations in order of first acceptance |
| `Scraper.AddElementTexts` | scraper.py:91-102 | the selector loop adds the new normalisations of each selector's texts in selector order; a missing selector adds nothing |
| `Scraper.ExtractedAwardsValid` | scraper.py:64-108 | the extracted list has no duplicates and holds AWARD_KEYWORDS entries only |
| `Scraper.ExtractedAwardsExact` | scraper.py:64-108 | a name is extracted exactly when some candidate text normalises to it |
| `Scraper.ExtractedAwardsNothing` | scraper.py:65-94 | no awards key, no description and no elements give the empty list |
| `Scraper.CleanFixed` | scraper.py:43-46 | a phrase that is trimmed, lower case, single spaced and free of quotes and filler words is unchanged by cleaning |
| `Scraper.CleanDropsFiller` | scraper.py:43-46 | "best for you" cleans to "best  you": the filler "for" is cut as a whole word and the spaces on either side stay |
| `Scraper.CleanBestOverall` | scraper.py:43-52 | "best overall project" is unchanged by cleaning and passes every rejection rule |
| `Scraper.NormalizeAccepts` | scraper.py:41-57 | a non-empty phrase whose cleaned form is accepted normalises to the first related vocabulary entry |
| `Scraper.NormalizeBestOverallLower` | scraper.py:39-57 | "best overall project" normalises to itself |
| `Scraper.NormalizeBestOverall` | scraper.py:39-57 | any capitalisation of "best overall project", "Best Overall Project" among them, normalises to "best overall project" |
| `Scraper.NormalizeShort` | scraper.py:48 | a phrase shorter than five characters normalises to None |
| `CountAllAwards.Clean` | count_all_awards.py:9-13 | the cleaned award has no upper-case letter, no quote or backtick, no leading or trailing whitespace, and is no longer than the input |
| `CountAllAwards.NormalizeAward` | count_all_awards.py:5-20 | None for a missing or empty award. A result exists iff the cleaned award passes the rules. A result is the cleaned award. It has length at least 5, no digit, at most 5 tokens and no stop word. It is lower case, trimmed and free of quotes |
| `CountAllAwards.NormalizeIgnoresCase` | count_all_awards.py:9-20 | upper- and lower-case spellings normalise alike |
| `CountAllAwards.CleanFixed` | count_all_awards.py:9-13 | a phrase already in cleaned, single-spaced form without filler words is unchanged |
| `CountAllAwards.CleanDropsFiller` | count_all_awards.py:9-13 | "best for you" cleans to "best  you": the filler "for" is cut as a whole word and the spaces on either side stay |
| `CountAllAwards.NormalizeAgain` | count_all_awards.py:9-20 | normalising a result again gives it back when the result is single spaced and free of filler words |
| `CountAllAwards.RelatedToValid` | count_all_awards.py:25-36 | true iff some valid keyword contains, or is contained in, the phrase |
| `CountAllAwards.RelatedToAny` | count_all_awards.py:36 | true iff some entry of the list contains, or is contained in, the phrase |
| `CountAllAwards.ExtractAwards` | count_all_awards.py:22-63 | the JSON-award and capture loops, followed by `list(set(...))`, give the distinct accepted phrases |
| `CountAllAwards.ExtractedAwardsExact` | count_all_awards.py:33-63 | the result has no duplicates, and a phrase is in it iff some candidate normalises to it and it is related to a valid keyword |
| `CountAllAwards.ExtractedAwardsValid` | count_all_awards.py:15-63 | every extracted award has length at least 5, no digit, at most 5 tokens and no stop word, is lower case and trimmed, and is related to a valid keyword |
| `CountAllAwards.GroupByAward` | count_all_awards.py:69-75 | the keys are exactly the awards extracted from some publication, and each key maps to exactly the ids of the publications it was extracted from |
| `CountAllAwards.AddUnder` | count_all_awards.py:74-75 | the inner loop adds the publication id to the set of each of its awards and changes nothing else |
| `Ingest.CleanText` | ingest.py:24-28 | the default for None, "" or "none"/"null"/"n/a" in any case; otherwise the value with leading and trailing whitespace removed, so a trimmed string made of the value's characters, equal to the value when it was trimmed already |
| `Ingest.CleanTextTrimmed` | ingest.py:24-28 | with a trimmed default, every result is trimmed |
| `Ingest.CleanTextWhitespace` | ingest.py:26-28 | a value of blanks only is not blank by the test and gives "" rather than the default |
| `Ingest.NormalizeAward` | ingest.py:30-35 | None iff the award is missing or empty; otherwise the result has exactly the `split()` words of the lower-cased award, and it is trimmed, single spaced, lower case, no longer than the input, and empty iff the input was all whitespace |
| `Ingest.NormalizeIdempotent` | ingest.py:30-35 | normalising a non-empty result again gives it back |
| `Ingest.NormalizeIgnoresCase` | ingest.py:30-35 | upper- and lower-case spellings normalise alike |
| `Ingest.ExtractAwards` | ingest.py:37-60 | the set-building steps followed by `sorted(...)` give the sorted listing of the award set without "" |
| `Ingest.FoundTags` | ingest.py:51-59 | the four hard-coded tests give exactly the tags the lower-cased description contains |
| `Ingest.ExtractedAwardsSorted` | ingest.py:60 | the result is strictly increasing in Python's string order, hence sorted and free of duplicates, and holds no empty string |
| `Ingest.ExtractedAwardsExact` | ingest.py:37-60 | a member is non-empty and is a JSON tag, the normalisation of a non-empty capture, or a hard-coded tag that the lower-cased description contains; captures and tags count only for a non-empty description; conversely every such string is a member |
| `Ingest.AwardSetMembers` | ingest.py:38-59 | membership of the set before sorting, by its three sources |
| `Ingest.JsonAwardsKept` | ingest.py:38-60 | every non-empty JSON tag is in the result unchanged |
| `Ingest.TagAwardsFound` | ingest.py:51-60 | a hard-coded tag that the description contains in any case is in the result |
| `Ingest.AwardsStr` | ingest.py:102 | "none" for no awards, and the award itself for a single award |
| `Ingest.AwardsStrSplit` | ingest.py:102 | splitting the string on the separator (space, bar, space) gives the awards back when no award holds a bar character |
| `Ingest.AwardsStrNone` | ingest.py:102 | the single award "none" and no awards give the same string |
| `Ingest.BatchesPartition` | ingest.py:66-71 | the batches concatenate to the documents in order; none is empty; each holds at most `batch_size`, and all but the last hold exactly `batch_size` |
| `Ingest.BatchesStep` | ingest.py:68-69 | the batch at index `i` is `documents[i:i + batch_size]`, cut at the end |
| `Ingest.BatchAddDocuments` | ingest.py:66-71 | a zero batch size is an error (the `range()` ValueError); a negative one submits nothing; a positive one submits the batches in order |
| `Ingest.SliceBatches` | ingest.py:67-71 | the `range(0, total, batch_size)` loop submits exactly the batches |
| `Ingest.FullTextBody` | ingest.py:113-118 | the stripped f-string is the four labelled lines when the awards string ends in a non-space |
| `Ingest.AwardsStrEnds` | ingest.py:101-102 | the awards string ends in a non-space when every award does |
| `Ingest.PubChunks` | ingest.py:122-126 | chunk `i` of `n` carries piece `i`, the shared metadata, `chunk_index` i and `total_chunks` n |
| `Ingest.PubChunksIndexed` | ingest.py:122-126 | the chunks of a publication have distinct indices and identical metadata, and their contents are the splitter's pieces in order |
| `Ingest.AppendChunks` | ingest.py:122-126 | the enumerate loop appends exactly the publication's chunks after the documents already collected |
| `Ingest.PubDocuments` | ingest.py:99-126 | one iteration of the publication loop yields the chunks of the cleaned description, sorted awards, awards string and metadata; every chunk carries the cleaned id, username (default "anonymous"), title (default "Untitled Project") and license (default "unknown"), the fixed source, its own index and the chunk count |
| `Ingest.IngestDocuments` | ingest.py:98-126 | the documents list is the publications' chunks concatenated in publication order |
| `App.AwardNorm` | app.py:90 | None iff the award is missing or empty; otherwise it is the lower-cased award with outer whitespace removed (in either order), so lower case, trimmed, no longer than the award, and empty iff the award is all whitespace |
| `App.AwardNormPadded` | app.py:90 | an award padded with whitespace on both sides gives its trimmed text, lower-cased |
| `App.FuzzyTier` | app.py:107-116 | true iff some piece between separators scores strictly above 70 with `fuzz.ratio`, or above 0.7 with difflib when fuzzywuzzy is missing |
| `App.FilterDocs` | app.py:97-116 | the filter loop keeps, in order, each document that passes the exact tier, or fails it and passes the fuzzy tier |
| `App.SelectDocs` | app.py:90-138 | the retrieval, filter, dedup and `[:5]` steps return the selected documents |
| `App.SelectedWithAward` | app.py:92-126 | with an award: at most five documents, distinct ids, a subsequence of what was retrieved for the award, each accepted by a tier; their ids are the first five distinct ids among the accepted documents, and each is the first accepted document with its id |
| `App.SelectedWithoutAward` | app.py:127-138 | without an award: at most five documents, distinct ids, in retrieval order, exactly the first five distinct-id documents retrieved for the query, each the first retrieved with its id |
| `App.SelectedIgnoresQuery` | app.py:92-95 | with an award the retriever is asked about the award, so the query text does not change the selection |
| `App.ExactTierAccepts` | app.py:99-105 | a document whose lower-cased awards field (default "none") contains the award is kept, whatever the ratios say |
| `App.FuzzyTierNeeded` | app.py:102-116 | a document failing the exact tier, with no piece scoring above 70, is dropped |
| `App.BuildContextEmpty` | app.py:143-150 | the context is empty exactly when there are no documents (documents having awards) |
| `App.BuildContextSnoc` | app.py:143-150 | one more document adds a blank line and its Title/ID/Awards/Content section at the end |
| `App.BuildContextMissingAwards` | app.py:143-149 | a document without an "awards" key makes the context fail (the KeyError) |
| `App.ParseAward` | app.py:205-217 | a parsed award, from the tag or a shortcut, is non-empty and holds no quote |
| `App.ParseAwardTag` | app.py:209-211 | at the leftmost `tag`-quote-text-quote occurrence, the quoted text is the parsed award |
| `App.ParseAwardInnovative` | app.py:205-215 | with no `tag`-quote-text-quote occurrence anywhere, "most innovative" in the lower-cased input gives "most innovative project" |
| `App.ParseAwardBestOverall` | app.py:205-217 | with no quoted tag and no "most innovative", "best overall" in the lower-cased input gives "best overall project" |
| `App.ParseAwardNone` | app.py:205-217 | with no quoted tag and neither phrase, no award is parsed |
| `Assistant.AwardNorm` | assistant.py:85 | the award with outer whitespace removed, lower-cased (lower-casing first gives the same), so lower case, trimmed, no longer than the award, empty iff the award is all whitespace |
| `Assistant.AwardNormPadded` | assistant.py:85 | an award padded with whitespace on both sides gives its trimmed text, lower-cased |
| `Assistant.AcceptDoc` | assistant.py:88-107 | the loop body keeps a document iff it passes the exact tier, or the word-level fuzzy tier when fuzzywuzzy imported, or the difflib tier |
| `Assistant.FilterDocs` | assistant.py:86-107 | the filter loop keeps, in order, each document a tier accepts |
| `Assistant.FilterByAward` | assistant.py:83-117 | the filter, dedup and `[:final_k]` steps return the filtered selection |
| `Assistant.FilteredByAwardSelection` | assistant.py:83-117 | at most `final_k` documents, distinct ids, an order-preserving subsequence of the input, each accepted by a tier; their ids are the first `final_k` distinct ids among the accepted documents, and each is the first accepted document with its id |
| `Assistant.FilteredByAwardAllAccepted` | assistant.py:83-117 | when every document passes a tier, the filter keeps the first `final_k` distinct-id documents |
| `Assistant.BlankAwardAcceptsAll` | assistant.py:85-117 | an award of blanks normalises to "" and keeps the first `final_k` distinct-id documents |
| `Assistant.FirstDistinct` | assistant.py:127-135 | the capped dedup loop keeps the first `final_k` distinct-id documents |
| `Assistant.GetRelevantDocs` | assistant.py:120-135 | the retriever is asked about the query; a truthy award filters, otherwise the first `final_k` distinct-id documents are kept |
| `Assistant.RelevantDocsSelection` | assistant.py:120-135 | at most `final_k` documents, distinct ids, in the order retrieved for the query; with an award each is accepted by a tier and is the first accepted document of one of the first `final_k` distinct accepted ids; without one they are exactly the first per id |
| `Assistant.BlankAwardLikeNone` | assistant.py:120-135 | an empty or blank award selects the same documents as no award |
| `Assistant.SectionIgnoresTail` | assistant.py:138-145 | only the first 500 characters of the content reach the context |
| `Assistant.SectionLength` | assistant.py:140-143 | a section is its labels, its metadata, at most 500 content characters and "..."; with 500 or more characters, exactly that length |
| `Assistant.FormatContextShape` | assistant.py:138-145 | with awards on every document the context exists, and it is empty exactly when there are no documents |
| `Assistant.FormatContextMissingAwards` | assistant.py:138-145 | a document without an "awards" key makes the context fail (the KeyError) |
| `Assistant.AskContextEmpty` | assistant.py:149-153 | when nothing is retrieved, the context handed to the prompt is "" |
| `Assistant.ReadCommand` | assistant.py:182-190 | quit iff the stripped line, lower-cased, is "quit", "exit" or "q"; otherwise the stripped line is asked with the award the `tag "…"` search finds in it, and any award is non-empty and free of quotes |
| `Assistant.ReadCommandPlain` | assistant.py:182-190 | a line that is no quit word and holds no `tag "…"` asks the stripped line with no award |
| `Assistant.ReadCommandTag` | assistant.py:189-190 | the leftmost `tag "…"` of the line gives the award asked about |
| `ScrapeFinal.MatchesAward` | scrape_readytensor_final.py:33-37 | true iff the text is non-empty and some keyword, generic ones included, occurs in its lower-cased form |
| `ScrapeFinal.MatchesGeneric` | scrape_readytensor_final.py:27-37 | any text containing "winner", "award", "challenge" or "hackathon" matches |
| `ScrapeFinal.PrefixIndex` | scrape_readytensor_final.py:44 | it gives the first prefix alternative, in the order the regex engine tries them, that the phrase starts with ignoring case, with no earlier alternative matching |
| `ScrapeFinal.NormalizeAwardPhrase` | scrape_readytensor_final.py:39-46 | None iff the phrase is empty; a result has exactly the `split()` words of what follows the prefix in the stripped phrase, and it is trimmed, single spaced, no longer than the phrase, with each non-space character from the phrase |
| `ScrapeFinal.NormalizeRemovesPrefix` | scrape_readytensor_final.py:43-46 | a prefix in any case, a space and a clean name normalise to the name |
| `ScrapeFinal.NormalizeKeeps` | scrape_readytensor_final.py:43-46 | a trimmed, single-spaced phrase without a prefix comes back unchanged, case included |
| `ScrapeFinal.Accept` | scrape_readytensor_final.py:60-61 | a kept phrase is non-empty, trimmed and single spaced |
| `ScrapeFinal.ExtractAwards` | scrape_readytensor_final.py:48-63 | the capture loop returns the distinct accepted normalisations; nothing for a missing or empty description |
| `ScrapeFinal.ExtractedAwardsOrder` | scrape_readytensor_final.py:58-63 | the result has no duplicates and is in order of first occurrence |
| `ScrapeFinal.ExtractedAwardsShape` | scrape_readytensor_final.py:58-63 | every extracted name is non-empty, trimmed and single spaced |
| `ScrapeFinal.ExtractedAwardsMembers` | scrape_readytensor_final.py:58-63 | a name is extracted iff it is non-empty and some capture normalises to it |
| `ScrapeFinal.ExtractedAwardsNone` | scrape_readytensor_final.py:50-52 | a missing or empty description gives [] whatever the captures |
| `ScrapeAwards.MatchesAward` | scrape_readytensor_awards.py:39-47 | true iff some keyword occurs in the lower-cased space-join of description (None as ""), tags and HTML |
| `ScrapeAwards.CombinedParts` | scrape_readytensor_awards.py:41-46 | the combined text is the three lower-cased parts joined by single spaces |
| `ScrapeAwards.MoreHtmlKeepsMatch` | scrape_readytensor_awards.py:41-47 | appending HTML never turns a match into a non-match |
| `ScrapeAwards.DescriptionSuffices` | scrape_readytensor_awards.py:41-47 | a keyword in the description alone makes the record match |
| `ScrapeAwards.TagSuffices` | scrape_readytensor_awards.py:41-47 | a keyword inside one tag makes the record match |
| `ScrapeAwards.HtmlSuffices` | scrape_readytensor_awards.py:41-47 | a keyword in the HTML alone makes the record match |
| `ScrapeAwards.MatchesGeneric` | scrape_readytensor_awards.py:9-47 | "award", "excellence", "outstanding" or "distinguished" anywhere in the combined text makes it match |
| `ScrapeAwards.MoreTagsCanUndoMatch` | scrape_readytensor_awards.py:41-47 | the tag "winner" with the HTML "of" matches, and adding the tag "x" makes it stop matching |
| `ScrapeClean.MatchesAward` | scrape_readytensor_clean.py:43-45 | true iff some keyword occurs in the lower-cased text |
| `ScrapeClean.MatchesGeneric` | scrape_readytensor_clean.py:28-45 | any text containing "winner of", "award" or "challenge" matches |
| `ScrapeClean.TitleSuffices` | scrape_readytensor_clean.py:130-131 | a keyword in the title alone makes the title-plus-description text match |
| `ScrapeClean.DescriptionSuffices` | scrape_readytensor_clean.py:130-131 | a keyword in the description alone makes the combined text match, whatever the title |
| `ScrapeClean.CardUrl` | scrape_readytensor_clean.py:111-113 | a URL is kept iff the href is present, non-empty, contains "/publications/" and does not end in "/create"; a kept href starting with "/" gets the host in front, and any other kept href is used as it is |
| `ScrapeClean.HostedUrl` | scrape_readytensor_clean.py:113 | putting the host in front keeps "/publications/" and the ending |
| `ScrapeClean.CollectUrls` | scrape_readytensor_clean.py:108-115 | the card loop appends each new valid URL |
| `ScrapeClean.CollectedUrlsValid` | scrape_readytensor_clean.py:108-115 | the collected URLs are distinct, in first-seen order, each a publication page that is not the create page |
| `ScrapeClean.CollectedUrlsMembers` | scrape_readytensor_clean.py:110-115 | a URL is collected iff some card's href yields it |
| `CountAwards.Count` | count_awards.py:14-15 | the sum is the number of publications passing the test, never more than the data |
| `CountAwards.IdSet` | count_awards.py:16-19 | an id is in the set iff some publication of the sequence has it |
| `CountAwards.CollectUniqueIds` | count_awards.py:16-19 | the `unique_ids.add` loop collects the ids of the publications mentioning the award in either place |
| `CountAwards.Tally` | count_awards.py:13-19 | the awards-array count, the description count and the number of unique ids for one award |
| `CountAwards.UniqueIdsMembers` | count_awards.py:16-19 | an id is counted iff some publication with that id mentions the award in its awards or its description |
| `CountAwards.UniqueAtMostSum` | count_awards.py:14-19 | the unique total is at most the awards count plus the description count |
| `CountAwards.UniqueAtLeastEach` | count_awards.py:14-19 | the ids behind each count are among the unique ids |
| `CountAwards.ListingIds` | count_awards.py:24-27 | the listing prints at least as many records as there are unique ids |
| `Retrieval.FirstPerId` | app.py:119-125 | what the dedup loop keeps has distinct ids and comes from the input |
| `Retrieval.UniqueById` | app.py:119-125 | the `seen`/`unique` loop keeps exactly the first document per id |
| `Retrieval.FirstPerIdIds` | assistant.py:110-116 | the kept ids are the distinct input ids in order of first occurrence |
| `Retrieval.FirstPerIdFirst` | assistant.py:110-116 | every kept document is the first document of the input with its id |
| `Retrieval.FirstPerIdSubsequence` | app.py:131-137 | the kept documents are in retrieval order |
| `Retrieval.FirstPerIdCovers` | app.py:131-137 | every input id is kept |
| `Retrieval.TakeFirstPerId` | app.py:126 | cutting the dedup result keeps distinct ids and retrieval order |
| `Retrieval.FilteredSelection` | app.py:97-126 | filter, dedup and cut keep at most `n` distinct-id documents, each passing the filter, in input order; their ids are the first `n` distinct ids of the passing documents, and each is the first passing document with its id |
| `Retrieval.TakeFirstOfEachId` | app.py:118-126 | the dedup loop cut to `n` keeps, for each of the first `n` distinct ids in order of first occurrence, the first document with that id |
| `Retrieval.TakeFirstPerIdStep` | assistant.py:130-134 | one step of the loop with `len(unique) < k` adds the document iff its id is new and there is room |
| `TagQuery.TagMatchAt` | app.py:209 | a match at one position captures a non-empty text without quotes |
| `TagQuery.TagMatchSound` | app.py:209 | a match at a position has the pattern's shape: "tag", whitespace, a quote, the capture, a quote |
| `TagQuery.TagMatchComplete` | app.py:209 | wherever the pattern's shape occurs, the match at that position captures exactly its quoted text |
| `TagQuery.SearchTag` | assistant.py:189-190 | a result is the capture at the leftmost matching position; None iff no position matches |
| `TagQuery.SearchTagFinds` | assistant.py:189 | the search succeeds wherever the pattern's shape occurs |
| `TagQuery.SearchTagShape` | assistant.py:189 | a successful search means the pattern's shape occurs somewhere |
| `Patterns.SearchFrom` | scraper.py:49 | true iff some alternative occurs as a whole word at or after the position |
| `Patterns.FirstWordAt` | scraper.py:46 | it gives the first alternative, in list order, that matches as a whole word at the position |
| `Patterns.RemoveWords` | scraper.py:46 | the result is no longer than the input and uses only its characters, and it is the input unchanged when no alternative occurs as a whole word |
| `Patterns.RemoveWordsKeep` | scraper.py:46 | a stretch of text where no alternative matches as a whole word is copied unchanged |
| `Patterns.RemoveWordsCut` | scraper.py:46 | where alternatives match as whole words, the first matching one in list order is cut and removal resumes right after it |
| `Patterns.RemoveWordsFirstMatch` | scraper.py:46 | when the first whole-word match in the text is at position i, the result is the text before i followed by the removal applied after the match |
| `Patterns.MatchLengthFirstWord` | scraper.py:46 | the length cut at a position is that of the first alternative matching there, and 0 when none does |
| `Text.Lower` | scraper.py:43 | same length, each character lower-cased, no upper-case letter left |
| `Text.Strip` | scraper.py:43 | trimmed, made of the input's characters, empty iff the input is all whitespace, the input itself when already trimmed |
| `Text.CollapseSpaces` | scraper.py:44 | single spaced, no longer than the input, empty iff the input is, with first and last characters' whitespace-ness kept, every non-space character from the input, and the same `split()` words as the input |
| `Text.CollapseSingleSpaced` | scraper.py:44 | collapsing leaves a single-spaced text unchanged |
| `Text.Without` | scraper.py:45 | every remaining character is from the input and not deleted; nothing changes when no character is to be deleted |
| `Text.WithoutCount` | scraper.py:45 | a character that is not deleted occurs as often as in the input |
| `Text.WithoutAppend` | scraper.py:45 | deleting from a concatenation concatenates the deletions, so the kept characters stay in order |
| `Text.WordsAreWords` | scraper.py:51 | every token of `split()` is non-empty and holds no whitespace |
| `Text.WordsEmpty` | scraper.py:51 | `split()` is empty iff the text is all whitespace |
| `Text.WordsLeadingSpaces` | ingest.py:33 | leading whitespace does not change `split()` |
| `Text.WordsTrailingSpaces` | ingest.py:33 | trailing whitespace does not change `split()` |
| `Text.WordsStrip` | ingest.py:33 | `lstrip()` and `strip()` do not change `split()` |
| `Text.SplitOn` | app.py:109 | splitting gives at least one piece, and joining the pieces with the separator gives the text back |
| `Text.SplitOnLeftmost` | app.py:109 | each cut is at the leftmost occurrence of the separator: no earlier occurrence overlaps a part and the separator after it, and the last part holds none |
| `Text.SplitOnUnique` | app.py:109 | any list with those leftmost cuts whose join is the text is the split of the text, so the split is determined |
| `Text.SplitOnJoin` | ingest.py:102 | splitting a join gives the parts back when no part holds the separator's distinctive character |
| `Text.ContainsAny` | scraper.py:37 | true iff some key occurs in the text |
| `Lists.Dedup` | count_all_awards.py:63 | no duplicates, and exactly the members of the input |
| `Lists.DedupOrder` | count_all_awards.py:63 | the dedup result is in order of first occurrence |
| `Lists.AddNewDedup` | scraper.py:66-69 | the "append when truthy and not yet in the list" loop equals dedup of the present values |
| `Lists.AddAll` | scrape_readytensor_final.py:58-62 | the loop appends each new present value in order |
| `Lists.Filter` | app.py:97-116 | the kept elements come from the input and pass the test, and every passing element is kept |
| `Lists.FilterCount` | app.py:97-116 | each passing element is kept as many times as it occurs in the input, a failing one never |
| `Ordering.Sort` | ingest.py:60 | `sorted` of a set is its sorted listing |
| `Ordering.SortedListingUnique` | ingest.py:60 | a strictly increasing listing of a set's elements is unique |
| `Ordering.LessTotal` | ingest.py:60 | Python's string order is total on distinct strings |

## Left out

- All network, browser and DOM work is left out: Playwright, requests, BeautifulSoup, pagination, scrolling and retries. The scraper models take what those produce as inputs, such as element texts, hrefs, titles and descriptions.
- The regex engine inside `re.findall` for the description cue patterns is not modelled, because its lookahead matching is a library. The captures are an input sequence in pattern order. The `\b(...)\b` filters and the `tag` pattern are modelled.
- The embeddings, the Chroma store and `retriever.invoke` are left out. The retriever is a function parameter returning the retrieved documents.
- `RecursiveCharacterTextSplitter` is a library, so the splitter is a function parameter returning the chunk texts.
- The `fuzz.ratio` and `difflib` ratio algorithms are left out because they are a foreign library and floating point. They are uninterpreted functions into 0..100 and into reals in 0..1. Only the strict-threshold tests are kept.
- The LLM chains, prompt templates, the Streamlit UI and session state are left out. So are debug output, `print` logging and datetime stamps.
- The `unmatched` lists are left out because they are only logged.
- JSON loading and saving, `wipe_outputs` and `shutil.rmtree` are file I/O and are left out.
- Configuration loading is left out. `fuzzy_threshold`, `final_k`, `top_k` and the batch size are parameters.
- Assistant.Settings: `final_k` is taken as a `nat`, so a negative value in config.yaml is not modelled. With one, `unique[:final_k]` would drop documents from the end, and the `len(unique) < final_k` test of the general-query loop would refuse every document.
- Unicode case mapping and whitespace are not modelled. Lower-casing and whitespace follow Python's rules on ASCII only.
- `list(set(...))` returns an unspecified order in `scraper.py` and `count_all_awards.py`. The model returns the first-occurrence order, which is one of the orders Python may produce. Only membership and the absence of duplicates are claimed about it.
- Exceptions are modelled selectively:
  - `ask_assistant` turns any exception into an error string. The model gives the KeyError of a missing "awards" key as None, in `App.BuildContext` and `Assistant.FormatContext`.
  - The KeyError on a missing "id" is not modelled: documents and publications always carry an id.
  - The KeyError on a missing "title" (app.py:144, assistant.py:140), the AttributeError on a null "publication_description" or a null award entry (count_awards.py:14-15,18) and the TypeError on a null description (count_all_awards.py:51) are not modelled: those fields are plain strings in the model, so a missing or null value cannot be represented.
- `count_awards.py` loops over the two searched awards and prints each report. `CountAwards.Tally` models one iteration for a given term, and the print formatting is left out.
- `ask_assistant` in assistant.py then runs the LLM chain on the context. Only the context (`Assistant.AskContext`) is modelled.
- Python's `str()` conversion in `clean_text` is not modelled. Values are already strings or missing.
