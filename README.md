# Newsify extraction core, modelled in Dafny

This project models the parts of Newsify that carry logic:

- **The news-extraction endpoint** `GET /api/fetch-news?url=…`. It checks the `url` parameter. It decides from the URL whether the page is a section front page (a "listing"). On a listing it turns up to 15 teaser containers into articles and assembles a "Daily Briefing". Otherwise, or when no teaser qualifies, it extracts one article body. The body comes from a priority list of selectors, with a fallback to every paragraph, and is truncated to 5000 characters. Every summary and article body passes through `cleanText`; titles are only trimmed. `cleanText` trims lines, drops short ones and boilerplate ones, and joins the rest with blank lines.
- **The home page's newspaper filter**: category plus a case-insensitive search on name or language.
- **The speech hook**: the language-name map, the voice priority rule, the utterance `speak` prepares, and the `isPlaying` / `isPaused` flags.

Modules:

- `Wrappers`: `Option` (JavaScript `undefined`/`null`) and `Result` (a thrown exception).
- `JsString`: the JavaScript string built-ins used. These are `trim`, ASCII `toLowerCase`, `includes`, `startsWith`, `split`, `join` and `||` on strings.
- `Seqs`: `filter`, `map`, `slice`, `findIndex`/`findLastIndex`, and a throwing `map`.
- `TextCleaner`: `cleanText`.
- `FetchNews`: the handler.
- `NewspaperFilter`: `filteredPapers`.
- `Speech`: `useSpeech`.

The fetched page enters the model as plain data, a `Page`. It holds what the handler's CSS selectors pick out: the teaser containers with their texts and attributes, the `h1` text, the two image sources, the body-selector matches with their paragraph texts, and all paragraph texts. Fetching and `new URL(ref, base)` are function parameters of `Handle` (`Fetcher`, `Resolver`). A `None` from either stands for a thrown exception.

The extraction steps take `cleanText` as a `Cleaner` argument. `Handle` passes `TextCleaner.CleanText`. So the listing and body rules are proved for any cleaner, and the lemmas about `CleanText` are stated once in `TextCleaner`.

A Dafny `char` is a Unicode scalar value, not a UTF-16 code unit. Lengths in the model therefore count characters. They agree with JavaScript's code-unit counts for text inside the Basic Multilingual Plane, which covers the Indian scripts the app serves.

Behaviours of the handler that are easy to misread:

- `isListing` tests the whole URL string, query and host included, not only the path. `FetchNews.MarkerAnywhere` states this.
- In the body loop, a selector that matches but yields 150 characters or fewer still sets `content`. A later selector overwrites it only if that selector also matches. The all-paragraph fallback applies only when the final `content` is empty. So a short body suppresses the fallback (`FetchNews.ContentSources`, `FetchNews.KeepsLastShort`).
- A relative teaser link or image that `new URL` rejects throws inside the listing loop. The whole request then answers 500 "Failed to fetch article". So a successful fetch can still end in the 500 answer (`FetchNews.Handle`, `Seqs.MapAllFirstFailure`).
- `cleanText` is idempotent on every input (`TextCleaner.CleanTextIdempotent`).

## Model

| member | source | states |
|---|---|---|
| JsString.Trim | app/api/fetch-news/route.ts:42 | the trimmed line has no strippable character at either end and is no longer than the input |
| JsString.TrimIsInfix | app/api/fetch-news/route.ts:42 | `trim` keeps a contiguous infix and removes only whitespace or line terminators before and after it |
| JsString.TrimIdempotent | app/api/fetch-news/route.ts:42 | trimming a trimmed line changes nothing |
| JsString.Lower | app/api/fetch-news/route.ts:44 | lower-casing keeps the length and lowers each character on its own |
| JsString.LowerIdempotent | app/page.tsx:33-34 | lower-casing twice is lower-casing once |
| JsString.Contains | app/api/fetch-news/route.ts:44 | `includes` holds exactly when the substring occurs at some offset |
| JsString.ContainsAnyMeans | app/api/fetch-news/route.ts:49 | a chain of `includes` joined by `||` holds exactly when one of the markers occurs somewhere |
| JsString.Or | app/api/fetch-news/route.ts:58 | `a \|\| b` is truthy iff either is, and is `a` when `a` is truthy, else `b` |
| JsString.Split | app/api/fetch-news/route.ts:40 | splitting on a character yields at least one piece and no piece holds the separator |
| JsString.JoinSplit | app/api/fetch-news/route.ts:40 | joining the pieces of a split with the separator gives back the input |
| JsString.SplitHead | hooks/use-speech.ts:42 | the first piece of a split is a prefix of the input that ends at the first separator (or is the whole input when there is none) |
| JsString.SplitOnJoin | app/api/fetch-news/route.ts:45 | splitting a join of separator-free pieces on the separator recovers the pieces |
| JsString.Join | app/api/fetch-news/route.ts:45 | specified by `JoinSplit`, `SplitOnJoin` and `JoinContainsPieces`: splitting a join of separator-free pieces recovers them, and each piece occurs in the join |
| JsString.JoinContainsPieces | app/api/fetch-news/route.ts:78 | every piece of a join occurs in the joined string |
| Seqs.Filter | app/api/fetch-news/route.ts:43-44 | a filter keeps only elements that pass and is no longer than its input |
| Seqs.FilterMembers | app/page.tsx:31 | every element that passes is kept, and every kept element comes from the input |
| Seqs.FilterIsSubsequence | app/page.tsx:31 | a filter keeps its survivors in their original order, at strictly increasing positions that are exactly the positions whose element passes |
| Seqs.Map | app/api/fetch-news/route.ts:42 | a map keeps the length and applies the function at each position |
| Seqs.Take | app/api/fetch-news/route.ts:54 | the capped prefix has `min(n, length)` elements, each the input's element at that position |
| Seqs.MapAll | app/api/fetch-news/route.ts:53-75 | a throwing map succeeds iff every element builds, and then holds each element's value in order |
| Seqs.MapAllFirstFailure | app/api/fetch-news/route.ts:70-71 | a failing map reports the error of the first element that throws |
| Seqs.FirstIndex | app/api/fetch-news/route.ts:95-101 | the found index satisfies the predicate and no earlier one does; `None` means none does |
| Seqs.LastIndex | app/api/fetch-news/route.ts:95-101 | the found index satisfies the predicate and no later one does; `None` means none does |
| Seqs.TakeFilterSubsequence | app/api/fetch-news/route.ts:53-67 | the first `n` survivors all pass and keep their order in the input |
| Seqs.CappedBuildStep | app/api/fetch-news/route.ts:53-75 | one iteration of the capped build loop: past the cap or on a failing test nothing changes; otherwise the element is appended or its error becomes the result of the whole loop |
| TextCleaner.CleanText | app/api/fetch-news/route.ts:39-46 | specified by `CleanTextSegments`, `CleanTextIsClean`, `CleanTextKeepsOrder` and `CleanTextIdempotent` below |
| TextCleaner.ContainsAnyPhraseMeans | app/api/fetch-news/route.ts:44 | a line is boilerplate exactly when some phrase occurs in it, both lower-cased |
| TextCleaner.KeptLinesShape | app/api/fetch-news/route.ts:40-44 | every surviving line is a trimmed input line, holds no newline, is longer than 5 and has no boilerplate phrase |
| TextCleaner.CleanTextSegments | app/api/fetch-news/route.ts:39-46 | the output is empty iff no line survives; otherwise splitting it on the blank line gives exactly the surviving lines |
| TextCleaner.CleanTextIsClean | app/api/fetch-news/route.ts:39-46 | the output is empty or made of blank-line-separated lines that each pass both filters |
| TextCleaner.CleanTextKeepsOrder | app/api/fetch-news/route.ts:40-45 | survivors keep input order, and the surviving positions are exactly the trimmed lines that pass both filters, so a repeated passing line survives each time |
| TextCleaner.SurvivorsOfJoin | app/api/fetch-news/route.ts:39-46 | re-splitting and re-filtering a blank-line join of clean lines gives those lines back |
| TextCleaner.CleanTextIdempotent | app/api/fetch-news/route.ts:39-46 | cleaning cleaned text changes nothing |
| FetchNews.IsListing | app/api/fetch-news/route.ts:49 | a URL is a listing iff one of the six markers occurs somewhere in it |
| FetchNews.MarkerAnywhere | app/api/fetch-news/route.ts:49 | a marker anywhere in the URL, query string included, makes it a listing |
| FetchNews.LinkOf | app/api/fetch-news/route.ts:58 | specified by `FirstTruthy` and `ArticleFromContainer`: the title element's `href`, else its first anchor's, else the container's first anchor's, the first present and non-empty |
| FetchNews.ImageOf | app/api/fetch-news/route.ts:61-63 | specified by `FirstTruthy` and `ArticleFromContainer`: `data-src`, else `src`, else `data-original`, the first present and non-empty |
| FetchNews.Summary | app/api/fetch-news/route.ts:65-72 | specified by `ArticleFromContainer` (the cleaned trimmed summary, or the fallback sentence when that is empty) and `SummaryIsClean` |
| FetchNews.FirstTruthy | app/api/fetch-news/route.ts:58-63 | `a \|\| b \|\| c` picks the first present non-empty candidate, and is falsy iff all are |
| FetchNews.Absolutize | app/api/fetch-news/route.ts:70-71 | specified by `ResolvedCandidate` and `ArticleFailure`: absent for an empty reference, kept with `http`, resolved otherwise, failing only when resolution fails |
| FetchNews.MakeArticle | app/api/fetch-news/route.ts:68-73 | specified by `ArticleFromContainer` and `ArticleFailure` |
| FetchNews.ResolvedCandidate | app/api/fetch-news/route.ts:70-71 | an absolutized reference is absent iff all candidates are empty, kept if it starts with `http`, resolved against the page otherwise |
| FetchNews.ArticleFromContainer | app/api/fetch-news/route.ts:56-72 | a built article holds the trimmed title, the link and image absent/kept/resolved as above, and the cleaned summary or the fallback sentence |
| FetchNews.ArticleFailure | app/api/fetch-news/route.ts:70-71 | building throws iff a relative link or image is rejected by `new URL` |
| FetchNews.SummaryIsClean | app/api/fetch-news/route.ts:65-72 | with the real cleaner a summary is the fallback sentence or clean text |
| FetchNews.ExtractListing | app/api/fetch-news/route.ts:52-75 | the `.each` loop yields the build of the first 15 qualifying containers, or the first build error |
| FetchNews.ListingShape | app/api/fetch-news/route.ts:53-75 | at most 15 articles, each titled longer than 15, each built from a qualifying container, in document order |
| FetchNews.ListingCap | app/api/fetch-news/route.ts:54 | with 15 or more qualifying containers exactly 15 articles come out |
| FetchNews.BriefingContent | app/api/fetch-news/route.ts:78 | specified by `BriefingHoldsEverySection` |
| FetchNews.HeroImage | app/api/fetch-news/route.ts:84 | specified by `HeroImageOfListing` |
| FetchNews.BriefingHoldsEverySection | app/api/fetch-news/route.ts:78 | every article's `## title` section occurs in the briefing, which opens with the first article's heading |
| FetchNews.HeroImageOfListing | app/api/fetch-news/route.ts:84 | the hero image is the first accepted container's image: absent without candidates, kept with `http`, resolved otherwise (absent if that is empty) |
| FetchNews.Truncate | app/api/fetch-news/route.ts:113 | `substring(0, n)` is the prefix of length `min(n, length)` |
| FetchNews.ParagraphText | app/api/fetch-news/route.ts:98-99 | specified by `ContentSources` (the fallback over all paragraphs) and `ArticleContentIsClean`: the trimmed paragraph texts joined by newlines and cleaned |
| FetchNews.SelectedBody | app/api/fetch-news/route.ts:94-102 | specified by `SelectsFirstLong` and `KeepsLastShort`, and computed by the loop `SelectBody` |
| FetchNews.ArticleContent | app/api/fetch-news/route.ts:94-107 | specified by `ContentSources` and `ArticleContentIsClean` |
| FetchNews.SelectsFirstLong | app/api/fetch-news/route.ts:94-102 | the first matching selector whose cleaned text exceeds 150 wins |
| FetchNews.KeepsLastShort | app/api/fetch-news/route.ts:94-102 | when no text is long enough, the last matching selector's text stays |
| FetchNews.SelectStep | app/api/fetch-news/route.ts:95-101 | one loop iteration moves the search state as the loop does, and a long text decides the selection |
| FetchNews.SelectBody | app/api/fetch-news/route.ts:94-102 | the selector loop returns the selected body |
| FetchNews.ContentSources | app/api/fetch-news/route.ts:104-107 | with no matching selector the content is all paragraphs cleaned; a non-empty selected body is never replaced |
| FetchNews.ArticleContentIsClean | app/api/fetch-news/route.ts:94-107 | with the real cleaner the article content is empty or clean text |
| FetchNews.ArticleTitle | app/api/fetch-news/route.ts:90-111 | specified by `ArticleResponseShape`: the trimmed first `h1` text, or "Live Article" when it is empty |
| FetchNews.ArticleImage | app/api/fetch-news/route.ts:91 | specified by `JsString.Or`: the `og:image` content when present and non-empty, else the main image's `src` |
| FetchNews.ExtractArticle | app/api/fetch-news/route.ts:90-115 | the single-article response: defaulted title, image, content truncated to 5000, and the source URL |
| FetchNews.ArticleResponseShape | app/api/fetch-news/route.ts:90-113 | content is a prefix of the extracted text of at most 5000 characters; an empty title becomes "Live Article" |
| FetchNews.Handle | app/api/fetch-news/route.ts:4-120 | 400 without fetching when `url` is missing or empty; one fetch otherwise; 500 when the fetch or a listing build throws; a briefing for a non-empty listing; else the single article |
| NewspaperFilter.FilteredPapers | app/page.tsx:31-36 | specified by `ListedExactly`, `ListedInOrder` and the lemmas below |
| NewspaperFilter.ListedExactly | app/page.tsx:31-36 | a paper is listed iff it is in the catalogue, its category passes, and the lower-cased query occurs in its lower-cased name or language |
| NewspaperFilter.ListedInOrder | app/page.tsx:31-36 | listed papers keep catalogue order, at exactly the positions whose paper passes both tests |
| NewspaperFilter.AllAndEmptyListsEverything | app/page.tsx:32-34 | "All" with an empty query lists the whole catalogue |
| NewspaperFilter.QueryCaseIgnored | app/page.tsx:33-34 | queries equal up to case list the same papers |
| NewspaperFilter.LowerQueryListsAlike | app/page.tsx:33-34 | lower-casing the query first lists the same papers |
| NewspaperFilter.OtherCategoriesHidden | app/page.tsx:32-35 | under a category other than "All" only papers of that category are listed |
| Speech.TargetLang | hooks/use-speech.ts:26-34 | a mapped language name becomes its tag; any other hint passes through unchanged |
| Speech.KnownLanguages | hooks/use-speech.ts:18-34 | the five names map to en-IN, hi-IN, te-IN, ml-IN, pa-IN, and the default hint targets en-IN |
| Speech.PrimarySubtag | hooks/use-speech.ts:42 | the part before the first `-`: a prefix of the tag with no `-`, followed in the tag by `-` unless it is the whole tag |
| Speech.PrimarySubtagOfRegionalTag | hooks/use-speech.ts:42 | a tag `language-region` has `language` as its primary subtag |
| Speech.SelectVoice | hooks/use-speech.ts:41-46 | a voice is chosen iff the list is non-empty, and the chosen voice is from the list |
| Speech.ExactMatchFirst | hooks/use-speech.ts:41 | the first voice whose lang equals the target is chosen |
| Speech.LanguageMatchSecond | hooks/use-speech.ts:42 | otherwise the first voice whose lang starts with the primary subtag is chosen |
| Speech.PremiumThird | hooks/use-speech.ts:43 | otherwise the first voice named with "Google" or "Natural" is chosen |
| Speech.FirstVoiceLast | hooks/use-speech.ts:44 | otherwise the first voice is chosen |
| Speech.Utterance.constructor | hooks/use-speech.ts:23 | a new utterance carries the text, no voice and an empty lang |
| Speech.Utterance.LoadVoices | hooks/use-speech.ts:37-50 | the chosen voice and its lang are set together; with no voice the utterance is unchanged |
| Speech.Next | hooks/use-speech.ts:61-100 | specified by `RunFlags`, `PauseResumeKeepPlaying` and `EndsIdle`, and kept by each `SpeechHook` handler |
| Speech.Run | hooks/use-speech.ts:61-100 | specified by `RunFlags` |
| Speech.RunFlags | hooks/use-speech.ts:61-100 | after any events, playing iff the last start/end/error/stop was a start; paused iff the last event was a pause |
| Speech.PauseResumeKeepPlaying | hooks/use-speech.ts:80-92 | pauses and resumes never change `isPlaying` |
| Speech.EndsIdle | hooks/use-speech.ts:66-100 | after end, error or stop both flags are down |
| Speech.SpeechHook.constructor | hooks/use-speech.ts:6-7 | both flags start false |
| Speech.SpeechHook.OnStart | hooks/use-speech.ts:61-64 | `onstart` raises `isPlaying` and lowers `isPaused` |
| Speech.SpeechHook.OnEnd | hooks/use-speech.ts:66-69 | `onend` lowers both flags |
| Speech.SpeechHook.OnError | hooks/use-speech.ts:71-74 | `onerror` lowers both flags |
| Speech.SpeechHook.Pause | hooks/use-speech.ts:80-85 | `pause` raises `isPaused` when synthesis exists, leaving `isPlaying` |
| Speech.SpeechHook.Resume | hooks/use-speech.ts:87-92 | `resume` lowers `isPaused` when synthesis exists, leaving `isPlaying` |
| Speech.SpeechHook.Stop | hooks/use-speech.ts:94-100 | `stop` lowers both flags when synthesis exists |
| Speech.SpeechHook.Speak | hooks/use-speech.ts:18-78 | no utterance without synthesis; otherwise a fresh utterance of the text, with the voice and lang the priority rule picks for the mapped hint, and flags unchanged until `onstart` |

## Left out

- Fetching, the `User-Agent` header, HTML parsing, noise removal and CSS selection are not modelled. Their outcome is the `Page` value, and a failure of any of them is the `Fetcher` returning `None`.
- `new URL(ref, base)` is the `Resolver` parameter. WHATWG URL parsing is not modelled.
- `console.error` logging and the JSON and HTTP encoding of responses are not modelled. The `type: "article"` tag is implied by the two success shapes.
- Text outside the Basic Multilingual Plane: JavaScript counts such a character as two code units, the model as one. So `FetchNews.Qualifies` (title longer than 15), `TextCleaner.KeepLine` (line longer than 5), `FetchNews.IsLong` (body longer than 150) and `FetchNews.Truncate` (first 5000) can differ from the code on such text, and the model never splits a surrogate pair where `substring` can.
- `toLowerCase` is modelled for ASCII letters only. Other scripts' case mappings are not modelled.
- The extraction steps take the cleaner as a parameter. Only `Handle` fixes it to `CleanText`, so facts about cleaned text come from the `TextCleaner` lemmas.
- The browser's speech engine is not modelled: `speechSynthesis.speak`, `cancel`, `pause` and `resume`, its queue, and the events it fires on cancel. The unmount cleanup and the floating-point `rate` and `pitch` are not modelled either.
- Speech.SpeechHook.Speak: when no voices are listed yet, the later `onvoiceschanged` run of `loadVoices` is not modelled. The utterance keeps no voice and an empty lang.
- Speech.TargetLang: a hint that names an inherited object property (such as `toString`) is treated as unmapped, not as the inherited value.
- The home page's React state, the `search-news` event listener, the URL `search` parameter and all rendering are not modelled. The active category and the query are plain arguments.
- The newspaper catalogue data in `lib/data.ts` is not part of this model. Only the record shape is.
