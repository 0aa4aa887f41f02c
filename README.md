# Chat persistence, vector records and site crawler of a RAG chatbot backend, in Dafny

This project models the three pieces of in-repository logic of a
retrieval-augmented-generation chatbot backend, with every hosted service
(MongoDB, Pinecone, the language model, HTTP fetching and HTML parsing)
replaced by an abstract map or an oracle parameter.

- `chat_persistence.dfy` (module `ChatPersistence`): the per-user chat record
  store. `GetTokenCount` is the word-count loop; `SummarizeConversation` is the
  strict `> 2000` threshold, the prompt built from the turns, the model call as
  an oracle `Completer` and the fixed error text on failure; `SaveChat` is the
  insert / append / summarise decision over a `map<UserId, ChatRecord>`, and
  the class `ChatCollection` holds that map and updates it in place with
  `SaveChatMessage`; `GetChatHistory` reads a record back, summary first. The
  collection is opened as it stands in the database: its contents are a
  constructor argument.
  Turn fields are `Missing | Str(s) | NonStr(shown)` so that the `isinstance`
  guard and the `KeyError` of the prompt builder can both be expressed.
- `embedding_service.dfy` (module `EmbeddingService`): the embedding request
  for a list of documents, the `vector<i>` records built from
  `enumerate(zip(documents, embeddings))`, the upsert into a
  `map<(namespace, id), Entry>` with last-write-wins, and the extraction of
  `metadata['text']` from query matches. The proofs show that ids within a batch
  are distinct (decimal `str(i)` is injective, via a parse round trip) and that
  re-ingesting a batch of the same length silently replaces the earlier one.
- `knowledge_base.dfy` (module `KnowledgeBase`): the crawler. `GetAllLinks` is
  the link-filter loop, `ScrapePage` the title default and paragraph
  filter/join, and `ScrapeWebsite` the `pages_to_visit` / `visited_urls` /
  `data` worklist loop, with `set.pop` as an arbitrary choice. The loop is
  proved to terminate on a finite site by the lexicographic measure (unvisited
  URLs of the site, pending URLs); it is proved never to re-scrape a
  successfully scraped URL, to skip failures, to keep `data` and
  `visited_urls` in step, to attempt only URLs found among the internal links
  of the base page or of a visited page, and, on exit, to have covered every
  internal link of every page it read.
- `text.dfy` (module `Text`): the parts of Python's `str` the scripts use:
  `isspace`, `strip`, `split()`, `join`, substring `in`, and `str(n)`.
- `wrappers.dfy` (module `Wrappers`): `Option` and `Result`.

Behaviour of the code worth knowing:

- On a summariser failure the code stores the text `"Error summarizing conversation"`
  as `conversation_summary` (src/scripts/chat_persistence_service.py:48-51, 72-76);
  it does not fall back to "no summary".
- The summary branch sets `conversation_summary` and `last_message` only; the
  stored `conversation_history` is left as it was, without the new turn
  (src/scripts/chat_persistence_service.py:72-84). It is not replaced or cleared.
- Above the threshold the prompt is built with `msg['user_message']` outside the
  `try` (src/scripts/chat_persistence_service.py:37), so a stored turn without a
  message key makes the save raise `KeyError` and write nothing.
- The crawl order is whatever `set.pop` yields, not breadth-first; links are
  kept when the base URL occurs anywhere in them (not as a prefix), and relative
  links are resolved against the base URL, not against the page that holds them
  (src/scripts/update_kb_from_site.py:31-34).

## Model

| member | source | states |
|---|---|---|
| `Text.StripSpec` | src/scripts/update_kb_from_site.py:44 | `strip()` yields a stripped infix of the input with only whitespace cut on either side |
| `Text.StripCutsAgree` | src/scripts/update_kb_from_site.py:44 | two cuts of a string that both leave a stripped infix between whitespace-only ends leave the same infix |
| `Text.StripOfUnique` | src/scripts/update_kb_from_site.py:44 | "whitespace cut from both ends" determines one string, so `strip()` is the only function meeting `StripSpec` |
| `Text.StripEmptyIff` | src/scripts/update_kb_from_site.py:45 | `p.text.strip()` is falsy exactly when the paragraph is whitespace only |
| `Text.StripIdempotent` | src/scripts/update_kb_from_site.py:45 | stripping an already stripped text changes nothing |
| `Text.SplitWords` | src/scripts/chat_persistence_service.py:27 | every word `split()` yields is non-empty and whitespace-free |
| `Text.SplitEmptyIff` | src/scripts/chat_persistence_service.py:27 | a message has zero words exactly when it is whitespace only |
| `Text.SplitAtSpace` | src/scripts/chat_persistence_service.py:27 | any single whitespace character (space, tab, newline, ...) separates words: the words of `a + c + b` are those of `a` followed by those of `b` |
| `Text.SplitWord` | src/scripts/chat_persistence_service.py:27 | a non-empty whitespace-free string is one word; with `SplitAtSpace` and `SplitEmptyIff` this determines `split()` on every string |
| `Text.SplitJoin` | src/scripts/chat_persistence_service.py:27 | round trip: `" ".join(ws).split() == ws` for any list of words |
| `Text.WordCountJoin` | src/scripts/chat_persistence_service.py:27 | the word count of space-joined words is the number of words |
| `Text.NatToString` | src/scripts/embedding_service.py:25 | `str(i)` is a non-empty string of decimal digits with no leading zero |
| `Text.ParseNatToString` | src/scripts/embedding_service.py:25 | round trip: reading back `str(i)` gives `i` |
| `Text.NatToStringInjective` | src/scripts/embedding_service.py:25 | distinct positions have distinct decimal forms |
| `ChatPersistence.TurnTokens` | src/scripts/chat_persistence_service.py:23-27 | a turn with two string messages contributes the sum of their word counts; a turn with a non-string message contributes 0 even if the other is a string; a missing message counts as `""` |
| `ChatPersistence.GetTokenCount` | src/scripts/chat_persistence_service.py:17-29 | the accumulating loop returns the sum over turns of the words of both messages |
| `ChatPersistence.TokenCountConcat` | src/scripts/chat_persistence_service.py:21-29 | the count of a concatenation is the sum of the counts |
| `ChatPersistence.TokenCountAppend` | src/scripts/chat_persistence_service.py:21-29 | the empty list counts 0; appending a turn adds exactly that turn's words |
| `ChatPersistence.TurnTexts` | src/scripts/chat_persistence_service.py:37 | rendering the turns for the prompt succeeds exactly when every turn has both message keys, one text per turn (text `k` given by `TurnTextsAt`) |
| `ChatPersistence.TurnTextsAt` | src/scripts/chat_persistence_service.py:37 | text `k` is turn `k` rendered as `"User: {u}\nAI: {a}"` |
| `ChatPersistence.SummaryRequest` | src/scripts/chat_persistence_service.py:37-44 | the summary call uses model `text-davinci-003`, at most 150 tokens, and a prompt that starts with the fixed instruction line (the rest given by `SummaryPromptCarriesTurns`) |
| `ChatPersistence.SummaryPromptCarriesTurns` | src/scripts/chat_persistence_service.py:37-44 | the prompt is the instruction line followed by every turn's rendering, in order, joined by `"\n"` |
| `ChatPersistence.SummarizeConversation` | src/scripts/chat_persistence_service.py:32-54 | `None` exactly when the count is at most 2000; above it, `KeyError` exactly when a message key is missing, else the stripped model reply or the fixed error text when the call fails |
| `ChatPersistence.SaveChat` | src/scripts/chat_persistence_service.py:57-100 | unknown user: a one-turn record with no summary; known user: either summary and last message set with history untouched, or the turn appended with summary and last message untouched; raises only on a missing key above the threshold (collection reads and writes assumed to succeed); other users never change |
| `ChatPersistence.ChatCollection.constructor` | src/scripts/chat_persistence_service.py:11-13 | the collection object is the existing persistent collection, with whatever records it already holds |
| `ChatPersistence.ChatCollection.SaveChatMessage` | src/scripts/chat_persistence_service.py:57-100 | the in-place update leaves the collection equal to `SaveChat` of the old one, unchanged when it raises |
| `ChatPersistence.GetChatHistory` | src/scripts/chat_persistence_service.py:103-115 | `None` exactly for an unknown user; the summary form (last message defaulting to `{}`) whenever a summary exists; otherwise the history, `[]` if absent |
| `ChatPersistence.SaveNewUserThenGet` | src/scripts/chat_persistence_service.py:92-100 | after a first save, reading back gives the one-turn history |
| `ChatPersistence.TwoSavesUnderThreshold` | src/scripts/chat_persistence_service.py:57-90 | two saves for a new user within 2000 words give the two turns in order, whatever the model does |
| `ChatPersistence.SummaryPathThenGet` | src/scripts/chat_persistence_service.py:72-84 | after a summarising save, reading back gives that summary and the new turn |
| `ChatPersistence.SummariserFailureStoresErrorText` | src/scripts/chat_persistence_service.py:48-76 | a failing model call above the threshold stores the error text as the summary, history untouched |
| `ChatPersistence.SummaryIsKept` | src/scripts/chat_persistence_service.py:72-111 | once a record has a summary, every later save keeps one and reads return the summary form |
| `ChatPersistence.StaleSummaryHidesTurn` | src/scripts/chat_persistence_service.py:85-111 | with a stored summary, a non-summarising save appends to the history but reads return exactly what they returned before |
| `EmbeddingService.PageContents` | src/scripts/embedding_service.py:18 | one input per document, its `page_content`, in document order |
| `EmbeddingService.CreateEmbeddingsRequest` | src/scripts/embedding_service.py:15-20 | the request carries the document texts in order, `input_type "passage"` and `truncate "END"` |
| `EmbeddingService.RecordsFrom` | src/scripts/embedding_service.py:24-27 | `min(len(documents), len(embeddings))` records; record i has id `vector<i>`, the i-th embedding's values and the i-th text |
| `EmbeddingService.VectorIdInjective` | src/scripts/embedding_service.py:25 | `vector<i>` ids of distinct positions differ |
| `EmbeddingService.BatchIds` | src/scripts/embedding_service.py:24-27 | a batch's ids run `vector0, vector1, ...` without gaps and are pairwise distinct |
| `EmbeddingService.SameLengthSameIds` | src/scripts/embedding_service.py:25-26 | ids depend only on position: equally long batches carry the same ids |
| `EmbeddingService.CreateEmbeddings` | src/scripts/embedding_service.py:15-20 | the embedding call receives the given model (default `llama-text-embed-v2`), the documents' page contents in order, input type `passage` and truncation `END`, and its answer is returned unchanged |
| `EmbeddingService.Upsert` | src/scripts/embedding_service.py:28 | keeps every existing key, leaves other namespaces untouched, and the batch's last record is what ends up stored under its id (last write wins) |
| `EmbeddingService.UpsertIsUnion` | src/scripts/embedding_service.py:28 | an upsert leaves the old index overridden by the batch's entries |
| `EmbeddingService.BatchEntriesKeys` | src/scripts/embedding_service.py:28 | the keys an upsert writes are the batch ids in the given namespace |
| `EmbeddingService.BatchEntriesAt` | src/scripts/embedding_service.py:28 | with distinct ids, each record's key holds that record's values and metadata |
| `EmbeddingService.StoreEmbeddings` | src/scripts/embedding_service.py:22-28 | only keys of the manager's namespace are added; entries of other namespaces are untouched |
| `EmbeddingService.StoredContents` | src/scripts/embedding_service.py:22-28 | after storing, `vector<i>` in the namespace holds the i-th embedding and text; keys the batch does not write keep their entries |
| `EmbeddingService.ReingestOverwrites` | src/scripts/embedding_service.py:24-28 | storing a second batch of equal length replaces the first: the index is as if the first was never stored |
| `EmbeddingService.CreateAndStoreEmbeddings` | src/scripts/embedding_service.py:30-33 | (index access and upsert assumed to succeed) raises exactly when the embedding call with the default model raises, storing nothing; otherwise the index holds `vector<i>` with the i-th returned embedding and document text in the manager's namespace, other namespaces untouched |
| `EmbeddingService.MatchTexts` | src/scripts/embedding_service.py:52 | one text per match in the index's order; `KeyError` exactly when a match has no text |
| `EmbeddingService.SearchMatching` | src/scripts/embedding_service.py:35-54 | with `model` defaulting to `llama-text-embed-v2` and `top_k` to 3: a failed embedding call is a service error and an empty embedding list an `IndexError`; whenever an embedding comes back, the result is a service error if the query call fails and otherwise exactly the match texts; on success the first query vector was sent to the manager's namespace asking for metadata and not values, and the result is the matches' `text` entries, one per match, in the index's order |
| `EmbeddingService.BatchEntryHoldsDocument` | src/scripts/embedding_service.py:24-27 | every entry a batch writes has as metadata the text of one of the documents |
| `EmbeddingService.StoredEntryHoldsDocument` | src/scripts/embedding_service.py:22-28 | after storing into an empty index, every entry holds the text of one of the documents |
| `EmbeddingService.SearchReturnsStoredTexts` | src/scripts/embedding_service.py:44-52 | when the index returns stored entries, every text found is one of the stored documents' contents |
| `KnowledgeBase.PageTitle` | src/scripts/update_kb_from_site.py:44 | `"No Title"` without a `<title>`, otherwise the title text with whitespace cut from both ends |
| `KnowledgeBase.KeptParagraphs` | src/scripts/update_kb_from_site.py:45 | at most one kept text per paragraph |
| `KnowledgeBase.KeptParagraphsStripped` | src/scripts/update_kb_from_site.py:45 | every kept text is non-empty and stripped |
| `KnowledgeBase.KeptParagraphsConcat` | src/scripts/update_kb_from_site.py:45 | the filter keeps document order: it distributes over concatenation |
| `KnowledgeBase.KeptSingle` | src/scripts/update_kb_from_site.py:45 | a paragraph is kept, as its stripped text, exactly when it is not whitespace only |
| `KnowledgeBase.KeptEmptyIff` | src/scripts/update_kb_from_site.py:45 | nothing is kept exactly when every paragraph is whitespace only |
| `KnowledgeBase.PageContentEmptyIff` | src/scripts/update_kb_from_site.py:45-47 | the content is empty exactly when every paragraph is whitespace only |
| `KnowledgeBase.ScrapePage` | src/scripts/update_kb_from_site.py:39-47 | fails exactly when the request fails; otherwise the record of the same URL with `PageTitle` of the page and the `"\n"` join of its kept paragraphs, empty exactly when every paragraph is whitespace |
| `KnowledgeBase.GetAllLinks` | src/scripts/update_kb_from_site.py:23-37 | the loop keeps exactly the joined hrefs that contain the base URL and are not visited; fails exactly when the request fails |
| `KnowledgeBase.SucceededMembers` | src/scripts/update_kb_from_site.py:59-62 | a URL is newly visited exactly when it was attempted and its scrape succeeded |
| `KnowledgeBase.AttemptStep` | src/scripts/update_kb_from_site.py:54-62 | one attempt at an unvisited URL keeps the crawl invariant: a failure adds nothing, a success adds the page to `data` and the URL to `visited_urls` |
| `KnowledgeBase.PopKeepsComplete` | src/scripts/update_kb_from_site.py:54-56 | popping a visited URL, or one whose scrape fails, keeps every known link covered |
| `KnowledgeBase.VisitKeepsComplete` | src/scripts/update_kb_from_site.py:60-67 | visiting a URL and queueing its unvisited links keeps every link covered, its own included |
| `KnowledgeBase.VisitShrinksUnvisited` | src/scripts/update_kb_from_site.py:62 | a successful scrape shrinks the unvisited part of the site |
| `KnowledgeBase.SkipStep` | src/scripts/update_kb_from_site.py:54-56 | popping an already visited URL keeps the loop invariant |
| `KnowledgeBase.FailedStep` | src/scripts/update_kb_from_site.py:59-70 | a failed scrape keeps the loop invariant and records the attempt without touching `data` or `visited_urls` |
| `KnowledgeBase.VisitStep` | src/scripts/update_kb_from_site.py:59-67 | a successful scrape then queueing the page's unvisited links keeps the loop invariant and shrinks the unvisited part of the site |
| `KnowledgeBase.LinkSetInternal` | src/scripts/update_kb_from_site.py:33-35 | every link `get_all_links` keeps contains the base URL and is not yet visited |
| `KnowledgeBase.DiscoveredInternal` | src/scripts/update_kb_from_site.py:33-35 | a URL found among the links of the base page or of a visited page contains the base URL |
| `KnowledgeBase.DiscoveredGrows` | src/scripts/update_kb_from_site.py:62 | visiting more pages never undoes a discovery |
| `KnowledgeBase.OnSiteAttempt` | src/scripts/update_kb_from_site.py:54 | every attempted URL was popped from the pending set, so it was discovered |
| `KnowledgeBase.OnSiteVisit` | src/scripts/update_kb_from_site.py:62-67 | the links queued after a visit are discovered through the visited page; earlier discoveries stay |
| `KnowledgeBase.ScrapeWebsite` | src/scripts/update_kb_from_site.py:49-70 | terminates on a finite site; raises exactly when the first link request fails, with globals unchanged and nothing attempted; every attempted URL is an internal link of the base page or of a visited page and contains the base URL; `data` gains the successful scrapes of the attempts in order; no attempt at a visited URL; on exit every internal link of every page read is visited or fails to scrape |
| `KnowledgeBase.ScrapedPages` | src/scripts/update_kb_from_site.py:59-61 | the scraped pages' URLs are exactly the successful attempts, each entry being that page's scrape |
| `KnowledgeBase.ScrapedDistinct` | src/scripts/update_kb_from_site.py:54-62 | when successful URLs are attempted once, the pages in `data` have distinct URLs |
| `KnowledgeBase.UrlsConcat` | src/scripts/update_kb_from_site.py:61 | the URLs of appended data are the union of the URLs of the parts |
| `KnowledgeBase.CrawlFromEmpty` | src/scripts/update_kb_from_site.py:55-62 | from empty globals, the URLs in `data` are exactly `visited_urls`, each once, each a successful scrape |

## Left out

- Reads and writes of the chat collection and the vector index (`find_one`, `insert_one`, `update_one`, `Index`, `upsert`) are assumed to succeed; their failures are not modelled.
- The query workflow (src/workflows/graphs.py, nodes.py, states.py): its branch function lives in a file that is not part of this model and its grading, generation and rewriting nodes are empty stubs, so there is no grading, rewrite counter or rewrite bound to model.
- Language-model and prompt set-up (src/workflows/agents.py, prompts.py) and the HTTP layer (src/routes/rag.py, src/dtos/rag.py): client construction, template text and request wrappers with no logic.
- MongoDB, Pinecone and the language model: only their request/response contracts appear, as maps and oracle parameters; `_id`, other document keys, several documents sharing a `user_id`, and turns that are not dictionaries are not modelled.
- The current time (`datetime.utcnow()`): the timestamp is a parameter.
- Concurrency: concurrent saves for one user can lose an update in the source; the model is sequential.
- Console output (`print`), `time.sleep(1)`, the JSON file dump at the end of the crawl, the fortnightly schedule loop, `update_knowledge_base` (which calls `create_and_store_embeddings()` without its argument) and the demo `__main__` blocks of both scripts.
- HTTP fetching, BeautifulSoup parsing and `urljoin` are oracles and an uninterpreted function; a fetch oracle answers the same for the same URL, so a page whose two requests would differ is captured only through the two separate oracles `pageFetch` and `linkFetch`.
- The Pinecone index is selected by name in the source; the model is handed the state of the index named `index_name`, and the upsert's response value is not modelled.
- The ranking behind `index.query` (scores, at most `top_k` matches) belongs to the service and is left to the `Querier` oracle.
- `SearchMatching`: every exception of the two service calls is one `ServiceError`; only the empty embedding list (`IndexError`) and a match without `text` (`KeyError`) are told apart.
- `ScrapeWebsite`: termination is proved under a finite-site precondition (every internal link any page can yield lies in a finite set); the source states none and loops for as long as new internal URLs keep appearing.
