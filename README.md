# Long-term memory for a chatbot: a Dafny model

This project models the memory layer of a chatbot in Dafny, together with its tool router.

**The memory manager** (`MemoryManager`) keeps three kinds of memory for each user in one namespaced key/value store:
- **semantic**: facts about the user;
- **episodic**: past interactions;
- **procedural**: standing instructions, one per context.

What the manager does:
- It saves records of each kind.
- It retrieves them in two stages:
  1. a store search for twice the limit;
  2. when that search returns more than the limit, a lexical filter. The filter keeps the records that share more than a tenth of the query's words, sorts them stably by that overlap, and takes the first `limit`.
- It formats retrieved memories into a prompt section.
- After every turn it runs a heuristic extractor. The extractor always records the turn. When the lower-cased input contains "my name is", it adds a name fact: the lower-cased text between the first "my name is" and the next one (or the end), stripped. It also adds the whole stripped input as a preference fact when it contains "i like" or "i prefer".
- It counts a user's records, up to a ceiling of 1000.

**The router** (`route_tools`) decides after each response whether the conversation graph goes to its tool node or ends the turn.

Modules, one file each:
- `wrappers.dfy`: `Option` and `Result`.
- `text.dfy`: the Python string operations the manager uses (`isspace`, `lower`, `split()`, `join`, `strip()`, `in`, `split(sep)[1]`), as functions on `seq<char>`.
- `records.dfy`: the memory records as optional-field dictionaries, and the content fallback of the filter.
- `store.dfy`: the store, as a class over a `map` with `Put` and `Search`.
- `ranking.dfy`: the overlap score, the threshold, the filter and the stable sort.
- `memory.dfy`: the `MemoryManager` class and the properties of its operations.
- `router.dfy`: `route_tools`.

Four details of the code that the model keeps as written:
- **Formatted interactions.** The formatted context shows the *first* three episodic interactions in the order the memories were passed in (`episodic_examples[:3]`). These are not necessarily the three most recent ones.
- **Content fallback.** The filter falls back to the type-specific payload when `searchable_content` is missing *or empty*, since the test is `if not searchable_content`.
- **Lower-cased names.** The name fact is cut from the lower-cased input, so "My name is Sam" stores "User's name is sam", not "Sam".
- **Stored fields.** Records store no id and no user id of their own. Both live only in the store key (the namespace and the key).

## Model

| member | source | states |
|---|---|---|
| `Memory.MemoryManager.constructor` | src/tools/memory_manager.py:52-53 | A new manager starts with an empty store, which trivially satisfies the filing invariant `Valid`. |
| `Memory.MemoryManager.SaveSemanticMemory` | src/tools/memory_manager.py:55-70 | A new record is stored under `(user_id, "semantic", context)` with the fresh id, at a key not used before. Its searchable content is the facts joined by spaces. Nothing else changes. The user's record count grows by one. |
| `Memory.MemoryManager.SaveEpisodicMemory` | src/tools/memory_manager.py:72-90 | A new record is stored under `(user_id, "episodic", task_context)` with the fresh id. Its content is `user_input + " " + assistant_response`, each defaulting to "". Its `success` defaults to true. The user's count grows by one. |
| `Memory.MemoryManager.SaveProceduralMemory` | src/tools/memory_manager.py:92-101 | The record is upserted at `(user_id, "procedural")`, keyed by the context. Afterwards exactly one procedural record of that user holds the context, and it holds the new instructions. |
| `Memory.ProceduralOnePerContext` | src/tools/memory_manager.py:94-101 | Whatever the store held before, a procedural save leaves one record for that user and context, with the saved instructions, and keeps every record filed correctly. |
| `Memory.ProceduralSaveTwice` | src/tools/memory_manager.py:94-101 | Saving twice under one context equals saving only the second time. It leaves a single record with the later instructions and does not change the user's record set. |
| `Memory.FiledKind` | src/tools/memory_manager.py:57-64 | A record filed by the manager under `(user_id, t, ...)` has `type == t`. |
| `Records.SemanticRecord` | src/tools/memory_manager.py:63-69 | Definition: the dictionary `save_semantic_memory` stores: type "semantic", the facts, the facts joined by single spaces as searchable content, the timestamp and the context. |
| `Records.EpisodicContent` | src/tools/memory_manager.py:78-80 | Definition: `f"{user_input} {assistant_response}"`, each field read with a default of "". |
| `Records.EpisodicRecord` | src/tools/memory_manager.py:82-89 | Definition: the dictionary `save_episodic_memory` stores: type "episodic", the interaction, its content, the timestamp, the task context, and `success` defaulting to true. |
| `Records.ProceduralRecord` | src/tools/memory_manager.py:95-101 | Definition: the dictionary `save_procedural_memory` stores: type "procedural", with the instructions also as searchable content. |
| `Memory.RetrievalPrefix` | src/tools/memory_manager.py:105-108 | The namespace searched is `(user_id, memory_type)` for a non-empty type, else `(user_id,)`. Either way it begins with the user id. |
| `Store.Store.constructor` | src/tools/memory_manager.py:53 | The store starts empty. |
| `Store.Store.Put` | src/tools/memory_manager.py:63 | `put` is an upsert: the entry at `(namespace, key)` is replaced and no other entry changes. |
| `Store.Store.Search` | src/tools/memory_manager.py:111 | The answer holds `min(limit, n)` distinct stored items under the prefix, each with its stored value, where `n` items match. |
| `Store.SearchBelowLimitIsComplete` | src/tools/memory_manager.py:111 | A search that returns fewer items than its limit has returned every matching key. |
| `Store.SearchWithinLimitIsComplete` | src/tools/memory_manager.py:111 | When no more items match than the limit allows, the search returns every matching key. |
| `Store.SearchWithRoomReturnsAll` | src/tools/memory_manager.py:111-114 | When at most `limit` items match, the `2*limit` search returns all of them, and at most `limit` in all. |
| `Store.DistinctKeys` | src/tools/memory_manager.py:111 | A list of hits with distinct keys has as many keys as hits. |
| `Store.MatchingAfterInsert` | src/tools/memory_manager.py:63 | Writing a new key adds it to exactly the searches whose prefix its namespace extends, and leaves the other searches unchanged. |
| `Ranking.ScoreOf` | src/tools/memory_manager.py:133-134 | Candidate `i`'s score is its overlap: the number of query words among its lower-cased content words. |
| `Ranking.QueryWords` | src/tools/memory_manager.py:117 | Definition: `set(query.lower().split())`. |
| `Ranking.Overlap` | src/tools/memory_manager.py:133-134 | Definition: `len(query_words & set(content.lower().split()))` for the content the filter reads. |
| `Ranking.Passes` | src/tools/memory_manager.py:135-137 | Definition: the threshold `overlap / max(len(query_words), 1) > 0.1`, written in integers as `10 * overlap > max(len(query_words), 1)`. |
| `Ranking.ScoresAreOverlaps` | src/tools/memory_manager.py:119-134 | Every score is its candidate's overlap. |
| `Ranking.Kept` | src/tools/memory_manager.py:119-138 | After `n` candidates, each kept entry is a candidate before `n` that passes the threshold, with that candidate's score, and the entries are in candidate order. |
| `Ranking.KeptStep` | src/tools/memory_manager.py:135-138 | One more candidate is appended exactly when it passes the threshold. |
| `Ranking.Relevant` | src/tools/memory_manager.py:114-139 | Each filtered entry is a candidate with its true overlap, and that overlap passes the 10% threshold. Entries are in candidate order. |
| `Ranking.RelevantComplete` | src/tools/memory_manager.py:137-138 | Conversely, every candidate that passes the threshold is in the filter result, with its overlap and position. |
| `Ranking.KeptComplete` | src/tools/memory_manager.py:137-138 | Every candidate up to `n` that passes the threshold has been kept. |
| `Ranking.SortByRelevance` | src/tools/memory_manager.py:141 | The result is a permutation of the filter result, in decreasing overlap, with equal overlaps in candidate order (a stable reverse sort). |
| `Ranking.InsertionPoint` | src/tools/memory_manager.py:141 | An element is inserted after every element that scores at least as high, and before the first one that scores lower. |
| `Ranking.InsertStep` | src/tools/memory_manager.py:141 | One insertion keeps the list sorted and a permutation of the prefix sorted so far. |
| `Ranking.InsertKeepsSorted` | src/tools/memory_manager.py:141 | Inserting at the insertion point preserves the order. |
| `Ranking.InsertMultiset` | src/tools/memory_manager.py:141 | Inserting adds exactly that element. |
| `Ranking.SortedUnique` | src/tools/memory_manager.py:141 | Two sorted permutations of the same filter result are equal. So the model's order is the one Python's stable sort produces. |
| `Ranking.SameHead` | src/tools/memory_manager.py:141 | Two sorted permutations begin with the same element. |
| `Ranking.DropHead` | src/tools/memory_manager.py:141 | Removing the first element keeps the list sorted and removes exactly that element. |
| `Ranking.RankedFromCandidates` | src/tools/memory_manager.py:138-142 | Every element of a ranking is a candidate with its true overlap above the threshold. |
| `Memory.MemoryManager.FilterByOverlap` | src/tools/memory_manager.py:114-139 | The filter loop computes exactly `Relevant`. |
| `Memory.MemoryManager.Rerank` | src/tools/memory_manager.py:114-142 | At most `limit` hits. Each hit is a candidate that passes the threshold. Hits come in non-increasing overlap, and they are the first `limit` of the stable ranking. |
| `Memory.RankedHits` | src/tools/memory_manager.py:141-142 | The first `limit` of a ranking are at most `limit` candidates, all above the threshold, in non-increasing overlap. |
| `Memory.CandidatesStored` | src/tools/memory_manager.py:111 | Every candidate of a search is stored under the searched prefix. |
| `Memory.StoredUnderType` | src/tools/memory_manager.py:105-108 | A record found under `(user_id, t)` belongs to the user and is of type `t`. |
| `Memory.HitsStored` | src/tools/memory_manager.py:105-144 | Hits drawn from the candidates belong to the user and, when a type was asked for, are of that type. |
| `Memory.NoneForUser` | src/tools/memory_manager.py:105-111 | A user with no records matches nothing under any of their namespaces. |
| `Memory.MemoryManager.RetrieveRelevantMemories` | src/tools/memory_manager.py:103-144 | The candidates are a search answer for `2*limit` under the right namespace. With at most `limit` candidates they are returned unchanged, in their order. Otherwise the result is the first `limit` of the stable ranking, every result passes the threshold, and results come in non-increasing overlap. The result always has at most `limit` records, each belonging to the user and of the requested type. A user with no records gets nothing. When at most `limit` records match, every one of them is returned. |
| `Memory.SavedFactPassesFilter` | src/tools/memory_manager.py:61 | A query equal to one of a semantic record's facts has every query word in the record's content, so the record passes the threshold whenever the query has a word. |
| `Memory.SavedFactIsRelevant` | src/tools/memory_manager.py:111-138 | With more than `limit` but at most `2*limit` matches, a semantic record queried by one of its facts that has a word is a candidate. It is in the filter result with overlap equal to the number of query words. |
| `Records.ContentOfSavedRecord` | src/tools/memory_manager.py:122-131 | For records the three save operations write, the fallback never applies: the filter reads the stored searchable content. |
| `Records.ContentOf` | src/tools/memory_manager.py:122-131 | Definition: the text the filter reads. It is `searchable_content` when present and non-empty. Otherwise it is the space-joined facts, the interaction's content, or the instructions, chosen by type, and "" for any other type. |
| `Memory.GatherAppend` | src/tools/memory_manager.py:156-162 | The facts, interactions and instructions gathered from `a + b` are those of `a` followed by those of `b`. |
| `Memory.FactsOf` | src/tools/memory_manager.py:156-158 | Definition: `semantic_facts` after the loop: the facts of each semantic record, in order. |
| `Memory.InteractionsOf` | src/tools/memory_manager.py:156-160 | Definition: `episodic_examples` after the loop: the interaction of each episodic record (`{}` when missing), in order. |
| `Memory.RulesOf` | src/tools/memory_manager.py:156-162 | Definition: `procedural_rules` after the loop: the instructions of each procedural record ("" when missing), in order. |
| `Memory.Sections` | src/tools/memory_manager.py:164-169 | Definition: `context_parts`: the facts, interactions and instructions sections, in that order, each only when its list is non-empty. |
| `Memory.FormattedContext` | src/tools/memory_manager.py:148-171 | Definition: "" for no memories, else the sections joined by newlines. |
| `Memory.FactsAppend` | src/tools/memory_manager.py:157-158 | Semantic facts gather in order across a concatenation. |
| `Memory.InteractionsAppend` | src/tools/memory_manager.py:159-160 | Interactions gather in order across a concatenation. |
| `Memory.RulesAppend` | src/tools/memory_manager.py:161-162 | Instructions gather in order across a concatenation. |
| `Memory.GatherUnrecognised` | src/tools/memory_manager.py:156-162 | Records of an unrecognised type contribute nothing. |
| `Memory.OnlyInteractions` | src/tools/memory_manager.py:156-162 | Episodic records contribute no facts and no instructions. |
| `Memory.JoinStartsWith` | src/tools/memory_manager.py:171 | A newline-joined text begins with its first part. |
| `Memory.MemoryManager.FormatMemoriesForContext` | src/tools/memory_manager.py:146-171 | The loop and the section building give exactly `FormattedContext`: "" for no memories, else the non-empty sections joined by newlines. |
| `Memory.FormatEmptyIff` | src/tools/memory_manager.py:148-171 | The text is empty if and only if there are no facts, no interactions and no instructions to show. In particular it is empty when no memory has a recognised type. |
| `Memory.FormatShowsFirstThreeInteractions` | src/tools/memory_manager.py:167 | Once three interactions are present, further episodic memories do not change the text. |
| `Memory.AllSections` | src/tools/memory_manager.py:164-171 | The three sections joined by newlines. |
| `Memory.FormatSectionOrder` | src/tools/memory_manager.py:164-171 | With all three kinds present, the text is "Known facts: ..." then "Past interactions: ..." then "Instructions/Preferences: ...", joined by newlines, with facts and rules joined by "; ". |
| `Memory.MemoryManager.AnalyzeAndSaveMemories` | src/tools/memory_manager.py:173-195 | The new store is one episodic record of the turn, plus a name fact when the lower-cased input contains "my name is", plus a preference fact when it contains "i like" or "i prefer". The interaction and each record carry their own clock reading. Below the ceiling, the count grows by exactly that many. |
| `Memory.TurnInteraction` | src/tools/memory_manager.py:177-182 | Definition: the interaction dictionary of a turn, with its own timestamp and `success` true. |
| `Memory.MentionsName` | src/tools/memory_manager.py:189 | Definition: `"my name is" in user_input.lower()`. |
| `Memory.NameFact` | src/tools/memory_manager.py:190-191 | Definition: "User's name is " followed by the stripped text between the first "my name is" of the lower-cased input and the next one. |
| `Memory.MentionsPreference` | src/tools/memory_manager.py:193 | Definition: `"i like"` or `"i prefer"` occurs in the lower-cased input. |
| `Memory.PreferenceFact` | src/tools/memory_manager.py:194-195 | Definition: "User preference: " followed by the whole input, stripped. |
| `Memory.WithNameFact` | src/tools/memory_manager.py:189-191 | Definition: the store plus the name fact under a fresh id when the input mentions a name, else the store unchanged. |
| `Memory.WithPreference` | src/tools/memory_manager.py:193-195 | Definition: the store plus the preference fact under a fresh id when the input states a preference, else the store unchanged. |
| `Memory.AnalyzedEntries` | src/tools/memory_manager.py:177-195 | Definition: the store after a turn: the episodic record of the turn, then the name fact and the preference fact under their triggers. |
| `Memory.AnalyzedCounts` | src/tools/memory_manager.py:177-195 | A turn adds one episodic record and no other, plus one semantic record per trigger that fired. Every earlier record is kept unchanged. |
| `Memory.ThreeInserts` | src/tools/memory_manager.py:185-195 | Counting for one insert followed by two optional inserts of fresh keys. |
| `Memory.StepCounts` | src/tools/memory_manager.py:63-88 | A new semantic or episodic key adds one to the user's count and one to its own type's count only. |
| `Memory.AnalyzedCount` | src/tools/memory_manager.py:173-201 | A turn adds between one and three records. Below the 1000 ceiling, the count grows by exactly that number. |
| `Memory.UnusedAfterInsert` | src/tools/memory_manager.py:58 | An id stays fresh after a write under a different id. |
| `Memory.IntroductionLowered` | src/tools/memory_manager.py:189 | "My name is Sam" lower-cases to "my name is sam". |
| `Memory.NoPreferencePhrase` | src/tools/memory_manager.py:193 | Neither "i like" nor "i prefer" occurs in "my name is sam". |
| `Memory.IntroducedName` | src/tools/memory_manager.py:190 | `"my name is sam".split("my name is")[1].strip()` is "sam". |
| `Memory.IntroductionGivesName` | src/tools/memory_manager.py:189-191 | "My name is Sam" triggers the name rule, with the fact "User's name is sam". |
| `Memory.IntroductionStatesNoPreference` | src/tools/memory_manager.py:193 | "My name is Sam" does not trigger the preference rule. |
| `Memory.NameIntroductionCount` | src/tools/memory_manager.py:173-201 | For a user with no records, the turn "My name is Sam" leaves a count of 2. |
| `Memory.IntroductionCount` | src/tools/memory_manager.py:173-201 | A new manager, after one analyzed "My name is Sam" turn, reports 2 memories for that user. |
| `Memory.RecallSavedName` | src/tools/memory_manager.py:55-144 | A fact saved for a new user is exactly what a retrieval for that user returns. |
| `Memory.MemoryManager.GetMemoryCount` | src/tools/memory_manager.py:199-201 | The count is `min(1000, number of the user's records)`. It is exact below 1000. |
| `Memory.MemoryCount` | src/tools/memory_manager.py:199-201 | Definition: `min(1000, n)`, where `n` is the number of keys stored under `(user_id,)`. |
| `Text.Lower` | src/tools/memory_manager.py:117 | Definition: `s.lower()`, mapping each character with `LowerChar` (ASCII letters only). |
| `Text.Words` | src/tools/memory_manager.py:117 | Definition: `s.split()`: the maximal runs of non-blank characters, in order. |
| `Text.WordSet` | src/tools/memory_manager.py:133 | Definition: `set(s.split())`. |
| `Text.Join` | src/tools/memory_manager.py:61 | Definition: `sep.join(xs)`: "" for no parts, else the parts with `sep` between neighbours. |
| `Text.Contains` | src/tools/memory_manager.py:189 | Definition: `pat in s`: some occurrence of `pat` exists. |
| `Text.LowerCharShape` | src/tools/memory_manager.py:117 | Lower-casing keeps blanks blank and maps `A`–`Z` to `a`–`z`. |
| `Text.LowerAppend` | src/tools/memory_manager.py:133 | Lower-casing distributes over concatenation. |
| `Text.LowerSpace` | src/tools/memory_manager.py:133 | A blank stays a blank under lower-casing. |
| `Text.WordEnd` | src/tools/memory_manager.py:117 | The end of a word is the first blank, or the end of the text. |
| `Text.WordEndUnique` | src/tools/memory_manager.py:117 | The word end is determined by those two properties. |
| `Text.WordsAreNonBlank` | src/tools/memory_manager.py:117 | Every word of `split()` is non-empty and contains no blank. |
| `Text.WordsSplitAtSpace` | src/tools/memory_manager.py:133 | `split()` of `a + blank + b` is the words of `a` followed by the words of `b`. |
| `Text.JoinThree` | src/tools/memory_manager.py:171 | Joining three parts puts the separator between each neighbouring pair. |
| `Text.JoinedWordsContain` | src/tools/memory_manager.py:61 | Every word of a fact is a word of the facts joined by spaces, after lower-casing. |
| `Text.SkipSpaces` | src/tools/memory_manager.py:190 | Returns the first non-blank character at or after `i`, or the end of the text. |
| `Text.TrimEnd` | src/tools/memory_manager.py:190 | Returns the position just past the last non-blank character before `j`. |
| `Text.Strip` | src/tools/memory_manager.py:190 | `strip()` gives the slice from the first non-blank character, with no blank at either end and only blanks after it. |
| `Text.IndexFrom` | src/tools/memory_manager.py:189 | Finds the first occurrence at or after `from`; `None` exactly when there is none. |
| `Text.IndexOf` | src/tools/memory_manager.py:189 | `pat in s` holds exactly when some occurrence exists, and the first occurrence is found. |
| `Text.NoOccurrenceBefore` | src/tools/memory_manager.py:190 | The text before the first occurrence does not contain the pattern. |
| `Text.OccursInSuffix` | src/tools/memory_manager.py:190 | An occurrence in a suffix is an occurrence in the whole text. |
| `Text.SecondPiece` | src/tools/memory_manager.py:190 | `s.split(sep)[1]` is the slice after the first `sep`, up to the next `sep` or the end. No occurrence of `sep` starts inside it, even one running past its end, so the slice is the piece Python returns. |
| `Router.RouteTools` | src/tools/mcp_tools.py:75-96 | Returns "tools" exactly when the last message carries a tool call, and END when it carries none or has no `tool_calls`. An empty list fails with `IndexError`. A dictionary with no or empty "messages" fails with the `ValueError`. |
| `Router.Messages` | src/tools/mcp_tools.py:87-90 | Definition: the messages of the state: the list itself, or the dictionary's "messages" entry, with a missing entry read as none. |
| `Router.LastMessage` | src/tools/mcp_tools.py:87-92 | Definition: `state[-1]` for a list, `state["messages"][-1]` for a dictionary, or the error that each raises when there is no message. |
| `Router.HasToolCalls` | src/tools/mcp_tools.py:94 | Definition: `hasattr(msg, "tool_calls") and len(msg.tool_calls) > 0`. |
| `Router.RouteIgnoresEarlierMessages` | src/tools/mcp_tools.py:87-96 | Only the last message decides the route. |
| `Router.RouteListAgreesWithDict` | src/tools/mcp_tools.py:87-90 | A list state and a dictionary state holding the same messages route the same way. |

## Left out

- `embed` and the vector ranking of `search` are not modelled. The store returns `min(limit, n)` matching items in an order it does not promise. The `query` argument of `search` is therefore not modelled.
- `uuid.uuid4()` and `datetime.now().isoformat()` become parameters. The generated id is required to be unused in the store; that is what a random uuid provides. Each clock reading is its own opaque string: a turn of `analyze_and_save_memories` takes four of them (`Memory.TurnClock`), one for the interaction and one for each record it saves.
- The `interaction` dictionary (`Records.Interaction`) has exactly the four keys that `analyze_and_save_memories`, the only caller in the repository, puts in the dictionary: `user_input`, `assistant_response`, `timestamp`, `success`. `save_episodic_memory` stores whatever dictionary it is given, and `json.dumps` would print any extra keys. A dictionary with other keys is not modelled.
- `json.dumps(..., indent=2)` becomes a parameter `dumps` of the formatting operations: an opaque serializer.
- `analyze_and_save_memories` is declared `async` but has no await points, so it is modelled as an ordinary method.
- Python's `lower()` is modelled for ASCII letters only. Unicode case mapping is not.
- The threshold `overlap / max(len(query_words), 1) > 0.1` is written in integers as `10 * overlap > max(|query_words|, 1)`. The two agree for a positive divisor; floating-point rounding is not modelled.
- `limit` is a natural number. A negative limit, which Python would turn into slicing from the end, is not modelled.
- `Memory.MemoryManager.RetrieveRelevantMemories`: it does not promise in general that a saved record comes back, and neither does the source.
  - With at most `limit` matching records, every one is returned (`Store.SearchWithRoomReturnsAll`).
  - With more than `limit` but at most `2 * limit`, every one is a candidate (`Store.SearchWithinLimitIsComplete`). The lexical filter and the stable top-`limit` cut then decide. A record queried by one of its own facts that has a word passes the filter with full overlap (`Memory.SavedFactIsRelevant`). It can still be cut when more than `limit` candidates score at least as high, and a query with no words drops every candidate.
  - Only above `2 * limit` matches does the vector ranking, which is not modelled, choose which records become candidates.
- `Records.ContentOf`: a semantic record whose facts are `[""]` has empty searchable content, so it falls back to the facts joined again. This is again "". The code is followed as written.
- The other members of `MCPToolsManager` (tool discovery, connection handling), the conversation graph built around `route_tools`, `logging.py`, `main.py` and `__init__.py` are not part of this model.
