# DataLoader of Auto-Gen-AI, modelled in Dafny

`DataLoader` gathers research papers for a query. The model covers three
pieces of its logic:

- **Topic extraction** (`extract_related_topics`). The language model's
  free-text reply is split into lines. Each line is stripped of surrounding
  whitespace, and the stripped lines that begin with the bullet marker `-`
  are kept, in order.
- **arXiv aggregation** (`fetch_arxiv_papers`). An initial search runs
  first. When it finds fewer than five papers and a search agent exists,
  the agent is asked once for related topics. The topics are then walked in
  order: each is stripped again, and a non-empty one is searched while
  fewer than five papers are held. Its results are appended and the list
  is cut back to five.
- **Google Scholar mapping** (`fetch_google_scholar_papers`). The first
  five publications of a search become `{title, summary, link}` records.
  The summary and link fall back to fixed placeholders.

Layout, one module per file:

- `wrappers.dfy`: `Option` and `Result`.
- `text.dfy`: Python's `str.split` with a one-character separator, and
  `str.strip()` with Python's `str.isspace()` character set.
- `papers.dfy`: the paper record, the target count 5, and the slice `s[:n]`.
- `topics.dfy`: topic extraction, as functions.
- `arxiv.dfy`: the aggregation. It has a specification function
  (`Expand`, `FetchArxiv`) with its lemmas, and the imperative loop
  `FetchArxivPapers` proved equal to it.
- `scholar.dfy`: the Scholar loop, with its early `break`, as a method.

The outside services become parameters:

- The arXiv search (`search_arxiv`) is a function `search` from the search
  term to the decoded papers. A failed request is an empty sequence.
- The agent is a function `agent` from the prompt to the `content` entry of
  its reply, `None` when the entry is absent. `agentReady` is the truth of
  `self.search_agent`.
- The Scholar iterator is the finite sequence `results` of the
  publications it would yield.
- Ghost out-parameters record what the code asks of these services:
  - the prompts sent to the agent;
  - the search terms issued;
  - how many publications the Scholar iterator handed out.

Two behaviours are modelled as the code has them:

- Topics are searched verbatim, with their leading `-` still attached.
  `FetchSearches` states this.
- A first search that already returns five or more papers is returned
  without being cut back to five. `FetchPapers` states this.

## Model

| member | source | states |
|---|---|---|
| Text.Strip | data_loader.py:69 | `line.strip()`: the result neither begins nor ends with whitespace and is no longer than the line |
| Text.StripCut | data_loader.py:69 | the stripped line is a contiguous piece of the line, with only whitespace cut away on both sides |
| Text.StripBlank | data_loader.py:69 | a line of whitespace only strips to the empty string |
| Text.StripMiddle | data_loader.py:69 | whitespace, then a piece that starts and ends with non-space characters, then whitespace: the line strips to that piece |
| Text.StripUnique | data_loader.py:69 | any cut of a line into whitespace, a stripped middle and whitespace has the stripped line as its middle |
| Text.StripIdempotent | data_loader.py:69 | stripping twice is stripping once |
| Text.StripOfStripped | data_loader.py:69 | a line with no surrounding whitespace strips to itself |
| Text.Split | data_loader.py:66 | `response.split("\n")`: at least one piece, and no piece contains the separator |
| Text.JoinSplit | data_loader.py:66 | joining the pieces with the separator gives back the reply |
| Text.SplitNoSeparator | data_loader.py:66 | a reply without the separator is one piece |
| Text.SplitAtSeparator | data_loader.py:66 | a separator-free prefix followed by the separator is the first piece |
| Text.SplitJoin | data_loader.py:66 | splitting separator-free lines joined by the separator gives the lines back |
| Text.SplitCount | data_loader.py:66 | there is one more piece than there are newlines |
| Papers.Take | data_loader.py:113 | `papers[:5]`: a prefix, of length five or the whole length when shorter |
| Topics.LineTopic | data_loader.py:69 | a line contributes at most one topic, which begins with `-` and has no surrounding whitespace |
| Topics.LineTopicOfStripped | data_loader.py:69 | a stripped line is a topic exactly when it begins with `-` |
| Topics.KeepBullets | data_loader.py:69 | no more topics than lines; each begins with `-` and has no surrounding whitespace |
| Topics.ExtractRelatedTopics | data_loader.py:61-70 | defined for every reply; every topic begins with `-` and has no surrounding whitespace; at most one topic per line |
| Topics.KeepBulletsAppend | data_loader.py:69 | the topics of two blocks of lines are those of the first followed by those of the second, so line order is kept |
| Topics.KeepBulletsMember | data_loader.py:69 | a string is a topic exactly when some line strips to it and it begins with `-` |
| Topics.KeepBulletsEmpty | data_loader.py:69 | no topics exactly when no line strips to something beginning with `-` |
| Topics.ExtractNoBullets | data_loader.py:66-70 | a reply yields the empty list exactly when none of its lines strips to something beginning with `-` |
| Topics.ExtractFromLines | data_loader.py:66-70 | the topics of lines joined by newlines are those lines' topics, in line order |
| Arxiv.ResultsAppend | data_loader.py:111-112 | the results of two runs of searches are the first run's followed by the second's |
| Arxiv.ResultsCons | data_loader.py:111-112 | the results of a term followed by more terms are that term's results followed by the rest |
| Arxiv.ExpandFull | data_loader.py:110 | once five papers are held the loop searches nothing and changes nothing |
| Arxiv.ExpandResult | data_loader.py:108-113 | starting below five, the loop ends with the first five of the held papers followed by every searched term's results, in search order |
| Arxiv.ExpandSearchesBelowFive | data_loader.py:110-111 | every search the loop issues is issued while fewer than five papers are held |
| Arxiv.ExpandCleanStep | data_loader.py:108-113 | a non-empty, already stripped topic met below five papers is itself searched, and the loop goes on from the first five papers |
| Arxiv.ExpandSearchesPrefix | data_loader.py:108-111 | on extracted topics the loop searches a prefix of the topics, each exactly as given |
| Arxiv.ExpandStopsOnlyWhenFull | data_loader.py:108-113 | on extracted topics the loop skips a remaining topic only once five papers are held |
| Arxiv.ExtractedTopicsClean | data_loader.py:106-110 | extracted topics are non-empty and stripped, so the loop's own strip and emptiness test change nothing |
| Arxiv.FetchPapers | data_loader.py:98-114 | five or more papers from the first search are returned unchanged; otherwise the result is the first five of all results in search order; the first search's papers always lead |
| Arxiv.FetchAtMostFive | data_loader.py:98-113 | when the first search finds fewer than five papers, at most five are returned |
| Arxiv.FetchSearches | data_loader.py:98-111 | the agent is consulted, once and with the fixed prompt, exactly when the first search finds fewer than five papers and an agent exists; the query is searched first; after it the topics are searched in order, verbatim with their `-`, each while fewer than five papers are held; the walk stops short of the last topic only once five are held |
| Arxiv.FetchArxivPapers | data_loader.py:98-114 | the loop returns the papers, prompts and search terms of the specification `FetchArxiv` |
| Scholar.EntryDefined | data_loader.py:128-132 | a publication yields a record exactly when it has a `bib` with a title, and the title is copied; otherwise the missing key is `bib` or `title` |
| Scholar.FetchGoogleScholarPapers | data_loader.py:122-133 | success exactly when each of the first min(5, n) publications has a record; then min(5, n) records, each copied from its publication with the placeholders for a missing abstract or URL; on failure, the first publication that lacks a key and the key; the iterator is drawn up to a sixth item |

## Left out

- `search_arxiv` (data_loader.py:81-96) is not modelled inside: the URL, the HTTP request, the status check and the Atom XML decoding are network I/O and a foreign parser. It is the parameter `search`.
- The agent's construction, its configuration, its system prompt and `generate_reply` (data_loader.py:7-58, 101-103) are an external language-model service. The reply enters only through its `content` entry. The agent's conversation state is not modelled: `agent` answers as a function of the prompt.
- The shape of the reply is not modelled: `generate_reply` may return a string rather than a dictionary, and then `.get` would raise. The model assumes the dictionary form.
- `scholarly.search_pubs` (data_loader.py:123) is a network iterator. It is the finite sequence `results`; its own exceptions and an infinite stream are not modelled.
- The values of `bib["title"]`, `abstract` and `pub_url` are modelled as strings. A key that is present with the value `None` is not modelled: `.get` would then return `None`, not the placeholder.
- The `print` and the storing of the API key in the constructor (data_loader.py:8-9) are side effects without logic.
- The bound `max_results=5` of the real request is not modelled: `search` may return more than five papers, so the unchanged result of a first search with five or more papers is not bounded by five.
