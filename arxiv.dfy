/** `DataLoader.fetch_arxiv_papers`: an initial search, then, when it found
    fewer than five papers, one search per suggested topic while fewer than
    five have been gathered, keeping at most five.

    The network search (`search_arxiv`) is the parameter `search`, a function
    from the search term to the decoded papers (an empty sequence when the
    request fails). The language-model agent is the parameter `agent`, a
    function from the prompt to the `content` of its reply (`None` when the
    reply has no `content` entry); `agentReady` is the truth of
    `self.search_agent`. */
module Arxiv {
  import opened Wrappers
  import opened Text
  import opened Topics
  import opened Papers

  /** The request sent to the agent for `query`. */
  function Prompt(query: string): string {
    "Suggest 3 related research topics for '" + query + "'"
  }

  /** `reply.get("content", "")`. */
  function ReplyContent(content: Option<string>): string {
    content.GetOr("")
  }

  /** All papers the searches for `terms` return, in search order. */
  function Results(terms: seq<string>, search: string -> seq<Paper>): seq<Paper> {
    if terms == [] then [] else search(terms[0]) + Results(terms[1..], search)
  }

  /** What the topic loop leaves behind: the papers, and the terms it searched. */
  datatype Expansion = Expansion(papers: seq<Paper>, terms: seq<string>)

  /** The topic loop run from `papers` over `topics`: each topic is
      stripped; a non-empty one is searched while fewer than five papers are
      held, its results appended and the list cut back to five. */
  function Expand(papers: seq<Paper>, topics: seq<string>, search: string -> seq<Paper>): Expansion
    decreases |topics|
  {
    if topics == [] then Expansion(papers, [])
    else
      var topic := Strip(topics[0]);
      if topic != [] && |papers| < MaxPapers then
        var next := Expand(Take(papers + search(topic), MaxPapers), topics[1..], search);
        Expansion(next.papers, [topic] + next.terms)
      else
        Expand(papers, topics[1..], search)
  }

  /** What one fetch returns, with the agent prompts and search terms it issued. */
  datatype Fetch = Fetch(papers: seq<Paper>, prompts: seq<string>, terms: seq<string>)

  /** The whole of `fetch_arxiv_papers(query)`. */
  function FetchArxiv(query: string, search: string -> seq<Paper>,
                      agentReady: bool, agent: string -> Option<string>): Fetch
  {
    var initial := search(query);
    if |initial| < MaxPapers && agentReady then
      var topics := ExtractRelatedTopics(ReplyContent(agent(Prompt(query))));
      var e := Expand(initial, topics, search);
      Fetch(e.papers, [Prompt(query)], [query] + e.terms)
    else
      Fetch(initial, [], [query])
  }

  lemma {:induction false} ResultsAppend(a: seq<string>, b: seq<string>, search: string -> seq<Paper>)
    ensures Results(a + b, search) == Results(a, search) + Results(b, search)
  {
    if a == [] {
      assert a + b == b;
    } else {
      assert (a + b)[0] == a[0] && (a + b)[1..] == a[1..] + b;
      ResultsAppend(a[1..], b, search);
    }
  }

  /** Once five papers are held, the loop searches nothing and changes nothing. */
  lemma {:induction false} ExpandFull(papers: seq<Paper>, topics: seq<string>, search: string -> seq<Paper>)
    requires |papers| >= MaxPapers
    ensures Expand(papers, topics, search) == Expansion(papers, [])
    decreases |topics|
  {
    if topics != [] {
      ExpandFull(papers, topics[1..], search);
    }
  }

  /** Starting below five, the loop ends with the first five of the papers
      held followed by the results of every term it searched. */
  lemma {:induction false} ExpandResult(papers: seq<Paper>, topics: seq<string>, search: string -> seq<Paper>)
    requires |papers| < MaxPapers
    ensures var e := Expand(papers, topics, search);
            e.papers == Take(papers + Results(e.terms, search), MaxPapers)
    decreases |topics|
  {
    if topics != [] {
      var topic := Strip(topics[0]);
      if topic != [] {
        var joined := papers + search(topic);
        var held := Take(joined, MaxPapers);
        var next := Expand(held, topics[1..], search);
        assert Results([topic] + next.terms, search) == search(topic) + Results(next.terms, search) by {
          assert ([topic] + next.terms)[1..] == next.terms;
        }
        if |held| < MaxPapers {
          ExpandResult(held, topics[1..], search);
          assert held == joined;
          assert papers + (search(topic) + Results(next.terms, search))
              == joined + Results(next.terms, search);
        } else {
          ExpandFull(held, topics[1..], search);
          assert next.terms == [] && Results([], search) == [];
          assert Results([topic] + next.terms, search) == search(topic);
        }
      } else {
        ExpandResult(papers, topics[1..], search);
      }
    }
  }

  /** Each of `terms` is searched while `papers` and the results of the
      terms before it number fewer than five. */
  ghost predicate SearchedBelowFive(papers: seq<Paper>, terms: seq<string>, search: string -> seq<Paper>) {
    forall k | 0 <= k < |terms| :: |papers + Results(terms[..k], search)| < MaxPapers
  }

  /** Every search the loop issues is issued while fewer than five papers
      are held. */
  lemma {:induction false} ExpandSearchesBelowFive(papers: seq<Paper>, topics: seq<string>, search: string -> seq<Paper>)
    requires |papers| < MaxPapers
    ensures SearchedBelowFive(papers, Expand(papers, topics, search).terms, search)
    decreases |topics|
  {
    if topics != [] {
      var topic := Strip(topics[0]);
      if topic != [] {
        var joined := papers + search(topic);
        var held := Take(joined, MaxPapers);
        var next := Expand(held, topics[1..], search);
        var terms := [topic] + next.terms;
        assert Expand(papers, topics, search).terms == terms;
        if |held| < MaxPapers {
          assert held == joined;
          ExpandSearchesBelowFive(held, topics[1..], search);
          forall k | 0 <= k < |terms| ensures |papers + Results(terms[..k], search)| < MaxPapers {
            if k > 0 {
              var before := next.terms[..k - 1];
              assert |held + Results(before, search)| < MaxPapers;
              assert terms[..k] == [topic] + before;
              assert Results([topic] + before, search) == search(topic) + Results(before, search) by {
                assert ([topic] + before)[1..] == before;
              }
              assert papers + Results(terms[..k], search) == held + Results(before, search);
            } else {
              assert terms[..0] == [];
              assert papers + Results([], search) == papers;
            }
          }
        } else {
          ExpandFull(held, topics[1..], search);
          assert terms == [topic] && terms[..0] == [];
          assert papers + Results([], search) == papers;
        }
      } else {
        assert Expand(papers, topics, search) == Expand(papers, topics[1..], search);
        ExpandSearchesBelowFive(papers, topics[1..], search);
      }
    }
  }

  /** Topics as extraction yields them: each non-empty and stripped. */
  predicate CleanTopics(topics: seq<string>) {
    forall k | 0 <= k < |topics| :: topics[k] != [] && Stripped(topics[k])
  }

  /** One turn of the loop on a clean topic while fewer than five papers
      are held: that topic itself is searched, and the loop goes on from
      the first five papers. */
  lemma ExpandCleanStep(papers: seq<Paper>, topics: seq<string>, search: string -> seq<Paper>)
    requires topics != [] && topics[0] != [] && Stripped(topics[0]) && |papers| < MaxPapers
    ensures var next := Expand(Take(papers + search(topics[0]), MaxPapers), topics[1..], search);
            Expand(papers, topics, search) == Expansion(next.papers, [topics[0]] + next.terms)
  {
    StripOfStripped(topics[0]);
  }

  /** On clean topics the loop searches a prefix of the topics, each
      exactly as given. */
  lemma {:induction false} ExpandSearchesPrefix(papers: seq<Paper>, topics: seq<string>, search: string -> seq<Paper>)
    requires CleanTopics(topics)
    ensures var e := Expand(papers, topics, search);
            |e.terms| <= |topics| && e.terms == topics[..|e.terms|]
    decreases |topics|
  {
    if topics != [] {
      if |papers| < MaxPapers {
        var held := Take(papers + search(topics[0]), MaxPapers);
        var rest := topics[1..];
        assert CleanTopics(rest) by {
          forall k | 0 <= k < |rest| ensures rest[k] != [] && Stripped(rest[k]) {
            assert rest[k] == topics[k + 1];
          }
        }
        ExpandSearchesPrefix(held, rest, search);
        ExpandCleanStep(papers, topics, search);
        var next := Expand(held, rest, search);
        assert [topics[0]] + rest[..|next.terms|] == topics[..|next.terms| + 1];
      } else {
        ExpandFull(papers, topics, search);
      }
    }
  }

  /** On clean topics the loop stops short of the last topic only once
      five papers are held. */
  lemma {:induction false} ExpandStopsOnlyWhenFull(papers: seq<Paper>, topics: seq<string>, search: string -> seq<Paper>)
    requires CleanTopics(topics)
    ensures var e := Expand(papers, topics, search);
            |e.terms| < |topics| ==> |papers + Results(e.terms, search)| >= MaxPapers
    decreases |topics|
  {
    if topics != [] {
      if |papers| < MaxPapers {
        var joined := papers + search(topics[0]);
        var held := Take(joined, MaxPapers);
        var rest := topics[1..];
        assert CleanTopics(rest) by {
          forall k | 0 <= k < |rest| ensures rest[k] != [] && Stripped(rest[k]) {
            assert rest[k] == topics[k + 1];
          }
        }
        ExpandStopsOnlyWhenFull(held, rest, search);
        ExpandCleanStep(papers, topics, search);
        var next := Expand(held, rest, search);
        ResultsCons(topics[0], next.terms, search);
        if |held| < MaxPapers {
          assert held == joined;
          assert papers + Results([topics[0]] + next.terms, search) == held + Results(next.terms, search);
        } else {
          assert |papers + Results([topics[0]] + next.terms, search)| >= |joined|;
        }
      } else {
        ExpandFull(papers, topics, search);
        assert papers + Results([], search) == papers;
      }
    }
  }

  lemma ResultsCons(term: string, terms: seq<string>, search: string -> seq<Paper>)
    ensures Results([term] + terms, search) == search(term) + Results(terms, search)
  {
    assert ([term] + terms)[1..] == terms;
  }

  /** Extraction yields clean topics: a bullet line is never empty. */
  lemma ExtractedTopicsClean(response: string)
    ensures CleanTopics(ExtractRelatedTopics(response))
  {
    var topics := ExtractRelatedTopics(response);
    forall k | 0 <= k < |topics| ensures topics[k] != [] && Stripped(topics[k]) {
      assert IsBullet(topics[k]);
    }
  }

  /** The topics the agent suggests for `query`. */
  function SuggestedTopics(query: string, agent: string -> Option<string>): seq<string> {
    ExtractRelatedTopics(ReplyContent(agent(Prompt(query))))
  }

  /** The papers returned: the first search's own result when it found five
      or more, and otherwise the first five of all results of the terms
      searched, in search order; the first search's papers always lead. */
  lemma FetchPapers(query: string, search: string -> seq<Paper>,
                    agentReady: bool, agent: string -> Option<string>)
    ensures var f := FetchArxiv(query, search, agentReady, agent);
            && (|search(query)| >= MaxPapers ==> f.papers == search(query))
            && (|search(query)| < MaxPapers ==> f.papers == Take(Results(f.terms, search), MaxPapers))
            && search(query) <= f.papers
  {
    var initial := search(query);
    var f := FetchArxiv(query, search, agentReady, agent);
    ResultsCons(query, f.terms[1..], search);
    assert [query] + f.terms[1..] == f.terms;
    if |initial| < MaxPapers {
      if agentReady {
        ExpandResult(initial, SuggestedTopics(query, agent), search);
      } else {
        assert Results([], search) == [] && initial + [] == initial;
      }
      assert Take(Results(f.terms, search), MaxPapers) <= Results(f.terms, search);
    }
  }

  /** Fewer than five papers from the first search: the result has at most five. */
  lemma FetchAtMostFive(query: string, search: string -> seq<Paper>,
                        agentReady: bool, agent: string -> Option<string>)
    requires |search(query)| < MaxPapers
    ensures |FetchArxiv(query, search, agentReady, agent).papers| <= MaxPapers
  {
    FetchPapers(query, search, agentReady, agent);
  }

  /** The agent is consulted, once and with the fixed prompt, exactly when
      the first search found fewer than five papers and an agent exists.
      The searches issued: the query first; after it, when the agent was
      consulted, the suggested topics in their order, each as suggested,
      each issued while fewer than five papers were held, and stopping short
      of the last topic only once five were reached. */
  lemma FetchSearches(query: string, search: string -> seq<Paper>,
                      agentReady: bool, agent: string -> Option<string>)
    ensures var f := FetchArxiv(query, search, agentReady, agent);
            var topics := SuggestedTopics(query, agent);
            && |f.terms| >= 1 && f.terms[0] == query
            && (|search(query)| >= MaxPapers || !agentReady ==> f.prompts == [] && f.terms == [query])
            && (|search(query)| < MaxPapers && agentReady ==>
                  && f.prompts == [Prompt(query)]
                  && |f.terms| <= |topics| + 1
                  && f.terms[1..] == topics[..|f.terms| - 1]
                  && (forall k | 1 <= k < |f.terms| :: IsBullet(f.terms[k]))
                  && SearchedBelowFive(search(query), f.terms[1..], search)
                  && (|f.terms| <= |topics| ==> |Results(f.terms, search)| >= MaxPapers))
  {
    var initial := search(query);
    if |initial| < MaxPapers && agentReady {
      var topics := SuggestedTopics(query, agent);
      var e := Expand(initial, topics, search);
      ExtractedTopicsClean(ReplyContent(agent(Prompt(query))));
      ExpandSearchesPrefix(initial, topics, search);
      ExpandStopsOnlyWhenFull(initial, topics, search);
      ExpandSearchesBelowFive(initial, topics, search);
      ResultsCons(query, e.terms, search);
      assert ([query] + e.terms)[1..] == e.terms;
    }
  }

  /** `fetch_arxiv_papers(query)` as the source runs it: the first search,
      then, below five papers and with an agent, one prompt and a loop over
      the suggested topics. Besides the papers it reports, as ghosts, the
      prompts sent and the terms searched. */
  method FetchArxivPapers(query: string, search: string -> seq<Paper>,
                          agentReady: bool, agent: string -> Option<string>)
    returns (papers: seq<Paper>, ghost prompts: seq<string>, ghost terms: seq<string>)
    ensures papers == FetchArxiv(query, search, agentReady, agent).papers
    ensures prompts == FetchArxiv(query, search, agentReady, agent).prompts
    ensures terms == FetchArxiv(query, search, agentReady, agent).terms
  {
    papers := search(query);
    prompts := [];
    terms := [query];
    if |papers| < MaxPapers && agentReady {
      var prompt := Prompt(query);
      prompts := [prompt];
      var reply := agent(prompt);
      var topics := ExtractRelatedTopics(ReplyContent(reply));
      ghost var goal := Expand(papers, topics, search);
      for i := 0 to |topics|
        invariant Expand(papers, topics[i..], search).papers == goal.papers
        invariant terms + Expand(papers, topics[i..], search).terms == [query] + goal.terms
      {
        assert topics[i..][0] == topics[i] && topics[i..][1..] == topics[i + 1..];
        var topic := Strip(topics[i]);
        if topic != [] && |papers| < MaxPapers {
          terms := terms + [topic];
          papers := papers + search(topic);
          papers := Take(papers, MaxPapers);
        }
      }
      assert topics[|topics|..] == [];
    }
  }
}
