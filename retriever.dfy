/** The retriever object: its per-description analysis cache, the two
    query-analysis steps that consult and fill it, the candidate search and
    the full precedent search that clears the cache, analyses the
    description, ranks the candidates and explains the best three.

    The language model, the sentence encoder with the vector index and the
    decisions table are outside the model: the model's replies are given as
    texts, the encoder-and-index search as a function from the search text to
    hits, and the table as a map from decision id to row. */
module Retriever {
  import opened Common
  import opened Text
  import opened QueryAnalysis
  import opened Ranking
  import opened Explanation

  /** The cached analysis of one description: keywords and intent, each
      present once computed. */
  datatype Analysis = Analysis(keywords: Option<seq<string>>, intent: Option<Intent>)

  datatype SearchResult = SearchResult(
    top20: seq<Candidate>, top3: seq<Candidate>, explanation: string,
    intent: Intent, totalFound: nat)

  /** How many results are returned in full. */
  const TopK: nat := 20

  /** The text given to the encoder: the description followed by the intent's
      search terms, space-separated. */
  function EnhancedQuery(query: string, searchTerms: seq<string>): (r: string)
    ensures query + " " <= r
  {
    query + " " + Join(searchTerms, " ")
  }

  /** The whole precedent search as a function of its inputs. */
  function PrecedentSearch(meta: seq<MetaEntry>, description: string, keywordReply: string,
                           intentReply: string, explainReply: string,
                           search: string -> seq<Hit>, store: map<int, DecisionRow>): SearchResult
  {
    var keywords := ExtractKeywords(description, keywordReply);
    var intent := ParseIntent(intentReply);
    var all := Assemble(meta, store, search(EnhancedQuery(description, intent.searchTerms)), keywords);
    var sorted := SortDesc(all);
    SearchResult(Take(sorted, TopK), Take(sorted, 3), Explain(Take(sorted, 3), explainReply),
                 intent, |all|)
  }

  /** The first `n` of the sorted candidates are in descending order, are
      all candidates, and none is below a candidate left out. */
  lemma TopOfRanking(all: seq<Candidate>, n: nat)
    ensures var sorted := SortDesc(all);
      && SortedDesc(Take(sorted, n))
      && (forall c :: c in Take(sorted, n) ==> c in all)
      && (forall a, b :: a in Take(sorted, n) && b in sorted[|Take(sorted, n)|..] ==>
            a.score >= b.score)
  {
    var sorted := SortDesc(all);
    SortDescSorted(all);
    SortDescPermutation(all);
    TopIsBest(sorted, n);
    var top := Take(sorted, n);
    forall c | c in top ensures c in all {
      assert c in sorted;
      assert c in multiset(sorted);
    }
  }

  /** The ranked candidates: the best twenty in descending order, each one of
      the candidates and scored in [0.60, 0.95], none below a candidate left
      out, and the best three at their head. */
  lemma RankedFacts(meta: seq<MetaEntry>, store: map<int, DecisionRow>, hits: seq<Hit>,
                    keywords: seq<string>)
    ensures var all := Assemble(meta, store, hits, keywords);
      var sorted := SortDesc(all);
      && |Take(sorted, TopK)| == Min(TopK, |all|) && |Take(sorted, 3)| == Min(3, |all|)
      && Take(sorted, 3) == Take(sorted, TopK)[..|Take(sorted, 3)|]
      && SortedDesc(Take(sorted, TopK))
      && (forall c :: c in Take(sorted, TopK) ==> c in all && 0.6 <= c.score <= 0.95)
      && (forall a, b :: a in Take(sorted, TopK) && b in sorted[|Take(sorted, TopK)|..] ==>
            a.score >= b.score)
  {
    var all := Assemble(meta, store, hits, keywords);
    TopOfRanking(all, TopK);
    AssembleFromHits(meta, store, hits, keywords);
  }

  /** What the search promises: the twenty shown are the best of all
      candidates in descending order, the three explained are the first three
      of them, every score lies in [0.60, 0.95], the count covers all
      candidates, and fewer than three candidates give the fixed notice. */
  lemma PrecedentSearchResult(meta: seq<MetaEntry>, description: string, keywordReply: string,
                              intentReply: string, explainReply: string,
                              search: string -> seq<Hit>, store: map<int, DecisionRow>)
    ensures var r := PrecedentSearch(meta, description, keywordReply, intentReply, explainReply, search, store);
      var all := Assemble(meta, store, search(EnhancedQuery(description, r.intent.searchTerms)),
                          ExtractKeywords(description, keywordReply));
      && r.totalFound == |all|
      && |r.top20| == Min(TopK, |all|) && |r.top3| == Min(3, |all|)
      && r.top3 == r.top20[..|r.top3|]
      && SortedDesc(r.top20)
      && (forall c :: c in r.top20 ==> c in all && 0.6 <= c.score <= 0.95)
      && (forall a, b :: a in r.top20 && b in SortDesc(all)[|r.top20|..] ==> a.score >= b.score)
      && (r.totalFound < 3 ==> r.explanation == Insufficient)
      && r.intent == ParseIntent(intentReply)
  {
    var intent := ParseIntent(intentReply);
    RankedFacts(meta, store, search(EnhancedQuery(description, intent.searchTerms)),
                ExtractKeywords(description, keywordReply));
  }

  /** Ranking and explanation: the candidates sorted in place by score, the
      first twenty shown, the first three explained. */
  method RankAndExplain(all: seq<Candidate>, intent: Intent, explainReply: string)
    returns (result: SearchResult)
    ensures result == SearchResult(Take(SortDesc(all), TopK), Take(SortDesc(all), 3),
                                   Explain(Take(SortDesc(all), 3), explainReply), intent, |all|)
  {
    var a := new Candidate[|all|](i requires 0 <= i < |all| => all[i]);
    assert a[..] == all;
    SortByScore(a);
    var sorted := a[..];
    var top20 := Take(sorted, TopK);
    var top3 := Take(sorted, 3);
    var explanation := ExplainTop3(top3, explainReply);
    result := SearchResult(top20, top3, explanation, intent, |all|);
  }

  /** An emptied cache given the keywords of a description and then its
      intent holds that one entry, with both. */
  lemma FreshAnalysis(c0: map<string, Analysis>, c1: map<string, Analysis>, c2: map<string, Analysis>,
                      d: string, keywords: seq<string>, intent: Intent)
    requires c0 == map[]
    requires d !in c0 ==> c1 == c0[d := Analysis(Some(keywords), None)]
    requires !(d in c1 && c1[d].intent.Some?) ==>
      c2 == c1[d := Analysis(if d in c1 then c1[d].keywords else None, Some(intent))]
    ensures c2 == map[d := Analysis(Some(keywords), Some(intent))]
  {
    assert c1 == map[d := Analysis(Some(keywords), None)];
  }

  class TurkishLegalRetriever {
    /** The index metadata, loaded once. */
    const meta: seq<MetaEntry>
    /** Analyses by description. */
    var cache: map<string, Analysis>

    constructor(meta: seq<MetaEntry>)
      ensures this.meta == meta && cache == map[]
    {
      this.meta := meta;
      cache := map[];
    }

    /** Keywords for a description: from the cache when the description is
        there (its keywords, or none if only the intent was stored), else
        computed from the reply and stored. */
    method ExtractSearchKeywords(query: string, reply: string) returns (keywords: seq<string>)
      modifies this
      ensures query in old(cache) ==>
        keywords == old(cache)[query].keywords.GetOr([]) && cache == old(cache)
      ensures query !in old(cache) ==>
        && keywords == ExtractKeywords(query, reply)
        && cache == old(cache)[query := Analysis(Some(keywords), None)]
    {
      if query in cache {
        return cache[query].keywords.GetOr([]);
      }
      keywords := ExtractKeywords(query, reply);
      cache := cache[query := Analysis(Some(keywords), None)];
    }

    /** The case intent: from the cache when an intent is stored, else read
        line by line from the reply and merged into the cache entry. */
    method ExtractCaseIntent(query: string, reply: string) returns (intent: Intent)
      modifies this
      ensures query in old(cache) && old(cache)[query].intent.Some? ==>
        intent == old(cache)[query].intent.value && cache == old(cache)
      ensures !(query in old(cache) && old(cache)[query].intent.Some?) ==>
        && intent == ParseIntent(reply)
        && cache == old(cache)[query := Analysis(
             if query in old(cache) then old(cache)[query].keywords else None, Some(intent))]
    {
      if query in cache && cache[query].intent.Some? {
        return cache[query].intent.value;
      }
      var lines := SplitOn(reply, "\n");
      intent := DefaultIntent;
      for i := 0 to |lines|
        invariant intent == ParseIntentLines(lines[..i])
      {
        assert lines[..i + 1][..i] == lines[..i];
        intent := ApplyLine(intent, lines[i]);
      }
      assert lines[..|lines|] == lines;
      var kept := if query in cache then cache[query].keywords else None;
      cache := cache[query := Analysis(kept, Some(intent))];
    }

    /** The candidates for a description: keywords (normally from the cache),
        the index searched with the enhanced query, each hit scored. */
    method SearchBeneficialDecisions(query: string, intent: Intent, keywordReply: string,
                                     search: string -> seq<Hit>, store: map<int, DecisionRow>)
      returns (results: seq<Candidate>)
      modifies this
      ensures query in old(cache) ==> cache == old(cache)
      ensures query in old(cache) ==> results == Assemble(meta, store,
        search(EnhancedQuery(query, intent.searchTerms)), old(cache)[query].keywords.GetOr([]))
      ensures query !in old(cache) ==> results == Assemble(meta, store,
        search(EnhancedQuery(query, intent.searchTerms)), ExtractKeywords(query, keywordReply))
    {
      var keywords := ExtractSearchKeywords(query, keywordReply);
      var hits := search(EnhancedQuery(query, intent.searchTerms));
      results := ScoreHits(meta, store, hits, keywords);
    }

    /** The cache emptied, then the keywords and the intent of the
        description computed and stored. */
    method AnalyseAfresh(description: string, keywordReply: string, intentReply: string)
      returns (keywords: seq<string>, intent: Intent)
      modifies this
      ensures keywords == ExtractKeywords(description, keywordReply)
      ensures intent == ParseIntent(intentReply)
      ensures cache == map[description := Analysis(Some(keywords), Some(intent))]
    {
      cache := map[];
      ghost var c0 := cache;
      keywords := ExtractSearchKeywords(description, keywordReply);
      ghost var c1 := cache;
      intent := ExtractCaseIntent(description, intentReply);
      FreshAnalysis(c0, c1, cache, description, keywords, intent);
    }

    /** The full search. The cache is emptied first, so the keywords are
        computed once from the keyword reply, and the later lookup during the
        candidate search finds them. */
    method SearchBeneficialPrecedents(description: string, keywordReply: string,
                                      intentReply: string, explainReply: string,
                                      search: string -> seq<Hit>, store: map<int, DecisionRow>)
      returns (result: SearchResult)
      modifies this
      ensures result == PrecedentSearch(meta, description, keywordReply, intentReply,
                                        explainReply, search, store)
      ensures cache == map[description := Analysis(
        Some(ExtractKeywords(description, keywordReply)), Some(ParseIntent(intentReply)))]
    {
      var keywords, intent := AnalyseAfresh(description, keywordReply, intentReply);
      var all := SearchBeneficialDecisions(description, intent, keywordReply, search, store);
      result := RankAndExplain(all, intent, explainReply);
    }
  }
}
