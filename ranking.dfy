/** Turning the nearest-neighbour hits of the vector index into scored
    candidate decisions, and ordering them by their fused score. */
module Ranking {
  import opened Common
  import opened Text
  import opened Scoring

  /** A real in [0, 1]; the logistic squashing of a raw similarity lands here. */
  type Unit = r: real | 0.0 <= r <= 1.0 witness 0.0

  /** One entry of the index metadata: the decision id and its text snippet. */
  datatype MetaEntry = MetaEntry(id: int, snippet: string)

  /** The columns of one row of the decisions table; a NULL column is `None`. */
  datatype DecisionRow = DecisionRow(
    daire: Option<string>, esas: Option<string>, karar: Option<string>,
    tarih: Option<string>, rawText: Option<string>)

  /** One hit of the vector index: a row number into the metadata (which may
      be negative, as the index reports missing neighbours with -1) and the
      logistic squashing of its raw similarity, `1 / (1 + exp(-(s - 2) * 0.4))`. */
  datatype Hit = Hit(index: int, sigmoid: Unit)

  datatype Candidate = Candidate(
    id: int, score: real, semanticScore: real, keywordScore: real, benefitScore: real,
    snippet: string, daire: string, esas: string, karar: string, tarih: string,
    rawText: string)

  const Unknown: string := "Bilinmiyor"

  /** Python's truthiness of an optional text: present and non-empty. */
  predicate Truthy(o: Option<string>) {
    o.Some? && o.value != []
  }

  /** `value or "Bilinmiyor"`. */
  function OrUnknown(o: Option<string>): (r: string)
    ensures r != []
    ensures Truthy(o) ==> r == o.value
    ensures !Truthy(o) ==> r == Unknown
  {
    if Truthy(o) then o.value else Unknown
  }

  /** Python list indexing `meta[idx]`: a negative index counts from the end,
      and anything outside `-n .. n - 1` raises. */
  function PyIndex(idx: int, n: nat): (r: Option<nat>)
    ensures r.Some? <==> 0 <= idx + n && idx < n
    ensures r.Some? ==> r.value < n && (r.value == idx || r.value == idx + n)
  {
    if 0 <= idx < n then Some(idx)
    else if 0 <= idx + n && idx < 0 then Some(idx + n)
    else None
  }

  /** The semantic score: the squashed similarity mapped onto [0.6, 0.9]. */
  function SemanticScore(sigmoid: Unit): (r: real)
    ensures 0.6 <= r <= 0.9
  {
    0.6 + sigmoid * 0.3
  }

  function Clamp(x: real, lo: real, hi: real): real {
    if x < lo then lo else if x > hi then hi else x
  }

  /** The fused score: 0.35 semantic, 0.35 keyword, 0.30 benefit, clamped to
      [0.60, 0.95]. */
  function FusedScore(semantic: real, keyword: real, benefit: real): (r: real)
    ensures 0.6 <= r <= 0.95
  {
    Clamp(semantic * 0.35 + keyword * 0.35 + benefit * 0.30, 0.6, 0.95)
  }

  /** Raising any one of the three parts never lowers the fused score, and
      inside the clamp the score is exactly the weighted sum. */
  lemma FusedScoreMonotone(s1: real, k1: real, b1: real, s2: real, k2: real, b2: real)
    requires s1 <= s2 && k1 <= k2 && b1 <= b2
    ensures FusedScore(s1, k1, b1) <= FusedScore(s2, k2, b2)
    ensures 0.6 <= s1 * 0.35 + k1 * 0.35 + b1 * 0.30 <= 0.95 ==>
      FusedScore(s1, k1, b1) == s1 * 0.35 + k1 * 0.35 + b1 * 0.30
  {
  }

  /** The text that is scored: the full text when present and non-empty,
      else the metadata snippet. */
  function ScoredText(entry: MetaEntry, row: DecisionRow): string {
    if Truthy(row.rawText) then row.rawText.value else entry.snippet
  }

  /** The candidate for a hit whose metadata entry, table row and court were found. */
  function MakeCandidate(entry: MetaEntry, row: DecisionRow, court: string, sigmoid: Unit,
                         keywords: seq<string>): Candidate
  {
    var text := ScoredText(entry, row);
    var semantic := SemanticScore(sigmoid);
    var keyword := KeywordScore(text, keywords);
    var benefit := BenefitScore(text, court);
    Candidate(entry.id, FusedScore(semantic, keyword, benefit), semantic, keyword, benefit,
              entry.snippet, OrUnknown(Some(court)), OrUnknown(row.esas), OrUnknown(row.karar),
              OrUnknown(row.tarih), row.rawText.GetOr(""))
  }

  /** The hit becomes a candidate unless its row number is past the end, the
      index raises, the id has no row, or the court column is NULL (the recency
      check then fails on it and the hit is dropped). */
  function BuildCandidate(meta: seq<MetaEntry>, store: map<int, DecisionRow>, hit: Hit,
                          keywords: seq<string>): (r: Option<Candidate>)
    ensures r.Some? <==>
      && 0 <= hit.index + |meta| && hit.index < |meta|
      && meta[PyIndex(hit.index, |meta|).value].id in store
      && store[meta[PyIndex(hit.index, |meta|).value].id].daire.Some?
  {
    if hit.index >= |meta| then None
    else
      match PyIndex(hit.index, |meta|)
      case None => None
      case Some(pos) =>
        var entry := meta[pos];
        if entry.id !in store then None
        else
          var row := store[entry.id];
          if row.daire.None? then None
          else Some(MakeCandidate(entry, row, row.daire.value, hit.sigmoid, keywords))
  }

  /** Every candidate has the fused score of its three parts, its scores in
      range, comes from the metadata entry the hit points at and carries that
      entry's snippet and the row's columns. */
  lemma BuildCandidateFields(meta: seq<MetaEntry>, store: map<int, DecisionRow>, hit: Hit,
                             keywords: seq<string>)
    requires BuildCandidate(meta, store, hit, keywords).Some?
    ensures var c := BuildCandidate(meta, store, hit, keywords).value;
      var entry := meta[PyIndex(hit.index, |meta|).value];
      var row := store[entry.id];
      && c.id == entry.id && c.snippet == entry.snippet
      && c.score == FusedScore(c.semanticScore, c.keywordScore, c.benefitScore)
      && 0.6 <= c.score <= 0.95
      && c.semanticScore == 0.6 + hit.sigmoid * 0.3
      && c.keywordScore == KeywordScore(ScoredText(entry, row), keywords)
      && c.benefitScore == BenefitScore(ScoredText(entry, row), row.daire.value)
      && 0.0 <= c.keywordScore <= 1.0 && 0.0 <= c.benefitScore <= 1.0
      && c.daire == OrUnknown(row.daire) && c.esas == OrUnknown(row.esas)
      && c.karar == OrUnknown(row.karar) && c.tarih == OrUnknown(row.tarih)
      && c.rawText == (if Truthy(row.rawText) then row.rawText.value else "")
  {
  }

  /** The candidates of a run of hits, in hit order. */
  function Assemble(meta: seq<MetaEntry>, store: map<int, DecisionRow>, hits: seq<Hit>,
                    keywords: seq<string>): (r: seq<Candidate>)
    ensures |r| <= |hits|
  {
    if hits == [] then []
    else
      var init := Assemble(meta, store, hits[..|hits| - 1], keywords);
      match BuildCandidate(meta, store, Last(hits), keywords)
      case None => init
      case Some(c) => init + [c]
  }

  lemma {:induction false} AssembleAppend(meta: seq<MetaEntry>, store: map<int, DecisionRow>,
                                          h1: seq<Hit>, h2: seq<Hit>, keywords: seq<string>)
    ensures Assemble(meta, store, h1 + h2, keywords)
         == Assemble(meta, store, h1, keywords) + Assemble(meta, store, h2, keywords)
    decreases |h2|
  {
    if h2 == [] {
      assert h1 + h2 == h1;
    } else {
      var init := h2[..|h2| - 1];
      assert (h1 + h2)[..|h1 + h2| - 1] == h1 + init;
      AssembleAppend(meta, store, h1, init, keywords);
    }
  }

  /** Each candidate comes from one of the hits, and every candidate's fused
      score lies in [0.60, 0.95]. */
  lemma {:induction false} AssembleFromHits(meta: seq<MetaEntry>, store: map<int, DecisionRow>,
                                            hits: seq<Hit>, keywords: seq<string>)
    ensures forall c :: c in Assemble(meta, store, hits, keywords) ==>
      (exists h :: h in hits && BuildCandidate(meta, store, h, keywords) == Some(c))
    ensures forall c :: c in Assemble(meta, store, hits, keywords) ==> 0.6 <= c.score <= 0.95
  {
    if hits != [] {
      var init := hits[..|hits| - 1];
      AssembleFromHits(meta, store, init, keywords);
      assert forall h :: h in init ==> h in hits;
      var b := BuildCandidate(meta, store, Last(hits), keywords);
      if b.Some? {
        assert Last(hits) in hits;
        BuildCandidateFields(meta, store, Last(hits), keywords);
      }
    }
  }

  /** The search loop: each admissible hit is scored and appended. */
  method ScoreHits(meta: seq<MetaEntry>, store: map<int, DecisionRow>, hits: seq<Hit>,
                   keywords: seq<string>) returns (results: seq<Candidate>)
    ensures results == Assemble(meta, store, hits, keywords)
  {
    results := [];
    for i := 0 to |hits|
      invariant results == Assemble(meta, store, hits[..i], keywords)
    {
      assert hits[..i + 1][..i] == hits[..i];
      var c := ScoreHit(meta, store, hits[i], keywords);
      if c.Some? {
        results := results + [c.value];
      }
    }
    assert hits[..|hits|] == hits;
  }

  /** The body of the search loop for one hit, with each `continue` an early
      return of `None`. */
  method ScoreHit(meta: seq<MetaEntry>, store: map<int, DecisionRow>, hit: Hit,
                  keywords: seq<string>) returns (r: Option<Candidate>)
    ensures r == BuildCandidate(meta, store, hit, keywords)
  {
    if hit.index >= |meta| {
      return None;
    }
    if hit.index + |meta| < 0 {
      return None;
    }
    var pos := if hit.index < 0 then hit.index + |meta| else hit.index;
    var entry := meta[pos];
    if entry.id !in store {
      return None;
    }
    var row := store[entry.id];
    var semantic := 0.6 + hit.sigmoid * 0.3;
    var text := if row.rawText.Some? && row.rawText.value != [] then row.rawText.value else entry.snippet;
    var keyword := KeywordMatchScore(text, keywords);
    if row.daire.None? {
      return None;
    }
    var court := row.daire.value;
    var benefit := CalculateBenefitScore(text, court);
    var fused := semantic * 0.35 + keyword * 0.35 + benefit * 0.30;
    fused := if fused > 0.95 then 0.95 else fused;
    fused := if fused < 0.6 then 0.6 else fused;
    var c := Candidate(entry.id, fused, semantic, keyword, benefit, entry.snippet,
                       if court != [] then court else Unknown,
                       OrUnknown(row.esas), OrUnknown(row.karar), OrUnknown(row.tarih),
                       if row.rawText.Some? then row.rawText.value else "");
    assert c == MakeCandidate(entry, row, court, hit.sigmoid, keywords) by {
      assert text == ScoredText(entry, row);
      assert semantic == SemanticScore(hit.sigmoid);
      assert fused == FusedScore(semantic, keyword, benefit);
    }
    return Some(c);
  }

  // ---------------------------------------------------------------------------
  // Ordering by score, highest first, keeping the hit order among equal scores
  // ---------------------------------------------------------------------------

  predicate SortedDesc(s: seq<Candidate>) {
    forall i, j :: 0 <= i < j < |s| ==> s[i].score >= s[j].score
  }

  /** Places `c` after every element whose score is at least its own, moving
      it in from the right end past the strictly lower ones. */
  function InsertR(s: seq<Candidate>, c: Candidate): (r: seq<Candidate>)
    ensures |r| == |s| + 1
  {
    if s != [] && Last(s).score < c.score then InsertR(s[..|s| - 1], c) + [Last(s)]
    else s + [c]
  }

  /** The order `list.sort(key=score, reverse=True)` produces: a stable
      descending sort, here inserting the elements one by one from the left. */
  function SortDesc(s: seq<Candidate>): (r: seq<Candidate>)
    ensures |r| == |s|
  {
    if s == [] then [] else InsertR(SortDesc(s[..|s| - 1]), Last(s))
  }

  lemma {:induction false} InsertRMultiset(s: seq<Candidate>, c: Candidate)
    ensures multiset(InsertR(s, c)) == multiset(s) + multiset{c}
  {
    if s != [] && Last(s).score < c.score {
      var init := s[..|s| - 1];
      InsertRMultiset(init, c);
      assert s == init + [Last(s)];
    }
  }

  /** The sorted list is a permutation of the input ... */
  lemma {:induction false} SortDescPermutation(s: seq<Candidate>)
    ensures multiset(SortDesc(s)) == multiset(s)
  {
    if s != [] {
      var init := s[..|s| - 1];
      SortDescPermutation(init);
      InsertRMultiset(SortDesc(init), Last(s));
      assert s == init + [Last(s)];
    }
  }

  lemma InsertRMembers(s: seq<Candidate>, c: Candidate)
    ensures forall x :: x in InsertR(s, c) <==> x in s || x == c
  {
    var r := InsertR(s, c);
    InsertRMultiset(s, c);
    assert forall x :: x in r <==> x in multiset(r);
    assert forall x :: x in s <==> x in multiset(s);
  }

  /** Appending an element no higher than everything keeps the order. */
  lemma AppendLowest(r: seq<Candidate>, x: Candidate)
    requires SortedDesc(r)
    requires forall y :: y in r ==> y.score >= x.score
    ensures SortedDesc(r + [x])
  {
    var t := r + [x];
    forall i, j | 0 <= i < j < |t| ensures t[i].score >= t[j].score {
      assert t[i] == r[i];
      if j < |r| {
        assert t[j] == r[j];
      } else {
        assert r[i] in r;
      }
    }
  }

  lemma {:induction false} InsertRSorted(s: seq<Candidate>, c: Candidate)
    requires SortedDesc(s)
    ensures SortedDesc(InsertR(s, c))
  {
    if s != [] {
      var last := Last(s);
      if last.score < c.score {
        var init := s[..|s| - 1];
        InsertRSorted(init, c);
        var r := InsertR(init, c);
        InsertRMembers(init, c);
        forall y | y in r ensures y.score >= last.score {
          if y != c {
            var k :| 0 <= k < |init| && init[k] == y;
            assert s[k] == y;
          }
        }
        AppendLowest(r, last);
      } else {
        forall y | y in s ensures y.score >= c.score {
          var k :| 0 <= k < |s| && s[k] == y;
        }
        AppendLowest(s, c);
      }
    }
  }

  /** ... descending by score ... */
  lemma {:induction false} SortDescSorted(s: seq<Candidate>)
    ensures SortedDesc(SortDesc(s))
  {
    if s != [] {
      SortDescSorted(s[..|s| - 1]);
      InsertRSorted(SortDesc(s[..|s| - 1]), Last(s));
    }
  }

  /** The candidates of score `v`, in order. */
  function WithScore(s: seq<Candidate>, v: real): seq<Candidate> {
    if s == [] then []
    else WithScore(s[..|s| - 1], v) + (if Last(s).score == v then [Last(s)] else [])
  }

  lemma {:induction false} WithScoreAppend(a: seq<Candidate>, b: seq<Candidate>, v: real)
    ensures WithScore(a + b, v) == WithScore(a, v) + WithScore(b, v)
    decreases |b|
  {
    if b == [] {
      assert a + b == a;
    } else {
      var init := b[..|b| - 1];
      assert (a + b)[..|a + b| - 1] == a + init;
      WithScoreAppend(a, init, v);
    }
  }

  lemma WithScoreSingle(x: Candidate, v: real)
    ensures WithScore([x], v) == if x.score == v then [x] else []
  {
    assert [x][..0] == [];
  }

  lemma {:induction false} InsertRStable(s: seq<Candidate>, c: Candidate, v: real)
    ensures WithScore(InsertR(s, c), v) == WithScore(s, v) + WithScore([c], v)
  {
    if s != [] && Last(s).score < c.score {
      var init := s[..|s| - 1];
      var last := Last(s);
      InsertRStable(init, c, v);
      assert s == init + [last];
      assert InsertR(s, c) == InsertR(init, c) + [last];
      WithScoreAppend(InsertR(init, c), [last], v);
      WithScoreAppend(init, [last], v);
      WithScoreSingle(last, v);
      WithScoreSingle(c, v);
    } else {
      assert InsertR(s, c) == s + [c];
      WithScoreAppend(s, [c], v);
    }
  }

  /** ... and it is stable: the candidates of any one score keep their order. */
  lemma {:induction false} SortDescStable(s: seq<Candidate>, v: real)
    ensures WithScore(SortDesc(s), v) == WithScore(s, v)
  {
    if s != [] {
      var init, last := s[..|s| - 1], Last(s);
      calc {
        WithScore(SortDesc(s), v);
        WithScore(InsertR(SortDesc(init), last), v);
      == { InsertRStable(SortDesc(init), last, v); }
        WithScore(SortDesc(init), v) + WithScore([last], v);
      == { SortDescStable(init, v); }
        WithScore(init, v) + WithScore([last], v);
      == { WithScoreAppend(init, [last], v); assert s == init + [last]; }
        WithScore(s, v);
      }
    }
  }

  /** In-place insertion sort of the result list by descending score. */
  method SortByScore(a: array<Candidate>)
    modifies a
    ensures a[..] == SortDesc(old(a[..]))
  {
    ghost var orig := a[..];
    var i := 0;
    while i < a.Length
      invariant 0 <= i <= a.Length
      invariant a[..i] == SortDesc(orig[..i])
      invariant forall k :: i <= k < a.Length ==> a[k] == orig[k]
    {
      SortDescStep(orig, i);
      InsertNext(a, i);
      i := i + 1;
    }
    assert a[..a.Length] == a[..];
    assert orig[..a.Length] == orig;
  }

  lemma SortDescStep(s: seq<Candidate>, i: int)
    requires 0 <= i < |s|
    ensures SortDesc(s[..i + 1]) == InsertR(SortDesc(s[..i]), s[i])
  {
    assert s[..i + 1][..i] == s[..i];
  }

  /** One step of the insertion sort: moves `a[i]` left past the lower
      elements of the prefix `a[..i]`. */
  method InsertNext(a: array<Candidate>, i: int)
    requires 0 <= i < a.Length
    modifies a
    ensures a[..i + 1] == InsertR(old(a[..i]), old(a[i]))
    ensures forall k :: i < k < a.Length ==> a[k] == old(a[k])
  {
    ghost var p := a[..i];
    var key := a[i];
    var j := i;
    while j > 0 && a[j - 1].score < key.score
      invariant 0 <= j <= i
      invariant forall k :: 0 <= k < j ==> a[k] == p[k]
      invariant forall k :: j < k <= i ==> a[k] == p[k - 1]
      invariant forall k :: i < k < a.Length ==> a[k] == old(a[k])
      invariant forall k :: j <= k < i ==> p[k].score < key.score
    {
      a[j] := a[j - 1];
      j := j - 1;
    }
    a[j] := key;
    InsertRAt(p, j, key);
    assert a[..i + 1] == p[..j] + [key] + p[j..] by {
      forall k | 0 <= k <= i ensures a[k] == (p[..j] + [key] + p[j..])[k] {
      }
    }
  }

  /** `InsertR` puts `c` right after the last element that is at least as high. */
  lemma {:induction false} InsertRAt(p: seq<Candidate>, j: int, c: Candidate)
    requires 0 <= j <= |p|
    requires forall k :: j <= k < |p| ==> p[k].score < c.score
    requires j == 0 || p[j - 1].score >= c.score
    ensures InsertR(p, c) == p[..j] + [c] + p[j..]
    decreases |p|
  {
    if j < |p| {
      var init := p[..|p| - 1];
      InsertRAt(init, j, c);
      assert init[..j] == p[..j];
      assert p[j..] == init[j..] + [Last(p)];
    } else {
      assert p[..j] == p;
    }
  }

  /** The highest-scoring results: the first `n` of the sorted list. */
  lemma TopIsBest(sorted: seq<Candidate>, n: nat)
    requires SortedDesc(sorted)
    ensures forall a, b :: a in Take(sorted, n) && b in sorted[|Take(sorted, n)|..] ==> a.score >= b.score
  {
    var t := Take(sorted, n);
    forall a, b | a in t && b in sorted[|t|..] ensures a.score >= b.score {
      var i :| 0 <= i < |t| && t[i] == a;
      var j :| 0 <= j < |sorted| - |t| && sorted[|t|..][j] == b;
      assert sorted[i] == a && sorted[|t| + j] == b;
    }
  }
}
