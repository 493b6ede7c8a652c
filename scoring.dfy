/** The two deterministic scorers of the retriever: the keyword-overlap ratio
    and the rule-based "benefit" score of a decision. */
module Scoring {
  import opened Common
  import opened Text

  /** Outcome language that marks a decision as favourable. */
  const PositiveOutcomes: seq<string> := [
    "kabul", "uygun", "doğru", "geçerli", "haklı", "yerinde", "onaylandı",
    "desteklendi", "kabul edildi", "uygun bulundu", "doğru bulundu",
    "hukuka uygun", "adil", "hakkaniyetli", "memnuniyet verici"]

  /** Language about legal principles. */
  const LegalPrinciples: seq<string> := [
    "prensip", "kural", "esas", "hukuki", "yasal", "mevzuat", "kanun",
    "yönetmelik", "tüzük", "anayasa", "temel hak", "insan hakları"]

  /** Names of high courts and their assemblies, scanned in this order. */
  const CourtHierarchy: seq<string> := [
    "yargıtay", "danıştay", "anayasa mahkemesi", "genel kurul",
    "büyük genel kurul", "hukuk genel kurul", "ceza genel kurul"]

  // ---------------------------------------------------------------------------
  // Keyword overlap
  // ---------------------------------------------------------------------------

  /** How many of the keywords, lowered, occur in the lowered text; a keyword
      listed twice is counted twice. */
  function MatchCount(textLower: string, keywords: seq<string>): (n: nat)
    ensures n <= |keywords|
  {
    if keywords == [] then 0
    else MatchCount(textLower, keywords[..|keywords| - 1])
         + (if Contains(textLower, Lower(Last(keywords))) then 1 else 0)
  }

  /** The keyword score: 0 for no keywords, else the matched fraction. */
  function KeywordScore(text: string, keywords: seq<string>): (r: real)
    ensures 0.0 <= r <= 1.0
  {
    if keywords == [] then 0.0
    else (MatchCount(Lower(text), keywords) as real) / (|keywords| as real)
  }

  /** The counting loop of the retriever's keyword scorer. */
  method KeywordMatchScore(decisionText: string, keywords: seq<string>) returns (score: real)
    ensures score == KeywordScore(decisionText, keywords)
  {
    if keywords == [] {
      return 0.0;
    }
    var textLower := Lower(decisionText);
    var matches := 0;
    for i := 0 to |keywords|
      invariant matches == MatchCount(textLower, keywords[..i])
    {
      assert keywords[..i + 1][..i] == keywords[..i];
      if Contains(textLower, Lower(keywords[i])) {
        matches := matches + 1;
      }
    }
    assert keywords[..|keywords|] == keywords;
    score := matches as real / |keywords| as real;
  }

  lemma {:induction false} MatchCountAppend(t: string, a: seq<string>, b: seq<string>)
    ensures MatchCount(t, a + b) == MatchCount(t, a) + MatchCount(t, b)
    decreases |b|
  {
    if b != [] {
      var bInit := b[..|b| - 1];
      assert (a + b)[..|a + b| - 1] == a + bInit;
      MatchCountAppend(t, a, bInit);
    } else {
      assert a + b == a;
    }
  }

  /** Every keyword matches exactly when the count is the list length. */
  lemma {:induction false} MatchCountAll(t: string, keywords: seq<string>)
    ensures MatchCount(t, keywords) == |keywords|
        <==> forall k :: k in keywords ==> Contains(t, Lower(k))
  {
    if keywords != [] {
      var init := keywords[..|keywords| - 1];
      var k0 := Last(keywords);
      MatchCountAll(t, init);
      assert keywords == init + [k0];
      assert MatchCount(t, keywords) == MatchCount(t, init) + (if Contains(t, Lower(k0)) then 1 else 0);
      if forall k :: k in keywords ==> Contains(t, Lower(k)) {
        assert k0 in keywords;
        assert forall k :: k in init ==> k in keywords;
      } else {
        var k :| k in keywords && !Contains(t, Lower(k));
        if k != k0 {
          assert k in init;
        }
      }
    }
  }

  /** No keyword matches exactly when the count is zero. */
  lemma {:induction false} MatchCountNone(t: string, keywords: seq<string>)
    ensures MatchCount(t, keywords) == 0
        <==> forall k :: k in keywords ==> !Contains(t, Lower(k))
  {
    if keywords != [] {
      var init := keywords[..|keywords| - 1];
      var k0 := Last(keywords);
      MatchCountNone(t, init);
      assert keywords == init + [k0];
      assert MatchCount(t, keywords) == MatchCount(t, init) + (if Contains(t, Lower(k0)) then 1 else 0);
      if forall k :: k in keywords ==> !Contains(t, Lower(k)) {
        assert k0 in keywords;
        assert forall k :: k in init ==> k in keywords;
      } else {
        var k :| k in keywords && Contains(t, Lower(k));
        if k != k0 {
          assert k in init;
        }
      }
    }
  }

  lemma RatioFacts(n: real, m: real)
    requires m > 0.0
    ensures n / m == 1.0 <==> n == m
    ensures n / m == 0.0 <==> n == 0.0
    ensures (2.0 * n) / (2.0 * m) == n / m
  {
    assert (n / m) * m == n;
  }

  /** The keyword score is 1 exactly when every keyword occurs in the text, and
      0 exactly when none does (or there are no keywords). */
  lemma KeywordScoreExtremes(text: string, keywords: seq<string>)
    ensures keywords != [] ==>
      ((KeywordScore(text, keywords) == 1.0)
       <==> (forall k :: k in keywords ==> Contains(Lower(text), Lower(k))))
    ensures KeywordScore(text, keywords) == 0.0
        <==> forall k :: k in keywords ==> !Contains(Lower(text), Lower(k))
  {
    MatchCountAll(Lower(text), keywords);
    MatchCountNone(Lower(text), keywords);
    if keywords != [] {
      RatioFacts(MatchCount(Lower(text), keywords) as real, |keywords| as real);
    }
  }

  /** A keyword listed twice counts twice: repeating the whole list leaves the
      score unchanged, because matches and length both double. */
  lemma KeywordScoreRepeated(text: string, keywords: seq<string>)
    ensures MatchCount(Lower(text), keywords + keywords) == 2 * MatchCount(Lower(text), keywords)
    ensures KeywordScore(text, keywords + keywords) == KeywordScore(text, keywords)
  {
    MatchCountAppend(Lower(text), keywords, keywords);
    if keywords != [] {
      RatioFacts(MatchCount(Lower(text), keywords) as real, |keywords| as real);
    }
  }

  /** One of two keywords occurs in "Taraflar arasındaki boşanma ve nafaka davası". */
  lemma KeywordScoreExample()
    ensures KeywordScore("Taraflar arasındaki boşanma ve nafaka davası", ["boşanma", "velayet"]) == 0.5
  {
    var lowered := ExampleLowered();
    ExampleNoCapitals();
    VelayetNoCapitals();
    LowerNoCapitals("boşanma");
    LowerNoCapitals("velayet");
    KeywordScoreHalf("Taraflar arasındaki boşanma ve nafaka davası", "boşanma", "velayet");
  }

  lemma KeywordScoreHalf(text: string, k1: string, k2: string)
    requires Contains(Lower(text), Lower(k1)) && !Contains(Lower(text), Lower(k2))
    ensures KeywordScore(text, [k1, k2]) == 0.5
  {
    MatchCountPair(Lower(text), k1, k2);
  }

  lemma MatchCountPair(t: string, k1: string, k2: string)
    ensures MatchCount(t, [k1, k2])
         == (if Contains(t, Lower(k1)) then 1 else 0) + (if Contains(t, Lower(k2)) then 1 else 0)
  {
    assert [k1, k2][..1] == [k1];
    assert [k1][..0] == [];
  }

  lemma ExampleLowered() returns (lowered: string)
    ensures Lower("Taraflar arasındaki boşanma ve nafaka davası") == lowered
    ensures Contains(lowered, "boşanma") && !Contains(lowered, "velayet")
  {
    var a, b, c := "araflar arasındaki ", "boşanma", " ve nafaka davası";
    ExampleSplit();
    ExampleNoCapitals();
    lowered := "t" + a + b + c;
    LowerNoCapitals(a);
    LowerNoCapitals(b);
    LowerNoCapitals(c);
    LowerConcat("T" + a + b, c);
    LowerConcat("T" + a, b);
    LowerConcat("T", a);
    assert Lower("T") == "t";
    ContainsMiddle("t" + a, b, c);
    ExampleNoY();
    MissingChar(lowered, "velayet", 'y');
  }

  lemma ExampleSplit()
    ensures "Taraflar arasındaki boşanma ve nafaka davası"
         == "T" + "araflar arasındaki " + "boşanma" + " ve nafaka davası"
  {
    assert "T" + "araflar arasındaki " == "Taraflar arasındaki ";
    assert "Taraflar arasındaki " + "boşanma" == "Taraflar arasındaki boşanma";
    assert "Taraflar arasındaki boşanma" + " ve nafaka davası"
        == "Taraflar arasındaki boşanma ve nafaka davası";
  }

  lemma ExampleNoCapitals()
    ensures forall i :: 0 <= i < |"araflar arasındaki "| ==> !IsCapital("araflar arasındaki "[i])
    ensures forall i :: 0 <= i < |"boşanma"| ==> !IsCapital("boşanma"[i])
    ensures forall i :: 0 <= i < |" ve nafaka davası"| ==> !IsCapital(" ve nafaka davası"[i])
  {
  }

  lemma VelayetNoCapitals()
    ensures forall i :: 0 <= i < |"velayet"| ==> !IsCapital("velayet"[i])
  {
  }

  lemma ExampleNoY()
    ensures 'y' !in "t" + "araflar arasındaki " + "boşanma" + " ve nafaka davası"
  {
  }

  // ---------------------------------------------------------------------------
  // Benefit score
  // ---------------------------------------------------------------------------

  /** `sum(1 for t in terms if t in text)`. */
  function TermCount(text: string, terms: seq<string>): (n: nat)
    ensures n <= |terms|
  {
    if terms == [] then 0
    else TermCount(text, terms[..|terms| - 1]) + (if Contains(text, Last(terms)) then 1 else 0)
  }

  /** Some listed court term occurs in the lowered court text. */
  predicate AnyHierarchyTerm(courtLower: string) {
    exists t :: t in CourtHierarchy && Contains(courtLower, t)
  }

  /** The bonus chosen once a listed court term has been found: it depends on
      the whole court text, not on which term was found. */
  function TierBonus(courtLower: string): real {
    if Contains(courtLower, "genel kurul") || Contains(courtLower, "anayasa") then 0.3
    else if Contains(courtLower, "yargıtay") || Contains(courtLower, "danıştay") then 0.2
    else 0.0
  }

  function HierarchyBonus(courtLower: string): (r: real)
    ensures r == 0.0 || r == 0.2 || r == 0.3
  {
    if AnyHierarchyTerm(courtLower) then TierBonus(courtLower) else 0.0
  }

  /** The recency bonus looks at the court text as stored, not lowered. */
  function RecencyBonus(courtInfo: string): real {
    if Contains(courtInfo, "2023") || Contains(courtInfo, "2024") then 0.1 else 0.0
  }

  /** The uncapped sum of the four parts. */
  function BenefitSum(decisionText: string, courtInfo: string): (r: real)
    ensures r >= 0.0
  {
    var textLower := Lower(decisionText);
    0.0 + (TermCount(textLower, PositiveOutcomes) as real) * 0.1
        + (TermCount(textLower, LegalPrinciples) as real) * 0.05
        + HierarchyBonus(Lower(courtInfo))
        + RecencyBonus(courtInfo)
  }

  /** The benefit score: the sum capped at 1.0, never negative. */
  function BenefitScore(decisionText: string, courtInfo: string): (b: real)
    ensures 0.0 <= b <= 1.0
    ensures b == 1.0 || b == BenefitSum(decisionText, courtInfo)
    ensures b <= BenefitSum(decisionText, courtInfo)
  {
    var raw := BenefitSum(decisionText, courtInfo);
    if raw < 1.0 then raw else 1.0
  }

  /** The accumulation of the retriever's benefit scorer, with the loop over
      the court terms that stops at the first one found. */
  method CalculateBenefitScore(decisionText: string, courtInfo: string) returns (score: real)
    ensures score == BenefitScore(decisionText, courtInfo)
  {
    var textLower := Lower(decisionText);
    var courtLower := if courtInfo != [] then Lower(courtInfo) else "";
    assert courtLower == Lower(courtInfo);
    var benefit := 0.0;
    var positiveCount := TermCount(textLower, PositiveOutcomes);
    benefit := benefit + (positiveCount as real) * 0.1;
    var principleCount := TermCount(textLower, LegalPrinciples);
    benefit := benefit + (principleCount as real) * 0.05;
    ghost var base := benefit;
    var i := 0;
    while i < |CourtHierarchy|
      invariant 0 <= i <= |CourtHierarchy|
      invariant forall j :: 0 <= j < i ==> !Contains(courtLower, CourtHierarchy[j])
      invariant benefit == base
    {
      if Contains(courtLower, CourtHierarchy[i]) {
        if Contains(courtLower, "genel kurul") || Contains(courtLower, "anayasa") {
          benefit := benefit + 0.3;
        } else if Contains(courtLower, "yargıtay") || Contains(courtLower, "danıştay") {
          benefit := benefit + 0.2;
        }
        break;
      }
      i := i + 1;
    }
    assert benefit == base + HierarchyBonus(courtLower) by {
      if i == |CourtHierarchy| {
        forall t | t in CourtHierarchy ensures !Contains(courtLower, t) {
          var j :| 0 <= j < |CourtHierarchy| && CourtHierarchy[j] == t;
        }
      } else {
        assert CourtHierarchy[i] in CourtHierarchy;
      }
    }
    if Contains(courtInfo, "2023") || Contains(courtInfo, "2024") {
      benefit := benefit + 0.1;
    }
    score := if benefit < 1.0 then benefit else 1.0;
  }

  lemma ContainsGenelKurul()
    ensures Contains("büyük genel kurul", "genel kurul")
    ensures Contains("hukuk genel kurul", "genel kurul")
    ensures Contains("ceza genel kurul", "genel kurul")
    ensures Contains("anayasa mahkemesi", "anayasa")
  {
    assert OccursAt("büyük genel kurul", "genel kurul", 6);
    assert OccursAt("hukuk genel kurul", "genel kurul", 6);
    assert OccursAt("ceza genel kurul", "genel kurul", 5);
    assert OccursAt("anayasa mahkemesi", "anayasa", 0);
  }

  /** The seven court terms reduce to four: the three assembly names all
      contain "genel kurul". */
  lemma AnyHierarchyTermIff(cl: string)
    ensures AnyHierarchyTerm(cl) <==>
      Contains(cl, "yargıtay") || Contains(cl, "danıştay")
      || Contains(cl, "anayasa mahkemesi") || Contains(cl, "genel kurul")
  {
    ContainsGenelKurul();
    if Contains(cl, "büyük genel kurul") { ContainsTrans(cl, "büyük genel kurul", "genel kurul"); }
    if Contains(cl, "hukuk genel kurul") { ContainsTrans(cl, "hukuk genel kurul", "genel kurul"); }
    if Contains(cl, "ceza genel kurul") { ContainsTrans(cl, "ceza genel kurul", "genel kurul"); }
    if Contains(cl, "yargıtay") { assert CourtHierarchy[0] == "yargıtay"; }
    if Contains(cl, "danıştay") { assert CourtHierarchy[1] == "danıştay"; }
    if Contains(cl, "anayasa mahkemesi") { assert CourtHierarchy[2] == "anayasa mahkemesi"; }
    if Contains(cl, "genel kurul") { assert CourtHierarchy[3] == "genel kurul"; }
  }

  /** The hierarchy bonus, case by case: 0.3 for an assembly or the
      constitutional court (or "anayasa" beside a top court), 0.2 for a top
      court alone, and nothing otherwise. Whenever a listed term is found the
      bonus is positive, so the source's "no bonus" inner branch never runs;
      and a court text that says "anayasa" without any listed term gets no bonus. */
  lemma HierarchyBonusCases(cl: string)
    ensures HierarchyBonus(cl) == 0.3 <==>
      Contains(cl, "genel kurul") || Contains(cl, "anayasa mahkemesi")
      || (Contains(cl, "anayasa") && (Contains(cl, "yargıtay") || Contains(cl, "danıştay")))
    ensures HierarchyBonus(cl) == 0.2 <==>
      !Contains(cl, "genel kurul") && !Contains(cl, "anayasa")
      && (Contains(cl, "yargıtay") || Contains(cl, "danıştay"))
    ensures HierarchyBonus(cl) == 0.0 <==> !AnyHierarchyTerm(cl)
    ensures AnyHierarchyTerm(cl) ==> TierBonus(cl) > 0.0
  {
    AnyHierarchyTermIff(cl);
    ContainsGenelKurul();
    if Contains(cl, "anayasa mahkemesi") {
      ContainsTrans(cl, "anayasa mahkemesi", "anayasa");
    }
  }

  /** A court text naming the General Assembly of the Court of Cassation, with
      no cue words in the decision text, scores exactly 0.3. */
  lemma BenefitScoreGeneralAssembly(decisionText: string)
    requires forall t :: t in PositiveOutcomes ==> !Contains(Lower(decisionText), t)
    requires forall t :: t in LegalPrinciples ==> !Contains(Lower(decisionText), t)
    ensures BenefitScore(decisionText, "Yargıtay Hukuk Genel Kurulu") == 0.3
  {
    var court := "Yargıtay Hukuk Genel Kurulu";
    var cl := AssemblyLowered();
    HierarchyBonusCases(cl);
    AssemblyNoYear();
    BenefitScoreBonusOnly(decisionText, court, 0.3);
  }

  lemma AssemblyNoYear()
    ensures !Contains("Yargıtay Hukuk Genel Kurulu", "2023")
    ensures !Contains("Yargıtay Hukuk Genel Kurulu", "2024")
  {
    AssemblyJoined();
    MissingChar("Yargıtay Hukuk Genel Kurulu", "2023", '2');
    MissingChar("Yargıtay Hukuk Genel Kurulu", "2024", '2');
  }

  /** With no cue words in the decision text and no recent year in the court
      text, the score is the hierarchy bonus. */
  lemma BenefitScoreBonusOnly(decisionText: string, courtInfo: string, bonus: real)
    requires forall t :: t in PositiveOutcomes ==> !Contains(Lower(decisionText), t)
    requires forall t :: t in LegalPrinciples ==> !Contains(Lower(decisionText), t)
    requires !Contains(courtInfo, "2023") && !Contains(courtInfo, "2024")
    requires HierarchyBonus(Lower(courtInfo)) == bonus && bonus < 1.0
    ensures BenefitScore(decisionText, courtInfo) == bonus
  {
    TermCountNone(Lower(decisionText), PositiveOutcomes);
    TermCountNone(Lower(decisionText), LegalPrinciples);
  }

  lemma AssemblyLowered() returns (cl: string)
    ensures Lower("Yargıtay Hukuk Genel Kurulu") == cl
    ensures Contains(cl, "genel kurul") && Contains(cl, "yargıtay")
  {
    var w1, w2, w3, w4 := "Yargıtay ", "Hukuk ", "Genel ", "Kurulu";
    AssemblyWords();
    AssemblyNoCapitals();
    LowerInitialCapital('Y', w1[1..]);
    LowerInitialCapital('H', w2[1..]);
    LowerInitialCapital('G', w3[1..]);
    LowerInitialCapital('K', w4[1..]);
    LowerConcat(w1 + w2 + w3, w4);
    LowerConcat(w1 + w2, w3);
    LowerConcat(w1, w2);
    cl := "yargıtay " + "hukuk " + "genel " + "kurulu";
    AssemblyJoined();
    ContainsMiddle("yargıtay hukuk ", "genel kurul", "u");
    ContainsMiddle("", "yargıtay", " hukuk genel kurulu");
  }

  /** The words of "Yargıtay Hukuk Genel Kurulu", each a capital and a tail. */
  lemma AssemblyWords()
    ensures "Yargıtay Hukuk Genel Kurulu" == "Yargıtay " + "Hukuk " + "Genel " + "Kurulu"
    ensures "Yargıtay " == ['Y'] + "Yargıtay "[1..] && "yargıtay " == LowerChar('Y') + "Yargıtay "[1..]
    ensures "Hukuk " == ['H'] + "Hukuk "[1..] && "hukuk " == LowerChar('H') + "Hukuk "[1..]
    ensures "Genel " == ['G'] + "Genel "[1..] && "genel " == LowerChar('G') + "Genel "[1..]
    ensures "Kurulu" == ['K'] + "Kurulu"[1..] && "kurulu" == LowerChar('K') + "Kurulu"[1..]
  {
  }

  lemma AssemblyNoCapitals()
    ensures forall i :: 0 <= i < |"Yargıtay "[1..]| ==> !IsCapital("Yargıtay "[1..][i])
    ensures forall i :: 0 <= i < |"Hukuk "[1..]| ==> !IsCapital("Hukuk "[1..][i])
    ensures forall i :: 0 <= i < |"Genel "[1..]| ==> !IsCapital("Genel "[1..][i])
    ensures forall i :: 0 <= i < |"Kurulu"[1..]| ==> !IsCapital("Kurulu"[1..][i])
  {
  }

  lemma AssemblyJoined()
    ensures "yargıtay " + "hukuk " + "genel " + "kurulu" == "yargıtay hukuk " + "genel kurul" + "u"
    ensures "yargıtay " + "hukuk " + "genel " + "kurulu" == "" + "yargıtay" + " hukuk genel kurulu"
    ensures '2' !in "Yargıtay Hukuk Genel Kurulu"
  {
  }

  /** The count is zero exactly when none of the terms occurs. */
  lemma {:induction false} TermCountNone(text: string, terms: seq<string>)
    ensures TermCount(text, terms) == 0 <==> forall t :: t in terms ==> !Contains(text, t)
  {
    if terms != [] {
      var init, t0 := terms[..|terms| - 1], Last(terms);
      TermCountNone(text, init);
      assert terms == init + [t0];
      assert TermCount(text, terms) == TermCount(text, init) + (if Contains(text, t0) then 1 else 0);
      if forall t :: t in terms ==> !Contains(text, t) {
        assert t0 in terms;
        assert forall t :: t in init ==> t in terms;
      } else {
        var t :| t in terms && Contains(text, t);
        if t != t0 {
          assert t in init;
        }
      }
    }
  }

}
