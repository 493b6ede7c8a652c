/** The explanation given with the best three decisions: the model's own text
    when the call succeeds, and otherwise a fixed-form summary built from the
    three candidates' scores. */
module Explanation {
  import opened Common
  import opened Text
  import opened Ranking

  const Insufficient: string := "Yeterli emsal karar bulunamadı."

  const Header: string := "**En İyi 3 Emsal Kararın Değerlendirmesi:**\n\n"

  const Closing: string :=
    "**Genel Değerlendirme:** Bu kararlar, sorunuzla ilgili en uygun ve faydalı hukuki emsalleri içermektedir."

  /** Round half to even of a non-negative real. */
  function RoundHalfEven(x: real): (n: nat)
    requires x >= 0.0
    ensures n as real - 0.5 <= x <= n as real + 0.5
    ensures x - x.Floor as real == 0.5 ==> n % 2 == 0
  {
    var f := x.Floor;
    var frac := x - f as real;
    if frac > 0.5 || (frac == 0.5 && f % 2 == 1) then f + 1 else f
  }

  /** Python's `format(x, ".1%")`: a hundred times `x` with one decimal,
      ties to even, then a percent sign. */
  function Percent1(x: real): (r: string)
    ensures r != [] && Last(r) == '%'
  {
    if x < 0.0 then "-" + PercentDigits(RoundHalfEven(-x * 1000.0))
    else PercentDigits(RoundHalfEven(x * 1000.0))
  }

  /** Tenths of a percent rendered as "I.D%". */
  function PercentDigits(tenths: nat): (r: string)
    ensures r != [] && Last(r) == '%'
  {
    NatToString(tenths / 10) + "." + [DigitChar(tenths % 10)] + "%"
  }

  /** A text of the form "I.D%": decimal digits, a point, one digit and a
      percent sign. */
  predicate PercentForm(r: string) {
    && |r| >= 4 && r[|r| - 3] == '.' && '0' <= r[|r| - 2] <= '9' && r[|r| - 1] == '%'
    && forall i :: 0 <= i < |r| - 3 ==> '0' <= r[i] <= '9'
  }

  /** The tenths of a percent that an "I.D%" text denotes. */
  function ReadTenths(r: string): nat
    requires PercentForm(r)
  {
    DecimalValue(r[..|r| - 3]) * 10 + (r[|r| - 2] as int - '0' as int)
  }

  /** Reading the rendered tenths back gives the number, and the integer
      part has no leading zero. */
  lemma PercentDigitsRoundTrip(tenths: nat)
    ensures PercentForm(PercentDigits(tenths))
    ensures ReadTenths(PercentDigits(tenths)) == tenths
    ensures PercentDigits(tenths)[0] != '0' || tenths < 10
  {
    var ip := NatToString(tenths / 10);
    NatToStringRoundTrip(tenths / 10);
    var r := PercentDigits(tenths);
    assert r == ip + [r[|r| - 3], r[|r| - 2], '%'];
    assert r[..|r| - 3] == ip;
  }

  /** The text of a non-negative score reads back as the nearest tenth of a
      percent (ties to even), which is within 0.05 of a hundred times the score. */
  lemma Percent1Reads(x: real)
    requires x >= 0.0
    ensures PercentForm(Percent1(x))
    ensures ReadTenths(Percent1(x)) == RoundHalfEven(x * 1000.0)
    ensures var t := ReadTenths(Percent1(x));
      (t as real) / 10.0 - 0.05 <= x * 100.0 <= (t as real) / 10.0 + 0.05
  {
    PercentDigitsRoundTrip(RoundHalfEven(x * 1000.0));
  }

  /** A negative value prints as "-" followed by the text of its magnitude. */
  lemma Percent1Negative(x: real)
    requires x < 0.0
    ensures Percent1(x)[0] == '-' && Percent1(x)[1..] == Percent1(-x)
  {
  }

  lemma Percent1Examples()
    ensures Percent1(0.5) == "50.0%"
    ensures Percent1(0.0625) == "6.2%"
    ensures Percent1(0.0875) == "8.8%"
  {
    assert RoundHalfEven(500.0) == 500;
    assert RoundHalfEven(62.5) == 62;
    assert RoundHalfEven(87.5) == 88;
    assert NatToString(50) == "50" by {
      assert NatToString(5) == "5";
    }
    assert NatToString(6) == "6";
    assert NatToString(8) == "8";
  }

  /** The numbered title line of a block: court name, then file and decision numbers. */
  function TitleLine(i: nat, c: Candidate): string {
    NatToString(i) + ". **" + c.daire + "** (" + c.esas + "/" + c.karar + "):\n"
  }

  /** The three scores of a block as percentages. */
  function ScoreLine(c: Candidate): string {
    "   - Benzerlik: " + Percent1(c.semanticScore) + " | Keyword: " + Percent1(c.keywordScore)
    + " | Fayda: " + Percent1(c.benefitScore) + "\n"
  }

  const PrincipleLine: string := "   - Bu karar, sorunuzla ilgili hukuki prensipleri içermektedir.\n"

  const UseLine: string := "   - Dilekçenizde emsal olarak kullanılabilir.\n\n"

  /** The block that presents the `i`-th candidate (counting from 1). */
  function Block(i: nat, c: Candidate): string {
    TitleLine(i, c) + ScoreLine(c) + PrincipleLine + UseLine
  }

  lemma AppendAssoc(a: string, b: string, c: string)
    ensures a + b + c == a + (b + c)
  {
  }

  /** The court name sits inside the title line. */
  lemma TitleLineNamesCourt(i: nat, c: Candidate)
    ensures Contains(TitleLine(i, c), c.daire)
  {
    var head := NatToString(i) + ". **";
    var tail := "** (" + c.esas + "/" + c.karar + "):\n";
    assert TitleLine(i, c) == head + c.daire + tail;
    ContainsMiddle(head, c.daire, tail);
  }

  lemma BlocksStep(rs: seq<Candidate>, i: nat)
    requires i < |rs|
    ensures Blocks(rs[..i + 1]) == Blocks(rs[..i]) + Block(i + 1, rs[i])
  {
    assert rs[..i + 1][..i] == rs[..i];
  }

  /** The numbered blocks of the candidates, in order. */
  function Blocks(rs: seq<Candidate>): string {
    if rs == [] then "" else Blocks(rs[..|rs| - 1]) + Block(|rs|, Last(rs))
  }

  /** The summary: the header, one numbered block per candidate, the closing. */
  function FallbackText(rs: seq<Candidate>): (r: string)
    ensures Header <= r && |Closing| <= |r| && r[|r| - |Closing|..] == Closing
  {
    Header + Blocks(rs) + Closing
  }

  /** The explanation for the best three: too few results get the fixed
      notice, a failed call (the empty reply) the summary, else the reply. */
  function Explain(top3: seq<Candidate>, reply: string): (r: string)
    ensures r != []
  {
    if |top3| < 3 then Insufficient
    else if reply == [] then FallbackText(top3)
    else reply
  }

  /** The summary built with `+=`, one block per candidate, line by line. */
  method FallbackExplanation(rs: seq<Candidate>) returns (explanation: string)
    ensures explanation == FallbackText(rs)
  {
    explanation := Header;
    for i := 0 to |rs|
      invariant explanation == Header + Blocks(rs[..i])
    {
      var c := rs[i];
      ghost var before := explanation;
      explanation := explanation + TitleLine(i + 1, c);
      explanation := explanation + ScoreLine(c);
      AppendAssoc(before, TitleLine(i + 1, c), ScoreLine(c));
      explanation := explanation + PrincipleLine;
      AppendAssoc(before, TitleLine(i + 1, c) + ScoreLine(c), PrincipleLine);
      explanation := explanation + UseLine;
      AppendAssoc(before, TitleLine(i + 1, c) + ScoreLine(c) + PrincipleLine, UseLine);
      BlocksStep(rs, i);
      AppendAssoc(Header, Blocks(rs[..i]), Block(i + 1, c));
    }
    assert rs[..|rs|] == rs;
    explanation := explanation + Closing;
  }

  /** Choosing the explanation, with the summary built by the loop. */
  method ExplainTop3(top3: seq<Candidate>, reply: string) returns (explanation: string)
    ensures explanation == Explain(top3, reply)
  {
    if |top3| < 3 {
      return Insufficient;
    }
    explanation := reply;
    if explanation == [] {
      explanation := FallbackExplanation(top3);
    }
  }

  /** Fewer than three results always give the notice, whatever the reply;
      with three or more a non-empty reply is passed through unchanged. */
  lemma ExplainCases(top3: seq<Candidate>, reply: string)
    ensures |top3| < 3 ==> Explain(top3, reply) == Insufficient
    ensures |top3| >= 3 && reply != [] ==> Explain(top3, reply) == reply
    ensures |top3| >= 3 && reply == [] ==> Explain(top3, reply) == FallbackText(top3)
  {
  }

  /** The summary presents every candidate in its numbered block, court name included. */
  lemma {:induction false} BlocksPresentEach(rs: seq<Candidate>, i: nat)
    requires i < |rs|
    ensures Contains(Blocks(rs), Block(i + 1, rs[i]))
    decreases |rs|
  {
    var init := rs[..|rs| - 1];
    if i == |rs| - 1 {
      ContainsMiddle(Blocks(init), Block(|rs|, Last(rs)), "");
      assert Blocks(init) + Block(|rs|, Last(rs)) + "" == Blocks(rs);
    } else {
      assert init[i] == rs[i];
      BlocksPresentEach(init, i);
      ContainsExtend(Blocks(init), Block(|rs|, Last(rs)), Block(i + 1, rs[i]));
    }
  }

  lemma FallbackPresentsEach(rs: seq<Candidate>, i: nat)
    requires i < |rs|
    ensures Contains(FallbackText(rs), Block(i + 1, rs[i]))
    ensures Contains(FallbackText(rs), rs[i].daire)
  {
    var b := Block(i + 1, rs[i]);
    BlocksPresentEach(rs, i);
    ContainsExtend(Blocks(rs), Header, b);
    ContainsExtend(Header + Blocks(rs), Closing, b);
    TitleLineNamesCourt(i + 1, rs[i]);
    ContainsExtend(TitleLine(i + 1, rs[i]), ScoreLine(rs[i]), rs[i].daire);
    ContainsExtend(TitleLine(i + 1, rs[i]) + ScoreLine(rs[i]), PrincipleLine, rs[i].daire);
    ContainsExtend(TitleLine(i + 1, rs[i]) + ScoreLine(rs[i]) + PrincipleLine, UseLine, rs[i].daire);
    ContainsTrans(FallbackText(rs), b, rs[i].daire);
  }
}
