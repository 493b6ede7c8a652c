/** Reading the language model's replies about a case description: the search
    keywords (with the three-tier fallback taken from the description itself)
    and the case intent (case type, main topic, search terms). A reply is a
    plain text; the empty text stands for a failed model call. */
module QueryAnalysis {
  import opened Common
  import opened Text

  const KeywordsMarker: string := "KEYWORDS:"

  /** First fallback tier: legal terms looked for inside the lowered description. */
  const LegalTerms: seq<string> := [
    "nafaka", "boşanma", "velayet", "tazminat", "aile", "evlilik", "eş",
    "kasten", "öldürme", "yaralama", "meşru müdafaa", "ceza", "hapis",
    "iş kazası", "işveren", "güvenlik", "sorumluluk", "borç", "alacak",
    "sözleşme", "miras", "taşınmaz", "mülkiyet", "hırsızlık", "dolandırıcılık"]

  /** Second fallback tier. */
  const ImportantWords: seq<string> := [
    "nafaka", "boşanma", "dava", "karar", "emsal", "miktar", "konu"]

  /** Words the third tier never picks. */
  const CommonWords: seq<string> := [
    "ve", "ile", "için", "konusunda", "arasında", "hakkında", "davası", "karar",
    "emsal", "arıyorum", "bul", "istiyorum"]

  // ---------------------------------------------------------------------------
  // Keywords
  // ---------------------------------------------------------------------------

  /** The text after the first marker, up to a second marker if there is one. */
  function MarkedSegment(reply: string): string
    requires Contains(reply, KeywordsMarker)
  {
    SplitAtLeastTwo(reply, KeywordsMarker);
    SplitOn(reply, KeywordsMarker)[1]
  }

  /** The comma-separated list after the marker, each item stripped; `None`
      when the reply has no marker. */
  function ParseKeywordsReply(reply: string): (r: Option<seq<string>>)
    ensures r.Some? <==> Contains(reply, KeywordsMarker)
    ensures r.Some? ==> r.value != []
  {
    if Contains(reply, KeywordsMarker) then
      Some(MapSeq(SplitOn(Strip(MarkedSegment(reply)), ","), Strip))
    else None
  }

  /** Each parsed keyword is stripped and free of commas. */
  lemma ParsedKeywordsClean(reply: string)
    requires Contains(reply, KeywordsMarker)
    ensures forall k :: k in ParseKeywordsReply(reply).value ==>
      ',' !in k && (k == [] || (!IsSpace(k[0]) && !IsSpace(k[|k| - 1])))
  {
    var parts := SplitOn(Strip(MarkedSegment(reply)), ",");
    assert ParseKeywordsReply(reply).value == MapSeq(parts, Strip);
    SplitPiecesFree(Strip(MarkedSegment(reply)), ",");
    StrippedPiecesClean(parts);
  }

  lemma StrippedPiecesClean(parts: seq<string>)
    requires forall p :: p in parts ==> !Contains(p, ",")
    ensures forall k :: k in MapSeq(parts, Strip) ==>
      ',' !in k && (k == [] || (!IsSpace(k[0]) && !IsSpace(k[|k| - 1])))
  {
    var kws := MapSeq(parts, Strip);
    forall i | 0 <= i < |parts| ensures ',' !in kws[i] {
      assert parts[i] in parts;
      PieceClean(parts[i]);
    }
  }

  lemma PieceClean(p: string)
    requires !Contains(p, ",")
    ensures ',' !in Strip(p)
  {
    ContainsChar(p, ',');
    StripSubset(p);
  }

  /** The keywords joined again by commas keep exactly the non-white-space
      characters of the marked segment, and that segment holds no further
      marker. */
  lemma ParsedKeywordsRejoin(reply: string)
    requires Contains(reply, KeywordsMarker)
    ensures NonSpace(Join(ParseKeywordsReply(reply).value, ",")) == NonSpace(MarkedSegment(reply))
    ensures !Contains(MarkedSegment(reply), KeywordsMarker)
  {
    var seg := MarkedSegment(reply);
    var parts := SplitOn(Strip(seg), ",");
    assert ParseKeywordsReply(reply).value == MapSeq(parts, Strip);
    NonSpaceJoinStrip(parts, ",");
    SplitJoin(Strip(seg), ",");
    SplitPiecesFree(reply, KeywordsMarker);
    assert SplitOn(reply, KeywordsMarker)[1] in SplitOn(reply, KeywordsMarker);
  }

  /** Tier one: the legal terms found in the lowered description, in list order. */
  function LegalTermTier(query: string): seq<string> {
    Filter(LegalTerms, t => Contains(Lower(query), t))
  }

  /** Tier two: the important words found in the lowered description. */
  function ImportantWordTier(query: string): seq<string> {
    Filter(ImportantWords, w => Contains(Lower(query), w))
  }

  predicate LongUncommon(w: string) {
    w !in CommonWords && |w| > 3
  }

  /** Tier three: the first five words of the lowered description that are
      longer than three characters and not common words. */
  function WordTier(query: string): seq<string> {
    Take(Filter(SplitWhitespace(Lower(query)), LongUncommon), 5)
  }

  function FallbackKeywords(query: string): seq<string> {
    if LegalTermTier(query) != [] then LegalTermTier(query)
    else if ImportantWordTier(query) != [] then ImportantWordTier(query)
    else WordTier(query)
  }

  /** The keywords for a description given the model's reply: the parsed
      list if it is non-empty, else the fallback. */
  function ExtractKeywords(query: string, reply: string): seq<string> {
    var parsed := ParseKeywordsReply(reply).GetOr([]);
    if parsed != [] then parsed else FallbackKeywords(query)
  }

  lemma FilterEmpty<T>(s: seq<T>, p: T -> bool)
    ensures Filter(s, p) == [] <==> forall x :: x in s ==> !p(x)
  {
    if exists x :: x in s && p(x) {
      var x :| x in s && p(x);
      FilterComplete(s, p, x);
    }
  }

  /** A reply with the marker decides the keywords; without it (a failed
      call included) the description's fallback does. */
  lemma ExtractKeywordsSource(query: string, reply: string)
    ensures Contains(reply, KeywordsMarker) ==>
      ExtractKeywords(query, reply) == ParseKeywordsReply(reply).value
    ensures !Contains(reply, KeywordsMarker) ==>
      ExtractKeywords(query, reply) == FallbackKeywords(query)
  {
  }

  /** Tier one holds exactly the listed legal terms that occur in the lowered
      description, and tier two likewise for the important words. */
  lemma TierMembership(query: string, t: string)
    ensures t in LegalTermTier(query) <==> t in LegalTerms && Contains(Lower(query), t)
    ensures t in ImportantWordTier(query) <==> t in ImportantWords && Contains(Lower(query), t)
  {
    if t in LegalTerms && Contains(Lower(query), t) {
      FilterComplete(LegalTerms, t => Contains(Lower(query), t), t);
    }
    if t in ImportantWords && Contains(Lower(query), t) {
      FilterComplete(ImportantWords, w => Contains(Lower(query), w), t);
    }
  }

  /** Tier three keeps at most five words, each a whole white-space separated
      word of the lowered description, longer than three characters and not a
      common word, in their order of appearance. */
  lemma WordTierShape(query: string)
    ensures |WordTier(query)| <= 5
    ensures forall w :: w in WordTier(query) ==>
      w in SplitWhitespace(Lower(query)) && w != [] && NoSpace(w) && |w| > 3 && w !in CommonWords
    ensures WordTier(query) == Filter(SplitWhitespace(Lower(query)), LongUncommon)[..|WordTier(query)|]
  {
    var f := Filter(SplitWhitespace(Lower(query)), LongUncommon);
    assert forall w :: w in WordTier(query) ==> w in f;
  }

  /** The keywords come out empty exactly when the reply has no marker and
      the description offers nothing to any of the three tiers. */
  lemma ExtractKeywordsEmpty(query: string, reply: string)
    ensures ExtractKeywords(query, reply) == [] <==>
      && !Contains(reply, KeywordsMarker)
      && (forall t :: t in LegalTerms ==> !Contains(Lower(query), t))
      && (forall w :: w in ImportantWords ==> !Contains(Lower(query), w))
      && (forall w :: w in SplitWhitespace(Lower(query)) ==> !LongUncommon(w))
  {
    FilterEmpty(LegalTerms, t => Contains(Lower(query), t));
    FilterEmpty(ImportantWords, w => Contains(Lower(query), w));
    FilterEmpty(SplitWhitespace(Lower(query)), LongUncommon);
  }

  /** "nafaka" and "boşanma" head the second tier but are legal terms too, so
      the second tier only ever yields "dava", "karar", "emsal", "miktar" or "konu". */
  lemma ImportantWordTierReach(query: string)
    requires LegalTermTier(query) == []
    ensures forall w :: w in ImportantWordTier(query) ==>
      w in ["dava", "karar", "emsal", "miktar", "konu"]
  {
    TierMembership(query, "nafaka");
    TierMembership(query, "boşanma");
    LegalTermsHead();
    forall w | w in ImportantWordTier(query) ensures w in ["dava", "karar", "emsal", "miktar", "konu"] {
      TierMembership(query, w);
      ImportantWordsTail(w);
    }
  }

  lemma LegalTermsHead()
    ensures "nafaka" in LegalTerms && "boşanma" in LegalTerms
  {
    assert LegalTerms[0] == "nafaka" && LegalTerms[1] == "boşanma";
  }

  lemma ImportantWordsTail(w: string)
    requires w in ImportantWords && w != "nafaka" && w != "boşanma"
    ensures w in ["dava", "karar", "emsal", "miktar", "konu"]
  {
    assert ImportantWords == ["nafaka", "boşanma"] + ["dava", "karar", "emsal", "miktar", "konu"];
  }

  // ---------------------------------------------------------------------------
  // Case intent
  // ---------------------------------------------------------------------------

  datatype Intent = Intent(caseType: string, mainTopic: string, searchTerms: seq<string>, isCriminal: bool)

  const DefaultIntent: Intent := Intent("Genel", "", [], false)

  const CaseTypeMarker: string := "Dava türü:"
  const TopicMarker: string := "Ana konu:"
  const TermsMarker: string := "Arama terimleri:"

  /** Every marker holds a colon, so a line with a marker splits on ':' into
      at least two pieces. */
  lemma MarkerColon(line: string, marker: string)
    requires marker in [CaseTypeMarker, TopicMarker, TermsMarker]
    requires Contains(line, marker)
    ensures Contains(line, ":")
  {
    var k := |marker| - 1;
    assert marker[k..k + 1] == ":";
    assert OccursAt(marker, ":", k);
    ContainsTrans(line, marker, ":");
  }

  /** The stripped text between the line's first and second colon. */
  function Field(line: string): string
    requires Contains(line, ":")
  {
    SplitAtLeastTwo(line, ":");
    Strip(SplitOn(line, ":")[1])
  }

  /** One line of the reply: the first marker it holds decides the field it sets. */
  function ApplyLine(intent: Intent, line: string): Intent {
    if Contains(line, CaseTypeMarker) then
      MarkerColon(line, CaseTypeMarker);
      var ct := Field(line);
      intent.(caseType := ct, isCriminal := Contains(ct, "Ceza"))
    else if Contains(line, TopicMarker) then
      MarkerColon(line, TopicMarker);
      intent.(mainTopic := Field(line))
    else if Contains(line, TermsMarker) then
      MarkerColon(line, TermsMarker);
      intent.(searchTerms := MapSeq(SplitOn(Field(line), ","), Strip))
    else intent
  }

  /** The intent after reading the lines in order from the defaults. */
  function ParseIntentLines(lines: seq<string>): Intent {
    if lines == [] then DefaultIntent
    else ApplyLine(ParseIntentLines(lines[..|lines| - 1]), Last(lines))
  }

  function ParseIntent(reply: string): Intent {
    ParseIntentLines(SplitOn(reply, "\n"))
  }

  /** The criminal flag always says whether the case type mentions "Ceza". */
  lemma {:induction false} CriminalFlag(lines: seq<string>)
    ensures ParseIntentLines(lines).isCriminal == Contains(ParseIntentLines(lines).caseType, "Ceza")
  {
    if lines == [] {
      MissingChar("Genel", "Ceza", 'C');
    } else {
      CriminalFlag(lines[..|lines| - 1]);
    }
  }

  /** A failed call (the empty reply) leaves every default in place. */
  lemma EmptyReplyIntent()
    ensures ParseIntent("") == DefaultIntent
  {
    SplitNoSep("", "\n");
    EmptyContainsOnlyEmpty(CaseTypeMarker);
    EmptyContainsOnlyEmpty(TopicMarker);
    EmptyContainsOnlyEmpty(TermsMarker);
    assert [""][..0] == [];
  }

  /** The case type comes from the last line holding "Dava türü:". */
  lemma {:induction false} CaseTypeFromLastLine(lines: seq<string>, i: nat)
    requires i < |lines| && Contains(lines[i], CaseTypeMarker)
    requires forall j :: i < j < |lines| ==> !Contains(lines[j], CaseTypeMarker)
    ensures Contains(lines[i], ":")
    ensures ParseIntentLines(lines).caseType == Field(lines[i])
    decreases |lines|
  {
    MarkerColon(lines[i], CaseTypeMarker);
    var init := lines[..|lines| - 1];
    var last := Last(lines);
    assert ParseIntentLines(lines) == ApplyLine(ParseIntentLines(init), last);
    if i < |lines| - 1 {
      assert init[i] == lines[i];
      CaseTypeFromLastLine(init, i);
      ApplyLineFields(ParseIntentLines(init), last);
    } else {
      ApplyLineFields(ParseIntentLines(init), last);
    }
  }

  /** What a single line changes, field by field. */
  lemma ApplyLineFields(intent: Intent, line: string)
    ensures Contains(line, CaseTypeMarker) ==>
      (Contains(line, ":") && ApplyLine(intent, line).caseType == Field(line)
       && ApplyLine(intent, line).mainTopic == intent.mainTopic)
    ensures !Contains(line, CaseTypeMarker) ==>
      ApplyLine(intent, line).caseType == intent.caseType
    ensures !Contains(line, CaseTypeMarker) && Contains(line, TopicMarker) ==>
      Contains(line, ":") && ApplyLine(intent, line).mainTopic == Field(line)
    ensures (!Contains(line, TopicMarker) || Contains(line, CaseTypeMarker)) ==>
      ApplyLine(intent, line).mainTopic == intent.mainTopic
  {
    if Contains(line, CaseTypeMarker) {
      MarkerColon(line, CaseTypeMarker);
    } else if Contains(line, TopicMarker) {
      MarkerColon(line, TopicMarker);
    }
  }

  /** Without a "Dava türü:" line the case type stays "Genel" and the case is
      not criminal. */
  lemma {:induction false} NoCaseTypeLine(lines: seq<string>)
    requires forall j :: 0 <= j < |lines| ==> !Contains(lines[j], CaseTypeMarker)
    ensures ParseIntentLines(lines).caseType == "Genel"
    ensures !ParseIntentLines(lines).isCriminal
  {
    if lines != [] {
      NoCaseTypeLine(lines[..|lines| - 1]);
    }
    CriminalFlag(lines);
    MissingChar("Genel", "Ceza", 'C');
  }

  /** The main topic comes from the last line holding "Ana konu:" but not
      "Dava türü:": a line with both markers sets the case type only. */
  lemma {:induction false} TopicFromLastLine(lines: seq<string>, i: nat)
    requires i < |lines| && Contains(lines[i], TopicMarker) && !Contains(lines[i], CaseTypeMarker)
    requires forall j :: i < j < |lines| ==>
      !Contains(lines[j], TopicMarker) || Contains(lines[j], CaseTypeMarker)
    ensures Contains(lines[i], ":")
    ensures ParseIntentLines(lines).mainTopic == Field(lines[i])
    decreases |lines|
  {
    MarkerColon(lines[i], TopicMarker);
    var init := lines[..|lines| - 1];
    var last := Last(lines);
    assert ParseIntentLines(lines) == ApplyLine(ParseIntentLines(init), last);
    if i < |lines| - 1 {
      assert init[i] == lines[i];
      TopicFromLastLine(init, i);
      ApplyLineFields(ParseIntentLines(init), last);
    } else {
      ApplyLineFields(ParseIntentLines(init), last);
    }
  }
}
