/** Building the index input: each decision text is cleaned and packed into
    chunks of bounded length, each decision is chunked once, and the chunks
    are encoded in batches so that the n-th vector belongs to the n-th
    metadata entry.

    The two regular-expression splits of the cleaned text (at the section
    headers, keeping the headers as pieces, and at runs of sentence
    punctuation) and the sentence encoder are parameters. */
module Embed {
  import opened Common
  import opened Text
  import opened Ranking

  /** The chunk length the packer aims at. */
  const MaxLen: nat := 2000

  /** Every run of white space replaced by one space. */
  function Collapse(s: string): (r: string)
    ensures |r| <= |s|
    ensures r == [] <==> s == []
    ensures s != [] && !IsSpace(s[0]) ==> r[0] == s[0]
    ensures s != [] && IsSpace(s[0]) ==> r[0] == ' '
    decreases |s|
  {
    if s == [] then []
    else if IsSpace(s[0]) then " " + Collapse(StripLeft(s[1..]))
    else [s[0]] + Collapse(s[1..])
  }

  /** Collapsing keeps every visible character, in order. */
  lemma {:induction false} CollapseNonSpace(s: string)
    ensures NonSpace(Collapse(s)) == NonSpace(s)
    decreases |s|
  {
    if s != [] {
      if IsSpace(s[0]) {
        var t := StripLeft(s[1..]);
        CollapseNonSpace(t);
        NonSpaceConcat(" ", Collapse(t));
        assert NonSpace(s) == NonSpace(s[1..]);
      } else {
        CollapseNonSpace(s[1..]);
        NonSpaceConcat([s[0]], Collapse(s[1..]));
      }
    }
  }

  /** The only white space left is single spaces. */
  predicate SingleSpaced(s: string) {
    forall i :: 0 <= i < |s| && IsSpace(s[i]) ==> s[i] == ' ' && (i + 1 < |s| ==> !IsSpace(s[i + 1]))
  }

  lemma {:induction false} CollapseSingleSpaced(s: string)
    ensures SingleSpaced(Collapse(s))
    decreases |s|
  {
    if s != [] {
      if IsSpace(s[0]) {
        var t := StripLeft(s[1..]);
        CollapseSingleSpaced(t);
        SingleSpacedCons(' ', Collapse(t));
      } else {
        CollapseSingleSpaced(s[1..]);
        SingleSpacedCons(s[0], Collapse(s[1..]));
      }
    }
  }

  lemma SingleSpacedCons(c: char, x: string)
    requires SingleSpaced(x)
    requires IsSpace(c) ==> c == ' ' && (x == [] || !IsSpace(x[0]))
    ensures SingleSpaced([c] + x)
  {
    var y := [c] + x;
    forall i | 0 <= i < |y| && IsSpace(y[i]) ensures y[i] == ' ' && (i + 1 < |y| ==> !IsSpace(y[i + 1])) {
      if i > 0 {
        assert y[i] == x[i - 1];
        if i + 1 < |y| {
          assert y[i + 1] == x[i];
        }
      }
    }
  }

  /** A single-spaced text stays single-spaced when cut to a slice. */
  lemma SingleSpacedSlice(s: string, a: nat, b: nat)
    requires a <= b <= |s| && SingleSpaced(s)
    ensures SingleSpaced(s[a..b])
  {
    var t := s[a..b];
    forall i | 0 <= i < |t| && IsSpace(t[i]) ensures t[i] == ' ' && (i + 1 < |t| ==> !IsSpace(t[i + 1])) {
      assert t[i] == s[a + i];
      if i + 1 < |t| {
        assert t[i + 1] == s[a + i + 1];
      }
    }
  }

  lemma SingleSpacedStrip(s: string)
    requires SingleSpaced(s)
    ensures SingleSpaced(Strip(s))
  {
    var l := StripLeft(s);
    SingleSpacedSlice(s, |s| - |l|, |s|);
    var r := StripRight(l);
    SingleSpacedSlice(l, 0, |r|);
    assert Strip(s) == r;
  }

  /** The text as the packer sees it: white space collapsed, then trimmed. */
  function CleanText(text: string): string {
    Strip(Collapse(text))
  }

  /** Cleaning keeps the visible characters, leaves no white space at either
      end and only single spaces inside. */
  lemma CleanTextFacts(text: string)
    ensures NonSpace(CleanText(text)) == NonSpace(text)
    ensures CleanText(text) == [] || Trimmed(CleanText(text))
    ensures SingleSpaced(CleanText(text))
  {
    var c := Collapse(text);
    assert CleanText(text) == Strip(c);
    StripTrimmed(c);
    calc {
      NonSpace(CleanText(text));
      NonSpace(Strip(c));
      NonSpace(c);
    == { CollapseNonSpace(text); }
      NonSpace(text);
    }
    assert SingleSpaced(CleanText(text)) by {
      CollapseSingleSpaced(text);
      SingleSpacedStrip(c);
    }
  }

  // ---------------------------------------------------------------------------
  // Greedy packing
  // ---------------------------------------------------------------------------

  /** The chunks emitted so far and the chunk being filled. */
  datatype Packing = Packing(chunks: seq<string>, current: string)

  /** Emitting the current chunk, trimmed, unless it is blank. */
  function Flush(chunks: seq<string>, current: string): seq<string> {
    if Strip(current) != [] then chunks + [Strip(current)] else chunks
  }

  /** One sentence: kept in the current chunk, followed by ". ", when the
      chunk and the sentence fit together, else the chunk is emitted and the
      sentence starts the next. */
  function SentenceStep(p: Packing, sentence: string, maxLen: nat): Packing {
    if |p.current + sentence| <= maxLen then Packing(p.chunks, p.current + sentence + ". ")
    else Packing(Flush(p.chunks, p.current), sentence + ". ")
  }

  /** One section piece (text or header), packed the same way without a separator. */
  function SectionStep(p: Packing, piece: string, maxLen: nat): Packing {
    if |p.current + piece| <= maxLen then Packing(p.chunks, p.current + piece)
    else Packing(Flush(p.chunks, p.current), piece)
  }

  function PackSentences(sentences: seq<string>, maxLen: nat): Packing {
    if sentences == [] then Packing([], "")
    else SentenceStep(PackSentences(sentences[..|sentences| - 1], maxLen), Last(sentences), maxLen)
  }

  function PackSections(pieces: seq<string>, maxLen: nat): Packing {
    if pieces == [] then Packing([], "")
    else SectionStep(PackSections(pieces[..|pieces| - 1], maxLen), Last(pieces), maxLen)
  }

  function SentenceChunks(sentences: seq<string>, maxLen: nat): seq<string> {
    var p := PackSentences(sentences, maxLen);
    Flush(p.chunks, p.current)
  }

  function SectionChunks(pieces: seq<string>, maxLen: nat): seq<string> {
    var p := PackSections(pieces, maxLen);
    Flush(p.chunks, p.current)
  }

  /** The chunks of a text: by sentences when the section split gives at
      most one piece, else by sections. */
  function ChunksOf(text: string, splitSections: string -> seq<string>,
                    splitSentences: string -> seq<string>, maxLen: nat): seq<string>
  {
    var cleaned := CleanText(text);
    var sections := splitSections(cleaned);
    if |sections| <= 1 then SentenceChunks(splitSentences(cleaned), maxLen)
    else SectionChunks(sections, maxLen)
  }

  /** The sentence loop of the chunker. */
  method PackSentenceChunks(sentences: seq<string>, maxLen: nat) returns (chunks: seq<string>)
    ensures chunks == SentenceChunks(sentences, maxLen)
  {
    chunks := [];
    var current := "";
    for i := 0 to |sentences|
      invariant Packing(chunks, current) == PackSentences(sentences[..i], maxLen)
    {
      assert sentences[..i + 1][..i] == sentences[..i];
      assert PackSentences(sentences[..i + 1], maxLen) == SentenceStep(PackSentences(sentences[..i], maxLen), sentences[i], maxLen);
      ghost var p := Packing(chunks, current);
      var sentence := sentences[i];
      if |current + sentence| <= maxLen {
        current := current + sentence + ". ";
      } else {
        if Strip(current) != [] {
          chunks := chunks + [Strip(current)];
        }
        assert chunks == Flush(p.chunks, p.current);
        current := sentence + ". ";
      }
      assert Packing(chunks, current) == SentenceStep(p, sentence, maxLen);
    }
    assert sentences[..|sentences|] == sentences;
    if Strip(current) != [] {
      chunks := chunks + [Strip(current)];
    }
  }

  /** The section loop of the chunker. The source treats text pieces and the
      header pieces between them in two branches that do the same. */
  method PackSectionChunks(pieces: seq<string>, maxLen: nat) returns (chunks: seq<string>)
    ensures chunks == SectionChunks(pieces, maxLen)
  {
    chunks := [];
    var current := "";
    for i := 0 to |pieces|
      invariant Packing(chunks, current) == PackSections(pieces[..i], maxLen)
    {
      assert pieces[..i + 1][..i] == pieces[..i];
      assert PackSections(pieces[..i + 1], maxLen) == SectionStep(PackSections(pieces[..i], maxLen), pieces[i], maxLen);
      ghost var p := Packing(chunks, current);
      var piece := pieces[i];
      if |current + piece| <= maxLen {
        current := current + piece;
      } else {
        if Strip(current) != [] {
          chunks := chunks + [Strip(current)];
        }
        assert chunks == Flush(p.chunks, p.current);
        current := piece;
      }
      assert Packing(chunks, current) == SectionStep(p, piece, maxLen);
    }
    assert pieces[..|pieces|] == pieces;
    if Strip(current) != [] {
      chunks := chunks + [Strip(current)];
    }
  }

  /** The chunker: the text cleaned and split, then packed greedily. */
  method Paragraphs(text: string, splitSections: string -> seq<string>,
                    splitSentences: string -> seq<string>, maxLen: nat)
    returns (chunks: seq<string>)
    ensures chunks == ChunksOf(text, splitSections, splitSentences, maxLen)
  {
    var cleaned := CleanText(text);
    var sections := splitSections(cleaned);
    if |sections| <= 1 {
      chunks := PackSentenceChunks(splitSentences(cleaned), maxLen);
    } else {
      chunks := PackSectionChunks(sections, maxLen);
    }
  }

  // ---------------------------------------------------------------------------
  // What the packer promises
  // ---------------------------------------------------------------------------

  lemma FlushTrimmed(chunks: seq<string>, current: string)
    requires forall c :: c in chunks ==> Trimmed(c)
    ensures forall c :: c in Flush(chunks, current) ==> Trimmed(c)
  {
    var last := Strip(current);
    if last != [] {
      assert Trimmed(last);
      assert Flush(chunks, current) == chunks + [last];
    }
  }

  lemma {:induction false} PackSentencesTrimmed(sentences: seq<string>, maxLen: nat)
    ensures forall c :: c in PackSentences(sentences, maxLen).chunks ==> Trimmed(c)
  {
    if sentences != [] {
      var p := PackSentences(sentences[..|sentences| - 1], maxLen);
      PackSentencesTrimmed(sentences[..|sentences| - 1], maxLen);
      FlushTrimmed(p.chunks, p.current);
    }
  }

  lemma {:induction false} PackSectionsTrimmed(pieces: seq<string>, maxLen: nat)
    ensures forall c :: c in PackSections(pieces, maxLen).chunks ==> Trimmed(c)
  {
    if pieces != [] {
      var p := PackSections(pieces[..|pieces| - 1], maxLen);
      PackSectionsTrimmed(pieces[..|pieces| - 1], maxLen);
      FlushTrimmed(p.chunks, p.current);
    }
  }

  /** Every chunk is non-empty and has no white space at either end. */
  lemma ChunksTrimmed(text: string, splitSections: string -> seq<string>,
                      splitSentences: string -> seq<string>, maxLen: nat)
    ensures forall c :: c in ChunksOf(text, splitSections, splitSentences, maxLen) ==> Trimmed(c)
  {
    var cleaned := CleanText(text);
    var sections := splitSections(cleaned);
    if |sections| <= 1 {
      var p := PackSentences(splitSentences(cleaned), maxLen);
      PackSentencesTrimmed(splitSentences(cleaned), maxLen);
      FlushTrimmed(p.chunks, p.current);
    } else {
      var p := PackSections(sections, maxLen);
      PackSectionsTrimmed(sections, maxLen);
      FlushTrimmed(p.chunks, p.current);
    }
  }

  /** The visible characters of the emitted chunks and the open chunk are
      those of the pieces consumed. */
  lemma {:induction false} PackSectionsLossless(pieces: seq<string>, maxLen: nat)
    ensures var p := PackSections(pieces, maxLen);
      NonSpace(Concat(p.chunks) + p.current) == NonSpace(Concat(pieces))
  {
    if pieces != [] {
      var init := pieces[..|pieces| - 1];
      var piece := Last(pieces);
      var p := PackSections(init, maxLen);
      PackSectionsLossless(init, maxLen);
      assert Concat(pieces) == Concat(init) + piece;
      NonSpaceConcat(Concat(init), piece);
      NonSpaceConcat(Concat(p.chunks) + p.current, piece);
      if |p.current + piece| <= maxLen {
        assert Concat(p.chunks) + p.current + piece == Concat(p.chunks) + (p.current + piece);
      } else {
        FlushLossless(p.chunks, p.current);
        NonSpaceConcat(Concat(Flush(p.chunks, p.current)), piece);
      }
    }
  }

  /** Emitting the open chunk loses no visible character. */
  lemma FlushLossless(chunks: seq<string>, current: string)
    ensures NonSpace(Concat(Flush(chunks, current))) == NonSpace(Concat(chunks) + current)
  {
    NonSpaceConcat(Concat(chunks), current);
    if Strip(current) != [] {
      ConcatAppend(chunks, [Strip(current)]);
      assert Concat([Strip(current)]) == Strip(current) by {
        assert [Strip(current)][..0] == [];
      }
      NonSpaceConcat(Concat(chunks), Strip(current));
    } else {
      NonSpaceOfSpaces(current);
    }
  }

  /** In section mode the chunks hold exactly the visible characters of the
      pieces, in order; when the pieces make up the cleaned text, those are
      the visible characters of the original text. */
  lemma SectionChunksLossless(text: string, pieces: seq<string>, maxLen: nat)
    requires Concat(pieces) == CleanText(text)
    ensures NonSpace(Concat(SectionChunks(pieces, maxLen))) == NonSpace(text)
  {
    var p := PackSections(pieces, maxLen);
    PackSectionsLossless(pieces, maxLen);
    FlushLossless(p.chunks, p.current);
    CleanTextFacts(text);
  }

  /** A piece that does not fit on its own is the only way past the limit. */
  predicate FitsOrPiece(c: string, pieces: seq<string>, maxLen: nat) {
    |c| <= maxLen || c in pieces
  }

  predicate GreedyState(p: Packing, all: seq<string>, maxLen: nat) {
    && FitsOrPiece(p.current, all, maxLen)
    && forall c :: c in p.chunks ==> FitsOrPiece(c, MapSeq(all, Strip), maxLen)
  }

  lemma StripInMap(x: string, all: seq<string>)
    requires x in all
    ensures Strip(x) in MapSeq(all, Strip)
  {
    var k :| 0 <= k < |all| && all[k] == x;
    assert MapSeq(all, Strip)[k] == Strip(x);
  }

  lemma SectionStepGreedy(p: Packing, piece: string, all: seq<string>, maxLen: nat)
    requires GreedyState(p, all, maxLen) && piece in all
    ensures GreedyState(SectionStep(p, piece, maxLen), all, maxLen)
  {
    if |p.current + piece| > maxLen && Strip(p.current) != [] && |p.current| > maxLen {
      StripInMap(p.current, all);
    }
  }

  lemma {:induction false} PackSectionsGreedy(pieces: seq<string>, all: seq<string>, maxLen: nat)
    requires forall x :: x in pieces ==> x in all
    ensures GreedyState(PackSections(pieces, maxLen), all, maxLen)
  {
    if pieces != [] {
      var init := pieces[..|pieces| - 1];
      assert forall x :: x in init ==> x in pieces;
      PackSectionsGreedy(init, all, maxLen);
      SectionStepGreedy(PackSections(init, maxLen), Last(pieces), all, maxLen);
    }
  }

  /** Every section-mode chunk is within the limit or is one trimmed piece. */
  lemma SectionChunksGreedy(pieces: seq<string>, maxLen: nat)
    ensures forall c :: c in SectionChunks(pieces, maxLen) ==>
      |c| <= maxLen || c in MapSeq(pieces, Strip)
  {
    var p := PackSections(pieces, maxLen);
    PackSectionsGreedy(pieces, pieces, maxLen);
    if Strip(p.current) != [] && |p.current| > maxLen {
      StripInMap(p.current, pieces);
    }
  }

  /** The chunk being filled in sentence mode ends with ". ". */
  predicate EndsDotSpace(s: string) {
    |s| >= 2 && s[|s| - 2] == '.' && s[|s| - 1] == ' '
  }

  lemma StripEndsDotSpace(s: string)
    requires EndsDotSpace(s)
    ensures Strip(s) != [] && Strip(s)[|Strip(s)| - 1] == '.'
  {
    var y := s[..|s| - 2];
    assert s == y + ". ";
    StripDotSpace(y);
  }

  predicate EndsWithDot(c: string) {
    c != [] && c[|c| - 1] == '.'
  }

  predicate DotState(p: Packing) {
    && (p.current == [] || EndsDotSpace(p.current))
    && forall c :: c in p.chunks ==> EndsWithDot(c)
  }

  lemma FlushDots(chunks: seq<string>, current: string)
    requires (current == [] || EndsDotSpace(current)) && forall c :: c in chunks ==> EndsWithDot(c)
    ensures forall c :: c in Flush(chunks, current) ==> EndsWithDot(c)
  {
    if Strip(current) != [] {
      var x := Strip(current);
      assert current != [];
      StripEndsDotSpace(current);
      assert EndsWithDot(x);
      assert Flush(chunks, current) == chunks + [x];
      forall c | c in chunks + [x] ensures EndsWithDot(c) {
        if c !in chunks {
          assert c == x;
        }
      }
    }
  }

  lemma SentenceStepDots(p: Packing, sentence: string, maxLen: nat)
    requires DotState(p)
    ensures DotState(SentenceStep(p, sentence, maxLen))
  {
    if |p.current + sentence| > maxLen {
      FlushDots(p.chunks, p.current);
      DotSpaceAppended(sentence);
    } else {
      DotSpaceAppended(p.current + sentence);
    }
  }

  lemma DotSpaceAppended(y: string)
    ensures EndsDotSpace(y + ". ")
  {
  }

  /** In sentence mode the open chunk is empty or ends with ". ", and every
      emitted chunk ends with a full stop. */
  lemma {:induction false} PackSentencesDots(sentences: seq<string>, maxLen: nat)
    ensures DotState(PackSentences(sentences, maxLen))
  {
    if sentences != [] {
      var init := sentences[..|sentences| - 1];
      PackSentencesDots(init, maxLen);
      SentenceStepDots(PackSentences(init, maxLen), Last(sentences), maxLen);
    }
  }

  lemma SentenceChunksEndWithDot(sentences: seq<string>, maxLen: nat)
    ensures forall c :: c in SentenceChunks(sentences, maxLen) ==> EndsWithDot(c)
  {
    var p := PackSentences(sentences, maxLen);
    PackSentencesDots(sentences, maxLen);
    FlushDots(p.chunks, p.current);
  }

  // ---------------------------------------------------------------------------
  // Every text gives a chunk
  // ---------------------------------------------------------------------------

  /** What the two regular-expression splits guarantee: splitting into
      sentences never gives an empty list, and when the section split finds
      a header, the header it captures (the second piece) is not blank. */
  ghost predicate RegexSplits(splitSections: string -> seq<string>, splitSentences: string -> seq<string>) {
    && (forall t :: splitSentences(t) != [])
    && (forall t :: |splitSections(t)| >= 2 ==> !AllSpace(splitSections(t)[1]))
  }

  /** At least one sentence gives at least one chunk: the open chunk always
      ends with ". " and so is never blank. */
  lemma SentenceChunksNonEmpty(sentences: seq<string>, maxLen: nat)
    requires sentences != []
    ensures SentenceChunks(sentences, maxLen) != []
  {
    var p := PackSentences(sentences[..|sentences| - 1], maxLen);
    var sentence := Last(sentences);
    var q := SentenceStep(p, sentence, maxLen);
    assert PackSentences(sentences, maxLen) == q;
    if |p.current + sentence| <= maxLen {
      DotSpaceAppended(p.current + sentence);
    } else {
      DotSpaceAppended(sentence);
    }
    StripEndsDotSpace(q.current);
  }

  /** A piece that is not blank leaves visible characters in the whole. */
  lemma NonSpacePiece(pieces: seq<string>, k: nat)
    requires k < |pieces| && !AllSpace(pieces[k])
    ensures NonSpace(Concat(pieces)) != []
  {
    var before, after := pieces[..k], pieces[k + 1..];
    assert pieces == before + [pieces[k]] + after;
    ConcatAppend(before + [pieces[k]], after);
    ConcatAppend(before, [pieces[k]]);
    assert Concat([pieces[k]]) == pieces[k] by {
      assert [pieces[k]][..0] == [];
    }
    NonSpaceConcat(Concat(before) + pieces[k], Concat(after));
    NonSpaceConcat(Concat(before), pieces[k]);
    NonSpaceEmpty(pieces[k]);
  }

  /** Pieces of which one is not blank give at least one section chunk. */
  lemma SectionChunksNonEmpty(pieces: seq<string>, maxLen: nat, k: nat)
    requires k < |pieces| && !AllSpace(pieces[k])
    ensures SectionChunks(pieces, maxLen) != []
  {
    var p := PackSections(pieces, maxLen);
    PackSectionsLossless(pieces, maxLen);
    FlushLossless(p.chunks, p.current);
    NonSpacePiece(pieces, k);
  }

  /** With the splits of the regular expressions, every text (even an empty
      one) gives at least one chunk. */
  lemma ChunksNonEmpty(text: string, splitSections: string -> seq<string>,
                       splitSentences: string -> seq<string>, maxLen: nat)
    requires RegexSplits(splitSections, splitSentences)
    ensures ChunksOf(text, splitSections, splitSentences, maxLen) != []
  {
    var cleaned := CleanText(text);
    var sections := splitSections(cleaned);
    if |sections| <= 1 {
      SentenceChunksNonEmpty(splitSentences(cleaned), maxLen);
    } else {
      SectionChunksNonEmpty(sections, maxLen, 1);
    }
  }

  // ---------------------------------------------------------------------------
  // Chunking every decision once
  // ---------------------------------------------------------------------------

  /** One row of the decisions table as read for embedding. */
  datatype DecisionText = DecisionText(id: int, rawText: string)

  /** The ids of the rows. */
  function RowIds(rows: seq<DecisionText>): set<int> {
    if rows == [] then {} else RowIds(rows[..|rows| - 1]) + {Last(rows).id}
  }

  lemma {:induction false} RowIdsMembers(rows: seq<DecisionText>, id: int)
    ensures id in RowIds(rows) <==> exists i :: 0 <= i < |rows| && rows[i].id == id
  {
    if rows != [] {
      var init := rows[..|rows| - 1];
      RowIdsMembers(init, id);
      if id in RowIds(init) {
        var i :| 0 <= i < |init| && init[i].id == id;
        assert rows[i].id == id;
      }
      if exists i :: 0 <= i < |rows| && rows[i].id == id {
        var i :| 0 <= i < |rows| && rows[i].id == id;
        if i < |init| {
          assert init[i].id == id;
        }
      }
    }
  }

  /** The first row of each id, in table order: the rows that are chunked. */
  function FirstOccurrences(rows: seq<DecisionText>): seq<DecisionText> {
    if rows == [] then []
    else FirstOccurrences(rows[..|rows| - 1])
         + (if Last(rows).id in RowIds(rows[..|rows| - 1]) then [] else [Last(rows)])
  }

  /** The rows chunked have pairwise different ids and cover every id. */
  lemma {:induction false} FirstOccurrencesDistinct(rows: seq<DecisionText>)
    ensures RowIds(FirstOccurrences(rows)) == RowIds(rows)
    ensures forall i, j :: 0 <= i < j < |FirstOccurrences(rows)| ==>
      FirstOccurrences(rows)[i].id != FirstOccurrences(rows)[j].id
    ensures forall r :: r in FirstOccurrences(rows) ==> r in rows
  {
    if rows != [] {
      var init := rows[..|rows| - 1];
      var f := FirstOccurrences(init);
      FirstOccurrencesDistinct(init);
      assert RowIds(rows) == RowIds(init) + {Last(rows).id};
      if Last(rows).id !in RowIds(init) {
        var g := f + [Last(rows)];
        assert FirstOccurrences(rows) == g;
        assert g[..|g| - 1] == f;
        assert RowIds(g) == RowIds(f) + {Last(rows).id};
        forall i | 0 <= i < |f| ensures f[i].id != Last(rows).id {
          RowIdsMembers(f, f[i].id);
        }
      } else {
        assert FirstOccurrences(rows) == f;
      }
    }
  }

  /** The metadata entries of one decision: its id with each chunk. */
  function Entries(id: int, chunks: seq<string>): seq<MetaEntry> {
    if chunks == [] then [] else Entries(id, chunks[..|chunks| - 1]) + [MetaEntry(id, Last(chunks))]
  }

  /** The entries of the given rows, one decision after the other. */
  function Expand(rows: seq<DecisionText>, splitSections: string -> seq<string>,
                  splitSentences: string -> seq<string>): seq<MetaEntry>
  {
    if rows == [] then []
    else Expand(rows[..|rows| - 1], splitSections, splitSentences)
         + Entries(Last(rows).id, ChunksOf(Last(rows).rawText, splitSections, splitSentences, MaxLen))
  }

  /** The chunk list of every decision, each chunked once: the entries of the
      first row of each id, and the set of ids seen. */
  method BuildParagraphs(rows: seq<DecisionText>, splitSections: string -> seq<string>,
                         splitSentences: string -> seq<string>)
    returns (allParagraphs: seq<MetaEntry>, seen: set<int>)
    ensures allParagraphs == Expand(FirstOccurrences(rows), splitSections, splitSentences)
    ensures seen == RowIds(rows)
  {
    allParagraphs := [];
    seen := {};
    for i := 0 to |rows|
      invariant allParagraphs == Expand(FirstOccurrences(rows[..i]), splitSections, splitSentences)
      invariant seen == RowIds(rows[..i])
    {
      FirstOccurrencesStep(rows, i);
      var row := rows[i];
      ghost var first := FirstOccurrences(rows[..i]);
      if row.id in seen {
        assert FirstOccurrences(rows[..i + 1]) == first;
        continue;
      }
      seen := seen + {row.id};
      var chunks := Paragraphs(row.rawText, splitSections, splitSentences, MaxLen);
      allParagraphs := AppendEntries(allParagraphs, row.id, chunks);
      assert FirstOccurrences(rows[..i + 1]) == first + [row];
      ExpandAppend(first, row, splitSections, splitSentences);
    }
    assert rows[..|rows|] == rows;
  }

  lemma FirstOccurrencesStep(rows: seq<DecisionText>, i: nat)
    requires i < |rows|
    ensures RowIds(rows[..i + 1]) == RowIds(rows[..i]) + {rows[i].id}
    ensures FirstOccurrences(rows[..i + 1]) == FirstOccurrences(rows[..i])
      + (if rows[i].id in RowIds(rows[..i]) then [] else [rows[i]])
  {
    assert rows[..i + 1][..i] == rows[..i];
  }

  lemma ExpandAppend(rows: seq<DecisionText>, row: DecisionText, splitSections: string -> seq<string>,
                     splitSentences: string -> seq<string>)
    ensures Expand(rows + [row], splitSections, splitSentences)
         == Expand(rows, splitSections, splitSentences)
            + Entries(row.id, ChunksOf(row.rawText, splitSections, splitSentences, MaxLen))
  {
    assert (rows + [row])[..|rows|] == rows;
  }

  /** The inner loop: one entry appended per chunk. */
  method AppendEntries(entries: seq<MetaEntry>, id: int, chunks: seq<string>)
    returns (r: seq<MetaEntry>)
    ensures r == entries + Entries(id, chunks)
  {
    r := entries;
    for k := 0 to |chunks|
      invariant r == entries + Entries(id, chunks[..k])
    {
      assert chunks[..k + 1][..k] == chunks[..k];
      r := r + [MetaEntry(id, chunks[k])];
    }
    assert chunks[..|chunks|] == chunks;
  }

  /** Every entry pairs an id chunked with one of its chunks. */
  lemma {:induction false} EntriesMembers(id: int, chunks: seq<string>)
    ensures |Entries(id, chunks)| == |chunks|
    ensures forall k :: 0 <= k < |chunks| ==> Entries(id, chunks)[k] == MetaEntry(id, chunks[k])
  {
    if chunks != [] {
      EntriesMembers(id, chunks[..|chunks| - 1]);
    }
  }

  /** Every metadata entry carries a trimmed, non-empty snippet and the id
      of a row of the table. */
  lemma {:induction false} ExpandEntries(rows: seq<DecisionText>, splitSections: string -> seq<string>,
                                         splitSentences: string -> seq<string>)
    ensures forall e :: e in Expand(rows, splitSections, splitSentences) ==>
      Trimmed(e.snippet) && e.id in RowIds(rows)
  {
    if rows != [] {
      var init := rows[..|rows| - 1];
      var r := Last(rows);
      ExpandEntries(init, splitSections, splitSentences);
      var chunks := ChunksOf(r.rawText, splitSections, splitSentences, MaxLen);
      ChunksTrimmed(r.rawText, splitSections, splitSentences, MaxLen);
      EntriesMembers(r.id, chunks);
      forall e | e in Entries(r.id, chunks) ensures Trimmed(e.snippet) && e.id == r.id {
        var k :| 0 <= k < |chunks| && Entries(r.id, chunks)[k] == e;
        assert chunks[k] in chunks;
      }
    }
  }

  // ---------------------------------------------------------------------------
  // Encoding in batches
  // ---------------------------------------------------------------------------

  /** How many chunks are given to the encoder at a time. */
  const BatchSize: nat := 32

  /** An embedding vector. */
  type Vector = seq<real>

  function Snippets(entries: seq<MetaEntry>): (r: seq<string>)
    ensures |r| == |entries| && forall k :: 0 <= k < |r| ==> r[k] == entries[k].snippet
  {
    if entries == [] then [] else Snippets(entries[..|entries| - 1]) + [Last(entries).snippet]
  }

  function EncodeAll(texts: seq<string>, encode: string -> Vector): (r: seq<Vector>)
    ensures |r| == |texts| && forall k :: 0 <= k < |r| ==> r[k] == encode(texts[k])
  {
    if texts == [] then [] else EncodeAll(texts[..|texts| - 1], encode) + [encode(Last(texts))]
  }

  /** The batch loop: the chunks are encoded thirty-two at a time and the
      metadata grows with each batch, so that the two stay aligned. */
  method EmbedBatches(paragraphs: seq<MetaEntry>, encode: string -> Vector)
    returns (embeddings: seq<Vector>, metaData: seq<MetaEntry>, batches: nat)
    ensures metaData == paragraphs
    ensures |embeddings| == |metaData|
    ensures forall n :: 0 <= n < |metaData| ==> embeddings[n] == encode(metaData[n].snippet)
    ensures |paragraphs| <= BatchSize * batches
    ensures batches > 0 ==> BatchSize * (batches - 1) < |paragraphs|
  {
    embeddings := [];
    metaData := [];
    batches := 0;
    var i := 0;
    while i < |paragraphs|
      invariant i == Min(BatchSize * batches, |paragraphs|)
      invariant batches > 0 ==> BatchSize * (batches - 1) < |paragraphs|
      invariant metaData == paragraphs[..i]
      invariant |embeddings| == i
      invariant forall n :: 0 <= n < i ==> embeddings[n] == encode(paragraphs[n].snippet)
      decreases |paragraphs| - i
    {
      var j := Min(i + BatchSize, |paragraphs|);
      var batch := paragraphs[i..j];
      var vectors := EncodeAll(Snippets(batch), encode);
      AlignedAppend(paragraphs, i, j, embeddings, vectors, encode);
      embeddings := embeddings + vectors;
      metaData := metaData + batch;
      batches := batches + 1;
      i := j;
    }
  }

  /** One batch keeps the vectors aligned with the chunks. */
  lemma AlignedAppend(paragraphs: seq<MetaEntry>, i: nat, j: nat, embeddings: seq<Vector>,
                      vectors: seq<Vector>, encode: string -> Vector)
    requires i <= j <= |paragraphs| && |embeddings| == i
    requires forall n :: 0 <= n < i ==> embeddings[n] == encode(paragraphs[n].snippet)
    requires vectors == EncodeAll(Snippets(paragraphs[i..j]), encode)
    ensures paragraphs[..i] + paragraphs[i..j] == paragraphs[..j]
    ensures |embeddings + vectors| == j
    ensures forall n :: 0 <= n < j ==> (embeddings + vectors)[n] == encode(paragraphs[n].snippet)
  {
    assert forall k :: 0 <= k < j - i ==> vectors[k] == encode(paragraphs[i + k].snippet);
    forall n | 0 <= n < j ensures (embeddings + vectors)[n] == encode(paragraphs[n].snippet) {
      if n >= i {
        assert (embeddings + vectors)[n] == vectors[n - i];
      }
    }
  }

  /** The run without its file output: every decision chunked once, the
      chunks encoded, the n-th vector the encoding of the n-th entry's snippet. */
  method BuildIndexInput(rows: seq<DecisionText>, splitSections: string -> seq<string>,
                         splitSentences: string -> seq<string>, encode: string -> Vector)
    returns (embeddings: seq<Vector>, metaData: seq<MetaEntry>)
    ensures metaData == Expand(FirstOccurrences(rows), splitSections, splitSentences)
    ensures |embeddings| == |metaData|
    ensures forall n :: 0 <= n < |metaData| ==> embeddings[n] == encode(metaData[n].snippet)
  {
    var allParagraphs, seen := BuildParagraphs(rows, splitSections, splitSentences);
    var batches;
    embeddings, metaData, batches := EmbedBatches(allParagraphs, encode);
  }

  // ---------------------------------------------------------------------------
  // Decisions already in the metadata file
  // ---------------------------------------------------------------------------

  /** The metadata file as read: missing, not valid JSON, or a list of
      entries whose "id" may be missing. */
  datatype MetaFile = Absent | Malformed | Loaded(ids: seq<Option<int>>)

  /** The file written from the metadata entries. */
  function Written(meta: seq<MetaEntry>): (f: MetaFile)
    ensures f.Loaded? && |f.ids| == |meta|
    ensures forall k :: 0 <= k < |meta| ==> f.ids[k] == Some(meta[k].id)
  {
    if meta == [] then Loaded([])
    else Loaded(Written(meta[..|meta| - 1]).ids + [Some(Last(meta).id)])
  }

  predicate AllPresent(ids: seq<Option<int>>) {
    forall k :: 0 <= k < |ids| ==> ids[k].Some?
  }

  function IdSet(ids: seq<Option<int>>): set<int> {
    set k | 0 <= k < |ids| && ids[k].Some? :: ids[k].value
  }

  lemma IdSetMembers(ids: seq<Option<int>>, x: int)
    ensures x in IdSet(ids) <==> exists k :: 0 <= k < |ids| && ids[k] == Some(x)
  {
    if exists k :: 0 <= k < |ids| && ids[k] == Some(x) {
      var k :| 0 <= k < |ids| && ids[k] == Some(x);
      assert ids[k].value == x;
    }
  }

  /** The number of distinct decision ids in the file, and 0 when the file
      is missing, is not valid JSON or has an entry without an id. */
  function MetaDecisionCount(f: MetaFile): nat {
    match f
    case Absent => 0
    case Malformed => 0
    case Loaded(ids) => if AllPresent(ids) then |IdSet(ids)| else 0
  }

  lemma {:induction false} IdSetBound(ids: seq<Option<int>>)
    ensures |IdSet(ids)| <= |ids|
  {
    if ids != [] {
      var init := ids[..|ids| - 1];
      IdSetBound(init);
      assert forall k :: 0 <= k < |init| ==> init[k] == ids[k];
      var extra := if Last(ids).Some? then {Last(ids).value} else {};
      assert IdSet(ids) <= IdSet(init) + extra;
      SubsetCard(IdSet(ids), IdSet(init) + extra);
    }
  }

  lemma SubsetCard(a: set<int>, b: set<int>)
    requires a <= b
    ensures |a| <= |b|
  {
    assert b == a + (b - a);
    assert a * (b - a) == {};
  }

  /** The count is zero exactly when the file is missing or malformed, an
      entry lacks its id, or there are no entries; otherwise it lies between
      one and the number of entries. */
  lemma MetaDecisionCountCases(f: MetaFile)
    ensures MetaDecisionCount(f) == 0 <==>
      (f.Absent? || f.Malformed? || !AllPresent(f.ids) || f.ids == [])
    ensures f.Loaded? ==> MetaDecisionCount(f) <= |f.ids|
  {
    if f.Loaded? {
      IdSetBound(f.ids);
      if AllPresent(f.ids) && f.ids != [] {
        assert f.ids[0].value in IdSet(f.ids);
      }
    }
  }

  /** After a run, the metadata file counts no more decisions than the
      table has distinct ids, and every id it holds is a table id. */
  lemma MetaCountAfterBuild(rows: seq<DecisionText>, splitSections: string -> seq<string>,
                            splitSentences: string -> seq<string>)
    ensures var f := Written(Expand(FirstOccurrences(rows), splitSections, splitSentences));
      && IdSet(f.ids) <= RowIds(rows)
      && MetaDecisionCount(f) <= |RowIds(rows)|
  {
    var meta := Expand(FirstOccurrences(rows), splitSections, splitSentences);
    var f := Written(meta);
    ExpandEntries(FirstOccurrences(rows), splitSections, splitSentences);
    FirstOccurrencesDistinct(rows);
    forall x | x in IdSet(f.ids) ensures x in RowIds(rows) {
      IdSetMembers(f.ids, x);
      var k :| 0 <= k < |f.ids| && f.ids[k] == Some(x);
      assert meta[k] in meta;
    }
    SubsetCard(IdSet(f.ids), RowIds(rows));
  }

  /** The last row's entries come after those of the rows before it. */
  lemma ExpandLast(rows: seq<DecisionText>, splitSections: string -> seq<string>,
                   splitSentences: string -> seq<string>)
    requires rows != []
    ensures var n := |rows| - 1;
            Expand(rows, splitSections, splitSentences)
              == Expand(rows[..n], splitSections, splitSentences)
                 + Entries(rows[n].id, ChunksOf(rows[n].rawText, splitSections, splitSentences, MaxLen))
  {
  }

  /** The last row, when it gives a chunk, has an entry under its id. */
  lemma ExpandCoversLast(rows: seq<DecisionText>, splitSections: string -> seq<string>,
                         splitSentences: string -> seq<string>)
    returns (e: MetaEntry)
    requires rows != []
    requires ChunksOf(rows[|rows| - 1].rawText, splitSections, splitSentences, MaxLen) != []
    ensures e in Expand(rows, splitSections, splitSentences) && e.id == rows[|rows| - 1].id
  {
    var n := |rows| - 1;
    var chunks := ChunksOf(rows[n].rawText, splitSections, splitSentences, MaxLen);
    ExpandLast(rows, splitSections, splitSentences);
    EntriesMembers(rows[n].id, chunks);
    e := Entries(rows[n].id, chunks)[0];
    MemberOfAppend(Expand(rows[..n], splitSections, splitSentences), Entries(rows[n].id, chunks), e);
  }

  /** A row that gives a chunk has an entry under its id. */
  lemma {:induction false} ExpandCovers(rows: seq<DecisionText>, splitSections: string -> seq<string>,
                                        splitSentences: string -> seq<string>, i: nat)
    returns (e: MetaEntry)
    requires i < |rows| && ChunksOf(rows[i].rawText, splitSections, splitSentences, MaxLen) != []
    ensures e in Expand(rows, splitSections, splitSentences) && e.id == rows[i].id
    decreases |rows|
  {
    var n := |rows| - 1;
    if i == n {
      e := ExpandCoversLast(rows, splitSections, splitSentences);
    } else {
      assert rows[..n][i] == rows[i];
      e := ExpandCovers(rows[..n], splitSections, splitSentences, i);
      ExpandLast(rows, splitSections, splitSentences);
      MemberOfAppend(Expand(rows[..n], splitSections, splitSentences),
                     Entries(rows[n].id, ChunksOf(rows[n].rawText, splitSections, splitSentences, MaxLen)), e);
    }
  }

  /** An entry of either part is an entry of the concatenation. */
  lemma MemberOfAppend(front: seq<MetaEntry>, back: seq<MetaEntry>, e: MetaEntry)
    requires e in front || e in back
    ensures e in front + back
  {
  }

  /** With the splits of the regular expressions, every id of the rows
      reaches the metadata. */
  lemma IdCovered(rows: seq<DecisionText>, splitSections: string -> seq<string>,
                  splitSentences: string -> seq<string>, x: int)
    requires RegexSplits(splitSections, splitSentences) && x in RowIds(rows)
    ensures x in IdSet(Written(Expand(rows, splitSections, splitSentences)).ids)
  {
    var meta := Expand(rows, splitSections, splitSentences);
    RowIdsMembers(rows, x);
    var i :| 0 <= i < |rows| && rows[i].id == x;
    assert ChunksOf(rows[i].rawText, splitSections, splitSentences, MaxLen) != [] by {
      ChunksNonEmpty(rows[i].rawText, splitSections, splitSentences, MaxLen);
    }
    var e := ExpandCovers(rows, splitSections, splitSentences, i);
    WrittenId(meta, e);
  }

  /** The id of every entry reaches the written file. */
  lemma WrittenId(meta: seq<MetaEntry>, e: MetaEntry)
    requires e in meta
    ensures e.id in IdSet(Written(meta).ids)
  {
    var ids := Written(meta).ids;
    var k :| 0 <= k < |meta| && meta[k] == e;
    assert ids[k] == Some(e.id);
    IdSetMembers(ids, e.id);
  }

  /** With the splits of the regular expressions, every decision has at
      least one entry, so the metadata file written by a run counts exactly
      the distinct ids of the table. */
  lemma MetaCountExact(rows: seq<DecisionText>, splitSections: string -> seq<string>,
                       splitSentences: string -> seq<string>)
    requires RegexSplits(splitSections, splitSentences)
    ensures var f := Written(Expand(FirstOccurrences(rows), splitSections, splitSentences));
      && IdSet(f.ids) == RowIds(rows)
      && MetaDecisionCount(f) == |RowIds(rows)|
  {
    var first := FirstOccurrences(rows);
    var ids := Written(Expand(first, splitSections, splitSentences)).ids;
    assert IdSet(ids) <= RowIds(rows) by {
      MetaCountAfterBuild(rows, splitSections, splitSentences);
    }
    assert RowIds(rows) <= IdSet(ids) by {
      FirstOccurrencesIds(rows);
      AllIdsCovered(first, splitSections, splitSentences);
    }
    PresentCount(ids, RowIds(rows));
  }

  /** Keeping the first row of each id keeps every id. */
  lemma FirstOccurrencesIds(rows: seq<DecisionText>)
    ensures RowIds(FirstOccurrences(rows)) == RowIds(rows)
  {
    FirstOccurrencesDistinct(rows);
  }

  /** A file whose every line has an id counts the ids it holds. */
  lemma PresentCount(ids: seq<Option<int>>, s: set<int>)
    requires AllPresent(ids) && IdSet(ids) == s
    ensures MetaDecisionCount(Loaded(ids)) == |s|
  {
  }

  /** With the splits of the regular expressions, no id of the rows is
      missing from the metadata. */
  lemma AllIdsCovered(rows: seq<DecisionText>, splitSections: string -> seq<string>,
                      splitSentences: string -> seq<string>)
    requires RegexSplits(splitSections, splitSentences)
    ensures RowIds(rows) <= IdSet(Written(Expand(rows, splitSections, splitSentences)).ids)
  {
    forall x | x in RowIds(rows)
      ensures x in IdSet(Written(Expand(rows, splitSections, splitSentences)).ids)
    {
      IdCovered(rows, splitSections, splitSentences, x);
    }
  }
}
