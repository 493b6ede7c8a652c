/** The decision crawler: resuming from the checkpoint, walking the result
    pages of the search service, saving each new decision once, and
    deciding whether to ask for the next page.

    The search and document services are given as the sequence of page
    responses the crawl receives and as a function from document id to the
    outcome of the document request; the decisions table is the sequence of
    rows inserted. */
module Scraper {
  import opened Common
  import opened Text

  /** A JSON value as the crawler meets it. A float is kept as its Python
      rendering and its value; lists and objects only as their rendering and
      truthiness. */
  datatype Json = JNull | JBool(b: bool) | JInt(i: int) | JStr(s: string)
                | JFloat(repr: string, value: real)
                | JOther(repr: string, truthy: bool)

  /** A JSON object. */
  type Doc = map<string, Json>

  /** Python truthiness. */
  predicate Truthy(v: Json) {
    match v
    case JNull => false
    case JBool(b) => b
    case JInt(i) => i != 0
    case JStr(s) => s != []
    case JFloat(_, x) => x != 0.0
    case JOther(_, t) => t
  }

  /** `doc.get(key)`: the value, or None when the key is missing. */
  function Get(doc: Doc, key: string): Json {
    if key in doc then doc[key] else JNull
  }

  /** `v0 or v1 or ... or vn`: the first truthy value, else the last one. */
  function Chain(vs: seq<Json>): (r: Json)
    requires vs != []
    ensures r in vs
  {
    if |vs| == 1 || Truthy(vs[0]) then vs[0] else Chain(vs[1..])
  }

  /** The value of the chain sits at the first truthy position, or at the
      last one when no value is truthy. */
  predicate FirstTruthyAt(vs: seq<Json>, i: int) {
    0 <= i < |vs| && (Truthy(vs[i]) || i == |vs| - 1) && forall j :: 0 <= j < i ==> !Truthy(vs[j])
  }

  lemma {:induction false} ChainFirstTruthy(vs: seq<Json>) returns (i: nat)
    requires vs != []
    ensures FirstTruthyAt(vs, i) && Chain(vs) == vs[i]
  {
    if |vs| == 1 || Truthy(vs[0]) {
      i := 0;
    } else {
      var k := ChainFirstTruthy(vs[1..]);
      i := k + 1;
      assert forall j :: 1 <= j < i ==> vs[j] == vs[1..][j - 1];
    }
  }

  function Gets(doc: Doc, keys: seq<string>): (r: seq<Json>)
    ensures |r| == |keys| && forall k :: 0 <= k < |keys| ==> r[k] == Get(doc, keys[k])
  {
    if keys == [] then [] else Gets(doc, keys[..|keys| - 1]) + [Get(doc, Last(keys))]
  }

  /** One column of a saved row: the first truthy value of its keys, else "". */
  function Column(doc: Doc, keys: seq<string>): Json {
    if keys == [] then JStr("")
    else if Truthy(Get(doc, keys[0])) then Get(doc, keys[0])
    else Column(doc, keys[1..])
  }

  /** A column is the `or` chain of the document's values for its keys,
      closed by "". */
  lemma {:induction false} ColumnIsChain(doc: Doc, keys: seq<string>)
    ensures Column(doc, keys) == Chain(Gets(doc, keys) + [JStr("")])
  {
    var vs := Gets(doc, keys) + [JStr("")];
    if keys != [] {
      ColumnIsChain(doc, keys[1..]);
      assert vs[1..] == Gets(doc, keys[1..]) + [JStr("")];
    }
  }

  /** A column is the value of the first of its keys whose value is truthy,
      and "" when there is none. */
  lemma ColumnFirstTruthy(doc: Doc, keys: seq<string>)
    ensures Truthy(Column(doc, keys)) ==>
      exists i :: FirstTruthyAt(Gets(doc, keys), i) && Column(doc, keys) == Get(doc, keys[i])
    ensures !Truthy(Column(doc, keys)) ==>
      Column(doc, keys) == JStr("") && forall j :: 0 <= j < |keys| ==> !Truthy(Get(doc, keys[j]))
  {
    var g := Gets(doc, keys);
    var vs := g + [JStr("")];
    ColumnIsChain(doc, keys);
    var i := ChainFirstTruthy(vs);
    assert forall j :: 0 <= j < |keys| ==> vs[j] == g[j];
    if Truthy(Column(doc, keys)) {
      assert i < |keys| && FirstTruthyAt(g, i);
    }
  }

  const UrlKeys: seq<string> := ["source_url", "url", "detailUrl"]
  const DaireKeys: seq<string> := ["birimAdi", "courtChamber", "daire"]
  const EsasKeys: seq<string> := ["esasNo", "mainId", "esas"]
  const KararKeys: seq<string> := ["kararNo", "decisionNumber", "karar"]
  const TarihKeys: seq<string> := ["kararTarihiStr", "decisionDate", "tarih"]

  /** A row of the decisions table as inserted. */
  datatype DecisionRecord = DecisionRecord(url: Json, daire: Json, esas: Json, karar: Json,
                                           tarih: Json, rawText: Json)

  /** The row saved for a document: each column from its chain of keys. */
  function SaveDecision(doc: Doc, rawMd: Json): DecisionRecord {
    DecisionRecord(Column(doc, UrlKeys), Column(doc, DaireKeys), Column(doc, EsasKeys),
                   Column(doc, KararKeys), Column(doc, TarihKeys), rawMd)
  }

  /** What the database driver can bind as a parameter: None, a boolean, a
      float, a string, or an integer that fits in 64 signed bits; a list or
      an object cannot be bound and makes the insert raise. */
  predicate Bindable(v: Json) {
    match v
    case JInt(i) => -0x8000_0000_0000_0000 <= i < 0x8000_0000_0000_0000
    case JOther(_, _) => false
    case _ => true
  }

  predicate RowBindable(r: DecisionRecord) {
    Bindable(r.url) && Bindable(r.daire) && Bindable(r.esas) && Bindable(r.karar)
    && Bindable(r.tarih) && Bindable(r.rawText)
  }

  /** The row a new document leaves in the table: the row with the fetched
      text when the insert can bind it; otherwise the insert raises inside
      the same `try`, and its handler saves the row again with "" for text. */
  function SavedRow(meta: Doc, f: Fetch): DecisionRecord {
    var first := SaveDecision(meta, RawMarkdown(f));
    if RowBindable(first) then first else SaveDecision(meta, JStr(""))
  }

  /** The saved row has the document's columns, and its text is the fetched
      one exactly when that row can be bound, else "". */
  lemma SavedRowText(meta: Doc, f: Fetch)
    ensures var r := SavedRow(meta, f);
      && r.url == Column(meta, UrlKeys) && r.daire == Column(meta, DaireKeys)
      && r.esas == Column(meta, EsasKeys) && r.karar == Column(meta, KararKeys)
      && r.tarih == Column(meta, TarihKeys)
      && (r.rawText == RawMarkdown(f) <==> RowBindable(SaveDecision(meta, RawMarkdown(f))) || RawMarkdown(f) == JStr(""))
      && (!Bindable(RawMarkdown(f)) ==> r.rawText == JStr(""))
  {
  }

  /** Python's `str` of a value, as used in the document address. */
  function Render(v: Json): string {
    match v
    case JNull => "None"
    case JBool(b) => if b then "True" else "False"
    case JInt(i) => IntToString(i)
    case JStr(s) => s
    case JFloat(repr, _) => repr
    case JOther(repr, _) => repr
  }

  const DocumentPrefix: string := "https://bedesten.adalet.gov.tr/document/"

  function DocUrl(id: Json): string {
    DocumentPrefix + Render(id)
  }

  /** The document id of a search hit: its "documentId", else its "id". */
  function DocId(doc: Doc): (r: Json)
    ensures Truthy(Get(doc, "documentId")) ==> r == Get(doc, "documentId")
    ensures !Truthy(Get(doc, "documentId")) ==> r == Get(doc, "id")
  {
    Chain([Get(doc, "documentId"), Get(doc, "id")])
  }

  /** The address stored in the row is the one built from the id, since it is
      put under the first key of the url chain just before saving. */
  lemma SavedUrl(doc: Doc, id: Json, rawMd: Json)
    ensures SaveDecision(doc["source_url" := JStr(DocUrl(id))], rawMd).url == JStr(DocUrl(id))
  {
    var d := doc["source_url" := JStr(DocUrl(id))];
    assert Get(d, "source_url") == JStr(DocUrl(id));
    assert Truthy(JStr(DocUrl(id))) by {
      assert |DocUrl(id)| >= |DocumentPrefix|;
    }
    assert UrlKeys[0] == "source_url";
  }

  // ---------------------------------------------------------------------------
  // Fetching the text of a decision
  // ---------------------------------------------------------------------------

  /** The content of a document response: an object with a markdown
      attribute, a JSON object, or anything else. */
  datatype MdData = MdAttr(content: Json) | MdDict(fields: Doc) | MdNone

  /** The outcome of a document request; a failure is any exception. */
  datatype Fetch = FetchFailed | Fetched(data: MdData)

  /** The text saved: the attribute, the first truthy of the three text keys,
      or "" when nothing is found or the request failed. */
  function RawMarkdown(f: Fetch): Json {
    match f
    case FetchFailed => JStr("")
    case Fetched(MdAttr(c)) => c
    case Fetched(MdDict(d)) => Column(d, ["markdown_content", "markdown", "text"])
    case Fetched(MdNone) => JStr("")
  }

  // ---------------------------------------------------------------------------
  // One page of search results
  // ---------------------------------------------------------------------------

  /** The crawl state a page works on: the addresses known, the running
      total, the count for this page and the rows inserted. */
  datatype Crawl = Crawl(existing: set<string>, total: int, pageSaved: nat, table: seq<DecisionRecord>)

  /** One search hit: skipped without a truthy id or when its address is
      known, else saved (with empty text if the request failed or the row
      could not be bound), counted and its address remembered. */
  function DocStep(st: Crawl, doc: Doc, fetch: Json -> Fetch): Crawl {
    var id := DocId(doc);
    if !Truthy(id) then st
    else
      var url := DocUrl(id);
      if url in st.existing then st
      else
        var row := SavedRow(doc["source_url" := JStr(url)], fetch(id));
        Crawl(st.existing + {url}, st.total + 1, st.pageSaved + 1, st.table + [row])
  }

  function ProcessDocs(st: Crawl, docs: seq<Doc>, fetch: Json -> Fetch): Crawl {
    if docs == [] then st else DocStep(ProcessDocs(st, docs[..|docs| - 1], fetch), Last(docs), fetch)
  }

  /** What a page adds: rows appended after the old ones, each with a new
      address that is now known and differs from every other new row's, and
      the running total up by the number of rows. */
  predicate Extends(st: Crawl, st': Crawl) {
    && st.table <= st'.table
    && st.existing <= st'.existing
    && st'.total == st.total + (|st'.table| - |st.table|)
    && (forall i :: |st.table| <= i < |st'.table| ==>
          st'.table[i].url.JStr? && st'.table[i].url.s in st'.existing
          && st'.table[i].url.s !in st.existing)
    && (forall i, j :: |st.table| <= i < j < |st'.table| ==> st'.table[i].url != st'.table[j].url)
  }

  /** A hit changes nothing exactly when it has no truthy id or its address
      is known; any other hit adds a row. */
  lemma DocStepSkips(st: Crawl, doc: Doc, fetch: Json -> Fetch)
    ensures DocStep(st, doc, fetch) == st <==> !Truthy(DocId(doc)) || DocUrl(DocId(doc)) in st.existing
  {
    if Truthy(DocId(doc)) && DocUrl(DocId(doc)) !in st.existing {
      assert |DocStep(st, doc, fetch).table| == |st.table| + 1;
    }
  }

  lemma DocStepExtends(st: Crawl, doc: Doc, fetch: Json -> Fetch)
    ensures Extends(st, DocStep(st, doc, fetch))
  {
    var id := DocId(doc);
    if Truthy(id) && DocUrl(id) !in st.existing {
      SavedUrl(doc, id, RawMarkdown(fetch(id)));
      SavedUrl(doc, id, JStr(""));
    }
  }

  /** Extending twice is extending, provided the later new rows' addresses
      were unknown and the earlier stay known. */
  lemma ExtendsTrans(a: Crawl, b: Crawl, c: Crawl)
    requires Extends(a, b) && Extends(b, c)
    ensures Extends(a, c)
  {
    forall i, j | |a.table| <= i < j < |c.table| ensures c.table[i].url != c.table[j].url {
      if j >= |b.table| && i < |b.table| {
        assert c.table[i] == b.table[i];
        assert b.table[i].url.s in b.existing;
      }
    }
    forall i | |a.table| <= i < |c.table|
      ensures c.table[i].url.JStr? && c.table[i].url.s in c.existing && c.table[i].url.s !in a.existing
    {
      if i < |b.table| {
        assert c.table[i] == b.table[i];
      }
    }
  }

  /** A page saves each address at most once, never one already known, and
      counts exactly the rows it saves. */
  lemma {:induction false} ProcessDocsExtends(st: Crawl, docs: seq<Doc>, fetch: Json -> Fetch)
    ensures Extends(st, ProcessDocs(st, docs, fetch))
    ensures ProcessDocs(st, docs, fetch).pageSaved
         == st.pageSaved + (|ProcessDocs(st, docs, fetch).table| - |st.table|)
  {
    if docs != [] {
      var mid := ProcessDocs(st, docs[..|docs| - 1], fetch);
      ProcessDocsExtends(st, docs[..|docs| - 1], fetch);
      DocStepExtends(mid, Last(docs), fetch);
      ExtendsTrans(st, mid, DocStep(mid, Last(docs), fetch));
    }
  }

  /** After a page, the address of every hit with a truthy id is known:
      it was known already or the hit was saved. */
  lemma {:induction false} ProcessDocsCovers(st: Crawl, docs: seq<Doc>, fetch: Json -> Fetch)
    ensures forall k :: 0 <= k < |docs| && Truthy(DocId(docs[k])) ==>
      DocUrl(DocId(docs[k])) in ProcessDocs(st, docs, fetch).existing
  {
    if docs != [] {
      var init := docs[..|docs| - 1];
      ProcessDocsCovers(st, init, fetch);
      var mid := ProcessDocs(st, init, fetch);
      assert mid.existing <= DocStep(mid, Last(docs), fetch).existing;
      assert forall k :: 0 <= k < |init| ==> init[k] == docs[k];
    }
  }

  // ---------------------------------------------------------------------------
  // Checkpoint and pagination
  // ---------------------------------------------------------------------------

  /** The checkpoint file: missing, or the last page done and the total. */
  datatype CheckpointFile = Missing | Stored(lastPage: int, totalProcessed: int)

  /** Where a run starts: the page after the last one done, and the stored total. */
  datatype Resume = Resume(startPage: int, totalSaved: int)

  function LoadCheckpoint(f: CheckpointFile): Resume {
    match f
    case Missing => Resume(0 + 1, 0)
    case Stored(p, t) => Resume(p + 1, t)
  }

  /** Writing a checkpoint and loading it again resumes after that page with
      that total; with no checkpoint the crawl starts at page one from zero. */
  lemma CheckpointRoundTrip(page: int, total: int)
    ensures LoadCheckpoint(Stored(page, total)) == Resume(page + 1, total)
    ensures LoadCheckpoint(Missing) == Resume(1, 0)
  {
  }

  /** One search response: its decisions (an absent list read as empty) and
      its page size when given. */
  datatype Page = Page(decisions: seq<Doc>, pageSize: Option<Json>)

  /** `len(docs) == data.get("page_size", 10)`, with Python's equality of an
      int against the value found. */
  predicate FullPage(n: nat, pageSize: Option<Json>) {
    match pageSize
    case None => n == 10
    case Some(v) =>
      match v
      case JInt(m) => n == m
      case JBool(b) => n == (if b then 1 else 0)
      case JFloat(_, x) => n as real == x
      case _ => false
  }

  /** The whole crawl state between pages. */
  datatype Session = Session(existing: set<string>, total: int, page: int,
                             table: seq<DecisionRecord>, checkpoint: CheckpointFile)

  /** The page loop: an empty page stops it; otherwise the page is processed
      and checkpointed, and the next page is asked for exactly when this one
      was full. The responses run out only where the model's horizon ends. */
  function RunSpec(s: Session, responses: seq<Page>, fetch: Json -> Fetch): Session
    decreases |responses|
  {
    if responses == [] || responses[0].decisions == [] then s
    else
      var s1 := AfterPage(s, responses[0].decisions, fetch);
      if FullPage(|responses[0].decisions|, responses[0].pageSize) then
        RunSpec(s1.(page := s.page + 1), responses[1..], fetch)
      else s1
  }

  /** One non-empty page processed and checkpointed, the page number not yet
      advanced. */
  function AfterPage(s: Session, docs: seq<Doc>, fetch: Json -> Fetch): Session {
    var c := ProcessDocs(Crawl(s.existing, s.total, 0, s.table), docs, fetch);
    Session(c.existing, c.total, s.page, c.table, Stored(s.page, c.total))
  }

  /** A response after which the crawl asks for the next page. */
  predicate Continues(p: Page) {
    p.decisions != [] && FullPage(|p.decisions|, p.pageSize)
  }

  /** The number of leading responses that are non-empty and full. */
  function LeadingFull(responses: seq<Page>): (n: nat)
    ensures n <= |responses|
  {
    if responses == [] || !Continues(responses[0]) then 0
    else 1 + LeadingFull(responses[1..])
  }

  /** All of the first `LeadingFull(responses)` responses are non-empty and
      full, and the next one, if any, is not. */
  lemma {:induction false} LeadingFullIs(responses: seq<Page>)
    ensures forall k :: 0 <= k < LeadingFull(responses) ==> Continues(responses[k])
    ensures LeadingFull(responses) < |responses| ==> !Continues(responses[LeadingFull(responses)])
  {
    if responses != [] && Continues(responses[0]) {
      var rest := responses[1..];
      LeadingFullIs(rest);
      forall k | 0 <= k < LeadingFull(responses) ensures Continues(responses[k]) {
        if k > 0 {
          assert responses[k] == rest[k - 1];
        }
      }
      if LeadingFull(responses) < |responses| {
        assert responses[LeadingFull(responses)] == rest[LeadingFull(rest)];
      }
    }
  }

  /** The page number advances once per full page, so the crawl asks for
      the next page exactly after each full one. */
  lemma {:induction false} RunPages(s: Session, responses: seq<Page>, fetch: Json -> Fetch)
    ensures RunSpec(s, responses, fetch).page == s.page + LeadingFull(responses)
    decreases |responses|
  {
    if responses != [] && responses[0].decisions != [] {
      var p, rest := responses[0], responses[1..];
      var s1 := AfterPage(s, p.decisions, fetch);
      if FullPage(|p.decisions|, p.pageSize) {
        var s2 := s1.(page := s.page + 1);
        assert RunSpec(s, responses, fetch) == RunSpec(s2, rest, fetch);
        assert LeadingFull(responses) == 1 + LeadingFull(rest);
        RunPages(s2, rest, fetch);
      } else {
        assert RunSpec(s, responses, fetch) == s1;
      }
    }
  }

  /** Run-level view of a session as a page state. */
  function AsCrawl(s: Session): Crawl {
    Crawl(s.existing, s.total, 0, s.table)
  }

  /** Over the whole run every address is saved at most once, never one
      known at the start, and the total rises by the number of rows saved. */
  lemma {:induction false} RunSavesOnce(s: Session, responses: seq<Page>, fetch: Json -> Fetch)
    ensures Extends(AsCrawl(s), AsCrawl(RunSpec(s, responses, fetch)))
    decreases |responses|
  {
    if responses != [] && responses[0].decisions != [] {
      var p, rest := responses[0], responses[1..];
      var c := ProcessDocs(AsCrawl(s), p.decisions, fetch);
      ProcessDocsExtends(AsCrawl(s), p.decisions, fetch);
      var s1 := AfterPage(s, p.decisions, fetch);
      assert AsCrawl(s1) == c.(pageSaved := 0);
      if FullPage(|p.decisions|, p.pageSize) {
        var s2 := s1.(page := s.page + 1);
        assert RunSpec(s, responses, fetch) == RunSpec(s2, rest, fetch);
        RunSavesOnce(s2, rest, fetch);
        ExtendsTrans(AsCrawl(s), c, AsCrawl(RunSpec(s2, rest, fetch)));
      } else {
        assert RunSpec(s, responses, fetch) == s1;
      }
    }
  }

  /** After a run that saw a non-empty page, the checkpoint holds the running
      total and the last page processed: the current page when the run
      stopped on a short page, and the one before it when it stopped after a
      full page (on an empty page or at the end of the responses). */
  lemma {:induction false} RunCheckpoint(s: Session, responses: seq<Page>, fetch: Json -> Fetch)
    requires responses != [] && responses[0].decisions != []
    ensures var r := RunSpec(s, responses, fetch);
      var n := LeadingFull(responses);
      && r.checkpoint.Stored? && r.checkpoint.totalProcessed == r.total
      && (r.checkpoint.lastPage == r.page <==> n < |responses| && responses[n].decisions != [])
      && (r.checkpoint.lastPage + 1 == r.page <==> !(n < |responses| && responses[n].decisions != []))
    decreases |responses|
  {
    var s1 := AfterPage(s, responses[0].decisions, fetch);
    assert s1.checkpoint == Stored(s.page, s1.total) && s1.page == s.page;
    if FullPage(|responses[0].decisions|, responses[0].pageSize) {
      var rest, s2 := responses[1..], s1.(page := s.page + 1);
      assert RunSpec(s, responses, fetch) == RunSpec(s2, rest, fetch);
      assert LeadingFull(responses) == 1 + LeadingFull(rest);
      if rest != [] && rest[0].decisions != [] {
        RunCheckpoint(s2, rest, fetch);
        var m := LeadingFull(rest);
        if m < |rest| {
          assert responses[m + 1] == rest[m];
        }
      } else {
        assert RunSpec(s2, rest, fetch) == s2;
        assert LeadingFull(rest) == 0;
        assert |responses| > 1 ==> responses[1] == rest[0];
      }
    } else {
      assert RunSpec(s, responses, fetch) == s1;
      assert LeadingFull(responses) == 0;
    }
  }

  // ---------------------------------------------------------------------------
  // The crawler
  // ---------------------------------------------------------------------------

  class Crawler {
    var existingUrls: set<string>
    var totalSaved: int
    var pageNumber: int
    var table: seq<DecisionRecord>
    var checkpoint: CheckpointFile

    function Snapshot(): Session
      reads this
    {
      Session(existingUrls, totalSaved, pageNumber, table, checkpoint)
    }

    /** Resuming: the page after the checkpointed one, the stored total, and
        the addresses already in the table. */
    constructor(saved: CheckpointFile, existing: set<string>)
      ensures pageNumber == LoadCheckpoint(saved).startPage
      ensures totalSaved == LoadCheckpoint(saved).totalSaved
      ensures existingUrls == existing && table == [] && checkpoint == saved
    {
      var resume := LoadCheckpoint(saved);
      pageNumber := resume.startPage;
      totalSaved := resume.totalSaved;
      existingUrls := existing;
      table := [];
      checkpoint := saved;
    }

    /** One search hit: skipped, or saved with its address remembered. */
    method ConsiderDoc(doc: Doc, fetch: Json -> Fetch, pageSaved: nat) returns (pageSaved': nat)
      modifies this
      ensures Crawl(existingUrls, totalSaved, pageSaved', table)
           == DocStep(Crawl(old(existingUrls), old(totalSaved), pageSaved, old(table)), doc, fetch)
      ensures pageNumber == old(pageNumber) && checkpoint == old(checkpoint)
    {
      ghost var st := Crawl(existingUrls, totalSaved, pageSaved, table);
      pageSaved' := pageSaved;
      var docId := DocId(doc);
      if !Truthy(docId) {
        assert DocStep(st, doc, fetch) == st;
        return;
      }
      var docUrl := DocUrl(docId);
      if docUrl in existingUrls {
        assert DocStep(st, doc, fetch) == st;
        return;
      }
      // A failed request, or a row the insert cannot bind, saves the row with
      // empty text.
      var rawMd := RawMarkdown(fetch(docId));
      var withUrl := doc["source_url" := JStr(docUrl)];
      var row := SaveDecision(withUrl, rawMd);
      if !RowBindable(row) {
        row := SaveDecision(withUrl, JStr(""));
      }
      table := table + [row];
      totalSaved := totalSaved + 1;
      pageSaved' := pageSaved + 1;
      existingUrls := existingUrls + {docUrl};
      assert DocStep(st, doc, fetch)
          == Crawl(st.existing + {docUrl}, st.total + 1, st.pageSaved + 1, st.table + [row]);
    }

    /** The hits of one page, in order. */
    method ProcessPage(docs: seq<Doc>, fetch: Json -> Fetch) returns (pageSaved: nat)
      modifies this
      ensures Crawl(existingUrls, totalSaved, pageSaved, table)
           == ProcessDocs(Crawl(old(existingUrls), old(totalSaved), 0, old(table)), docs, fetch)
      ensures pageNumber == old(pageNumber) && checkpoint == old(checkpoint)
    {
      pageSaved := 0;
      ghost var start := Crawl(existingUrls, totalSaved, 0, table);
      for k := 0 to |docs|
        invariant Crawl(existingUrls, totalSaved, pageSaved, table) == ProcessDocs(start, docs[..k], fetch)
        invariant pageNumber == old(pageNumber) && checkpoint == old(checkpoint)
      {
        assert docs[..k + 1][..k] == docs[..k];
        pageSaved := ConsiderDoc(docs[k], fetch, pageSaved);
      }
      assert docs[..|docs|] == docs;
    }

    /** The page loop over the responses received. */
    method Run(responses: seq<Page>, fetch: Json -> Fetch)
      modifies this
      ensures Snapshot() == RunSpec(old(Snapshot()), responses, fetch)
    {
      ghost var goal := RunSpec(Snapshot(), responses, fetch);
      var k := 0;
      while k < |responses|
        invariant k <= |responses|
        invariant RunSpec(Snapshot(), responses[k..], fetch) == goal
        decreases |responses| - k
      {
        var docs := responses[k].decisions;
        if docs == [] {
          break;
        }
        ghost var before := Snapshot();
        var pageSaved := ProcessPage(docs, fetch);
        checkpoint := Stored(pageNumber, totalSaved);
        if !FullPage(|docs|, responses[k].pageSize) {
          assert Snapshot() == RunSpec(before, responses[k..], fetch);
          break;
        }
        pageNumber := pageNumber + 1;
        assert responses[k..][1..] == responses[k + 1..];
        k := k + 1;
      }
    }
  }
}
