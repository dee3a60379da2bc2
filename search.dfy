/**
 * src/search.rs: turning a page into an index document, adding a batch of
 * pages under one commit, and assembling query results from ranked hits.
 *
 * The tantivy index is modelled by the documents of its commits; the
 * library's own failures (opening a writer, adding, committing, reading,
 * searching, fetching a stored document) are inputs carrying the message of
 * the `TantivyError` they raise, and the query parser's verdict and the
 * ranked hits are inputs too.
 */
module Search {
  import opened Wrappers
  import opened Seqs
  import opened Calendar
  import opened Util
  import opened Page

  // ---------------------------------------------------------------------
  // Documents

  /** The six fields `build_schema` declares. */
  datatype Field = IdField | TitleField | TextField | TitleDateField | PageTouchedField | NamespaceField

  /** The values the fields hold: an i64, a text, or a date as Unix seconds. */
  datatype Value = I64(int64: Int64) | Text(text: string) | DateSecs(secs: int)

  datatype FieldValue = FieldValue(field: Field, value: Value)

  /** A tantivy document: its field values in the order they were added. */
  type Document = seq<FieldValue>

  /** The values a document holds for one field, in the order they were added. */
  function ValuesOf(doc: Document, f: Field): seq<Value> {
    if doc == [] then []
    else (if doc[0].field == f then [doc[0].value] else []) + ValuesOf(doc[1..], f)
  }

  lemma {:induction false} ValuesOfAppend(a: Document, b: Document, f: Field)
    ensures ValuesOf(a + b, f) == ValuesOf(a, f) + ValuesOf(b, f)
  {
    if a == [] {
      assert a + b == b;
    } else {
      assert (a + b)[0] == a[0];
      assert (a + b)[1..] == a[1..] + b;
      ValuesOfAppend(a[1..], b, f);
      var head: seq<Value> := if a[0].field == f then [a[0].value] else [];
      AppendAssociative(head, ValuesOf(a[1..], f), ValuesOf(b, f));
    }
  }

  /** `Document::get_first`: the first value added for the field, if any. */
  function GetFirst(doc: Document, f: Field): (v: Option<Value>)
    ensures v.Some? <==> ValuesOf(doc, f) != []
    ensures v.Some? ==> v.value == ValuesOf(doc, f)[0]
  {
    if doc == [] then None
    else if doc[0].field == f then Some(doc[0].value)
    else GetFirst(doc[1..], f)
  }

  /** The value a single field value contributes to a field's values. */
  function Pick(x: FieldValue, f: Field): seq<Value> {
    if x.field == f then [x.value] else []
  }

  lemma ValuesOfCons(x: FieldValue, rest: Document, f: Field)
    ensures ValuesOf([x] + rest, f) == Pick(x, f) + ValuesOf(rest, f)
  {
    assert ([x] + rest)[1..] == rest;
  }

  /** The title-date values `make_doc` adds: one exactly when the page's title date has a timestamp. */
  function TitleDateValues(td: TitleDate): (vs: seq<Value>)
    ensures |vs| <= 1
  {
    match TitleDateTimestamp(td)
    case None => []
    case Some(secs) => [DateSecs(secs)]
  }

  /** The optional title-date part of a document. */
  function DateFields(titleDate: Option<int>): Document {
    if titleDate.Some? then [FieldValue(TitleDateField, DateSecs(titleDate.value))] else []
  }

  /** A document with the six fields, in the order `make_doc` adds them. */
  function DocumentFrom(id: Int64, title: string, text: string, titleDate: Option<int>, touched: int, namespace: string): Document {
    [FieldValue(IdField, I64(id))] + ([FieldValue(TitleField, Text(title))] + ([FieldValue(TextField, Text(text))]
    + (DateFields(titleDate)
    + ([FieldValue(PageTouchedField, DateSecs(touched))] + [FieldValue(NamespaceField, Text(namespace))]))))
  }

  /** The document `make_doc` builds for a page. */
  function DocumentOf(page: Page): Document {
    DocumentFrom(page.id, page.title, page.text, TitleDateTimestamp(page.titleDate),
                 WikiTimestampSeconds(page.pageTouched), NamespaceName(page.namespace))
  }

  /** A six-field document's values for one field, part by part. */
  lemma DocumentFromValues(a: FieldValue, b: FieldValue, c: FieldValue, d: Document, e: FieldValue, g: FieldValue, f: Field)
    ensures ValuesOf([a] + ([b] + ([c] + (d + ([e] + [g])))), f)
            == Pick(a, f) + (Pick(b, f) + (Pick(c, f) + (ValuesOf(d, f) + (Pick(e, f) + Pick(g, f)))))
  {
    calc {
      ValuesOf([a] + ([b] + ([c] + (d + ([e] + [g])))), f);
      { ValuesOfCons(a, [b] + ([c] + (d + ([e] + [g]))), f); }
      Pick(a, f) + ValuesOf([b] + ([c] + (d + ([e] + [g]))), f);
      { ValuesOfCons(b, [c] + (d + ([e] + [g])), f); }
      Pick(a, f) + (Pick(b, f) + ValuesOf([c] + (d + ([e] + [g])), f));
      { ValuesOfCons(c, d + ([e] + [g]), f); }
      Pick(a, f) + (Pick(b, f) + (Pick(c, f) + ValuesOf(d + ([e] + [g]), f)));
      { ValuesOfTail(d, e, g, f); }
      Pick(a, f) + (Pick(b, f) + (Pick(c, f) + (ValuesOf(d, f) + (Pick(e, f) + Pick(g, f)))));
    }
  }

  lemma ValuesOfTail(d: Document, e: FieldValue, g: FieldValue, f: Field)
    ensures ValuesOf(d + ([e] + [g]), f) == ValuesOf(d, f) + (Pick(e, f) + Pick(g, f))
  {
    ValuesOfAppend(d, [e] + [g], f);
    ValuesOfCons(e, [g], f);
    ValuesOfCons(g, [], f);
    assert [g] + [] == [g];
  }

  /** In a six-field document each field holds the one value given for it, the title date only when there is one. */
  lemma DocumentFromFields(id: Int64, title: string, text: string, titleDate: Option<int>, touched: int, namespace: string)
    ensures var doc := DocumentFrom(id, title, text, titleDate, touched, namespace);
            && ValuesOf(doc, IdField) == [I64(id)]
            && ValuesOf(doc, TitleField) == [Text(title)]
            && ValuesOf(doc, TextField) == [Text(text)]
            && ValuesOf(doc, TitleDateField) == (if titleDate.Some? then [DateSecs(titleDate.value)] else [])
            && ValuesOf(doc, PageTouchedField) == [DateSecs(touched)]
            && ValuesOf(doc, NamespaceField) == [Text(namespace)]
  {
    var a, b, c := FieldValue(IdField, I64(id)), FieldValue(TitleField, Text(title)), FieldValue(TextField, Text(text));
    var d := DateFields(titleDate);
    var e, g := FieldValue(PageTouchedField, DateSecs(touched)), FieldValue(NamespaceField, Text(namespace));
    forall f: Field
      ensures ValuesOf(d, f) == if f == TitleDateField && titleDate.Some? then [DateSecs(titleDate.value)] else []
    {
      if titleDate.Some? {
        ValuesOfCons(d[0], [], f);
        assert d == [d[0]] + [];
      }
    }
    DocumentFromValues(a, b, c, d, e, g, IdField);
    DocumentFromValues(a, b, c, d, e, g, TitleField);
    DocumentFromValues(a, b, c, d, e, g, TextField);
    DocumentFromValues(a, b, c, d, e, g, TitleDateField);
    DocumentFromValues(a, b, c, d, e, g, PageTouchedField);
    DocumentFromValues(a, b, c, d, e, g, NamespaceField);
  }

  /** Adding the fields one after another, as `make_doc` does, gives the same document. */
  lemma DocumentFromInOrder(id: Int64, title: string, text: string, titleDate: Option<int>, touched: int, namespace: string)
    ensures DocumentFrom(id, title, text, titleDate, touched, namespace)
            == [FieldValue(IdField, I64(id))] + [FieldValue(TitleField, Text(title))] + [FieldValue(TextField, Text(text))]
               + DateFields(titleDate)
               + [FieldValue(PageTouchedField, DateSecs(touched))] + [FieldValue(NamespaceField, Text(namespace))]
  {
  }

  /**
   * Every field but the title date is present exactly once and copied from
   * the page; the title date is present exactly when the page's title date has
   * a timestamp, and then it is that timestamp.
   */
  lemma DocumentFields(page: Page)
    ensures ValuesOf(DocumentOf(page), IdField) == [I64(page.id)]
    ensures ValuesOf(DocumentOf(page), TitleField) == [Text(page.title)]
    ensures ValuesOf(DocumentOf(page), TextField) == [Text(page.text)]
    ensures ValuesOf(DocumentOf(page), TitleDateField) == TitleDateValues(page.titleDate)
    ensures ValuesOf(DocumentOf(page), PageTouchedField) == [DateSecs(WikiTimestampSeconds(page.pageTouched))]
    ensures ValuesOf(DocumentOf(page), NamespaceField) == [Text(NamespaceName(page.namespace))]
  {
    DocumentFromFields(page.id, page.title, page.text, TitleDateTimestamp(page.titleDate),
                       WikiTimestampSeconds(page.pageTouched), NamespaceName(page.namespace));
  }

  /** The stored fields a query reads back, each there and of the kind it unwraps. */
  predicate HasStoredFields(doc: Document) {
    && GetFirst(doc, IdField).Some? && GetFirst(doc, IdField).value.I64?
    && GetFirst(doc, TitleField).Some? && GetFirst(doc, TitleField).value.Text?
    && GetFirst(doc, TextField).Some? && GetFirst(doc, TextField).value.Text?
  }

  /** A page's document gives back the page's id, title and text when read as a query reads it. */
  lemma StoredFieldsOfDocument(page: Page)
    ensures HasStoredFields(DocumentOf(page))
    ensures GetFirst(DocumentOf(page), IdField) == Some(I64(page.id))
    ensures GetFirst(DocumentOf(page), TitleField) == Some(Text(page.title))
    ensures GetFirst(DocumentOf(page), TextField) == Some(Text(page.text))
  {
    DocumentFields(page);
  }

  /** The documents of a batch of pages, one per page in the same order. */
  function DocumentsOf(pages: seq<Page>): (docs: seq<Document>)
    ensures |docs| == |pages|
    ensures forall k :: 0 <= k < |pages| ==> docs[k] == DocumentOf(pages[k])
  {
    MapSeq(pages, DocumentOf)
  }

  /** Every document carries the fields a query reads back. */
  predicate AllStored(docs: seq<Document>) {
    forall j :: 0 <= j < |docs| ==> HasStoredFields(docs[j])
  }

  /** The documents of pages carry the fields a query reads back. */
  lemma DocumentsStored(pages: seq<Page>)
    ensures AllStored(DocumentsOf(pages))
  {
    forall j | 0 <= j < |pages|
      ensures HasStoredFields(DocumentsOf(pages)[j])
    {
      StoredFieldsOfDocument(pages[j]);
    }
  }

  lemma AllStoredAppend(a: seq<Document>, b: seq<Document>)
    requires AllStored(a) && AllStored(b)
    ensures AllStored(a + b)
  {
    forall j | 0 <= j < |a + b|
      ensures HasStoredFields((a + b)[j])
    {
      if j >= |a| {
        assert (a + b)[j] == b[j - |a|];
      }
    }
  }

  // ---------------------------------------------------------------------
  // Query results

  /** An `f32` score, carried unchanged from the hit to the entry. */
  datatype Score = Score(bits: bv32)

  /** A ranked hit: its score and the address of the document it found. */
  datatype Hit = Hit(score: Score, address: nat)

  /** `PageMatchEntry` without its two snippets. */
  datatype Entry = Entry(title: string, text: string, pageId: Int64, score: Score)

  /**
   * What the library does during one query: the failures it may raise, in the
   * order the query meets them, the query parser's verdict, and every matching
   * document ranked best first.
   */
  datatype QueryEnv = QueryEnv(
    readerFault: Option<string>,
    parseError: Option<string>,
    searchFault: Option<string>,
    snippetFault: Option<string>,
    ranked: seq<Hit>,
    fetchFault: Option<(nat, string)>)

  /** Every hit addresses one of `n` documents. */
  predicate Addressed(hits: seq<Hit>, n: nat) {
    forall j :: 0 <= j < |hits| ==> hits[j].address < n
  }

  /** `TopDocs::with_limit(count)`: the best `count` hits, best first. */
  function TopDocs(ranked: seq<Hit>, count: nat): (top: seq<Hit>)
    ensures |top| <= count && |top| <= |ranked|
    ensures top == ranked[..|top|]
    ensures |top| == count || top == ranked
  {
    if |ranked| <= count then ranked else ranked[..count]
  }

  /** The entry for one hit: the stored id, title and text of its document, with the hit's score. */
  function EntryOf(doc: Document, score: Score): (e: Entry)
    requires HasStoredFields(doc)
    ensures Some(I64(e.pageId)) == GetFirst(doc, IdField)
    ensures Some(Text(e.title)) == GetFirst(doc, TitleField)
    ensures Some(Text(e.text)) == GetFirst(doc, TextField)
    ensures e.score == score
  {
    Entry(GetFirst(doc, TitleField).value.text, GetFirst(doc, TextField).value.text,
          GetFirst(doc, IdField).value.int64, score)
  }

  /** A hit on a page's document reports that page. */
  lemma EntryOfIndexedPage(page: Page, score: Score)
    ensures HasStoredFields(DocumentOf(page))
    ensures EntryOf(DocumentOf(page), score) == Entry(page.title, page.text, page.id, score)
  {
    StoredFieldsOfDocument(page);
  }

  /** The entries pushed for a sequence of hits, one per hit in hit order. */
  function EntriesOf(docs: seq<Document>, hits: seq<Hit>): (entries: seq<Entry>)
    requires AllStored(docs) && Addressed(hits, |docs|)
    ensures |entries| == |hits|
    ensures forall j :: 0 <= j < |hits| ==> entries[j] == EntryOf(docs[hits[j].address], hits[j].score)
  {
    seq(|hits|, j requires 0 <= j < |hits| => EntryOf(docs[hits[j].address], hits[j].score))
  }

  /**
   * What `query` returns: the reader's, the parser's, the search's and the
   * snippet generators' failures come first, in that order; then one entry per
   * top hit, unless fetching one of their documents fails.
   */
  function QueryResult(docs: seq<Document>, count: nat, env: QueryEnv): (r: Result<seq<Entry>>)
    requires AllStored(docs) && Addressed(env.ranked, |docs|)
  {
    if env.readerFault.Some? then Err(Tantivy(env.readerFault.value))
    else if env.parseError.Some? then Err(InvalidQuery(env.parseError.value))
    else if env.searchFault.Some? then Err(Tantivy(env.searchFault.value))
    else if env.snippetFault.Some? then Err(Tantivy(env.snippetFault.value))
    else
      var top := TopDocs(env.ranked, count);
      if env.fetchFault.Some? && env.fetchFault.value.0 < |top| then Err(Tantivy(env.fetchFault.value.1))
      else Ok(EntriesOf(docs, top))
  }

  /** A query the parser rejects fails with that error whatever the search would have done. */
  lemma ParseErrorBeforeSearch(docs: seq<Document>, count: nat, env: QueryEnv, other: QueryEnv)
    requires AllStored(docs) && Addressed(env.ranked, |docs|) && Addressed(other.ranked, |docs|)
    requires env.readerFault.None? && env.parseError.Some?
    requires other.readerFault == env.readerFault && other.parseError == env.parseError
    ensures QueryResult(docs, count, env) == QueryResult(docs, count, other) == Err(InvalidQuery(env.parseError.value))
  {
  }

  /**
   * A successful query holds at most `count` entries, exactly one per top
   * hit in hit order, each with that hit's score and its document's stored
   * id, title and text.
   */
  lemma QueryEntries(docs: seq<Document>, count: nat, env: QueryEnv)
    requires AllStored(docs) && Addressed(env.ranked, |docs|)
    requires QueryResult(docs, count, env).Ok?
    ensures var entries := QueryResult(docs, count, env).value;
            var top := TopDocs(env.ranked, count);
            && |entries| == |top| <= count
            && forall i :: 0 <= i < |entries| ==>
                 && entries[i].score == top[i].score
                 && Some(I64(entries[i].pageId)) == GetFirst(docs[top[i].address], IdField)
                 && Some(Text(entries[i].title)) == GetFirst(docs[top[i].address], TitleField)
                 && Some(Text(entries[i].text)) == GetFirst(docs[top[i].address], TextField)
  {
  }

  /**
   * Indexing then querying: a top hit on the k-th document of an indexed
   * batch reports the k-th page of that batch.
   */
  lemma QueryFindsIndexedPage(docs: seq<Document>, before: seq<Document>, pages: seq<Page>, count: nat, env: QueryEnv, i: nat, k: nat)
    requires docs == before + DocumentsOf(pages)
    requires AllStored(docs) && Addressed(env.ranked, |docs|)
    requires QueryResult(docs, count, env).Ok?
    requires i < |TopDocs(env.ranked, count)| && k < |pages|
    requires TopDocs(env.ranked, count)[i].address == |before| + k
    ensures var entries := QueryResult(docs, count, env).value;
            i < |entries| && entries[i] == Entry(pages[k].title, pages[k].text, pages[k].id, env.ranked[i].score)
  {
    var top := TopDocs(env.ranked, count);
    var entries := EntriesOf(docs, top);
    assert QueryResult(docs, count, env).value == entries;
    assert top[i] == env.ranked[i];
    IndexedDocumentAt(docs, before, pages, k);
    assert entries[i] == EntryOf(DocumentOf(pages[k]), top[i].score);
    EntryOfIndexedPage(pages[k], top[i].score);
  }

  lemma IndexedDocumentAt(docs: seq<Document>, before: seq<Document>, pages: seq<Page>, k: nat)
    requires docs == before + DocumentsOf(pages) && k < |pages|
    ensures |before| + k < |docs| && docs[|before| + k] == DocumentOf(pages[k])
  {
  }

  // ---------------------------------------------------------------------
  // The index

  /** The failures the index writer may raise during one `index_pages` call. */
  datatype WriterFaults = WriterFaults(
    open: Option<string>,
    add: Option<(nat, string)>,
    commit: Option<string>)

  /** The failure, if any, of adding the k-th page. */
  function AddFault(faults: WriterFaults, k: nat): (m: Option<string>)
    ensures m.Some? <==> faults.add.Some? && faults.add.value.0 == k
  {
    if faults.add.Some? && faults.add.value.0 == k then Some(faults.add.value.1) else None
  }

  /**
   * What `index_pages` returns for `n` pages: opening the writer, adding one
   * of the pages, or committing may fail, and the first failure is the result.
   */
  function IndexOutcome(n: nat, faults: WriterFaults): (r: Result<()>)
    ensures r.Ok? <==> faults.open.None? && (faults.add.None? || faults.add.value.0 >= n) && faults.commit.None?
    ensures r.Err? ==> r.error.Tantivy?
  {
    if faults.open.Some? then Err(Tantivy(faults.open.value))
    else if faults.add.Some? && faults.add.value.0 < n then Err(Tantivy(faults.add.value.1))
    else if faults.commit.Some? then Err(Tantivy(faults.commit.value))
    else Ok(())
  }

  /** A tantivy `IndexWriter`: the documents added since it was opened, not yet committed. */
  class IndexWriter {
    var pending: seq<Document>

    constructor ()
      ensures pending == []
    {
      pending := [];
    }

    /** `IndexWriter::add_document`: queues the document unless the writer fails. */
    method AddDocument(doc: Document, fault: Option<string>) returns (r: Result<()>)
      modifies this
      ensures r.Ok? <==> fault.None?
      ensures r.Err? ==> r.error == Tantivy(fault.value)
      ensures pending == if r.Ok? then old(pending) + [doc] else old(pending)
    {
      if fault.Some? {
        return Err(Tantivy(fault.value));
      }
      pending := pending + [doc];
      r := Ok(());
    }
  }

  /** `Search`: the index, as the documents of its commits and the number of commits so far. */
  class Search {
    var committed: seq<Document>
    var commits: nat

    /** Every stored document carries the fields a query reads back. */
    ghost predicate Valid()
      reads this
    {
      AllStored(committed)
    }

    /** An index opened over the documents of pages this program indexed earlier. */
    constructor (existing: seq<Page>)
      ensures Valid()
      ensures committed == DocumentsOf(existing) && commits == 0
    {
      committed := DocumentsOf(existing);
      commits := 0;
      new;
      DocumentsStored(existing);
    }

    /** `make_doc`: never fails, and builds the page's document field by field. */
    method MakeDoc(page: Page) returns (r: Result<Document>)
      ensures r == Ok(DocumentOf(page))
      ensures HasStoredFields(r.value)
    {
      var doc: Document := [FieldValue(IdField, I64(page.id))];
      doc := doc + [FieldValue(TitleField, Text(page.title))];
      doc := doc + [FieldValue(TextField, Text(page.text))];
      ghost var head := doc;
      var titleDate := TitleDateTimestamp(page.titleDate);
      if titleDate.Some? {
        doc := doc + [FieldValue(TitleDateField, DateSecs(titleDate.value))];
      }
      assert doc == head + DateFields(titleDate);
      doc := doc + [FieldValue(PageTouchedField, DateSecs(WikiTimestampSeconds(page.pageTouched)))];
      doc := doc + [FieldValue(NamespaceField, Text(NamespaceName(page.namespace)))];
      DocumentFromInOrder(page.id, page.title, page.text, titleDate,
                          WikiTimestampSeconds(page.pageTouched), NamespaceName(page.namespace));
      StoredFieldsOfDocument(page);
      r := Ok(doc);
    }

    /** `index_page`: adds the page's document to the writer. */
    method IndexPage(writer: IndexWriter, page: Page, fault: Option<string>) returns (r: Result<()>)
      modifies writer
      ensures r.Ok? <==> fault.None?
      ensures r.Err? ==> r.error == Tantivy(fault.value)
      ensures writer.pending == if r.Ok? then old(writer.pending) + [DocumentOf(page)] else old(writer.pending)
    {
      var doc := MakeDoc(page);
      r := writer.AddDocument(doc.value, fault);
    }

    /**
     * `index_pages`: adds one document per page, in order, and commits once
     * after the last; a failure returns before the commit, leaving the index
     * as it was.
     */
    method IndexPages(pages: seq<Page>, faults: WriterFaults) returns (r: Result<()>)
      requires Valid()
      modifies this
      ensures Valid()
      ensures r == IndexOutcome(|pages|, faults)
      ensures r.Ok? ==> committed == old(committed) + DocumentsOf(pages) && commits == old(commits) + 1
      ensures r.Err? ==> committed == old(committed) && commits == old(commits)
    {
      if faults.open.Some? {
        return Err(Tantivy(faults.open.value));
      }
      var writer := new IndexWriter();
      var i := 0;
      while i < |pages|
        invariant 0 <= i <= |pages|
        invariant writer.pending == MapSeq(pages[..i], DocumentOf)
        invariant faults.add.Some? ==> faults.add.value.0 >= i
        invariant committed == old(committed) && commits == old(commits)
      {
        var added := IndexPage(writer, pages[i], AddFault(faults, i));
        if added.Err? {
          return added;
        }
        MapSeqPrefix(pages, DocumentOf, i);
        i := i + 1;
      }
      assert pages[..i] == pages;
      if faults.commit.Some? {
        return Err(Tantivy(faults.commit.value));
      }
      DocumentsStored(pages);
      AllStoredAppend(committed, writer.pending);
      committed := committed + writer.pending;
      commits := commits + 1;
      r := Ok(());
    }

    /**
     * `query`: fails as `QueryResult` says, and otherwise pushes one entry per
     * top hit, in hit order.
     */
    method Query(count: nat, env: QueryEnv) returns (r: Result<seq<Entry>>)
      requires Valid()
      requires count > 0
      requires Addressed(env.ranked, |committed|)
      ensures r == QueryResult(committed, count, env)
    {
      if env.readerFault.Some? {
        return Err(Tantivy(env.readerFault.value));
      }
      if env.parseError.Some? {
        return Err(InvalidQuery(env.parseError.value));
      }
      if env.searchFault.Some? {
        return Err(Tantivy(env.searchFault.value));
      }
      var top := TopDocs(env.ranked, count);
      if env.snippetFault.Some? {
        return Err(Tantivy(env.snippetFault.value));
      }
      var entries: seq<Entry> := [];
      var i := 0;
      while i < |top|
        invariant 0 <= i <= |top|
        invariant entries == EntriesOf(committed, top[..i])
        invariant env.fetchFault.Some? ==> env.fetchFault.value.0 >= i
      {
        if env.fetchFault.Some? && env.fetchFault.value.0 == i {
          return Err(Tantivy(env.fetchFault.value.1));
        }
        var hit := top[i];
        var doc := committed[hit.address];
        entries := entries + [EntryOf(doc, hit.score)];
        i := i + 1;
      }
      assert top[..i] == top;
      r := Ok(entries);
    }
  }
}
