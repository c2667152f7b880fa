/**
 * One CSV row at a time: the document pass (`parse_doc_row`), the category
 * pass (`parse_cat_row`, `lookup_article`) and the two passes over whole
 * files (`wrangle`).
 */
module Rows {
  import opened Options
  import opened Text
  import opened Table
  import opened Entities
  import opened Authors
  import opened Keywords
  import opened Articles

  /** The store after the publication lookup and an accepted article insert
      is still valid. */
  lemma AddArticleKeepsValid(s: Store, row: Row)
    requires PublicationReadable(s.publications, row) && HasArticleColumns(row) && Valid(s)
    ensures var pub := GetOrCreatePublication(s.publications, row);
            Valid(s.(publications := pub.table, articles := s.articles + [Article(ArticleFields(row, pub.id))]))
  {
    var pub := GetOrCreatePublication(s.publications, row);
    var a := Article(ArticleFields(row, pub.id));
    var s2 := s.(publications := pub.table, articles := s.articles + [a]);
    PublicationKeepsTitlesUnique(s.publications, row);
    ArticleRefersToPublication(row, pub.id, |pub.table|);
    assert KeysUnique(s2);
    forall k | 0 <= k < |s2.articles|
      ensures RefersToPublication(s2.articles[k], |s2.publications|)
    {
      if k < |s.articles| {
        assert s2.articles[k] == s.articles[k];
      }
    }
  }

  /** The author pass then the keyword pass for the article `articleId` just
      inserted: the author tables change as the zip loop links them, then the
      keyword tables as the keyword loop links them; the author record, if any,
      comes first, then the keyword records. */
  function LinkDocument(schema: Schema, s: Store, row: Row, articleId: nat): (r: RowResult)
    requires IsDocRow(row) && HasLinkColumns(row)
    ensures HasColumns(row, KeywordFields)
    ensures var mid := r.store.(keywords := s.keywords, articleKeywords := s.articleKeywords);
      && AuthorsLinked(s, mid, Disambiguate(AuthorNames(row)), AffiliationNames(row), articleId)
      && TermsLinked(mid, r.store, Requested(row, KeywordFields), articleId)
    ensures var authorErrors := AuthorErrors(row["Document Title"], row["Publication_Year"], articleId, AuthorNames(row));
      && authorErrors <= r.errors
      && var keywordErrors := r.errors[|authorErrors|..];
         && ReportsOnlyRepeats(keywordErrors, row, KeywordFields, row["Document Title"], row["Publication_Year"], articleId)
         && ReportsEveryRepeat(keywordErrors, row, KeywordFields)
         && ReportsOnce(keywordErrors)
         && (keywordErrors == [] <==> NoRepeats(row, KeywordFields))
  {
    var au := HandleAuthors(schema, s, row, articleId);
    var kw := HandleKeywords(au.store, row, articleId);
    var r := RowResult(kw.store, au.errors + kw.errors);
    assert r.store.(keywords := s.keywords, articleKeywords := s.articleKeywords) == au.store;
    assert r.errors[|au.errors|..] == kw.errors;
    r
  }

  lemma LinkDocumentKeepsValid(schema: Schema, s: Store, row: Row, articleId: nat)
    requires IsDocRow(row) && HasLinkColumns(row) && Valid(s) && InRange(articleId, |s.articles|)
    ensures Valid(LinkDocument(schema, s, row, articleId).store)
  {
    var au := HandleAuthors(schema, s, row, articleId);
    HandleAuthorsKeepsValid(schema, s, row, articleId);
    assert au.store.articles == s.articles;
    HandleKeywordsKeepsValid(au.store, row, articleId);
  }

  /** The insert of the row's article succeeds: the row has every article
      column and the schema accepts the article. */
  predicate ArticleInserted(schema: Schema, s: Store, row: Row)
    requires PublicationReadable(s.publications, row)
  {
    && HasArticleColumns(row)
    && schema.acceptsArticle(s.articles, Article(ArticleFields(row, GetOrCreatePublication(s.publications, row).id)))
  }

  /** The row carries every column `parse_doc_row` reads on the row's own path
      through it, so it raises no `KeyError`: the publisher and meeting date
      only when the publication title is new, and the author and keyword
      columns only once the article is inserted. A row missing any other
      article column is not excluded: its insert fails and is reported. */
  predicate DocRowReadable(schema: Schema, s: Store, row: Row) {
    && PublicationReadable(s.publications, row)
    && (ArticleInserted(schema, s, row) ==> HasLinkColumns(row))
  }

  /** `parse_doc_row`. The publication is looked up or created first and
      stays whatever happens next. A row missing an article column, or an
      article the schema refuses, yields one "could not insert article"
      record and no author or keyword work. Otherwise the article is appended
      with the next id and its authors and keywords are linked to it. */
  function ParseDocRow(schema: Schema, s: Store, row: Row): (r: RowResult)
    requires DocRowReadable(schema, s, row)
    ensures var pub := GetOrCreatePublication(s.publications, row);
            var refused := RowResult(s.(publications := pub.table),
                                     [ArticleNotInserted(row["Document Title"], row["Publication_Year"])]);
      && (!HasArticleColumns(row) ==> r == refused)
      && (HasArticleColumns(row) ==>
            var a := Article(ArticleFields(row, pub.id));
            var s2 := s.(publications := pub.table, articles := s.articles + [a]);
            && (!schema.acceptsArticle(s.articles, a) ==> r == refused)
            && (schema.acceptsArticle(s.articles, a) ==> r == LinkDocument(schema, s2, row, |s2.articles|)))
  {
    var pub := GetOrCreatePublication(s.publications, row);
    var s1 := s.(publications := pub.table);
    match InsertArticle(schema, s1.articles, row, pub.id)
    case None =>
      RowResult(s1, [ArticleNotInserted(row["Document Title"], row["Publication_Year"])])
    case Some(created) =>
      var a := Article(ArticleFields(row, pub.id));
      assert created.table == s.articles + [a];
      var s2 := s.(publications := pub.table, articles := s.articles + [a]);
      LinkDocument(schema, s2, row, |s2.articles|)
  }

  /** A document row keeps the store valid. */
  lemma ParseDocRowKeepsValid(schema: Schema, s: Store, row: Row)
    requires DocRowReadable(schema, s, row)
    ensures Valid(s) ==> Valid(ParseDocRow(schema, s, row).store)
  {
    if !Valid(s) {
      return;
    }
    var pub := GetOrCreatePublication(s.publications, row);
    var r := ParseDocRow(schema, s, row);
    if HasArticleColumns(row) && schema.acceptsArticle(s.articles, Article(ArticleFields(row, pub.id))) {
      var a := Article(ArticleFields(row, pub.id));
      var s2 := s.(publications := pub.table, articles := s.articles + [a]);
      AddArticleKeepsValid(s, row);
      LinkDocumentKeepsValid(schema, s2, row, |s2.articles|);
      assert r.store == LinkDocument(schema, s2, row, |s2.articles|).store;
    } else {
      PublicationStepKeepsValid(s, row);
      assert r.store == s.(publications := pub.table);
    }
  }

  /** Looking up or creating the publication keeps the store valid. */
  lemma PublicationStepKeepsValid(s: Store, row: Row)
    requires PublicationReadable(s.publications, row) && Valid(s)
    ensures Valid(s.(publications := GetOrCreatePublication(s.publications, row).table))
  {
    var pub := GetOrCreatePublication(s.publications, row);
    PublicationKeepsTitlesUnique(s.publications, row);
    forall k | 0 <= k < |s.articles|
      ensures RefersToPublication(s.articles[k], |pub.table|)
    {
    }
  }

  /** An article's stored title, if it has one. */
  function ArticleTitle(a: Article): Option<Value> {
    if "title" in a.fields then Some(a.fields["title"]) else None
  }

  /** `lookup_article`: the id of the first article whose stored title is
      `title`. The year is parsed by the source but takes no part in the
      query, so it takes no part here. */
  function LookupArticle(articles: seq<Article>, title: string, year: string): (r: Option<nat>)
    ensures r.Some? <==> exists j :: 0 <= j < |articles| && ArticleTitle(articles[j]) == Some(Str(title))
    ensures r.Some? ==> InRange(r.value, |articles|) && ArticleTitle(articles[r.value - 1]) == Some(Str(title))
    ensures r.Some? ==> forall j :: 0 <= j < r.value - 1 ==> ArticleTitle(articles[j]) != Some(Str(title))
  {
    match Find(articles, ArticleTitle, Some(Str(title)))
    case Some(i) => Some(i + 1)
    case None => None
  }

  /** The label type the category pass assigns. */
  const ManualLabel: string := "sgsma_manual"

  lemma ManualLabelStripped()
    ensures Strip(ManualLabel) == ManualLabel
  {
    assert [] + ManualLabel + [] == ManualLabel;
    StripPadded([], ManualLabel, []);
  }

  /** `parse_cat_row`. The article is found by stripped title alone; when none
      has it, one "could not lookup article for label" record and no change.
      Otherwise the stripped domain is looked up or created as a label of type
      "sgsma_manual" (no label for an empty domain) and the label is linked to
      the article; a link the schema refuses yields one "could not assign label
      to article" record, and the label created for it stays. */
  function ParseCatRow(schema: Schema, s: Store, row: Row): (r: RowResult)
    requires IsCatRow(row)
    ensures var found := LookupArticle(s.articles, Strip(row["Document Title"]), row[CatYearColumn]);
      && (found.None? ==>
            r == RowResult(s, [ArticleNotFoundForLabel(row["Document Title"], row[CatYearColumn], row["Domain"])]))
      && (found.Some? ==>
            var look := GetOrCreateTerm(s.labels, Strip(row["Domain"]), ManualLabel);
            var link := LabelLink(look.id, found.value);
            && r.store.labels == look.table
            && (look.id.Some? ==> r.store.labels[look.id.value - 1] == Term(Strip(row["Domain"]), ManualLabel))
            && (schema.acceptsArticleLabel(s.articleLabels, link) ==>
                  r.store == s.(labels := look.table, articleLabels := s.articleLabels + [link]) && r.errors == [])
            && (!schema.acceptsArticleLabel(s.articleLabels, link) ==>
                  && r.store == s.(labels := look.table)
                  && r.errors == [LabelNotAssigned(row["Document Title"], row[CatYearColumn], row["Domain"],
                                                   found.value, look.id)]))
  {
    match LookupArticle(s.articles, Strip(row["Document Title"]), row[CatYearColumn])
    case None =>
      RowResult(s, [ArticleNotFoundForLabel(row["Document Title"], row[CatYearColumn], row["Domain"])])
    case Some(articleId) =>
      StripIdempotent(row["Domain"]);
      ManualLabelStripped();
      var look := GetOrCreateTerm(s.labels, Strip(row["Domain"]), ManualLabel);
      var link := LabelLink(look.id, articleId);
      var s1 := s.(labels := look.table);
      if schema.acceptsArticleLabel(s.articleLabels, link) then
        RowResult(s1.(articleLabels := s.articleLabels + [link]), [])
      else
        RowResult(s1, [LabelNotAssigned(row["Document Title"], row[CatYearColumn], row["Domain"], articleId, look.id)])
  }

  /** A category row keeps the database valid. */
  lemma ParseCatRowKeepsValid(schema: Schema, s: Store, row: Row)
    requires IsCatRow(row)
    ensures Valid(s) ==> Valid(ParseCatRow(schema, s, row).store)
  {
    var found := LookupArticle(s.articles, Strip(row["Document Title"]), row[CatYearColumn]);
    if Valid(s) && found.Some? {
      LabelStepKeepsValid(schema, s, row["Domain"], found.value);
    }
  }

  lemma LabelStepKeepsValid(schema: Schema, s: Store, domain: string, articleId: nat)
    requires Valid(s) && InRange(articleId, |s.articles|)
    ensures var look := GetOrCreateTerm(s.labels, Strip(domain), ManualLabel);
            var link := LabelLink(look.id, articleId);
            && Valid(s.(labels := look.table))
            && Valid(s.(labels := look.table, articleLabels := s.articleLabels + [link]))
  {
    var look := GetOrCreateTerm(s.labels, Strip(domain), ManualLabel);
    var link := LabelLink(look.id, articleId);
    var s1 := s.(labels := look.table);
    var s2 := s1.(articleLabels := s.articleLabels + [link]);
    if look.id.Some? {
      GetOrCreateKeepsKeysUnique(s.labels, Itself, Term(Strip(Strip(domain)), Strip(ManualLabel)));
    }
    assert KeysUnique(s1);
    forall k | 0 <= k < |s1.articleLabels|
      ensures (s1.articleLabels[k].labelId.Some? ==> InRange(s1.articleLabels[k].labelId.value, |s1.labels|))
    {
    }
    forall k | 0 <= k < |s2.articleLabels|
      ensures (s2.articleLabels[k].labelId.Some? ==> InRange(s2.articleLabels[k].labelId.value, |s2.labels|))
              && InRange(s2.articleLabels[k].articleId, |s2.articles|)
    {
      if k < |s.articleLabels| {
        assert s2.articleLabels[k] == s.articleLabels[k];
      }
    }
  }

  /** A document row adds at most one article, after the existing ones, and
      leaves the label tables alone. */
  lemma ParseDocRowAddsAtMostOneArticle(schema: Schema, s: Store, row: Row)
    requires DocRowReadable(schema, s, row)
    ensures var r := ParseDocRow(schema, s, row);
      && s.articles <= r.store.articles && |r.store.articles| <= |s.articles| + 1
      && r.store.labels == s.labels && r.store.articleLabels == s.articleLabels
  {
  }

  /** One loop of `wrangle`: which rows it can take from which database
      without raising, and what it does with each such row. */
  datatype Loop = Loop(ready: (Store, Row) -> bool, step: (Store, Row) -> RowResult)

  /** `loop` can take every row of `rows` from any database. */
  ghost predicate Applies(loop: Loop, rows: seq<Row>) {
    forall t: Store, i :: 0 <= i < |rows| ==> loop.ready(t, rows[i])
  }

  /** The loop over `rows` from `s` runs to its end: `loop` can be taken on
      each row from the database the previous rows left. */
  ghost predicate Runs(loop: Loop, s: Store, rows: seq<Row>)
    decreases |rows|
  {
    rows == [] || (loop.ready(s, rows[0]) && Runs(loop, loop.step(s, rows[0]).store, rows[1..]))
  }

  /** A loop that can be taken from any database runs over every file. */
  lemma {:induction false} AppliesRuns(loop: Loop, s: Store, rows: seq<Row>)
    requires Applies(loop, rows)
    ensures Runs(loop, s, rows)
    decreases |rows|
  {
    if rows != [] {
      var tail := rows[1..];
      assert forall k :: 0 <= k < |tail| ==> tail[k] == rows[k + 1];
      AppliesRuns(loop, loop.step(s, rows[0]).store, tail);
    }
  }

  /** One loop of `wrangle` over the rows of one file: `loop` on each row in
      file order, the database threaded through, each row's records reported
      after the previous row's. */
  function Pass(loop: Loop, s: Store, rows: seq<Row>): (r: RowResult)
    requires Runs(loop, s, rows)
    ensures rows == [] ==> r.store == s && r.errors == []
    ensures |rows| == 1 ==> r == loop.step(s, rows[0])
    decreases |rows|
  {
    if rows == [] then RowResult(s, [])
    else
      var head := loop.step(s, rows[0]);
      var rest := Pass(loop, head.store, rows[1..]);
      RowResult(rest.store, head.errors + rest.errors)
  }

  lemma AppendAssociates<T>(x: seq<T>, y: seq<T>, z: seq<T>)
    ensures x + (y + z) == (x + y) + z
  {
  }

  /** Running a loop over two runs of rows one after the other is running it
      over them as one file. */
  lemma {:induction false} PassConcat(loop: Loop, s: Store, a: seq<Row>, b: seq<Row>)
    requires Runs(loop, s, a) && Runs(loop, Pass(loop, s, a).store, b)
    ensures Runs(loop, s, a + b)
    ensures var first := Pass(loop, s, a);
            var rest := Pass(loop, first.store, b);
            Pass(loop, s, a + b) == RowResult(rest.store, first.errors + rest.errors)
    decreases |a|
  {
    if a == [] {
      assert a + b == b;
    } else {
      var ab := a + b;
      assert ab[0] == a[0];
      assert ab[1..] == a[1..] + b;
      var head := loop.step(s, a[0]);
      PassConcat(loop, head.store, a[1..], b);
      var tail := Pass(loop, head.store, a[1..]);
      var rest := Pass(loop, tail.store, b);
      AppendAssociates(head.errors, tail.errors, rest.errors);
    }
  }

  /** Every row of the second file satisfies the category row shape. */
  ghost predicate AllCatRows(cats: seq<Row>) {
    forall i :: 0 <= i < |cats| ==> IsCatRow(cats[i])
  }

  /** The first loop: `parse_doc_row` on a row it can read. A run never takes
      the other branch, since `Runs` demands that each row be readable. */
  function DocLoop(schema: Schema): Loop {
    Loop((t: Store, row: Row) => DocRowReadable(schema, t, row),
         (t: Store, row: Row) => if DocRowReadable(schema, t, row) then ParseDocRow(schema, t, row) else RowResult(t, []))
  }

  /** The second loop: `parse_cat_row` on a row with the category columns. */
  function CatLoop(schema: Schema): Loop {
    Loop((t: Store, row: Row) => IsCatRow(row),
         (t: Store, row: Row) => if IsCatRow(row) then ParseCatRow(schema, t, row) else RowResult(t, []))
  }

  /** `loop` keeps a valid database valid, on every row of `rows`. */
  ghost predicate StepKeepsValid(loop: Loop, rows: seq<Row>) {
    forall t: Store, i :: 0 <= i < |rows| && loop.ready(t, rows[i]) && Valid(t) ==> Valid(loop.step(t, rows[i]).store)
  }

  lemma {:induction false} PassKeepsValid(loop: Loop, s: Store, rows: seq<Row>)
    requires Runs(loop, s, rows) && StepKeepsValid(loop, rows)
    ensures Valid(s) ==> Valid(Pass(loop, s, rows).store)
    decreases |rows|
  {
    if rows != [] {
      var tail := rows[1..];
      assert forall k :: 0 <= k < |tail| ==> tail[k] == rows[k + 1];
      PassKeepsValid(loop, loop.step(s, rows[0]).store, tail);
    }
  }

  /** `loop` appends at most one article and leaves the labels alone, on
      every row of `rows`. */
  ghost predicate StepAddsAtMostOneArticle(loop: Loop, rows: seq<Row>) {
    forall t: Store, i :: 0 <= i < |rows| && loop.ready(t, rows[i]) ==>
      && t.articles <= loop.step(t, rows[i]).store.articles
      && |loop.step(t, rows[i]).store.articles| <= |t.articles| + 1
      && loop.step(t, rows[i]).store.labels == t.labels
      && loop.step(t, rows[i]).store.articleLabels == t.articleLabels
  }

  lemma {:induction false} PassAddsArticles(loop: Loop, s: Store, rows: seq<Row>)
    requires Runs(loop, s, rows) && StepAddsAtMostOneArticle(loop, rows)
    ensures var r := Pass(loop, s, rows);
      && s.articles <= r.store.articles && |r.store.articles| <= |s.articles| + |rows|
      && r.store.labels == s.labels && r.store.articleLabels == s.articleLabels
    decreases |rows|
  {
    if rows != [] {
      var tail := rows[1..];
      assert forall k :: 0 <= k < |tail| ==> tail[k] == rows[k + 1];
      PassAddsArticles(loop, loop.step(s, rows[0]).store, tail);
    }
  }

  /** `loop` either links one label or reports one record, and changes
      nothing but the label tables, on every row of `rows`. */
  ghost predicate StepLinksOrReports(loop: Loop, rows: seq<Row>) {
    forall t: Store, i :: 0 <= i < |rows| && loop.ready(t, rows[i]) ==>
      && loop.step(t, rows[i]).store == t.(labels := loop.step(t, rows[i]).store.labels,
                                      articleLabels := loop.step(t, rows[i]).store.articleLabels)
      && t.labels <= loop.step(t, rows[i]).store.labels
      && t.articleLabels <= loop.step(t, rows[i]).store.articleLabels
      && |loop.step(t, rows[i]).store.articleLabels| + |loop.step(t, rows[i]).errors| == |t.articleLabels| + 1
  }

  lemma {:induction false} PassLinksOrReports(loop: Loop, s: Store, rows: seq<Row>)
    requires Runs(loop, s, rows) && StepLinksOrReports(loop, rows)
    ensures var r := Pass(loop, s, rows);
      && r.store == s.(labels := r.store.labels, articleLabels := r.store.articleLabels)
      && s.labels <= r.store.labels && s.articleLabels <= r.store.articleLabels
      && |r.store.articleLabels| + |r.errors| == |s.articleLabels| + |rows|
    decreases |rows|
  {
    if rows != [] {
      var tail := rows[1..];
      assert forall k :: 0 <= k < |tail| ==> tail[k] == rows[k + 1];
      PassLinksOrReports(loop, loop.step(s, rows[0]).store, tail);
    }
  }

  /** The first loop of `wrangle`: `parse_doc_row` on every document row. */
  function LoadDocs(schema: Schema, s: Store, docs: seq<Row>): (r: RowResult)
    requires Runs(DocLoop(schema), s, docs)
    ensures s.articles <= r.store.articles && |r.store.articles| <= |s.articles| + |docs|
    ensures r.store.labels == s.labels && r.store.articleLabels == s.articleLabels
    ensures Valid(s) ==> Valid(r.store)
  {
    DocStepKeepsValid(schema, docs);
    DocStepAddsAtMostOneArticle(schema, docs);
    PassKeepsValid(DocLoop(schema), s, docs);
    PassAddsArticles(DocLoop(schema), s, docs);
    Pass(DocLoop(schema), s, docs)
  }

  /** A row whose header has the publisher and meeting date, and the author
      and keyword columns whenever it has all the article columns, never
      raises a `KeyError` in `parse_doc_row`, whatever the database holds. */
  predicate CompleteDocRow(row: Row) {
    && IsDocRow(row) && HasPublicationColumns(row)
    && (HasArticleColumns(row) ==> HasLinkColumns(row))
  }

  /** A file of complete document rows runs to its end, from any database. */
  lemma CompleteDocRowsRun(schema: Schema, s: Store, docs: seq<Row>)
    requires forall i :: 0 <= i < |docs| ==> CompleteDocRow(docs[i])
    ensures Runs(DocLoop(schema), s, docs)
  {
    assert Applies(DocLoop(schema), docs);
    AppliesRuns(DocLoop(schema), s, docs);
  }

  lemma DocStepKeepsValid(schema: Schema, docs: seq<Row>)
    ensures StepKeepsValid(DocLoop(schema), docs)
  {
    forall t: Store, i | 0 <= i < |docs| && DocLoop(schema).ready(t, docs[i]) && Valid(t)
      ensures Valid(DocLoop(schema).step(t, docs[i]).store)
    {
      assert DocRowReadable(schema, t, docs[i]);
      ParseDocRowKeepsValid(schema, t, docs[i]);
    }
  }

  lemma DocStepAddsAtMostOneArticle(schema: Schema, docs: seq<Row>)
    ensures StepAddsAtMostOneArticle(DocLoop(schema), docs)
  {
    forall t: Store, i | 0 <= i < |docs| && DocLoop(schema).ready(t, docs[i])
      ensures var r := DocLoop(schema).step(t, docs[i]).store;
        && t.articles <= r.articles && |r.articles| <= |t.articles| + 1
        && r.labels == t.labels && r.articleLabels == t.articleLabels
    {
      assert DocRowReadable(schema, t, docs[i]);
      ParseDocRowAddsAtMostOneArticle(schema, t, docs[i]);
    }
  }

  /** The second loop of `wrangle`: `parse_cat_row` on every category row.
      Only the label tables change; each row either links one label or
      reports one record, never both. */
  function LoadCats(schema: Schema, s: Store, cats: seq<Row>): (r: RowResult)
    requires AllCatRows(cats)
    ensures r.store == s.(labels := r.store.labels, articleLabels := r.store.articleLabels)
    ensures s.labels <= r.store.labels && s.articleLabels <= r.store.articleLabels
    ensures |r.store.articleLabels| + |r.errors| == |s.articleLabels| + |cats|
    ensures Valid(s) ==> Valid(r.store)
  {
    CatStepApplies(schema, cats);
    AppliesRuns(CatLoop(schema), s, cats);
    CatStepKeepsValid(schema, cats);
    CatStepLinksOrReports(schema, cats);
    PassKeepsValid(CatLoop(schema), s, cats);
    PassLinksOrReports(CatLoop(schema), s, cats);
    Pass(CatLoop(schema), s, cats)
  }

  lemma CatStepApplies(schema: Schema, cats: seq<Row>)
    requires AllCatRows(cats)
    ensures Applies(CatLoop(schema), cats)
  {
  }

  lemma CatStepKeepsValid(schema: Schema, cats: seq<Row>)
    requires AllCatRows(cats)
    ensures StepKeepsValid(CatLoop(schema), cats)
  {
    forall t: Store, i | 0 <= i < |cats| && CatLoop(schema).ready(t, cats[i]) && Valid(t)
      ensures Valid(CatLoop(schema).step(t, cats[i]).store)
    {
      ParseCatRowKeepsValid(schema, t, cats[i]);
    }
  }

  lemma CatStepLinksOrReports(schema: Schema, cats: seq<Row>)
    requires AllCatRows(cats)
    ensures StepLinksOrReports(CatLoop(schema), cats)
  {
    forall t: Store, i | 0 <= i < |cats| && CatLoop(schema).ready(t, cats[i])
      ensures var r := CatLoop(schema).step(t, cats[i]);
        && r.store == t.(labels := r.store.labels, articleLabels := r.store.articleLabels)
        && t.labels <= r.store.labels && t.articleLabels <= r.store.articleLabels
        && |r.store.articleLabels| + |r.errors| == |t.articleLabels| + 1
    {
      ParseCatRowLinksOrReports(schema, t, cats[i]);
    }
  }

  /** A category row links one label or reports one record, and changes
      nothing but the label tables. */
  lemma ParseCatRowLinksOrReports(schema: Schema, s: Store, row: Row)
    requires IsCatRow(row)
    ensures var r := ParseCatRow(schema, s, row);
      && r.store == s.(labels := r.store.labels, articleLabels := r.store.articleLabels)
      && s.labels <= r.store.labels && s.articleLabels <= r.store.articleLabels
      && |r.store.articleLabels| + |r.errors| == |s.articleLabels| + 1
  {
  }

  /** `wrangle`: all document rows, then all category rows, on an empty
      database. The result is valid, holds at most one article per document
      row, and reports the document records first; after them, each category
      row has given one label link or one record. */
  function Wrangle(schema: Schema, docs: seq<Row>, cats: seq<Row>): (r: RowResult)
    requires Runs(DocLoop(schema), Empty, docs) && AllCatRows(cats)
    ensures Valid(r.store)
    ensures |r.store.articles| <= |docs|
    ensures var docRecords := LoadDocs(schema, Empty, docs).errors;
      && docRecords <= r.errors
      && |r.store.articleLabels| + (|r.errors| - |docRecords|) == |cats|
  {
    EmptyIsValid();
    var d := LoadDocs(schema, Empty, docs);
    var c := LoadCats(schema, d.store, cats);
    RowResult(c.store, d.errors + c.errors)
  }
}
