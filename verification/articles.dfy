/**
 * The publication lookup and the article insert of a document row
 * (`get_or_create_publication`, `insert_article`).
 */
module Articles {
  import opened Options
  import opened Text
  import opened Numbers
  import opened Table
  import opened Entities

  /** The publication a row names: stripped title, publisher and meeting date. */
  function PublicationOf(row: Row): Publication
    requires IsDocRow(row) && HasPublicationColumns(row)
  {
    Publication(Strip(row["Publication Title"]), Strip(row["Publisher"]), Strip(row["Meeting Date"]))
  }

  /** No stored publication has the row's stripped title. */
  predicate NewPublication(pubs: seq<Publication>, row: Row)
    requires IsDocRow(row)
  {
    forall j :: 0 <= j < |pubs| ==> pubs[j].title != Strip(row["Publication Title"])
  }

  /** The row carries what `get_or_create_publication` reads from it: the
      title always, the publisher and meeting date only for a new title. */
  predicate PublicationReadable(pubs: seq<Publication>, row: Row) {
    IsDocRow(row) && (NewPublication(pubs, row) ==> HasPublicationColumns(row))
  }

  /** `get_or_create_publication`: looked up by stripped title alone; when
      absent, created with the row's stripped publisher and meeting date. */
  function GetOrCreatePublication(pubs: seq<Publication>, row: Row): (r: Created<Publication>)
    requires PublicationReadable(pubs, row)
    ensures 1 <= r.id <= |r.table| && r.table[r.id - 1].title == Strip(row["Publication Title"])
    ensures !NewPublication(pubs, row) ==>
              r.table == pubs && forall j :: 0 <= j < r.id - 1 ==> pubs[j].title != Strip(row["Publication Title"])
    ensures NewPublication(pubs, row) ==> r.table == pubs + [PublicationOf(row)] && r.id == |pubs| + 1
  {
    var title := Strip(row["Publication Title"]);
    assert Has(pubs, TitleOf, title) <==> !NewPublication(pubs, row) by {
      assert forall j :: 0 <= j < |pubs| ==> TitleOf(pubs[j]) == pubs[j].title;
    }
    match Find(pubs, TitleOf, title)
    case Some(i) => Created(pubs, i + 1)
    case None => Created(pubs + [PublicationOf(row)], |pubs| + 1)
  }

  /** Two rows naming the same publication title get the same publication id,
      and the second creates nothing; it is not even asked for a publisher or
      a meeting date. */
  lemma PublicationIdempotent(pubs: seq<Publication>, row: Row, again: Row)
    requires PublicationReadable(pubs, row) && IsDocRow(again)
    requires Strip(again["Publication Title"]) == Strip(row["Publication Title"])
    ensures !NewPublication(GetOrCreatePublication(pubs, row).table, again)
    ensures var first := GetOrCreatePublication(pubs, row);
            var second := GetOrCreatePublication(first.table, again);
            second.id == first.id && second.table == first.table
  {
    var first := GetOrCreatePublication(pubs, row);
    var title := Strip(row["Publication Title"]);
    assert first.table[first.id - 1].title == title;
  }

  /** Looking up or creating a publication never adds a second row with a
      stored title. */
  lemma PublicationKeepsTitlesUnique(pubs: seq<Publication>, row: Row)
    requires PublicationReadable(pubs, row)
    ensures UniqueKeys(pubs, TitleOf) ==> UniqueKeys(GetOrCreatePublication(pubs, row).table, TitleOf)
  {
    var r := GetOrCreatePublication(pubs, row);
    if UniqueKeys(pubs, TitleOf) && NewPublication(pubs, row) {
      forall i, j | 0 <= i < j < |r.table|
        ensures TitleOf(r.table[i]) != TitleOf(r.table[j])
      {
        if j == |pubs| {
          assert r.table[i] == pubs[i];
        } else {
          assert r.table[i] == pubs[i] && r.table[j] == pubs[j];
        }
      }
    }
  }

  /** The text columns of an article, each with the CSV column it is read from. */
  const TextColumns: map<string, string> := map[
    "title" := "Document Title",
    "abstract" := "Abstract",
    "xplore_date" := "Date Added To Xplore",
    "issue" := "Issue",
    "issn" := "ISSN",
    "isbn" := "ISBNs",
    "doi" := "DOI",
    "funding_info" := "Funding Information",
    "pdf_link" := "PDF Link",
    "license" := "License",
    "online_date" := "Online Date",
    "document_identifier" := "Document Identifier"]

  /** The integer columns of an article, each with the CSV column it is read from. */
  const NumberColumns: map<string, string> := map[
    "pub_year" := "Publication_Year",
    "volume" := "Volume",
    "start_page" := "Start Page",
    "end_page" := "End Page",
    "citation_count" := "Article Citation Count",
    "reference_count" := "Reference Count",
    "copyright_year" := "Copyright Year"]

  const PublicationColumn: string := "publication_id"

  /** Every source column named above is a document column. */
  lemma ColumnsAreDocColumns(row: Row)
    requires IsDocRow(row) && HasArticleColumns(row)
    ensures forall c :: c in TextColumns ==> TextColumns[c] in row
    ensures forall c :: c in NumberColumns ==> NumberColumns[c] in row
  {
  }

  /** The three groups of article columns do not overlap. */
  lemma ColumnGroupsDisjoint()
    ensures forall c :: c in TextColumns ==> c !in NumberColumns && c != PublicationColumn
    ensures PublicationColumn !in NumberColumns
  {
  }

  /** The `fields` dict before filtering: stripped text for the text columns,
      `pint(..., None)` for the integer columns, and the publication id. */
  function Candidates(row: Row, publicationId: nat): (m: map<string, Option<Value>>)
    requires IsDocRow(row) && HasArticleColumns(row)
    ensures m.Keys == TextColumns.Keys + NumberColumns.Keys + {PublicationColumn}
    ensures m[PublicationColumn] == Some(Num(publicationId))
  {
    ColumnsAreDocColumns(row);
    var text := map c | c in TextColumns :: Some(Str(Strip(row[TextColumns[c]])));
    var numbers := map c | c in NumberColumns ::
      match Pint(row[NumberColumns[c]], None)
      case Some(v) => Some(Num(v))
      case None => None;
    (text + numbers)[PublicationColumn := Some(Num(publicationId))]
  }

  /** The entries of `m` that hold a value, unwrapped; entries holding no
      value are dropped. */
  function KeepPresent(m: map<string, Option<Value>>): (r: map<string, Value>)
    ensures forall c :: c in r <==> c in m && m[c].Some?
    ensures forall c :: c in r ==> m[c] == Some(r[c])
  {
    map c | c in m && m[c].Some? :: m[c].value
  }

  /** The columns `insert_article` writes: the publication id always, and
      nothing but the listed columns. */
  function ArticleFields(row: Row, publicationId: nat): (r: map<string, Value>)
    requires IsDocRow(row) && HasArticleColumns(row)
    ensures PublicationColumn in r && r[PublicationColumn] == Num(publicationId)
    ensures forall c :: c in r ==> c in TextColumns || c in NumberColumns || c == PublicationColumn
  {
    KeepPresent(Candidates(row, publicationId))
  }

  /** A text column is always written, stripped, even when it is empty. */
  lemma TextFieldKept(row: Row, publicationId: nat, c: string)
    requires IsDocRow(row) && HasArticleColumns(row) && c in TextColumns
    ensures TextColumns[c] in row
    ensures var f := ArticleFields(row, publicationId);
            c in f && f[c] == Str(Strip(row[TextColumns[c]]))
  {
    ColumnsAreDocColumns(row);
    ColumnGroupsDisjoint();
  }

  /** An integer column is written exactly when its stripped cell is a
      numeral, and then holds the numeral's value: an unparsable cell is left
      out, never stored as 0. */
  lemma NumberFieldKept(row: Row, publicationId: nat, c: string)
    requires IsDocRow(row) && HasArticleColumns(row) && c in NumberColumns
    ensures NumberColumns[c] in row
    ensures var f := ArticleFields(row, publicationId);
            && (c in f <==> IsNumeral(Strip(row[NumberColumns[c]])))
            && (c in f ==> f[c].Num? && ParseInt(Strip(row[NumberColumns[c]])) == Some(f[c].number))
  {
    ColumnsAreDocColumns(row);
    ColumnGroupsDisjoint();
    var m := Candidates(row, publicationId);
    var cell := row[NumberColumns[c]];
    assert m[c] == match Pint(cell, None) case Some(v) => Some(Num(v)) case None => None;
  }

  /** The article an accepted insert appends refers to its publication. */
  lemma ArticleRefersToPublication(row: Row, publicationId: nat, n: nat)
    requires IsDocRow(row) && HasArticleColumns(row) && InRange(publicationId, n)
    ensures RefersToPublication(Article(ArticleFields(row, publicationId)), n)
  {
  }

  /** `insert_article`: a row missing one of the article columns raises
      before anything is written; otherwise the schema decides whether the
      row is accepted, and an accepted article is appended and its id is the
      new row count (`cursor.lastrowid`). */
  function InsertArticle(schema: Schema, articles: seq<Article>, row: Row, publicationId: nat)
    : (r: Option<Created<Article>>)
    requires IsDocRow(row)
    ensures r.Some? <==> HasArticleColumns(row) && schema.acceptsArticle(articles, Article(ArticleFields(row, publicationId)))
    ensures r.Some? ==> HasArticleColumns(row)
                        && r.value.table == articles + [Article(ArticleFields(row, publicationId))]
                        && r.value.id == |articles| + 1
  {
    if !HasArticleColumns(row) then None
    else
      var a := Article(ArticleFields(row, publicationId));
      if schema.acceptsArticle(articles, a) then Some(Created(articles + [a], |articles| + 1)) else None
  }
}
