/**
 * The relational store the normaliser writes to, as values: one sequence per
 * table, the error records it reports, and the CSV row shape it reads.
 */
module Entities {
  import opened Options
  import opened Table

  /** A CSV row as `csv.DictReader` yields it: column name to cell text. */
  type Row = map<string, string>

  /** The row carries the columns the document pass reads on every path:
      the publication title it looks the publication up by, and the title and
      year that either the article insert or its error record reads. */
  predicate IsDocRow(row: Row) {
    "Publication Title" in row && "Document Title" in row && "Publication_Year" in row
  }

  /** The row carries the columns a new publication is created from; they are
      read only when the publication title is not stored yet. */
  predicate HasPublicationColumns(row: Row) {
    "Publisher" in row && "Meeting Date" in row
  }

  /** The row carries the columns the author and keyword passes read; they are
      read only once the article has been inserted. */
  predicate HasLinkColumns(row: Row) {
    && "Authors" in row && "Author Affiliations" in row
    && "Author Keywords" in row && "IEEE Terms" in row && "INSPEC Controlled Terms" in row
    && "INSPEC Non-Controlled Terms" in row && "Mesh_Terms" in row
  }

  /** The row carries the remaining columns only the article insert reads.
      A row missing one of them raises `KeyError` inside the `try`, which the
      document pass reports as an article it could not insert. */
  predicate HasArticleColumns(row: Row) {
    && "Abstract" in row && "Date Added To Xplore" in row
    && "Volume" in row && "Issue" in row && "Start Page" in row && "End Page" in row
    && "ISSN" in row && "ISBNs" in row && "DOI" in row && "Funding Information" in row
    && "PDF Link" in row && "Article Citation Count" in row && "Reference Count" in row
    && "Copyright Year" in row && "License" in row && "Online Date" in row
    && "Document Identifier" in row
  }

  /** The category file's year column; its header carries a byte-order mark. */
  const CatYearColumn: string := "\U{FEFF}Publication_Year"

  /** The row carries the columns the category pass reads. */
  predicate IsCatRow(row: Row) {
    "Document Title" in row && CatYearColumn in row && "Domain" in row
  }

  datatype Publication = Publication(title: string, publisher: string, meetingDate: string)

  /** A column value of an inserted article: text or integer. */
  datatype Value = Str(text: string) | Num(number: int)

  /** An article row: the columns actually inserted and their values. */
  datatype Article = Article(fields: map<string, Value>)

  /** A keyword (term, type) or a label (name, type). */
  datatype Term = Term(value: string, kind: string)

  /** A row of an association table, as (first id, second id): author_affiliations
      (author, affiliation), author_articles (author, article), article_keywords
      (keyword, article). */
  datatype Link = Link(left: nat, right: nat)

  /** A row of article_labels; the label id is `None` when the label was empty. */
  datatype LabelLink = LabelLink(labelId: Option<nat>, articleId: nat)

  datatype Store = Store(
    publications: seq<Publication>,
    articles: seq<Article>,
    authors: seq<string>,
    affiliations: seq<string>,
    authorAffiliations: seq<Link>,
    authorArticles: seq<Link>,
    keywords: seq<Term>,
    articleKeywords: seq<Link>,
    labels: seq<Term>,
    articleLabels: seq<LabelLink>)

  /** The database `makedb` creates: every table empty. */
  const Empty: Store := Store([], [], [], [], [], [], [], [], [], [])

  /** The constraints of the schema file, which is not part of this model: for
      each insert that can fail, whether the schema admits the new row given the
      rows already in its table. */
  datatype Schema = Schema(
    acceptsArticle: (seq<Article>, Article) -> bool,
    acceptsAuthorAffiliation: (seq<Link>, Link) -> bool,
    acceptsArticleLabel: (seq<LabelLink>, LabelLink) -> bool)

  /** The row-level error records; `title`, `pubYear` and `domain` (the label
      asked for) are the raw cell text. */
  datatype ErrorRecord =
    | ArticleNotInserted(title: string, pubYear: string)
    | NonUniqueAuthors(title: string, pubYear: string, articleId: nat, duplicates: seq<string>)
    | DuplicateKeyword(title: string, pubYear: string, articleId: nat,
                       term: string, termType: string, count: nat)
    | ArticleNotFoundForLabel(title: string, pubYear: string, domain: string)
    | LabelNotAssigned(title: string, pubYear: string, domain: string,
                       articleId: nat, labelId: Option<nat>)
  {
    /** The record's `error` classification string. */
    function Kind(): string {
      match this
      case ArticleNotInserted(_, _) => "could not insert article"
      case NonUniqueAuthors(_, _, _, _) => "non-unique author names for article"
      case DuplicateKeyword(_, _, _, _, _, _) => "duplicate keywords"
      case ArticleNotFoundForLabel(_, _, _) => "could not lookup article for label"
      case LabelNotAssigned(_, _, _, _, _) => "could not assign label to article"
    }
  }

  /** The store after one row, and the row's error records (none: `None`). */
  datatype RowResult = RowResult(store: Store, errors: seq<ErrorRecord>)

  function TitleOf(p: Publication): string {
    p.title
  }

  /** The key of a table looked up by its whole row. */
  function Itself<T>(x: T): T {
    x
  }

  predicate InRange(id: nat, n: nat) {
    1 <= id <= n
  }

  predicate RefersToPublication(a: Article, n: nat) {
    && "publication_id" in a.fields
    && a.fields["publication_id"].Num?
    && 1 <= a.fields["publication_id"].number <= n
  }

  /** The natural keys are unique within their tables. */
  predicate KeysUnique(s: Store) {
    && UniqueKeys(s.publications, TitleOf)
    && UniqueKeys(s.authors, Itself)
    && UniqueKeys(s.affiliations, Itself)
    && UniqueKeys(s.keywords, Itself)
    && UniqueKeys(s.labels, Itself)
  }

  /** Every id stored in a row names an existing row of the table it refers to. */
  predicate RefsResolve(s: Store) {
    && (forall k :: 0 <= k < |s.articles| ==> RefersToPublication(s.articles[k], |s.publications|))
    && (forall k :: 0 <= k < |s.authorAffiliations| ==>
          InRange(s.authorAffiliations[k].left, |s.authors|)
          && InRange(s.authorAffiliations[k].right, |s.affiliations|))
    && (forall k :: 0 <= k < |s.authorArticles| ==>
          InRange(s.authorArticles[k].left, |s.authors|)
          && InRange(s.authorArticles[k].right, |s.articles|))
    && (forall k :: 0 <= k < |s.articleKeywords| ==>
          InRange(s.articleKeywords[k].left, |s.keywords|)
          && InRange(s.articleKeywords[k].right, |s.articles|))
    && (forall k :: 0 <= k < |s.articleLabels| ==>
          (s.articleLabels[k].labelId.Some? ==> InRange(s.articleLabels[k].labelId.value, |s.labels|))
          && InRange(s.articleLabels[k].articleId, |s.articles|))
  }

  /** The invariants of the store: unique natural keys and resolvable ids. */
  predicate Valid(s: Store) {
    KeysUnique(s) && RefsResolve(s)
  }

  lemma EmptyIsValid()
    ensures Valid(Empty)
  {
  }
}
