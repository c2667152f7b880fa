# Row normalisation of the IEEE Xplore exports, in Dafny

`scripts/wrangle.py` loads two CSV exports into a SQLite database. The first
holds IEEE Xplore document metadata and the second holds hand-assigned
categories. For each document row, the script:

- gets or creates the publication;
- inserts the article;
- splits the `Authors` and `Author Affiliations` cells on `;`, gives repeated
  author names an ordinal suffix (`"Name (2)"`), and links authors to
  affiliations and to the article, position by position;
- links every distinct term of the five keyword columns to the article under
  that column's keyword type, and reports terms that repeat.

For each category row, it looks the article up by title and links the row's
`Domain` to it, as a label of type `sgsma_manual`. Problems are reported as
error records rather than raised.

This project models that pipeline as pure functions over an immutable
`Store`. The store holds one sequence per table, and an id is a row's
1-based position, which is what `cursor.lastrowid` returns for these tables.
The constraints of the schema file are a `Schema` value: one acceptance
predicate for each insert the script guards with `try`/`except`.

Modules, in dependency order:

- `Options`;
- `Text`: `str.strip` and `str.split`;
- `Numbers`: `int(...)` and `pint`;
- `Tally`: counting, and the `Counter` views that are used;
- `Table`: get-or-create on a table keyed by a natural key;
- `Entities`: rows, tables, error records and the store invariant `Valid`;
- `Authors`: `handle_authors`;
- `Keywords`: `handle_keywords`, and the shared (value, type) lookup behind
  `get_or_create_keyword` and `get_or_create_label`;
- `Articles`: `get_or_create_publication` and `insert_article`;
- `Rows`: `parse_doc_row`, `parse_cat_row`, `lookup_article` and the
  `wrangle` driver.

## Model

| member | source | states |
|---|---|---|
| Text.Strip | scripts/wrangle.py:166-167 | the stripped text has no white space at either end and is no longer than the input |
| Text.StripIsInfix | scripts/wrangle.py:166-167 | the stripped text is the input with a run of white space cut from the front and another from the back |
| Text.StripPadded | scripts/wrangle.py:166-167 | stripping white space around text with no white space at its ends gives back exactly that text |
| Text.StripIdempotent | scripts/wrangle.py:334-335 | stripping twice is stripping once, so the second strip inside the keyword lookup changes nothing |
| Text.StripAll | scripts/wrangle.py:166-167 | the list comprehension keeps the number of pieces and strips each one in place |
| Text.Split | scripts/wrangle.py:166 | `split(";")` yields at least one piece, and no piece contains the separator |
| Text.JoinSplit | scripts/wrangle.py:166 | joining the pieces back with the separator rebuilds the cell exactly |
| Text.SplitJoin | scripts/wrangle.py:166 | splitting a join of separator-free pieces gives back those pieces |
| Numbers.IntToString | scripts/wrangle.py:179 | the reference rendering of `str()` of an integer, whose non-negative half (`NatToString`) renders the ordinal `format` writes into a renamed author: always a numeral `int()` accepts |
| Numbers.NatToStringIsNumeral | scripts/wrangle.py:172-179 | the ordinal in a renamed author is a run of digits denoting the ordinal, with no leading zero |
| Numbers.ParseInt | scripts/wrangle.py:405 | `int()` yields a value exactly when the text is an optionally signed run of ASCII digits |
| Numbers.Pint | scripts/wrangle.py:400-407 | `pint` yields a value when the stripped text is a numeral, and otherwise exactly the default |
| Numbers.ParseIntOfIntToString | scripts/wrangle.py:405 | reading back the decimal rendering of an integer gives that integer |
| Numbers.IntToStringOfParseInt | scripts/wrangle.py:405 | a canonical numeral is read and rendered back to the same text |
| Numbers.PintRoundTrip | scripts/wrangle.py:400-407 | `pint` of an integer's rendering, padded with white space on both sides, is that integer whatever the default |
| Numbers.ParseIntLeadingZero | scripts/wrangle.py:405 | a leading zero before a run of digits does not change the value `int()` reads |
| Numbers.ParseIntPlus | scripts/wrangle.py:405 | for a non-empty run of ASCII digits s, `int()` reads `+s` as the same value as s |
| Numbers.ParseIntMinusZero | scripts/wrangle.py:405 | for a non-empty run of ASCII digits s, `int()` reads `-0s` as the same value as `-s` |
| Numbers.ParseIntSigned | scripts/wrangle.py:405 | a run of digits after no sign, `+` or `-` reads as its value, negated only for `-` |
| Numbers.PintOfSignedNumeral | scripts/wrangle.py:400-407 | `pint` of any numeral for an integer, with an optional sign, any leading zeros and white space around it, is that integer whatever the default |
| Numbers.PintExamples | scripts/wrangle.py:400-407 | `pint(" 007 ")` is 7, `pint("+5")` is 5 and `pint("-05")` is -5 |
| Tally.Distinct | scripts/wrangle.py:214 | the keys of the `Counter`: the same members as the input, each once |
| Tally.Dups | scripts/wrangle.py:170-171 | the duplicate list holds exactly the names counted more than once, each once |
| Tally.CountAtLeastTwo | scripts/wrangle.py:171 | a count above one means two distinct positions hold the name, and conversely |
| Tally.DupsEmptyIffNoDuplicates | scripts/wrangle.py:171 | the duplicate list is empty exactly when no name occurs twice |
| Table.Find | scripts/wrangle.py:303-315 | the `SELECT` by natural key finds a row exactly when one has the key, and returns the first one |
| Table.GetOrCreate | scripts/wrangle.py:303-330 | the returned id names a row with the key; a present key leaves the table unchanged and yields its first row; an absent key appends the row and yields the new row count |
| Table.GetOrCreateIdempotent | scripts/wrangle.py:303-330 | asking again for the same key returns the same id and leaves the table unchanged |
| Table.GetOrCreateKeepsKeysUnique | scripts/wrangle.py:303-330 | get-or-create never introduces a second row with an existing key |
| Table.GetOrCreateIdIsTheRow | scripts/wrangle.py:303-330 | in a table with unique keys, the returned id is the only row with the key |
| Entities.EmptyIsValid | scripts/wrangle.py:34-41 | the fresh database satisfies the store invariants: unique keys and resolving ids |
| Authors.AuthorNames | scripts/wrangle.py:166 | one stripped name per `;`-separated piece of the Authors cell |
| Authors.AffiliationNames | scripts/wrangle.py:167 | one stripped affiliation per `;`-separated piece of the Author Affiliations cell |
| Authors.SuffixedInjective | scripts/wrangle.py:179 | the renamed author `"{} ({})".format(name, j)` strictly extends the name, and two different ordinals never give the same name the same renamed form |
| Authors.RenameOccurrences | scripts/wrangle.py:172-179 | the inner rename loop keeps the list length and touches only occurrences of the duplicated name |
| Authors.RenameOccurrencesAt | scripts/wrangle.py:172-179 | after the inner loop, an occurrence of the duplicated name at position i becomes `"name (c)"`, where c is its occurrence number, once c is above one |
| Authors.RenameAll | scripts/wrangle.py:172-179 | the outer loop keeps the length and touches only positions holding a duplicated name |
| Authors.Disambiguate | scripts/wrangle.py:170-179 | the renamed list is as long as the input, and every name occurring once is kept where it was |
| Authors.DisambiguateByOrdinal | scripts/wrangle.py:170-179 | when no generated name already occurs in the input, the k-th occurrence of a repeated name becomes `"name (k)"` from the second on, and the first stays |
| Authors.DisambiguateExample | scripts/wrangle.py:170-179 | `["A", "A", "B"]` becomes `["A", "A (2)", "B"]` |
| Authors.DisambiguationMayCollide | scripts/wrangle.py:170-179 | `["A", "A", "A (2)"]` becomes `["A", "A (2)", "A (2)"]`: the output can still repeat a name |
| Authors.RenamingCascades | scripts/wrangle.py:170-179 | on `["A", "A", "A (2)", "A (2)"]` the in-place passes rename a name that an earlier pass produced, so the result differs from the per-name ordinal rule |
| Authors.LinkAuthor | scripts/wrangle.py:181-185 | one zip step stores the pair's affiliation, adds exactly one author-article link for the pair's author, at most one author-affiliation link, and at most one new author and one new affiliation row, which are the pair's own; only those four tables change |
| Authors.FirstId | scripts/wrangle.py:303-315 | the id of the first row holding a value, which the get-or-create `SELECT` finds |
| Authors.LinkAuthorPairLink | scripts/wrangle.py:182-184 | the step's author-affiliation link joins the first author row holding the name to the first affiliation row holding the affiliation, and it is appended exactly when the schema accepts it |
| Authors.LinkAuthorJoins | scripts/wrangle.py:182-184 | under a schema that refuses no author-affiliation link, one step appends the link joining its author to its affiliation |
| Authors.LinkAuthorKeepsValid | scripts/wrangle.py:373-385 | one zip step keeps keys unique and every stored id resolving |
| Authors.PairAuthors | scripts/wrangle.py:181-185 | the zip loop makes exactly min(#authors, #affiliations) author-article links, in order, each to the author at that position; every paired affiliation is stored; an author-affiliation link is only ever made for some position's pair; each new author or affiliation row is one of the paired names, at most one per pair; under a schema that refuses no author-affiliation link, exactly min(#authors, #affiliations) such links are added and the k-th joins the k-th author to the k-th affiliation |
| Authors.PairAuthorsKeepsValid | scripts/wrangle.py:181-185 | the zip loop keeps the store valid |
| Authors.AuthorErrors | scripts/wrangle.py:187-197 | no record when no name repeats; otherwise exactly one "non-unique author names" record, listing exactly the repeated names, each once |
| Authors.HandleAuthors | scripts/wrangle.py:165-199 | the disambiguated authors are zipped with the stripped affiliations and linked whatever the outcome, storing every paired affiliation and creating author and affiliation rows only for paired names; under a schema that refuses no author-affiliation link, each pair gets its link, in order; the record is reported iff a name repeats |
| Authors.HandleAuthorsKeepsValid | scripts/wrangle.py:165-199 | the author pass keeps the store valid |
| Keywords.GetOrCreateTerm | scripts/wrangle.py:333-370 | both parts are stripped; when either is then empty, no id comes back and the table is unchanged; otherwise the id names the stripped (value, type) row, which is appended only when absent |
| Keywords.TermIdKeysOnPair | scripts/wrangle.py:333-370 | two successful lookups return the same id exactly when the stripped values and the stripped types are both equal |
| Keywords.Terms | scripts/wrangle.py:214 | one stripped term per `;`-separated piece of the column |
| Keywords.Requested | scripts/wrangle.py:203-214 | every (term, type) pair the outer loop asks for has a non-empty term and a non-empty type |
| Keywords.Wanted | scripts/wrangle.py:230-232 | the pairs a term list asks for all have a non-empty value and the stripped, non-empty type |
| Keywords.WantedMembers | scripts/wrangle.py:230-232 | a pair is asked for exactly when its type is the stripped type, both parts are non-empty, and its value is the stripped form of some term |
| Keywords.WantedNoDuplicates | scripts/wrangle.py:214-232 | distinct stripped terms ask for distinct pairs |
| Keywords.LinkTerm | scripts/wrangle.py:230-232 | one term adds one keyword link when its stripped value and type are non-empty, and nothing otherwise; the only keyword row it can create is that pair |
| Keywords.LinkTerms | scripts/wrangle.py:213-232 | a field's terms are linked one per asked-for pair, in order, each link naming that pair's row; only the keyword tables grow |
| Keywords.FieldErrors | scripts/wrangle.py:216-228 | one "duplicate keywords" record per term counted more than once, carrying its type and its count; none for other terms; none at all iff no term repeats |
| Keywords.KeywordErrors | scripts/wrangle.py:213-228 | across all fields, every record reports a term repeated in some field, every such term is reported under its field's type, no (type, term) is reported twice when the field types differ, and there are no records iff no field repeats a term |
| Keywords.LinkFields | scripts/wrangle.py:213-232 | the outer loop links, field after field, each distinct term of the field once |
| Keywords.RequestedMembers | scripts/wrangle.py:203-232 | a pair is asked for exactly when some field of its type holds its value as a non-empty stripped term |
| Keywords.RequestedNoDuplicates | scripts/wrangle.py:203-232 | when the field types differ, no pair is asked for twice |
| Keywords.HandleKeywords | scripts/wrangle.py:202-236 | every distinct non-empty term of each keyword column is linked once under the column's type, and each repeated (type, term) is reported exactly once; the records are empty iff nothing repeats |
| Keywords.HandleKeywordsKeepsValid | scripts/wrangle.py:202-236 | the keyword pass keeps the store valid |
| Keywords.KeywordsRequestedOnce | scripts/wrangle.py:203-209 | the five keyword types differ, so a document row links a (term, type) pair at most once |
| Keywords.KeywordsRequested | scripts/wrangle.py:203-232 | a document row links exactly the non-empty terms of each keyword column, under that column's type |
| Keywords.BlankFieldIsInert | scripts/wrangle.py:214-232 | a column of white space splits into one empty term, which is neither linked nor reported |
| Keywords.BlankKeywordsChangeNothing | scripts/wrangle.py:202-236 | when every keyword column is blank, the keyword pass leaves the store exactly as it was and reports nothing |
| Articles.GetOrCreatePublication | scripts/wrangle.py:250-267 | the publication is looked up by stripped title alone, and its id is that of the first row with the title; an existing title leaves the table unchanged and needs no publisher or meeting date column; a new one is appended with the stripped publisher and meeting date |
| Articles.PublicationIdempotent | scripts/wrangle.py:250-267 | a second row with the same stripped title gets the same publication id and creates nothing, even if it has no publisher or meeting date column |
| Articles.PublicationKeepsTitlesUnique | scripts/wrangle.py:254-263 | looking up or creating a publication keeps the stored titles pairwise distinct |
| Articles.KeepPresent | scripts/wrangle.py:296 | the filter keeps exactly the fields whose value is not `None`, with their values |
| Articles.TextFieldKept | scripts/wrangle.py:274-296 | a text column is always written, stripped, even when it is empty |
| Articles.NumberFieldKept | scripts/wrangle.py:274-296 | an integer column is written exactly when its stripped cell is a numeral, with the numeral's value; it is omitted otherwise, never stored as 0 |
| Articles.Candidates | scripts/wrangle.py:274-294 | the fields dict has exactly the twelve text columns, the seven integer columns and the publication id, which holds the id passed in |
| Articles.ArticleFields | scripts/wrangle.py:274-296 | the publication id is always written, and nothing but the listed columns is |
| Articles.ArticleRefersToPublication | scripts/wrangle.py:294 | an inserted article refers to an existing publication |
| Articles.InsertArticle | scripts/wrangle.py:270-300 | the insert succeeds exactly when the row has every article column and the schema accepts the filtered fields; the article is appended and its id is the new row count |
| Rows.LinkDocument | scripts/wrangle.py:112-123 | the author pass, then the keyword pass, on the new article; the author record comes before the keyword records |
| Rows.ParseDocRow | scripts/wrangle.py:90-123 | for any row the source reads without a `KeyError`: the publication step always persists; a row missing an article column, or a refused article, gives exactly one "could not insert article" record and skips authors and keywords (so their columns may be absent); an accepted one is appended and linked under the next id |
| Rows.ParseDocRowKeepsValid | scripts/wrangle.py:90-123 | a document row keeps the store valid |
| Rows.ParseDocRowAddsAtMostOneArticle | scripts/wrangle.py:98-110 | a document row appends at most one article and leaves the label tables alone |
| Rows.LookupArticle | scripts/wrangle.py:239-247 | the first article whose stored title is the given title, by title only; no id when none has it |
| Rows.ParseCatRow | scripts/wrangle.py:126-162 | a missed lookup gives exactly one "could not lookup article for label" record and no change; a hit gets or creates the stripped domain as an `sgsma_manual` label, then links it or reports one "could not assign label to article" record |
| Rows.ParseCatRowKeepsValid | scripts/wrangle.py:126-162 | a category row keeps the store valid |
| Rows.ParseCatRowLinksOrReports | scripts/wrangle.py:126-162 | a category row changes only the label tables, and adds either one label link or one record |
| Rows.Pass | scripts/wrangle.py:45-58 | a loop over no rows changes nothing and reports nothing; over one row it is that row's step |
| Rows.PassConcat | scripts/wrangle.py:45-58 | processing rows a then rows b is processing a + b: the final store is the same and the records are concatenated |
| Rows.CompleteDocRowsRun | scripts/wrangle.py:45-50 | the document loop runs to its end, from any database, on every file whose rows have the publisher and meeting date, and the author and keyword columns whenever they have all the article columns |
| Rows.LoadDocs | scripts/wrangle.py:45-50 | the document loop appends at most one article per row, leaves the labels alone and keeps the store valid |
| Rows.LoadCats | scripts/wrangle.py:53-58 | the category loop changes only the label tables, adds one link or one record per row, and keeps the store valid |
| Rows.Wrangle | scripts/wrangle.py:34-61 | from an empty database: a valid store with at most one article per document row; the document records come first, and after them the category rows' label links plus their records number exactly the category rows |

## Left out

- SQL, the schema file and `makedb`: table creation, column types and
  constraints are not part of this model. The schema's verdicts come in as
  the `Schema` predicates for the three guarded inserts: `articles`,
  `author_affiliations` and `article_labels`.
- The unguarded inserts (authors, affiliations, `author_articles`, keywords,
  `article_keywords`, labels, publications) always succeed here. In the
  source, a failure there raises out of `wrangle` and aborts the run.
- Transactions, `conn.commit()`, file opening, `csv.DictReader` parsing,
  `argparse` and `summarize.py`: all of them are I/O.
- Printing the error records as JSON: the model returns the records, in the
  order the source prints them. `ErrorRecord.Kind` holds the `error` strings.
  The exception text the source adds to some records is not modelled.
- A row missing a column that `parse_doc_row` or `parse_cat_row` reads on
  the row's own path raises `KeyError` and aborts the run; the model has no
  aborted run. Its document loop is defined only for files it reads to the
  end (`Rows.Runs` with `Rows.DocRowReadable`), and that demands no more
  than the source reads: `Document Title`, `Publication_Year` and
  `Publication Title` always; `Publisher` and `Meeting Date` only when the
  publication title is new; `Authors`, `Author Affiliations` and the five
  keyword columns only once the article is inserted. A row missing one of
  the seventeen article columns, which `insert_article` reads inside the
  `try`, gets the "could not insert article" record and the run continues
  (`HasArticleColumns`). Every category row is read whole, so `IsCatRow`
  stays a precondition of the category loop.
- Numbers.ParseInt: models ASCII digits with an optional sign. It leaves out
  Python's Unicode digits and `_` separators, so `pint` returns the default
  for those rare inputs where Python would parse them. It also leaves out the
  limit of 4300 digits that CPython 3.11 and later (and the security releases
  of earlier versions) put on `int()` of a string: there a longer numeral
  raises `ValueError` and `pint` returns the default, while the model reads
  its value.
- Numbers.PintOfSignedNumeral: "any leading zeros" holds on those Python
  versions only while the numeral stays within the 4300-digit limit.
- Authors.DisambiguateByOrdinal: the ordinal rule is proved only under
  `NoSuffixClash` (no generated name already occurs in the input), because
  the in-place loop does not obey it otherwise. `Authors.RenamingCascades`
  shows the counterexample, and `Authors.DisambiguationMayCollide` shows
  that the output need not be duplicate-free.
- Tally.Distinct, Tally.Dups: they list elements in first-occurrence order,
  as `Counter` iterates. Only their membership and the absence of repeats
  are stated, not the order.
- Rows.LookupArticle: the year argument is read but takes no part in the
  query, as in the source.
- Empty optional text fields: the source drops only `None` values, so an
  empty text cell is stored as an empty string. Only an unparsable integer
  cell is left out of the insert.
