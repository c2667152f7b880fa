/**
 * The keyword pass of a document row (`handle_keywords`) and the
 * (value, type) lookup that keywords and labels share.
 */
module Keywords {
  import opened Options
  import opened Text
  import opened Tally
  import opened Table
  import opened Entities

  /** The keyword columns, each with the keyword type its terms are stored under. */
  const KeywordFields: seq<(string, string)> := [
    ("Author Keywords", "author"),
    ("IEEE Terms", "ieee"),
    ("INSPEC Controlled Terms", "inspec_controlled"),
    ("INSPEC Non-Controlled Terms", "inspec_non_controlled"),
    ("Mesh_Terms", "mesh")]

  /** A (value, type) table after a lookup, and the id handed back, if any. */
  datatype Lookup = Lookup(table: seq<Term>, id: Option<nat>)

  /** `get_or_create_keyword` and `get_or_create_label`: both parts are
      stripped; when either is then empty nothing is looked up or created and
      no id comes back; otherwise the stripped pair is the lookup key. */
  function GetOrCreateTerm(t: seq<Term>, value: string, kind: string): (r: Lookup)
    ensures t <= r.table && |r.table| <= |t| + 1
    ensures r.id.Some? <==> Strip(value) != [] && Strip(kind) != []
    ensures r.id.None? ==> r.table == t
    ensures r.id.Some? ==> InRange(r.id.value, |r.table|) && r.table[r.id.value - 1] == Term(Strip(value), Strip(kind))
    ensures r.id.Some? ==>
      && (Term(Strip(value), Strip(kind)) in t ==> r.table == t)
      && (Term(Strip(value), Strip(kind)) !in t ==> r.table == t + [Term(Strip(value), Strip(kind))])
  {
    var v, k := Strip(value), Strip(kind);
    if v == [] || k == [] then Lookup(t, None)
    else
      var x := Term(v, k);
      HasItself(t, x);
      var c := GetOrCreate(t, Itself, x);
      assert x in t ==> c.table == t;
      assert x !in t ==> c.table == t + [x];
      Lookup(c.table, Some(c.id))
  }

  lemma HasItself(t: seq<Term>, x: Term)
    ensures Has(t, Itself, x) <==> x in t
  {
    if x in t {
      var j :| 0 <= j < |t| && t[j] == x;
      assert Itself(t[j]) == x;
    }
  }

  /** Two lookups in a row return the same id exactly when they ask for the
      same stripped (value, type) pair: the same value under another type is
      another row, and asking twice for one pair gives one row. */
  lemma TermIdKeysOnPair(t: seq<Term>, v1: string, k1: string, v2: string, k2: string, a: Lookup, b: Lookup)
    requires a == GetOrCreateTerm(t, v1, k1) && a.id.Some?
    requires b == GetOrCreateTerm(a.table, v2, k2) && b.id.Some?
    ensures a.id == b.id <==> Strip(v1) == Strip(v2) && Strip(k1) == Strip(k2)
  {
    SamePairSameId(t, v1, k1, v2, k2, a, b);
    SameIdSamePair(t, v1, k1, v2, k2, a, b);
  }

  lemma SamePairSameId(t: seq<Term>, v1: string, k1: string, v2: string, k2: string, a: Lookup, b: Lookup)
    requires a == GetOrCreateTerm(t, v1, k1) && a.id.Some?
    requires b == GetOrCreateTerm(a.table, v2, k2) && b.id.Some?
    ensures Strip(v1) == Strip(v2) && Strip(k1) == Strip(k2) ==> a.id == b.id
  {
    var x1, x2 := Term(Strip(v1), Strip(k1)), Term(Strip(v2), Strip(k2));
    if x1 == x2 {
      SameTermSameId(t, x1, a, b);
    }
  }

  lemma SameIdSamePair(t: seq<Term>, v1: string, k1: string, v2: string, k2: string, a: Lookup, b: Lookup)
    requires a == GetOrCreateTerm(t, v1, k1) && a.id.Some?
    requires b == GetOrCreateTerm(a.table, v2, k2) && b.id.Some?
    ensures a.id == b.id ==> Strip(v1) == Strip(v2) && Strip(k1) == Strip(k2)
  {
    var i, j := a.id.value - 1, b.id.value - 1;
    var x1, x2 := a.table[i], b.table[j];
    assert x1 == Term(Strip(v1), Strip(k1)) && x2 == Term(Strip(v2), Strip(k2));
    assert a.table <= b.table;
    if i == j {
      assert b.table[i] == a.table[i];
    }
  }

  lemma SameTermSameId(t: seq<Term>, x: Term, a: Lookup, b: Lookup)
    requires x.value != [] && x.kind != []
    requires a == Lookup(GetOrCreate(t, Itself, x).table, Some(GetOrCreate(t, Itself, x).id))
    requires b == Lookup(GetOrCreate(a.table, Itself, x).table, Some(GetOrCreate(a.table, Itself, x).id))
    ensures a.id == b.id
  {
    GetOrCreateIdempotent(t, Itself, x, x);
  }

  /** The terms of one keyword column: the cell cut at each `;`, each piece
      stripped of surrounding white space. */
  function Terms(row: Row, column: string): (r: seq<string>)
    requires column in row
    ensures |r| == |Split(row[column], ';')| && forall k :: 0 <= k < |r| ==> Edgeless(r[k])
  {
    StripAll(Split(row[column], ';'))
  }

  /** The (term, type) pairs a list of terms asks for, in order: one per term
      whose stripped text and type are both non-empty. */
  function Wanted(ts: seq<string>, kind: string): (r: seq<Term>)
    ensures forall k :: 0 <= k < |r| ==> r[k].value != [] && r[k].kind == Strip(kind) && r[k].kind != []
    ensures |r| <= |ts|
    decreases |ts|
  {
    if ts == [] then []
    else
      var rest := Wanted(ts[1..], kind);
      if Strip(ts[0]) != [] && Strip(kind) != [] then [Term(Strip(ts[0]), Strip(kind))] + rest else rest
  }

  /** A pair is asked for exactly when its type is the stripped type, both
      parts are non-empty, and its value is the stripped form of some term. */
  lemma {:induction false} WantedMembers(ts: seq<string>, kind: string, x: Term)
    ensures x in Wanted(ts, kind) <==>
      x.kind == Strip(kind) && x.kind != [] && x.value != [] && exists t :: t in ts && Strip(t) == x.value
    decreases |ts|
  {
    if ts != [] {
      WantedMembers(ts[1..], kind, x);
      WantedCons(ts, kind);
      var head := if Strip(ts[0]) != [] && Strip(kind) != [] then [Term(Strip(ts[0]), Strip(kind))] else [];
      if exists t :: t in ts[1..] && Strip(t) == x.value {
        var t :| t in ts[1..] && Strip(t) == x.value;
        assert t in ts;
      }
      if exists t :: t in ts && Strip(t) == x.value {
        var t :| t in ts && Strip(t) == x.value;
        if t != ts[0] {
          assert t in ts[1..];
        }
      }
    }
  }

  /** `Wanted` one term at a time. */
  lemma WantedCons(ts: seq<string>, kind: string)
    requires ts != []
    ensures Wanted(ts, kind) == Wanted([ts[0]], kind) + Wanted(ts[1..], kind)
    ensures Wanted([ts[0]], kind) ==
      if Strip(ts[0]) != [] && Strip(kind) != [] then [Term(Strip(ts[0]), Strip(kind))] else []
  {
    assert [ts[0]][1..] == [];
  }

  /** Distinct, already stripped terms ask for distinct pairs. */
  lemma {:induction false} WantedNoDuplicates(ts: seq<string>, kind: string)
    requires NoDuplicates(ts)
    requires forall k :: 0 <= k < |ts| ==> Strip(ts[k]) == ts[k]
    ensures NoDuplicates(Wanted(ts, kind))
    decreases |ts|
  {
    if ts != [] {
      WantedNoDuplicates(ts[1..], kind);
      var rest := Wanted(ts[1..], kind);
      if Strip(ts[0]) != [] && Strip(kind) != [] {
        var h := Term(Strip(ts[0]), Strip(kind));
        WantedMembers(ts[1..], kind, h);
        if h in rest {
          assert false;
        }
        NoDuplicatesConcat([h], rest);
      }
    }
  }

  /** Link `l` joins the keyword row `x` to `articleId`. */
  predicate LinksKeyword(keywords: seq<Term>, l: Link, x: Term, articleId: nat) {
    InRange(l.left, |keywords|) && keywords[l.left - 1] == x && l.right == articleId
  }

  /** What linking the pairs `want` leaves behind, relative to the store it
      started from: only the keyword and article-keyword tables grow, each by
      appending; one link per wanted pair, in order, to that pair's row; and
      every keyword row created is a wanted pair, at most one per pair. */
  predicate TermsLinked(s: Store, r: Store, want: seq<Term>, articleId: nat) {
    && r == s.(keywords := r.keywords, articleKeywords := r.articleKeywords)
    && s.keywords <= r.keywords && s.articleKeywords <= r.articleKeywords
    && |r.keywords| <= |s.keywords| + |want|
    && |r.articleKeywords| == |s.articleKeywords| + |want|
    && (forall k :: 0 <= k < |want| ==>
          LinksKeyword(r.keywords, r.articleKeywords[|s.articleKeywords| + k], want[k], articleId))
    && (forall k :: |s.keywords| <= k < |r.keywords| ==> r.keywords[k] in want)
  }

  /** Linking two lists of pairs one after the other links their concatenation. */
  lemma TermsLinkedConcat(s: Store, m: Store, r: Store, w1: seq<Term>, w2: seq<Term>, articleId: nat)
    requires TermsLinked(s, m, w1, articleId)
    requires TermsLinked(m, r, w2, articleId)
    ensures TermsLinked(s, r, w1 + w2, articleId)
  {
    KeywordLinksConcat(s, m, r, w1, w2, articleId);
    KeywordRowsConcat(s, m, r, w1, w2, articleId);
  }

  lemma KeywordLinksConcat(s: Store, m: Store, r: Store, w1: seq<Term>, w2: seq<Term>, articleId: nat)
    requires TermsLinked(s, m, w1, articleId)
    requires TermsLinked(m, r, w2, articleId)
    ensures forall k :: 0 <= k < |w1 + w2| ==>
              LinksKeyword(r.keywords, r.articleKeywords[|s.articleKeywords| + k], (w1 + w2)[k], articleId)
  {
    var base := |s.articleKeywords|;
    forall k | 0 <= k < |w1 + w2|
      ensures LinksKeyword(r.keywords, r.articleKeywords[base + k], (w1 + w2)[k], articleId)
    {
      if k < |w1| {
        var l := m.articleKeywords[base + k];
        assert LinksKeyword(m.keywords, l, w1[k], articleId);
        assert r.articleKeywords[base + k] == l;
        assert r.keywords[l.left - 1] == m.keywords[l.left - 1];
      } else {
        assert LinksKeyword(r.keywords, r.articleKeywords[|m.articleKeywords| + (k - |w1|)], w2[k - |w1|], articleId);
      }
    }
  }

  lemma KeywordRowsConcat(s: Store, m: Store, r: Store, w1: seq<Term>, w2: seq<Term>, articleId: nat)
    requires TermsLinked(s, m, w1, articleId)
    requires TermsLinked(m, r, w2, articleId)
    ensures forall k :: |s.keywords| <= k < |r.keywords| ==> r.keywords[k] in w1 + w2
  {
    forall k | |s.keywords| <= k < |r.keywords|
      ensures r.keywords[k] in w1 + w2
    {
      if k < |m.keywords| {
        assert r.keywords[k] == m.keywords[k];
      }
    }
  }

  /** One iteration of the inner loop: get or create the keyword and, when an
      id comes back, link it to the article. */
  function LinkTerm(s: Store, t: string, kind: string, articleId: nat): (r: Store)
    ensures TermsLinked(s, r, Wanted([t], kind), articleId)
  {
    var look := GetOrCreateTerm(s.keywords, t, kind);
    assert [t][1..] == [];
    match look.id
    case None => s
    case Some(id) =>
      var r := s.(keywords := look.table, articleKeywords := s.articleKeywords + [Link(id, articleId)]);
      assert r.articleKeywords[|s.articleKeywords|] == Link(id, articleId);
      r
  }

  lemma LinkTermKeepsValid(s: Store, t: string, kind: string, articleId: nat)
    requires Valid(s) && InRange(articleId, |s.articles|)
    ensures Valid(LinkTerm(s, t, kind, articleId))
  {
    var r := LinkTerm(s, t, kind, articleId);
    var look := GetOrCreateTerm(s.keywords, t, kind);
    if look.id.Some? {
      GetOrCreateKeepsKeysUnique(s.keywords, Itself, Term(Strip(t), Strip(kind)));
      assert KeysUnique(r);
      assert forall k :: 0 <= k < |r.articleKeywords| ==>
        InRange(r.articleKeywords[k].left, |r.keywords|) && InRange(r.articleKeywords[k].right, |r.articles|) by {
        forall k | 0 <= k < |r.articleKeywords|
          ensures InRange(r.articleKeywords[k].left, |r.keywords|) && InRange(r.articleKeywords[k].right, |r.articles|)
        {
          if k < |s.articleKeywords| {
            assert r.articleKeywords[k] == s.articleKeywords[k];
          }
        }
      }
    }
  }

  /** The inner loop over one field's terms. */
  function LinkTerms(s: Store, ts: seq<string>, kind: string, articleId: nat): (r: Store)
    ensures TermsLinked(s, r, Wanted(ts, kind), articleId)
    decreases |ts|
  {
    if ts == [] then s
    else
      var s1 := LinkTerm(s, ts[0], kind, articleId);
      var r := LinkTerms(s1, ts[1..], kind, articleId);
      WantedCons(ts, kind);
      TermsLinkedConcat(s, s1, r, Wanted([ts[0]], kind), Wanted(ts[1..], kind), articleId);
      r
  }

  lemma {:induction false} LinkTermsKeepsValid(s: Store, ts: seq<string>, kind: string, articleId: nat)
    requires Valid(s) && InRange(articleId, |s.articles|)
    ensures Valid(LinkTerms(s, ts, kind, articleId))
    decreases |ts|
  {
    if ts != [] {
      LinkTermKeepsValid(s, ts[0], kind, articleId);
      LinkTermsKeepsValid(LinkTerm(s, ts[0], kind, articleId), ts[1..], kind, articleId);
    }
  }

  /** Error record `e` says that `e.term` occurs `e.count` > 1 times among
      `terms`, the terms of a field of type `kind`. */
  predicate ReportsRepeat(e: ErrorRecord, title: string, pubYear: string, articleId: nat,
                          terms: seq<string>, kind: string) {
    && e.DuplicateKeyword?
    && e.title == title && e.pubYear == pubYear && e.articleId == articleId
    && e.termType == kind && e.count == Count(terms, e.term) && e.count > 1
  }

  /** The "duplicate keywords" records of one field: one for each term counted
      more than once, none for any other term. */
  function FieldErrors(title: string, pubYear: string, articleId: nat, terms: seq<string>, kind: string)
    : (e: seq<ErrorRecord>)
    ensures forall k :: 0 <= k < |e| ==> ReportsRepeat(e[k], title, pubYear, articleId, terms, kind)
    ensures forall x :: Count(terms, x) > 1 ==> exists k :: 0 <= k < |e| && e[k].DuplicateKeyword? && e[k].term == x
    ensures forall i, j :: 0 <= i < j < |e| && e[i].DuplicateKeyword? && e[j].DuplicateKeyword? ==> e[i].term != e[j].term
    ensures e == [] <==> NoDuplicates(terms)
  {
    var d := Dups(terms);
    DupsEmptyIffNoDuplicates(terms);
    var e := seq(|d|, k requires 0 <= k < |d| => DuplicateKeyword(title, pubYear, articleId, d[k], kind, Count(terms, d[k])));
    forall x | Count(terms, x) > 1
      ensures exists k :: 0 <= k < |e| && e[k].DuplicateKeyword? && e[k].term == x
    {
      var k :| 0 <= k < |d| && d[k] == x;
      assert e[k].term == x;
    }
    e
  }

  /** The columns are present in the row. */
  predicate HasColumns(row: Row, fields: seq<(string, string)>) {
    forall i :: 0 <= i < |fields| ==> fields[i].0 in row
  }

  /** Every record of `e` reports a repeated term of one of the fields. */
  predicate ReportsOnlyRepeats(e: seq<ErrorRecord>, row: Row, fields: seq<(string, string)>,
                               title: string, pubYear: string, articleId: nat)
    requires HasColumns(row, fields)
  {
    forall k :: 0 <= k < |e| ==>
      exists i :: 0 <= i < |fields| && ReportsRepeat(e[k], title, pubYear, articleId, Terms(row, fields[i].0), fields[i].1)
  }

  /** Every term repeated within a field is reported under that field's type. */
  ghost predicate ReportsEveryRepeat(e: seq<ErrorRecord>, row: Row, fields: seq<(string, string)>)
    requires HasColumns(row, fields)
  {
    forall i, x :: 0 <= i < |fields| && Count(Terms(row, fields[i].0), x) > 1 ==>
      exists k :: 0 <= k < |e| && e[k].DuplicateKeyword? && e[k].term == x && e[k].termType == fields[i].1
  }

  /** No field repeats a term. */
  predicate NoRepeats(row: Row, fields: seq<(string, string)>)
    requires HasColumns(row, fields)
  {
    forall i :: 0 <= i < |fields| ==> NoDuplicates(Terms(row, fields[i].0))
  }

  /** No (type, term) pair is reported twice. */
  predicate ReportsOnce(e: seq<ErrorRecord>) {
    forall i, j :: 0 <= i < j < |e| && e[i].DuplicateKeyword? && e[j].DuplicateKeyword? ==>
      (e[i].termType, e[i].term) != (e[j].termType, e[j].term)
  }

  /** The outer loop's error records, field after field: exactly the repeated
      terms of each field, each once when the fields' types differ, and none at
      all when no field repeats a term. */
  function KeywordErrors(row: Row, fields: seq<(string, string)>, title: string, pubYear: string, articleId: nat)
    : (e: seq<ErrorRecord>)
    requires HasColumns(row, fields)
    ensures ReportsOnlyRepeats(e, row, fields, title, pubYear, articleId)
    ensures ReportsEveryRepeat(e, row, fields)
    ensures DistinctKinds(fields) ==> ReportsOnce(e)
    ensures e == [] <==> NoRepeats(row, fields)
    decreases |fields|
  {
    if fields == [] then []
    else
      var first := FieldErrors(title, pubYear, articleId, Terms(row, fields[0].0), fields[0].1);
      var rest := KeywordErrors(row, fields[1..], title, pubYear, articleId);
      OnlyRepeatsStep(row, fields, title, pubYear, articleId, first, rest);
      EveryRepeatStep(row, fields, title, pubYear, articleId, first, rest);
      NoRepeatsStep(row, fields);
      DistinctKindsTail(fields);
      OnceStep(row, fields, title, pubYear, articleId, first, rest);
      first + rest
  }

  lemma DistinctKindsTail(fields: seq<(string, string)>)
    requires fields != []
    ensures DistinctKinds(fields) ==> DistinctKinds(fields[1..])
  {
    assert forall i :: 0 <= i < |fields[1..]| ==> fields[1..][i] == fields[i + 1];
  }

  /** A field's records name its own type, which no later field shares, and
      name each of its terms once. */
  lemma OnceStep(row: Row, fields: seq<(string, string)>, title: string, pubYear: string, articleId: nat,
                 first: seq<ErrorRecord>, rest: seq<ErrorRecord>)
    requires fields != [] && HasColumns(row, fields) && HasColumns(row, fields[1..])
    requires first == FieldErrors(title, pubYear, articleId, Terms(row, fields[0].0), fields[0].1)
    requires ReportsOnlyRepeats(rest, row, fields[1..], title, pubYear, articleId)
    ensures DistinctKinds(fields) && ReportsOnce(rest) ==> ReportsOnce(first + rest)
  {
    if !DistinctKinds(fields) || !ReportsOnce(rest) {
      return;
    }
    var e := first + rest;
    forall i, j | 0 <= i < j < |e| && e[i].DuplicateKeyword? && e[j].DuplicateKeyword?
      ensures (e[i].termType, e[i].term) != (e[j].termType, e[j].term)
    {
      if j < |first| {
        assert e[i] == first[i] && e[j] == first[j];
      } else if i < |first| {
        assert e[i].termType == fields[0].1;
        var m :| 0 <= m < |fields[1..]| && ReportsRepeat(rest[j - |first|], title, pubYear, articleId,
                                                         Terms(row, fields[1..][m].0), fields[1..][m].1);
        assert fields[1..][m] == fields[m + 1];
        assert e[j].termType == fields[m + 1].1;
      } else {
        assert e[i] == rest[i - |first|] && e[j] == rest[j - |first|];
      }
    }
  }

  lemma OnlyRepeatsStep(row: Row, fields: seq<(string, string)>, title: string, pubYear: string, articleId: nat,
                        first: seq<ErrorRecord>, rest: seq<ErrorRecord>)
    requires fields != [] && HasColumns(row, fields)
    requires first == FieldErrors(title, pubYear, articleId, Terms(row, fields[0].0), fields[0].1)
    requires ReportsOnlyRepeats(rest, row, fields[1..], title, pubYear, articleId)
    ensures ReportsOnlyRepeats(first + rest, row, fields, title, pubYear, articleId)
  {
    var e := first + rest;
    forall k | 0 <= k < |e|
      ensures exists i :: 0 <= i < |fields| && ReportsRepeat(e[k], title, pubYear, articleId, Terms(row, fields[i].0), fields[i].1)
    {
      if k < |first| {
        assert ReportsRepeat(e[k], title, pubYear, articleId, Terms(row, fields[0].0), fields[0].1);
      } else {
        var i :| 0 <= i < |fields[1..]| && ReportsRepeat(rest[k - |first|], title, pubYear, articleId, Terms(row, fields[1..][i].0), fields[1..][i].1);
        assert fields[1..][i] == fields[i + 1];
        assert ReportsRepeat(e[k], title, pubYear, articleId, Terms(row, fields[i + 1].0), fields[i + 1].1);
      }
    }
  }

  lemma EveryRepeatStep(row: Row, fields: seq<(string, string)>, title: string, pubYear: string, articleId: nat,
                        first: seq<ErrorRecord>, rest: seq<ErrorRecord>)
    requires fields != [] && HasColumns(row, fields)
    requires first == FieldErrors(title, pubYear, articleId, Terms(row, fields[0].0), fields[0].1)
    requires ReportsEveryRepeat(rest, row, fields[1..])
    ensures ReportsEveryRepeat(first + rest, row, fields)
  {
    var e := first + rest;
    forall i, x | 0 <= i < |fields| && Count(Terms(row, fields[i].0), x) > 1
      ensures exists k :: 0 <= k < |e| && e[k].DuplicateKeyword? && e[k].term == x && e[k].termType == fields[i].1
    {
      if i == 0 {
        var k :| 0 <= k < |first| && first[k].DuplicateKeyword? && first[k].term == x;
        assert e[k] == first[k];
      } else {
        assert fields[1..][i - 1] == fields[i];
        var k :| 0 <= k < |rest| && rest[k].DuplicateKeyword? && rest[k].term == x && rest[k].termType == fields[1..][i - 1].1;
        assert e[|first| + k] == rest[k];
      }
    }
  }

  lemma NoRepeatsStep(row: Row, fields: seq<(string, string)>)
    requires fields != [] && HasColumns(row, fields)
    ensures NoRepeats(row, fields) <==> NoDuplicates(Terms(row, fields[0].0)) && NoRepeats(row, fields[1..])
  {
    assert forall i :: 0 <= i < |fields[1..]| ==> fields[1..][i] == fields[i + 1];
  }

  lemma HasColumnsTail(row: Row, fields: seq<(string, string)>)
    requires fields != [] && HasColumns(row, fields)
    ensures HasColumns(row, fields[1..])
  {
    assert forall i :: 0 <= i < |fields[1..]| ==> fields[1..][i] == fields[i + 1];
  }

  /** The (term, type) pairs the outer loop asks for, in order: per field, the
      stripped terms once each, in the order they first occur. */
  function Requested(row: Row, fields: seq<(string, string)>): (r: seq<Term>)
    requires HasColumns(row, fields)
    ensures forall k :: 0 <= k < |r| ==> r[k].value != [] && r[k].kind != []
    decreases |fields|
  {
    if fields == [] then []
    else
      HasColumnsTail(row, fields);
      Wanted(Distinct(Terms(row, fields[0].0)), fields[0].1) + Requested(row, fields[1..])
  }

  /** The outer loop's linking, field after field. */
  function LinkFields(s: Store, row: Row, fields: seq<(string, string)>, articleId: nat): (r: Store)
    requires HasColumns(row, fields)
    ensures TermsLinked(s, r, Requested(row, fields), articleId)
    decreases |fields|
  {
    if fields == [] then s
    else
      HasColumnsTail(row, fields);
      var ts := Distinct(Terms(row, fields[0].0));
      var s1 := LinkTerms(s, ts, fields[0].1, articleId);
      var r := LinkFields(s1, row, fields[1..], articleId);
      TermsLinkedConcat(s, s1, r, Wanted(ts, fields[0].1), Requested(row, fields[1..]), articleId);
      r
  }

  lemma {:induction false} LinkFieldsKeepsValid(s: Store, row: Row, fields: seq<(string, string)>, articleId: nat)
    requires HasColumns(row, fields)
    requires Valid(s) && InRange(articleId, |s.articles|)
    ensures Valid(LinkFields(s, row, fields, articleId))
    decreases |fields|
  {
    if fields != [] {
      HasColumnsTail(row, fields);
      var ts := Distinct(Terms(row, fields[0].0));
      LinkTermsKeepsValid(s, ts, fields[0].1, articleId);
      LinkFieldsKeepsValid(LinkTerms(s, ts, fields[0].1, articleId), row, fields[1..], articleId);
    }
  }

  /** The terms of a field are already stripped. */
  lemma TermsStripped(row: Row, column: string)
    requires column in row
    ensures forall k :: 0 <= k < |Terms(row, column)| ==> Strip(Terms(row, column)[k]) == Terms(row, column)[k]
  {
    var parts := Split(row[column], ';');
    forall k | 0 <= k < |parts|
      ensures Strip(Terms(row, column)[k]) == Terms(row, column)[k]
    {
      StripIdempotent(parts[k]);
    }
  }

  /** The pairs one field asks for: its type with each distinct non-empty term. */
  lemma FieldMembers(row: Row, column: string, kind: string, x: Term)
    requires column in row
    ensures x in Wanted(Distinct(Terms(row, column)), kind) <==>
      x.kind == Strip(kind) && x.kind != [] && x.value != [] && x.value in Terms(row, column)
  {
    var ts := Terms(row, column);
    WantedMembers(Distinct(ts), kind, x);
    TermsStripped(row, column);
    if exists t :: t in Distinct(ts) && Strip(t) == x.value {
      var t :| t in Distinct(ts) && Strip(t) == x.value;
      var k :| 0 <= k < |ts| && ts[k] == t;
      assert x.value in ts;
    }
    if x.value in ts {
      var k :| 0 <= k < |ts| && ts[k] == x.value;
      assert x.value in Distinct(ts) && Strip(x.value) == x.value;
    }
  }

  /** A pair is asked for exactly when some field of its type holds its value
      as a non-empty term. */
  lemma {:induction false} RequestedMembers(row: Row, fields: seq<(string, string)>, x: Term)
    requires HasColumns(row, fields)
    ensures x in Requested(row, fields) <==>
      exists i :: 0 <= i < |fields| && x.kind == Strip(fields[i].1) && x.kind != [] && x.value != []
                                    && x.value in Terms(row, fields[i].0)
    decreases |fields|
  {
    if fields != [] {
      HasColumnsTail(row, fields);
      FieldMembers(row, fields[0].0, fields[0].1, x);
      RequestedMembers(row, fields[1..], x);
      assert forall i :: 0 <= i < |fields[1..]| ==> fields[1..][i] == fields[i + 1];
      if exists i :: 0 <= i < |fields| && x.kind == Strip(fields[i].1) && x.kind != [] && x.value != []
                                       && x.value in Terms(row, fields[i].0) {
        var i :| 0 <= i < |fields| && x.kind == Strip(fields[i].1) && x.kind != [] && x.value != []
                                   && x.value in Terms(row, fields[i].0);
        if i > 0 {
          assert fields[1..][i - 1] == fields[i];
        }
      }
    }
  }

  /** No two fields store their terms under the same type. */
  predicate DistinctKinds(fields: seq<(string, string)>) {
    forall i, j :: 0 <= i < j < |fields| ==> Strip(fields[i].1) != Strip(fields[j].1)
  }

  /** When the fields' types differ, no pair is asked for twice, so each
      distinct non-empty term of a field gets one link. */
  lemma {:induction false} RequestedNoDuplicates(row: Row, fields: seq<(string, string)>)
    requires HasColumns(row, fields) && DistinctKinds(fields)
    ensures NoDuplicates(Requested(row, fields))
    decreases |fields|
  {
    if fields != [] {
      HasColumnsTail(row, fields);
      var ts := Distinct(Terms(row, fields[0].0));
      var w := Wanted(ts, fields[0].1);
      var rest := Requested(row, fields[1..]);
      assert DistinctKinds(fields[1..]) by {
        assert forall i :: 0 <= i < |fields[1..]| ==> fields[1..][i] == fields[i + 1];
      }
      RequestedNoDuplicates(row, fields[1..]);
      TermsStripped(row, fields[0].0);
      forall k | 0 <= k < |ts|
        ensures Strip(ts[k]) == ts[k]
      {
        var terms := Terms(row, fields[0].0);
        assert ts[k] in ts;
        assert ts[k] in terms;
        var j :| 0 <= j < |terms| && terms[j] == ts[k];
      }
      WantedNoDuplicates(ts, fields[0].1);
      forall x | x in w
        ensures x !in rest
      {
        RequestedMembers(row, fields[1..], x);
        assert forall i :: 0 <= i < |fields[1..]| ==> fields[1..][i] == fields[i + 1];
      }
      NoDuplicatesConcat(w, rest);
    }
  }

  /** The five keyword columns are document columns. */
  lemma KeywordColumnsPresent(row: Row)
    requires IsDocRow(row) && HasLinkColumns(row)
    ensures HasColumns(row, KeywordFields)
  {
  }

  /** The keyword types are non-empty and already stripped. */
  lemma KeywordKindsStripped()
    ensures forall i :: 0 <= i < |KeywordFields| ==> Strip(KeywordFields[i].1) == KeywordFields[i].1
    ensures forall i :: 0 <= i < |KeywordFields| ==> KeywordFields[i].1 != []
  {
    forall i | 0 <= i < |KeywordFields|
      ensures Strip(KeywordFields[i].1) == KeywordFields[i].1 && KeywordFields[i].1 != []
    {
      var k := KeywordFields[i].1;
      assert k != [] && !IsSpace(k[0]) && !IsSpace(k[|k| - 1]);
    }
  }

  /** The keyword types are distinct once stripped. */
  lemma KeywordKindsDistinct()
    ensures DistinctKinds(KeywordFields)
  {
    KeywordKindsStripped();
  }

  /** `handle_keywords`: for each keyword column in turn, every distinct
      stripped term is linked to the article under the column's type (empty
      terms are skipped), and each term occurring more than once in a column is
      reported once with its count; linking does not depend on the reports. */
  function HandleKeywords(s: Store, row: Row, articleId: nat): (r: RowResult)
    requires IsDocRow(row) && HasLinkColumns(row)
    ensures HasColumns(row, KeywordFields)
    ensures TermsLinked(s, r.store, Requested(row, KeywordFields), articleId)
    ensures ReportsOnlyRepeats(r.errors, row, KeywordFields, row["Document Title"], row["Publication_Year"], articleId)
    ensures ReportsEveryRepeat(r.errors, row, KeywordFields)
    ensures ReportsOnce(r.errors)
    ensures r.errors == [] <==> NoRepeats(row, KeywordFields)
  {
    KeywordColumnsPresent(row);
    KeywordKindsDistinct();
    var store := LinkFields(s, row, KeywordFields, articleId);
    RowResult(store, KeywordErrors(row, KeywordFields, row["Document Title"], row["Publication_Year"], articleId))
  }

  lemma HandleKeywordsKeepsValid(s: Store, row: Row, articleId: nat)
    requires IsDocRow(row) && HasLinkColumns(row) && Valid(s) && InRange(articleId, |s.articles|)
    ensures Valid(HandleKeywords(s, row, articleId).store)
  {
    KeywordColumnsPresent(row);
    LinkFieldsKeepsValid(s, row, KeywordFields, articleId);
  }

  /** A document row never asks for the same pair twice. */
  lemma KeywordsRequestedOnce(row: Row)
    requires IsDocRow(row) && HasLinkColumns(row)
    ensures HasColumns(row, KeywordFields)
    ensures NoDuplicates(Requested(row, KeywordFields))
  {
    KeywordColumnsPresent(row);
    KeywordKindsDistinct();
    RequestedNoDuplicates(row, KeywordFields);
  }

  /** The pairs a document row asks for are exactly the non-empty terms of
      each keyword column under that column's type. */
  lemma KeywordsRequested(row: Row, x: Term)
    requires IsDocRow(row) && HasLinkColumns(row)
    ensures HasColumns(row, KeywordFields)
    ensures x in Requested(row, KeywordFields) <==>
      exists i :: 0 <= i < |KeywordFields| && x.kind == KeywordFields[i].1 && x.value != []
                                           && x.value in Terms(row, KeywordFields[i].0)
  {
    KeywordColumnsPresent(row);
    KeywordKindsStripped();
    RequestedMembers(row, KeywordFields, x);
    var f := KeywordFields;
    if x in Requested(row, f) {
      var i :| 0 <= i < |f| && x.kind == Strip(f[i].1) && x.kind != [] && x.value != [] && x.value in Terms(row, f[i].0);
      assert x.kind == f[i].1;
    }
    if exists i :: 0 <= i < |f| && x.kind == f[i].1 && x.value != [] && x.value in Terms(row, f[i].0) {
      var i :| 0 <= i < |f| && x.kind == f[i].1 && x.value != [] && x.value in Terms(row, f[i].0);
      assert x.kind == Strip(f[i].1) && x.kind != [];
    }
  }

  /** A column holding only white space asks for nothing and reports nothing:
      its one term is empty. */
  lemma BlankFieldIsInert(row: Row, column: string, kind: string,
                          title: string, pubYear: string, articleId: nat)
    requires column in row && AllSpace(row[column])
    ensures Terms(row, column) == [[]]
    ensures Wanted(Distinct(Terms(row, column)), kind) == []
    ensures FieldErrors(title, pubYear, articleId, Terms(row, column), kind) == []
  {
    var cell := row[column];
    assert forall k :: 0 <= k < |cell| ==> cell[k] != ';';
    SplitSeparatorFree(cell, ';');
    assert cell + [] + [] == cell;
    StripPadded(cell, [], []);
    var blank: seq<string> := [[]];
    assert Terms(row, column) == blank;
    assert Distinct(blank) == blank by {
      assert blank[..0] == [];
    }
    assert Strip([]) == [];
    assert NoDuplicates(blank);
  }

  /** A document row whose keyword columns are all blank leaves the store as it
      was and reports nothing. */
  lemma BlankKeywordsChangeNothing(s: Store, row: Row, articleId: nat)
    requires IsDocRow(row) && HasLinkColumns(row)
    requires forall i :: 0 <= i < |KeywordFields| ==> AllSpace(row[KeywordFields[i].0])
    ensures HandleKeywords(s, row, articleId) == RowResult(s, [])
  {
    KeywordColumnsPresent(row);
    var r := HandleKeywords(s, row, articleId);
    BlankFieldsAskNothing(row, KeywordFields);
    NothingLinked(s, r.store, articleId);
    BlankFieldsRepeatNothing(row, KeywordFields);
  }

  /** Linking no pairs changes nothing. */
  lemma NothingLinked(s: Store, r: Store, articleId: nat)
    requires TermsLinked(s, r, [], articleId)
    ensures r == s
  {
    assert r.keywords == s.keywords;
  }

  lemma BlankFieldsRepeatNothing(row: Row, fields: seq<(string, string)>)
    requires HasColumns(row, fields)
    requires forall i :: 0 <= i < |fields| ==> AllSpace(row[fields[i].0])
    ensures NoRepeats(row, fields)
  {
    forall i | 0 <= i < |fields|
      ensures NoDuplicates(Terms(row, fields[i].0))
    {
      BlankFieldIsInert(row, fields[i].0, fields[i].1, "", "", 0);
    }
  }

  lemma {:induction false} BlankFieldsAskNothing(row: Row, fields: seq<(string, string)>)
    requires HasColumns(row, fields)
    requires forall i :: 0 <= i < |fields| ==> AllSpace(row[fields[i].0])
    ensures Requested(row, fields) == []
    decreases |fields|
  {
    if fields != [] {
      HasColumnsTail(row, fields);
      BlankFieldIsInert(row, fields[0].0, fields[0].1, "", "", 0);
      assert forall i :: 0 <= i < |fields[1..]| ==> fields[1..][i] == fields[i + 1];
      BlankFieldsAskNothing(row, fields[1..]);
    }
  }
}
