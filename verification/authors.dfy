/**
 * `handle_authors`: split the Authors and Author Affiliations cells, give
 * repeated author names an ordinal suffix, and link each author positionally
 * to an affiliation and to the article.
 */
module Authors {
  import opened Text
  import opened Numbers
  import opened Tally
  import opened Table
  import opened Entities

  /** The name given to the k-th occurrence of a repeated author: the name
      followed by a space and the ordinal in parentheses. */
  function Suffixed(name: string, k: nat): string {
    name + " (" + NatToString(k) + ")"
  }

  /** A renamed author extends the name, and different ordinals give the
      same name different suffixes. */
  lemma SuffixedInjective(name: string, j: nat, k: nat)
    ensures name < Suffixed(name, j)
    ensures Suffixed(name, j) == Suffixed(name, k) ==> j == k
  {
    assert Suffixed(name, j)[..|name|] == name;
    if Suffixed(name, j) == Suffixed(name, k) {
      var p := name + " (";
      assert Suffixed(name, j) == p + NatToString(j) + ")";
      assert NatToString(j) == Suffixed(name, j)[|p|..|Suffixed(name, j)| - 1];
      assert NatToString(k) == Suffixed(name, k)[|p|..|Suffixed(name, k)| - 1];
      NatToStringIsNumeral(j);
      NatToStringIsNumeral(k);
    }
  }

  /** The inner loop for one duplicated name `d`: walk the list left to right,
      counting occurrences of `d` after `seen` earlier ones, and rewrite the
      second and later occurrences in place. */
  function RenameOccurrences(cur: seq<string>, d: string, seen: nat): (r: seq<string>)
    ensures |r| == |cur|
    ensures forall i :: 0 <= i < |cur| && cur[i] != d ==> r[i] == cur[i]
    decreases |cur|
  {
    if cur == [] then []
    else
      var j := if cur[0] == d then seen + 1 else seen;
      var head := if cur[0] == d && j > 1 then Suffixed(d, j) else cur[0];
      [head] + RenameOccurrences(cur[1..], d, j)
  }

  /** The outer loop: one `RenameOccurrences` pass per duplicated name, each on
      the list the previous passes left behind. */
  function RenameAll(cur: seq<string>, ds: seq<string>): (r: seq<string>)
    ensures |r| == |cur|
    ensures forall i :: 0 <= i < |cur| && cur[i] !in ds ==> r[i] == cur[i]
    decreases |ds|
  {
    if ds == [] then cur else RenameAll(RenameOccurrences(cur, ds[0], 0), ds[1..])
  }

  /** The author list `handle_authors` goes on to link: as long as the input,
      and every name that occurs only once is left as it is. */
  function Disambiguate(names: seq<string>): (r: seq<string>)
    ensures |r| == |names|
    ensures forall i :: 0 <= i < |names| && Count(names, names[i]) == 1 ==> r[i] == names[i]
  {
    RenameAll(names, Dups(names))
  }

  /** How many times `names[i]` occurs up to and including position `i`. */
  function Ordinal(names: seq<string>, i: nat): nat
    requires i < |names|
  {
    Count(names[..i + 1], names[i])
  }

  /** The rule the renaming aims at, position by position: the k-th occurrence
      of a name, for k >= 2, becomes "Name (k)"; everything else is kept. */
  function Ordinalised(names: seq<string>): seq<string> {
    seq(|names|, i requires 0 <= i < |names| => OrdinalName(names, i))
  }

  function OrdinalName(names: seq<string>, i: nat): string
    requires i < |names|
  {
    if Ordinal(names, i) > 1 then Suffixed(names[i], Ordinal(names, i)) else names[i]
  }

  /** No suffixed name the rule produces already occurs in the input. */
  predicate NoSuffixClash(names: seq<string>) {
    forall i :: 0 <= i < |names| && Ordinal(names, i) > 1 ==> Suffixed(names[i], Ordinal(names, i)) !in names
  }

  lemma {:induction false} RenameOccurrencesAt(cur: seq<string>, d: string, seen: nat, i: nat)
    requires i < |cur|
    ensures var c := seen + Count(cur[..i + 1], d);
            RenameOccurrences(cur, d, seen)[i] == (if cur[i] == d && c > 1 then Suffixed(d, c) else cur[i])
    decreases i, 1
  {
    CountFirst(cur, d);
    if i == 0 {
      assert RenameOccurrences(cur, d, seen)[0] == RenameOccurrences(cur, d, seen)[..1][0];
    } else {
      RenameOccurrencesLater(cur, d, seen, i);
    }
  }

  lemma {:induction false} RenameOccurrencesLater(cur: seq<string>, d: string, seen: nat, i: nat)
    requires 0 < i < |cur|
    ensures var c := seen + Count(cur[..i + 1], d);
            RenameOccurrences(cur, d, seen)[i] == (if cur[i] == d && c > 1 then Suffixed(d, c) else cur[i])
    decreases i, 0
  {
    var j := if cur[0] == d then seen + 1 else seen;
    var rest := RenameOccurrences(cur[1..], d, j);
    assert RenameOccurrences(cur, d, seen)[i] == rest[i - 1];
    RenameOccurrencesAt(cur[1..], d, j, i - 1);
    CountFirst(cur, d);
    CountAfterFirst(cur, i, d);
    assert cur[1..][i - 1] == cur[i];
  }

  /** The state after the passes for `done`: positions holding a processed name
      carry the rule's value, the others their input value. */
  predicate Processed(a: seq<string>, cur: seq<string>, done: set<string>) {
    |cur| == |a| && forall i :: 0 <= i < |a| ==> cur[i] == (if a[i] in done then OrdinalName(a, i) else a[i])
  }

  lemma RenamePassStep(a: seq<string>, cur: seq<string>, done: set<string>, d: string)
    requires NoSuffixClash(a) && Processed(a, cur, done)
    requires d in a && d !in done
    ensures Processed(a, RenameOccurrences(cur, d, 0), done + {d})
  {
    var r := RenameOccurrences(cur, d, 0);
    SamePlaces(a, cur, done, d);
    forall i | 0 <= i < |a|
      ensures r[i] == (if a[i] in done + {d} then OrdinalName(a, i) else a[i])
    {
      RenameOccurrencesAt(cur, d, 0, i);
      CountSamePositions(cur[..i + 1], a[..i + 1], d);
    }
  }

  /** Where `d` stands is the same in `cur` and `a`: a processed position
      holds its own name or a suffixed name, and neither is `d`. */
  lemma SamePlaces(a: seq<string>, cur: seq<string>, done: set<string>, d: string)
    requires NoSuffixClash(a) && Processed(a, cur, done)
    requires d in a && d !in done
    ensures forall i :: 0 <= i < |a| ==> (cur[i] == d <==> a[i] == d)
  {
    forall i | 0 <= i < |a|
      ensures cur[i] == d <==> a[i] == d
    {
      if a[i] in done && Ordinal(a, i) > 1 {
        assert cur[i] == Suffixed(a[i], Ordinal(a, i));
      }
    }
  }

  /** After the pass for `ds[0]`, the remaining names are still fresh. */
  lemma PassesLeft(a: seq<string>, done: set<string>, ds: seq<string>)
    requires ds != [] && NoDuplicates(ds)
    requires forall x :: x in ds ==> x in a && x !in done
    ensures NoDuplicates(ds[1..])
    ensures forall x :: x in ds[1..] ==> x in a && x !in done + {ds[0]}
  {
    var rest := ds[1..];
    forall x | x in rest
      ensures x in a && x !in done + {ds[0]}
    {
      var k :| 0 <= k < |rest| && rest[k] == x;
      assert ds[k + 1] == x;
    }
    forall i, j | 0 <= i < j < |rest|
      ensures rest[i] != rest[j]
    {
      assert rest[i] == ds[i + 1] && rest[j] == ds[j + 1];
    }
  }

  lemma Elements(ds: seq<string>)
    requires ds != []
    ensures (set x | x in ds) == {ds[0]} + set x | x in ds[1..]
  {
    assert ds == [ds[0]] + ds[1..];
  }

  lemma {:induction false} RenamePasses(a: seq<string>, cur: seq<string>, done: set<string>, ds: seq<string>)
    requires NoSuffixClash(a) && Processed(a, cur, done)
    requires NoDuplicates(ds)
    requires forall x :: x in ds ==> x in a && x !in done
    ensures Processed(a, RenameAll(cur, ds), done + set x | x in ds)
    decreases |ds|
  {
    if ds == [] {
      assert (done + set x | x in ds) == done;
    } else {
      var d, rest := ds[0], ds[1..];
      assert d in ds;
      RenamePassStep(a, cur, done, d);
      var next := RenameOccurrences(cur, d, 0);
      PassesLeft(a, done, ds);
      RenamePasses(a, next, done + {d}, rest);
      Elements(ds);
    }
  }

  /** When no generated name collides with an input name, the in-place renaming
      is exactly the ordinal rule: the first occurrence of a repeated name is
      kept and its k-th occurrence becomes "Name (k)". */
  lemma DisambiguateByOrdinal(names: seq<string>)
    requires NoSuffixClash(names)
    ensures Disambiguate(names) == Ordinalised(names)
  {
    var ds := Dups(names);
    var r := Disambiguate(names);
    DisambiguateProcessed(names);
    assert |r| == |names|;
    forall i | 0 <= i < |names|
      ensures r[i] == OrdinalName(names, i)
    {
      if names[i] !in ds {
        CountPrefix(names, i + 1, names[i]);
        assert Ordinal(names, i) <= 1;
      }
    }
  }

  lemma DisambiguateProcessed(names: seq<string>)
    requires NoSuffixClash(names)
    ensures Processed(names, Disambiguate(names), set x | x in Dups(names))
  {
    var ds := Dups(names);
    forall x | x in ds
      ensures x in names
    {
      CountPositive(names, x);
    }
    RenamePasses(names, names, {}, ds);
    assert ({} + set x | x in ds) == set x | x in ds;
  }

  /** `["A", "A", "B"]` becomes `["A", "A (2)", "B"]`. */
  lemma DisambiguateExample()
    ensures Disambiguate(["A", "A", "B"]) == ["A", "A (2)", "B"]
  {
    var a := ["A", "A", "B"];
    assert a[..2] == ["A", "A"] && ["A", "A"][..1] == ["A"] && ["A"][..0] == [];
    assert Count(["A"], "A") == 1 && Count(["A", "A"], "A") == 2 && Count(a, "A") == 2;
    assert Count(["A"], "B") == 0 && Count(["A", "A"], "B") == 0 && Count(a, "B") == 1;
    assert Distinct(a) == ["A", "B"];
    assert Dups(a) == ["A"];
    assert Suffixed("A", 2) == "A (2)";
    assert RenameOccurrences(a, "A", 0) == ["A", "A (2)", "B"];
  }

  /** The result need not be unique: `["A", "A", "A (2)"]` becomes
      `["A", "A (2)", "A (2)"]`. */
  lemma DisambiguationMayCollide()
    ensures Disambiguate(["A", "A", "A (2)"]) == ["A", "A (2)", "A (2)"]
  {
    var a := ["A", "A", "A (2)"];
    var b := "A (2)";
    assert a[..2] == ["A", "A"] && ["A", "A"][..1] == ["A"] && ["A"][..0] == [];
    assert Count(["A"], "A") == 1 && Count(["A", "A"], "A") == 2 && Count(a, "A") == 2;
    assert Count(["A"], b) == 0 && Count(["A", "A"], b) == 0 && Count(a, b) == 1;
    assert Distinct(a) == ["A", b];
    assert Dups(a) == ["A"];
    assert Suffixed("A", 2) == b;
    assert RenameOccurrences(a, "A", 0) == ["A", b, b];
  }

  /** Without `NoSuffixClash` the ordinal rule fails: in
      `["A", "A", "A (2)", "A (2)"]` the pass for "A" turns the second "A" into
      "A (2)", so the pass for "A (2)" meets three occurrences and renames the
      input's first "A (2)". */
  lemma RenamingCascades()
    ensures Disambiguate(["A", "A", "A (2)", "A (2)"]) == ["A", "A (2)", "A (2) (2)", "A (2) (3)"]
    ensures Ordinalised(["A", "A", "A (2)", "A (2)"]) == ["A", "A (2)", "A (2)", "A (2) (2)"]
  {
    CascadeSuffixes();
    CascadeRenamed();
    CascadeRule();
  }

  lemma CascadeRenamed()
    ensures var b := "A (2)";
            Disambiguate(["A", "A", b, b]) == ["A", b, Suffixed(b, 2), Suffixed(b, 3)]
  {
    var b := "A (2)";
    var a := ["A", "A", b, b];
    CascadeDups();
    CascadePasses();
    var first := RenameOccurrences(a, "A", 0);
    assert RenameAll(a, ["A", b]) == RenameAll(first, [b]);
  }

  lemma CascadeRule()
    ensures var b := "A (2)";
            Ordinalised(["A", "A", b, b]) == ["A", b, b, Suffixed(b, 2)]
  {
    var b := "A (2)";
    var a := ["A", "A", b, b];
    CascadeOrdinals();
    CascadeSuffixes();
    assert OrdinalName(a, 1) == b;
  }

  lemma CascadeSuffixes()
    ensures Suffixed("A", 2) == "A (2)"
    ensures Suffixed("A (2)", 2) == "A (2) (2)"
    ensures Suffixed("A (2)", 3) == "A (2) (3)"
  {
    assert NatToString(2) == "2" && NatToString(3) == "3";
  }

  lemma CascadeOrdinals()
    ensures var a := ["A", "A", "A (2)", "A (2)"];
            Ordinal(a, 0) == 1 && Ordinal(a, 1) == 2 && Ordinal(a, 2) == 1 && Ordinal(a, 3) == 2
  {
    var b := "A (2)";
    var a := ["A", "A", b, b];
    CascadeCounts();
    assert a[..1] == ["A"] && a[..2] == ["A", "A"] && a[..3] == ["A", "A", b] && a[..4] == a;
  }

  lemma CascadePasses()
    ensures var b := "A (2)";
            var first := RenameOccurrences(["A", "A", b, b], "A", 0);
            && first == ["A", b, b, b]
            && RenameOccurrences(first, b, 0) == ["A", b, Suffixed(b, 2), Suffixed(b, 3)]
  {
    var b := "A (2)";
    var a := ["A", "A", b, b];
    var first := RenameOccurrences(a, "A", 0);
    assert first == ["A", b, b, b] by {
      assert Suffixed("A", 2) == b;
      assert a[1..][1..] == [b, b];
      assert RenameOccurrences([b, b], "A", 2) == [b, b];
      assert RenameOccurrences(a[1..], "A", 1) == [b, b, b];
    }
    assert RenameOccurrences(first, b, 0) == ["A", b, Suffixed(b, 2), Suffixed(b, 3)] by {
      assert RenameOccurrences(first[3..], b, 2) == [Suffixed(b, 3)];
      assert RenameOccurrences(first[2..], b, 1) == [Suffixed(b, 2), Suffixed(b, 3)];
    }
  }

  lemma CascadeDups()
    ensures Dups(["A", "A", "A (2)", "A (2)"]) == ["A", "A (2)"]
  {
    CascadeCounts();
    var b := "A (2)";
    assert Repeated(["A", "A", b, b], [b]) == [b];
  }

  lemma CascadeCounts()
    ensures var b := "A (2)";
            var a := ["A", "A", b, b];
            && Count(a, "A") == 2 && Count(a, b) == 2 && Distinct(a) == ["A", b]
            && Count(["A", "A", b], "A") == 2 && Count(["A", "A", b], b) == 1
            && Count(["A", "A"], "A") == 2 && Count(["A", "A"], b) == 0
            && Count(["A"], "A") == 1 && Count(["A"], b) == 0
  {
    var b := "A (2)";
    var a := ["A", "A", b, b];
    assert a[..3] == ["A", "A", b] && ["A", "A", b][..2] == ["A", "A"];
    assert ["A", "A"][..1] == ["A"] && ["A"][..0] == [];
    assert Count(["A", "A", b], "A") == 2 && Count(["A", "A", b], b) == 1;
    assert a[3] == b && b != "A";
    assert Count(a, "A") == Count(a[..3], "A");
    assert Count(a, b) == Count(a[..3], b) + 1;
    assert Distinct(["A", "A"]) == ["A"];
    assert Distinct(["A", "A", b]) == ["A", b];
  }

  function Min(a: nat, b: nat): nat {
    if a < b then a else b
  }

  /** Link `l` joins the author called `name` to `articleId`. */
  predicate LinksAuthor(authors: seq<string>, l: Link, name: string, articleId: nat) {
    InRange(l.left, |authors|) && authors[l.left - 1] == name && l.right == articleId
  }

  /** `id` is the id of the first row of `t` holding `x`: the row the
      `SELECT` of a get-or-create finds. */
  predicate FirstRow(t: seq<string>, x: string, id: nat) {
    InRange(id, |t|) && t[id - 1] == x && forall j :: 0 <= j < id - 1 ==> t[j] != x
  }

  /** A value has one first row. */
  lemma FirstRowUnique(t: seq<string>, x: string, i: nat, j: nat)
    requires FirstRow(t, x, i) && FirstRow(t, x, j)
    ensures i == j
  {
  }

  /** The id of the first row of `t` holding `x`. */
  function FirstId(t: seq<string>, x: string): (id: nat)
    requires x in t
    ensures FirstRow(t, x, id)
    decreases |t|
  {
    if t[0] == x then 1
    else
      var id := FirstId(t[1..], x) + 1;
      assert t[id - 1] == t[1..][id - 2];
      assert forall j :: 1 <= j < id - 1 ==> t[j] == t[1..][j - 1];
      id
  }

  /** Link `l` joins the author called `name` to the affiliation `affiliation`. */
  predicate JoinsPair(authors: seq<string>, affiliations: seq<string>, l: Link, name: string, affiliation: string) {
    && InRange(l.left, |authors|) && InRange(l.right, |affiliations|)
    && authors[l.left - 1] == name && affiliations[l.right - 1] == affiliation
  }

  /** The schema refuses no author-affiliation link. */
  ghost predicate AcceptsEveryAffiliationLink(schema: Schema) {
    forall links: seq<Link>, l: Link :: schema.acceptsAuthorAffiliation(links, l)
  }

  /** Every pair got its author-affiliation link, in order: the k-th new link
      joins the k-th paired author to the k-th paired affiliation. */
  predicate PairsJoined(s: Store, r: Store, names: seq<string>, affs: seq<string>) {
    var n := Min(|names|, |affs|);
    && |r.authorAffiliations| == |s.authorAffiliations| + n
    && forall k :: 0 <= k < n ==>
         JoinsPair(r.authors, r.affiliations, r.authorAffiliations[|s.authorAffiliations| + k], names[k], affs[k])
  }

  /** What the zip loop leaves behind, relative to the store it started from:
      only the author, affiliation and their two link tables grow, each by
      appending; every author row created is a paired name and every
      affiliation row created a paired affiliation, at most one per pair;
      every paired affiliation is stored; exactly one author-article link per pair, in order, naming the pair's
      author; at most one author-affiliation link per pair, joining a pair's
      author and affiliation. */
  predicate AuthorsLinked(s: Store, r: Store, names: seq<string>, affs: seq<string>, articleId: nat) {
    var n := Min(|names|, |affs|);
    && r == s.(authors := r.authors, affiliations := r.affiliations,
               authorAffiliations := r.authorAffiliations, authorArticles := r.authorArticles)
    && GrowsBy(s.authors, r.authors, names[..n]) && GrowsBy(s.affiliations, r.affiliations, affs[..n])
    && (forall k :: 0 <= k < n ==> affs[k] in r.affiliations)
    && s.authorAffiliations <= r.authorAffiliations && s.authorArticles <= r.authorArticles
    && |r.authorArticles| == |s.authorArticles| + n
    && (forall k :: 0 <= k < n ==> LinksAuthor(r.authors, r.authorArticles[|s.authorArticles| + k], names[k], articleId))
    && |r.authorAffiliations| <= |s.authorAffiliations| + n
    && AffiliationLinksFromPairs(s, r, names, affs)
  }

  /** Every author-affiliation link added since `s` joins the author and the
      affiliation of one pair. */
  predicate AffiliationLinksFromPairs(s: Store, r: Store, names: seq<string>, affs: seq<string>) {
    forall k :: |s.authorAffiliations| <= k < |r.authorAffiliations| ==>
      && InRange(r.authorAffiliations[k].left, |r.authors|)
      && InRange(r.authorAffiliations[k].right, |r.affiliations|)
      && exists m :: 0 <= m < Min(|names|, |affs|) && r.authors[r.authorAffiliations[k].left - 1] == names[m]
                                                  && r.affiliations[r.authorAffiliations[k].right - 1] == affs[m]
  }

  /** One iteration of the zip loop: get or create the affiliation and the
      author, link them (a link the schema refuses is dropped, as the source
      swallows its IntegrityError), and link the author to the article. */
  function LinkAuthor(schema: Schema, s: Store, name: string, affiliation: string, articleId: nat): (r: Store)
    ensures AuthorsLinked(s, r, [name], [affiliation], articleId)
  {
    var aff := GetOrCreate(s.affiliations, Itself, affiliation);
    var au := GetOrCreate(s.authors, Itself, name);
    var pair := Link(au.id, aff.id);
    var accepted := schema.acceptsAuthorAffiliation(s.authorAffiliations, pair);
    var r := s.(affiliations := aff.table, authors := au.table,
                authorAffiliations := if accepted then s.authorAffiliations + [pair] else s.authorAffiliations,
                authorArticles := s.authorArticles + [Link(au.id, articleId)]);
    assert accepted ==> r.authorAffiliations[|s.authorAffiliations|] == pair;
    assert r.authors[pair.left - 1] == [name][0] && r.affiliations[pair.right - 1] == [affiliation][0];
    assert [name][..1] == [name] && [affiliation][..1] == [affiliation];
    r
  }

  /** The author-affiliation link of one zip step joins the first author row
      holding the name to the first affiliation row holding the affiliation,
      and is appended exactly when the schema accepts it. */
  lemma LinkAuthorPairLink(schema: Schema, s: Store, name: string, affiliation: string, articleId: nat)
    ensures var r := LinkAuthor(schema, s, name, affiliation, articleId);
      && name in r.authors && affiliation in r.affiliations
      && var pair := Link(FirstId(r.authors, name), FirstId(r.affiliations, affiliation));
         && (schema.acceptsAuthorAffiliation(s.authorAffiliations, pair) ==>
               r.authorAffiliations == s.authorAffiliations + [pair])
         && (!schema.acceptsAuthorAffiliation(s.authorAffiliations, pair) ==>
               r.authorAffiliations == s.authorAffiliations)
  {
    var aff := GetOrCreate(s.affiliations, Itself, affiliation);
    var au := GetOrCreate(s.authors, Itself, name);
    var r := LinkAuthor(schema, s, name, affiliation, articleId);
    assert r.authors == au.table && r.affiliations == aff.table;
    FirstRowOfGetOrCreate(s.authors, name);
    FirstRowOfGetOrCreate(s.affiliations, affiliation);
    FirstRowUnique(r.authors, name, au.id, FirstId(r.authors, name));
    FirstRowUnique(r.affiliations, affiliation, aff.id, FirstId(r.affiliations, affiliation));
  }

  /** The id a get-or-create hands back is the first row holding the value. */
  lemma FirstRowOfGetOrCreate(t: seq<string>, x: string)
    ensures var c := GetOrCreate(t, Itself, x);
            FirstRow(c.table, x, c.id)
  {
    var c := GetOrCreate(t, Itself, x);
    if !Has(t, Itself, x) {
      forall j | 0 <= j < c.id - 1 ensures c.table[j] != x {
        assert Itself(t[j]) != x;
      }
    }
  }

  /** Under a schema that refuses no author-affiliation link, one zip step
      appends the link joining its author to its affiliation. */
  lemma LinkAuthorJoins(schema: Schema, s: Store, name: string, affiliation: string, articleId: nat)
    ensures AcceptsEveryAffiliationLink(schema) ==>
              PairsJoined(s, LinkAuthor(schema, s, name, affiliation, articleId), [name], [affiliation])
  {
    if !AcceptsEveryAffiliationLink(schema) {
      return;
    }
    var r := LinkAuthor(schema, s, name, affiliation, articleId);
    LinkAuthorPairLink(schema, s, name, affiliation, articleId);
    var pair := Link(FirstId(r.authors, name), FirstId(r.affiliations, affiliation));
    assert schema.acceptsAuthorAffiliation(s.authorAffiliations, pair);
    assert r.authorAffiliations[|s.authorAffiliations|] == pair;
    assert Min(1, 1) == 1;
  }

  lemma LinkAuthorKeepsValid(schema: Schema, s: Store, name: string, affiliation: string, articleId: nat)
    requires Valid(s) && InRange(articleId, |s.articles|)
    ensures Valid(LinkAuthor(schema, s, name, affiliation, articleId))
  {
    var r := LinkAuthor(schema, s, name, affiliation, articleId);
    GetOrCreateKeepsKeysUnique(s.affiliations, Itself, affiliation);
    GetOrCreateKeepsKeysUnique(s.authors, Itself, name);
    assert KeysUnique(r);
    assert RefsResolve(r) by {
      assert forall k :: 0 <= k < |r.authorAffiliations| ==>
        InRange(r.authorAffiliations[k].left, |r.authors|) && InRange(r.authorAffiliations[k].right, |r.affiliations|) by {
        forall k | 0 <= k < |r.authorAffiliations|
          ensures InRange(r.authorAffiliations[k].left, |r.authors|) && InRange(r.authorAffiliations[k].right, |r.affiliations|)
        {
          if k < |s.authorAffiliations| {
            assert r.authorAffiliations[k] == s.authorAffiliations[k];
          }
        }
      }
      assert forall k :: 0 <= k < |r.authorArticles| ==>
        InRange(r.authorArticles[k].left, |r.authors|) && InRange(r.authorArticles[k].right, |r.articles|) by {
        forall k | 0 <= k < |r.authorArticles|
          ensures InRange(r.authorArticles[k].left, |r.authors|) && InRange(r.authorArticles[k].right, |r.articles|)
        {
          if k < |s.authorArticles| {
            assert r.authorArticles[k] == s.authorArticles[k];
          } else {
            assert LinksAuthor(r.authors, r.authorArticles[|s.authorArticles| + 0], [name][0], articleId);
          }
        }
      }
    }
  }

  /** `for author, affiliation in zip(authors, affiliations)`: the pairs are
      taken position by position and the longer list's tail is ignored. */
  function PairAuthors(schema: Schema, s: Store, names: seq<string>, affs: seq<string>, articleId: nat): (r: Store)
    ensures AuthorsLinked(s, r, names, affs, articleId)
    ensures AcceptsEveryAffiliationLink(schema) ==> PairsJoined(s, r, names, affs)
    decreases |names|
  {
    if names == [] || affs == [] then s
    else
      var s1 := LinkAuthor(schema, s, names[0], affs[0], articleId);
      var r := PairAuthors(schema, s1, names[1..], affs[1..], articleId);
      PairAuthorsStep(s, s1, r, names, affs, articleId);
      LinkAuthorJoins(schema, s, names[0], affs[0], articleId);
      PairsJoinedStep(s, s1, r, names, affs);
      r
  }

  lemma {:induction false} PairAuthorsKeepsValid(schema: Schema, s: Store, names: seq<string>, affs: seq<string>, articleId: nat)
    requires Valid(s) && InRange(articleId, |s.articles|)
    ensures Valid(PairAuthors(schema, s, names, affs, articleId))
    decreases |names|
  {
    if names != [] && affs != [] {
      var s1 := LinkAuthor(schema, s, names[0], affs[0], articleId);
      LinkAuthorKeepsValid(schema, s, names[0], affs[0], articleId);
      PairAuthorsKeepsValid(schema, s1, names[1..], affs[1..], articleId);
    }
  }

  lemma PairAuthorsStep(s: Store, s1: Store, r: Store, names: seq<string>, affs: seq<string>, articleId: nat)
    requires names != [] && affs != []
    requires AuthorsLinked(s, s1, [names[0]], [affs[0]], articleId)
    requires AuthorsLinked(s1, r, names[1..], affs[1..], articleId)
    ensures AuthorsLinked(s, r, names, affs, articleId)
  {
    AuthorLinksStep(s, s1, r, names, affs, articleId);
    AffiliationLinksStep(s, s1, r, names, affs, articleId);
    CreatedRowsStep(s, s1, r, names, affs, articleId);
  }

  lemma PairsJoinedStep(s: Store, s1: Store, r: Store, names: seq<string>, affs: seq<string>)
    requires names != [] && affs != []
    requires s1.authors <= r.authors && s1.affiliations <= r.affiliations
    requires s1.authorAffiliations <= r.authorAffiliations
    ensures PairsJoined(s, s1, [names[0]], [affs[0]]) && PairsJoined(s1, r, names[1..], affs[1..]) ==>
              PairsJoined(s, r, names, affs)
  {
    if !(PairsJoined(s, s1, [names[0]], [affs[0]]) && PairsJoined(s1, r, names[1..], affs[1..])) {
      return;
    }
    var n := Min(|names|, |affs|);
    var base := |s.authorAffiliations|;
    assert Min(1, 1) == 1 && Min(|names[1..]|, |affs[1..]|) == n - 1;
    forall k | 0 <= k < n
      ensures JoinsPair(r.authors, r.affiliations, r.authorAffiliations[base + k], names[k], affs[k])
    {
      if k == 0 {
        var l := s1.authorAffiliations[base];
        assert JoinsPair(s1.authors, s1.affiliations, l, [names[0]][0], [affs[0]][0]);
        assert r.authorAffiliations[base] == l;
        assert r.authors[l.left - 1] == s1.authors[l.left - 1];
        assert r.affiliations[l.right - 1] == s1.affiliations[l.right - 1];
      } else {
        assert JoinsPair(r.authors, r.affiliations, r.authorAffiliations[|s1.authorAffiliations| + (k - 1)],
                         names[1..][k - 1], affs[1..][k - 1]);
      }
    }
  }

  lemma CreatedRowsStep(s: Store, s1: Store, r: Store, names: seq<string>, affs: seq<string>, articleId: nat)
    requires names != [] && affs != []
    requires AuthorsLinked(s, s1, [names[0]], [affs[0]], articleId)
    requires AuthorsLinked(s1, r, names[1..], affs[1..], articleId)
    ensures var n := Min(|names|, |affs|);
            GrowsBy(s.authors, r.authors, names[..n]) && GrowsBy(s.affiliations, r.affiliations, affs[..n])
    ensures forall k :: 0 <= k < Min(|names|, |affs|) ==> affs[k] in r.affiliations
  {
    var n := Min(|names|, |affs|);
    assert Min(1, 1) == 1 && [names[0]][..1] == names[..1] && [affs[0]][..1] == affs[..1];
    assert Min(|names[1..]|, |affs[1..]|) == n - 1;
    assert names[..n] == names[..1] + names[1..][..n - 1];
    assert affs[..n] == affs[..1] + affs[1..][..n - 1];
    GrowsByConcat(s.authors, s1.authors, r.authors, names[..1], names[1..][..n - 1]);
    GrowsByConcat(s.affiliations, s1.affiliations, r.affiliations, affs[..1], affs[1..][..n - 1]);
    forall k | 0 <= k < n
      ensures affs[k] in r.affiliations
    {
      if k == 0 {
        assert [affs[0]][0] in s1.affiliations;
      } else {
        assert affs[1..][k - 1] in r.affiliations;
      }
    }
  }

  lemma AuthorLinksStep(s: Store, s1: Store, r: Store, names: seq<string>, affs: seq<string>, articleId: nat)
    requires names != [] && affs != []
    requires AuthorsLinked(s, s1, [names[0]], [affs[0]], articleId)
    requires AuthorsLinked(s1, r, names[1..], affs[1..], articleId)
    ensures forall k :: 0 <= k < Min(|names|, |affs|) ==>
              LinksAuthor(r.authors, r.authorArticles[|s.authorArticles| + k], names[k], articleId)
  {
    var n := Min(|names|, |affs|);
    var base := |s.authorArticles|;
    forall k | 0 <= k < n
      ensures LinksAuthor(r.authors, r.authorArticles[base + k], names[k], articleId)
    {
      if k == 0 {
        assert Min(1, 1) == 1 && [names[0]][0] == names[0];
        var l := s1.authorArticles[base];
        assert LinksAuthor(s1.authors, l, names[0], articleId);
        assert r.authorArticles[base] == l;
        assert r.authors[l.left - 1] == s1.authors[l.left - 1];
      } else {
        assert LinksAuthor(r.authors, r.authorArticles[|s1.authorArticles| + (k - 1)], names[1..][k - 1], articleId);
      }
    }
  }

  lemma AffiliationLinksStep(s: Store, s1: Store, r: Store, names: seq<string>, affs: seq<string>, articleId: nat)
    requires names != [] && affs != []
    requires AffiliationLinksFromPairs(s, s1, [names[0]], [affs[0]])
    requires AffiliationLinksFromPairs(s1, r, names[1..], affs[1..])
    requires s.authorAffiliations <= s1.authorAffiliations <= r.authorAffiliations
    requires s1.authors <= r.authors && s1.affiliations <= r.affiliations
    ensures AffiliationLinksFromPairs(s, r, names, affs)
  {
    var n := Min(|names|, |affs|);
    forall k | |s.authorAffiliations| <= k < |r.authorAffiliations|
      ensures && InRange(r.authorAffiliations[k].left, |r.authors|)
              && InRange(r.authorAffiliations[k].right, |r.affiliations|)
              && exists m :: 0 <= m < n && r.authors[r.authorAffiliations[k].left - 1] == names[m]
                                       && r.affiliations[r.authorAffiliations[k].right - 1] == affs[m]
    {
      var l := r.authorAffiliations[k];
      if k < |s1.authorAffiliations| {
        assert l == s1.authorAffiliations[k];
        var m :| 0 <= m < 1 && s1.authors[l.left - 1] == [names[0]][m] && s1.affiliations[l.right - 1] == [affs[0]][m];
        assert r.authors[l.left - 1] == s1.authors[l.left - 1];
        assert r.affiliations[l.right - 1] == s1.affiliations[l.right - 1];
        assert r.authors[l.left - 1] == names[0] && r.affiliations[l.right - 1] == affs[0];
      } else {
        var m :| 0 <= m < Min(|names| - 1, |affs| - 1) && r.authors[l.left - 1] == names[1..][m]
                                                     && r.affiliations[l.right - 1] == affs[1..][m];
        assert r.authors[l.left - 1] == names[m + 1] && r.affiliations[l.right - 1] == affs[m + 1];
      }
    }
  }

  /** The author names of a row: the Authors cell cut at each `;`, each piece
      stripped of surrounding white space. */
  function AuthorNames(row: Row): (r: seq<string>)
    requires IsDocRow(row) && HasLinkColumns(row)
    ensures |r| == |Split(row["Authors"], ';')| && forall k :: 0 <= k < |r| ==> Edgeless(r[k])
  {
    StripAll(Split(row["Authors"], ';'))
  }

  /** The affiliations of a row: the Author Affiliations cell cut at each `;`,
      each piece stripped of surrounding white space. */
  function AffiliationNames(row: Row): (r: seq<string>)
    requires IsDocRow(row) && HasLinkColumns(row)
    ensures |r| == |Split(row["Author Affiliations"], ';')| && forall k :: 0 <= k < |r| ==> Edgeless(r[k])
  {
    StripAll(Split(row["Author Affiliations"], ';'))
  }

  /** `handle_authors`: the disambiguated authors are paired with the
      affiliations and linked to the article whatever the outcome (and, when
      the schema refuses no author-affiliation link, each pair is linked); one
      "non-unique author names" record, listing exactly the names that occur
      more than once, is reported when there are any. */
  function HandleAuthors(schema: Schema, s: Store, row: Row, articleId: nat): (r: RowResult)
    requires IsDocRow(row) && HasLinkColumns(row)
    ensures AuthorsLinked(s, r.store, Disambiguate(AuthorNames(row)), AffiliationNames(row), articleId)
    ensures AcceptsEveryAffiliationLink(schema) ==>
              PairsJoined(s, r.store, Disambiguate(AuthorNames(row)), AffiliationNames(row))
    ensures r.errors == AuthorErrors(row["Document Title"], row["Publication_Year"], articleId, AuthorNames(row))
  {
    var store := PairAuthors(schema, s, Disambiguate(AuthorNames(row)), AffiliationNames(row), articleId);
    RowResult(store, AuthorErrors(row["Document Title"], row["Publication_Year"], articleId, AuthorNames(row)))
  }

  lemma HandleAuthorsKeepsValid(schema: Schema, s: Store, row: Row, articleId: nat)
    requires IsDocRow(row) && HasLinkColumns(row) && Valid(s) && InRange(articleId, |s.articles|)
    ensures Valid(HandleAuthors(schema, s, row, articleId).store)
  {
    PairAuthorsKeepsValid(schema, s, Disambiguate(AuthorNames(row)), AffiliationNames(row), articleId);
  }

  /** The error list of one row's author step: empty when no name repeats,
      otherwise one record naming exactly the repeated names, each once. */
  function AuthorErrors(title: string, pubYear: string, articleId: nat, names: seq<string>): (e: seq<ErrorRecord>)
    ensures e == [] <==> NoDuplicates(names)
    ensures e != [] ==>
      && |e| == 1
      && e[0].NonUniqueAuthors?
      && e[0] == NonUniqueAuthors(title, pubYear, articleId, e[0].duplicates)
      && (forall x :: x in e[0].duplicates <==> Count(names, x) > 1)
      && NoDuplicates(e[0].duplicates)
  {
    var dups := Dups(names);
    DupsEmptyIffNoDuplicates(names);
    if dups == [] then [] else [NonUniqueAuthors(title, pubYear, articleId, dups)]
  }
}
