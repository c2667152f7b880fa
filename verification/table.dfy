/**
 * A table as the normaliser sees it: a sequence of rows whose id is the
 * position plus one (SQLite's rowid for a table that is only appended to),
 * and the get-or-create lookup every `get_or_create_*` helper performs.
 */
module Table {
  import opened Options

  /** Some row of `t` has key `k`. */
  predicate Has<T, K(==)>(t: seq<T>, key: T -> K, k: K) {
    exists j :: 0 <= j < |t| && key(t[j]) == k
  }

  /** No two rows of `t` share a key. */
  predicate UniqueKeys<T, K(==)>(t: seq<T>, key: T -> K) {
    forall i, j :: 0 <= i < j < |t| ==> key(t[i]) != key(t[j])
  }

  /** `SELECT ... WHERE key = k` followed by `fetchone()`: the position of the
      first row with key `k`. */
  function Find<T, K(==)>(t: seq<T>, key: T -> K, k: K): (r: Option<nat>)
    ensures r.Some? <==> Has(t, key, k)
    ensures r.Some? ==> r.value < |t| && key(t[r.value]) == k
    ensures r.Some? ==> forall j :: 0 <= j < r.value ==> key(t[j]) != k
  {
    if t == [] then None
    else if key(t[0]) == k then Some(0)
    else
      match Find(t[1..], key, k)
      case None =>
        assert forall j :: 1 <= j < |t| ==> t[j] == t[1..][j - 1];
        None
      case Some(i) =>
        assert t[i + 1] == t[1..][i];
        assert forall j :: 1 <= j < i + 1 ==> t[j] == t[1..][j - 1];
        Some(i + 1)
  }

  /** `t` grew into `u` by appending at most `|xs|` rows, each one of `xs`. */
  predicate GrowsBy<T(==)>(t: seq<T>, u: seq<T>, xs: seq<T>) {
    t <= u && |u| <= |t| + |xs| && forall k :: |t| <= k < |u| ==> u[k] in xs
  }

  /** Growing by `xs` and then by `ys` is growing by `xs + ys`. */
  lemma GrowsByConcat<T>(t: seq<T>, u: seq<T>, v: seq<T>, xs: seq<T>, ys: seq<T>)
    requires GrowsBy(t, u, xs) && GrowsBy(u, v, ys)
    ensures GrowsBy(t, v, xs + ys)
  {
    forall k | |t| <= k < |v|
      ensures v[k] in xs + ys
    {
      if k < |u| {
        assert v[k] == u[k];
        assert u[k] in xs;
      } else {
        assert v[k] in ys;
      }
    }
  }

  /** A table after a get-or-create, and the id handed back. */
  datatype Created<T> = Created(table: seq<T>, id: nat)

  /** Look the row's key up; if absent, append the row and return its new id
      (`cursor.lastrowid`). */
  function GetOrCreate<T, K(==)>(t: seq<T>, key: T -> K, row: T): (r: Created<T>)
    ensures 1 <= r.id <= |r.table| && key(r.table[r.id - 1]) == key(row)
    ensures Has(t, key, key(row)) ==> r.table == t
    ensures Has(t, key, key(row)) ==> forall j :: 0 <= j < r.id - 1 ==> key(t[j]) != key(row)
    ensures !Has(t, key, key(row)) ==> r.table == t + [row] && r.id == |t| + 1
  {
    match Find(t, key, key(row))
    case Some(i) => Created(t, i + 1)
    case None => Created(t + [row], |t| + 1)
  }

  /** Get-or-create is idempotent: asking again for the same key returns the
      same id and leaves the table as the first call left it, so the two calls
      together add at most one row; a key already present adds none. */
  lemma GetOrCreateIdempotent<T, K>(t: seq<T>, key: T -> K, row: T, again: T)
    requires key(again) == key(row)
    ensures var first := GetOrCreate(t, key, row);
            var second := GetOrCreate(first.table, key, again);
            && second.id == first.id
            && second.table == first.table
            && |second.table| <= |t| + 1
            && (Has(t, key, key(row)) ==> second.table == t)
  {
    var first := GetOrCreate(t, key, row);
    var second := GetOrCreate(first.table, key, again);
    assert Has(first.table, key, key(row));
    if !Has(t, key, key(row)) {
      assert forall j :: 0 <= j < |t| ==> first.table[j] == t[j];
    }
  }

  /** Get-or-create never introduces a second row with the same key. */
  lemma GetOrCreateKeepsKeysUnique<T, K>(t: seq<T>, key: T -> K, row: T)
    ensures UniqueKeys(t, key) ==> UniqueKeys(GetOrCreate(t, key, row).table, key)
  {
    var r := GetOrCreate(t, key, row);
    if UniqueKeys(t, key) && !Has(t, key, key(row)) {
      forall i, j | 0 <= i < j < |r.table|
        ensures key(r.table[i]) != key(r.table[j])
      {
        if j == |t| {
          assert r.table[i] == t[i];
        } else {
          assert r.table[i] == t[i] && r.table[j] == t[j];
        }
      }
    }
  }

  /** In a table with unique keys the id returned is the only row with that key. */
  lemma GetOrCreateIdIsTheRow<T, K>(t: seq<T>, key: T -> K, row: T, j: nat)
    requires UniqueKeys(t, key)
    requires j < |GetOrCreate(t, key, row).table|
    requires key(GetOrCreate(t, key, row).table[j]) == key(row)
    ensures j == GetOrCreate(t, key, row).id - 1
  {
    GetOrCreateKeepsKeysUnique(t, key, row);
  }
}
