/** A table with identity-generated keys, as the repositories see it: rows
    keyed by a store-assigned id, and the id the next insert will receive.
    Ids are never reused. Query results list rows in ascending key order. */
module Table {
  import opened Wrappers

  datatype Table<R> = Table(rows: map<nat, R>, nextId: nat)

  function Empty<R>(): Table<R> {
    Table(map[], 0)
  }

  /** Every stored key was handed out before `nextId`. */
  predicate Consistent<R>(t: Table<R>) {
    forall k | k in t.rows :: k < t.nextId
  }

  /** `findById`. */
  function Find<R>(t: Table<R>, id: nat): (r: Option<R>)
    ensures r.Some? <==> id in t.rows
    ensures r.Some? ==> r.value == t.rows[id]
  {
    if id in t.rows then Some(t.rows[id]) else None
  }

  /** No two keys hold the same row: rows are told apart by their identity. */
  predicate Injective<R(==)>(rows: map<nat, R>) {
    forall j, k | j in rows && k in rows && j != k :: rows[j] != rows[k]
  }

  /** A list that holds each of its elements once. */
  predicate Distinct<R(==)>(s: seq<R>) {
    forall i, j | 0 <= i < j < |s| :: s[i] != s[j]
  }

  /** Rows whose key is below `n` and that satisfy `keep`, in key order;
      when rows are told apart by identity, each is listed once. */
  function Scan<R(==,!new)>(rows: map<nat, R>, keep: R -> bool, n: nat): (r: seq<R>)
    ensures forall x :: x in r <==> exists k :: 0 <= k < n && k in rows && rows[k] == x && keep(x)
    ensures Injective(rows) ==> Distinct(r)
    decreases n
  {
    if n == 0 then []
    else
      var prefix := Scan(rows, keep, n - 1);
      if n - 1 in rows && keep(rows[n - 1]) then
        assert Injective(rows) ==> rows[n - 1] !in prefix;
        prefix + [rows[n - 1]]
      else prefix
  }

  /** A derived query: every stored row satisfying `keep`, and nothing
      else, each row once. */
  function Select<R(==,!new)>(t: Table<R>, keep: R -> bool): (r: seq<R>)
    requires Consistent(t) && Injective(t.rows)
    ensures forall x :: x in r <==> x in t.rows.Values && keep(x)
    ensures Distinct(r)
  {
    var r := Scan(t.rows, keep, t.nextId);
    assert forall x | x in t.rows.Values :: exists k :: k in t.rows && t.rows[k] == x && k < t.nextId;
    r
  }
}
