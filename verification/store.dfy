/**
 * The table behind the `biotechCompanies` schema object the handlers use,
 * reduced to what the handlers observe: rows keyed by their serial `id`, the
 * next value of the serial sequence, and the four statements the handlers
 * issue. Whether a
 * statement succeeds is decided by the database; the model receives that
 * decision as a `DbOutcome`.
 */
module Store {
  import opened Wrappers
  import opened Json

  datatype Store = Store(rows: map<int, Record>, nextId: int)

  /** What the database makes of one statement; `description` is `String(error)`. */
  datatype DbOutcome = DbOk | DbError(description: string)

  /** A serial column starts at 1. */
  const FirstId := 1

  /**
   * Every row carries its own key as `id`, and every key was handed out by
   * the serial: at least `FirstId` and below the next value.
   */
  predicate Valid(s: Store) {
    && FirstId <= s.nextId
    && forall k :: k in s.rows ==> FirstId <= k < s.nextId && Get(s.rows[k], "id") == Some(JNum(k))
  }

  /** The row an `INSERT ... RETURNING` stores for `data`: its fields plus the next serial id. */
  function NewRow(s: Store, data: Record): Record {
    data["id" := JNum(s.nextId)]
  }

  /** `insert(...).values(data).returning()`: one row under a fresh id. */
  function Insert(s: Store, data: Record): (r: Store)
    ensures Valid(s) ==> Valid(r) && s.nextId !in s.rows
    ensures r.rows.Keys == s.rows.Keys + {s.nextId}
    ensures forall k :: k in s.rows && k != s.nextId ==> r.rows[k] == s.rows[k]
    ensures Get(r.rows[s.nextId], "id") == Some(JNum(s.nextId))
    ensures forall f :: f != "id" ==> Get(r.rows[s.nextId], f) == Get(data, f)
    ensures r.nextId == s.nextId + 1
  {
    Store(s.rows[s.nextId := NewRow(s, data)], s.nextId + 1)
  }

  /**
   * `update(...).set(changes).where(eq(id, key)).returning()`: the matching
   * row, if any, takes every field of `changes`; `None` is an empty result.
   */
  function UpdateWhere(s: Store, key: Option<int>, changes: Record): (r: (Store, Option<Record>))
    ensures r.1.Some? <==> key.Some? && key.value in s.rows
    ensures r.1.Some? ==> r.0.rows == s.rows[key.value := r.1.value]
    ensures r.1.None? ==> r.0 == s
    ensures r.1.Some? ==> forall f :: Get(r.1.value, f) == (if f in changes then Some(changes[f]) else Get(s.rows[key.value], f))
    ensures r.0.nextId == s.nextId
    ensures Valid(s) && "id" !in changes ==> Valid(r.0)
  {
    if key.Some? && key.value in s.rows then
      var row := s.rows[key.value] + changes;
      (Store(s.rows[key.value := row], s.nextId), Some(row))
    else
      (s, None)
  }

  /** `delete(...).where(eq(id, key))`: the matching row, if any, is gone. */
  function DeleteWhere(s: Store, key: int): (r: Store)
    ensures r.rows.Keys == s.rows.Keys - {key}
    ensures forall k :: k in r.rows ==> r.rows[k] == s.rows[k]
    ensures r.nextId == s.nextId
    ensures Valid(s) ==> Valid(r)
  {
    Store(s.rows - {key}, s.nextId)
  }

  /** The keys of `rows` in `[lo, hi)`, in ascending order. */
  function KeysBetween(rows: map<int, Record>, lo: int, hi: int): (ks: seq<int>)
    ensures forall k :: k in ks <==> k in rows && lo <= k < hi
    ensures forall i, j :: 0 <= i < j < |ks| ==> ks[i] < ks[j]
    decreases hi - lo
  {
    if lo >= hi then []
    else
      var rest := KeysBetween(rows, lo + 1, hi);
      assert forall i :: 0 <= i < |rest| ==> rest[i] in rest;
      if lo in rows then [lo] + rest else rest
  }

  /** A sequence without repetitions is as long as the set of its elements. */
  lemma {:induction false} DistinctLength(ks: seq<int>)
    requires forall i, j :: 0 <= i < j < |ks| ==> ks[i] < ks[j]
    ensures |set k | k in ks| == |ks|
  {
    if |ks| > 0 {
      var rest := ks[1..];
      DistinctLength(rest);
      assert (set k | k in ks) == {ks[0]} + (set k | k in rest);
      assert ks[0] !in rest;
    }
  }

  /** `select().from(...)`: the rows in ascending `id` order. */
  function SelectAll(s: Store): (rs: seq<Record>)
    ensures forall i :: 0 <= i < |rs| ==> rs[i] in s.rows.Values
  {
    var keys := KeysBetween(s.rows, FirstId, s.nextId);
    seq(|keys|, i requires 0 <= i < |keys| => s.rows[keys[i]])
  }

  /** On a valid table the select lists every row, and each one once. */
  lemma SelectAllComplete(s: Store)
    requires Valid(s)
    ensures |SelectAll(s)| == |s.rows|
    ensures forall k :: k in s.rows ==> s.rows[k] in SelectAll(s)
  {
    var keys := KeysBetween(s.rows, FirstId, s.nextId);
    var rs := SelectAll(s);
    assert (set k | k in keys) == s.rows.Keys;
    DistinctLength(keys);
    assert |s.rows.Keys| == |s.rows|;
    forall k | k in s.rows
      ensures s.rows[k] in rs
    {
      assert rs[PositionOf(keys, k)] == s.rows[k];
    }
  }

  /** The position of an element of `xs`. */
  function PositionOf<T(==)>(xs: seq<T>, x: T): (i: nat)
    requires x in xs
    ensures i < |xs| && xs[i] == x
  {
    if xs[0] == x then 0 else 1 + PositionOf(xs[1..], x)
  }
}
