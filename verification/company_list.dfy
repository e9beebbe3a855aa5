/**
 * The sortable company table: the `(sortField, sortDirection)` state that
 * the column headers drive, the comparator handed to `Array.prototype.sort`,
 * and a sort over that comparator.
 */
module CompanyList {
  import opened Wrappers
  import opened Json
  import opened Text

  datatype Direction = Asc | Desc

  /** The four column headers that can be clicked to sort. */
  datatype Column = CompanyName | Industry | City | ApplicationStatus

  /** The record field a header sorts by. */
  function FieldOf(c: Column): string {
    match c
    case CompanyName => "companyName"
    case Industry => "industry"
    case City => "city"
    case ApplicationStatus => "applicationStatus"
  }

  const SortableFields: set<string> := {"companyName", "industry", "city", "applicationStatus"}

  datatype SortState = SortState(field: string, direction: Direction)

  /** The state the table starts in: by company name, ascending. */
  const InitialSort := SortState("companyName", Asc)

  /**
   * `handleSort`: clicking the header of the current field flips the
   * direction; clicking another header sorts by it, ascending.
   */
  function HandleSort(s: SortState, c: Column): (r: SortState)
    ensures r.field == FieldOf(c)
    ensures s.field == FieldOf(c) ==> r.direction != s.direction
    ensures s.field != FieldOf(c) ==> r.direction == Asc
  {
    if FieldOf(c) == s.field then
      SortState(s.field, if s.direction == Asc then Desc else Asc)
    else
      SortState(FieldOf(c), Asc)
  }

  /** Clicking the current header twice gives back the state before. */
  lemma HandleSortTwiceCurrent(s: SortState, c: Column)
    requires s.field == FieldOf(c)
    ensures HandleSort(HandleSort(s, c), c) == s
  {
  }

  /** Clicking another header twice ends descending on that header, whatever came before. */
  lemma HandleSortTwiceOther(s: SortState, c: Column)
    requires s.field != FieldOf(c)
    ensures HandleSort(HandleSort(s, c), c) == SortState(FieldOf(c), Desc)
  {
  }

  /** The state after a sequence of header clicks from the initial state. */
  function AfterClicks(clicks: seq<Column>): SortState {
    if |clicks| == 0 then InitialSort
    else HandleSort(AfterClicks(clicks[..|clicks| - 1]), clicks[|clicks| - 1])
  }

  /** The table only ever sorts by one of the four sortable fields. */
  lemma {:induction false} SortFieldAlwaysSortable(clicks: seq<Column>)
    ensures AfterClicks(clicks).field in SortableFields
  {
    if |clicks| > 0 {
      var c := clicks[|clicks| - 1];
      assert AfterClicks(clicks).field == FieldOf(c);
    }
  }

  // ---------------------------------------------------------------------
  // The comparator
  // ---------------------------------------------------------------------

  /** Values `>` compares as numbers: `null` is 0, `false` 0, `true` 1. */
  function NumberValue(v: Json): Option<int> {
    match v
    case JNull => Some(0)
    case JBool(b) => Some(if b then 1 else 0)
    case JNum(n) => Some(n)
    case _ => None
  }

  /**
   * `a > b` for two defined values: strings compare by code point and values
   * that convert to numbers compare numerically. In the model every other
   * mix, a string against a non-string included, is false.
   */
  predicate Greater(a: Json, b: Json)
    ensures Greater(a, b) ==> (a.JStr? <==> b.JStr?)
    ensures NumberValue(a).Some? && NumberValue(b).Some? ==>
      (Greater(a, b) <==> NumberValue(a).value > NumberValue(b).value)
  {
    if a.JStr? && b.JStr? then LexLess(b.s, a.s)
    else NumberValue(a).Some? && NumberValue(b).Some? && NumberValue(a).value > NumberValue(b).value
  }

  /** `a[sortField]` for a record; `None` is `undefined`. */
  function SortKey(r: Record, field: string): Option<Json> {
    Get(r, field)
  }

  /** The comparator given to `sort`, on the two records' values of the sort field. */
  function Compare(a: Option<Json>, b: Option<Json>, d: Direction): (c: int)
    ensures c == -1 || c == 0 || c == 1
    ensures c == 0 <==> a.None? && b.None?
  {
    if a.None? && b.None? then 0
    else if a.None? then 1
    else if b.None? then -1
    else
      var comparison := if Greater(a.value, b.value) then 1 else -1;
      if d == Asc then comparison else -comparison
  }

  /** An undefined value sorts after every defined one, in both directions. */
  lemma UndefinedSortsLast(v: Json, d: Direction)
    ensures Compare(None, Some(v), d) > 0
    ensures Compare(Some(v), None, d) < 0
  {
  }

  /** For two defined values, descending is ascending negated. */
  lemma DescendingNegatesAscending(a: Json, b: Json)
    ensures Compare(Some(a), Some(b), Desc) == -Compare(Some(a), Some(b), Asc)
  {
  }

  /** Ascending gives 1 exactly when the first value is greater; equal values give -1. */
  lemma AscendingIsGreater(a: Json, b: Json)
    ensures Compare(Some(a), Some(b), Asc) == 1 <==> Greater(a, b)
    ensures Compare(Some(a), Some(b), Asc) == -1 <==> !Greater(a, b)
    ensures Compare(Some(a), Some(a), Asc) == -1
    ensures Compare(Some(a), Some(a), Desc) == 1
  {
    GreaterIrreflexive(a);
  }

  /** Two values are never each greater than the other. */
  lemma GreaterAsymmetric(a: Json, b: Json)
    ensures !(Greater(a, b) && Greater(b, a))
  {
    if a.JStr? && b.JStr? {
      LexLessAsymmetric(a.s, b.s);
    }
  }

  lemma GreaterIrreflexive(a: Json)
    ensures !Greater(a, a)
  {
    if a.JStr? {
      LexLessIrreflexive(a.s);
    }
  }

  /** For two different strings, swapping the arguments negates the comparison. */
  lemma CompareStringsAntisymmetric(x: string, y: string, d: Direction)
    requires x != y
    ensures Compare(Some(JStr(x)), Some(JStr(y)), d) == -Compare(Some(JStr(y)), Some(JStr(x)), d)
  {
    LexLessTotal(x, y);
    LexLessAsymmetric(x, y);
  }

  // ---------------------------------------------------------------------
  // Sorting a copy of the list
  // ---------------------------------------------------------------------

  /** No record with an undefined sort value comes before one with a defined value. */
  ghost predicate UndefinedLast(rs: seq<Record>, field: string) {
    forall i, j :: 0 <= i < j < |rs| && SortKey(rs[i], field).None? ==> SortKey(rs[j], field).None?
  }

  /** The order the comparator means when it is consistent: `a` may precede `b`. */
  predicate InOrder(a: Option<Json>, b: Option<Json>, d: Direction) {
    match (a, b)
    case (None, _) => b.None?
    case (Some(_), None) => true
    case (Some(x), Some(y)) => if d == Asc then !Greater(x, y) else !Greater(y, x)
  }

  ghost predicate SortedBy(rs: seq<Record>, field: string, d: Direction) {
    forall i, j :: 0 <= i < j < |rs| ==> InOrder(SortKey(rs[i], field), SortKey(rs[j], field), d)
  }

  /** Every defined sort value is a string, which makes the comparator a total order. */
  ghost predicate StringKeys(rs: seq<Record>, field: string) {
    forall i :: 0 <= i < |rs| ==> SortKey(rs[i], field).None? || SortKey(rs[i], field).value.JStr?
  }

  lemma InOrderTransitive(a: Option<Json>, b: Option<Json>, c: Option<Json>, d: Direction)
    requires a.None? || a.value.JStr?
    requires b.None? || b.value.JStr?
    requires c.None? || c.value.JStr?
    requires InOrder(a, b, d) && InOrder(b, c, d)
    ensures InOrder(a, c, d)
  {
    if a.Some? && b.Some? && c.Some? {
      var x, y, z := a.value.s, b.value.s, c.value.s;
      LexLessTotal(x, y);
      LexLessTotal(y, z);
      LexLessTotal(x, z);
      if d == Asc {
        if LexLess(z, x) {
          if x != y && y != z {
            LexLessTransitive(x, y, z);
            LexLessAsymmetric(x, z);
          }
        }
      } else {
        if LexLess(x, z) {
          if x != y && y != z {
            LexLessTransitive(z, y, x);
            LexLessAsymmetric(x, z);
          }
        }
      }
    }
  }

  /**
   * One insertion step of the sort: `x` goes before the first element that
   * the comparator puts after it, so `x` stays behind everything it ties
   * with, as in a stable sort.
   */
  function Insert(x: Record, rs: seq<Record>, field: string, d: Direction): (out: seq<Record>)
    ensures multiset(out) == multiset(rs) + multiset{x}
    ensures |out| == |rs| + 1
    ensures UndefinedLast(rs, field) ==> UndefinedLast(out, field)
    ensures StringKeys(rs, field) && StringKeys([x], field) ==> StringKeys(out, field)
    ensures StringKeys(rs + [x], field) && SortedBy(rs, field, d) ==> SortedBy(out, field, d)
  {
    if |rs| == 0 then [x]
    else if Compare(SortKey(rs[0], field), SortKey(x, field), d) > 0 then
      var out := [x] + rs;
      InsertHereSorted(x, rs, field, d);
      StringKeysCons(x, rs, field);
      out
    else
      var tail := Insert(x, rs[1..], field, d);
      var out := [rs[0]] + tail;
      assert rs == [rs[0]] + rs[1..];
      InsertLaterSorted(x, rs, tail, field, d);
      StringKeysCons(rs[0], rs[1..], field);
      StringKeysCons(rs[0], tail, field);
      out
  }

  /** A list has string keys exactly when its head and its tail do. */
  lemma StringKeysCons(r: Record, rs: seq<Record>, field: string)
    ensures StringKeys([r] + rs, field) <==> StringKeys([r], field) && StringKeys(rs, field)
  {
    var out := [r] + rs;
    assert out[0] == r;
    assert forall i :: 0 <= i < |rs| ==> out[i + 1] == rs[i];
  }

  lemma InsertHereSorted(x: Record, rs: seq<Record>, field: string, d: Direction)
    requires |rs| > 0
    requires Compare(SortKey(rs[0], field), SortKey(x, field), d) > 0
    ensures UndefinedLast(rs, field) ==> UndefinedLast([x] + rs, field)
    ensures StringKeys(rs + [x], field) && SortedBy(rs, field, d) ==> SortedBy([x] + rs, field, d)
  {
    var out := [x] + rs;
    var kx := SortKey(x, field);
    // Nothing is put after an undefined value, so `x` has a defined one.
    assert kx.Some?;
    if UndefinedLast(rs, field) {
      assert forall j :: 1 <= j < |out| ==> out[j] == rs[j - 1];
    }
    if StringKeys(rs + [x], field) && SortedBy(rs, field, d) {
      assert forall i :: 0 <= i < |rs| ==> (rs + [x])[i] == rs[i];
      assert (rs + [x])[|rs|] == x;
      var k0 := SortKey(rs[0], field);
      assert InOrder(kx, k0, d) by {
        if k0.Some? {
          LexLessTotal(kx.value.s, k0.value.s);
          LexLessAsymmetric(kx.value.s, k0.value.s);
        }
      }
      forall j | 1 <= j < |out|
        ensures InOrder(kx, SortKey(out[j], field), d)
      {
        if j > 1 {
          InOrderTransitive(kx, k0, SortKey(rs[j - 1], field), d);
        }
      }
    }
  }

  lemma InsertLaterSorted(x: Record, rs: seq<Record>, tail: seq<Record>, field: string, d: Direction)
    requires |rs| > 0
    requires Compare(SortKey(rs[0], field), SortKey(x, field), d) <= 0
    requires multiset(tail) == multiset(rs[1..]) + multiset{x}
    requires UndefinedLast(rs[1..], field) ==> UndefinedLast(tail, field)
    requires StringKeys(rs[1..] + [x], field) && SortedBy(rs[1..], field, d) ==> SortedBy(tail, field, d)
    ensures UndefinedLast(rs, field) ==> UndefinedLast([rs[0]] + tail, field)
    ensures StringKeys(rs + [x], field) && SortedBy(rs, field, d) ==> SortedBy([rs[0]] + tail, field, d)
  {
    var out := [rs[0]] + tail;
    var k0 := SortKey(rs[0], field);
    var kx := SortKey(x, field);
    // `x` went past rs[0]: if rs[0] is undefined, so is `x`.
    assert k0.None? ==> kx.None?;
    forall y | y in tail
      ensures y in rs[1..] || y == x
    {
      assert y in multiset(tail);
    }
    if UndefinedLast(rs, field) {
      assert UndefinedLast(rs[1..], field);
      if k0.None? {
        forall j | 0 <= j < |tail|
          ensures SortKey(tail[j], field).None?
        {
          var y := tail[j];
          assert y in tail;
          if y != x {
            var m :| 0 <= m < |rs[1..]| && rs[1..][m] == y;
            assert rs[m + 1] == y;
          }
        }
      }
      assert forall j :: 1 <= j < |out| ==> out[j] == tail[j - 1];
    }
    if StringKeys(rs + [x], field) && SortedBy(rs, field, d) {
      assert forall i :: 0 <= i < |rs| ==> (rs + [x])[i] == rs[i];
      assert (rs + [x])[|rs|] == x;
      assert forall i :: 0 <= i < |rs| - 1 ==> (rs[1..] + [x])[i] == rs[i + 1];
      assert (rs[1..] + [x])[|rs| - 1] == x;
      assert StringKeys(rs[1..] + [x], field);
      assert SortedBy(rs[1..], field, d);
      assert InOrder(k0, kx, d) by {
        if k0.Some? && kx.Some? {
          LexLessTotal(kx.value.s, k0.value.s);
          LexLessAsymmetric(kx.value.s, k0.value.s);
        }
      }
      forall j | 1 <= j < |out|
        ensures InOrder(k0, SortKey(out[j], field), d)
      {
        var y := tail[j - 1];
        assert y in tail;
        if y != x {
          var m :| 0 <= m < |rs[1..]| && rs[1..][m] == y;
          assert rs[m + 1] == y;
        }
      }
    }
  }

  /** The records whose sort value is undefined, in list order. */
  function Undefined(rs: seq<Record>, field: string): (us: seq<Record>)
    ensures forall i :: 0 <= i < |us| ==> SortKey(us[i], field).None?
    ensures |us| <= |rs|
  {
    if |rs| == 0 then []
    else
      var rest := Undefined(rs[1..], field);
      if SortKey(rs[0], field).None? then [rs[0]] + rest else rest
  }

  lemma {:induction false} UndefinedAppend(a: seq<Record>, b: seq<Record>, field: string)
    ensures Undefined(a + b, field) == Undefined(a, field) + Undefined(b, field)
  {
    if |a| > 0 {
      assert (a + b)[0] == a[0];
      assert (a + b)[1..] == a[1..] + b;
      UndefinedAppend(a[1..], b, field);
    } else {
      assert a + b == b;
    }
  }

  /**
   * The comparator ties only two undefined values, and a stable sort keeps
   * tied records in their input order: the insertion step keeps the
   * undefined records in order and adds `x` behind them when it is one.
   */
  lemma {:induction false} InsertKeepsUndefinedOrder(x: Record, rs: seq<Record>, field: string, d: Direction)
    ensures Undefined(Insert(x, rs, field, d), field) == Undefined(rs, field) + Undefined([x], field)
  {
    var out := Insert(x, rs, field, d);
    if |rs| == 0 {
      assert out == [x];
    } else if Compare(SortKey(rs[0], field), SortKey(x, field), d) > 0 {
      assert out == [x] + rs;
      assert SortKey(x, field).Some?;
      assert Undefined([x], field) == [];
      UndefinedAppend([x], rs, field);
    } else {
      var tail := Insert(x, rs[1..], field, d);
      var head := Undefined([rs[0]], field);
      assert out == [rs[0]] + tail;
      assert rs == [rs[0]] + rs[1..];
      InsertKeepsUndefinedOrder(x, rs[1..], field, d);
      UndefinedAppend([rs[0]], tail, field);
      UndefinedAppend([rs[0]], rs[1..], field);
      assert Undefined(out, field) == head + (Undefined(rs[1..], field) + Undefined([x], field));
      assert Undefined(rs, field) == head + Undefined(rs[1..], field);
    }
  }

  /**
   * `[...companies].sort(comparator)`: the sorted copy. The input is a value,
   * so it is unchanged; the output holds the same records, every record with
   * an undefined sort value comes last and those keep their input order, and
   * when the defined values are all strings the output is in the
   * comparator's order.
   */
  method SortCompanies(companies: seq<Record>, s: SortState) returns (sorted: seq<Record>)
    ensures multiset(sorted) == multiset(companies)
    ensures UndefinedLast(sorted, s.field)
    ensures StringKeys(companies, s.field) ==> SortedBy(sorted, s.field, s.direction)
    ensures Undefined(sorted, s.field) == Undefined(companies, s.field)
  {
    sorted := [];
    var i := 0;
    while i < |companies|
      invariant 0 <= i <= |companies|
      invariant multiset(sorted) == multiset(companies[..i])
      invariant UndefinedLast(sorted, s.field)
      invariant Undefined(sorted, s.field) == Undefined(companies[..i], s.field)
      invariant StringKeys(companies, s.field) ==> StringKeys(sorted, s.field) && SortedBy(sorted, s.field, s.direction)
    {
      if StringKeys(companies, s.field) {
        assert StringKeys([companies[i]], s.field);
        forall y | y in sorted
          ensures y in companies
        {
          assert y in multiset(companies[..i]);
        }
        assert StringKeys(sorted + [companies[i]], s.field);
      }
      InsertKeepsUndefinedOrder(companies[i], sorted, s.field, s.direction);
      sorted := Insert(companies[i], sorted, s.field, s.direction);
      assert companies[..i + 1] == companies[..i] + [companies[i]];
      UndefinedAppend(companies[..i], [companies[i]], s.field);
      i := i + 1;
    }
    assert companies[..i] == companies;
  }
}
