/**
  Sorting the Table by a column. A header click chooses a direction (the same
  column clicked while ascending turns descending; every other click sorts
  ascending) and sorts a copy of the current rows with a comparator: numeric
  difference when both values are numbers, otherwise `localeCompare` of the two
  values' string forms, with the operands swapped for a descending sort.

  `Array.prototype.sort` is stable, so the sort is modelled as a stable
  insertion sort. When the column holds only numbers, or no number at all, the
  comparator is a total preorder and a stable sort has exactly one possible
  result; this is the case the properties below are proved for.
*/
module TableSort {
  import opened Js
  import opened TableData

  datatype Direction = Asc | Desc

  // ---------------------------------------------------------------------
  // Direction toggle
  // ---------------------------------------------------------------------

  /** The sort indicator: the column last sorted by ("" before any sort) and its direction. */
  datatype SortIndicator = SortIndicator(column: string, direction: Direction)

  /** `sortColumn === columnKey && sortDirection === "asc" ? "desc" : "asc"` */
  function NewDirection(s: SortIndicator, columnKey: string): (d: Direction)
    ensures d == Desc <==> s.column == columnKey && s.direction == Asc
  {
    if s.column == columnKey && s.direction == Asc then Desc else Asc
  }

  /** The indicator after a click on `columnKey`. */
  function Click(s: SortIndicator, columnKey: string): (t: SortIndicator)
    ensures t.column == columnKey
  {
    SortIndicator(columnKey, NewDirection(s, columnKey))
  }

  /** `n` clicks in a row on the same column. */
  function ClickTimes(s: SortIndicator, columnKey: string, n: nat): SortIndicator
    decreases n
  {
    if n == 0 then s else Click(ClickTimes(s, columnKey, n - 1), columnKey)
  }

  function Flip(d: Direction): Direction {
    if d == Asc then Desc else Asc
  }

  /** Repeated clicks on one column alternate between ascending and descending,
      starting from the direction of the first click, and the column stays sorted by. */
  lemma {:induction false} ClicksAlternate(s: SortIndicator, columnKey: string, n: nat)
    requires n >= 1
    ensures ClickTimes(s, columnKey, n).column == columnKey
    ensures ClickTimes(s, columnKey, n).direction ==
      if n % 2 == 1 then NewDirection(s, columnKey) else Flip(NewDirection(s, columnKey))
    decreases n
  {
    if n > 1 {
      ClicksAlternate(s, columnKey, n - 1);
    }
  }

  /** A click on another column always starts ascending. */
  lemma OtherColumnStartsAscending(s: SortIndicator, columnKey: string)
    requires s.column != columnKey
    ensures Click(s, columnKey).direction == Asc
  {
  }

  // ---------------------------------------------------------------------
  // Comparator
  // ---------------------------------------------------------------------

  /** The comparator's result for rows `a` and `b`: negative puts `a` first. */
  function Compare(columnKey: string, dir: Direction, a: Row, b: Row): (r: int)
    ensures Get(a, columnKey) == Get(b, columnKey) ==> r == 0
  {
    var aVal := Get(a, columnKey);
    var bVal := Get(b, columnKey);
    CompareStringsZeroIff(ToJsString(aVal), ToJsString(bVal));
    CompareStringsZeroIff(ToJsString(bVal), ToJsString(aVal));
    if aVal.Num? && bVal.Num? then
      (if dir == Asc then aVal.n - bVal.n else bVal.n - aVal.n)
    else if dir == Asc then CompareStrings(ToJsString(aVal), ToJsString(bVal))
    else CompareStrings(ToJsString(bVal), ToJsString(aVal))
  }

  /** Two numbers compare by their difference: ascending puts the smaller first, descending the larger. */
  lemma CompareNumbers(columnKey: string, dir: Direction, a: Row, b: Row)
    requires IsNum(columnKey, a) && IsNum(columnKey, b)
    ensures Compare(columnKey, dir, a, b) < 0 <==>
      if dir == Asc then Get(a, columnKey).n < Get(b, columnKey).n else Get(b, columnKey).n < Get(a, columnKey).n
    ensures Compare(columnKey, dir, a, b) == 0 <==> Get(a, columnKey).n == Get(b, columnKey).n
  {
  }

  /** The value in the column is a number. */
  predicate IsNum(columnKey: string, r: Row) {
    Get(r, columnKey).Num?
  }

  /** The column holds numbers in every row or in none. */
  ghost predicate Homogeneous(columnKey: string, rows: seq<Row>) {
    (forall r | r in rows :: IsNum(columnKey, r)) || (forall r | r in rows :: !IsNum(columnKey, r))
  }

  /** A descending sort compares with the operands swapped. */
  lemma DescSwapsOperands(columnKey: string, a: Row, b: Row)
    ensures Compare(columnKey, Desc, a, b) == Compare(columnKey, Asc, b, a)
  {
  }

  /** Swapping the operands negates the comparison, for every pair of rows. */
  lemma CompareAntisymmetric(columnKey: string, dir: Direction, a: Row, b: Row)
    ensures Compare(columnKey, dir, a, b) == -Compare(columnKey, dir, b, a)
  {
    var aVal, bVal := Get(a, columnKey), Get(b, columnKey);
    if !(aVal.Num? && bVal.Num?) {
      CompareStringsAntisymmetric(ToJsString(aVal), ToJsString(bVal));
    }
  }

  /** On three rows of the same kind the comparator is transitive. */
  lemma CompareTransitive(columnKey: string, dir: Direction, a: Row, b: Row, c: Row)
    requires IsNum(columnKey, a) == IsNum(columnKey, b) == IsNum(columnKey, c)
    requires Compare(columnKey, dir, a, b) <= 0 && Compare(columnKey, dir, b, c) <= 0
    ensures Compare(columnKey, dir, a, c) <= 0
  {
    if !IsNum(columnKey, a) {
      var sa, sb, sc := ToJsString(Get(a, columnKey)), ToJsString(Get(b, columnKey)), ToJsString(Get(c, columnKey));
      if dir == Asc {
        CompareStringsTransitive(sa, sb, sc);
      } else {
        CompareStringsTransitive(sc, sb, sa);
      }
    }
  }

  /** With a number and strings in one column the comparator is not transitive: by their
      string forms 10 comes no later than "5" and "5" no later than 9, yet as numbers 10
      comes after 9. */
  lemma MixedColumnNotTransitive()
    ensures var a, b, c := [Field("v", Num(10))], [Field("v", Str("5"))], [Field("v", Num(9))];
      Compare("v", Asc, a, b) <= 0 && Compare("v", Asc, b, c) <= 0 && Compare("v", Asc, a, c) > 0
  {
    assert IntToString(10) == "10" && IntToString(9) == "9";
  }

  // ---------------------------------------------------------------------
  // Stable sort
  // ---------------------------------------------------------------------

  /** Every earlier row compares at most equal to every later row. */
  ghost predicate SortedBy(columnKey: string, dir: Direction, s: seq<Row>) {
    forall i, j :: 0 <= i < j < |s| ==> Compare(columnKey, dir, s[i], s[j]) <= 0
  }

  /** Inserts `x` after every row that does not compare greater than it, so rows that
      compare equal keep their order. */
  function Insert(columnKey: string, dir: Direction, s: seq<Row>, x: Row): (r: seq<Row>)
    ensures |r| == |s| + 1
    ensures multiset(r) == multiset(s) + multiset{x}
    decreases |s|
  {
    if s == [] then [x]
    else if Compare(columnKey, dir, x, s[0]) < 0 then [x] + s
    else
      assert s == [s[0]] + s[1..];
      [s[0]] + Insert(columnKey, dir, s[1..], x)
  }

  /** `[...rows].sort(comparator)` */
  function SortRows(columnKey: string, dir: Direction, rows: seq<Row>): (r: seq<Row>)
    ensures |r| == |rows|
    ensures multiset(r) == multiset(rows)
    decreases |rows|
  {
    if rows == [] then []
    else
      var n := |rows| - 1;
      assert rows == rows[..n] + [rows[n]];
      Insert(columnKey, dir, SortRows(columnKey, dir, rows[..n]), rows[n])
  }

  /** A row that compares at most equal to every row of a sorted sequence can go in front of it. */
  lemma ConsSorted(columnKey: string, dir: Direction, a: Row, t: seq<Row>)
    requires SortedBy(columnKey, dir, t)
    requires forall e | e in t :: Compare(columnKey, dir, a, e) <= 0
    ensures SortedBy(columnKey, dir, [a] + t)
  {
    var r := [a] + t;
    forall i, j | 0 <= i < j < |r| ensures Compare(columnKey, dir, r[i], r[j]) <= 0 {
      if i == 0 {
        assert r[j] == t[j - 1];
        assert r[j] in t;
      } else {
        assert r[i] == t[i - 1] && r[j] == t[j - 1];
      }
    }
  }

  /** The head of a sorted sequence stays below everything inserted after it. */
  lemma HeadBelowInsert(columnKey: string, dir: Direction, s: seq<Row>, x: Row)
    requires s != [] && SortedBy(columnKey, dir, s)
    requires Compare(columnKey, dir, s[0], x) <= 0
    ensures forall e | e in Insert(columnKey, dir, s[1..], x) :: Compare(columnKey, dir, s[0], e) <= 0
  {
    var tail := Insert(columnKey, dir, s[1..], x);
    forall e | e in tail ensures Compare(columnKey, dir, s[0], e) <= 0 {
      assert e in multiset(tail);
      if e != x {
        assert e in multiset(s[1..]);
        var k :| 0 <= k < |s[1..]| && s[1..][k] == e;
        assert s[k + 1] == e;
      }
    }
  }

  /** A row less than the head of a sorted sequence is less than all of it. */
  lemma BelowHead(columnKey: string, dir: Direction, s: seq<Row>, x: Row)
    requires s != [] && SortedBy(columnKey, dir, s)
    requires forall r | r in s :: IsNum(columnKey, r) == IsNum(columnKey, x)
    requires Compare(columnKey, dir, x, s[0]) < 0
    ensures forall e | e in s :: Compare(columnKey, dir, x, e) <= 0
  {
    forall e | e in s ensures Compare(columnKey, dir, x, e) <= 0 {
      var k :| 0 <= k < |s| && s[k] == e;
      if k > 0 {
        assert s[0] in s;
        CompareTransitive(columnKey, dir, x, s[0], e);
      }
    }
  }

  lemma {:induction false} InsertSorted(columnKey: string, dir: Direction, s: seq<Row>, x: Row)
    requires SortedBy(columnKey, dir, s)
    requires forall r | r in s :: IsNum(columnKey, r) == IsNum(columnKey, x)
    ensures SortedBy(columnKey, dir, Insert(columnKey, dir, s, x))
    decreases |s|
  {
    if s == [] {
    } else if Compare(columnKey, dir, x, s[0]) < 0 {
      BelowHead(columnKey, dir, s, x);
      ConsSorted(columnKey, dir, x, s);
    } else {
      assert SortedBy(columnKey, dir, s[1..]);
      InsertSorted(columnKey, dir, s[1..], x);
      CompareAntisymmetric(columnKey, dir, x, s[0]);
      HeadBelowInsert(columnKey, dir, s, x);
      ConsSorted(columnKey, dir, s[0], Insert(columnKey, dir, s[1..], x));
    }
  }

  /** On a column of one kind, the sort returns a permutation of its input in comparator order. */
  lemma {:induction false} SortRowsSorted(columnKey: string, dir: Direction, rows: seq<Row>)
    requires Homogeneous(columnKey, rows)
    ensures SortedBy(columnKey, dir, SortRows(columnKey, dir, rows))
    ensures multiset(SortRows(columnKey, dir, rows)) == multiset(rows)
    decreases |rows|
  {
    if rows != [] {
      var n := |rows| - 1;
      var front := SortRows(columnKey, dir, rows[..n]);
      assert Homogeneous(columnKey, rows[..n]) by {
        forall r | r in rows[..n] ensures r in rows { }
      }
      SortRowsSorted(columnKey, dir, rows[..n]);
      forall r | r in front ensures IsNum(columnKey, r) == IsNum(columnKey, rows[n]) {
        assert r in multiset(rows[..n]);
        assert r in rows[..n];
      }
      InsertSorted(columnKey, dir, front, rows[n]);
    }
  }

  /** Inserting a row that compares at least equal to every sorted row appends it. */
  lemma {:induction false} InsertAtEnd(columnKey: string, dir: Direction, s: seq<Row>, x: Row)
    requires forall i :: 0 <= i < |s| ==> Compare(columnKey, dir, x, s[i]) >= 0
    ensures Insert(columnKey, dir, s, x) == s + [x]
    decreases |s|
  {
    if s != [] {
      InsertAtEnd(columnKey, dir, s[1..], x);
    }
  }

  /** All but the last of a sorted sequence are sorted, and the last compares at least
      equal to each of them. */
  lemma SortedSplit(columnKey: string, dir: Direction, front: seq<Row>, last: Row)
    requires SortedBy(columnKey, dir, front + [last])
    ensures SortedBy(columnKey, dir, front)
    ensures forall i :: 0 <= i < |front| ==> Compare(columnKey, dir, last, front[i]) >= 0
  {
    var rows := front + [last];
    forall i, j | 0 <= i < j < |front| ensures Compare(columnKey, dir, front[i], front[j]) <= 0 {
      assert front[i] == rows[i] && front[j] == rows[j];
    }
    forall i | 0 <= i < |front| ensures Compare(columnKey, dir, last, front[i]) >= 0 {
      assert front[i] == rows[i] && last == rows[|front|];
      CompareAntisymmetric(columnKey, dir, last, front[i]);
    }
  }

  /** Sorting rows that are already in order changes nothing: re-sorting the sorted
      table by the same column and direction gives the same rows. */
  lemma {:induction false} SortedUnchanged(columnKey: string, dir: Direction, rows: seq<Row>)
    requires SortedBy(columnKey, dir, rows)
    ensures SortRows(columnKey, dir, rows) == rows
    decreases |rows|
  {
    if rows != [] {
      var n := |rows| - 1;
      var front, last := rows[..n], rows[n];
      assert front + [last] == rows;
      SortedSplit(columnKey, dir, front, last);
      SortedUnchanged(columnKey, dir, front);
      InsertAtEnd(columnKey, dir, front, last);
    }
  }

  // ---------------------------------------------------------------------
  // Stability
  // ---------------------------------------------------------------------

  /** `s.filter(keep)` */
  function Select(s: seq<Row>, keep: Row -> bool): seq<Row>
    decreases |s|
  {
    if s == [] then [] else (if keep(s[0]) then [s[0]] else []) + Select(s[1..], keep)
  }

  lemma {:induction false} SelectAppend(a: seq<Row>, b: seq<Row>, keep: Row -> bool)
    ensures Select(a + b, keep) == Select(a, keep) + Select(b, keep)
    decreases |a|
  {
    if a == [] {
      assert a + b == b;
    } else {
      assert (a + b)[0] == a[0] && (a + b)[1..] == a[1..] + b;
      SelectAppend(a[1..], b, keep);
    }
  }

  /** The rows of `s` that compare equal to `p`, in their order in `s`. */
  function Ties(columnKey: string, dir: Direction, s: seq<Row>, p: Row): seq<Row> {
    Select(s, r => Compare(columnKey, dir, r, p) == 0)
  }

  /** On rows of one kind, two rows that each compare equal to `p` compare equal to each other. */
  lemma TiedRowsTie(columnKey: string, dir: Direction, x: Row, y: Row, p: Row)
    requires IsNum(columnKey, x) == IsNum(columnKey, p) == IsNum(columnKey, y)
    requires Compare(columnKey, dir, x, p) == 0 && Compare(columnKey, dir, y, p) == 0
    ensures Compare(columnKey, dir, x, y) == 0
  {
    CompareAntisymmetric(columnKey, dir, x, p);
    CompareAntisymmetric(columnKey, dir, y, p);
    CompareTransitive(columnKey, dir, x, p, y);
    CompareTransitive(columnKey, dir, y, p, x);
    CompareAntisymmetric(columnKey, dir, x, y);
  }

  /** A row tied with `p` that is less than the head of a sorted sequence leaves no row of
      that sequence tied with `p`. */
  lemma NoTiesAfterSmaller(columnKey: string, dir: Direction, s: seq<Row>, x: Row, p: Row)
    requires s != [] && SortedBy(columnKey, dir, s)
    requires forall r | r in s :: IsNum(columnKey, r) == IsNum(columnKey, p)
    requires IsNum(columnKey, x) == IsNum(columnKey, p)
    requires Compare(columnKey, dir, x, s[0]) < 0 && Compare(columnKey, dir, x, p) == 0
    ensures forall i :: 0 <= i < |s| ==> Compare(columnKey, dir, s[i], p) != 0
  {
    forall i | 0 <= i < |s| ensures Compare(columnKey, dir, s[i], p) != 0 {
      var e := s[i];
      assert e in s && s[0] in s;
      if Compare(columnKey, dir, e, p) == 0 {
        TiedRowsTie(columnKey, dir, e, x, p);
        if i > 0 {
          assert Compare(columnKey, dir, s[0], e) <= 0;
        }
        CompareTransitive(columnKey, dir, s[0], e, x);
        CompareAntisymmetric(columnKey, dir, s[0], x);
        assert false;
      }
    }
  }

  lemma {:induction false} NoTies(columnKey: string, dir: Direction, s: seq<Row>, p: Row)
    requires forall i :: 0 <= i < |s| ==> Compare(columnKey, dir, s[i], p) != 0
    ensures Ties(columnKey, dir, s, p) == []
    decreases |s|
  {
    if s != [] {
      assert forall i :: 0 <= i < |s[1..]| ==> s[1..][i] == s[i + 1];
      NoTies(columnKey, dir, s[1..], p);
    }
  }

  lemma Associative(a: seq<Row>, b: seq<Row>, c: seq<Row>)
    ensures a + (b + c) == (a + b) + c
  {
  }

  /** Putting a row in front of a sequence whose selection gains `extra` at the end keeps that. */
  lemma ConsKeepsSelection(h: Row, t: seq<Row>, u: seq<Row>, extra: seq<Row>, keep: Row -> bool)
    requires Select(t, keep) == Select(u, keep) + extra
    ensures Select([h] + t, keep) == Select([h] + u, keep) + extra
  {
    SelectAppend([h], t, keep);
    SelectAppend([h], u, keep);
    Associative(Select([h], keep), Select(u, keep), extra);
  }

  /** A row less than the head of sorted rows goes in front of them without overtaking a tie. */
  lemma TiesInFront(columnKey: string, dir: Direction, s: seq<Row>, x: Row, p: Row)
    requires s != [] && SortedBy(columnKey, dir, s)
    requires forall r | r in s :: IsNum(columnKey, r) == IsNum(columnKey, p)
    requires IsNum(columnKey, x) == IsNum(columnKey, p)
    requires Compare(columnKey, dir, x, s[0]) < 0
    ensures Ties(columnKey, dir, [x] + s, p) == Ties(columnKey, dir, s, p) + Ties(columnKey, dir, [x], p)
  {
    var keep := r => Compare(columnKey, dir, r, p) == 0;
    if keep(x) {
      NoTiesAfterSmaller(columnKey, dir, s, x, p);
      NoTies(columnKey, dir, s, p);
    }
    SelectAppend([x], s, keep);
  }

  /** Inserting a row into sorted rows puts it after every row it ties with. */
  lemma {:induction false} InsertKeepsTies(columnKey: string, dir: Direction, s: seq<Row>, x: Row, p: Row)
    requires SortedBy(columnKey, dir, s)
    requires forall r | r in s :: IsNum(columnKey, r) == IsNum(columnKey, p)
    requires IsNum(columnKey, x) == IsNum(columnKey, p)
    ensures Ties(columnKey, dir, Insert(columnKey, dir, s, x), p) ==
            Ties(columnKey, dir, s, p) + Ties(columnKey, dir, [x], p)
    decreases |s|
  {
    if s == [] {
    } else if Compare(columnKey, dir, x, s[0]) < 0 {
      TiesInFront(columnKey, dir, s, x, p);
    } else {
      var tail := Insert(columnKey, dir, s[1..], x);
      forall r | r in s[1..] ensures IsNum(columnKey, r) == IsNum(columnKey, p) {
        assert r in s;
      }
      InsertKeepsTies(columnKey, dir, s[1..], x, p);
      ConsKeepsSelection(s[0], tail, s[1..], Ties(columnKey, dir, [x], p), r => Compare(columnKey, dir, r, p) == 0);
      assert [s[0]] + s[1..] == s;
    }
  }

  /** The sort is stable: on a column of one kind, the rows that compare equal to any row `p`
      come out in the order they went in. */
  lemma {:induction false} SortStable(columnKey: string, dir: Direction, rows: seq<Row>, p: Row)
    requires forall r | r in rows :: IsNum(columnKey, r) == IsNum(columnKey, p)
    ensures Ties(columnKey, dir, SortRows(columnKey, dir, rows), p) == Ties(columnKey, dir, rows, p)
    decreases |rows|
  {
    if rows != [] {
      var n := |rows| - 1;
      var front, last := rows[..n], rows[n];
      forall r | r in front ensures IsNum(columnKey, r) == IsNum(columnKey, p) {
        assert r in rows;
      }
      SortStable(columnKey, dir, front, p);
      assert Homogeneous(columnKey, front);
      SortRowsSorted(columnKey, dir, front);
      var sorted := SortRows(columnKey, dir, front);
      forall r | r in sorted ensures IsNum(columnKey, r) == IsNum(columnKey, p) {
        assert r in multiset(front);
      }
      assert last in rows;
      InsertKeepsTies(columnKey, dir, sorted, last, p);
      assert front + [last] == rows;
      SelectAppend(front, [last], r => Compare(columnKey, dir, r, p) == 0);
    }
  }

  /** Sorting twice by the same column and direction is the same as sorting once. */
  lemma SortIdempotent(columnKey: string, dir: Direction, rows: seq<Row>)
    requires Homogeneous(columnKey, rows)
    ensures SortRows(columnKey, dir, SortRows(columnKey, dir, rows)) == SortRows(columnKey, dir, rows)
  {
    SortRowsSorted(columnKey, dir, rows);
    SortedUnchanged(columnKey, dir, SortRows(columnKey, dir, rows));
  }

  /** A concrete ascending numeric sort: ages 30, 25, 35 come out 25, 30, 35. */
  lemma SortByAgeExample()
    ensures var john, jane, bob := [Field("age", Num(30))], [Field("age", Num(25))], [Field("age", Num(35))];
      SortRows("age", Asc, [john, jane, bob]) == [jane, john, bob]
  {
    var john, jane, bob := [Field("age", Num(30))], [Field("age", Num(25))], [Field("age", Num(35))];
    assert [john, jane, bob][..2] == [john, jane];
    assert [john, jane][..1] == [john];
    assert SortRows("age", Asc, [john]) == [john];
    assert Compare("age", Asc, jane, john) < 0;
    assert SortRows("age", Asc, [john, jane]) == [jane, john];
    assert Compare("age", Asc, bob, jane) > 0 && Compare("age", Asc, bob, john) > 0;
    assert Insert("age", Asc, [john], bob) == [john, bob];
  }
}
