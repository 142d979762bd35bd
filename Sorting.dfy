/** Ordering the listed inventory items by one of the sort labels. Java's
    `List.sort` is stable, so the model is a stable insertion sort. */
module Sorting {
  import opened Wrappers
  import opened Catalog
  import opened Items
  import opened Seqs

  /** `a.compareTo(b) < 0` on strings: the first differing character decides,
      and a proper prefix comes first. */
  predicate LexLess(a: string, b: string) {
    if a == [] then b != []
    else if b == [] then false
    else if a[0] != b[0] then a[0] < b[0]
    else LexLess(a[1..], b[1..])
  }

  lemma {:induction false} LexLessIrreflexive(a: string)
    ensures !LexLess(a, a)
  {
    if a != [] {
      LexLessIrreflexive(a[1..]);
    }
  }

  lemma {:induction false} LexLessTransitive(a: string, b: string, c: string)
    requires LexLess(a, b) && LexLess(b, c)
    ensures LexLess(a, c)
  {
    if a != [] && b != [] && c != [] && a[0] == b[0] && b[0] == c[0] {
      LexLessTransitive(a[1..], b[1..], c[1..]);
    }
  }

  /** Distinct strings are ordered one way or the other. */
  lemma {:induction false} LexLessTotal(a: string, b: string)
    requires a != b
    ensures LexLess(a, b) || LexLess(b, a)
  {
    if a != [] && b != [] && a[0] == b[0] {
      assert a == [a[0]] + a[1..] && b == [b[0]] + b[1..];
      LexLessTotal(a[1..], b[1..]);
    }
  }

  /** The three `SortCriteria`. */
  datatype Criterion = LowToHigh | HighToLow | Alphabetical

  /** The label of each criterion, as the listing page sends it. */
  function LabelOf(c: Criterion): string {
    match c
    case LowToHigh => "low_to_high"
    case HighToLow => "high_to_low"
    case Alphabetical => "alphabetical"
  }

  /** The criterion whose label equals `sort`, checked in declaration order;
      None for an unrecognised label. */
  function CriterionOf(sort: string): (r: Option<Criterion>)
    ensures r.Some? ==> LabelOf(r.value) == sort
    ensures r.None? <==> forall c: Criterion :: LabelOf(c) != sort
  {
    if sort == "low_to_high" then Some(LowToHigh)
    else if sort == "high_to_low" then Some(HighToLow)
    else if sort == "alphabetical" then Some(Alphabetical)
    else None
  }

  /** The comparator says `a` goes strictly before `b`. */
  predicate Before(c: Criterion, a: Entry, b: Entry) {
    match c
    case LowToHigh => a.book.price < b.book.price
    case HighToLow => a.book.price > b.book.price
    case Alphabetical => LexLess(a.book.title, b.book.title)
  }

  /** The comparator finds the two items equal. */
  predicate SameKey(c: Criterion, a: Entry, b: Entry) {
    !Before(c, a, b) && !Before(c, b, a)
  }

  function SameKeyAs(c: Criterion, e: Entry): Entry -> bool {
    (x: Entry) => SameKey(c, x, e)
  }

  /** `Before` is a strict weak order: asymmetric, and "not after" is
      transitive. */
  lemma BeforeOrder(c: Criterion, a: Entry, b: Entry, d: Entry)
    ensures Before(c, a, b) ==> !Before(c, b, a)
    ensures !Before(c, b, a) && !Before(c, d, b) ==> !Before(c, d, a)
  {
    if c == Alphabetical {
      var ta, tb, td := a.book.title, b.book.title, d.book.title;
      if LexLess(ta, tb) && LexLess(tb, ta) {
        LexLessTransitive(ta, tb, ta);
        LexLessIrreflexive(ta);
      }
      if !LexLess(tb, ta) && !LexLess(td, tb) && LexLess(td, ta) {
        if ta != tb { LexLessTotal(ta, tb); }
        if tb != td { LexLessTotal(tb, td); }
        if ta != tb && tb != td {
          LexLessTransitive(ta, tb, td);
          LexLessTransitive(td, ta, td);
          LexLessIrreflexive(td);
        }
      }
    }
  }

  /** No item is strictly before an item that precedes it. */
  predicate Sorted(c: Criterion, s: seq<Entry>) {
    forall i, j :: 0 <= i < j < |s| ==> !Before(c, s[j], s[i])
  }

  /** Puts `x` after the items strictly before it and ahead of the
      others, so that an item equal to it stays behind it. */
  function Insert(c: Criterion, x: Entry, t: seq<Entry>): seq<Entry> {
    if t == [] then [x]
    else if Before(c, t[0], x) then [t[0]] + Insert(c, x, t[1..])
    else [x] + t
  }

  /** `list.sort(comparator)`. */
  function Sort(c: Criterion, s: seq<Entry>): seq<Entry> {
    if s == [] then [] else Insert(c, s[0], Sort(c, s[1..]))
  }

  lemma {:induction false} InsertPermutes(c: Criterion, x: Entry, t: seq<Entry>)
    ensures multiset(Insert(c, x, t)) == multiset(t) + multiset{x}
  {
    if t != [] && Before(c, t[0], x) {
      InsertPermutes(c, x, t[1..]);
      assert t == [t[0]] + t[1..];
    }
  }

  lemma {:induction false} InsertSorted(c: Criterion, x: Entry, t: seq<Entry>)
    requires Sorted(c, t)
    ensures Sorted(c, Insert(c, x, t))
  {
    if t == [] {
    } else if Before(c, t[0], x) {
      InsertSorted(c, x, t[1..]);
      var r := Insert(c, x, t);
      InsertPermutes(c, x, t[1..]);
      forall j | 1 <= j < |r|
        ensures !Before(c, r[j], t[0])
      {
        assert r[j] in multiset(Insert(c, x, t[1..]));
        assert r[j] == x || r[j] in multiset(t[1..]);
        BeforeOrder(c, t[0], x, x);
        if r[j] != x {
          var k :| 0 <= k < |t[1..]| && t[1..][k] == r[j];
          assert t[k + 1] == r[j];
        }
      }
    } else {
      forall j | 0 <= j < |t|
        ensures !Before(c, t[j], x)
      {
        if j > 0 {
          BeforeOrder(c, x, t[0], t[j]);
        }
      }
    }
  }

  /** One step of `InsertStable`: passing an item strictly before `x`,
      which cannot share `x`'s key. */
  lemma InsertStablePast(c: Criterion, x: Entry, t: seq<Entry>, e: Entry)
    requires t != [] && Before(c, t[0], x)
    requires Filter(Insert(c, x, t[1..]), SameKeyAs(c, e)) ==
             (if SameKey(c, x, e) then [x] else []) + Filter(t[1..], SameKeyAs(c, e))
    ensures Filter(Insert(c, x, t), SameKeyAs(c, e)) ==
            (if SameKey(c, x, e) then [x] else []) + Filter(t, SameKeyAs(c, e))
  {
    var p := SameKeyAs(c, e);
    var rest := Insert(c, x, t[1..]);
    var h0 := if p(t[0]) then [t[0]] else [];
    var hx := if SameKey(c, x, e) then [x] else [];
    BeforeOrder(c, x, e, t[0]);
    assert h0 == [] || hx == [];
    assert Insert(c, x, t) == [t[0]] + rest;
    FilterCons(t[0], rest, p);
    FilterCons(t[0], t[1..], p);
    assert [t[0]] + t[1..] == t;
    SwapHeads(h0, hx, Filter(t[1..], p));
  }

  /** Inserting `x` adds it to the items of its key and leaves every other key's
      items as they were. */
  lemma {:induction false} InsertStable(c: Criterion, x: Entry, t: seq<Entry>, e: Entry)
    ensures Filter(Insert(c, x, t), SameKeyAs(c, e)) ==
            (if SameKey(c, x, e) then [x] else []) + Filter(t, SameKeyAs(c, e))
  {
    var p := SameKeyAs(c, e);
    if t == [] {
      FilterCons(x, [], p);
      assert [x] + [] == [x];
    } else if Before(c, t[0], x) {
      InsertStable(c, x, t[1..], e);
      InsertStablePast(c, x, t, e);
    } else {
      FilterCons(x, t, p);
    }
  }

  /** The sorted list holds exactly the same items. */
  lemma {:induction false} SortPermutes(c: Criterion, s: seq<Entry>)
    ensures multiset(Sort(c, s)) == multiset(s)
  {
    if s != [] {
      SortPermutes(c, s[1..]);
      InsertPermutes(c, s[0], Sort(c, s[1..]));
      assert s == [s[0]] + s[1..];
    }
  }

  /** The sorted list is in the comparator's order. */
  lemma {:induction false} SortSorted(c: Criterion, s: seq<Entry>)
    ensures Sorted(c, Sort(c, s))
  {
    if s != [] {
      SortSorted(c, s[1..]);
      InsertSorted(c, s[0], Sort(c, s[1..]));
    }
  }

  /** Items the comparator finds equal keep their relative order. */
  lemma {:induction false} SortStable(c: Criterion, s: seq<Entry>, e: Entry)
    ensures Filter(Sort(c, s), SameKeyAs(c, e)) == Filter(s, SameKeyAs(c, e))
  {
    if s != [] {
      SortStable(c, s[1..], e);
      InsertStable(c, s[0], Sort(c, s[1..]), e);
    }
  }

  /** The listing's order for a sort label: sorted when the label is one of
      the three criteria, the given order otherwise. */
  function SortByLabel(sort: string, s: seq<Entry>): seq<Entry> {
    match CriterionOf(sort)
    case None => s
    case Some(c) => Sort(c, s)
  }

  /** For "low_to_high" prices never decrease, for "high_to_low" they never
      increase, for "alphabetical" titles never decrease; any other label
      keeps the order; in every case the result is a stable permutation. */
  lemma SortByLabelOrders(sort: string, s: seq<Entry>, e: Entry)
    ensures var r := SortByLabel(sort, s);
            multiset(r) == multiset(s) &&
            (sort == "low_to_high" ==> forall i, j :: 0 <= i < j < |r| ==> r[i].book.price <= r[j].book.price) &&
            (sort == "high_to_low" ==> forall i, j :: 0 <= i < j < |r| ==> r[i].book.price >= r[j].book.price) &&
            (sort == "alphabetical" ==> forall i, j :: 0 <= i < j < |r| ==> !LexLess(r[j].book.title, r[i].book.title)) &&
            (CriterionOf(sort).None? ==> r == s) &&
            (CriterionOf(sort).Some? ==> Filter(r, SameKeyAs(CriterionOf(sort).value, e)) == Filter(s, SameKeyAs(CriterionOf(sort).value, e)))
  {
    match CriterionOf(sort)
    case None =>
    case Some(c) =>
      SortPermutes(c, s);
      SortSorted(c, s);
      SortStable(c, s, e);
  }
}
