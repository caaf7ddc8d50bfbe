/**
 * The task list of the transcript page (client/src/pages/TranscriptDetails.jsx):
 * the `stats` summary and the `filtered` list, which keeps the items that
 * pass a status filter, a text query and a due-date range, and sorts them
 * open first and then by due date, undated items last.
 *
 * Due dates are `YYYY-MM-DD` strings; the page compares them through
 * `new Date(...).getTime()`, which for such strings is their lexicographic
 * order, and that is how they are compared here.
 */
module TaskView {
  import opened JsValue
  import opened JsString
  import opened TranscriptModel

  // ---------------------------------------------------------------------
  // Statistics
  // ---------------------------------------------------------------------

  datatype Stats = Stats(total: nat, done: nat, open: int)

  /** `items.filter((x) => x.done).length`. */
  function CountDone(items: seq<ActionItem>): (n: nat)
    ensures n <= |items|
  {
    if items == [] then 0 else (if items[0].done then 1 else 0) + CountDone(items[1..])
  }

  /** The `stats` memo. */
  function ComputeStats(items: seq<ActionItem>): (s: Stats)
    ensures s.total == |items| && s.done == CountDone(items)
    ensures s.open >= 0 && s.open + s.done == s.total
  {
    var total := |items|;
    var done := CountDone(items);
    Stats(total, done, total - done)
  }

  // ---------------------------------------------------------------------
  // A generic filter
  // ---------------------------------------------------------------------

  /** `Array.prototype.filter`: the items that `keep`, in their order. */
  function Filter<T(==,!new)>(s: seq<T>, keep: T -> bool): (r: seq<T>)
    ensures |r| <= |s|
    ensures forall x :: x in r <==> x in s && keep(x)
    ensures multiset(r) <= multiset(s)
    ensures forall x :: multiset(r)[x] == if keep(x) then multiset(s)[x] else 0
    ensures (forall i :: 0 <= i < |s| ==> keep(s[i])) ==> r == s
    ensures (forall i :: 0 <= i < |s| ==> !keep(s[i])) ==> r == []
  {
    if s == [] then []
    else
      assert s == [s[0]] + s[1..];
      (if keep(s[0]) then [s[0]] else []) + Filter(s[1..], keep)
  }

  // ---------------------------------------------------------------------
  // The three filters
  // ---------------------------------------------------------------------

  /** The status filter: "open" drops done items, "done" drops open ones, anything else keeps all. */
  predicate KeepStatus(status: string, t: ActionItem) {
    !(status == "open" && t.done) && !(status == "done" && !t.done)
  }

  function StatusFiltered(items: seq<ActionItem>, status: string): seq<ActionItem> {
    Filter(items, t => KeepStatus(status, t))
  }

  lemma StatusFilterSpec(items: seq<ActionItem>, status: string)
    ensures status == "open" ==> forall t :: t in StatusFiltered(items, status) <==> t in items && !t.done
    ensures status == "done" ==> forall t :: t in StatusFiltered(items, status) <==> t in items && t.done
    ensures status != "open" && status != "done" ==> StatusFiltered(items, status) == items
  {
  }

  /** `stats.done` and `stats.open` count what the "done" and "open" filters show. */
  lemma {:induction false} StatsMatchStatusFilter(items: seq<ActionItem>)
    ensures ComputeStats(items).done == |StatusFiltered(items, "done")|
    ensures ComputeStats(items).open == |StatusFiltered(items, "open")|
  {
    if items != [] {
      var first, rest := items[0], items[1..];
      StatsMatchStatusFilter(rest);
      assert "open" != "done" by { assert "open"[0] != "done"[0]; }
      assert CountDone(items) == (if first.done then 1 else 0) + CountDone(rest);
      assert StatusFiltered(items, "done") == (if first.done then [first] else []) + StatusFiltered(rest, "done");
      assert StatusFiltered(items, "open") == (if first.done then [] else [first]) + StatusFiltered(rest, "open");
    }
  }

  /** `` `${t.task || ""} ${t.owner || ""}`.toLowerCase() ``. */
  function Haystack(t: ActionItem): string {
    ToLower(t.task + " " + (if t.owner.Some? then t.owner.value else ""))
  }

  /** The query filter, given `q = query.trim().toLowerCase()`. */
  predicate KeepQuery(q: string, t: ActionItem) {
    q == "" || Includes(Haystack(t), q)
  }

  function QueryFiltered(items: seq<ActionItem>, query: string): seq<ActionItem> {
    Filter(items, t => KeepQuery(ToLower(Trim(query)), t))
  }

  /**
   * A blank query keeps every item; otherwise an item is kept exactly when
   * its lower-cased task and owner contain the lower-cased trimmed query.
   */
  lemma QueryFilterSpec(items: seq<ActionItem>, query: string)
    ensures Trim(query) == "" ==> QueryFiltered(items, query) == items
    ensures Trim(query) != "" ==> forall t :: t in QueryFiltered(items, query) <==>
      t in items && Includes(Haystack(t), ToLower(Trim(query)))
  {
  }

  /** Every item matches a query made of its own task. */
  lemma TaskMatchesItself(t: ActionItem)
    requires IsTrimmed(t.task) && t.task != ""
    ensures KeepQuery(ToLower(Trim(t.task)), t)
  {
    TrimmedIsFixed(t.task);
    var hay := t.task + " " + (if t.owner.Some? then t.owner.value else "");
    assert hay[..|t.task|] == t.task;
    assert Haystack(t)[0..|t.task|] == ToLower(t.task);
    assert OccursAt(Haystack(t), ToLower(Trim(t.task)), 0);
  }

  /** Strict lexicographic order on strings, the order of `YYYY-MM-DD` dates. */
  predicate LexLess(a: string, b: string) {
    if a == [] then b != []
    else if b == [] then false
    else if a[0] != b[0] then a[0] < b[0]
    else LexLess(a[1..], b[1..])
  }

  lemma {:induction false} LexLessIrreflexive(a: string)
    ensures !LexLess(a, a)
  {
    if a != [] {
      LexLessIrreflexive(a[1..]);
    }
  }

  lemma {:induction false} LexLessTransitive(a: string, b: string, c: string)
    requires LexLess(a, b) && LexLess(b, c)
    ensures LexLess(a, c)
  {
    if a != [] && b != [] && c != [] && a[0] == b[0] && b[0] == c[0] {
      LexLessTransitive(a[1..], b[1..], c[1..]);
    }
  }

  lemma {:induction false} LexLessTotal(a: string, b: string)
    requires a != b
    ensures LexLess(a, b) || LexLess(b, a)
  {
    if a != [] && b != [] && a[0] == b[0] {
      assert a == [a[0]] + a[1..] && b == [b[0]] + b[1..];
      LexLessTotal(a[1..], b[1..]);
    }
  }

  /** `!t.dueDate`: no due date, or an empty one. */
  predicate Undated(t: ActionItem) {
    t.dueDate.None? || t.dueDate.value == ""
  }

  /**
   * The due-date filter, with the bounds as the date inputs hold them ("" is
   * no bound): with no bound everything is kept; otherwise an item needs a
   * due date on or after `dueFrom` and on or before `dueTo`.
   */
  predicate KeepDue(dueFrom: string, dueTo: string, t: ActionItem) {
    if dueFrom == "" && dueTo == "" then true
    else if Undated(t) then false
    else (dueFrom == "" || !LexLess(t.dueDate.value, dueFrom)) && (dueTo == "" || !LexLess(dueTo, t.dueDate.value))
  }

  function DueFiltered(items: seq<ActionItem>, dueFrom: string, dueTo: string): seq<ActionItem> {
    Filter(items, t => KeepDue(dueFrom, dueTo, t))
  }

  lemma DueFilterSpec(items: seq<ActionItem>, dueFrom: string, dueTo: string)
    ensures dueFrom == "" && dueTo == "" ==> DueFiltered(items, dueFrom, dueTo) == items
    ensures dueFrom != "" || dueTo != "" ==> forall t :: t in DueFiltered(items, dueFrom, dueTo) <==>
      && t in items && !Undated(t)
      && (dueFrom == "" || !LexLess(t.dueDate.value, dueFrom))
      && (dueTo == "" || !LexLess(dueTo, t.dueDate.value))
  {
  }

  /** A range whose end is before its start keeps nothing. */
  lemma EmptyRange(items: seq<ActionItem>, dueFrom: string, dueTo: string)
    requires dueFrom != "" && dueTo != "" && LexLess(dueTo, dueFrom)
    ensures DueFiltered(items, dueFrom, dueTo) == []
  {
    forall t | t in items && !Undated(t) && !LexLess(t.dueDate.value, dueFrom)
      ensures LexLess(dueTo, t.dueDate.value)
    {
      var d := t.dueDate.value;
      if d != dueFrom {
        LexLessTotal(d, dueFrom);
        LexLessTransitive(dueTo, dueFrom, d);
      }
    }
    assert forall i :: 0 <= i < |items| ==> !KeepDue(dueFrom, dueTo, items[i]);
  }

  // ---------------------------------------------------------------------
  // The sort
  // ---------------------------------------------------------------------

  /**
   * The due-date part of the comparator: a missing date counts as
   * `Infinity`, so a dated item comes before an undated one, two dated items
   * by date, and two undated ones are tied (`Infinity - Infinity` is `NaN`,
   * which the sort treats as 0).
   */
  predicate DueBefore(a: ActionItem, b: ActionItem) {
    !Undated(a) && (Undated(b) || LexLess(a.dueDate.value, b.dueDate.value))
  }

  /** The comparator returns a negative number: open before done, then by due date. */
  predicate Precedes(a: ActionItem, b: ActionItem) {
    if a.done != b.done then !a.done else DueBefore(a, b)
  }

  lemma PrecedesIrreflexive(a: ActionItem)
    ensures !Precedes(a, a)
  {
    if !Undated(a) {
      LexLessIrreflexive(a.dueDate.value);
    }
  }

  lemma PrecedesTransitive(a: ActionItem, b: ActionItem, c: ActionItem)
    requires Precedes(a, b) && Precedes(b, c)
    ensures Precedes(a, c)
  {
    if a.done == b.done == c.done && !Undated(c) {
      LexLessTransitive(a.dueDate.value, b.dueDate.value, c.dueDate.value);
    }
  }

  lemma PrecedesAsymmetric(a: ActionItem, b: ActionItem)
    ensures !(Precedes(a, b) && Precedes(b, a))
  {
    if Precedes(a, b) && Precedes(b, a) {
      PrecedesTransitive(a, b, a);
      PrecedesIrreflexive(a);
    }
  }

  /** No item is followed by one the comparator puts before it. */
  predicate SortedForView(s: seq<ActionItem>) {
    forall i, j :: 0 <= i < j < |s| ==> !Precedes(s[j], s[i])
  }

  /** Inserts `x` before the first item it precedes, after all it ties with. */
  function Insert(x: ActionItem, s: seq<ActionItem>): (r: seq<ActionItem>)
    ensures multiset(r) == multiset(s) + multiset{x}
    ensures |r| == |s| + 1
  {
    if s == [] then [x]
    else if Precedes(x, s[0]) then [x] + s
    else
      assert s == [s[0]] + s[1..];
      [s[0]] + Insert(x, s[1..])
  }

  lemma {:induction false} InsertSorted(x: ActionItem, s: seq<ActionItem>)
    requires SortedForView(s)
    ensures SortedForView(Insert(x, s))
  {
    if s == [] {
    } else if Precedes(x, s[0]) {
      var r := [x] + s;
      forall i, j | 0 <= i < j < |r| ensures !Precedes(r[j], r[i]) {
        if i == 0 {
          if Precedes(r[j], x) {
            if j == 1 {
              PrecedesAsymmetric(x, s[0]);
            } else {
              assert r[j] == s[j - 1];
              PrecedesTransitive(r[j], x, s[0]);
            }
          }
        } else {
          assert r[i] == s[i - 1] && r[j] == s[j - 1];
        }
      }
    } else {
      InsertSorted(x, s[1..]);
      var tail := Insert(x, s[1..]);
      var r := [s[0]] + tail;
      forall i, j | 0 <= i < j < |r| ensures !Precedes(r[j], r[i]) {
        if i == 0 {
          assert r[j] in multiset(tail);
          assert r[j] in multiset(s[1..]) + multiset{x};
          if r[j] != x {
            assert r[j] in s[1..];
            var k :| 0 <= k < |s[1..]| && s[1..][k] == r[j];
            assert s[k + 1] == r[j];
          }
        } else {
          assert r[i] == tail[i - 1] && r[j] == tail[j - 1];
        }
      }
    }
  }

  /**
   * The `.sort(...)` of the page: the items one by one, each inserted into
   * the sorted earlier ones. `Array.prototype.sort` is stable, and so is
   * this sort.
   */
  function SortForView(s: seq<ActionItem>): (r: seq<ActionItem>)
    ensures multiset(r) == multiset(s)
    ensures |r| == |s|
  {
    if s == [] then []
    else
      assert s == s[..|s| - 1] + [s[|s| - 1]];
      Insert(s[|s| - 1], SortForView(s[..|s| - 1]))
  }

  lemma {:induction false} SortForViewSorted(s: seq<ActionItem>)
    ensures SortedForView(SortForView(s))
  {
    if s != [] {
      SortForViewSorted(s[..|s| - 1]);
      InsertSorted(s[|s| - 1], SortForView(s[..|s| - 1]));
    }
  }

  /** Sorting neither adds nor drops an item. */
  lemma SortKeepsMembers(s: seq<ActionItem>)
    ensures forall t :: t in SortForView(s) <==> t in s
  {
    forall t ensures t in SortForView(s) <==> t in s {
      assert t in SortForView(s) <==> t in multiset(SortForView(s));
    }
  }

  /** In a list sorted for the view, every open item comes before every done item. */
  lemma OpenBeforeDone(s: seq<ActionItem>, i: nat, j: nat)
    requires SortedForView(s) && i < j < |s|
    ensures !(s[i].done && !s[j].done)
  {
  }

  /**
   * In a list sorted for the view, two items with the same status are in
   * ascending due-date order, and an undated item is followed only by
   * undated items of its status.
   */
  lemma DueDatesAscending(s: seq<ActionItem>, i: nat, j: nat)
    requires SortedForView(s) && i < j < |s| && s[i].done == s[j].done
    ensures !Undated(s[i]) && !Undated(s[j]) ==> !LexLess(s[j].dueDate.value, s[i].dueDate.value)
    ensures Undated(s[i]) ==> Undated(s[j])
  {
    assert !Precedes(s[j], s[i]);
  }

  // ---------------------------------------------------------------------
  // The filtered list
  // ---------------------------------------------------------------------

  /** The `filtered` memo. */
  function Filtered(items: seq<ActionItem>, query: string, dueFrom: string, dueTo: string, status: string): seq<ActionItem> {
    SortForView(DueFiltered(QueryFiltered(StatusFiltered(items, status), query), dueFrom, dueTo))
  }

  /** Filtering by `p` and then by `q` is filtering once by their conjunction. */
  lemma {:induction false} FilterCompose<T(!new)>(s: seq<T>, p: T -> bool, q: T -> bool, pq: T -> bool)
    requires forall x :: pq(x) == (p(x) && q(x))
    ensures Filter(Filter(s, p), q) == Filter(s, pq)
    decreases |s|
  {
    if s != [] {
      FilterCompose(s[1..], p, q, pq);
      var kept, rest := Filter(s, p), Filter(s[1..], p);
      if p(s[0]) {
        assert kept == [s[0]] + rest;
        assert kept[0] == s[0] && kept[1..] == rest;
      } else {
        assert kept == rest;
      }
    }
  }

  /** The item passes all three filters. */
  predicate Shown(query: string, dueFrom: string, dueTo: string, status: string, t: ActionItem) {
    KeepStatus(status, t) && KeepQuery(ToLower(Trim(query)), t) && KeepDue(dueFrom, dueTo, t)
  }

  /**
   * The filtered list is sorted for the view, holds the items that pass all
   * three filters and only those, and takes nothing that is not among the
   * items: it is a reordering of a sub-multiset of them.
   */
  lemma FilteredSpec(items: seq<ActionItem>, query: string, dueFrom: string, dueTo: string, status: string)
    ensures SortedForView(Filtered(items, query, dueFrom, dueTo, status))
    ensures multiset(Filtered(items, query, dueFrom, dueTo, status)) <= multiset(items)
    ensures multiset(Filtered(items, query, dueFrom, dueTo, status)) ==
      multiset(Filter(items, t => Shown(query, dueFrom, dueTo, status, t)))
    ensures forall t :: t in Filtered(items, query, dueFrom, dueTo, status) <==>
      t in items && Shown(query, dueFrom, dueTo, status, t)
  {
    var a := StatusFiltered(items, status);
    var b := QueryFiltered(a, query);
    var c := DueFiltered(b, dueFrom, dueTo);
    assert forall t :: t in a <==> t in items && KeepStatus(status, t);
    assert forall t :: t in b <==> t in a && KeepQuery(ToLower(Trim(query)), t);
    assert forall t :: t in c <==> t in b && KeepDue(dueFrom, dueTo, t);
    assert multiset(c) <= multiset(b) <= multiset(a) <= multiset(items);
    SortForViewSorted(c);
    SortKeepsMembers(c);
    var ks := t => KeepStatus(status, t);
    var kq := t => KeepQuery(ToLower(Trim(query)), t);
    var kd := t => KeepDue(dueFrom, dueTo, t);
    var ksq := t => KeepStatus(status, t) && KeepQuery(ToLower(Trim(query)), t);
    FilterCompose(items, ks, kq, ksq);
    FilterCompose(items, ksq, kd, t => Shown(query, dueFrom, dueTo, status, t));
  }

  /** With every filter open, the page shows all the items, sorted. */
  lemma NoFilterShowsAll(items: seq<ActionItem>)
    ensures Filtered(items, "", "", "", "all") == SortForView(items)
  {
    var a := StatusFiltered(items, "all");
    assert a == items;
    assert Trim("") == "" && ToLower("") == "";
    var b := QueryFiltered(a, "");
    assert b == items;
    var c := DueFiltered(b, "", "");
    assert c == items;
  }
}
