// The conversation lists: one row per one-to-one contact, per address-book
// person or per group, each with its message count and first and last
// dates, then sorted, cut to a date window and to a limit. Sorting reorders
// an array in place; the window keeps the rows whose last date lies inside
// it; the per-person and per-group totals are gathered chat by chat.

module Threads {
  import opened Str
  import opened AddressBook
  import HandleUtil
  import Chats
  import MessageText
  import TimeUtil

  datatype Kind = ContactKind | GroupKind

  /** One list row. Dates are raw Apple timestamps; the local-time texts of
      the source row are `MessageText.ConvertAppleTime` of them. */
  datatype Row = Row(name: string, id: string, last: Option<int>, first: Option<int>, count: int, kind: Kind)

  /** The options the lists read: `sort`, `order`, the window's ends as ISO
      texts and `limit`. */
  datatype ListOptions = ListOptions(sort: Option<string>, order: Option<string>,
                                     fromDate: Option<string>, toDate: Option<string>, limit: Option<nat>)

  // ---------------------------------------------------------------- sort_rows!

  datatype SortMode = ByName | ByCount | ByLast

  /** `options[:sort] || 'last_message_at'`, matched against the two named keys. */
  function ModeOf(sort: Option<string>): (m: SortMode)
    ensures m == ByName <==> sort == Some("name")
    ensures m == ByCount <==> sort == Some("message_count")
  {
    if sort == Some("name") then ByName
    else if sort == Some("message_count") then ByCount
    else ByLast
  }

  /** `(options[:order] || 'desc').to_s.downcase == 'desc'` */
  predicate Descending(order: Option<string>)
  {
    Lower(OrElse(order, "desc")) == "desc"
  }

  /** `last_date_raw || -Float::INFINITY`: a row without a date sorts below every dated one. */
  function LastKey(r: Row): Key
  {
    if r.last.None? then Key(0, 0) else Key(1, r.last.value)
  }

  /** The sort key of `a` is smaller than that of `b`, comparing the key
      arrays as Ruby does: `[name.downcase, -count]`, `[count,
      name.downcase]` or `[last]`. */
  predicate Before(m: SortMode, a: Row, b: Row)
  {
    match m
    case ByName => StrLess(Lower(a.name), Lower(b.name)) || (Lower(a.name) == Lower(b.name) && b.count < a.count)
    case ByCount => a.count < b.count || (a.count == b.count && StrLess(Lower(a.name), Lower(b.name)))
    case ByLast => KeyLess(LastKey(a), LastKey(b))
  }

  /** Ascending: no row has a smaller key than one before it. */
  predicate Ascending(m: SortMode, s: seq<Row>)
  {
    forall i, j :: 0 <= i < j < |s| ==> !Before(m, s[j], s[i])
  }

  /** Descending: no row has a larger key than one before it. */
  predicate DescendingBy(m: SortMode, s: seq<Row>)
  {
    forall i, j :: 0 <= i < j < |s| ==> !Before(m, s[i], s[j])
  }

  /** `x` may come before `y` in the order the options ask for. */
  predicate InOrder(m: SortMode, desc: bool, x: Row, y: Row)
  {
    if desc then !Before(m, x, y) else !Before(m, y, x)
  }

  /** The whole list is in the order the options ask for. */
  predicate Listed(m: SortMode, desc: bool, s: seq<Row>)
  {
    forall i, j :: 0 <= i < j < |s| ==> InOrder(m, desc, s[i], s[j])
  }

  /** A row that may follow every row of an ordered list extends it. */
  lemma ListedSnoc(m: SortMode, desc: bool, s: seq<Row>, x: Row)
    requires Listed(m, desc, s)
    requires forall i :: 0 <= i < |s| ==> InOrder(m, desc, s[i], x)
    ensures Listed(m, desc, s + [x])
  {
  }

  lemma StrOrder(x: string, y: string, z: string)
    ensures StrLess(x, y) && StrLess(y, z) ==> StrLess(x, z)
    ensures StrLess(x, y) ==> !StrLess(y, x)
    ensures x == y || StrLess(x, y) || StrLess(y, x)
  {
    if StrLess(x, y) && StrLess(y, z) {
      StrLessTransitive(x, y, z);
    }
    if StrLess(x, y) {
      StrLessAsymmetric(x, y);
    }
    StrLessTotal(x, y);
  }

  /** The key order is a strict order. */
  lemma BeforeAsymmetric(m: SortMode, a: Row, b: Row)
    requires Before(m, a, b)
    ensures !Before(m, b, a)
  {
    StrOrder(Lower(a.name), Lower(b.name), Lower(a.name));
  }

  /** Rows with equal keys are interchangeable: not being below is transitive. */
  lemma NotBeforeTransitive(m: SortMode, a: Row, b: Row, c: Row)
    requires !Before(m, a, b) && !Before(m, b, c)
    ensures !Before(m, a, c)
  {
    var x, y, z := Lower(a.name), Lower(b.name), Lower(c.name);
    StrOrder(x, y, z);
    StrOrder(y, x, z);
    StrOrder(x, z, y);
    StrOrder(z, y, x);
    StrOrder(y, z, x);
    StrOrder(z, x, y);
  }

  /** `sort_by!` then `reverse!` when the order is descending. */
  method SortRows(rows: array<Row>, sort: Option<string>, order: Option<string>)
    modifies rows
    ensures multiset(rows[..]) == multiset(old(rows[..]))
    ensures Listed(ModeOf(sort), Descending(order), rows[..])
  {
    var m := ModeOf(sort);
    SortAscending(rows, m);
    if Descending(order) {
      ghost var s := rows[..];
      Reverse(rows);
      ReversedDescending(m, s);
      assert DescendingBy(m, rows[..]);
    } else {
      assert Ascending(m, rows[..]);
    }
  }

  /** Insertion sort by the key of `m`. */
  method SortAscending(a: array<Row>, m: SortMode)
    modifies a
    ensures multiset(a[..]) == multiset(old(a[..]))
    ensures Ascending(m, a[..])
  {
    var i := 0;
    while i < a.Length
      invariant 0 <= i <= a.Length
      invariant multiset(a[..]) == multiset(old(a[..]))
      invariant Ascending(m, a[..i])
    {
      Sink(a, i, m);
      i := i + 1;
    }
    assert a[..i] == a[..];
  }

  /** Every pair of the first `n` rows not involving position `j` is in order. */
  predicate OrderedExcept(m: SortMode, s: seq<Row>, j: int, n: int)
    requires n <= |s|
  {
    forall k, l :: 0 <= k < l < n && k != j && l != j ==> !Before(m, s[l], s[k])
  }

  /** No row after position `j`, up to `n`, is below the row at `j`. */
  predicate NoneBelowAfter(m: SortMode, s: seq<Row>, j: int, n: int)
    requires 0 <= j < n <= |s|
  {
    forall l :: j < l < n ==> !Before(m, s[l], s[j])
  }

  /** Swapping the row at `j` with a larger one just before it moves the
      gap of the insertion one place down. */
  lemma SwapDown(m: SortMode, s: seq<Row>, j: int, n: int)
    requires 0 < j < n <= |s|
    requires OrderedExcept(m, s, j, n) && NoneBelowAfter(m, s, j, n)
    requires Before(m, s[j], s[j - 1])
    ensures OrderedExcept(m, s[j - 1 := s[j]][j := s[j - 1]], j - 1, n)
    ensures NoneBelowAfter(m, s[j - 1 := s[j]][j := s[j - 1]], j - 1, n)
  {
    BeforeAsymmetric(m, s[j], s[j - 1]);
  }

  /** Once the row at `j` is not below its predecessor, the first `n` rows are in order. */
  lemma SettledAscending(m: SortMode, s: seq<Row>, j: int, n: int)
    requires 0 <= j < n <= |s|
    requires OrderedExcept(m, s, j, n) && NoneBelowAfter(m, s, j, n)
    requires j == 0 || !Before(m, s[j], s[j - 1])
    ensures Ascending(m, s[..n])
  {
    forall k | 0 <= k < j - 1
      ensures !Before(m, s[j], s[k])
    {
      NotBeforeTransitive(m, s[j], s[j - 1], s[k]);
    }
  }

  lemma SwapPermutes(s: seq<Row>, i: nat, j: nat)
    requires i < j < |s|
    ensures multiset(s[i := s[j]][j := s[i]]) == multiset(s)
  {
  }

  /** Before the first swap, only the new row at `i` may be out of place. */
  lemma StartSink(m: SortMode, s: seq<Row>, i: nat)
    requires i < |s| && Ascending(m, s[..i])
    ensures OrderedExcept(m, s, i, i + 1) && NoneBelowAfter(m, s, i, i + 1)
  {
    forall k, l | 0 <= k < l < i + 1 && k != i && l != i
      ensures !Before(m, s[l], s[k])
    {
      assert s[..i][k] == s[k] && s[..i][l] == s[l];
    }
  }

  lemma SinkMoved(m: SortMode, t: seq<Row>, u: seq<Row>, s: seq<Row>, j: int, n: int)
    requires 0 <= j < n <= |t| && t == u
    requires OrderedExcept(m, t, j, n) && NoneBelowAfter(m, t, j, n) && multiset(t) == multiset(s)
    ensures OrderedExcept(m, u, j, n) && NoneBelowAfter(m, u, j, n) && multiset(u) == multiset(s)
  {}

  /** One swap of the insertion: a permutation that moves the gap down. */
  lemma SinkStep(m: SortMode, s: seq<Row>, j: int, n: int)
    requires 0 < j < n <= |s|
    requires OrderedExcept(m, s, j, n) && NoneBelowAfter(m, s, j, n)
    requires Before(m, s[j], s[j - 1])
    ensures var t := s[j - 1 := s[j]][j := s[j - 1]];
      OrderedExcept(m, t, j - 1, n) && NoneBelowAfter(m, t, j - 1, n) && multiset(t) == multiset(s)
  {
    SwapDown(m, s, j, n);
    SwapPermutes(s, j - 1, j);
  }

  /** Moves `a[i]` down into the sorted prefix `a[..i]`. */
  method Sink(a: array<Row>, i: nat, m: SortMode)
    requires i < a.Length && Ascending(m, a[..i])
    modifies a
    ensures multiset(a[..]) == multiset(old(a[..]))
    ensures Ascending(m, a[..i + 1])
  {
    var j := i;
    StartSink(m, a[..], i);
    while j > 0 && Before(m, a[j], a[j - 1])
      invariant 0 <= j <= i
      invariant multiset(a[..]) == multiset(old(a[..]))
      invariant OrderedExcept(m, a[..], j, i + 1)
      invariant NoneBelowAfter(m, a[..], j, i + 1)
    {
      ghost var s := a[..];
      ghost var t := s[j - 1 := s[j]][j := s[j - 1]];
      SinkStep(m, s, j, i + 1);
      a[j - 1], a[j] := a[j], a[j - 1];
      assert a[..] == t;
      SinkMoved(m, t, a[..], s, j - 1, i + 1);
      j := j - 1;
    }
    SettledAscending(m, a[..], j, i + 1);
  }

  /** `reverse!` */
  method Reverse(a: array<Row>)
    modifies a
    ensures a[..] == Reversed(old(a[..]))
  {
    var n := a.Length;
    var i := 0;
    while i < n / 2
      invariant 0 <= i <= n / 2
      invariant forall k :: 0 <= k < i ==> a[k] == old(a[n - 1 - k]) && a[n - 1 - k] == old(a[k])
      invariant forall k :: i <= k < n - i ==> a[k] == old(a[k])
    {
      a[i], a[n - 1 - i] := a[n - 1 - i], a[i];
      i := i + 1;
    }
  }

  function Reversed(s: seq<Row>): (r: seq<Row>)
    ensures |r| == |s| && forall k :: 0 <= k < |s| ==> r[k] == s[|s| - 1 - k]
  {
    seq(|s|, k requires 0 <= k < |s| => s[|s| - 1 - k])
  }

  /** Reversing an ascending list gives a descending one with the same rows. */
  lemma ReversedDescending(m: SortMode, s: seq<Row>)
    requires Ascending(m, s)
    ensures DescendingBy(m, Reversed(s))
    ensures multiset(Reversed(s)) == multiset(s)
  {
    ReversedMultiset(s);
  }

  lemma {:induction false} ReversedMultiset(s: seq<Row>)
    ensures multiset(Reversed(s)) == multiset(s)
    decreases |s|
  {
    if s != [] {
      var t := s[1..];
      ReversedMultiset(t);
      assert Reversed(s) == Reversed(t) + [s[0]];
      assert s == [s[0]] + t;
    }
  }

  // ---------------------------------------------------------------- filter_rows_by_window!

  /** The `from_date` / `to_date` bounds as Apple seconds; an end that is
      not given or does not parse is no bound. */
  function Bound(date: Option<string>, c: TimeUtil.Clock): (b: Option<real>)
    ensures date.None? ==> b.None?
    ensures date.Some? ==> b == TimeUtil.AppleFromIso(date.value, c)
  {
    if date.None? then None else TimeUtil.AppleFromIso(date.value, c)
  }

  /** A row is inside the window when it has a last date whose seconds
      (nanosecond values rescaled) lie within both given ends. */
  predicate InWindow(r: Row, from: Option<real>, to: Option<real>)
  {
    r.last.Some? &&
    (from.None? || MessageText.AppleSeconds(r.last.value) >= from.value) &&
    (to.None? || MessageText.AppleSeconds(r.last.value) <= to.value)
  }

  /** The rows inside the window, in their order. */
  function Window(rows: seq<Row>, from: Option<real>, to: Option<real>): (w: seq<Row>)
    ensures |w| <= |rows|
    decreases |rows|
  {
    if rows == [] then []
    else
      var r := rows[|rows| - 1];
      Window(rows[..|rows| - 1], from, to) + (if InWindow(r, from, to) then [r] else [])
  }

  /** `filter_rows_by_window!`: no change without bounds; otherwise `select!`. */
  method FilterRowsByWindow(rows: seq<Row>, from: Option<real>, to: Option<real>) returns (kept: seq<Row>)
    ensures from.None? && to.None? ==> kept == rows
    ensures from.Some? || to.Some? ==> kept == Window(rows, from, to)
  {
    if from.None? && to.None? {
      return rows;
    }
    kept := [];
    var i := 0;
    while i < |rows|
      invariant 0 <= i <= |rows|
      invariant kept == Window(rows[..i], from, to)
    {
      assert rows[..i + 1][..i] == rows[..i];
      var r := rows[i];
      var raw := r.last;
      if raw.Some? {
        var t := if raw.value > 1_000_000_000_000 then raw.value as real / 1_000_000_000.0 else raw.value as real;
        var ok := true;
        if from.Some? {
          ok := ok && t >= from.value;
        }
        if to.Some? {
          ok := ok && t <= to.value;
        }
        if ok {
          kept := kept + [r];
        }
      }
      i := i + 1;
    }
    assert rows[..i] == rows;
  }

  /** The window keeps exactly the rows inside it. */
  lemma {:induction false} WindowMembers(rows: seq<Row>, from: Option<real>, to: Option<real>, r: Row)
    ensures r in Window(rows, from, to) <==> r in rows && InWindow(r, from, to)
    decreases |rows|
  {
    if rows != [] {
      var p := rows[..|rows| - 1];
      WindowMembers(p, from, to, r);
      assert rows == p + [rows[|rows| - 1]];
    }
  }

  /** A row whose last date is inside both bounds stays; the window keeps
      the relative order of the rows it keeps. */
  lemma {:induction false} WindowKeepsOrder(m: SortMode, desc: bool, rows: seq<Row>, from: Option<real>, to: Option<real>)
    requires Listed(m, desc, rows)
    ensures Listed(m, desc, Window(rows, from, to))
    decreases |rows|
  {
    if rows != [] {
      var p, x := rows[..|rows| - 1], rows[|rows| - 1];
      assert Listed(m, desc, p);
      WindowKeepsOrder(m, desc, p, from, to);
      var w := Window(p, from, to);
      forall i | 0 <= i < |w|
        ensures InOrder(m, desc, w[i], x)
      {
        WindowMembers(p, from, to, w[i]);
        var k :| 0 <= k < |p| && p[k] == w[i];
        assert rows[k] == w[i];
      }
      if InWindow(x, from, to) {
        ListedSnoc(m, desc, w, x);
      }
    }
  }

  lemma {:induction false} WindowSubset(rows: seq<Row>, from: Option<real>, to: Option<real>)
    ensures multiset(Window(rows, from, to)) <= multiset(rows)
    decreases |rows|
  {
    if rows != [] {
      var p, x := rows[..|rows| - 1], rows[|rows| - 1];
      WindowSubset(p, from, to);
      assert rows == p + [x];
      assert multiset(rows) == multiset(p) + multiset{x};
    }
  }

  // ---------------------------------------------------------------- limit

  /** `rows.first(limit)` when a limit is given. */
  function Limit(rows: seq<Row>, limit: Option<nat>): (r: seq<Row>)
    ensures limit.None? ==> r == rows
    ensures limit.Some? ==> |r| == Min(limit.value, |rows|) && r == rows[..|r|]
  {
    if limit.None? then rows
    else rows[..Min(limit.value, |rows|)]
  }

  /** The limit keeps a prefix: the order, and rows that were there. */
  lemma LimitKeeps(m: SortMode, desc: bool, rows: seq<Row>, limit: Option<nat>)
    requires Listed(m, desc, rows)
    ensures Listed(m, desc, Limit(rows, limit))
    ensures multiset(Limit(rows, limit)) <= multiset(rows)
    ensures forall r :: r in Limit(rows, limit) ==> r in rows
  {
    var out := Limit(rows, limit);
    assert rows == out + rows[|out|..];
    assert multiset(rows) == multiset(out) + multiset(rows[|out|..]);
  }

  /** The rows the window keeps of `sorted`: all of them when it is not
      applied or has no bound, as `filter_rows_by_window` returns early. */
  function Windowed(sorted: seq<Row>, opts: ListOptions, c: TimeUtil.Clock, applyWindow: bool): seq<Row>
  {
    var from, to := Bound(opts.fromDate, c), Bound(opts.toDate, c);
    if applyWindow && (from.Some? || to.Some?) then Window(sorted, from, to) else sorted
  }

  /** What the tail of every list promises of its result `out` made from
      `rows`: it is the limit of the windowed rows of some ordering of
      `rows` in the requested order; so it is in that order, holds only
      rows from `rows`, no more than the limit, only rows inside the window
      when it is applied, and all rows when neither cuts. */
  ghost predicate Finished(rows: seq<Row>, out: seq<Row>, opts: ListOptions, c: TimeUtil.Clock, applyWindow: bool)
  {
    (exists sorted :: multiset(sorted) == multiset(rows) && Listed(ModeOf(opts.sort), Descending(opts.order), sorted) &&
      out == Limit(Windowed(sorted, opts, c, applyWindow), opts.limit)) &&
    Listed(ModeOf(opts.sort), Descending(opts.order), out) &&
    multiset(out) <= multiset(rows) &&
    (opts.limit.Some? ==> |out| <= opts.limit.value) &&
    (applyWindow && (Bound(opts.fromDate, c).Some? || Bound(opts.toDate, c).Some?) ==>
      forall r :: r in out ==> InWindow(r, Bound(opts.fromDate, c), Bound(opts.toDate, c))) &&
    (!applyWindow && opts.limit.None? ==> multiset(out) == multiset(rows))
  }

  /** The tail of `contacts_list` and `groups_list`: sort, the optional
      window and the limit. The result is in the requested order, no longer
      than the limit, made of the given rows and, with the window applied,
      of rows inside it. */
  method Finish(rows: seq<Row>, opts: ListOptions, c: TimeUtil.Clock, applyWindow: bool) returns (out: seq<Row>)
    ensures Finished(rows, out, opts, c, applyWindow)
  {
    var a := new Row[|rows|](k requires 0 <= k < |rows| => rows[k]);
    assert a[..] == rows;
    SortRows(a, opts.sort, opts.order);
    var sorted := a[..];
    var m, desc := ModeOf(opts.sort), Descending(opts.order);
    var from, to := Bound(opts.fromDate, c), Bound(opts.toDate, c);
    var kept := sorted;
    if applyWindow {
      kept := FilterRowsByWindow(sorted, from, to);
      if from.Some? || to.Some? {
        WindowKeepsOrder(m, desc, sorted, from, to);
        WindowSubset(sorted, from, to);
        forall r | r in kept
          ensures InWindow(r, from, to)
        {
          WindowMembers(sorted, from, to, r);
        }
      }
    }
    out := Limit(kept, opts.limit);
    LimitKeeps(m, desc, kept, opts.limit);
    assert kept == Windowed(sorted, opts, c, applyWindow);
  }

  // ---------------------------------------------------------------- contacts_list

  /** One row of the per-handle query over the one-to-one chats: the handle
      with the dates and the count of its messages. */
  datatype HandleStats = HandleStats(handleRowid: int, handle: Option<string>, last: Option<int>, first: Option<int>, count: int)

  /** A non-empty display name of a one-to-one chat of a handle; the query
      yields them by handle, then by chat. */
  datatype NameRow = NameRow(handleRowid: int, displayName: string)

  /** `best_name[h] ||= display_name`, row after row. */
  function BestNameMap(names: seq<NameRow>): map<int, string>
    decreases |names|
  {
    if names == [] then map[]
    else
      var m := BestNameMap(names[..|names| - 1]);
      var r := names[|names| - 1];
      if r.handleRowid in m then m else m[r.handleRowid := r.displayName]
  }

  /** The name of the first row of handle `h`. */
  function FirstNameOf(names: seq<NameRow>, h: int): Option<string>
    decreases |names|
  {
    if names == [] then None
    else if names[0].handleRowid == h then Some(names[0].displayName)
    else FirstNameOf(names[1..], h)
  }

  lemma {:induction false} FirstNameSnoc(names: seq<NameRow>, r: NameRow, h: int)
    ensures FirstNameOf(names + [r], h) ==
      if FirstNameOf(names, h).Some? then FirstNameOf(names, h)
      else if r.handleRowid == h then Some(r.displayName) else None
    decreases |names|
  {
    if names != [] {
      assert (names + [r])[1..] == names[1..] + [r];
      FirstNameSnoc(names[1..], r, h);
    }
  }

  /** Each handle keeps the name of its first named chat. */
  lemma {:induction false} BestNameIsFirst(names: seq<NameRow>, h: int)
    ensures h in BestNameMap(names) <==> FirstNameOf(names, h).Some?
    ensures h in BestNameMap(names) ==> FirstNameOf(names, h) == Some(BestNameMap(names)[h])
    decreases |names|
  {
    if names != [] {
      var p, r := names[..|names| - 1], names[|names| - 1];
      BestNameIsFirst(p, h);
      FirstNameSnoc(p, r, h);
      assert names == p + [r];
    }
  }

  method BestNames(names: seq<NameRow>) returns (best: map<int, string>)
    ensures best == BestNameMap(names)
  {
    best := map[];
    var i := 0;
    while i < |names|
      invariant 0 <= i <= |names|
      invariant best == BestNameMap(names[..i])
    {
      assert names[..i + 1][..i] == names[..i];
      var r := names[i];
      if r.handleRowid !in best {
        best := best[r.handleRowid := r.displayName];
      }
      i := i + 1;
    }
    assert names[..i] == names;
  }

  /** The list row of one handle: its best chat name, else the handle
      itself, capped; the id `c:<rowid>`. */
  function ContactRow(s: HandleStats, best: map<int, string>): Row
  {
    var name := if s.handleRowid in best then Some(best[s.handleRowid]) else s.handle;
    Row(HandleUtil.CapHandleName(name), "c:" + IntToString(s.handleRowid), s.last, s.first, s.count, ContactKind)
  }

  function ContactRows(stats: seq<HandleStats>, best: map<int, string>): (rows: seq<Row>)
    ensures |rows| == |stats| && forall i :: 0 <= i < |stats| ==> rows[i] == ContactRow(stats[i], best)
  {
    seq(|stats|, i requires 0 <= i < |stats| => ContactRow(stats[i], best))
  }

  /** A handle's row is named after its first named chat, or after the handle. */
  lemma ContactRowName(s: HandleStats, names: seq<NameRow>)
    ensures var r := ContactRow(s, BestNameMap(names));
      r.name == HandleUtil.CapHandleName(if FirstNameOf(names, s.handleRowid).Some? then FirstNameOf(names, s.handleRowid) else s.handle) &&
      r.count == s.count && r.last == s.last && r.first == s.first && r.kind == ContactKind
  {
    BestNameIsFirst(names, s.handleRowid);
  }

  /** Distinct handles get distinct ids, and each id names its handle. */
  lemma ContactIdsDistinct(s1: HandleStats, s2: HandleStats, best: map<int, string>)
    ensures ContactRow(s1, best).id == ContactRow(s2, best).id <==> s1.handleRowid == s2.handleRowid
  {
    var a, b := IntToString(s1.handleRowid), IntToString(s2.handleRowid);
    if "c:" + a == "c:" + b {
      assert a == ("c:" + a)[2..] && b == ("c:" + b)[2..];
      IntToStringInjective(s1.handleRowid, s2.handleRowid);
    }
  }

  method ContactRowsOf(stats: seq<HandleStats>, best: map<int, string>) returns (rows: seq<Row>)
    ensures rows == ContactRows(stats, best)
  {
    rows := [];
    var i := 0;
    while i < |stats|
      invariant 0 <= i <= |stats|
      invariant rows == ContactRows(stats[..i], best)
    {
      assert stats[..i + 1] == stats[..i] + [stats[i]];
      var r := ContactRow(stats[i], best);
      rows := rows + [r];
      i := i + 1;
    }
    assert stats[..i] == stats;
  }

  /** `contacts_list`: nothing without one-to-one chats; else one row per
      handle, sorted, cut to the window and to the limit. */
  method ContactsList(oneToOneIds: seq<int>, stats: seq<HandleStats>, names: seq<NameRow>,
                      opts: ListOptions, c: TimeUtil.Clock, applyWindow: bool) returns (out: seq<Row>)
    ensures oneToOneIds == [] ==> out == []
    ensures oneToOneIds != [] ==> Finished(ContactRows(stats, BestNameMap(names)), out, opts, c, applyWindow)
  {
    if oneToOneIds == [] {
      return [];
    }
    var best := BestNames(names);
    var rows := ContactRowsOf(stats, best);
    out := Finish(rows, opts, c, applyWindow);
  }

  // ---------------------------------------------------------------- contacts_list_from_address_book

  /** Message totals: the latest and earliest dates and the count. */
  datatype Stats = Stats(last: Option<int>, first: Option<int>, count: int)

  /** The per-contact totals before any chat is added. */
  const NoStats := Stats(None, None, 0)


  /** Adding the totals `s` of one chat to `t`: counts add up, the latest
      date is the larger (a missing one counts as 0), the earliest the
      smaller (a missing running one counts as none). */
  function Merge(t: Stats, s: Stats): Stats
  {
    var first := if t.first.Some? then Min(t.first.value, OrElse(s.first, 0)) else OrElse(s.first, 0);
    Stats(Some(Max(OrElse(t.last, 0), OrElse(s.last, 0))), Some(first), t.count + s.count)
  }

  /** Totals `acc` with every chat of `ss` added in order. */
  function Fold(acc: Stats, ss: seq<Stats>): Stats
    decreases |ss|
  {
    if ss == [] then acc else Merge(Fold(acc, ss[..|ss| - 1]), ss[|ss| - 1])
  }

  function SumCounts(ss: seq<Stats>): int
    decreases |ss|
  {
    if ss == [] then 0 else SumCounts(ss[..|ss| - 1]) + ss[|ss| - 1].count
  }

  /** Dated totals: both dates present, as every chat's totals from the
      message query are. */
  predicate AllDated(ss: seq<Stats>)
  {
    forall i :: 0 <= i < |ss| ==> ss[i].last.Some? && ss[i].first.Some?
  }

  /** Folding dated chat totals into the empty totals gives the sum of the
      counts, an earliest date that is the smallest of the chats' and a
      latest date that is the largest of the chats' and 0. */
  lemma {:induction false} FoldTotals(ss: seq<Stats>)
    requires AllDated(ss)
    ensures Fold(NoStats, ss).count == SumCounts(ss)
    ensures ss == [] ==> Fold(NoStats, ss) == NoStats
    ensures ss != [] ==> AllDated([Fold(NoStats, ss)])
    ensures ss != [] ==> forall i :: 0 <= i < |ss| ==>
      Fold(NoStats, ss).first.value <= ss[i].first.value && ss[i].last.value <= Fold(NoStats, ss).last.value
    ensures ss != [] ==> exists i :: 0 <= i < |ss| && Fold(NoStats, ss).first.value == ss[i].first.value
    ensures ss != [] ==> 0 <= Fold(NoStats, ss).last.value
    ensures ss != [] && Fold(NoStats, ss).last.value != 0 ==>
      exists i :: 0 <= i < |ss| && Fold(NoStats, ss).last.value == ss[i].last.value
    decreases |ss|
  {
    if ss != [] {
      var p, x := ss[..|ss| - 1], ss[|ss| - 1];
      assert AllDated(p) by {
        forall i | 0 <= i < |p| ensures p[i].last.Some? && p[i].first.Some? {
          assert p[i] == ss[i];
        }
      }
      FoldTotals(p);
      var q := Fold(NoStats, p);
      if p != [] {
        assert q.first.Some? && q.last.Some?;
        var i :| 0 <= i < |p| && q.first.value == p[i].first.value;
        assert ss[i] == p[i];
        if q.last.value != 0 {
          var j :| 0 <= j < |p| && q.last.value == p[j].last.value;
          assert ss[j] == p[j];
        }
        forall i | 0 <= i < |p| ensures ss[i] == p[i] { }
      }
    }
  }

  /** One chat with its participants, as `handles_by_chat` holds them. */
  datatype ChatHandles = ChatHandles(chatId: int, handles: seq<Chats.Participant>)

  function MappedKeys(hs: seq<Chats.Participant>, ix: Chats.Indexes): (ks: seq<Option<string>>)
    ensures |ks| == |hs| && forall i :: 0 <= i < |hs| ==> ks[i] == Chats.MapHandleToContactKey(hs[i].hid, hs[i].uncanon, ix.idIndex, ix.digitsIndex)
  {
    seq(|hs|, i requires 0 <= i < |hs| => Chats.MapHandleToContactKey(hs[i].hid, hs[i].uncanon, ix.idIndex, ix.digitsIndex))
  }

  /** `next if mapped.include?(:unmapped)`, `keys = mapped.uniq`, `next
      unless keys.length == 1`: the one key of a list of mapped keys; none
      when the list is empty, a participant maps to nobody, or two map to
      different contacts. */
  function Sole(ks: seq<Option<string>>): (k: Option<string>)
    ensures k.Some? ==> ks != [] && forall i :: 0 <= i < |ks| ==> ks[i] == k
    ensures k.None? ==> ks == [] || ks[0].None? || exists i :: 0 <= i < |ks| && ks[i] != ks[0]
  {
    if ks == [] || ks[0].None? then None
    else if forall i :: 0 <= i < |ks| ==> ks[i] == ks[0] then ks[0]
    else None
  }

  /** The one contact every participant of a chat maps to. */
  function SoleKey(hs: seq<Chats.Participant>, ix: Chats.Indexes): Option<string>
  {
    Sole(MappedKeys(hs, ix))
  }

  function ChatStats(stats: map<int, Stats>, chatId: int): Option<Stats>
  {
    if chatId in stats then Some(stats[chatId]) else None
  }

  /** What the loop uses of one chat: its sole contact and its totals. */
  datatype ChatTotals = ChatTotals(key: Option<string>, stats: Option<Stats>)

  function ChatEntries(chs: seq<ChatHandles>, stats: map<int, Stats>, ix: Chats.Indexes): (es: seq<ChatTotals>)
    ensures |es| == |chs| && forall i :: 0 <= i < |chs| ==>
      es[i] == ChatTotals(SoleKey(chs[i].handles, ix), ChatStats(stats, chs[i].chatId))
  {
    seq(|chs|, i requires 0 <= i < |chs| => ChatTotals(SoleKey(chs[i].handles, ix), ChatStats(stats, chs[i].chatId)))
  }

  /** The position of key `k` in the per-contact totals, `|acc|` when absent. */
  function IndexOfKey(acc: seq<(string, Stats)>, k: string): (i: nat)
    ensures i <= |acc|
    ensures i < |acc| ==> acc[i].0 == k
    ensures forall j :: 0 <= j < i ==> acc[j].0 != k
    decreases |acc|
  {
    if acc == [] || acc[0].0 == k then 0
    else
      var i := IndexOfKey(acc[1..], k);
      assert forall j :: 1 <= j < |acc| ==> acc[j] == acc[1..][j - 1];
      i + 1
  }

  /** The totals of key `k`, the empty ones when `k` is absent. */
  function TotalsOf(acc: seq<(string, Stats)>, k: string): Stats
  {
    var i := IndexOfKey(acc, k);
    if i < |acc| then acc[i].1 else NoStats
  }

  /** `per_contact[key] ||= {…}` then, when the chat has totals, adding them. */
  function Upsert(acc: seq<(string, Stats)>, k: string, s: Option<Stats>): (r: seq<(string, Stats)>)
    ensures |r| == |acc| || |r| == |acc| + 1
  {
    var i := IndexOfKey(acc, k);
    var cur := TotalsOf(acc, k);
    var v := if s.Some? then Merge(cur, s.value) else cur;
    if i < |acc| then acc[i := (k, v)] else acc + [(k, v)]
  }

  /** The per-contact totals after the chats, in first-met order. */
  function Aggregate(es: seq<ChatTotals>): (acc: seq<(string, Stats)>)
    ensures |acc| <= |es|
    decreases |es|
  {
    if es == [] then []
    else
      var e := es[|es| - 1];
      var acc := Aggregate(es[..|es| - 1]);
      if e.key.None? then acc else Upsert(acc, e.key.value, e.stats)
  }

  /** The totals of the chats, in order, whose sole contact is `k`. */
  function KeyStats(es: seq<ChatTotals>, k: string): seq<Stats>
    decreases |es|
  {
    if es == [] then []
    else
      var e := es[|es| - 1];
      KeyStats(es[..|es| - 1], k) + (if e.key == Some(k) && e.stats.Some? then [e.stats.value] else [])
  }

  predicate HasKey(acc: seq<(string, Stats)>, k: string) { IndexOfKey(acc, k) < |acc| }

  /** Upserting `k` makes it present with the chat's totals added. */
  lemma UpsertSame(acc: seq<(string, Stats)>, k: string, s: Option<Stats>)
    ensures HasKey(Upsert(acc, k, s), k)
    ensures TotalsOf(Upsert(acc, k, s), k) == if s.Some? then Merge(TotalsOf(acc, k), s.value) else TotalsOf(acc, k)
  {
    var r := Upsert(acc, k, s);
    var i := IndexOfKey(acc, k);
    assert r[i].0 == k;
    assert forall j :: 0 <= j < i ==> r[j].0 != k;
    IndexOfKeyFirst(r, k, i);
  }

  /** Upserting `k` leaves every other key as it was. */
  lemma UpsertOther(acc: seq<(string, Stats)>, k: string, s: Option<Stats>, k2: string)
    requires k2 != k
    ensures HasKey(Upsert(acc, k, s), k2) == HasKey(acc, k2)
    ensures TotalsOf(Upsert(acc, k, s), k2) == TotalsOf(acc, k2)
  {
    var r := Upsert(acc, k, s);
    var i := IndexOfKey(acc, k2);
    if i < |acc| {
      assert r[i].0 == k2;
      assert forall j :: 0 <= j < i ==> r[j].0 != k2;
      IndexOfKeyFirst(r, k2, i);
    } else {
      assert forall j :: 0 <= j < |r| ==> r[j].0 != k2;
      IndexOfKeyFirst(r, k2, |r|);
    }
  }

  /** `IndexOfKey` is the first position holding `k`. */
  lemma IndexOfKeyFirst(acc: seq<(string, Stats)>, k: string, i: nat)
    requires i <= |acc| && (i < |acc| ==> acc[i].0 == k)
    requires forall j :: 0 <= j < i ==> acc[j].0 != k
    ensures IndexOfKey(acc, k) == i
  {
  }

  lemma KeyStatsSnoc(es: seq<ChatTotals>, k: string)
    requires es != []
    ensures var e := es[|es| - 1];
      KeyStats(es, k) == KeyStats(es[..|es| - 1], k) + (if e.key == Some(k) && e.stats.Some? then [e.stats.value] else [])
  {
  }

  lemma AggregateSnoc(es: seq<ChatTotals>)
    requires es != []
    ensures var e := es[|es| - 1];
      Aggregate(es) == if e.key.None? then Aggregate(es[..|es| - 1]) else Upsert(Aggregate(es[..|es| - 1]), e.key.value, e.stats)
  {
  }

  /** A contact is in the totals exactly when one of the chats is all
      theirs, and their totals are those of all such chats folded in order. */
  lemma {:induction false} AggregateIsFold(es: seq<ChatTotals>, k: string)
    ensures HasKey(Aggregate(es), k) <==> exists i :: 0 <= i < |es| && es[i].key == Some(k)
    ensures TotalsOf(Aggregate(es), k) == Fold(NoStats, KeyStats(es, k))
    decreases |es|
  {
    if es != [] {
      var p, e := es[..|es| - 1], es[|es| - 1];
      AggregateIsFold(p, k);
      assert forall i :: 0 <= i < |p| ==> es[i] == p[i];
      var ks := KeyStats(p, k);
      KeyStatsSnoc(es, k);
      AggregateSnoc(es);
      if e.key == Some(k) {
        UpsertSame(Aggregate(p), k, e.stats);
        if e.stats.Some? {
          assert (ks + [e.stats.value])[..|ks|] == ks;
        }
      } else {
        assert KeyStats(es, k) == ks;
        if e.key.Some? {
          UpsertOther(Aggregate(p), e.key.value, e.stats, k);
        }
      }
    }
  }

  predicate KeysDistinct(acc: seq<(string, Stats)>)
  {
    forall i, j :: 0 <= i < j < |acc| ==> acc[i].0 != acc[j].0
  }

  /** No key is added twice. */
  lemma UpsertDistinct(acc: seq<(string, Stats)>, k: string, s: Option<Stats>)
    requires KeysDistinct(acc)
    ensures KeysDistinct(Upsert(acc, k, s))
  {
  }

  /** Each contact appears once in the totals. */
  lemma {:induction false} AggregateKeysDistinct(es: seq<ChatTotals>)
    ensures KeysDistinct(Aggregate(es))
    decreases |es|
  {
    if es != [] {
      var e := es[|es| - 1];
      AggregateKeysDistinct(es[..|es| - 1]);
      AggregateSnoc(es);
      if e.key.Some? {
        UpsertDistinct(Aggregate(es[..|es| - 1]), e.key.value, e.stats);
      }
    }
  }

  /** The position of `k` in `acc`, found by walking the list. */
  method FindKey(acc: seq<(string, Stats)>, k: string) returns (i: nat)
    ensures i == IndexOfKey(acc, k)
  {
    i := 0;
    while i < |acc| && acc[i].0 != k
      invariant 0 <= i <= |acc|
      invariant forall j :: 0 <= j < i ==> acc[j].0 != k
    {
      i := i + 1;
    }
    IndexOfKeyFirst(acc, k, i);
  }

  /** The loop over `handles_by_chat` filling `per_contact`. */
  method AggregateContacts(chs: seq<ChatHandles>, stats: map<int, Stats>, ix: Chats.Indexes) returns (acc: seq<(string, Stats)>)
    ensures acc == Aggregate(ChatEntries(chs, stats, ix))
  {
    ghost var es := ChatEntries(chs, stats, ix);
    acc := [];
    var n := 0;
    while n < |chs|
      invariant 0 <= n <= |chs|
      invariant acc == Aggregate(es[..n])
    {
      assert es[..n + 1][..n] == es[..n];
      ghost var prev := acc;
      var ch := chs[n];
      var k := SoleKey(ch.handles, ix);
      assert es[n] == ChatTotals(k, ChatStats(stats, ch.chatId));
      if k.Some? {
        var i := FindKey(acc, k.value);
        var cur := if i < |acc| then acc[i].1 else NoStats;
        if ch.chatId in stats {
          cur := Merge(cur, stats[ch.chatId]);
        }
        if i < |acc| {
          acc := acc[i := (k.value, cur)];
        } else {
          acc := acc + [(k.value, cur)];
        }
        assert acc == Upsert(prev, k.value, ChatStats(stats, ch.chatId));
      }
      assert acc == Aggregate(es[..n + 1]);
      n := n + 1;
    }
    assert es[..n] == es;
  }

  /** `ab:<link id>` when the contact has a non-empty link id, else `ab:pk:<pk>`. */
  function AbId(c: Contact): (id: string)
    ensures StartsWith(id, "ab:")
  {
    if OrElse(c.linkId, "") != [] then "ab:" + c.linkId.value else "ab:pk:" + IntToString(c.pk)
  }

  /** A contact's list id resolves back to that contact when it is the
      first one with its link id (or, without one, with its pk). */
  lemma AbIdResolves(ab: seq<Contact>, c: Contact)
    requires OrElse(c.linkId, "") != [] ==> '\n' !in c.linkId.value && !StartsWith(c.linkId.value, "pk:")
    requires OrElse(c.linkId, "") != [] ==> FirstWhere(ab, (d: Contact) => OrElse(d.linkId, "") == c.linkId.value) == Some(c)
    requires OrElse(c.linkId, "") == [] ==> FirstWhere(ab, (d: Contact) => d.pk == c.pk) == Some(c)
    ensures ResolveSelectorToKey(Some(ab), Some(AbId(c))) == Some(c.key)
  {
    if OrElse(c.linkId, "") != [] {
      ResolveLinkId(ab, c.linkId.value);
    } else {
      ResolvePk(ab, c.pk);
    }
  }

  /** The list row of one entry of the totals, when its key is the key of
      a contact: the contact's label (non-blank name, first email, first
      phone or key), capped, and the contact's `ab:` id. */
  function AbRowOf(ab: seq<Contact>, e: (string, Stats)): (r: Option<Row>)
    ensures r.Some? <==> exists i :: 0 <= i < |ab| && ab[i].key == e.0
    ensures r.Some? ==> exists c :: c in ab && c.key == e.0 && r.value.id == AbId(c)
    ensures r.Some? ==> r.value.kind == ContactKind && r.value.last == e.1.last && r.value.first == e.1.first && r.value.count == e.1.count
  {
    match Chats.ContactByKey(Some(ab), e.0)
    case None => None
    case Some(c) =>
      Some(Row(HandleUtil.CapHandleName(Some(Chats.ParticipantLabel(e.0, Some(ab)))), AbId(c), e.1.last, e.1.first, e.1.count, ContactKind))
  }

  /** The rows of the entries with a contact, in order. */
  function AbRows(acc: seq<(string, Stats)>, ab: seq<Contact>): (rows: seq<Row>)
    ensures |rows| <= |acc|
    decreases |acc|
  {
    if acc == [] then []
    else
      var r := AbRowOf(ab, acc[|acc| - 1]);
      AbRows(acc[..|acc| - 1], ab) + (if r.Some? then [r.value] else [])
  }

  /** An entry's row belongs to a contact of the book with that key and
      carries the entry's totals. */
  lemma AbRowOfContact(ab: seq<Contact>, e: (string, Stats))
    ensures AbRowOf(ab, e).None? <==> forall i :: 0 <= i < |ab| ==> ab[i].key != e.0
    ensures AbRowOf(ab, e).Some? ==> exists c :: (c in ab && c.key == e.0 &&
      AbRowOf(ab, e).value == Row(HandleUtil.CapHandleName(Some(Chats.ParticipantLabel(e.0, Some(ab)))), AbId(c), e.1.last, e.1.first, e.1.count, ContactKind))
  {
  }

  /** Every row comes from one entry of the totals. */
  lemma {:induction false} AbRowsFromEntries(acc: seq<(string, Stats)>, ab: seq<Contact>, r: Row)
    requires r in AbRows(acc, ab)
    ensures exists i :: 0 <= i < |acc| && AbRowOf(ab, acc[i]) == Some(r)
    decreases |acc|
  {
    var p := acc[..|acc| - 1];
    if r in AbRows(p, ab) {
      AbRowsFromEntries(p, ab, r);
      var i :| 0 <= i < |p| && AbRowOf(ab, p[i]) == Some(r);
      assert acc[i] == p[i];
    }
  }

  method AbRowsOf(acc: seq<(string, Stats)>, ab: seq<Contact>) returns (rows: seq<Row>)
    ensures rows == AbRows(acc, ab)
  {
    rows := [];
    var i := 0;
    while i < |acc|
      invariant 0 <= i <= |acc|
      invariant rows == AbRows(acc[..i], ab)
    {
      assert acc[..i + 1][..i] == acc[..i];
      var r := AbRowOf(ab, acc[i]);
      if r.Some? {
        rows := rows + [r.value];
      }
      i := i + 1;
    }
    assert acc[..i] == acc;
  }

  /** `contacts_list_from_address_book`: nothing when no chat has totals;
      else one row per contact whose chats are all theirs. */
  method ContactsListFromAddressBook(stats: map<int, Stats>, chs: seq<ChatHandles>, ab: seq<Contact>,
                                     opts: ListOptions, c: TimeUtil.Clock, applyWindow: bool) returns (out: seq<Row>)
    ensures |stats| == 0 ==> out == []
    ensures |stats| != 0 ==>
      Finished(AbRows(Aggregate(ChatEntries(chs, stats, Chats.Indexes(Chats.IdIndex(ab), Chats.DigitsIndex(ab)))), ab), out, opts, c, applyWindow)
  {
    if |stats| == 0 {
      return [];
    }
    var idIndex, digitsIndex := Chats.BuildContactIndexes(ab);
    var acc := AggregateContacts(chs, stats, Chats.Indexes(idIndex, digitsIndex));
    var rows := AbRowsOf(acc, ab);
    out := Finish(rows, opts, c, applyWindow);
  }

  // ---------------------------------------------------------------- groups_list

  /** One row of the group query: a chat with more than one participant,
      its display name and the totals of its messages. */
  datatype GroupStats = GroupStats(chatId: int, displayName: Option<string>, last: Option<int>, first: Option<int>, count: int)

  /** The indexes when there is an address book. */
  function IndexesOf(ab: Option<seq<Contact>>): Option<Chats.Indexes>
  {
    if ab.Some? then Some(Chats.Indexes(Chats.IdIndex(ab.value), Chats.DigitsIndex(ab.value))) else None
  }

  /** `by_chat_handles[chat_id]`, empty for a chat without participants. */
  function PartsOf(parts: map<int, seq<Chats.Participant>>, chatId: int): seq<Chats.Participant>
  {
    if chatId in parts then parts[chatId] else []
  }

  /** What the bucket loop uses of one group chat. */
  datatype GroupEntry = GroupEntry(sig: string, keys: seq<string>, chatId: int, stats: Stats,
                                   names: seq<(Option<string>, Option<int>)>)

  /** A chat's sorted distinct participant keys, their signature, its
      totals, and its `[display_name, last]` pair when the name is not blank. */
  function EntryOf(g: GroupStats, parts: map<int, seq<Chats.Participant>>, ix: Option<Chats.Indexes>, sha1: string -> string): GroupEntry
  {
    var keys := Chats.SortedUniq(Chats.RawKeys(PartsOf(parts, g.chatId), ix));
    var names := if Chats.Named(g.displayName) then [(g.displayName, Some(OrElse(g.last, 0)))] else [];
    GroupEntry(Chats.Signature(keys, sha1), keys, g.chatId, Stats(g.last, g.first, g.count), names)
  }

  function GroupEntries(rows: seq<GroupStats>, parts: map<int, seq<Chats.Participant>>,
                        ix: Option<Chats.Indexes>, sha1: string -> string): (es: seq<GroupEntry>)
    ensures |es| == |rows| && forall i :: 0 <= i < |rows| ==> es[i] == EntryOf(rows[i], parts, ix, sha1)
  {
    seq(|rows|, i requires 0 <= i < |rows| => EntryOf(rows[i], parts, ix, sha1))
  }

  /** The chats that share a signature. */
  datatype GroupBucket = GroupBucket(sig: string, keys: seq<string>, stats: Stats, chatIds: seq<int>,
                                     names: seq<(Option<string>, Option<int>)>)

  /** The position of the bucket of `sig`, `|bs|` when there is none. */
  function SigPos(bs: seq<GroupBucket>, sig: string): (i: nat)
    ensures i <= |bs|
    ensures i < |bs| ==> bs[i].sig == sig
    ensures forall j :: 0 <= j < i ==> bs[j].sig != sig
    decreases |bs|
  {
    if bs == [] || bs[0].sig == sig then 0
    else
      var i := SigPos(bs[1..], sig);
      assert forall j :: 1 <= j < |bs| ==> bs[j] == bs[1..][j - 1];
      i + 1
  }

  lemma SigPosFirst(bs: seq<GroupBucket>, sig: string, i: nat)
    requires i <= |bs| && (i < |bs| ==> bs[i].sig == sig)
    requires forall j :: 0 <= j < i ==> bs[j].sig != sig
    ensures SigPos(bs, sig) == i
  {
  }

  /** `buckets[sig] ||= {…}` with the chat's keys, then the chat added:
      its id and name pair appended, its totals merged. */
  function AddGroup(bs: seq<GroupBucket>, e: GroupEntry): seq<GroupBucket>
  {
    var i := SigPos(bs, e.sig);
    if i < |bs| then bs[i := Grow(bs[i], e)] else bs + [Grow(Start(e), e)]
  }

  /** A new bucket holding the chat's signature and keys. */
  function Start(e: GroupEntry): GroupBucket
  {
    GroupBucket(e.sig, e.keys, NoStats, [], [])
  }

  /** The bucket with one more chat: its id and name pair appended, its totals merged. */
  function Grow(b: GroupBucket, e: GroupEntry): GroupBucket
  {
    GroupBucket(b.sig, b.keys, Merge(b.stats, e.stats), b.chatIds + [e.chatId], b.names + e.names)
  }

  /** The buckets after the chats, in first-met order. */
  function GroupBucketsOf(es: seq<GroupEntry>): seq<GroupBucket>
    decreases |es|
  {
    if es == [] then [] else AddGroup(GroupBucketsOf(es[..|es| - 1]), es[|es| - 1])
  }

  /** The chats of signature `sig`, in order: their ids, totals and names. */
  function SigChats(es: seq<GroupEntry>, sig: string): seq<GroupEntry>
    decreases |es|
  {
    if es == [] then []
    else SigChats(es[..|es| - 1], sig) + (if es[|es| - 1].sig == sig then [es[|es| - 1]] else [])
  }

  function IdsOf(es: seq<GroupEntry>): (ids: seq<int>)
    ensures |ids| == |es| && forall i :: 0 <= i < |es| ==> ids[i] == es[i].chatId
  {
    seq(|es|, i requires 0 <= i < |es| => es[i].chatId)
  }

  function StatsOf(es: seq<GroupEntry>): (ss: seq<Stats>)
    ensures |ss| == |es| && forall i :: 0 <= i < |es| ==> ss[i] == es[i].stats
  {
    seq(|es|, i requires 0 <= i < |es| => es[i].stats)
  }

  function NamesOf(es: seq<GroupEntry>): seq<(Option<string>, Option<int>)>
    decreases |es|
  {
    if es == [] then [] else NamesOf(es[..|es| - 1]) + es[|es| - 1].names
  }

  /** The bucket the chats of `sig` make, `es` being non-empty: the keys of
      the first, the totals of all folded in order, all their ids and names. */
  function BucketFrom(sig: string, es: seq<GroupEntry>): GroupBucket
    requires es != []
  {
    GroupBucket(sig, es[0].keys, Fold(NoStats, StatsOf(es)), IdsOf(es), NamesOf(es))
  }

  lemma BucketFromSnoc(sig: string, es: seq<GroupEntry>, e: GroupEntry)
    requires es != []
    ensures BucketFrom(sig, es + [e]) == Grow(BucketFrom(sig, es), e)
  {
    var t := es + [e];
    assert t[..|t| - 1] == es;
    assert StatsOf(t)[..|es|] == StatsOf(es);
    assert IdsOf(t) == IdsOf(es) + [e.chatId];
  }

  lemma BucketFromOne(e: GroupEntry)
    ensures BucketFrom(e.sig, [e]) == Grow(Start(e), e)
  {
    var ss := StatsOf([e]);
    assert ss == [e.stats];
    assert ss[..0] == [];
    assert Fold(NoStats, ss) == Merge(Fold(NoStats, []), e.stats);
    assert [e][..0] == [];
    assert NamesOf([e]) == NamesOf([]) + e.names;
    assert IdsOf([e]) == [e.chatId];
  }

  lemma GroupBucketsSnoc(es: seq<GroupEntry>)
    requires es != []
    ensures GroupBucketsOf(es) == AddGroup(GroupBucketsOf(es[..|es| - 1]), es[|es| - 1])
  {
  }

  lemma SigChatsSnoc(es: seq<GroupEntry>, sig: string)
    requires es != []
    ensures SigChats(es, sig) == SigChats(es[..|es| - 1], sig) + (if es[|es| - 1].sig == sig then [es[|es| - 1]] else [])
  {
  }

  lemma {:induction false} SigChatsSig(es: seq<GroupEntry>, sig: string)
    ensures forall e :: e in SigChats(es, sig) ==> e in es && e.sig == sig
    ensures SigChats(es, sig) == [] <==> forall i :: 0 <= i < |es| ==> es[i].sig != sig
    decreases |es|
  {
    if es != [] {
      var p := es[..|es| - 1];
      SigChatsSig(p, sig);
      SigChatsSnoc(es, sig);
      assert forall i :: 0 <= i < |p| ==> es[i] == p[i];
    }
  }

  predicate HasSig(bs: seq<GroupBucket>, sig: string) { SigPos(bs, sig) < |bs| }

  /** Adding a chat puts it into the bucket of its signature. */
  lemma AddGroupSame(bs: seq<GroupBucket>, e: GroupEntry)
    ensures var r := AddGroup(bs, e); var i := SigPos(bs, e.sig);
      HasSig(r, e.sig) && SigPos(r, e.sig) == i &&
      r[i] == (if i < |bs| then Grow(bs[i], e) else Grow(Start(e), e))
  {
    var r := AddGroup(bs, e);
    var i := SigPos(bs, e.sig);
    SigPosFirst(r, e.sig, i);
  }

  /** Adding a chat leaves the buckets of the other signatures as they were. */
  lemma AddGroupOther(bs: seq<GroupBucket>, e: GroupEntry, sig: string)
    requires sig != e.sig
    ensures var r := AddGroup(bs, e);
      HasSig(r, sig) == HasSig(bs, sig) && (HasSig(bs, sig) ==> r[SigPos(r, sig)] == bs[SigPos(bs, sig)])
  {
    var r := AddGroup(bs, e);
    var k := SigPos(bs, sig);
    if k < |bs| {
      assert r[k] == bs[k];
      SigPosFirst(r, sig, k);
    } else {
      SigPosFirst(r, sig, |r|);
    }
  }

  /** A bucket of `sig` exists exactly when some chat has that signature,
      and it is the bucket the chats of `sig` make: the first one's keys,
      the totals of all of them and all their ids and names, in order. */
  lemma {:induction false} GroupBucketIsChats(es: seq<GroupEntry>, sig: string)
    ensures HasSig(GroupBucketsOf(es), sig) <==> SigChats(es, sig) != []
    ensures HasSig(GroupBucketsOf(es), sig) ==>
      GroupBucketsOf(es)[SigPos(GroupBucketsOf(es), sig)] == BucketFrom(sig, SigChats(es, sig))
    decreases |es|
  {
    if es != [] {
      var p, e := es[..|es| - 1], es[|es| - 1];
      GroupBucketIsChats(p, sig);
      GroupBucketsSnoc(es);
      SigChatsSnoc(es, sig);
      var bs := GroupBucketsOf(p);
      if e.sig == sig {
        AddGroupSame(bs, e);
        if HasSig(bs, sig) {
          BucketFromSnoc(sig, SigChats(p, sig), e);
        } else {
          BucketFromOne(e);
        }
      } else {
        assert SigChats(es, sig) == SigChats(p, sig);
        AddGroupOther(bs, e, sig);
      }
    }
  }

  /** Chats with the same participant keys, in whatever order and
      repetition, share a signature and so a bucket. */
  lemma SameParticipantsSameBucket(rows: seq<GroupStats>, parts: map<int, seq<Chats.Participant>>,
                                    ix: Option<Chats.Indexes>, sha1: string -> string, i: nat, j: nat)
    requires i < |rows| && j < |rows|
    requires forall x :: x in Chats.RawKeys(PartsOf(parts, rows[i].chatId), ix) <==> x in Chats.RawKeys(PartsOf(parts, rows[j].chatId), ix)
    ensures var es := GroupEntries(rows, parts, ix, sha1); var bs := GroupBucketsOf(es);
      es[i].sig == es[j].sig && HasSig(bs, es[i].sig) &&
      rows[i].chatId in bs[SigPos(bs, es[i].sig)].chatIds && rows[j].chatId in bs[SigPos(bs, es[i].sig)].chatIds
  {
    var es := GroupEntries(rows, parts, ix, sha1);
    Chats.SignatureOfSameKeys(Chats.RawKeys(PartsOf(parts, rows[i].chatId), ix), Chats.RawKeys(PartsOf(parts, rows[j].chatId), ix), sha1);
    var sig := es[i].sig;
    InSigChats(es, sig, i);
    InSigChats(es, sig, j);
    GroupBucketIsChats(es, sig);
  }

  /** A chat is among the chats of its signature. */
  lemma {:induction false} InSigChats(es: seq<GroupEntry>, sig: string, i: nat)
    requires i < |es| && es[i].sig == sig
    ensures es[i].chatId in IdsOf(SigChats(es, sig))
    decreases |es|
  {
    var p := es[..|es| - 1];
    SigChatsSnoc(es, sig);
    var sp := SigChats(p, sig);
    if i < |p| {
      assert es[i] == p[i];
      InSigChats(p, sig, i);
      var k :| 0 <= k < |sp| && IdsOf(sp)[k] == es[i].chatId;
      assert IdsOf(SigChats(es, sig))[k] == es[i].chatId;
    } else {
      assert IdsOf(SigChats(es, sig))[|sp|] == es[i].chatId;
    }
  }

  /** The position of the bucket of `sig`, found by walking the buckets. */
  method FindSig(bs: seq<GroupBucket>, sig: string) returns (i: nat)
    ensures i == SigPos(bs, sig)
  {
    i := 0;
    while i < |bs| && bs[i].sig != sig
      invariant 0 <= i <= |bs|
      invariant forall j :: 0 <= j < i ==> bs[j].sig != sig
    {
      i := i + 1;
    }
    SigPosFirst(bs, sig, i);
  }

  /** The bucket loop of `groups_list`. */
  method BucketGroups(es: seq<GroupEntry>) returns (bs: seq<GroupBucket>)
    ensures bs == GroupBucketsOf(es)
  {
    bs := [];
    var n := 0;
    while n < |es|
      invariant 0 <= n <= |es|
      invariant bs == GroupBucketsOf(es[..n])
    {
      assert es[..n + 1][..n] == es[..n];
      var e := es[n];
      var i := FindSig(bs, e.sig);
      var b := if i < |bs| then bs[i] else Start(e);
      b := Grow(b, e);
      if i < |bs| {
        bs := bs[i := b];
      } else {
        bs := bs + [b];
      }
      n := n + 1;
    }
    assert es[..n] == es;
  }

  /** The row of a bucket: the chosen display name of its chats, else the
      name built from its keys; the id `grp:<sig>`. */
  ghost predicate CoalescedRow(b: GroupBucket, ab: Option<seq<Contact>>, r: Row)
  {
    r == Row(r.name, "grp:" + b.sig, b.stats.last, b.stats.first, b.stats.count, GroupKind) &&
    ((Chats.ChosenFromPairs(b.names, Some(r.name))) ||
     (Chats.ChosenFromPairs(b.names, None) && r.name == Chats.BuildGroupDisplayName(b.keys, ab)))
  }

  method CoalescedRowOf(b: GroupBucket, ab: Option<seq<Contact>>) returns (r: Row)
    ensures CoalescedRow(b, ab, r)
  {
    var chosen := Chats.ChooseFromPairs(b.names);
    var name := if chosen.Some? then chosen.value else Chats.BuildGroupDisplayName(b.keys, ab);
    r := Row(name, "grp:" + b.sig, b.stats.last, b.stats.first, b.stats.count, GroupKind);
  }

  ghost predicate CoalescedRows(bs: seq<GroupBucket>, ab: Option<seq<Contact>>, rows: seq<Row>)
  {
    |rows| == |bs| && forall i :: 0 <= i < |bs| ==> CoalescedRow(bs[i], ab, rows[i])
  }

  lemma CoalescedRowsSnoc(bs: seq<GroupBucket>, ab: Option<seq<Contact>>, rows: seq<Row>, i: nat, r: Row)
    requires i < |bs| && CoalescedRows(bs[..i], ab, rows) && CoalescedRow(bs[i], ab, r)
    ensures CoalescedRows(bs[..i + 1], ab, rows + [r])
  {
    forall k | 0 <= k < i + 1 ensures CoalescedRow(bs[..i + 1][k], ab, (rows + [r])[k]) {
      if k < i {
        CoalescedRowMoved(bs[..i][k], bs[..i + 1][k], ab, rows[k], (rows + [r])[k]);
      } else {
        CoalescedRowMoved(bs[i], bs[..i + 1][k], ab, r, (rows + [r])[k]);
      }
    }
  }

  lemma CoalescedRowMoved(b: GroupBucket, b': GroupBucket, ab: Option<seq<Contact>>, r: Row, r': Row)
    requires CoalescedRow(b, ab, r) && b' == b && r' == r
    ensures CoalescedRow(b', ab, r')
  {
  }

  /** The rows of the buckets, in bucket order. */
  method CoalescedGroups(bs: seq<GroupBucket>, ab: Option<seq<Contact>>) returns (rows: seq<Row>)
    ensures CoalescedRows(bs, ab, rows)
  {
    rows := [];
    var i := 0;
    while i < |bs|
      invariant 0 <= i <= |bs|
      invariant CoalescedRows(bs[..i], ab, rows)
    {
      var r := CoalescedRowOf(bs[i], ab);
      CoalescedRowsSnoc(bs, ab, rows, i, r);
      rows := rows + [r];
      i := i + 1;
    }
    assert bs[..i] == bs;
  }

  /** The row of one chat when not coalescing: its non-blank display name,
      else the name built from its sorted distinct canonical handles; the id `g:<chat id>`. */
  function PlainGroupRow(g: GroupStats, parts: map<int, seq<Chats.Participant>>, ab: Option<seq<Contact>>): Row
  {
    Row(PlainGroupName(g, parts, ab), "g:" + IntToString(g.chatId), g.last, g.first, g.count, GroupKind)
  }

  function PlainGroupName(g: GroupStats, parts: map<int, seq<Chats.Participant>>, ab: Option<seq<Contact>>): string
  {
    if Chats.Named(g.displayName) then g.displayName.value
    else Chats.BuildGroupDisplayName(Chats.SortedUniq(Chats.RawKeys(PartsOf(parts, g.chatId), None)), ab)
  }

  function PlainGroupRows(rows: seq<GroupStats>, parts: map<int, seq<Chats.Participant>>, ab: Option<seq<Contact>>): (gs: seq<Row>)
    ensures |gs| == |rows| && forall i :: 0 <= i < |rows| ==> gs[i] == PlainGroupRow(rows[i], parts, ab)
  {
    seq(|rows|, i requires 0 <= i < |rows| => PlainGroupRow(rows[i], parts, ab))
  }

  /** Without coalescing, a named chat keeps its name and an unnamed one
      is named after its participants; distinct chats get distinct ids. */
  lemma PlainGroupRowNamed(g: GroupStats, h: GroupStats, parts: map<int, seq<Chats.Participant>>, ab: Option<seq<Contact>>)
    ensures Chats.Named(g.displayName) ==> PlainGroupRow(g, parts, ab).name == g.displayName.value
    ensures PlainGroupRow(g, parts, ab).id == PlainGroupRow(h, parts, ab).id <==> g.chatId == h.chatId
  {
    var a, b := IntToString(g.chatId), IntToString(h.chatId);
    if "g:" + a == "g:" + b {
      assert a == ("g:" + a)[2..] && b == ("g:" + b)[2..];
      IntToStringInjective(g.chatId, h.chatId);
    }
  }

  method PlainGroups(rows: seq<GroupStats>, parts: map<int, seq<Chats.Participant>>, ab: Option<seq<Contact>>) returns (groups: seq<Row>)
    ensures groups == PlainGroupRows(rows, parts, ab)
  {
    groups := [];
    var i := 0;
    while i < |rows|
      invariant 0 <= i <= |rows|
      invariant groups == PlainGroupRows(rows[..i], parts, ab)
    {
      assert rows[..i + 1] == rows[..i] + [rows[i]];
      var r := PlainGroupRow(rows[i], parts, ab);
      groups := groups + [r];
      i := i + 1;
    }
    assert rows[..i] == rows;
  }

  /** `groups_list`: one row per signature when coalescing, else one per
      chat; then sorted, cut to the window and to the limit. */
  method GroupsList(rows: seq<GroupStats>, parts: map<int, seq<Chats.Participant>>, ab: Option<seq<Contact>>,
                    coalesce: bool, opts: ListOptions, c: TimeUtil.Clock, sha1: string -> string,
                    applyWindow: bool) returns (out: seq<Row>)
    ensures coalesce ==> exists groups: seq<Row> ::
      CoalescedRows(GroupBucketsOf(GroupEntries(rows, parts, IndexesOf(ab), sha1)), ab, groups) &&
      Finished(groups, out, opts, c, applyWindow)
    ensures !coalesce ==> Finished(PlainGroupRows(rows, parts, ab), out, opts, c, applyWindow)
  {
    var groups: seq<Row>;
    if coalesce {
      var ix: Option<Chats.Indexes> := None;
      if ab.Some? {
        var idIndex, digitsIndex := Chats.BuildContactIndexes(ab.value);
        ix := Some(Chats.Indexes(idIndex, digitsIndex));
      }
      var bs := BucketGroups(GroupEntries(rows, parts, ix, sha1));
      groups := CoalescedGroups(bs, ab);
      out := Finish(groups, opts, c, applyWindow);
      assert CoalescedRows(GroupBucketsOf(GroupEntries(rows, parts, IndexesOf(ab), sha1)), ab, groups);
    } else {
      groups := PlainGroups(rows, parts, ab);
      out := Finish(groups, opts, c, applyWindow);
    }
  }
}
