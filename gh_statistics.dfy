/**
 A model of the contributor statistics script: it walks the issues its query
 returns, in the order the query returns them, counts every issue, remembers
 every author it has seen, and credits each author once, to the (year, month)
 of that author's first issue in that order. The credited counts are then
 emitted in ascending (year, month) order.
 */
module GhStatistics {

  /** One issue, reduced to what the loop reads: its creation month and its author's login. */
  datatype Issue = Issue(year: int, month: int, user: string)

  /** A (year, month) bucket, the key of the counter. */
  type Period = (int, int)

  function PeriodOf(x: Issue): Period
  {
    (x.year, x.month)
  }

  // ---------------------------------------------------------------------------
  // Reference meaning: each distinct author, credited to the month of their
  // first issue.
  // ---------------------------------------------------------------------------

  /** The logins of all authors of the issues in `s`. */
  function Logins(s: seq<Issue>): set<string>
  {
    set i | 0 <= i < |s| :: s[i].user
  }

  /** The position of `u`'s first issue in `s`. */
  function FirstIndex(s: seq<Issue>, u: string): (r: nat)
    requires u in Logins(s)
    ensures r < |s| && s[r].user == u
    ensures forall j :: 0 <= j < r ==> s[j].user != u
  {
    if s[0].user == u then 0
    else
      assert u in Logins(s[1..]) by {
        var i :| 0 <= i < |s| && s[i].user == u;
        assert s[1..][i - 1] == s[i];
      }
      FirstIndex(s[1..], u) + 1
  }

  /** The month to which author `u` is credited. */
  function FirstPeriod(s: seq<Issue>, u: string): Period
    requires u in Logins(s)
  {
    PeriodOf(s[FirstIndex(s, u)])
  }

  /** The authors whose first issue in `s` was created in period `p`. */
  function NewUsersIn(s: seq<Issue>, p: Period): set<string>
  {
    set u | u in Logins(s) && FirstPeriod(s, u) == p
  }

  /** The months in which at least one author made their first issue. */
  function FirstPeriods(s: seq<Issue>): set<Period>
  {
    set u | u in Logins(s) :: FirstPeriod(s, u)
  }

  /**
   The counter the script should end with: every month in which some author
   made their first issue, mapped to the number of such authors.
   */
  function FirstAppearance(s: seq<Issue>): (r: map<Period, nat>)
    ensures forall p :: p in r ==> 1 <= r[p] && exists i :: 0 <= i < |s| && PeriodOf(s[i]) == p
  {
    var r := map p | p in FirstPeriods(s) :: |NewUsersIn(s, p)|;
    assert forall p :: p in r ==> 1 <= r[p] by {
      forall p | p in r ensures 1 <= r[p] {
        var u :| u in Logins(s) && FirstPeriod(s, u) == p;
        assert u in NewUsersIn(s, p);
      }
    }
    r
  }

  /** The number of issues in `s` created in period `p`. */
  function IssuesIn(s: seq<Issue>, p: Period): nat
  {
    if s == [] then 0
    else IssuesIn(s[..|s| - 1], p) + (if PeriodOf(s[|s| - 1]) == p then 1 else 0)
  }

  /** `Counter[p] += 1` on a Python Counter, where a missing key reads as 0. */
  function Bump(m: map<Period, nat>, p: Period): (r: map<Period, nat>)
    ensures r.Keys == m.Keys + {p}
    ensures r[p] == (if p in m then m[p] else 0) + 1
    ensures forall q :: q in m && q != p ==> r[q] == m[q]
  {
    m[p := if p in m then m[p] + 1 else 1]
  }

  // ---------------------------------------------------------------------------
  // Sum of the counter's values.
  // ---------------------------------------------------------------------------

  ghost function PickKey(m: map<Period, nat>): (k: Period)
    requires m != map[]
    ensures k in m
  {
    var k :| k in m; k
  }

  ghost function MapSum(m: map<Period, nat>): nat
    decreases |m|
  {
    if m == map[] then 0
    else
      var k := PickKey(m);
      assert (m - {k}).Keys == m.Keys - {k};
      m[k] + MapSum(m - {k})
  }

  /** The sum does not depend on which key is taken out first. */
  lemma {:induction false} MapSumRemove(m: map<Period, nat>, k: Period)
    requires k in m
    ensures MapSum(m) == m[k] + MapSum(m - {k})
    decreases |m|
  {
    var k' := PickKey(m);
    if k' != k {
      var m1 := m - {k'};
      assert m1.Keys == m.Keys - {k'};
      MapSumRemove(m1, k);
      var m2 := m - {k};
      assert m2.Keys == m.Keys - {k};
      MapSumRemove(m2, k');
      assert m1 - {k} == m2 - {k'};
    }
  }

  /** One increment of the counter adds exactly one to the sum of its values. */
  lemma {:induction false} MapSumBump(m: map<Period, nat>, p: Period)
    ensures MapSum(Bump(m, p)) == MapSum(m) + 1
  {
    var b := Bump(m, p);
    MapSumRemove(b, p);
    if p in m {
      MapSumRemove(m, p);
      assert b - {p} == m - {p};
    } else {
      assert b - {p} == m;
    }
  }

  // ---------------------------------------------------------------------------
  // How the reference meaning changes when one more issue is processed.
  // ---------------------------------------------------------------------------

  lemma LoginsSnoc(s: seq<Issue>, x: Issue)
    ensures Logins(s + [x]) == Logins(s) + {x.user}
  {
    var t := s + [x];
    assert t[|s|] == x;
    forall u | u in Logins(s) ensures u in Logins(t) {
      var i :| 0 <= i < |s| && s[i].user == u;
      assert t[i] == s[i];
    }
  }

  lemma FirstIndexSnoc(s: seq<Issue>, x: Issue, u: string)
    requires u in Logins(s)
    ensures u in Logins(s + [x]) && FirstIndex(s + [x], u) == FirstIndex(s, u)
  {
    LoginsSnoc(s, x);
    var t := s + [x];
    forall j | 0 <= j < |s| ensures t[j] == s[j] { }
    var a, b := FirstIndex(s, u), FirstIndex(t, u);
    assert t[a] == s[a];
    assert b <= a;
    assert t[b] == s[b];
  }

  lemma FirstIndexNewUser(s: seq<Issue>, x: Issue)
    requires x.user !in Logins(s)
    ensures x.user in Logins(s + [x]) && FirstIndex(s + [x], x.user) == |s|
  {
    LoginsSnoc(s, x);
    var t := s + [x];
    forall j | 0 <= j < |s| ensures t[j].user != x.user {
      assert t[j] == s[j];
      assert s[j].user in Logins(s);
    }
    assert t[|s|] == x;
  }

  /** A later issue never changes the month an author is credited to. */
  lemma FirstPeriodSnoc(s: seq<Issue>, x: Issue, u: string)
    requires u in Logins(s)
    ensures u in Logins(s + [x]) && FirstPeriod(s + [x], u) == FirstPeriod(s, u)
  {
    FirstIndexSnoc(s, x, u);
    assert (s + [x])[FirstIndex(s, u)] == s[FirstIndex(s, u)];
  }

  /** The authors newly credited to `p` grow by the issue's author exactly when that author is new and the issue is in `p`. */
  lemma NewUsersSnoc(s: seq<Issue>, x: Issue, p: Period)
    ensures NewUsersIn(s + [x], p) ==
      NewUsersIn(s, p) + (if x.user !in Logins(s) && PeriodOf(x) == p then {x.user} else {})
  {
    var t := s + [x];
    LoginsSnoc(s, x);
    forall u | u in Logins(s) ensures FirstPeriod(t, u) == FirstPeriod(s, u) {
      FirstPeriodSnoc(s, x, u);
    }
    if x.user !in Logins(s) {
      FirstIndexNewUser(s, x);
      assert t[|s|] == x;
    }
  }

  /** The credited months grow by the issue's month exactly when its author is new. */
  lemma FirstPeriodsSnoc(s: seq<Issue>, x: Issue)
    ensures FirstPeriods(s + [x]) ==
      FirstPeriods(s) + (if x.user !in Logins(s) then {PeriodOf(x)} else {})
  {
    var t := s + [x];
    LoginsSnoc(s, x);
    forall u | u in Logins(s) ensures FirstPeriod(t, u) == FirstPeriod(s, u) {
      FirstPeriodSnoc(s, x, u);
    }
    if x.user !in Logins(s) {
      FirstIndexNewUser(s, x);
      assert t[|s|] == x;
      assert FirstPeriod(t, x.user) == PeriodOf(x);
    }
  }

  /** What an entry of the reference counter is. */
  lemma FirstAppearanceAt(s: seq<Issue>, p: Period)
    ensures p in FirstAppearance(s) <==> p in FirstPeriods(s)
    ensures p in FirstAppearance(s) ==> FirstAppearance(s)[p] == |NewUsersIn(s, p)|
    ensures p !in FirstAppearance(s) ==> NewUsersIn(s, p) == {}
  {
  }

  /** One entry of the reference counter after one more issue. */
  lemma FirstAppearanceSnocAt(s: seq<Issue>, x: Issue, p: Period)
    ensures var isNew := x.user !in Logins(s) && PeriodOf(x) == p;
      && (p in FirstAppearance(s + [x]) <==> p in FirstAppearance(s) || isNew)
      && (p in FirstAppearance(s + [x]) ==>
            FirstAppearance(s + [x])[p] ==
              (if p in FirstAppearance(s) then FirstAppearance(s)[p] else 0) + (if isNew then 1 else 0))
  {
    var t := s + [x];
    FirstPeriodsSnoc(s, x);
    FirstAppearanceAt(s, p);
    FirstAppearanceAt(t, p);
    NewUsersSnoc(s, x, p);
    if x.user !in Logins(s) && PeriodOf(x) == p {
      assert x.user !in NewUsersIn(s, p);
    }
  }

  /**
   Processing one more issue: an author seen before leaves the counter as it
   was; a new author adds one to the month of this issue.
   */
  lemma FirstAppearanceSnoc(s: seq<Issue>, x: Issue)
    ensures x.user in Logins(s) ==> FirstAppearance(s + [x]) == FirstAppearance(s)
    ensures x.user !in Logins(s) ==> FirstAppearance(s + [x]) == Bump(FirstAppearance(s), PeriodOf(x))
  {
    var before, after := FirstAppearance(s), FirstAppearance(s + [x]);
    var expected := if x.user in Logins(s) then before else Bump(before, PeriodOf(x));
    forall p ensures (p in after <==> p in expected) && (p in after ==> after[p] == expected[p]) {
      FirstAppearanceSnocAt(s, x, p);
    }
    assert after == expected;
  }

  // ---------------------------------------------------------------------------
  // Properties of the final counter.
  // ---------------------------------------------------------------------------

  lemma {:induction false} LoginsBound(s: seq<Issue>)
    ensures |Logins(s)| <= |s|
    decreases |s|
  {
    if s != [] {
      var s' := s[..|s| - 1];
      assert s == s' + [s[|s| - 1]];
      LoginsSnoc(s', s[|s| - 1]);
      LoginsBound(s');
    }
  }

  /** One loop step keeps the counter's sum equal to the number of authors seen. */
  lemma SumStep(before: map<Period, nat>, after: map<Period, nat>,
                seen: set<string>, seen': set<string>, u: string, p: Period)
    requires MapSum(before) == |seen|
    requires seen' == seen + {u}
    requires u in seen ==> after == before
    requires u !in seen ==> after == Bump(before, p)
    ensures MapSum(after) == |seen'|
  {
    if u !in seen {
      MapSumBump(before, p);
      assert |seen'| == |seen| + 1;
    } else {
      assert seen' == seen;
    }
  }

  /** Each distinct author is credited exactly once: the counts add up to the number of authors. */
  lemma {:induction false} FirstAppearanceSum(s: seq<Issue>)
    ensures MapSum(FirstAppearance(s)) == |Logins(s)|
    decreases |s|
  {
    if s == [] {
      assert FirstAppearance(s) == map[];
    } else {
      var s', x := s[..|s| - 1], s[|s| - 1];
      assert s == s' + [x];
      FirstAppearanceSum(s');
      FirstAppearanceSnoc(s', x);
      LoginsSnoc(s', x);
      SumStep(FirstAppearance(s'), FirstAppearance(s), Logins(s'), Logins(s), x.user, PeriodOf(x));
    }
  }

  /** The counts add up to at most the number of issues processed. */
  lemma CounterSumBounded(s: seq<Issue>)
    ensures MapSum(FirstAppearance(s)) <= |s|
  {
    FirstAppearanceSum(s);
    LoginsBound(s);
  }

  /** A month is credited with no more authors than it has issues. */
  lemma {:induction false} MonthCountBounded(s: seq<Issue>, p: Period)
    ensures |NewUsersIn(s, p)| <= IssuesIn(s, p)
    ensures p in FirstAppearance(s) ==> FirstAppearance(s)[p] <= IssuesIn(s, p)
    decreases |s|
  {
    if s != [] {
      var s', x := s[..|s| - 1], s[|s| - 1];
      assert s == s' + [x];
      MonthCountBounded(s', p);
      NewUsersSnoc(s', x, p);
    }
  }

  // ---------------------------------------------------------------------------
  // The loop of `main`.
  // ---------------------------------------------------------------------------

  /**
   The per-issue loop: `seenUsers` collects authors, `counter` credits each
   new author to the month of the issue, `totalCount` counts every issue.
   */
  method CountContributors(issues: seq<Issue>)
    returns (seenUsers: set<string>, counter: map<Period, nat>, totalCount: nat)
    ensures totalCount == |issues|
    ensures seenUsers == Logins(issues)
    ensures counter == FirstAppearance(issues)
    ensures MapSum(counter) == |seenUsers| <= totalCount
  {
    seenUsers := {};
    counter := map[];
    totalCount := 0;
    assert FirstAppearance([]) == map[];
    for i := 0 to |issues|
      invariant totalCount == i
      invariant seenUsers == Logins(issues[..i])
      invariant counter == FirstAppearance(issues[..i])
    {
      var issue := issues[i];
      var user := issue.user;
      assert issues[..i + 1] == issues[..i] + [issue];
      LoginsSnoc(issues[..i], issue);
      FirstAppearanceSnoc(issues[..i], issue);
      if user !in seenUsers {
        counter := Bump(counter, (issue.year, issue.month));
        seenUsers := seenUsers + {user};
      }
      totalCount := totalCount + 1;
    }
    assert issues[..|issues|] == issues;
    FirstAppearanceSum(issues);
    LoginsBound(issues);
  }

  // ---------------------------------------------------------------------------
  // Emission of the counter's items, sorted by key.
  // ---------------------------------------------------------------------------

  /** Python's ordering of (year, month) tuples. */
  predicate PeriodLess(a: Period, b: Period)
  {
    a.0 < b.0 || (a.0 == b.0 && a.1 < b.1)
  }

  /** The tuple order is a strict total order on months. */
  lemma PeriodLessStrictTotal(a: Period, b: Period, c: Period)
    ensures !PeriodLess(a, a)
    ensures PeriodLess(a, b) && PeriodLess(b, c) ==> PeriodLess(a, c)
    ensures a != b ==> PeriodLess(a, b) || PeriodLess(b, a)
  {
  }

  lemma {:induction false} MinPeriodExists(ks: set<Period>)
    requires ks != {}
    ensures exists k :: k in ks && forall k' :: k' in ks ==> !PeriodLess(k', k)
    decreases |ks|
  {
    var a :| a in ks;
    if ks != {a} {
      MinPeriodExists(ks - {a});
      var b :| b in ks - {a} && forall k' :: k' in ks - {a} ==> !PeriodLess(k', b);
      if PeriodLess(a, b) {
        forall k' | k' in ks ensures !PeriodLess(k', a) {
          if k' != a {
            assert k' in ks - {a};
          }
        }
      } else {
        assert forall k' :: k' in ks ==> !PeriodLess(k', b);
      }
    }
  }

  /** The smallest key of a non-empty counter. */
  function MinKey(m: map<Period, nat>): (k: Period)
    requires m != map[]
    ensures k in m && forall k' :: k' in m && k' != k ==> PeriodLess(k, k')
  {
    MinPeriodExists(m.Keys);
    var k :| k in m && forall k' :: k' in m ==> !PeriodLess(k', k);
    k
  }

  /** The keys of a sequence of counter items. */
  function ItemKeys(items: seq<(Period, nat)>): set<Period>
  {
    set i | 0 <= i < |items| :: items[i].0
  }

  lemma ItemKeysCons(item: (Period, nat), items: seq<(Period, nat)>)
    ensures ItemKeys([item] + items) == {item.0} + ItemKeys(items)
  {
    var r := [item] + items;
    assert r[0] == item;
    forall p | p in ItemKeys(items) ensures p in ItemKeys(r) {
      var i :| 0 <= i < |items| && items[i].0 == p;
      assert r[i + 1] == items[i];
    }
  }

  /** `sorted(counter.items(), key=lambda x: x[0])`: repeatedly emit the entry with the smallest key. */
  function SortedItems(m: map<Period, nat>): seq<(Period, nat)>
    decreases |m|
  {
    if m == map[] then []
    else
      var k := MinKey(m);
      assert |(m - {k}).Keys| == |m.Keys| - 1;
      [(k, m[k])] + SortedItems(m - {k})
  }

  /** The emitted items carry exactly the counter's keys, as many items as keys. */
  lemma {:induction false} SortedItemsKeys(m: map<Period, nat>)
    ensures |SortedItems(m)| == |m|
    ensures ItemKeys(SortedItems(m)) == m.Keys
    decreases |m|
  {
    if m != map[] {
      var k := MinKey(m);
      var rest := m - {k};
      assert rest.Keys == m.Keys - {k};
      assert |rest.Keys| == |m.Keys| - 1;
      SortedItemsKeys(rest);
      ItemKeysCons((k, m[k]), SortedItems(rest));
      assert {k} + rest.Keys == m.Keys;
    }
  }

  /** Every emitted item is an entry of the counter: its key with that key's count. */
  lemma {:induction false} SortedItemsEntries(m: map<Period, nat>)
    ensures forall i :: 0 <= i < |SortedItems(m)| ==>
      SortedItems(m)[i].0 in m && SortedItems(m)[i].1 == m[SortedItems(m)[i].0]
    decreases |m|
  {
    if m != map[] {
      var k := MinKey(m);
      var rest := m - {k};
      assert |rest.Keys| == |m.Keys| - 1;
      SortedItemsEntries(rest);
      var tail, r := SortedItems(rest), SortedItems(m);
      assert r == [(k, m[k])] + tail;
      forall i | 1 <= i < |r| ensures r[i].0 in m && r[i].1 == m[r[i].0] {
        assert r[i] == tail[i - 1];
      }
    }
  }

  /** The emitted items are strictly ascending by (year, month), so no key repeats. */
  lemma {:induction false} SortedItemsAscending(m: map<Period, nat>)
    ensures forall i, j :: 0 <= i < j < |SortedItems(m)| ==>
      PeriodLess(SortedItems(m)[i].0, SortedItems(m)[j].0)
    decreases |m|
  {
    if m != map[] {
      var k := MinKey(m);
      var rest := m - {k};
      assert |rest.Keys| == |m.Keys| - 1;
      SortedItemsAscending(rest);
      SortedItemsEntries(rest);
      var tail, r := SortedItems(rest), SortedItems(m);
      assert r == [(k, m[k])] + tail;
      forall i, j | 0 <= i < j < |r| ensures PeriodLess(r[i].0, r[j].0) {
        assert r[j] == tail[j - 1];
        if i > 0 {
          assert r[i] == tail[i - 1];
        }
      }
    }
  }

  function ItemsSum(items: seq<(Period, nat)>): nat
  {
    if items == [] then 0 else items[0].1 + ItemsSum(items[1..])
  }

  /** The emitted counts add up to the sum of the counter's values. */
  lemma {:induction false} SortedItemsSum(m: map<Period, nat>)
    ensures ItemsSum(SortedItems(m)) == MapSum(m)
    decreases |m|
  {
    if m != map[] {
      var k := MinKey(m);
      var rest := m - {k};
      assert rest.Keys == m.Keys - {k};
      SortedItemsSum(rest);
      MapSumRemove(m, k);
    }
  }

  /**
   The whole of `main` after the query: the number of issues printed first,
   then the counter's items in ascending month order.
   */
  method Statistics(issues: seq<Issue>) returns (totalCount: nat, items: seq<(Period, nat)>)
    ensures totalCount == |issues|
    ensures forall i, j :: 0 <= i < j < |items| ==> PeriodLess(items[i].0, items[j].0)
    ensures ItemKeys(items) == FirstPeriods(issues)
    ensures forall i :: 0 <= i < |items| ==> 1 <= items[i].1 == |NewUsersIn(issues, items[i].0)|
    ensures ItemsSum(items) == |Logins(issues)| <= totalCount
  {
    var seenUsers, counter;
    seenUsers, counter, totalCount := CountContributors(issues);
    items := SortedItems(counter);
    SortedItemsKeys(counter);
    SortedItemsEntries(counter);
    SortedItemsAscending(counter);
    SortedItemsSum(counter);
    forall p ensures p in counter <==> p in FirstPeriods(issues) {
      FirstAppearanceAt(issues, p);
    }
    forall i | 0 <= i < |items| ensures 1 <= items[i].1 == |NewUsersIn(issues, items[i].0)| {
      FirstAppearanceAt(issues, items[i].0);
    }
  }
}
