/**
  Keyset paging over a project's memories in `(created_at, id)` order, and the page-size halving loop
  of the source snapshot: following `next_after` visits the window's active memories exactly once.
 */
module CurationListing {
  import opened Base
  import opened CurationStore

  /** A forgotten memory keeps its entry here, so that histories can still name it. */
  datatype Status = Active | Archived | Forgotten

  datatype Memory = Memory(project: ProjectId, createdAt: Time, status: Status, size: nat)

  type Memories = map<MemoryId, Memory>

  predicate After(bound: Option<Key>, k: Key) {
    bound.None? || Less(bound.value, k)
  }

  ghost function KeyOf(m: Memories, id: MemoryId): Key
    requires id in m
  {
    Key(m[id].createdAt, id)
  }

  /** The rows the listing query selects, archived ones included. */
  ghost function Rows(m: Memories, project: ProjectId, window: Window, after: Option<Key>): set<Key> {
    set id | id in m && m[id].project == project && m[id].status != Forgotten
             && window.Contains(m[id].createdAt) && After(after, KeyOf(m, id)) :: KeyOf(m, id)
  }

  ghost predicate Ascending(s: seq<Key>) {
    forall i, j :: 0 <= i < j < |s| ==> Less(s[i], s[j])
  }

  ghost predicate IsLeast(k: Key, s: set<Key>) {
    k in s && forall x :: x in s ==> x == k || Less(k, x)
  }

  lemma {:induction false} LeastExists(s: set<Key>)
    requires s != {}
    ensures exists k :: IsLeast(k, s)
  {
    var x :| x in s;
    if s == {x} {
      assert IsLeast(x, s);
    } else {
      LeastExists(s - {x});
      var k :| IsLeast(k, s - {x});
      var least := if Less(x, k) then x else k;
      forall y | y in s ensures y == least || Less(least, y) {
        if y != x { assert y in s - {x}; }
      }
      assert IsLeast(least, s);
    }
  }

  ghost function Least(s: set<Key>): (k: Key)
    requires s != {}
    ensures IsLeast(k, s)
  {
    LeastExists(s);
    var k :| IsLeast(k, s); k
  }

  lemma PrependLeast(k: Key, rest: seq<Key>, s: set<Key>)
    requires IsLeast(k, s) && Ascending(rest) && Elements(rest) == s - {k} && |rest| == |s - {k}|
    ensures Ascending([k] + rest) && Elements([k] + rest) == s && |[k] + rest| == |s|
  {
    assert forall i :: 0 <= i < |rest| ==> rest[i] in Elements(rest);
    assert Elements([k] + rest) == {k} + Elements(rest);
  }

  /** `ORDER BY created_at ASC, id ASC`. */
  ghost function Sorted(s: set<Key>): (r: seq<Key>)
    ensures Ascending(r) && Elements(r) == s && |r| == |s|
  {
    if s == {} then []
    else
      var k := Least(s);
      var rest := Sorted(s - {k});
      PrependLeast(k, rest, s);
      [k] + rest
  }

  /** An ascending sequence is determined by its elements. */
  lemma {:induction false} AscendingUnique(a: seq<Key>, b: seq<Key>)
    requires Ascending(a) && Ascending(b) && Elements(a) == Elements(b)
    ensures a == b
  {
    assert forall i :: 0 <= i < |a| ==> a[i] in Elements(a);
    assert forall i :: 0 <= i < |b| ==> b[i] in Elements(b);
    if a != [] {
      assert a[0] in Elements(b) && b[0] in Elements(a);
      assert a[0] == b[0];
      assert Elements(a[1..]) == Elements(a) - {a[0]};
      assert Elements(b[1..]) == Elements(b) - {b[0]};
      AscendingUnique(a[1..], b[1..]);
    }
  }

  predicate IsActive(m: Memories, k: Key) {
    k.id in m && m[k.id].status == Active
  }

  /** Archived rows are dropped only after the page has been cut. */
  ghost function ActiveOf(m: Memories, rows: seq<Key>): seq<Key> {
    if rows == [] then []
    else (if IsActive(m, rows[0]) then [rows[0]] else []) + ActiveOf(m, rows[1..])
  }

  lemma {:induction false} ActiveOfAppend(m: Memories, a: seq<Key>, b: seq<Key>)
    ensures ActiveOf(m, a + b) == ActiveOf(m, a) + ActiveOf(m, b)
  {
    if a == [] {
      assert a + b == b;
    } else {
      assert (a + b)[0] == a[0] && (a + b)[1..] == a[1..] + b;
      ActiveOfAppend(m, a[1..], b);
    }
  }

  lemma {:induction false} ActiveOfElements(m: Memories, rows: seq<Key>)
    requires Ascending(rows)
    ensures Ascending(ActiveOf(m, rows)) && |ActiveOf(m, rows)| <= |rows|
    ensures forall k :: k in ActiveOf(m, rows) <==> k in rows && IsActive(m, k)
  {
    if rows != [] {
      ActiveOfElements(m, rows[1..]);
      assert forall k :: k in rows <==> k == rows[0] || k in rows[1..];
      var rest := ActiveOf(m, rows[1..]);
      forall j | 0 <= j < |rest| ensures Less(rows[0], rest[j]) { assert rest[j] in rows[1..]; }
    }
  }

  datatype Listing = Listing(items: seq<Key>, nextAfter: Option<Key>)

  /** `Math.min(25, Math.max(1, limit))`. */
  function Bounded(limit: int): (n: nat)
    ensures 1 <= n <= PAGE_SIZE
  {
    if limit < 1 then 1 else if limit > PAGE_SIZE then PAGE_SIZE else limit
  }

  /** `listCurationMemories`. */
  ghost function ListCurationMemories(m: Memories, project: ProjectId, window: Window, after: Option<Key>,
                                      limit: int): Listing {
    var all := Sorted(Rows(m, project, window, after));
    var n := Bounded(limit);
    if |all| > n then Listing(ActiveOf(m, all[..n]), Some(all[n - 1]))
    else Listing(ActiveOf(m, all), None)
  }

  lemma TailElements(all: seq<Key>, n: nat)
    requires Ascending(all) && 1 <= n <= |all|
    ensures Ascending(all[n..])
    ensures forall k :: k in all[n..] <==> k in all && Less(all[n - 1], k)
  {
    forall k | k in all && Less(all[n - 1], k) ensures k in all[n..] {
      var i :| 0 <= i < |all| && all[i] == k;
      assert i >= n;
      assert all[n..][i - n] == k;
    }
    forall k | k in all[n..] ensures k in all && Less(all[n - 1], k) {
      var i :| 0 <= i < |all| - n && all[n..][i] == k;
      assert all[n + i] == k;
    }
  }

  /** Resuming after a row of the listing selects the rows behind it. */
  lemma ResumedRows(m: Memories, project: ProjectId, window: Window, after: Option<Key>, last: Key)
    requires last in Rows(m, project, window, after)
    ensures forall k :: k in Rows(m, project, window, Some(last))
              <==> k in Rows(m, project, window, after) && Less(last, k)
  {
  }

  /** The rows that remain after a page are exactly those behind the page's last row. */
  lemma RestOfRows(m: Memories, project: ProjectId, window: Window, after: Option<Key>, n: nat)
    requires 1 <= n < |Rows(m, project, window, after)|
    ensures var all := Sorted(Rows(m, project, window, after));
            all[n..] == Sorted(Rows(m, project, window, Some(all[n - 1])))
            && |Rows(m, project, window, Some(all[n - 1]))| == |all| - n
  {
    var rows := Rows(m, project, window, after);
    var all := Sorted(rows);
    var last := all[n - 1];
    assert last in Elements(all);
    ResumedRows(m, project, window, after, last);
    TailElements(all, n);
    var rest := Rows(m, project, window, Some(last));
    assert forall k :: k in rows <==> k in Elements(all);
    assert Elements(all[n..]) == rest;
    AscendingUnique(all[n..], Sorted(rest));
  }

  // ---------------------------------------------------------------------------------------------
  // The halving loop
  // ---------------------------------------------------------------------------------------------

  const PAGE_BYTES: nat := 256 * 1024

  ghost function SumSizes(m: Memories, items: seq<Key>): nat {
    if items == [] then 0
    else (if items[0].id in m then m[items[0].id].size else 0) + SumSizes(m, items[1..])
  }

  /** The JSON array: brackets, the encoded memories and a comma between neighbours. */
  ghost function PageJsonBytes(m: Memories, items: seq<Key>): nat {
    2 + SumSizes(m, items) + (if |items| == 0 then 0 else |items| - 1)
  }

  /** `Math.max(1, Math.floor(limit / 2))`. */
  function Halved(limit: nat): nat {
    if limit / 2 < 1 then 1 else limit / 2
  }

  /** The limit the loop settles on, starting from `limit`. */
  ghost function SettledLimit(m: Memories, project: ProjectId, window: Window, after: Option<Key>, limit: nat): (n: nat)
    requires 1 <= limit <= PAGE_SIZE
    ensures 1 <= n <= limit
    decreases limit
  {
    var listing := ListCurationMemories(m, project, window, after, limit);
    if PageJsonBytes(m, listing.items) > PAGE_BYTES && |listing.items| > 1 then
      ItemsWithinLimit(m, project, window, after, limit);
      SettledLimit(m, project, window, after, Halved(limit))
    else limit
  }

  lemma ItemsWithinLimit(m: Memories, project: ProjectId, window: Window, after: Option<Key>, limit: nat)
    requires 1 <= limit <= PAGE_SIZE
    ensures |ListCurationMemories(m, project, window, after, limit).items| <= limit
  {
    var all := Sorted(Rows(m, project, window, after));
    ActiveOfElements(m, all);
    if |all| > limit { ActiveOfElements(m, all[..limit]); }
  }

  datatype SnapshotError = MemoryTooLarge

  /** The window-stage body of `sourceSnapshot`, from the first query to the final size check. */
  method WindowPage(ghost m: Memories, source: Source, project: ProjectId, window: Window, after: Option<Key>)
    returns (r: Result<Listing, SnapshotError>)
    requires source.Answers(m, project, window)
    ensures r == SnapshotPage(m, project, window, after)
  {
    var limit: nat := PAGE_SIZE;
    var page := source.list(after, limit);
    while source.bytes(page.items) > PAGE_BYTES && |page.items| > 1
      invariant 1 <= limit <= PAGE_SIZE
      invariant page == ListCurationMemories(m, project, window, after, limit)
      invariant SettledLimit(m, project, window, after, PAGE_SIZE) == SettledLimit(m, project, window, after, limit)
      decreases limit
    {
      ItemsWithinLimit(m, project, window, after, limit);
      limit := Halved(limit);
      page := source.list(after, limit);
    }
    if source.bytes(page.items) > PAGE_BYTES { return Err(MemoryTooLarge); }
    r := Ok(page);
  }

  /** The store as the service sees it: a query and a measure. */
  datatype Source = Source(list: (Option<Key>, int) -> Listing, bytes: seq<Key> -> nat) {
    ghost predicate Answers(m: Memories, project: ProjectId, window: Window) {
      && (forall after, limit :: list(after, limit) == ListCurationMemories(m, project, window, after, limit))
      && (forall items :: bytes(items) == PageJsonBytes(m, items))
    }
  }

  ghost function SnapshotPage(m: Memories, project: ProjectId, window: Window,
                              after: Option<Key>): Result<Listing, SnapshotError> {
    var page := ListCurationMemories(m, project, window, after, SettledLimit(m, project, window, after, PAGE_SIZE));
    if PageJsonBytes(m, page.items) > PAGE_BYTES then Err(MemoryTooLarge) else Ok(page)
  }

  /** All the pages a client gets by following `next_after` over an unchanged store. */
  ghost function FollowPages(m: Memories, project: ProjectId, window: Window,
                             after: Option<Key>): (r: Result<seq<seq<Key>>, SnapshotError>)
    decreases |Rows(m, project, window, after)|
  {
    match SnapshotPage(m, project, window, after)
    case Err(e) => Err(e)
    case Ok(page) =>
      if page.nextAfter.None? then Ok([page.items])
      else
        NextPageIsShorter(m, project, window, after);
        match FollowPages(m, project, window, page.nextAfter)
        case Err(e) => Err(e)
        case Ok(rest) => Ok([page.items] + rest)
  }

  lemma NextPageIsShorter(m: Memories, project: ProjectId, window: Window, after: Option<Key>)
    requires SnapshotPage(m, project, window, after).Ok?
    requires SnapshotPage(m, project, window, after).value.nextAfter.Some?
    ensures var page := SnapshotPage(m, project, window, after).value;
            |Rows(m, project, window, page.nextAfter)| < |Rows(m, project, window, after)|
  {
    var n := SettledLimit(m, project, window, after, PAGE_SIZE);
    RestOfRows(m, project, window, after, n);
  }

  ghost function Concat(pages: seq<seq<Key>>): seq<Key> {
    if pages == [] then [] else pages[0] + Concat(pages[1..])
  }

  lemma ActiveOfSplit(m: Memories, rows: seq<Key>, n: nat)
    requires n <= |rows|
    ensures ActiveOf(m, rows) == ActiveOf(m, rows[..n]) + ActiveOf(m, rows[n..])
  {
    ActiveOfAppend(m, rows[..n], rows[n..]);
    assert rows == rows[..n] + rows[n..];
  }

  /** A listing splits the remaining rows: its own part, and what the next listing starts from. */
  lemma ListingSplitsRows(m: Memories, project: ProjectId, window: Window, after: Option<Key>, limit: nat)
    requires 1 <= limit <= PAGE_SIZE
    ensures var page := ListCurationMemories(m, project, window, after, limit);
            var active := ActiveOf(m, Sorted(Rows(m, project, window, after)));
            && (page.nextAfter.None? ==> page.items == active)
            && (page.nextAfter.Some? ==>
                  page.items + ActiveOf(m, Sorted(Rows(m, project, window, page.nextAfter))) == active)
  {
    if |Rows(m, project, window, after)| > limit { FullListingSplitsRows(m, project, window, after, limit); }
  }

  lemma FullListingSplitsRows(m: Memories, project: ProjectId, window: Window, after: Option<Key>, limit: nat)
    requires 1 <= limit <= PAGE_SIZE && limit < |Rows(m, project, window, after)|
    ensures var page := ListCurationMemories(m, project, window, after, limit);
            page.items + ActiveOf(m, Sorted(Rows(m, project, window, page.nextAfter)))
              == ActiveOf(m, Sorted(Rows(m, project, window, after)))
  {
    RestOfRows(m, project, window, after, limit);
    ActiveOfSplit(m, Sorted(Rows(m, project, window, after)), limit);
  }

  lemma PageSplitsRows(m: Memories, project: ProjectId, window: Window, after: Option<Key>)
    requires SnapshotPage(m, project, window, after).Ok?
    ensures var page := SnapshotPage(m, project, window, after).value;
            var active := ActiveOf(m, Sorted(Rows(m, project, window, after)));
            && |page.items| <= PAGE_SIZE && PageJsonBytes(m, page.items) <= PAGE_BYTES
            && (page.nextAfter.None? ==> page.items == active)
            && (page.nextAfter.Some? ==>
                  page.items + ActiveOf(m, Sorted(Rows(m, project, window, page.nextAfter))) == active)
  {
    var n := SettledLimit(m, project, window, after, PAGE_SIZE);
    ItemsWithinLimit(m, project, window, after, n);
    ListingSplitsRows(m, project, window, after, n);
  }

  /**
    Keyset paging is exact: the pages, each within the size limit, concatenate to the window's active
    memories in order, without gap or repeat.
   */
  lemma {:induction false} PagesCoverExactly(m: Memories, project: ProjectId, window: Window, after: Option<Key>)
    requires FollowPages(m, project, window, after).Ok?
    ensures var pages := FollowPages(m, project, window, after).value;
            && Concat(pages) == ActiveOf(m, Sorted(Rows(m, project, window, after)))
            && forall i :: 0 <= i < |pages| ==> |pages[i]| <= PAGE_SIZE && PageJsonBytes(m, pages[i]) <= PAGE_BYTES
    decreases |Rows(m, project, window, after)|
  {
    hide SnapshotPage, Sorted, ActiveOf, PageJsonBytes;
    var page := SnapshotPage(m, project, window, after).value;
    var pages := FollowPages(m, project, window, after).value;
    PageSplitsRows(m, project, window, after);
    if page.nextAfter.None? {
      assert pages == [page.items];
      assert Concat(pages) == page.items + Concat([]);
    } else {
      NextPageIsShorter(m, project, window, after);
      PagesCoverExactly(m, project, window, page.nextAfter);
      var rest := FollowPages(m, project, window, page.nextAfter).value;
      assert pages == [page.items] + rest && pages[1..] == rest;
    }
  }

  /** The memory fits on a page by itself. */
  ghost predicate Fits(m: Memories, k: Key) {
    PageJsonBytes(m, [k]) <= PAGE_BYTES
  }

  lemma {:induction false} OneOfManyIsSmaller(m: Memories, items: seq<Key>, k: Key)
    requires k in items
    ensures PageJsonBytes(m, [k]) <= PageJsonBytes(m, items)
  {
    assert SumSizes(m, [k]) == (if k.id in m then m[k.id].size else 0) + SumSizes(m, []) by { assert [k][1..] == []; }
    if items[0] != k { OneOfManyIsSmaller(m, items[1..], k); }
  }

  /** When the loop gives up, one memory alone is too large. */
  lemma {:induction false} SettledIsFineOrSingle(m: Memories, project: ProjectId, window: Window, after: Option<Key>,
                                                 limit: nat)
    requires 1 <= limit <= PAGE_SIZE
    ensures var page := ListCurationMemories(m, project, window, after, SettledLimit(m, project, window, after, limit));
            PageJsonBytes(m, page.items) > PAGE_BYTES ==> |page.items| == 1
    decreases limit
  {
    var listing := ListCurationMemories(m, project, window, after, limit);
    if PageJsonBytes(m, listing.items) > PAGE_BYTES && |listing.items| > 1 {
      ItemsWithinLimit(m, project, window, after, limit);
      SettledIsFineOrSingle(m, project, window, after, Halved(limit));
    }
  }

  lemma FitsIff(m: Memories, items: seq<Key>)
    requires PageJsonBytes(m, items) > PAGE_BYTES ==> |items| == 1
    ensures PageJsonBytes(m, items) <= PAGE_BYTES <==> forall k :: k in items ==> Fits(m, k)
    ensures PageJsonBytes(m, items) > PAGE_BYTES ==> items[0] in items && !Fits(m, items[0])
  {
    if PageJsonBytes(m, items) > PAGE_BYTES {
      assert items == [items[0]];
      assert items[0] in items && !Fits(m, items[0]);
    } else {
      forall k | k in items ensures Fits(m, k) { OneOfManyIsSmaller(m, items, k); }
    }
  }

  /** One page's part of the argument: it fails only over a memory that does not fit, and passes none over. */
  lemma PageFitsIff(m: Memories, project: ProjectId, window: Window, after: Option<Key>)
    ensures var page := SnapshotPage(m, project, window, after);
            var rows := Rows(m, project, window, after);
            && (page.Err? ==> exists k :: k in rows && IsActive(m, k) && !Fits(m, k))
            && (page.Ok? ==> forall k :: k in page.value.items ==> Fits(m, k))
  {
    hide Rows, PageJsonBytes, Fits, SettledLimit, ListCurationMemories;
    var n := SettledLimit(m, project, window, after, PAGE_SIZE);
    var items := ListCurationMemories(m, project, window, after, n).items;
    SettledIsFineOrSingle(m, project, window, after, PAGE_SIZE);
    FitsIff(m, items);
    forall k | k in items ensures k in Rows(m, project, window, after) && IsActive(m, k) {
      ListedIsRow(m, project, window, after, n, k);
    }
  }

  lemma ListedIsRow(m: Memories, project: ProjectId, window: Window, after: Option<Key>, limit: int, k: Key)
    requires k in ListCurationMemories(m, project, window, after, limit).items
    ensures k in Rows(m, project, window, after) && IsActive(m, k)
  {
    hide Rows;
    var all := Sorted(Rows(m, project, window, after));
    var n := Bounded(limit);
    var cut := if |all| > n then all[..n] else all;
    ActiveOfElements(m, cut);
    assert k in cut && k in all && k in Elements(all);
  }

  /** Paging to the end succeeds exactly when every active memory of the window fits on a page alone. */
  lemma {:induction false} PagingSucceedsIff(m: Memories, project: ProjectId, window: Window, after: Option<Key>)
    ensures FollowPages(m, project, window, after).Ok?
       <==> forall k :: k in ActiveOf(m, Sorted(Rows(m, project, window, after))) ==> Fits(m, k)
    decreases |Rows(m, project, window, after)|
  {
    var page := SnapshotPage(m, project, window, after);
    PageFitsIff(m, project, window, after);
    if page.Err? {
      var all := Sorted(Rows(m, project, window, after));
      ActiveOfElements(m, all);
      assert forall k :: k in Rows(m, project, window, after) <==> k in Elements(all);
    } else {
      PageSplitsRows(m, project, window, after);
      if page.value.nextAfter.Some? {
        NextPageIsShorter(m, project, window, after);
        PagingSucceedsIff(m, project, window, page.value.nextAfter);
      }
    }
  }

  /** One memory that does not fit on a page stops the paging of its window. */
  lemma OversizeMemoryStopsPaging()
    ensures var m := map[1 := Memory("p", 5, Active, PAGE_BYTES)];
            FollowPages(m, "p", Window(None, 10, Schedule, false), None).Err?
  {
    var m, window, k := map[1 := Memory("p", 5, Active, PAGE_BYTES)], Window(None, 10, Schedule, false), Key(5, 1);
    var all := Sorted(Rows(m, "p", window, None));
    assert KeyOf(m, 1) == k && k in Rows(m, "p", window, None);
    assert k in Elements(all);
    ActiveOfElements(m, all);
    assert k in ActiveOf(m, all);
    assert [k][1..] == [];
    assert !Fits(m, k);
    PagingSucceedsIff(m, "p", window, None);
  }
}
