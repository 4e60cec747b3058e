/** The rows of a folder view, and the row signals that bring a view in line with a new listing. */
module RowSync {

  // A view holds its own copy of the rows. It changes that copy only as the signals tell
  // it to, and reads the rows a signal names from the model at that moment.

  // An item is its URL and everything a refresh may find changed.
  datatype FileItem = FileItem(url: string, details: int)

  // `rows` are the model's rows when the signal is sent.
  datatype Signal =
    | Reset(rows: seq<FileItem>)
    | RowsInserted(first: int, count: int, rows: seq<FileItem>)
    | RowsRemoved(first: int, count: int, rows: seq<FileItem>)
    | DataChanged(first: int, last: int, rows: seq<FileItem>)

  function Urls(items: seq<FileItem>): (urls: seq<string>)
    ensures |urls| == |items|
    ensures forall k :: 0 <= k < |items| ==> urls[k] == items[k].url
  {
    seq(|items|, k requires 0 <= k < |items| => items[k].url)
  }

  // ----- What a view makes of signals -----

  // The signal names rows that the view and the model have.
  ghost predicate InRange(view: seq<FileItem>, s: Signal) {
    match s
    case Reset(_) => true
    case RowsInserted(first, count, rows) => 0 < count && 0 <= first <= |view| && first + count <= |rows|
    case RowsRemoved(first, count, _) => 0 < count && 0 <= first && first + count <= |view|
    case DataChanged(first, last, rows) => 0 <= first <= last < |view| && last < |rows|
  }

  ghost function Apply(view: seq<FileItem>, s: Signal): seq<FileItem>
    requires InRange(view, s)
  {
    match s
    case Reset(rows) => rows
    case RowsInserted(first, count, rows) => view[..first] + rows[first..first + count] + view[first..]
    case RowsRemoved(first, count, _) => view[..first] + view[first + count..]
    case DataChanged(first, last, rows) => view[..first] + rows[first..last + 1] + view[last + 1..]
  }

  ghost function Replay(view: seq<FileItem>, signals: seq<Signal>): seq<FileItem> {
    if signals == [] then view
    else
      var before := Replay(view, signals[..|signals| - 1]);
      var s := signals[|signals| - 1];
      if InRange(before, s) then Apply(before, s) else before
  }

  // Every signal can be applied, and leaves the view with the files of the model's rows.
  ghost predicate Follows(view: seq<FileItem>, signals: seq<Signal>) {
    signals == [] ||
    var s := signals[|signals| - 1];
    && Follows(view, signals[..|signals| - 1])
    && InRange(Replay(view, signals[..|signals| - 1]), s)
    && Urls(Replay(view, signals)) == Urls(s.rows)
  }

  // The signals after the first n take a view of `was` to `now`.
  ghost predicate Explains(signals: seq<Signal>, n: nat, was: seq<FileItem>, now: seq<FileItem>) {
    n <= |signals| && Follows(was, signals[n..]) && Replay(was, signals[n..]) == now
  }

  lemma ExplainsMore(signals: seq<Signal>, n: nat, was: seq<FileItem>, now: seq<FileItem>, s: Signal)
    requires Explains(signals, n, was, now)
    requires InRange(now, s) && Urls(Apply(now, s)) == Urls(s.rows)
    ensures Explains(signals + [s], n, was, Apply(now, s))
  {
    var longer := (signals + [s])[n..];
    assert longer[..|longer| - 1] == signals[n..] && longer[|longer| - 1] == s;
  }

  lemma ExplainsNothing(signals: seq<Signal>, rows: seq<FileItem>)
    ensures Explains(signals, |signals|, rows, rows)
  {
    assert signals[|signals|..] == [];
  }

  // One signal gives a view of as many rows all of the new ones.
  lemma AllChanged(signals: seq<Signal>, n: nat, was: seq<FileItem>, view: seq<FileItem>, rows: seq<FileItem>)
    requires Explains(signals, n, was, view) && |view| == |rows| > 0
    ensures Explains(signals + [DataChanged(0, |rows| - 1, rows)], n, was, rows)
  {
    hide Explains;
    var s := DataChanged(0, |rows| - 1, rows);
    assert Apply(view, s) == rows;
    ExplainsMore(signals, n, was, view, s);
  }

  // ----- Matching two listings -----

  function CommonPrefix(a: seq<FileItem>, b: seq<FileItem>, from: nat := 0): (n: nat)
    requires from <= |a| && from <= |b|
    ensures from <= n <= |a| && n <= |b|
    ensures forall k :: from <= k < n ==> a[k].url == b[k].url
    ensures n < |a| && n < |b| ==> a[n].url != b[n].url
    decreases |a| - from
  {
    if from == |a| || from == |b| || a[from].url != b[from].url then from else CommonPrefix(a, b, from + 1)
  }

  // How many files both end with, among at most n.
  function CommonTail(a: seq<FileItem>, b: seq<FileItem>, n: nat, from: nat := 0): (t: nat)
    requires from <= n <= |a| && n <= |b|
    ensures from <= t <= n
    ensures forall k :: |a| - t <= k < |a| - from ==> a[k].url == b[k - |a| + |b|].url
    decreases n - from
  {
    if from == n || a[|a| - 1 - from].url != b[|b| - 1 - from].url then from else CommonTail(a, b, n, from + 1)
  }

  // The last item listed under a URL, or -1.
  function LastMatch(items: seq<FileItem>, url: string): (k: int)
    ensures -1 <= k < |items|
    ensures k >= 0 ==> items[k].url == url
    ensures forall j :: k < j < |items| ==> items[j].url != url
  {
    if items == [] then -1
    else if items[|items| - 1].url == url then |items| - 1
    else LastMatch(items[..|items| - 1], url)
  }

  // The rows whose files are listed again, as the new items of those files.
  function Survivors(rows: seq<FileItem>, incoming: seq<FileItem>): seq<FileItem> {
    if rows == [] then []
    else
      var last := rows[|rows| - 1];
      var k := LastMatch(incoming, last.url);
      Survivors(rows[..|rows| - 1], incoming) + if k >= 0 then [incoming[k]] else []
  }

  // The listed items whose files no row held.
  function Newcomers(incoming: seq<FileItem>, rows: seq<FileItem>): seq<FileItem> {
    if incoming == [] then []
    else
      var last := incoming[|incoming| - 1];
      Newcomers(incoming[..|incoming| - 1], rows) + if LastMatch(rows, last.url) < 0 then [last] else []
  }

  // Whether a row between the common ends holds a file the listing has between them too.
  ghost predicate Moved(rows: seq<FileItem>, incoming: seq<FileItem>, same: nat, tail: nat) {
    exists i, j :: same <= i < |rows| - tail && same <= j < |incoming| - tail && rows[i].url == incoming[j].url
  }

  function TailAfter(rows: seq<FileItem>, incoming: seq<FileItem>, same: nat): (tail: nat)
    requires same <= |rows| && same <= |incoming|
  {
    CommonTail(rows, incoming, (if |rows| < |incoming| then |rows| else |incoming|) - same)
  }

  // A file moved to another row, so that rows are matched one by one.
  ghost predicate MatchedOneByOne(rows: seq<FileItem>, incoming: seq<FileItem>) {
    var same := CommonPrefix(rows, incoming);
    Moved(rows, incoming, same, TailAfter(rows, incoming, same))
  }

  // The rows after a listing arrives.
  ghost function Synchronized(rows: seq<FileItem>, incoming: seq<FileItem>): seq<FileItem> {
    if MatchedOneByOne(rows, incoming) then Survivors(rows, incoming) + Newcomers(incoming, rows) else incoming
  }

  ghost predicate Distinct(items: seq<FileItem>) {
    forall i, j :: 0 <= i < j < |items| ==> items[i].url != items[j].url
  }

  ghost predicate Lists(items: seq<FileItem>, url: string) {
    exists k :: 0 <= k < |items| && items[k].url == url
  }

  lemma LastMatchLists(items: seq<FileItem>, url: string)
    ensures LastMatch(items, url) >= 0 <==> Lists(items, url)
  {
  }

  lemma {:induction false} SurvivorsList(rows: seq<FileItem>, incoming: seq<FileItem>, url: string)
    ensures Lists(Survivors(rows, incoming), url) <==> Lists(rows, url) && Lists(incoming, url)
    decreases |rows|
  {
    if rows != [] {
      hide LastMatch, Lists;
      var before, last := rows[..|rows| - 1], rows[|rows| - 1];
      SurvivorsList(before, incoming, url);
      LastMatchLists(incoming, last.url);
      ListsAppend(before, last, url);
      var k := LastMatch(incoming, last.url);
      if k >= 0 {
        assert incoming[k].url == last.url;
        ListsAppend(Survivors(before, incoming), incoming[k], url);
      } else {
        assert Survivors(rows, incoming) == Survivors(before, incoming);
      }
    }
  }

  lemma {:induction false} NewcomersList(incoming: seq<FileItem>, rows: seq<FileItem>, url: string)
    ensures Lists(Newcomers(incoming, rows), url) <==> Lists(incoming, url) && !Lists(rows, url)
    decreases |incoming|
  {
    if incoming != [] {
      hide LastMatch, Lists;
      var before, last := incoming[..|incoming| - 1], incoming[|incoming| - 1];
      NewcomersList(before, rows, url);
      ListsAppend(before, last, url);
      LastMatchLists(rows, last.url);
      if LastMatch(rows, last.url) < 0 {
        assert Newcomers(incoming, rows) == Newcomers(before, rows) + [last];
        ListsAppend(Newcomers(before, rows), last, url);
      } else {
        assert Newcomers(incoming, rows) == Newcomers(before, rows);
      }
    }
  }

  lemma ListsAppend(items: seq<FileItem>, item: FileItem, url: string)
    ensures Lists(items + [item], url) <==> Lists(items, url) || item.url == url
    ensures items != [] ==> items[..|items| - 1] + [items[|items| - 1]] == items
  {
    if Lists(items, url) {
      var k :| 0 <= k < |items| && items[k].url == url;
      assert (items + [item])[k].url == url;
    }
    if item.url == url {
      assert (items + [item])[|items|].url == url;
    }
  }

  lemma ListsConcat(a: seq<FileItem>, b: seq<FileItem>, url: string)
    ensures Lists(a + b, url) <==> Lists(a, url) || Lists(b, url)
  {
    if Lists(a, url) {
      var k :| 0 <= k < |a| && a[k].url == url;
      assert (a + b)[k].url == url;
    }
    if Lists(b, url) {
      var k :| 0 <= k < |b| && b[k].url == url;
      assert (a + b)[|a| + k].url == url;
    }
  }

  /** The rows hold the files of the listing and no others, whatever both were. */
  lemma SynchronizedLists(rows: seq<FileItem>, incoming: seq<FileItem>, url: string)
    ensures Lists(Synchronized(rows, incoming), url) <==> Lists(incoming, url)
  {
    SurvivorsList(rows, incoming, url);
    NewcomersList(incoming, rows, url);
    ListsConcat(Survivors(rows, incoming), Newcomers(incoming, rows), url);
  }

  // ----- Listings without duplicates -----

  lemma NoSuchUrl(items: seq<FileItem>, url: string)
    requires !Lists(items, url)
    ensures forall k :: 0 <= k < |items| ==> items[k].url != url
  {
  }

  lemma {:induction false} SurvivorsDistinct(rows: seq<FileItem>, incoming: seq<FileItem>)
    requires Distinct(rows)
    ensures Distinct(Survivors(rows, incoming))
    ensures forall k :: 0 <= k < |Survivors(rows, incoming)| ==> Survivors(rows, incoming)[k] in incoming
    decreases |rows|
  {
    if rows != [] {
      var before, last := rows[..|rows| - 1], rows[|rows| - 1];
      SurvivorsDistinct(before, incoming);
      SurvivorsList(before, incoming, last.url);
      assert !Lists(before, last.url);
      NoSuchUrl(Survivors(before, incoming), last.url);
    }
  }

  lemma {:induction false} NewcomersDistinct(incoming: seq<FileItem>, rows: seq<FileItem>)
    requires Distinct(incoming)
    ensures Distinct(Newcomers(incoming, rows))
    ensures forall k :: 0 <= k < |Newcomers(incoming, rows)| ==> Newcomers(incoming, rows)[k] in incoming
    decreases |incoming|
  {
    if incoming != [] {
      var before, last := incoming[..|incoming| - 1], incoming[|incoming| - 1];
      NewcomersDistinct(before, rows);
      NewcomersList(before, rows, last.url);
      assert !Lists(before, last.url);
      NoSuchUrl(Newcomers(before, rows), last.url);
      assert incoming == before + [last];
    }
  }

  lemma {:induction false} DistinctCounts(items: seq<FileItem>, x: FileItem)
    requires Distinct(items)
    ensures multiset(items)[x] == if x in items then 1 else 0
    decreases |items|
  {
    if items != [] {
      var before, last := items[..|items| - 1], items[|items| - 1];
      DistinctCounts(before, x);
      assert items == before + [last];
      assert last !in before;
    }
  }

  // Distinct items of a distinct list that name all of its URLs are all of its items.
  lemma SameItems(r: seq<FileItem>, incoming: seq<FileItem>)
    requires Distinct(r) && Distinct(incoming)
    requires forall k :: 0 <= k < |r| ==> r[k] in incoming
    requires forall k :: 0 <= k < |incoming| ==> Lists(r, incoming[k].url)
    ensures multiset(r) == multiset(incoming)
  {
    forall x: FileItem
      ensures multiset(r)[x] == multiset(incoming)[x]
    {
      DistinctCounts(r, x);
      DistinctCounts(incoming, x);
      if x in incoming {
        var i :| 0 <= i < |incoming| && incoming[i] == x;
        var k :| 0 <= k < |r| && r[k].url == x.url;
        var j :| 0 <= j < |incoming| && incoming[j] == r[k];
        assert i == j;
      }
    }
  }

  lemma MergedDistinct(rows: seq<FileItem>, incoming: seq<FileItem>)
    requires Distinct(rows) && Distinct(incoming)
    ensures var r := Survivors(rows, incoming) + Newcomers(incoming, rows);
            Distinct(r) && forall k :: 0 <= k < |r| ==> r[k] in incoming
  {
    hide Survivors, Newcomers;
    var kept, added := Survivors(rows, incoming), Newcomers(incoming, rows);
    SurvivorsDistinct(rows, incoming);
    NewcomersDistinct(incoming, rows);
    forall i, j | 0 <= i < |kept| && 0 <= j < |added|
      ensures kept[i].url != added[j].url
    {
      SurvivorsList(rows, incoming, kept[i].url);
      NewcomersList(incoming, rows, kept[i].url);
      NoSuchUrl(added, kept[i].url);
    }
  }

  /** Between listings without duplicates, the rows are a permutation of the new listing. */
  lemma SynchronizedPermutes(rows: seq<FileItem>, incoming: seq<FileItem>)
    requires Distinct(rows) && Distinct(incoming)
    ensures Distinct(Synchronized(rows, incoming))
    ensures multiset(Synchronized(rows, incoming)) == multiset(incoming)
  {
    hide Survivors, Newcomers;
    MergedDistinct(rows, incoming);
    var r := Synchronized(rows, incoming);
    forall k | 0 <= k < |incoming|
      ensures Lists(r, incoming[k].url)
    {
      SynchronizedLists(rows, incoming, incoming[k].url);
    }
    SameItems(r, incoming);
  }

  // ----- The order of rows -----

  // The URLs that the items list, in the order they had.
  function StillListed(urls: seq<string>, items: seq<FileItem>): seq<string> {
    if urls == [] then []
    else
      StillListed(urls[..|urls| - 1], items)
      + if LastMatch(items, urls[|urls| - 1]) >= 0 then [urls[|urls| - 1]] else []
  }

  lemma StillLast(urls: seq<string>, url: string, items: seq<FileItem>)
    ensures StillListed(urls + [url], items) == StillListed(urls, items) + if Lists(items, url) then [url] else []
  {
    hide Lists, LastMatch;
    LastMatchLists(items, url);
    assert (urls + [url])[..|urls|] == urls;
  }

  lemma {:induction false} StillConcat(a: seq<string>, b: seq<string>, items: seq<FileItem>)
    ensures StillListed(a + b, items) == StillListed(a, items) + StillListed(b, items)
    decreases |b|
  {
    if b == [] {
      assert a + b == a;
    } else {
      hide StillListed, Lists;
      var before, last := b[..|b| - 1], b[|b| - 1];
      assert b == before + [last] && a + b == (a + before) + [last];
      StillConcat(a, before, items);
      StillLast(a + before, last, items);
      StillLast(before, last, items);
    }
  }

  lemma {:induction false} StillAll(urls: seq<string>, items: seq<FileItem>)
    requires forall k :: 0 <= k < |urls| ==> Lists(items, urls[k])
    ensures StillListed(urls, items) == urls
  {
    if urls != [] {
      hide StillListed, Lists;
      var before, last := urls[..|urls| - 1], urls[|urls| - 1];
      assert urls == before + [last];
      StillAll(before, items);
      StillLast(before, last, items);
    }
  }

  lemma {:induction false} StillNone(urls: seq<string>, items: seq<FileItem>)
    requires forall k :: 0 <= k < |urls| ==> !Lists(items, urls[k])
    ensures StillListed(urls, items) == []
  {
    if urls != [] {
      hide StillListed, Lists;
      var before, last := urls[..|urls| - 1], urls[|urls| - 1];
      assert urls == before + [last];
      StillNone(before, items);
      StillLast(before, last, items);
    }
  }

  lemma {:induction false} SurvivorsKeepOrder(rows: seq<FileItem>, incoming: seq<FileItem>)
    ensures Urls(Survivors(rows, incoming)) == StillListed(Urls(rows), incoming)
    decreases |rows|
  {
    if rows != [] {
      var before, last := rows[..|rows| - 1], rows[|rows| - 1];
      SurvivorsKeepOrder(before, incoming);
      assert Urls(rows)[..|rows| - 1] == Urls(before);
      var k := LastMatch(incoming, last.url);
      if k >= 0 {
        assert Urls(Survivors(rows, incoming)) == Urls(Survivors(before, incoming)) + [last.url];
      }
    }
  }

  /** Where rows are matched one by one, those of files that had a row come first and the new
      ones last. */
  lemma NewRowsComeLast(rows: seq<FileItem>, incoming: seq<FileItem>, k: nat)
    requires MatchedOneByOne(rows, incoming) && k < |Synchronized(rows, incoming)|
    ensures Lists(rows, Synchronized(rows, incoming)[k].url) <==> k < |Survivors(rows, incoming)|
  {
    hide Lists, Survivors, Newcomers, MatchedOneByOne;
    var kept, added := Survivors(rows, incoming), Newcomers(incoming, rows);
    var url := Synchronized(rows, incoming)[k].url;
    if k < |kept| {
      SurvivorsList(rows, incoming, url);
      ListsAt(kept, k);
    } else {
      NewcomersList(incoming, rows, url);
      ListsAt(added, k - |kept|);
    }
  }

  lemma ListsAt(items: seq<FileItem>, k: nat)
    requires k < |items|
    ensures Lists(items, items[k].url)
  {
  }

  // The files between the common ends are not in the other listing, where none moved.
  lemma MiddleIsGone(a: seq<FileItem>, b: seq<FileItem>, same: nat, tail: nat, i: nat)
    requires Distinct(a) && SameEnds(a, b, same, tail) && !Moved(a, b, same, tail)
    requires same <= i < |a| - tail
    ensures !Lists(b, a[i].url)
  {
    forall j | 0 <= j < |b|
      ensures b[j].url != a[i].url
    {
      if j < same {
        assert a[j].url == b[j].url;
      } else if j >= |b| - tail {
        var k := j - |b| + |a|;
        assert a[k].url == b[k - |a| + |b|].url;
      }
    }
  }

  lemma StillParts(urls: seq<string>, i: nat, j: nat, items: seq<FileItem>)
    requires i <= j <= |urls|
    ensures StillListed(urls, items) == StillListed(urls[..i], items) + StillListed(urls[i..j], items)
            + StillListed(urls[j..], items)
  {
    hide StillListed;
    assert urls == urls[..i] + urls[i..j] + urls[j..];
    StillConcat(urls[..i] + urls[i..j], urls[j..], items);
    StillConcat(urls[..i], urls[i..j], items);
  }

  lemma EndsStay(a: seq<FileItem>, b: seq<FileItem>, same: nat, tail: nat)
    requires Distinct(a) && SameEnds(a, b, same, tail) && !Moved(a, b, same, tail)
    ensures StillListed(Urls(a), b) == Urls(a)[..same] + Urls(a)[|a| - tail..]
  {
    hide StillListed, LastMatch, Lists, Moved;
    var urls, m := Urls(a), |a| - tail;
    StillParts(urls, same, m, b);
    forall k | 0 <= k < same
      ensures Lists(b, urls[..same][k])
    {
      ListsAt(b, k);
    }
    StillAll(urls[..same], b);
    forall k | 0 <= k < m - same
      ensures !Lists(b, urls[same..m][k])
    {
      MiddleIsGone(a, b, same, tail, same + k);
    }
    StillNone(urls[same..m], b);
    forall k | 0 <= k < tail
      ensures Lists(b, urls[m..][k])
    {
      ListsAt(b, m + k - |a| + |b|);
    }
    StillAll(urls[m..], b);
  }

  lemma EndsOfBoth(rows: seq<FileItem>, incoming: seq<FileItem>)
    requires !MatchedOneByOne(rows, incoming)
    ensures var same := CommonPrefix(rows, incoming);
            var tail := TailAfter(rows, incoming, same);
            && SameEnds(rows, incoming, same, tail) && !Moved(rows, incoming, same, tail)
            && SameEnds(incoming, rows, same, tail) && !Moved(incoming, rows, same, tail)
  {
    var same := CommonPrefix(rows, incoming);
    var tail := TailAfter(rows, incoming, same);
    forall k | |incoming| - tail <= k < |incoming|
      ensures incoming[k].url == rows[k - |incoming| + |rows|].url
    {
      var j := k - |incoming| + |rows|;
      assert rows[j].url == incoming[j - |rows| + |incoming|].url;
    }
  }

  lemma NothingMoved(rows: seq<FileItem>, incoming: seq<FileItem>)
    requires rows == [] || CommonPrefix(rows, incoming) == |rows|
    ensures !MatchedOneByOne(rows, incoming)
  {
  }

  /** Whatever strategy is taken, between listings without duplicates the rows of files that are
      still listed keep the order they had. */
  lemma OrderIsKept(rows: seq<FileItem>, incoming: seq<FileItem>)
    requires Distinct(rows) && Distinct(incoming)
    ensures StillListed(Urls(Synchronized(rows, incoming)), rows) == StillListed(Urls(rows), incoming)
  {
    hide StillListed, Survivors, Newcomers, Lists, MatchedOneByOne, SameEnds, Distinct, Moved;
    if MatchedOneByOne(rows, incoming) {
      MatchedOrder(rows, incoming);
    } else {
      var same := CommonPrefix(rows, incoming);
      var tail := TailAfter(rows, incoming, same);
      EndsOfBoth(rows, incoming);
      EndsStay(rows, incoming, same, tail);
      EndsStay(incoming, rows, same, tail);
      SameEndUrls(rows, incoming, same, tail);
    }
  }

  lemma SameEndUrls(a: seq<FileItem>, b: seq<FileItem>, same: nat, tail: nat)
    requires SameEnds(a, b, same, tail)
    ensures Urls(a)[..same] == Urls(b)[..same] && Urls(a)[|a| - tail..] == Urls(b)[|b| - tail..]
  {
    var x, y := Urls(a)[|a| - tail..], Urls(b)[|b| - tail..];
    forall k | 0 <= k < |x|
      ensures x[k] == y[k]
    {
      assert a[|a| - tail + k].url == b[|a| - tail + k - |a| + |b|].url;
    }
  }

  lemma MatchedOrder(rows: seq<FileItem>, incoming: seq<FileItem>)
    ensures StillListed(Urls(Survivors(rows, incoming) + Newcomers(incoming, rows)), rows) ==
            StillListed(Urls(rows), incoming)
  {
    hide StillListed, Survivors, Newcomers, Lists;
    var kept, added := Survivors(rows, incoming), Newcomers(incoming, rows);
    assert Urls(kept + added) == Urls(kept) + Urls(added);
    StillConcat(Urls(kept), Urls(added), rows);
    forall k | 0 <= k < |kept|
      ensures Lists(rows, Urls(kept)[k])
    {
      SurvivorsList(rows, incoming, kept[k].url);
      ListsAt(kept, k);
    }
    StillAll(Urls(kept), rows);
    forall k | 0 <= k < |added|
      ensures !Lists(rows, Urls(added)[k])
    {
      NewcomersList(incoming, rows, added[k].url);
      ListsAt(added, k);
    }
    StillNone(Urls(added), rows);
    SurvivorsKeepOrder(rows, incoming);
  }

  // The URLs that the items do not list, in the order they had.
  function NotListed(urls: seq<string>, items: seq<FileItem>): seq<string> {
    if urls == [] then []
    else
      NotListed(urls[..|urls| - 1], items)
      + if exists k :: 0 <= k < |items| && items[k].url == urls[|urls| - 1] then [] else [urls[|urls| - 1]]
  }

  lemma NotListedLast(urls: seq<string>, url: string, items: seq<FileItem>)
    ensures NotListed(urls + [url], items) == NotListed(urls, items) + if Lists(items, url) then [] else [url]
  {
    assert (urls + [url])[..|urls|] == urls;
  }

  lemma {:induction false} NotListedConcat(a: seq<string>, b: seq<string>, items: seq<FileItem>)
    ensures NotListed(a + b, items) == NotListed(a, items) + NotListed(b, items)
    decreases |b|
  {
    if b == [] {
      assert a + b == a;
    } else {
      hide NotListed, Lists;
      var before, last := b[..|b| - 1], b[|b| - 1];
      assert b == before + [last] && a + b == (a + before) + [last];
      NotListedConcat(a, before, items);
      NotListedLast(a + before, last, items);
      NotListedLast(before, last, items);
    }
  }

  lemma {:induction false} NoneListed(urls: seq<string>, items: seq<FileItem>)
    requires forall k :: 0 <= k < |urls| ==> !Lists(items, urls[k])
    ensures NotListed(urls, items) == urls
  {
    if urls != [] {
      hide NotListed, Lists;
      var before, last := urls[..|urls| - 1], urls[|urls| - 1];
      assert urls == before + [last];
      NoneListed(before, items);
      NotListedLast(before, last, items);
    }
  }

  lemma {:induction false} AllListed(urls: seq<string>, items: seq<FileItem>)
    requires forall k :: 0 <= k < |urls| ==> Lists(items, urls[k])
    ensures NotListed(urls, items) == []
  {
    if urls != [] {
      hide NotListed, Lists;
      var before, last := urls[..|urls| - 1], urls[|urls| - 1];
      assert urls == before + [last];
      AllListed(before, items);
      NotListedLast(before, last, items);
    }
  }

  lemma {:induction false} NewcomersInOrder(incoming: seq<FileItem>, rows: seq<FileItem>)
    ensures Urls(Newcomers(incoming, rows)) == NotListed(Urls(incoming), rows)
    decreases |incoming|
  {
    if incoming != [] {
      hide NotListed, Lists, LastMatch;
      var before, last := incoming[..|incoming| - 1], incoming[|incoming| - 1];
      NewcomersInOrder(before, rows);
      assert Urls(incoming) == Urls(before) + [last.url];
      NotListedLast(Urls(before), last.url, rows);
      LastMatchLists(rows, last.url);
      if LastMatch(rows, last.url) < 0 {
        assert Urls(Newcomers(incoming, rows)) == Urls(Newcomers(before, rows)) + [last.url];
      } else {
        assert Newcomers(incoming, rows) == Newcomers(before, rows);
      }
    }
  }

  /** Whatever strategy is taken, the files that had no row come in the order of the listing, each
      as often as it is listed. */
  lemma NewRowsInOrder(rows: seq<FileItem>, incoming: seq<FileItem>)
    ensures NotListed(Urls(Synchronized(rows, incoming)), rows) == NotListed(Urls(incoming), rows)
  {
    hide NotListed, Survivors, Newcomers, Lists, MatchedOneByOne;
    if MatchedOneByOne(rows, incoming) {
      var kept, added := Survivors(rows, incoming), Newcomers(incoming, rows);
      assert Urls(kept + added) == Urls(kept) + Urls(added);
      NotListedConcat(Urls(kept), Urls(added), rows);
      forall k | 0 <= k < |kept|
        ensures Lists(rows, Urls(kept)[k])
      {
        SurvivorsList(rows, incoming, kept[k].url);
        ListsAt(kept, k);
      }
      AllListed(Urls(kept), rows);
      NewcomersInOrder(incoming, rows);
      forall k | 0 <= k < |added|
        ensures !Lists(rows, Urls(added)[k])
      {
        NewcomersList(incoming, rows, added[k].url);
        ListsAt(added, k);
      }
      NoneListed(Urls(added), rows);
    }
  }

  // The last item that a listing has of its file.
  ghost predicate IsLastOf(item: FileItem, items: seq<FileItem>) {
    exists k :: 0 <= k < |items| && items[k] == item && forall j :: k < j < |items| ==> items[j].url != item.url
  }

  lemma {:induction false} SurvivorsAreLast(rows: seq<FileItem>, incoming: seq<FileItem>)
    ensures forall k :: 0 <= k < |Survivors(rows, incoming)| ==> IsLastOf(Survivors(rows, incoming)[k], incoming)
    decreases |rows|
  {
    if rows != [] {
      SurvivorsAreLast(rows[..|rows| - 1], incoming);
      hide IsLastOf;
      var k := LastMatch(incoming, rows[|rows| - 1].url);
      if k >= 0 {
        LastIsLast(incoming, k);
      }
    }
  }

  lemma LastIsLast(items: seq<FileItem>, k: nat)
    requires k < |items| && forall j :: k < j < |items| ==> items[j].url != items[k].url
    ensures IsLastOf(items[k], items)
  {
  }

  lemma {:induction false} NewcomersAreListed(incoming: seq<FileItem>, rows: seq<FileItem>)
    ensures forall item :: item in Newcomers(incoming, rows) ==> item in incoming
    decreases |incoming|
  {
    if incoming != [] {
      NewcomersAreListed(incoming[..|incoming| - 1], rows);
      assert incoming == incoming[..|incoming| - 1] + [incoming[|incoming| - 1]];
    }
  }

  /** Every row shows an item of the new listing; the rows that are matched one by one show the last
      that is listed of their files. */
  lemma RowsAreNew(rows: seq<FileItem>, incoming: seq<FileItem>, k: nat)
    requires k < |Synchronized(rows, incoming)|
    ensures var item := Synchronized(rows, incoming)[k];
            item in incoming
            && (MatchedOneByOne(rows, incoming) && Lists(rows, item.url) ==> IsLastOf(item, incoming))
  {
    hide Survivors, Newcomers, MatchedOneByOne, Lists;
    if MatchedOneByOne(rows, incoming) {
      SurvivorsAreLast(rows, incoming);
      NewcomersAreListed(incoming, rows);
      NewRowsComeLast(rows, incoming, k);
    }
  }

  /** Where the listings have the same files at both ends and no file of both between them, the rows
      become the listing as it is. */
  lemma UnmovedIsMirrored(rows: seq<FileItem>, incoming: seq<FileItem>, same: nat, tail: nat)
    requires SameEnds(rows, incoming, same, tail)
    requires forall i, j ::
               same <= i < |rows| - tail && same <= j < |incoming| - tail ==> rows[i].url != incoming[j].url
    ensures Synchronized(rows, incoming) == incoming
  {
    var most := CommonPrefix(rows, incoming);
    var rest := TailAfter(rows, incoming, most);
    assert same <= most;
    TailIsLongest(rows, incoming, (if |rows| < |incoming| then |rows| else |incoming|) - most, 0, tail);
  }

  lemma {:induction false} TailIsLongest(a: seq<FileItem>, b: seq<FileItem>, n: nat, from: nat, tail: nat)
    requires from <= n <= |a| && n <= |b|
    requires forall k :: |a| - tail <= k < |a| && k - |a| + |b| >= 0 ==> 0 <= k && a[k].url == b[k - |a| + |b|].url
    requires tail <= |a| && tail <= |b|
    ensures CommonTail(a, b, n, from) >= tail || CommonTail(a, b, n, from) == n
    decreases n - from
  {
    if from < n {
      if from < tail {
        assert a[|a| - 1 - from].url == b[|b| - 1 - from].url;
        TailIsLongest(a, b, n, from + 1, tail);
      }
    }
  }

  // ----- What signals spare -----

  // The signal takes no row away whose file is listed.
  ghost predicate SparesAt(view: seq<FileItem>, s: Signal, listed: seq<FileItem>) {
    match s
    case Reset(_) => false
    case RowsRemoved(first, count, _) =>
      forall r :: 0 <= r < |view| && first <= r < first + count ==> !Lists(listed, view[r].url)
    case _ => true
  }

  // Nor does any of the signals after the first n, sent to a view of `was`.
  ghost predicate Spares(signals: seq<Signal>, n: nat, was: seq<FileItem>, listed: seq<FileItem>) {
    n <= |signals| && forall k :: n <= k < |signals| ==> SparesAt(Replay(was, signals[n..k]), signals[k], listed)
  }

  lemma SparesNothing(signals: seq<Signal>, was: seq<FileItem>, listed: seq<FileItem>)
    ensures Spares(signals, |signals|, was, listed)
  {
  }

  lemma SparesMore(signals: seq<Signal>, n: nat, was: seq<FileItem>, view: seq<FileItem>, s: Signal,
      listed: seq<FileItem>)
    requires Explains(signals, n, was, view) && Spares(signals, n, was, listed) && SparesAt(view, s, listed)
    ensures Spares(signals + [s], n, was, listed)
  {
    hide SparesAt, Replay, Follows;
    var more := signals + [s];
    forall k | n <= k < |more|
      ensures SparesAt(Replay(was, more[n..k]), more[k], listed)
    {
      assert more[n..k] == signals[n..k];
      if k == |signals| {
        assert signals[n..k] == signals[n..];
      }
    }
  }

  // ----- The index by URL -----

  // The index maps each URL to the last row that holds it, and nothing else.
  ghost predicate Indexes(index: map<string, int>, items: seq<FileItem>) {
    && (forall url :: url in index ==> index[url] == LastMatch(items, url) >= 0)
    && (forall k :: 0 <= k < |items| ==> items[k].url in index)
  }

  lemma {:induction false} SameUrlsSameMatch(a: seq<FileItem>, b: seq<FileItem>, url: string)
    requires Urls(a) == Urls(b)
    ensures LastMatch(a, url) == LastMatch(b, url)
  {
    var i, j := LastMatch(a, url), LastMatch(b, url);
    assert |a| == |Urls(a)| == |Urls(b)| == |b|;
    assert forall k :: 0 <= k < |a| ==> a[k].url == Urls(a)[k] == Urls(b)[k] == b[k].url;
  }

  /** An index stays right while rows get new items of the same files. */
  lemma IndexSurvivesRefresh(index: map<string, int>, a: seq<FileItem>, b: seq<FileItem>)
    requires Indexes(index, a) && Urls(a) == Urls(b)
    ensures Indexes(index, b)
  {
    forall url | url in index
      ensures index[url] == LastMatch(b, url)
    {
      SameUrlsSameMatch(a, b, url);
    }
    forall k | 0 <= k < |b|
      ensures b[k].url in index
    {
      assert b[k].url == Urls(b)[k] == Urls(a)[k] == a[k].url;
    }
  }

  lemma MatchAppend(items: seq<FileItem>, item: FileItem, url: string)
    ensures LastMatch(items + [item], url) == if item.url == url then |items| else LastMatch(items, url)
  {
    assert (items + [item])[..|items|] == items;
  }

  /** Listing one more item: its URL now leads to it, whether or not it was listed before. */
  lemma IndexAppend(index: map<string, int>, items: seq<FileItem>, item: FileItem)
    requires Indexes(index, items)
    ensures Indexes(index[item.url := |items|], items + [item])
  {
    hide LastMatch;
    var longer := items + [item];
    var grown := index[item.url := |items|];
    forall url | url in grown
      ensures grown[url] == LastMatch(longer, url) >= 0
    {
      MatchAppend(items, item, url);
    }
    forall k | 0 <= k < |longer|
      ensures longer[k].url in grown
    {
      if k < |items| {
        assert longer[k] == items[k];
      }
    }
  }

  lemma IndexGrows(index: map<string, int>, items: seq<FileItem>, url: string, place: int)
    requires Indexes(index, items)
    ensures |index[url := place]| == if Lists(items, url) then |index| else |index| + 1
  {
    var grown := index[url := place];
    assert grown.Keys == index.Keys + {url};
    LastMatchLists(items, url);
    if url in index {
      assert grown.Keys == index.Keys;
    } else {
      assert !Lists(items, url);
    }
  }

  // ----- Rows with the place of their file in the new listing -----

  function Places(rows: seq<FileItem>, incoming: seq<FileItem>): (places: seq<int>)
    ensures |places| == |rows|
    ensures forall k :: 0 <= k < |rows| ==> places[k] == LastMatch(incoming, rows[k].url)
  {
    seq(|rows|, k requires 0 <= k < |rows| => LastMatch(incoming, rows[k].url))
  }

  // The elements whose place is not -1.
  ghost function Kept<T>(xs: seq<T>, places: seq<int>): (r: seq<T>)
    requires |xs| == |places|
    ensures |r| <= |xs|
    decreases |xs|
  {
    if xs == [] then []
    else (if places[0] >= 0 then [xs[0]] else []) + Kept(xs[1..], places[1..])
  }

  lemma {:induction false} KeptAppend<T>(xs: seq<T>, places: seq<int>)
    requires |xs| == |places| > 0
    ensures var last := |xs| - 1;
            Kept(xs, places) == Kept(xs[..last], places[..last]) + if places[last] >= 0 then [xs[last]] else []
    decreases |xs|
  {
    var last := |xs| - 1;
    if last > 0 {
      KeptAppend(xs[1..], places[1..]);
      assert xs[1..][..last - 1] == xs[..last][1..] && places[1..][..last - 1] == places[..last][1..];
    }
  }

  lemma {:induction false} KeptPlaces(places: seq<int>, p: int)
    ensures p in Kept(places, places) <==> p in places && p >= 0
    decreases |places|
  {
    if places != [] {
      KeptPlaces(places[1..], p);
      assert places == [places[0]] + places[1..];
    }
  }

  // The items of the listing at these places.
  ghost function ItemsAt(incoming: seq<FileItem>, places: seq<int>): (r: seq<FileItem>)
    requires forall k :: 0 <= k < |places| ==> 0 <= places[k] < |incoming|
    ensures |r| == |places|
    ensures forall k :: 0 <= k < |places| ==> r[k] == incoming[places[k]]
  {
    seq(|places|, k requires 0 <= k < |places| => incoming[places[k]])
  }

  lemma KeptInRange(rows: seq<FileItem>, incoming: seq<FileItem>)
    ensures var kept := Kept(Places(rows, incoming), Places(rows, incoming));
            forall k :: 0 <= k < |kept| ==> 0 <= kept[k] < |incoming|
  {
    var places := Places(rows, incoming);
    var kept := Kept(places, places);
    forall k | 0 <= k < |kept|
      ensures 0 <= kept[k] < |incoming|
    {
      KeptPlaces(places, kept[k]);
    }
  }

  lemma {:induction false} KeptFiles(rows: seq<FileItem>, incoming: seq<FileItem>)
    ensures Urls(Kept(rows, Places(rows, incoming))) == Urls(Survivors(rows, incoming))
    decreases |rows|
  {
    if rows != [] {
      hide LastMatch, Kept;
      var places := Places(rows, incoming);
      var last := |rows| - 1;
      KeptFiles(rows[..last], incoming);
      KeptAppend(rows, places);
      assert Places(rows[..last], incoming) == places[..last];
    }
  }

  /** Taking the kept places in the listing gives the survivors. */
  lemma {:induction false} KeptAreSurvivors(rows: seq<FileItem>, incoming: seq<FileItem>)
    requires var kept := Kept(Places(rows, incoming), Places(rows, incoming));
             forall k :: 0 <= k < |kept| ==> 0 <= kept[k] < |incoming|
    ensures var places := Places(rows, incoming);
            Survivors(rows, incoming) == ItemsAt(incoming, Kept(places, places))
    decreases |rows|
  {
    if rows != [] {
      hide LastMatch, Kept;
      var places := Places(rows, incoming);
      var last := |rows| - 1;
      assert Places(rows[..last], incoming) == places[..last];
      KeptInRange(rows[..last], incoming);
      KeptAreSurvivors(rows[..last], incoming);
      KeptAppend(places, places);
      if places[last] >= 0 {
        ItemsAtAppend(incoming, Kept(places[..last], places[..last]), places[last]);
      }
    }
  }

  lemma ItemsAtAppend(incoming: seq<FileItem>, places: seq<int>, p: int)
    requires forall k :: 0 <= k < |places| ==> 0 <= places[k] < |incoming|
    requires 0 <= p < |incoming|
    ensures ItemsAt(incoming, places + [p]) == ItemsAt(incoming, places) + [incoming[p]]
  {
  }

  // Whether an item's file had a row, told from the places alone.
  lemma PlaceTaken(rows: seq<FileItem>, incoming: seq<FileItem>, i: nat)
    requires i < |incoming|
    ensures LastMatch(incoming, incoming[i].url) in Places(rows, incoming) <==> LastMatch(rows, incoming[i].url) >= 0
  {
    var p := LastMatch(incoming, incoming[i].url);
    if p in Places(rows, incoming) {
      var k :| 0 <= k < |rows| && Places(rows, incoming)[k] == p;
      assert rows[k].url == incoming[i].url;
    }
    var k := LastMatch(rows, incoming[i].url);
    if k >= 0 {
      assert Places(rows, incoming)[k] == p;
    }
  }

  // ----- The steps of a synchronisation that only look -----

  method SamePrefix(a: seq<FileItem>, b: seq<FileItem>) returns (same: nat)
    ensures same == CommonPrefix(a, b)
  {
    same := 0;
    while same < |a| && same < |b| && a[same].url == b[same].url
      invariant same <= |a| && same <= |b|
      invariant CommonPrefix(a, b) == CommonPrefix(a, b, same)
    {
      same := same + 1;
    }
  }

  method SameTail(a: seq<FileItem>, b: seq<FileItem>, n: nat) returns (tail: nat)
    requires n <= |a| && n <= |b|
    ensures tail == CommonTail(a, b, n)
  {
    tail := 0;
    while tail < n && a[|a| - 1 - tail].url == b[|b| - 1 - tail].url
      invariant tail <= n
      invariant CommonTail(a, b, n) == CommonTail(a, b, n, tail)
    {
      tail := tail + 1;
    }
  }

  method MovedBetween(rows: seq<FileItem>, incoming: seq<FileItem>, same: nat, tail: nat) returns (moved: bool)
    requires same + tail <= |rows| && same + tail <= |incoming|
    ensures moved == Moved(rows, incoming, same, tail)
  {
    var between: set<string> := {};
    for i := same to |incoming| - tail
      invariant forall url :: url in between <==> exists j :: same <= j < i && incoming[j].url == url
    {
      between := between + {incoming[i].url};
    }
    moved := false;
    var row := same;
    while row < |rows| - tail && !moved
      invariant same <= row <= |rows| - tail
      invariant moved <==> exists i :: same <= i < row && rows[i].url in between
    {
      moved := rows[row].url in between;
      row := row + 1;
    }
  }

  // The index of a list has an entry for each item just when no two share a URL.
  ghost predicate Counts(index: map<string, int>, items: seq<FileItem>) {
    && Indexes(index, items)
    && |index| <= |items|
    && (|index| == |items| <==> Distinct(items))
  }

  lemma CountsNothing(items: seq<FileItem>)
    requires items == []
    ensures Counts(map[], items)
  {
  }

  lemma CountsAll(index: map<string, int>, items: seq<FileItem>)
    requires Counts(index, items[..|items|])
    ensures Indexes(index, items) && (|index| == |items| <==> Distinct(items))
  {
    assert items[..|items|] == items;
  }

  lemma CountsNext(index: map<string, int>, items: seq<FileItem>, i: nat)
    requires i < |items| && Counts(index, items[..i])
    ensures Counts(index[items[i].url := i], items[..i + 1])
  {
    hide Counts;
    CountsAppend(index, items[..i], items[i]);
    assert items[..i + 1] == items[..i] + [items[i]];
  }

  lemma CountsAppend(index: map<string, int>, items: seq<FileItem>, item: FileItem)
    requires Counts(index, items)
    ensures Counts(index[item.url := |items|], items + [item])
  {
    hide Indexes, Distinct, Lists;
    IndexAppend(index, items, item);
    IndexGrows(index, items, item.url, |items|);
    DistinctAppend(items, item);
  }

  // Where each URL is listed last; unique when no two items share one.
  method Positions(incoming: seq<FileItem>) returns (positions: map<string, int>, unique: bool)
    ensures Indexes(positions, incoming)
    ensures unique <==> Distinct(incoming)
  {
    positions := map[];
    CountsNothing(incoming[..0]);
    hide Counts, Indexes, Distinct;
    for i := 0 to |incoming|
      invariant Counts(positions, incoming[..i])
    {
      CountsNext(positions, incoming, i);
      positions := positions[incoming[i].url := i];
    }
    CountsAll(positions, incoming);
    unique := |positions| == |incoming|;
  }

  lemma DistinctAppend(items: seq<FileItem>, item: FileItem)
    ensures Distinct(items + [item]) <==> Distinct(items) && !Lists(items, item.url)
  {
    var longer := items + [item];
    if Distinct(longer) {
      assert forall k :: 0 <= k < |items| ==> items[k] == longer[k];
      assert forall k :: 0 <= k < |items| ==> longer[k].url != longer[|items|].url;
    }
  }

  method FindPlaces(rows: seq<FileItem>, incoming: seq<FileItem>, positions: map<string, int>, same: nat)
      returns (places: seq<int>)
    requires Indexes(positions, incoming)
    requires same <= |rows| && same <= |incoming|
    requires same > 0 ==> Distinct(incoming)
    requires forall k :: 0 <= k < same ==> rows[k].url == incoming[k].url
    ensures places == Places(rows, incoming)
  {
    places := [];
    for row := 0 to |rows|
      invariant places == Places(rows, incoming)[..row]
    {
      var place := if row < same then row
                   else if rows[row].url in positions then positions[rows[row].url]
                   else -1;
      places := places + [place];
    }
  }

  method FindAdded(incoming: seq<FileItem>, positions: map<string, int>, kept: seq<bool>, unique: bool,
      ghost rows: seq<FileItem>)
    returns (added: seq<FileItem>)
    requires Indexes(positions, incoming) && unique == Distinct(incoming)
    requires |kept| == |incoming| && forall p :: 0 <= p < |kept| ==> kept[p] == (p in Places(rows, incoming))
    ensures added == Newcomers(incoming, rows)
  {
    added := [];
    for i := 0 to |incoming|
      invariant added == Newcomers(incoming[..i], rows)
    {
      assert incoming[..i + 1][..i] == incoming[..i];
      PlaceTaken(rows, incoming, i);
      var at := if unique then i else positions[incoming[i].url];
      assert at == LastMatch(incoming, incoming[i].url);
      if !kept[at] {
        added := added + [incoming[i]];
      }
    }
    assert incoming[..|incoming|] == incoming;
  }

  datatype Strategy = Nothing | Insert | Refresh | Replace | Match

  // How a listing is taken over, and how many rows both listings start and end with.
  method Compare(rows: seq<FileItem>, incoming: seq<FileItem>) returns (strategy: Strategy, same: nat, tail: nat)
    ensures strategy.Nothing? ==> rows == incoming == []
    ensures strategy.Insert? ==> rows == [] && incoming != []
    ensures strategy.Refresh? ==> rows != [] && Urls(incoming) == Urls(rows)
    ensures strategy.Replace? ==> SameEnds(rows, incoming, same, tail) && !Moved(rows, incoming, same, tail)
    ensures strategy.Match? ==> same <= |rows| && same <= |incoming|
                                && forall k :: 0 <= k < same ==> rows[k].url == incoming[k].url
    ensures Synchronized(rows, incoming) ==
            if strategy.Match? then Survivors(rows, incoming) + Newcomers(incoming, rows) else incoming
  {
    hide CommonPrefix, CommonTail, Survivors, Newcomers, Moved, Urls, SameEnds, MatchedOneByOne;
    same, tail := 0, 0;
    if rows == [] {
      NothingMoved(rows, incoming);
      strategy := if incoming == [] then Nothing else Insert;
      return;
    }
    var common := if |rows| < |incoming| then |rows| else |incoming|;
    same := SamePrefix(rows, incoming);
    if same == |rows| == |incoming| {
      NothingMoved(rows, incoming);
      strategy := Refresh;
      return;
    }
    tail := SameTail(rows, incoming, common - same);
    var moved := MovedBetween(rows, incoming, same, tail);
    MovedIsMatched(rows, incoming);
    if moved {
      strategy := Match;
    } else {
      EndsOfBoth(rows, incoming);
      strategy := Replace;
    }
  }

  lemma MovedIsMatched(rows: seq<FileItem>, incoming: seq<FileItem>)
    ensures var same := CommonPrefix(rows, incoming);
            MatchedOneByOne(rows, incoming) <==> Moved(rows, incoming, same, TailAfter(rows, incoming, same))
  {
  }

  class DirectoryModel {
    var items: seq<FileItem>
    var rowsByUrl: map<string, int>
    var rowsValid: bool
    var signals: seq<Signal>

    constructor ()
      ensures Valid() && items == [] && signals == []
    {
      items, rowsByUrl, rowsValid, signals := [], map[], true, [];
    }

    ghost predicate Valid()
      reads this
    {
      rowsValid ==> Indexes(rowsByUrl, items)
    }

    // The last row that holds the URL, or -1; the index is built when rows moved since.
    method RowForUrl(url: string) returns (row: int)
      requires Valid()
      modifies `rowsByUrl, `rowsValid
      ensures Valid() && row == LastMatch(items, url)
    {
      if !rowsValid {
        rowsByUrl := map[];
        for row := 0 to |items|
          modifies `rowsByUrl
          invariant Indexes(rowsByUrl, items[..row])
        {
          assert items[..row + 1] == items[..row] + [items[row]];
          IndexAppend(rowsByUrl, items[..row], items[row]);
          rowsByUrl := rowsByUrl[items[row].url := row];
        }
        assert items[..|items|] == items;
        rowsValid := true;
      }
      if url in rowsByUrl {
        row := rowsByUrl[url];
      } else {
        row := -1;
      }
    }

    // Sends a signal; those who hear it may look rows up at once.
    method Emit(s: Signal)
      requires Valid() && s.rows == items
      modifies `signals, `rowsByUrl, `rowsValid
      ensures Valid() && signals == old(signals) + [s]
    {
      signals := signals + [s];
      if * {
        var url: string := *;
        var row := RowForUrl(url);
      }
    }

    method SetDirLister(listing: seq<FileItem>)
      requires Valid()
      modifies this
      ensures Valid() && items == listing
      ensures Explains(signals, |old(signals)|, old(items), items)
    {
      ExplainsNothing(signals, items);
      ExplainsMore(signals, |signals|, items, items, Reset(listing));
      items := listing;
      rowsValid := false;
      Emit(Reset(items));
    }

    method DirectoryChanged()
      requires Valid()
      modifies this
      ensures Valid() && items == []
      ensures Explains(signals, |old(signals)|, old(items), items)
    {
      SetDirLister([]);
    }

    // Brings the rows in step with a new listing.
    method Synchronize(incoming: seq<FileItem>)
      requires Valid()
      modifies this
      ensures Valid() && items == Synchronized(old(items), incoming)
      ensures Explains(signals, |old(signals)|, old(items), items)
      ensures Distinct(old(items)) ==> Spares(signals, |old(signals)|, old(items), incoming)
    {
      hide Explains, Indexes, Synchronized, Survivors, Newcomers, SameEnds, Spares, Moved, Distinct;
      ExplainsNothing(signals, items);
      SparesNothing(signals, items, incoming);
      ghost var sent, was := signals, items;
      var strategy, same, tail := Compare(items, incoming);
      match strategy {
        case Nothing =>
        case Insert =>
          AppendRows(incoming, |old(signals)|, []);
          SparesMore(sent, |sent|, was, was, signals[|sent|], incoming);
        case Refresh =>
          RefreshRows(incoming, |old(signals)|, items);
          SparesMore(sent, |sent|, was, was, signals[|sent|], incoming);
        case Replace => ReplaceMiddle(incoming, same, tail);
        case Match => MatchRows(incoming, same);
      }
    }

    // Gives every row the new item of its file.
    method RefreshRows(renewed: seq<FileItem>, ghost start: nat, ghost was: seq<FileItem>)
      requires Valid() && items != [] && Urls(renewed) == Urls(items)
      requires Explains(signals, start, was, items)
      modifies this
      ensures Valid() && items == renewed && signals == old(signals) + [DataChanged(0, |items| - 1, items)]
      ensures Explains(signals, start, was, items)
    {
      hide Explains, Indexes;
      assert |Urls(renewed)| == |Urls(items)|;
      AllChanged(signals, start, was, items, renewed);
      if rowsValid {
        IndexSurvivesRefresh(rowsByUrl, items, renewed);
      }
      items := renewed;
      Emit(DataChanged(0, |items| - 1, items));
    }

    // Takes rows away.
    method RemoveRows(first: int, count: int, ghost start: nat, ghost was: seq<FileItem>)
      requires Valid() && 0 < count && 0 <= first && first + count <= |items|
      requires Explains(signals, start, was, items)
      modifies this
      ensures Valid() && items == old(items)[..first] + old(items)[first + count..]
      ensures signals == old(signals) + [RowsRemoved(first, count, items)]
      ensures Explains(signals, start, was, items)
    {
      hide Explains, Indexes;
      ghost var s := RowsRemoved(first, count, items[..first] + items[first + count..]);
      ExplainsMore(signals, start, was, items, s);
      items := items[..first] + items[first + count..];
      rowsValid := false;
      Emit(RowsRemoved(first, count, items));
    }

    // Adds rows at the end.
    method AppendRows(added: seq<FileItem>, ghost start: nat, ghost was: seq<FileItem>)
      requires Valid() && added != []
      requires Explains(signals, start, was, items)
      modifies this
      ensures Valid() && items == old(items) + added
      ensures signals == old(signals) + [RowsInserted(|old(items)|, |added|, items)]
      ensures Explains(signals, start, was, items)
    {
      hide Explains, Indexes;
      var first := |items|;
      ghost var s := RowsInserted(first, |added|, items + added);
      assert Apply(items, s) == items + added;
      ExplainsMore(signals, start, was, items, s);
      items := items + added;
      rowsValid := false;
      Emit(RowsInserted(first, |added|, items));
    }

    // Replaces the rows between the ends that both listings share.
    method ReplaceMiddle(incoming: seq<FileItem>, same: nat, tail: nat)
      requires Valid()
      requires SameEnds(items, incoming, same, tail) && !Moved(items, incoming, same, tail)
      modifies this
      ensures Valid() && items == incoming
      ensures Explains(signals, |old(signals)|, old(items), items)
      ensures Distinct(old(items)) ==> Spares(signals, |old(signals)|, old(items), incoming)
    {
      hide Explains, Indexes, SameEnds, Apply, InRange, Ends, Spares, SparesAt, Distinct, Moved;
      ghost var start, was := |signals|, items;
      ExplainsNothing(signals, items);
      SparesNothing(signals, items, incoming);
      EndsAre(was, incoming, same, tail);
      var oldEnd, newEnd := |items| - tail, |incoming| - tail;
      if oldEnd > same {
        ghost var sent := signals;
        RemoveRows(same, oldEnd - same, start, was);
        if Distinct(was) {
          MiddleSpares(was, incoming, same, tail, items);
          SparesMore(sent, start, was, was, RowsRemoved(same, oldEnd - same, items), incoming);
        }
      }
      ghost var view := items;
      MiddleExplained(signals, start, was, incoming, same, tail);
      items := incoming;
      rowsValid := false;
      if newEnd > same {
        ghost var sent, inserted := signals, RowsInserted(same, newEnd - same, incoming);
        if Distinct(was) {
          InsertSpares(view, inserted, incoming);
          SparesMore(sent, start, was, view, inserted, incoming);
        }
        view := Apply(view, inserted);
        Emit(RowsInserted(same, newEnd - same, items));
      }
      FinishView(start, was, view, incoming);
    }

    // Reports all rows as changed, to a view that has the files of the rows already.
    method FinishView(ghost start: nat, ghost was: seq<FileItem>, ghost view: seq<FileItem>,
        ghost listed: seq<FileItem>)
      requires Valid() && Urls(view) == Urls(items)
      requires Explains(signals, start, was, view)
      modifies this
      ensures Valid() && items == old(items)
      ensures Explains(signals, start, was, items)
      ensures Spares(old(signals), start, was, listed) ==> Spares(signals, start, was, listed)
    {
      hide Explains, Indexes, Spares;
      assert |Urls(view)| == |Urls(items)|;
      if items != [] {
        AllChanged(signals, start, was, view, items);
        if Spares(signals, start, was, listed) {
          SparesMore(signals, start, was, view, DataChanged(0, |items| - 1, items), listed);
        }
        Emit(DataChanged(0, |items| - 1, items));
      } else {
        assert view == [];
      }
    }

    // Matches every row with the last item of its file; what has no row is added at the end.
    method MatchRows(incoming: seq<FileItem>, prefix: nat)
      requires Valid()
      requires prefix <= |items| && prefix <= |incoming|
      requires forall k :: 0 <= k < prefix ==> items[k].url == incoming[k].url
      modifies this
      ensures Valid() && items == Survivors(old(items), incoming) + Newcomers(incoming, old(items))
      ensures Explains(signals, |old(signals)|, old(items), items)
      ensures Spares(signals, |old(signals)|, old(items), incoming)
    {
      hide LastMatch, Survivors, Newcomers, Explains, Indexes, Kept, Spares, Lists;
      ghost var start, was := |signals|, items;
      var positions, unique := Positions(incoming);
      var same := if unique then prefix else 0;
      var places := FindPlaces(items, incoming, positions, same);
      PlacesList(was, incoming);
      var sources := RemoveGone(places, incoming);
      KeptInRange(was, incoming);
      KeptAreSurvivors(was, incoming);
      KeptFiles(was, incoming);
      var renewed, kept := TakeItems(incoming, sources);
      if items != [] {
        assert |Urls(renewed)| == |Urls(items)|;
        ghost var sent, view := signals, items;
        RefreshRows(renewed, start, was);
        SparesMore(sent, start, was, view, signals[|sent|], incoming);
      }
      forall p
        ensures p in sources <==> p in places && p >= 0
      {
        KeptPlaces(places, p);
      }
      var added := FindAdded(incoming, positions, kept, unique, was);
      if added != [] {
        ghost var sent, view := signals, items;
        AppendRows(added, start, was);
        SparesMore(sent, start, was, view, signals[|sent|], incoming);
      }
    }

    // Removes the rows without a place, one run of them at a time from the end.
    method RemoveGone(places: seq<int>, ghost listed: seq<FileItem>) returns (sources: seq<int>)
      requires Valid() && |places| == |items|
      requires forall k :: 0 <= k < |items| && places[k] < 0 ==> !Lists(listed, items[k].url)
      modifies this
      ensures Valid() && items == Kept(old(items), places) && sources == Kept(places, places)
      ensures Explains(signals, |old(signals)|, old(items), items)
      ensures Spares(signals, |old(signals)|, old(items), listed)
    {
      hide Explains, Indexes, Kept, PartlyKept, Spares, Lists;
      ghost var start, was := |signals|, items;
      ExplainsNothing(signals, items);
      SparesNothing(signals, items, listed);
      sources := places;
      var last: int := |items| - 1;
      PartlyStarts(was, places);
      PartlyStarts(places, places);
      while last >= 0
        invariant -1 <= last < |was|
        invariant items == PartlyKept(was, places, last + 1) && sources == PartlyKept(places, places, last + 1)
        invariant Valid() && Explains(signals, start, was, items) && Spares(signals, start, was, listed)
      {
        PartlyAt(places, places, last + 1);
        PartlyAt(was, places, last + 1);
        if sources[last] >= 0 {
          PartlyOne(was, places, last);
          PartlyOne(places, places, last);
          last := last - 1;
          continue;
        }
        var first: int := RunStart(sources, last);
        PartlyNone(was, places, first, last + 1);
        PartlyNone(places, places, first, last + 1);
        ghost var sent, view := signals, items;
        RemoveRows(first, last - first + 1, start, was);
        SparesMore(sent, start, was, view, signals[|sent|], listed);
        sources := sources[..first] + sources[last + 1..];
        last := first - 1;
      }
      PartlyEnds(was, places);
      PartlyEnds(places, places);
    }
  }

  // Between the shared ends no row is listed, where none moved.
  lemma MiddleSpares(rows: seq<FileItem>, incoming: seq<FileItem>, same: nat, tail: nat, left: seq<FileItem>)
    requires Distinct(rows) && SameEnds(rows, incoming, same, tail) && !Moved(rows, incoming, same, tail)
    ensures SparesAt(rows, RowsRemoved(same, |rows| - tail - same, left), incoming)
  {
    hide Lists;
    forall r | 0 <= r < |rows| && same <= r < |rows| - tail
      ensures !Lists(incoming, rows[r].url)
    {
      MiddleIsGone(rows, incoming, same, tail, r);
    }
  }

  lemma InsertSpares(view: seq<FileItem>, s: Signal, listed: seq<FileItem>)
    requires s.RowsInserted?
    ensures SparesAt(view, s, listed)
  {
  }

  lemma PlacesList(rows: seq<FileItem>, incoming: seq<FileItem>)
    ensures forall k :: 0 <= k < |rows| && Places(rows, incoming)[k] < 0 ==> !Lists(incoming, rows[k].url)
  {
  }

  // Where the run of rows without a place that ends at `last` starts.
  method RunStart(sources: seq<int>, last: nat) returns (first: nat)
    requires last < |sources| && sources[last] < 0
    ensures first <= last && forall k :: first <= k <= last ==> sources[k] < 0
  {
    first := last;
    while first > 0 && sources[first - 1] < 0
      invariant first <= last
      invariant forall k :: first <= k <= last ==> sources[k] < 0
    {
      first := first - 1;
    }
  }

  // The elements before a place, and those kept from there on.
  ghost function PartlyKept<T>(xs: seq<T>, places: seq<int>, from: nat): seq<T>
    requires |xs| == |places| && from <= |xs|
  {
    xs[..from] + Kept(xs[from..], places[from..])
  }

  lemma PartlyStarts<T>(xs: seq<T>, places: seq<int>)
    requires |xs| == |places|
    ensures PartlyKept(xs, places, |xs|) == xs
  {
  }

  lemma PartlyEnds<T>(xs: seq<T>, places: seq<int>)
    requires |xs| == |places|
    ensures PartlyKept(xs, places, 0) == Kept(xs, places)
  {
    assert xs[0..] == xs && places[0..] == places;
  }

  lemma PartlyAt<T>(xs: seq<T>, places: seq<int>, from: nat)
    requires |xs| == |places| && from <= |xs|
    ensures from <= |PartlyKept(xs, places, from)|
    ensures forall k :: 0 <= k < from ==> PartlyKept(xs, places, from)[k] == xs[k]
  {
  }

  lemma PartlyOne<T>(xs: seq<T>, places: seq<int>, k: nat)
    requires |xs| == |places| && k < |xs| && places[k] >= 0
    ensures PartlyKept(xs, places, k) == PartlyKept(xs, places, k + 1)
  {
    KeptOne(xs, places, k);
    assert xs[..k + 1] == xs[..k] + [xs[k]];
  }

  // Taking out a run of elements without a place.
  lemma PartlyNone<T>(xs: seq<T>, places: seq<int>, from: nat, to: nat)
    requires |xs| == |places| && from <= to <= |xs|
    requires forall k :: from <= k < to ==> places[k] < 0
    ensures var r := PartlyKept(xs, places, to);
            to <= |r| && r[..from] + r[to..] == PartlyKept(xs, places, from)
  {
    hide Kept;
    KeptNone(xs, places, from, to);
    Cut(xs, Kept(xs[to..], places[to..]), from, to);
  }

  lemma Cut<T>(xs: seq<T>, rest: seq<T>, from: nat, to: nat)
    requires from <= to <= |xs|
    ensures (xs[..to] + rest)[..from] == xs[..from] && (xs[..to] + rest)[to..] == rest
  {
  }

  // The items at the given places, and which places were taken.
  method TakeItems(incoming: seq<FileItem>, sources: seq<int>) returns (renewed: seq<FileItem>, kept: seq<bool>)
    requires forall k :: 0 <= k < |sources| ==> 0 <= sources[k] < |incoming|
    ensures renewed == ItemsAt(incoming, sources)
    ensures |kept| == |incoming| && forall p :: 0 <= p < |kept| ==> (kept[p] <==> p in sources)
  {
    kept := seq(|incoming|, _ => false);
    renewed := [];
    for row := 0 to |sources|
      invariant renewed == ItemsAt(incoming, sources)[..row]
      invariant |kept| == |incoming| && forall p :: 0 <= p < |kept| ==> (kept[p] <==> p in sources[..row])
    {
      assert sources[..row + 1] == sources[..row] + [sources[row]];
      kept := kept[sources[row] := true];
      renewed := renewed + [incoming[sources[row]]];
    }
    assert sources[..|sources|] == sources;
  }

  // Both listings have the same files in their first `same` and last `tail` rows.
  ghost predicate SameEnds(rows: seq<FileItem>, incoming: seq<FileItem>, same: nat, tail: nat) {
    && same + tail <= |rows| && same + tail <= |incoming|
    && (forall k :: 0 <= k < same ==> rows[k].url == incoming[k].url)
    && (forall k :: |rows| - tail <= k < |rows| ==> rows[k].url == incoming[k - |rows| + |incoming|].url)
  }

  // The rows of both ends.
  function Ends(rows: seq<FileItem>, same: nat, tail: nat): seq<FileItem>
    requires same + tail <= |rows|
  {
    rows[..same] + rows[|rows| - tail..]
  }

  lemma EndsAre(rows: seq<FileItem>, incoming: seq<FileItem>, same: nat, tail: nat)
    requires SameEnds(rows, incoming, same, tail)
    ensures same + tail <= |rows| && same + tail <= |incoming| && |Ends(rows, same, tail)| == same + tail
    ensures Ends(rows, same, tail) == rows[..same] + rows[same + (|rows| - tail - same)..]
    ensures |rows| - tail == same ==> Ends(rows, same, tail) == rows
  {
  }

  // Between the shared ends, the new middle gives the view the files of the listing.
  lemma MiddleInserted(rows: seq<FileItem>, incoming: seq<FileItem>, same: nat, tail: nat)
    requires SameEnds(rows, incoming, same, tail)
    ensures var ends := Ends(rows, same, tail);
            Urls(ends[..same] + incoming[same..|incoming| - tail] + ends[same..]) == Urls(incoming)
    ensures |incoming| - tail == same ==> Urls(Ends(rows, same, tail)) == Urls(incoming)
  {
    var ends := Ends(rows, same, tail);
    var view := ends[..same] + incoming[same..|incoming| - tail] + ends[same..];
    assert |view| == |incoming|;
    forall k | 0 <= k < |view|
      ensures view[k].url == incoming[k].url
    {
      if k >= |incoming| - tail {
        assert view[k] == rows[k - |incoming| + |rows|];
      }
    }
    if |incoming| - tail == same {
      assert view == ends;
    }
  }

  // What a view holds of the ends becomes the files of the listing, by one signal or none.
  lemma MiddleExplained(signals: seq<Signal>, start: nat, was: seq<FileItem>, incoming: seq<FileItem>, same: nat,
      tail: nat)
    requires SameEnds(was, incoming, same, tail)
    requires Explains(signals, start, was, Ends(was, same, tail))
    ensures var view, count := Ends(was, same, tail), |incoming| - tail - same;
            var s := RowsInserted(same, count, incoming);
            if count > 0
            then
              && InRange(view, s) && Urls(Apply(view, s)) == Urls(incoming)
              && Explains(signals + [s], start, was, Apply(view, s))
            else Urls(view) == Urls(incoming)
  {
    hide Explains, Apply, InRange, Ends, Urls, SameEnds;
    EndsAre(was, incoming, same, tail);
    var view, count := Ends(was, same, tail), |incoming| - tail - same;
    MiddleInserted(was, incoming, same, tail);
    if count > 0 {
      InsertedIs(view, incoming, same, count);
      ExplainsMore(signals, start, was, view, RowsInserted(same, count, incoming));
    }
  }

  lemma InsertedIs(view: seq<FileItem>, rows: seq<FileItem>, first: nat, count: nat)
    requires first <= |view| && first + count <= |rows| && count > 0
    ensures var s := RowsInserted(first, count, rows);
            InRange(view, s) && Apply(view, s) == view[..first] + rows[first..first + count] + view[first..]
  {
  }

  lemma KeptOne<T>(xs: seq<T>, places: seq<int>, k: nat)
    requires |xs| == |places| && k < |xs| && places[k] >= 0
    ensures Kept(xs[k..], places[k..]) == [xs[k]] + Kept(xs[k + 1..], places[k + 1..])
  {
    assert xs[k..][1..] == xs[k + 1..] && places[k..][1..] == places[k + 1..];
  }

  lemma {:induction false} KeptNone<T>(xs: seq<T>, places: seq<int>, from: nat, to: nat)
    requires |xs| == |places| && from <= to <= |xs|
    requires forall k :: from <= k < to ==> places[k] < 0
    ensures Kept(xs[from..], places[from..]) == Kept(xs[to..], places[to..])
    decreases |xs| - from
  {
    if from < to {
      assert xs[from..][1..] == xs[from + 1..] && places[from..][1..] == places[from + 1..];
      KeptNone(xs, places, from + 1, to);
    }
  }
}
