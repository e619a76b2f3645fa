/** `ClipStorage`: the clipboard history list. New entries go to the front,
    entries are removed by id or by age, and the list read back at launch is
    sorted newest first. Each operation is a function from the list before
    to the list after; the identifier and the clock are parameters. */
module ClipStorage {
  import opened Common
  import Uuid
  import Base64
  import opened Clips

  /** One day, in seconds. */
  const OneDay: int := 60 * 60 * 24

  /** `expireInterval` after `init`: the stored value, or one day when nothing
      is stored (the defaults database reads a missing value as 0). */
  function InitialExpireInterval(stored: int): (r: int)
    ensures r != 0
    ensures stored != 0 ==> r == stored
    ensures stored == 0 ==> r == OneDay
  {
    if stored == 0 then OneDay else stored
  }

  /** `save(type:data:applicationName:windowName:)`: the new entry, holding
      the data as Base 64, goes in front of the existing ones. */
  function Save(items: seq<ClipItem>, id: Uuid.Uuid, now: int, kind: string, data: Bytes,
                app: string, window: string): (r: seq<ClipItem>)
    ensures |r| == |items| + 1 && r[1..] == items
    ensures r[0].id == id && r[0].timestamp == now && r[0].kind == kind
    ensures r[0].applicationName == app && r[0].windowName == window
    ensures Base64.Decode(r[0].base64Data) == Some(data)
  {
    Base64.DecodeEncode(data);
    [ClipItem(id, now, kind, Base64.Encode(data), app, window)] + items
  }

  /** Keeps the entries whose id differs from `id`. */
  function OtherId(id: Uuid.Uuid): ClipItem -> bool {
    (x: ClipItem) => x.id != id
  }

  /** `delete(item:)`: every entry carrying the item's id goes; the rest keep
      their order. */
  function Delete(items: seq<ClipItem>, id: Uuid.Uuid): (r: seq<ClipItem>)
    ensures forall i :: 0 <= i < |r| ==> r[i].id != id
    ensures forall i :: 0 <= i < |items| && items[i].id != id ==> items[i] in r
    ensures forall i :: 0 <= i < |r| ==> r[i] in items
  {
    Filter(items, OtherId(id))
  }

  /** Deleting removes exactly the entries with the id: each other entry
      keeps its number of occurrences. */
  lemma DeleteCounts(items: seq<ClipItem>, id: Uuid.Uuid, x: ClipItem)
    ensures multiset(Delete(items, id))[x] == if x.id == id then 0 else multiset(items)[x]
  {
    FilterMultiset(items, OtherId(id), x);
  }

  /** Deleting the same id twice is deleting it once. */
  lemma DeleteIdempotent(items: seq<ClipItem>, id: Uuid.Uuid)
    ensures Delete(Delete(items, id), id) == Delete(items, id)
  {
    FilterIdempotent(items, OtherId(id));
  }

  /** Deletion keeps relative order: deleting from a concatenation is
      deleting from each part. */
  lemma DeleteKeepsOrder(a: seq<ClipItem>, b: seq<ClipItem>, id: Uuid.Uuid)
    ensures Delete(a + b, id) == Delete(a, id) + Delete(b, id)
  {
    FilterConcat(a, b, OtherId(id));
  }

  /** Deleting the entry just saved gives back the list before the save,
      when no older entry shares its id. */
  lemma DeleteUndoesSave(items: seq<ClipItem>, id: Uuid.Uuid, now: int, kind: string, data: Bytes,
                         app: string, window: string)
    requires forall i :: 0 <= i < |items| ==> items[i].id != id
    ensures Delete(Save(items, id, now, kind, data, app, window), id) == items
  {
    var s := Save(items, id, now, kind, data, app, window);
    FilterAllPass(items, OtherId(id));
    assert s == [s[0]] + items;
  }

  /** Keeps the entries that are not older than the cutoff. */
  function NotBefore(cutoff: int): ClipItem -> bool {
    (x: ClipItem) => x.timestamp >= cutoff
  }

  /** `deleteExpiredItems()`: removes the entries older than `now` minus the
      interval. */
  function DeleteExpired(items: seq<ClipItem>, now: int, interval: int): (r: seq<ClipItem>)
    ensures forall i :: 0 <= i < |r| ==> r[i].timestamp >= now - interval && r[i] in items
    ensures forall i :: 0 <= i < |items| && items[i].timestamp >= now - interval ==> items[i] in r
  {
    Filter(items, NotBefore(now - interval))
  }

  /** Expiry removes exactly the entries older than the cutoff: each other
      entry keeps its number of occurrences. */
  lemma DeleteExpiredCounts(items: seq<ClipItem>, now: int, interval: int, x: ClipItem)
    ensures multiset(DeleteExpired(items, now, interval))[x]
      == if x.timestamp < now - interval then 0 else multiset(items)[x]
  {
    FilterMultiset(items, NotBefore(now - interval), x);
  }

  /** Expiry keeps relative order: expiring a concatenation is expiring each
      part. */
  lemma DeleteExpiredKeepsOrder(a: seq<ClipItem>, b: seq<ClipItem>, now: int, interval: int)
    ensures DeleteExpired(a + b, now, interval) == DeleteExpired(a, now, interval) + DeleteExpired(b, now, interval)
  {
    FilterConcat(a, b, NotBefore(now - interval));
  }

  /** Expiring at a later time after an earlier one is expiring at the later
      time alone; in particular expiring twice at once changes nothing more. */
  lemma DeleteExpiredLater(items: seq<ClipItem>, t1: int, t2: int, interval: int)
    requires t1 <= t2
    ensures DeleteExpired(DeleteExpired(items, t1, interval), t2, interval) == DeleteExpired(items, t2, interval)
  {
    FilterFilter(items, NotBefore(t1 - interval), NotBefore(t2 - interval));
  }

  /** Timestamps never increase along the list. */
  ghost predicate NewestFirst(items: seq<ClipItem>) {
    forall i, j :: 0 <= i < j < |items| ==> items[i].timestamp >= items[j].timestamp
  }

  /** Places an entry in a newest-first list, in front of the entries that
      are not newer than it. */
  function Insert(x: ClipItem, s: seq<ClipItem>): (r: seq<ClipItem>)
    ensures |r| == |s| + 1
    ensures multiset(r) == multiset(s) + multiset{x}
    ensures forall i :: 0 <= i < |r| ==> r[i] == x || r[i] in s
    decreases |s|
  {
    if |s| == 0 || s[0].timestamp <= x.timestamp then [x] + s
    else
      assert s == [s[0]] + s[1..];
      [s[0]] + Insert(x, s[1..])
  }

  lemma {:induction false} InsertSorted(x: ClipItem, s: seq<ClipItem>)
    requires NewestFirst(s)
    ensures NewestFirst(Insert(x, s))
    decreases |s|
  {
    if |s| > 0 && s[0].timestamp > x.timestamp {
      InsertSorted(x, s[1..]);
      var t := Insert(x, s[1..]);
      forall i | 0 <= i < |t|
        ensures s[0].timestamp >= t[i].timestamp
      {
        if t[i] != x {
          var j :| 0 <= j < |s[1..]| && s[1..][j] == t[i];
          assert s[j + 1] == t[i];
        }
      }
    }
  }

  /** `sorted(by: { $0.timestamp > $1.timestamp })`, as an insertion sort;
      entries with equal timestamps keep their order, as Swift's stable
      sort guarantees. */
  function SortNewestFirst(s: seq<ClipItem>): (r: seq<ClipItem>)
    ensures |r| == |s|
    decreases |s|
  {
    if |s| == 0 then [] else Insert(s[0], SortNewestFirst(s[1..]))
  }

  /** The sorted list is newest first and holds the same entries, each as
      often as before. */
  lemma SortCorrect(s: seq<ClipItem>)
    ensures NewestFirst(SortNewestFirst(s))
    ensures multiset(SortNewestFirst(s)) == multiset(s)
  {
    SortSorted(s);
    SortPermutes(s);
  }

  lemma {:induction false} SortSorted(s: seq<ClipItem>)
    ensures NewestFirst(SortNewestFirst(s))
    decreases |s|
  {
    if |s| > 0 {
      SortSorted(s[1..]);
      InsertSorted(s[0], SortNewestFirst(s[1..]));
    }
  }

  lemma {:induction false} SortPermutes(s: seq<ClipItem>)
    ensures multiset(SortNewestFirst(s)) == multiset(s)
    decreases |s|
  {
    if |s| > 0 {
      SortPermutes(s[1..]);
      MultisetCons(s);
      assert SortNewestFirst(s) == Insert(s[0], SortNewestFirst(s[1..]));
    }
  }


  /** A list that is already newest first is left as it is. */
  lemma {:induction false} SortKeepsSorted(s: seq<ClipItem>)
    requires NewestFirst(s)
    ensures SortNewestFirst(s) == s
    decreases |s|
  {
    if |s| > 0 {
      SortKeepsSorted(s[1..]);
      assert s == [s[0]] + s[1..];
    }
  }

  /** `loadItems()`: the stored list sorted newest first; when nothing is
      stored or it cannot be decoded the list stays empty. */
  function Load(stored: Option<seq<ClipItem>>): (r: seq<ClipItem>)
    ensures stored.None? ==> r == []
    ensures stored.Some? ==> |r| == |stored.value|
  {
    match stored
    case None => []
    case Some(items) => SortNewestFirst(items)
  }

  /** Loading gives a newest-first permutation of what was stored. */
  lemma LoadSorts(items: seq<ClipItem>)
    ensures NewestFirst(Load(Some(items))) && multiset(Load(Some(items))) == multiset(items)
  {
    SortCorrect(items);
  }

  /** Filtering keeps a newest-first list newest first. */
  lemma {:induction false} FilterKeepsNewestFirst(s: seq<ClipItem>, p: ClipItem -> bool)
    requires NewestFirst(s)
    ensures NewestFirst(Filter(s, p))
    decreases |s|
  {
    if |s| > 0 {
      TailNewestFirst(s);
      FilterKeepsNewestFirst(s[1..], p);
      var t := Filter(s[1..], p);
      forall i | 0 <= i < |t|
        ensures s[0].timestamp >= t[i].timestamp
      {
        var j :| 0 <= j < |s[1..]| && s[1..][j] == t[i];
        assert s[j + 1] == t[i];
      }
      if p(s[0]) {
        assert Filter(s, p) == [s[0]] + t;
        ConsNewestFirst(s[0], t);
      }
    }
  }

  lemma TailNewestFirst(s: seq<ClipItem>)
    requires |s| > 0 && NewestFirst(s)
    ensures NewestFirst(s[1..])
  {
    forall i, j | 0 <= i < j < |s[1..]|
      ensures s[1..][i].timestamp >= s[1..][j].timestamp
    {
      assert s[1..][i] == s[i + 1] && s[1..][j] == s[j + 1];
    }
  }

  lemma ConsNewestFirst(x: ClipItem, t: seq<ClipItem>)
    requires NewestFirst(t)
    requires forall i :: 0 <= i < |t| ==> x.timestamp >= t[i].timestamp
    ensures NewestFirst([x] + t)
  {
    var r := [x] + t;
    forall i, j | 0 <= i < j < |r|
      ensures r[i].timestamp >= r[j].timestamp
    {
      assert r[j] == t[j - 1];
      if i > 0 {
        assert r[i] == t[i - 1];
      }
    }
  }

  /** While the clock does not run backwards, saving, deleting and expiring
      keep the history newest first, so the list written out is the list
      read back at the next launch. */
  lemma OperationsKeepNewestFirst(items: seq<ClipItem>, id: Uuid.Uuid, now: int, kind: string,
                                  data: Bytes, app: string, window: string, interval: int)
    requires NewestFirst(items)
    requires |items| > 0 ==> items[0].timestamp <= now
    ensures NewestFirst(Save(items, id, now, kind, data, app, window))
    ensures NewestFirst(Delete(items, id))
    ensures NewestFirst(DeleteExpired(items, now, interval))
    ensures Load(Some(items)) == items
  {
    var s := Save(items, id, now, kind, data, app, window);
    forall i, j | 0 <= i < j < |s|
      ensures s[i].timestamp >= s[j].timestamp
    {
      if i > 0 {
        assert s[i] == items[i - 1] && s[j] == items[j - 1];
      } else {
        assert s[j] == items[j - 1];
      }
    }
    FilterKeepsNewestFirst(items, OtherId(id));
    FilterKeepsNewestFirst(items, NotBefore(now - interval));
    SortKeepsSorted(items);
  }
}
