/** frontend/src/api/conversationAttention.ts: collecting the notifications that need attention from a
    paged listing, against a server that may answer each request as it likes. */
module ConversationAttention {
  import opened Results
  import opened Sorting

  datatype Notification = Notification(id: string, taskId: Option<string>, category: string, state: string, updatedAt: string)

  datatype Page = Page(items: seq<Notification>, next: Option<string>)

  /** The server's answer to the n-th request, with the cursor it carries. */
  type Server = (nat, Option<string>) -> Page

  datatype PagingError = RepeatedCursor

  predicate Relevant(item: Notification, taskIds: set<string>) {
    && item.taskId.Some? && item.taskId.value in taskIds
    && (item.category == "approval" || item.category == "agent_input")
    && item.state != "dismissed" && item.state != "archived"
  }

  // ----- pages

  /** The cursor to follow: an absent one and an empty one both end the listing. */
  function Follow(page: Page): Option<string> {
    if page.next == Some("") then None else page.next
  }

  function PageAt(serve: Server, n: nat): Page {
    serve(n, if n == 0 then None else Follow(PageAt(serve, n - 1)))
  }

  /** All items of the first `n` pages, in order. */
  function ItemsOf(serve: Server, n: nat): seq<Notification> {
    if n == 0 then [] else ItemsOf(serve, n - 1) + PageAt(serve, n - 1).items
  }

  ghost predicate CursorsIn(serve: Server, cursors: set<string>) {
    forall n: nat, c: Option<string> {:trigger serve(n, c)} :: Follow(serve(n, c)).Some? ==> Follow(serve(n, c)).value in cursors
  }

  predicate Repeats(serve: Server, n: nat) {
    exists k: nat :: k < n && Follow(PageAt(serve, k)) == Follow(PageAt(serve, n))
  }

  /** The listing goes on after page `n`. */
  predicate GoesOn(serve: Server, n: nat) {
    Follow(PageAt(serve, n)).Some? && !Repeats(serve, n)
  }

  // ----- the last match of every identity

  /** `Map.set`: a known identity keeps its place. */
  function Put(entries: seq<Notification>, item: Notification): seq<Notification> {
    if entries == [] then [item]
    else if entries[0].id == item.id then [item] + entries[1..]
    else [entries[0]] + Put(entries[1..], item)
  }

  function Latest(items: seq<Notification>, taskIds: set<string>): seq<Notification> {
    if items == [] then []
    else
      var n := |items| - 1;
      var before := Latest(items[..n], taskIds);
      if Relevant(items[n], taskIds) then Put(before, items[n]) else before
  }

  ghost predicate DistinctIds(entries: seq<Notification>) {
    forall i, j :: 0 <= i < j < |entries| ==> entries[i].id != entries[j].id
  }

  /** `items[i]` matches and no later item with its identity does. */
  predicate LastMatchAt(items: seq<Notification>, taskIds: set<string>, i: int) {
    && 0 <= i < |items| && Relevant(items[i], taskIds)
    && forall j :: i < j < |items| && items[j].id == items[i].id ==> !Relevant(items[j], taskIds)
  }

  ghost predicate IsLastMatch(items: seq<Notification>, taskIds: set<string>, item: Notification) {
    exists i :: LastMatchAt(items, taskIds, i) && items[i] == item
  }

  lemma {:induction false} PutEffect(entries: seq<Notification>, item: Notification)
    requires DistinctIds(entries)
    ensures DistinctIds(Put(entries, item))
    ensures forall x :: x in Put(entries, item) <==> x == item || (x in entries && x.id != item.id)
  {
    if entries != [] {
      var rest := entries[1..];
      assert forall i :: 1 <= i < |entries| ==> entries[0].id != entries[i].id && rest[i - 1] == entries[i];
      assert entries == [entries[0]] + rest;
      if entries[0].id != item.id {
        PutEffect(rest, item);
      }
    }
  }

  lemma LastMatchStep(items: seq<Notification>, taskIds: set<string>, item: Notification, x: Notification)
    ensures Relevant(item, taskIds) ==>
      (IsLastMatch(items + [item], taskIds, x) <==> x == item || (IsLastMatch(items, taskIds, x) && x.id != item.id))
    ensures !Relevant(item, taskIds) ==> (IsLastMatch(items + [item], taskIds, x) <==> IsLastMatch(items, taskIds, x))
  {
    var longer, n := items + [item], |items|;
    hide Relevant;
    if Relevant(item, taskIds) { assert LastMatchAt(longer, taskIds, n) && longer[n] == item; }
    if IsLastMatch(items, taskIds, x) {
      var i :| LastMatchAt(items, taskIds, i) && items[i] == x;
      if !Relevant(item, taskIds) || x.id != item.id { assert LastMatchAt(longer, taskIds, i) && longer[i] == x; }
    }
    if IsLastMatch(longer, taskIds, x) {
      var i :| LastMatchAt(longer, taskIds, i) && longer[i] == x;
      if i < n {
        assert forall j :: 0 <= j < n ==> items[j] == longer[j];
        assert LastMatchAt(items, taskIds, i);
        assert longer[n] == item;
      }
    }
  }

  /** The collected entries are exactly the last matching occurrence of every identity. */
  lemma {:induction false} LatestIsLastMatch(items: seq<Notification>, taskIds: set<string>)
    ensures DistinctIds(Latest(items, taskIds))
    ensures forall x :: x in Latest(items, taskIds) <==> IsLastMatch(items, taskIds, x)
  {
    hide IsLastMatch, Relevant, DistinctIds;
    if items == [] {
      NothingMatches(taskIds);
    } else {
      var n := |items| - 1;
      LatestIsLastMatch(items[..n], taskIds);
      assert items == items[..n] + [items[n]];
      if Relevant(items[n], taskIds) { PutEffect(Latest(items[..n], taskIds), items[n]); }
      forall x ensures x in Latest(items, taskIds) <==> IsLastMatch(items, taskIds, x) {
        LastMatchStep(items[..n], taskIds, items[n], x);
      }
    }
  }

  lemma NothingMatches(taskIds: set<string>)
    ensures DistinctIds([]) && forall x :: !IsLastMatch([], taskIds, x)
  {}

  // ----- the listing

  /** Newest first, by the order `localeCompare` puts on the timestamps. */
  function NewestFirst(collate: (string, string) -> bool): (Notification, Notification) -> bool {
    (a: Notification, b: Notification) => collate(b.updatedAt, a.updatedAt)
  }

  ghost predicate Collation(collate: (string, string) -> bool) {
    && (forall a, b :: collate(a, b) || collate(b, a))
    && (forall a, b, c :: collate(a, b) && collate(b, c) ==> collate(a, c))
  }

  lemma NewestFirstPreorder(entries: seq<Notification>, collate: (string, string) -> bool)
    requires Collation(collate)
    ensures PreorderOn(entries, NewestFirst(collate))
  {
    var le := NewestFirst(collate);
    forall a, b | a in entries && b in entries ensures le(a, b) || le(b, a) {
      assert collate(a.updatedAt, b.updatedAt) || collate(b.updatedAt, a.updatedAt);
    }
    forall a, b, c | a in entries && b in entries && c in entries && le(a, b) && le(b, c) ensures le(a, c) {
      assert collate(c.updatedAt, b.updatedAt) && collate(b.updatedAt, a.updatedAt);
    }
  }

  /** Every matching identity once, in its last version, newest first. */
  ghost predicate IsListing(r: seq<Notification>, items: seq<Notification>, taskIds: set<string>, collate: (string, string) -> bool) {
    && DistinctIds(r) && Sorted(r, NewestFirst(collate))
    && forall x :: x in r <==> IsLastMatch(items, taskIds, x)
  }

  lemma DistinctFromMultiset(s: seq<Notification>, t: seq<Notification>)
    requires DistinctIds(s) && multiset(s) == multiset(t)
    ensures DistinctIds(t)
  {
    forall i, j | 0 <= i < j < |t| ensures t[i].id != t[j].id {
      var before, between, after := t[..i], t[i + 1..j], t[j + 1..];
      assert t == before + [t[i]] + between + [t[j]] + after;
      assert multiset(s) == multiset(before) + multiset{t[i]} + multiset(between) + multiset{t[j]} + multiset(after);
      TwoPlaces(s, t[i], t[j]);
    }
  }

  lemma TwoPlaces(s: seq<Notification>, a: Notification, b: Notification)
    requires multiset{a, b} <= multiset(s)
    ensures exists i, j :: 0 <= i < |s| && 0 <= j < |s| && i != j && s[i] == a && s[j] == b
  {
    assert a in multiset(s);
    var i :| 0 <= i < |s| && s[i] == a;
    WithoutOne(s, i);
    var rest := s[..i] + s[i + 1..];
    assert b in multiset(rest);
    var j :| 0 <= j < |rest| && rest[j] == b;
    assert s[if j < i then j else j + 1] == b;
  }

  lemma WithoutOne<T>(s: seq<T>, i: nat)
    requires i < |s|
    ensures multiset(s) == multiset{s[i]} + multiset(s[..i] + s[i + 1..])
  {
    assert s == s[..i] + [s[i]] + s[i + 1..];
  }

  lemma SortedListing(items: seq<Notification>, taskIds: set<string>, collate: (string, string) -> bool)
    requires Collation(collate)
    ensures IsListing(Sort(Latest(items, taskIds), NewestFirst(collate)), items, taskIds, collate)
  {
    hide IsLastMatch, Relevant, Latest, DistinctIds, Sorted;
    var entries := Latest(items, taskIds);
    LatestIsLastMatch(items, taskIds);
    SortMembers(entries, NewestFirst(collate));
    SortPermutes(entries, NewestFirst(collate));
    DistinctFromMultiset(entries, Sort(entries, NewestFirst(collate)));
    NewestFirstPreorder(entries, collate);
    SortSorts(entries, NewestFirst(collate));
  }

  lemma {:induction false} LatestAppend(items: seq<Notification>, more: seq<Notification>, taskIds: set<string>, k: nat)
    requires k < |more|
    ensures Latest(items + more[..k + 1], taskIds)
         == if Relevant(more[k], taskIds) then Put(Latest(items + more[..k], taskIds), more[k]) else Latest(items + more[..k], taskIds)
  {
    var longer := items + more[..k + 1];
    assert longer[..|longer| - 1] == items + more[..k] && longer[|longer| - 1] == more[k];
  }

  /** One page into the map of matches. */
  method CollectPage(items: seq<Notification>, matched: seq<Notification>, taskIds: set<string>, ghost before: seq<Notification>)
    returns (r: seq<Notification>)
    requires matched == Latest(before, taskIds)
    ensures r == Latest(before + items, taskIds)
  {
    hide Relevant, Latest;
    r := matched;
    assert before + items[..0] == before;
    for i := 0 to |items|
      invariant r == Latest(before + items[..i], taskIds)
    {
      LatestAppend(before, items, taskIds, i);
      if Relevant(items[i], taskIds) {
        r := Put(r, items[i]);
      }
    }
    assert items[..|items|] == items;
  }

  /** The listing went on after each of the first `n` pages, and `seen` holds their cursors. */
  ghost predicate Seen(serve: Server, n: nat, seen: set<string>) {
    && (forall k: nat :: k < n ==> GoesOn(serve, k) && Follow(PageAt(serve, k)).value in seen)
    && forall c :: c in seen ==> CursorUsed(serve, n, c)
  }

  ghost predicate CursorUsed(serve: Server, n: nat, c: string) {
    exists k: nat :: k < n && Follow(PageAt(serve, k)) == Some(c)
  }

  lemma NothingSeen(serve: Server)
    ensures Seen(serve, 0, {})
  {}

  lemma SeenDecides(serve: Server, n: nat, seen: set<string>)
    requires Seen(serve, n, seen)
    ensures GoesOn(serve, n) <==> Follow(PageAt(serve, n)).Some? && Follow(PageAt(serve, n)).value !in seen
    ensures GoesOn(serve, n) ==> Seen(serve, n + 1, seen + {Follow(PageAt(serve, n)).value})
    ensures forall k: nat :: k < n ==> GoesOn(serve, k)
  {
    hide PageAt, Follow;
    var next := Follow(PageAt(serve, n));
    if next.Some? {
      if next.value in seen {
        assert CursorUsed(serve, n, next.value);
        assert Repeats(serve, n);
      } else {
        forall k: nat | k < n ensures Follow(PageAt(serve, k)) != next {
          assert Follow(PageAt(serve, k)).value in seen;
        }
        assert GoesOn(serve, n);
        var seen' := seen + {next.value};
        forall c | c in seen' ensures CursorUsed(serve, n + 1, c) {
          if c in seen {
            var k: nat :| k < n && Follow(PageAt(serve, k)) == Some(c);
            assert k < n + 1;
          } else {
            assert n < n + 1 && Follow(PageAt(serve, n)) == Some(c);
          }
        }
      }
    }
  }

  /** `listConversationAttentionNotifications`: with cursors from a finite set the listing ends; it fails
      exactly when the last cursor was seen before, and otherwise returns the last version of every match. */
  method ListNotifications(serve: Server, taskIds: set<string>, collate: (string, string) -> bool, ghost cursors: set<string>)
    returns (r: Result<seq<Notification>, PagingError>, fetches: nat)
    requires CursorsIn(serve, cursors) && Collation(collate)
    ensures taskIds == {} ==> r == Ok([]) && fetches == 0
    ensures taskIds != {} ==> 1 <= fetches <= |cursors| + 1
    ensures forall k: nat :: k < fetches - 1 ==> GoesOn(serve, k)
    ensures taskIds != {} ==> !GoesOn(serve, fetches - 1) && (r.Err? <==> Follow(PageAt(serve, fetches - 1)).Some?)
    ensures r.Ok? ==> IsListing(r.value, ItemsOf(serve, fetches), taskIds, collate)
    ensures r.Ok? ==> r.value == Sort(Latest(ItemsOf(serve, fetches), taskIds), NewestFirst(collate))
  {
    hide Relevant, IsListing, Collation, Latest, Sort, Seen, Repeats;
    fetches := 0;
    if |taskIds| == 0 {
      assert Sort(Latest(ItemsOf(serve, 0), taskIds), NewestFirst(collate)) == [] by { NothingListed(taskIds, collate); }
      SortedListing([], taskIds, collate);
      return Ok([]), 0;
    }
    var matched: seq<Notification> := [];
    var seenCursors: set<string> := {};
    var cursor: Option<string> := None;
    assert Latest(ItemsOf(serve, 0), taskIds) == [] by { NothingListed(taskIds, collate); }
    NothingSeen(serve);
    while true
      invariant cursor == if fetches == 0 then None else Follow(PageAt(serve, fetches - 1))
      invariant Seen(serve, fetches, seenCursors)
      invariant seenCursors <= cursors && |seenCursors| == fetches
      invariant matched == Latest(ItemsOf(serve, fetches), taskIds)
      decreases cursors - seenCursors
    {
      SubsetSize(seenCursors, cursors);
      var page := serve(fetches, cursor);
      assert page == PageAt(serve, fetches);
      matched := CollectPage(page.items, matched, taskIds, ItemsOf(serve, fetches));
      SeenDecides(serve, fetches, seenCursors);
      fetches := fetches + 1;
      var next := Follow(page);
      if next.None? { break; }
      if next.value in seenCursors {
        return Err(RepeatedCursor), fetches;
      }
      seenCursors := seenCursors + {next.value};
      cursor := next;
    }
    SortedListing(ItemsOf(serve, fetches), taskIds, collate);
    r := Ok(Sort(matched, NewestFirst(collate)));
  }

  lemma NothingListed(taskIds: set<string>, collate: (string, string) -> bool)
    ensures Latest([], taskIds) == [] && Sort<Notification>([], NewestFirst(collate)) == []
  {}

  lemma {:induction false} SubsetSize<T>(a: set<T>, b: set<T>)
    requires a <= b
    ensures |a| <= |b|
  {
    assert b == a + (b - a);
    assert |b| == |a| + |b - a|;
  }
}
