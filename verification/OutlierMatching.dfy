/** `compare_inventories` of scripts/ci/maintainability_guard.py: which extreme modules or functions
    count as newly introduced, given that moved ones are recognized by their fingerprint. */
module OutlierMatching {
  import opened Results

  /** A module keyed by its path, or a function keyed by path and qualified name. */
  datatype Entry<+K> = Entry(key: K, extreme: bool, exempted: bool, fingerprint: Option<string>)

  /** `_active_extreme` */
  predicate Active<K>(e: Entry<K>) { e.extreme && !e.exempted }

  /** The dictionary comprehension over the baseline: the last entry of a key wins. */
  function Lookup<K(==)>(baseline: seq<Entry<K>>, key: K): (r: Option<Entry<K>>)
    ensures r.Some? ==> r.value in baseline && r.value.key == key
    ensures r.None? ==> forall e :: e in baseline ==> e.key != key
  {
    if baseline == [] then None
    else
      var last := baseline[|baseline| - 1];
      if last.key == key then Some(last) else Lookup(baseline[..|baseline| - 1], key)
  }

  predicate Kept<K(==)>(baseline: seq<Entry<K>>, e: Entry<K>) {
    Lookup(baseline, e.key).Some? && Active(Lookup(baseline, e.key).value)
  }

  predicate Moved<K(==)>(baseline: seq<Entry<K>>, e: Entry<K>) {
    Active(e) && !Kept(baseline, e)
  }

  // ----- counting

  function Count<T>(s: seq<T>, p: T -> bool): nat {
    if s == [] then 0 else (if p(s[0]) then 1 else 0) + Count(s[1..], p)
  }

  /** Baseline entries held active with fingerprint `f`. */
  function Held<K>(baseline: seq<Entry<K>>, f: string): nat {
    Count(baseline, (e: Entry<K>) => Active(e) && e.fingerprint == Some(f))
  }

  /** Current entries that keep a baseline-active key whose baseline fingerprint was `f`. */
  function KeptCount<K(==)>(baseline: seq<Entry<K>>, current: seq<Entry<K>>, f: string): nat {
    Count(current, (e: Entry<K>) => Active(e) && Kept(baseline, e) && Lookup(baseline, e.key).value.fingerprint == Some(f))
  }

  function MovedCount<K(==)>(baseline: seq<Entry<K>>, current: seq<Entry<K>>, f: string): nat {
    Count(current, (e: Entry<K>) => Moved(baseline, e) && e.fingerprint == Some(f))
  }

  lemma {:induction false} CountAppend<T>(a: seq<T>, b: seq<T>, p: T -> bool)
    ensures Count(a + b, p) == Count(a, p) + Count(b, p)
  {
    if a == [] {
      assert a + b == b;
    } else {
      CountAppend(a[1..], b, p);
      assert (a + b)[1..] == a[1..] + b;
    }
  }

  lemma {:induction false} CountPermuted<T>(s: seq<T>, t: seq<T>, p: T -> bool)
    requires multiset(s) == multiset(t)
    ensures Count(s, p) == Count(t, p)
  {
    if s == [] {
      assert |t| == |multiset(t)| == 0;
    } else {
      var i := FirstPlace(s, t);
      var before, after := t[..i], t[i + 1..];
      CountPermuted(s[1..], before + after, p);
      CountAppend(before, [s[0]] + after, p);
      CountAppend([s[0]], after, p);
      CountAppend(before, after, p);
      CountAppend([s[0]], s[1..], p);
      assert s == [s[0]] + s[1..];
    }
  }

  /** Where the first element of `s` stands in its permutation `t`. */
  lemma FirstPlace<T>(s: seq<T>, t: seq<T>) returns (i: nat)
    requires s != [] && multiset(s) == multiset(t)
    ensures i < |t| && t == t[..i] + ([s[0]] + t[i + 1..])
    ensures multiset(s[1..]) == multiset(t[..i] + t[i + 1..])
  {
    assert s == [s[0]] + s[1..];
    assert s[0] in multiset(t);
    i :| 0 <= i < |t| && t[i] == s[0];
    assert t == t[..i] + ([s[0]] + t[i + 1..]);
    assert multiset(s[1..]) == multiset(s) - multiset{s[0]};
  }

  // ----- the comparison

  /** The counter of the active extremes by fingerprint. */
  function HeldCounts<K>(entries: seq<Entry<K>>): multiset<string> {
    if entries == [] then multiset{}
    else
      var n := |entries| - 1;
      HeldCounts(entries[..n])
        + (if Active(entries[n]) && entries[n].fingerprint.Some? then multiset{entries[n].fingerprint.value} else multiset{})
  }

  lemma {:induction false} HeldCounted<K>(entries: seq<Entry<K>>)
    ensures forall f :: HeldCounts(entries)[f] == Held(entries, f)
  {
    if entries != [] {
      var n := |entries| - 1;
      HeldCounted(entries[..n]);
      assert entries[..n + 1] == entries;
      forall f ensures Held(entries, f) == Held(entries[..n], f)
        + (if Active(entries[n]) && entries[n].fingerprint == Some(f) then 1 else 0) {
        CountLast(entries, n, (e: Entry<K>) => Active(e) && e.fingerprint == Some(f));
      }
    }
  }

  /** `_active_extreme_fingerprint_counts` */
  method FingerprintCounts<K(==)>(entries: seq<Entry<K>>) returns (counts: multiset<string>)
    ensures counts == HeldCounts(entries) && forall f :: counts[f] == Held(entries, f)
  {
    counts := multiset{};
    for i := 0 to |entries|
      invariant counts == HeldCounts(entries[..i])
    {
      assert entries[..i + 1][..i] == entries[..i];
      if Active(entries[i]) && entries[i].fingerprint.Some? {
        counts := counts + multiset{entries[i].fingerprint.value};
      }
    }
    assert entries[..|entries|] == entries;
    HeldCounted(entries);
  }

  lemma CountLast<T>(s: seq<T>, i: nat, p: T -> bool)
    requires i < |s|
    ensures Count(s[..i + 1], p) == Count(s[..i], p) + (if p(s[i]) then 1 else 0)
  {
    assert s[..i + 1] == s[..i] + [s[i]];
    CountAppend(s[..i], [s[i]], p);
  }

  /** `_consume_fingerprint` */
  function Consumed(counts: multiset<string>, fingerprint: Option<string>): (r: (multiset<string>, bool))
    ensures r.1 <==> fingerprint.Some? && counts[fingerprint.value] > 0
    ensures r.0 == if r.1 then counts - multiset{fingerprint.value} else counts
  {
    if fingerprint.None? || counts[fingerprint.value] <= 0 then (counts, false)
    else (counts - multiset{fingerprint.value}, true)
  }

  datatype Progress<K> = Progress(counts: multiset<string>, reported: seq<Entry<K>>)

  function Step<K(==)>(baseline: seq<Entry<K>>, s: Progress<K>, e: Entry<K>): Progress<K> {
    if !Active(e) then s
    else if Kept(baseline, e) then
      s.(counts := Consumed(s.counts, Lookup(baseline, e.key).value.fingerprint).0)
    else
      var (counts, excused) := Consumed(s.counts, e.fingerprint);
      if excused then s.(counts := counts) else s.(reported := s.reported + [e])
  }

  function Compared<K(==)>(baseline: seq<Entry<K>>, current: seq<Entry<K>>, counts: multiset<string>): Progress<K> {
    if current == [] then Progress(counts, [])
    else Step(baseline, Compared(baseline, current[..|current| - 1], counts), current[|current| - 1])
  }

  /** What one of the two loops reports. */
  function Reported<K(==)>(baseline: seq<Entry<K>>, current: seq<Entry<K>>): seq<Entry<K>> {
    Compared(baseline, current, HeldCounts(baseline)).reported
  }

  /** One of the two loops of `compare_inventories`. */
  method CompareEntries<K(==)>(baseline: seq<Entry<K>>, current: seq<Entry<K>>)
    returns (regressions: seq<Entry<K>>)
    ensures regressions == Reported(baseline, current)
    ensures Matched(baseline, current) ==> regressions == []
    ensures WithFingerprint(regressions, None) == MovedWith(baseline, current, None)
    ensures forall f :: MovedCount(baseline, current, f) - WithFingerprint(regressions, Some(f)) <= Held(baseline, f)
  {
    var remaining := FingerprintCounts(baseline);
    ghost var counts := remaining;
    regressions := [];
    for i := 0 to |current|
      invariant Progress(remaining, regressions) == Compared(baseline, current[..i], counts)
    {
      assert current[..i + 1][..i] == current[..i];
      var e := current[i];
      if !Active(e) {
        continue;
      }
      var previous := Lookup(baseline, e.key);
      if previous.Some? && Active(previous.value) {
        remaining := Consumed(remaining, previous.value.fingerprint).0;
        continue;
      }
      var consumed := Consumed(remaining, e.fingerprint);
      remaining := consumed.0;
      if consumed.1 {
        continue;
      }
      regressions := regressions + [e];
    }
    assert current[..|current|] == current;
    assert Counted(baseline, counts);
    Promises(baseline, current, counts);
  }

  // ----- what is excused

  ghost predicate Counted<K>(baseline: seq<Entry<K>>, counts: multiset<string>) {
    forall f :: counts[f] == Held(baseline, f)
  }

  function WithFingerprint<K>(entries: seq<Entry<K>>, fingerprint: Option<string>): nat {
    Count(entries, (e: Entry<K>) => e.fingerprint == fingerprint)
  }

  function MovedWith<K(==)>(baseline: seq<Entry<K>>, current: seq<Entry<K>>, fingerprint: Option<string>): nat {
    Count(current, (e: Entry<K>) => Moved(baseline, e) && e.fingerprint == fingerprint)
  }

  lemma CountMovedLast<K>(baseline: seq<Entry<K>>, current: seq<Entry<K>>, fingerprint: Option<string>)
    requires current != []
    ensures var front, e := current[..|current| - 1], current[|current| - 1];
      MovedWith(baseline, current, fingerprint)
        == MovedWith(baseline, front, fingerprint) + (if Moved(baseline, e) && e.fingerprint == fingerprint then 1 else 0)
  {
    CountLast(current, |current| - 1, (e: Entry<K>) => Moved(baseline, e) && e.fingerprint == fingerprint);
    assert current[..|current|] == current;
  }

  lemma CountKeptLast<K>(baseline: seq<Entry<K>>, current: seq<Entry<K>>, f: string)
    requires current != []
    ensures var front, e := current[..|current| - 1], current[|current| - 1];
      KeptCount(baseline, current, f) == KeptCount(baseline, front, f)
        + (if Active(e) && Kept(baseline, e) && Lookup(baseline, e.key).value.fingerprint == Some(f) then 1 else 0)
  {
    CountLast(current, |current| - 1,
      (e: Entry<K>) => Active(e) && Kept(baseline, e) && Lookup(baseline, e.key).value.fingerprint == Some(f));
    assert current[..|current|] == current;
  }

  lemma CountReported<K>(reported: seq<Entry<K>>, e: Entry<K>, fingerprint: Option<string>)
    ensures WithFingerprint(reported + [e], fingerprint)
         == WithFingerprint(reported, fingerprint) + (if e.fingerprint == fingerprint then 1 else 0)
  {
    CountAppend(reported, [e], (e: Entry<K>) => e.fingerprint == fingerprint);
  }

  /** The books of the loop for one fingerprint: what left the counter covers at least the excused
      entries and at most these and the kept ones, and an entry is reported only from an empty counter. */
  lemma {:induction false} Books<K>(baseline: seq<Entry<K>>, current: seq<Entry<K>>, counts: multiset<string>, f: string)
    ensures var s := Compared(baseline, current, counts);
      var reported, moved := WithFingerprint(s.reported, Some(f)), MovedWith(baseline, current, Some(f));
      && reported <= moved && moved + s.counts[f] <= counts[f] + reported
      && counts[f] + reported <= s.counts[f] + moved + KeptCount(baseline, current, f)
      && (reported > 0 ==> s.counts[f] == 0)
  {
    if current != [] {
      var front, e := current[..|current| - 1], current[|current| - 1];
      Books(baseline, front, counts, f);
      CountMovedLast(baseline, current, Some(f));
      CountKeptLast(baseline, current, f);
      CountReported(Compared(baseline, front, counts).reported, e, Some(f));
      hide Compared, MovedWith, KeptCount, WithFingerprint, Kept, Lookup;
      ComparedLast(baseline, current, counts);
    }
  }

  lemma ComparedLast<K>(baseline: seq<Entry<K>>, current: seq<Entry<K>>, counts: multiset<string>)
    requires current != []
    ensures Compared(baseline, current, counts)
         == Step(baseline, Compared(baseline, current[..|current| - 1], counts), current[|current| - 1])
  {}

  /** Entries without a fingerprint are never excused. */
  lemma {:induction false} UnmarkedReported<K>(baseline: seq<Entry<K>>, current: seq<Entry<K>>, counts: multiset<string>)
    ensures WithFingerprint(Compared(baseline, current, counts).reported, None) == MovedWith(baseline, current, None)
  {
    if current != [] {
      var front, e := current[..|current| - 1], current[|current| - 1];
      UnmarkedReported(baseline, front, counts);
      CountMovedLast(baseline, current, None);
      CountReported(Compared(baseline, front, counts).reported, e, None);
      hide MovedWith, WithFingerprint, Kept, Lookup;
    }
  }

  /** Never more moved entries with a fingerprint are excused than the baseline held active with it. */
  lemma ExcusedAtMostHeld<K>(baseline: seq<Entry<K>>, current: seq<Entry<K>>, counts: multiset<string>, f: string)
    requires counts[f] == Held(baseline, f)
    ensures MovedCount(baseline, current, f) - WithFingerprint(Compared(baseline, current, counts).reported, Some(f))
         <= Held(baseline, f)
  {
    Books(baseline, current, counts, f);
    SameMoved(baseline, current, f);
  }

  lemma {:induction false} SameMoved<K>(baseline: seq<Entry<K>>, current: seq<Entry<K>>, f: string)
    ensures MovedCount(baseline, current, f) == MovedWith(baseline, current, Some(f))
  {
    if current != [] { SameMoved(baseline, current[1..], f); }
  }

  // ----- silence in every order

  /** Every moved entry has a fingerprint, and with each fingerprint no more moved than the baseline held
      beyond the kept ones. */
  ghost predicate Matched<K>(baseline: seq<Entry<K>>, current: seq<Entry<K>>) {
    && MovedWith(baseline, current, None) == 0
    && forall f :: MovedCount(baseline, current, f) == 0
         || MovedCount(baseline, current, f) + KeptCount(baseline, current, f) <= Held(baseline, f)
  }

  lemma {:induction false} NothingCounted<K>(reported: seq<Entry<K>>)
    requires forall fingerprint :: WithFingerprint(reported, fingerprint) == 0
    ensures reported == []
  {
    if reported != [] { FirstCounted(reported); }
  }

  lemma FirstCounted<K>(reported: seq<Entry<K>>)
    requires reported != []
    ensures WithFingerprint(reported, reported[0].fingerprint) > 0
  {}

  lemma MatchedIsSilent<K>(baseline: seq<Entry<K>>, current: seq<Entry<K>>, counts: multiset<string>)
    requires Counted(baseline, counts) && Matched(baseline, current)
    ensures Compared(baseline, current, counts).reported == []
  {
    hide Compared, MovedWith, MovedCount, KeptCount, WithFingerprint, Held;
    var s := Compared(baseline, current, counts);
    forall fingerprint ensures WithFingerprint(s.reported, fingerprint) == 0 {
      match fingerprint
      case None => UnmarkedReported(baseline, current, counts);
      case Some(f) =>
        Books(baseline, current, counts, f);
        SameMoved(baseline, current, f);
    }
    NothingCounted(s.reported);
  }

  /** As long as no entry with fingerprint `f` is reported, its counter pays for every kept and moved one. */
  lemma {:induction false} Drained<K>(baseline: seq<Entry<K>>, current: seq<Entry<K>>, counts: multiset<string>, f: string)
    requires WithFingerprint(Compared(baseline, current, counts).reported, Some(f)) == 0
    ensures var used := MovedWith(baseline, current, Some(f)) + KeptCount(baseline, current, f);
      Compared(baseline, current, counts).counts[f] == if used >= counts[f] then 0 else counts[f] - used
  {
    hide Compared, MovedWith, KeptCount, WithFingerprint, Kept, Lookup;
    if current == [] {
      NothingUsed(baseline, counts, f);
    } else {
      var front, e := current[..|current| - 1], current[|current| - 1];
      ComparedLast(baseline, current, counts);
      CountReported(Compared(baseline, front, counts).reported, e, Some(f));
      Drained(baseline, front, counts, f);
      CountMovedLast(baseline, current, Some(f));
      CountKeptLast(baseline, current, f);
    }
  }

  lemma NothingUsed<K>(baseline: seq<Entry<K>>, counts: multiset<string>, f: string)
    ensures MovedWith(baseline, [], Some(f)) == 0 && KeptCount(baseline, [], f) == 0
    ensures Compared(baseline, [], counts).counts == counts
  {}

  /** A moved entry that, when it comes last, finds nothing left to excuse it. */
  ghost predicate Unexcused<K>(baseline: seq<Entry<K>>, current: seq<Entry<K>>, e: Entry<K>) {
    && Moved(baseline, e)
    && (e.fingerprint.Some? ==>
         var f := e.fingerprint.value;
         MovedWith(baseline, current, Some(f)) + KeptCount(baseline, current, f) > Held(baseline, f))
  }

  lemma UnexcusedEntry<K>(baseline: seq<Entry<K>>, current: seq<Entry<K>>) returns (e: Entry<K>)
    requires !Matched(baseline, current)
    ensures e in current && Unexcused(baseline, current, e)
  {
    if MovedWith(baseline, current, None) != 0 {
      e := SomeCounted(current, (x: Entry<K>) => Moved(baseline, x) && x.fingerprint == None);
    } else {
      var f :| MovedCount(baseline, current, f) > 0
        && MovedCount(baseline, current, f) + KeptCount(baseline, current, f) > Held(baseline, f);
      SameMoved(baseline, current, f);
      e := SomeCounted(current, (x: Entry<K>) => Moved(baseline, x) && x.fingerprint == Some(f));
    }
  }

  lemma {:induction false} SomeCounted<T>(s: seq<T>, p: T -> bool) returns (x: T)
    requires Count(s, p) > 0
    ensures x in s && p(x)
  {
    if p(s[0]) { x := s[0]; } else { x := SomeCounted(s[1..], p); }
  }

  /** An order that ends in such an entry is not silent. */
  lemma LastIsReported<K>(baseline: seq<Entry<K>>, current: seq<Entry<K>>, order: seq<Entry<K>>, counts: multiset<string>, e: Entry<K>)
    requires Counted(baseline, counts) && multiset(order) == multiset(current)
    requires order != [] && order[|order| - 1] == e && Unexcused(baseline, current, e)
    ensures Compared(baseline, order, counts).reported != []
  {
    hide Compared, MovedWith, KeptCount, WithFingerprint, Moved, Held;
    var front := order[..|order| - 1];
    var s := Compared(baseline, front, counts);
    ComparedLast(baseline, order, counts);
    StepMoved(baseline, s, e);
    if s.reported == [] && e.fingerprint.Some? {
      var f := e.fingerprint.value;
      NoneWith(Some(f), s.reported);
      Drained(baseline, front, counts, f);
      SameCounts(baseline, current, order, f);
      CountMovedLast(baseline, order, Some(f));
      CountKeptLast(baseline, order, f);
      MovedNotKept(baseline, e);
    }
  }

  lemma NoneWith<K>(fingerprint: Option<string>, reported: seq<Entry<K>>)
    requires reported == []
    ensures WithFingerprint(reported, fingerprint) == 0
  {}

  lemma MovedNotKept<K>(baseline: seq<Entry<K>>, e: Entry<K>)
    requires Moved(baseline, e)
    ensures !Kept(baseline, e)
  {}

  lemma SameCounts<K>(baseline: seq<Entry<K>>, current: seq<Entry<K>>, order: seq<Entry<K>>, f: string)
    requires multiset(order) == multiset(current)
    ensures MovedWith(baseline, order, Some(f)) == MovedWith(baseline, current, Some(f))
    ensures KeptCount(baseline, order, f) == KeptCount(baseline, current, f)
  {
    CountPermuted(order, current, (e: Entry<K>) => Moved(baseline, e) && e.fingerprint == Some(f));
    CountPermuted(order, current,
      (e: Entry<K>) => Active(e) && Kept(baseline, e) && Lookup(baseline, e.key).value.fingerprint == Some(f));
  }

  lemma StepMoved<K>(baseline: seq<Entry<K>>, s: Progress<K>, e: Entry<K>)
    requires Moved(baseline, e)
    ensures Step(baseline, s, e) ==
      if e.fingerprint.Some? && s.counts[e.fingerprint.value] > 0
      then Progress(s.counts - multiset{e.fingerprint.value}, s.reported)
      else Progress(s.counts, s.reported + [e])
  {}

  /** The comparison reports nothing, in whatever order the entries come, exactly when they are matched. */
  lemma SilentInEveryOrderIffMatched<K>(baseline: seq<Entry<K>>, current: seq<Entry<K>>, counts: multiset<string>)
    requires Counted(baseline, counts)
    ensures (forall order :: multiset(order) == multiset(current) ==> Compared(baseline, order, counts).reported == [])
       <==> Matched(baseline, current)
  {
    if Matched(baseline, current) {
      forall order | multiset(order) == multiset(current) ensures Compared(baseline, order, counts).reported == [] {
        MatchedPermuted(baseline, current, order);
        MatchedIsSilent(baseline, order, counts);
      }
    } else {
      var order := UnmatchedOrder(baseline, current, counts);
    }
  }

  /** An order in which unmatched entries are reported: one of the moved ones last. */
  lemma UnmatchedOrder<K>(baseline: seq<Entry<K>>, current: seq<Entry<K>>, counts: multiset<string>) returns (order: seq<Entry<K>>)
    requires Counted(baseline, counts) && !Matched(baseline, current)
    ensures multiset(order) == multiset(current) && Compared(baseline, order, counts).reported != []
  {
    var e := UnexcusedEntry(baseline, current);
    hide Compared, Matched, Unexcused;
    var i :| 0 <= i < |current| && current[i] == e;
    order := MovedLast(current, i);
    MovedLastPermutes(current, i);
    LastIsReported(baseline, current, order, counts, e);
  }

  /** Element `i` behind all others. */
  function MovedLast<T>(s: seq<T>, i: nat): (r: seq<T>)
    requires i < |s|
    ensures |r| == |s| && r[|r| - 1] == s[i]
  {
    s[..i] + s[i + 1..] + [s[i]]
  }

  lemma MovedLastPermutes<T>(s: seq<T>, i: nat)
    requires i < |s|
    ensures multiset(MovedLast(s, i)) == multiset(s)
  {
    assert s == s[..i] + [s[i]] + s[i + 1..];
  }

  lemma {:induction false} CountNone<T>(s: seq<T>, p: T -> bool)
    requires forall x :: x in s ==> !p(x)
    ensures Count(s, p) == 0
  {
    if s != [] { CountNone(s[1..], p); }
  }

  lemma MatchedPermuted<K>(baseline: seq<Entry<K>>, current: seq<Entry<K>>, order: seq<Entry<K>>)
    requires multiset(order) == multiset(current) && Matched(baseline, current)
    ensures Matched(baseline, order)
  {
    CountPermuted(order, current, (e: Entry<K>) => Moved(baseline, e) && e.fingerprint == None);
    forall f ensures MovedCount(baseline, order, f) == MovedCount(baseline, current, f)
      ensures KeptCount(baseline, order, f) == KeptCount(baseline, current, f) {
      SameCounts(baseline, current, order, f);
      SameMoved(baseline, order, f);
      SameMoved(baseline, current, f);
    }
  }

  // ----- vanished entries

  predicate UniqueKeys<K(==)>(entries: seq<Entry<K>>) {
    forall i, j :: 0 <= i < j < |entries| ==> entries[i].key != entries[j].key
  }

  predicate StillActive<K(==)>(current: seq<Entry<K>>, key: K) {
    exists e :: e in current && Active(e) && e.key == key
  }

  /** Baseline entries held active with fingerprint `f` whose key is no longer active. */
  function Vanished<K(==)>(baseline: seq<Entry<K>>, current: seq<Entry<K>>, f: string): nat {
    Count(baseline, (e: Entry<K>) => Active(e) && e.fingerprint == Some(f) && !StillActive(current, e.key))
  }

  lemma {:induction false} CountSum<T>(s: seq<T>, p: T -> bool, q: T -> bool, r: T -> bool)
    requires forall x :: x in s ==> (p(x) <==> q(x) || r(x)) && !(q(x) && r(x))
    ensures Count(s, p) == Count(s, q) + Count(s, r)
  {
    if s != [] { CountSum(s[1..], p, q, r); }
  }

  lemma {:induction false} CountKey<K>(current: seq<Entry<K>>, key: K)
    requires UniqueKeys(current)
    ensures Count(current, (e: Entry<K>) => Active(e) && e.key == key) == if StillActive(current, key) then 1 else 0
  {
    if current != [] {
      var rest := current[1..];
      CountKey(rest, key);
      assert current == [current[0]] + rest;
      if current[0].key == key {
        assert forall e :: e in rest ==> e.key != key;
      }
      assert StillActive(current, key) <==> (Active(current[0]) && current[0].key == key) || StillActive(rest, key);
    }
  }

  /** With unique keys the held entries split into those kept and those vanished. */
  lemma {:induction false} HeldIsKeptOrVanished<K>(baseline: seq<Entry<K>>, current: seq<Entry<K>>, f: string)
    requires UniqueKeys(baseline) && UniqueKeys(current)
    ensures Held(baseline, f) == KeptCount(baseline, current, f) + Vanished(baseline, current, f)
  {
    if baseline == [] {
      CountNone(current, (e: Entry<K>) => Active(e) && Kept(baseline, e) && Lookup(baseline, e.key).value.fingerprint == Some(f));
    } else {
      var n := |baseline| - 1;
      var front, b := baseline[..n], baseline[n];
      HeldIsKeptOrVanished(front, current, f);
      assert baseline[..n + 1] == baseline;
      CountLast(baseline, n, (e: Entry<K>) => Active(e) && e.fingerprint == Some(f));
      CountLast(baseline, n, (e: Entry<K>) => Active(e) && e.fingerprint == Some(f) && !StillActive(current, e.key));
      KeptOneMore(front, b, current, f);
      assert baseline == front + [b];
    }
  }

  lemma KeptOneMore<K>(front: seq<Entry<K>>, b: Entry<K>, current: seq<Entry<K>>, f: string)
    requires UniqueKeys(front + [b]) && UniqueKeys(current)
    ensures KeptCount(front + [b], current, f) == KeptCount(front, current, f)
      + (if Active(b) && b.fingerprint == Some(f) && StillActive(current, b.key) then 1 else 0)
  {
    var all := front + [b];
    assert all[..|all| - 1] == front;
    assert forall i :: 0 <= i < |front| ==> front[i] == all[i] && all[i].key != all[|front|].key;
    assert forall e :: e in front ==> e.key != b.key;
    assert Lookup(front, b.key).None?;
    var counts := Active(b) && b.fingerprint == Some(f);
    var p := (e: Entry<K>) => Active(e) && Kept(all, e) && Lookup(all, e.key).value.fingerprint == Some(f);
    var q := (e: Entry<K>) => Active(e) && Kept(front, e) && Lookup(front, e.key).value.fingerprint == Some(f);
    var r := (e: Entry<K>) => counts && Active(e) && e.key == b.key;
    CountSum(current, p, q, r);
    CountKey(current, b.key);
    if counts {
      CountSame(current, r, (e: Entry<K>) => Active(e) && e.key == b.key);
    } else {
      CountNone(current, r);
    }
  }

  lemma {:induction false} CountSame<T>(s: seq<T>, p: T -> bool, q: T -> bool)
    requires forall x :: x in s ==> (p(x) <==> q(x))
    ensures Count(s, p) == Count(s, q)
  {
    if s != [] { CountSame(s[1..], p, q); }
  }

  /** So, with unique keys, nothing is reported in any order exactly when every moved entry carries a
      fingerprint and no fingerprint moved more often than it vanished: an injective matching exists. */
  lemma MatchedIffInjective<K>(baseline: seq<Entry<K>>, current: seq<Entry<K>>)
    requires UniqueKeys(baseline) && UniqueKeys(current)
    ensures Matched(baseline, current) <==>
      && MovedWith(baseline, current, None) == 0
      && forall f :: MovedCount(baseline, current, f) <= Vanished(baseline, current, f)
  {
    forall f ensures Held(baseline, f) == KeptCount(baseline, current, f) + Vanished(baseline, current, f) {
      HeldIsKeptOrVanished(baseline, current, f);
    }
    hide MovedWith, MovedCount, KeptCount, Held, Vanished;
  }

  // ----- whole inventories

  /** A module with its functions; a function's key is its qualified name. */
  datatype Module = Module(entry: Entry<string>, functions: seq<Entry<string>>)

  function ModuleEntries(inventory: seq<Module>): seq<Entry<string>> {
    if inventory == [] then [] else [inventory[0].entry] + ModuleEntries(inventory[1..])
  }

  function Locate(path: string, f: Entry<string>): Entry<(string, string)> {
    Entry((path, f.key), f.extreme, f.exempted, f.fingerprint)
  }

  function Located(path: string, functions: seq<Entry<string>>): (r: seq<Entry<(string, string)>>)
    ensures |r| == |functions| && forall i :: 0 <= i < |r| ==> r[i] == Locate(path, functions[i])
  {
    if functions == [] then [] else [Locate(path, functions[0])] + Located(path, functions[1..])
  }

  /** `_all_functions` */
  function AllFunctions(inventory: seq<Module>): seq<Entry<(string, string)>> {
    if inventory == [] then []
    else Located(inventory[0].entry.key, inventory[0].functions) + AllFunctions(inventory[1..])
  }

  /** `compare_inventories`: modules and functions are compared separately; matched ones are silent, moves
      without fingerprint never are, and no more moves are excused than the baseline held. */
  method CompareInventories(baseline: seq<Module>, current: seq<Module>)
    returns (modules: seq<Entry<string>>, functions: seq<Entry<(string, string)>>)
    ensures modules == Reported(ModuleEntries(baseline), ModuleEntries(current))
    ensures functions == Reported(AllFunctions(baseline), AllFunctions(current))
    ensures InventoryMatched(baseline, current) ==> modules == [] && functions == []
    ensures WithFingerprint(modules, None) == MovedWith(ModuleEntries(baseline), ModuleEntries(current), None)
    ensures WithFingerprint(functions, None) == MovedWith(AllFunctions(baseline), AllFunctions(current), None)
    ensures forall f ::
      MovedCount(ModuleEntries(baseline), ModuleEntries(current), f) - WithFingerprint(modules, Some(f))
        <= Held(ModuleEntries(baseline), f)
    ensures forall f ::
      MovedCount(AllFunctions(baseline), AllFunctions(current), f) - WithFingerprint(functions, Some(f))
        <= Held(AllFunctions(baseline), f)
  {
    modules := CompareEntries(ModuleEntries(baseline), ModuleEntries(current));
    functions := CompareEntries(AllFunctions(baseline), AllFunctions(current));
  }

  lemma Promises<K>(baseline: seq<Entry<K>>, current: seq<Entry<K>>, counts: multiset<string>)
    requires Counted(baseline, counts)
    ensures var reported := Compared(baseline, current, counts).reported;
      && (Matched(baseline, current) ==> reported == [])
      && WithFingerprint(reported, None) == MovedWith(baseline, current, None)
      && forall f :: MovedCount(baseline, current, f) - WithFingerprint(reported, Some(f)) <= Held(baseline, f)
  {
    if Matched(baseline, current) { MatchedIsSilent(baseline, current, counts); }
    UnmarkedReported(baseline, current, counts);
    forall f { ExcusedAtMostHeld(baseline, current, counts, f); }
  }

  // ----- silence of whole inventories in every order

  ghost predicate InventoryMatched(baseline: seq<Module>, current: seq<Module>) {
    Matched(ModuleEntries(baseline), ModuleEntries(current)) && Matched(AllFunctions(baseline), AllFunctions(current))
  }

  predicate Silent(baseline: seq<Module>, current: seq<Module>) {
    && Reported(ModuleEntries(baseline), ModuleEntries(current)) == []
    && Reported(AllFunctions(baseline), AllFunctions(current)) == []
  }

  function WithoutModule(inventory: seq<Module>, i: nat): (rest: seq<Module>)
    requires i < |inventory|
    ensures |rest| == |inventory| - 1
  {
    inventory[..i] + inventory[i + 1..]
  }

  predicate SameModule(a: Module, b: Module) {
    a.entry == b.entry && multiset(a.functions) == multiset(b.functions)
  }

  /** The same modules in another order, each with its functions in another order. */
  predicate Reordered(order: seq<Module>, current: seq<Module>)
    decreases |order|
  {
    && |order| == |current|
    && (order == [] || exists i: nat :: i < |current| && Follows(order, current, i))
  }

  predicate Follows(order: seq<Module>, current: seq<Module>, i: nat)
    requires order != [] && i < |current|
    decreases |order|, 0
  {
    SameModule(order[0], current[i]) && Reordered(order[1..], WithoutModule(current, i))
  }

  lemma ModulesCons(m: Module, rest: seq<Module>)
    ensures ModuleEntries([m] + rest) == [m.entry] + ModuleEntries(rest)
    ensures AllFunctions([m] + rest) == Located(m.entry.key, m.functions) + AllFunctions(rest)
  {
    hide Located;
    assert ([m] + rest)[0] == m && ([m] + rest)[1..] == rest;
  }

  lemma NoModules()
    ensures ModuleEntries([]) == [] && AllFunctions([]) == []
  {}

  lemma {:induction false} ModulesAppend(a: seq<Module>, b: seq<Module>)
    ensures ModuleEntries(a + b) == ModuleEntries(a) + ModuleEntries(b)
    ensures AllFunctions(a + b) == AllFunctions(a) + AllFunctions(b)
  {
    hide ModuleEntries, AllFunctions, Located;
    if a == [] {
      NoModules();
      assert a + b == b;
    } else {
      ModulesAppend(a[1..], b);
      ModulesCons(a[0], a[1..]);
      ModulesCons(a[0], a[1..] + b);
      assert a == [a[0]] + a[1..] && a + b == [a[0]] + (a[1..] + b);
    }
  }

  lemma OneModule(m: Module)
    ensures ModuleEntries([m]) == [m.entry] && AllFunctions([m]) == Located(m.entry.key, m.functions)
  {
    assert [m][1..] == [];
  }

  lemma LocatedAppend(path: string, a: seq<Entry<string>>, b: seq<Entry<string>>)
    ensures Located(path, a + b) == Located(path, a) + Located(path, b)
  {
    hide Located, Locate;
  }

  lemma Middle<T>(all: seq<T>, before: seq<T>, middle: seq<T>, after: seq<T>)
    requires all == before + (middle + after)
    ensures multiset(all) == multiset(middle) + multiset(before + after)
  {}

  lemma {:induction false} LocatedPermuted(path: string, a: seq<Entry<string>>, b: seq<Entry<string>>)
    requires multiset(a) == multiset(b)
    ensures multiset(Located(path, a)) == multiset(Located(path, b))
  {
    if a == [] {
      assert |b| == |multiset(b)| == 0;
    } else {
      hide Located, Locate;
      var i := FirstPlace(a, b);
      var first, before, after := Located(path, [a[0]]), Located(path, b[..i]), Located(path, b[i + 1..]);
      LocatedPermuted(path, a[1..], b[..i] + b[i + 1..]);
      LocatedAround(path, b, i);
      LocatedAround(path, a, 0);
      LocatedAppend(path, b[..i], b[i + 1..]);
      assert b[i] == a[0];
      Middle(Located(path, b), before, first, after);
      Middle(Located(path, a), [], first, Located(path, a[1..]));
      assert [] + Located(path, a[1..]) == Located(path, a[1..]);
    }
  }

  lemma LocatedAround(path: string, b: seq<Entry<string>>, i: nat)
    requires i < |b|
    ensures Located(path, b) == Located(path, b[..i]) + (Located(path, [b[i]]) + Located(path, b[i + 1..]))
  {
    hide Located, Locate;
    LocatedAppend(path, b[..i], [b[i]] + b[i + 1..]);
    LocatedAppend(path, [b[i]], b[i + 1..]);
    assert b == b[..i] + ([b[i]] + b[i + 1..]);
  }

  /** What a module contributes to an inventory. */
  lemma TakenOut(inventory: seq<Module>, i: nat)
    requires i < |inventory|
    ensures var m, rest := inventory[i], WithoutModule(inventory, i);
      && multiset(ModuleEntries(inventory)) == multiset([m.entry]) + multiset(ModuleEntries(rest))
      && multiset(AllFunctions(inventory)) == multiset(Located(m.entry.key, m.functions)) + multiset(AllFunctions(rest))
  {
    hide ModuleEntries, AllFunctions, Located;
    var before, m, after := inventory[..i], inventory[i], inventory[i + 1..];
    Surroundings(inventory, i);
    Middle(ModuleEntries(inventory), ModuleEntries(before), [m.entry], ModuleEntries(after));
    Middle(AllFunctions(inventory), AllFunctions(before), Located(m.entry.key, m.functions), AllFunctions(after));
  }

  lemma Surroundings(inventory: seq<Module>, i: nat)
    requires i < |inventory|
    ensures var before, m, after := inventory[..i], inventory[i], inventory[i + 1..];
      && ModuleEntries(inventory) == ModuleEntries(before) + ([m.entry] + ModuleEntries(after))
      && AllFunctions(inventory) == AllFunctions(before) + (Located(m.entry.key, m.functions) + AllFunctions(after))
      && ModuleEntries(WithoutModule(inventory, i)) == ModuleEntries(before) + ModuleEntries(after)
      && AllFunctions(WithoutModule(inventory, i)) == AllFunctions(before) + AllFunctions(after)
  {
    hide ModuleEntries, AllFunctions, Located;
    var before, m, after := inventory[..i], inventory[i], inventory[i + 1..];
    ModulesAppend(before, [m] + after);
    ModulesCons(m, after);
    ModulesAppend(before, after);
    assert inventory == before + ([m] + after);
  }

  lemma {:induction false} ReorderedEntries(order: seq<Module>, current: seq<Module>)
    requires Reordered(order, current)
    ensures multiset(ModuleEntries(order)) == multiset(ModuleEntries(current))
    ensures multiset(AllFunctions(order)) == multiset(AllFunctions(current))
    decreases |order|
  {
    if order == [] {
      assert current == [];
    } else {
      var i: nat :| i < |current| && Follows(order, current, i);
      hide ModuleEntries, AllFunctions, Located, WithoutModule;
      TakenOut(current, i);
      ModulesCons(order[0], order[1..]);
      assert order == [order[0]] + order[1..];
      LocatedPermuted(order[0].entry.key, order[0].functions, current[i].functions);
      ReorderedEntries(order[1..], WithoutModule(current, i));
    }
  }

  /** Module `i` behind all others, with its functions in the given order. */
  function ModuleLast(current: seq<Module>, i: nat, functions: seq<Entry<string>>): (order: seq<Module>)
    requires i < |current|
    ensures |order| == |current|
  {
    WithoutModule(current, i) + [current[i].(functions := functions)]
  }

  /** Behind the first module, again a reordering of that kind. */
  lemma ModuleLastTail(current: seq<Module>, i: nat, functions: seq<Entry<string>>)
    requires i < |current| && |current| > 1
    ensures var k, next := if i > 0 then 0 else 1, if i > 0 then i - 1 else 0;
      && WithoutModule(current, k)[next] == current[i] && ModuleLast(current, i, functions)[0] == current[k]
      && ModuleLast(current, i, functions)[1..] == ModuleLast(WithoutModule(current, k), next, functions)
  {
    var k, next := if i > 0 then 0 else 1, if i > 0 then i - 1 else 0;
    var rest, last := WithoutModule(current, k), [current[i].(functions := functions)];
    assert rest[next] == current[i];
    var others, fewer := WithoutModule(current, i), WithoutModule(rest, next);
    assert others[0] == current[k] && others[1..] == fewer;
    assert (others + last)[1..] == others[1..] + last;
  }

  lemma {:induction false} ModuleLastReorders(current: seq<Module>, i: nat, functions: seq<Entry<string>>)
    requires i < |current| && multiset(functions) == multiset(current[i].functions)
    ensures Reordered(ModuleLast(current, i, functions), current)
    decreases |current|
  {
    var order := ModuleLast(current, i, functions);
    if |current| == 1 {
      assert Follows(order, current, 0);
    } else {
      ModuleLastTail(current, i, functions);
      hide ModuleLast, WithoutModule;
      var k, next := if i > 0 then 0 else 1, if i > 0 then i - 1 else 0;
      ModuleLastReorders(WithoutModule(current, k), next, functions);
      assert Follows(order, current, k);
    }
  }

  lemma ModuleLastEnds(current: seq<Module>, i: nat, functions: seq<Entry<string>>)
    requires i < |current|
    ensures var entries := ModuleEntries(ModuleLast(current, i, functions));
      entries != [] && entries[|entries| - 1] == current[i].entry
    ensures functions != [] ==>
      var all := AllFunctions(ModuleLast(current, i, functions));
      all != [] && all[|all| - 1] == Locate(current[i].entry.key, functions[|functions| - 1])
  {
    hide ModuleEntries, AllFunctions, Located, Locate;
    var last := current[i].(functions := functions);
    OneModule(last);
    ModulesAppend(WithoutModule(current, i), [last]);
  }

  lemma {:induction false} FunctionPlace(inventory: seq<Module>, e: Entry<(string, string)>) returns (i: nat, j: nat)
    requires e in AllFunctions(inventory)
    ensures i < |inventory| && j < |inventory[i].functions|
    ensures e == Locate(inventory[i].entry.key, inventory[i].functions[j])
  {
    var first := Located(inventory[0].entry.key, inventory[0].functions);
    if e in first {
      i := 0;
      j :| 0 <= j < |first| && first[j] == e;
    } else {
      i, j := FunctionPlace(inventory[1..], e);
      i := i + 1;
    }
  }

  lemma {:induction false} EntriesAt(inventory: seq<Module>)
    ensures |ModuleEntries(inventory)| == |inventory|
    ensures forall i :: 0 <= i < |inventory| ==> ModuleEntries(inventory)[i] == inventory[i].entry
  {
    if inventory != [] { EntriesAt(inventory[1..]); }
  }

  /** The comparison of two inventories is silent in every order of the modules, and of the functions in each
      module, exactly when both modules and functions are matched. */
  lemma InventoriesSilentIffMatched(baseline: seq<Module>, current: seq<Module>)
    ensures (forall order | Reordered(order, current) :: Silent(baseline, order)) <==> InventoryMatched(baseline, current)
  {
    hide Compared, Matched, Reordered, ModuleEntries, AllFunctions, HeldCounts;
    HeldCounted(ModuleEntries(baseline));
    HeldCounted(AllFunctions(baseline));
    if InventoryMatched(baseline, current) {
      forall order | Reordered(order, current) ensures Silent(baseline, order) {
        ReorderedEntries(order, current);
        MatchedPermuted(ModuleEntries(baseline), ModuleEntries(current), ModuleEntries(order));
        MatchedPermuted(AllFunctions(baseline), AllFunctions(current), AllFunctions(order));
        MatchedIsSilent(ModuleEntries(baseline), ModuleEntries(order), HeldCounts(ModuleEntries(baseline)));
        MatchedIsSilent(AllFunctions(baseline), AllFunctions(order), HeldCounts(AllFunctions(baseline)));
      }
    } else {
      var order := LoudOrder(baseline, current);
    }
  }

  lemma LoudOrder(baseline: seq<Module>, current: seq<Module>) returns (order: seq<Module>)
    requires !InventoryMatched(baseline, current)
    ensures Reordered(order, current) && !Silent(baseline, order)
  {
    hide Compared, Matched, Reordered, ModuleEntries, AllFunctions, HeldCounts, Unexcused;
    HeldCounted(ModuleEntries(baseline));
    HeldCounted(AllFunctions(baseline));
    if !Matched(ModuleEntries(baseline), ModuleEntries(current)) {
      var e := UnexcusedEntry(ModuleEntries(baseline), ModuleEntries(current));
      EntriesAt(current);
      var i :| 0 <= i < |current| && ModuleEntries(current)[i] == e;
      order := ModuleLast(current, i, current[i].functions);
      ModuleLastReorders(current, i, current[i].functions);
      ModuleLastEnds(current, i, current[i].functions);
      ReorderedEntries(order, current);
      LastIsReported(ModuleEntries(baseline), ModuleEntries(current), ModuleEntries(order), HeldCounts(ModuleEntries(baseline)), e);
    } else {
      var e := UnexcusedEntry(AllFunctions(baseline), AllFunctions(current));
      var i, j := FunctionPlace(current, e);
      var functions := MovedLast(current[i].functions, j);
      MovedLastPermutes(current[i].functions, j);
      order := ModuleLast(current, i, functions);
      ModuleLastReorders(current, i, functions);
      ModuleLastEnds(current, i, functions);
      ReorderedEntries(order, current);
      LastIsReported(AllFunctions(baseline), AllFunctions(current), AllFunctions(order), HeldCounts(AllFunctions(baseline)), e);
    }
  }
}
