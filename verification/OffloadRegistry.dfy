/** `SharedPersistenceOffloadRegistry` of src/ai_multi_agent_platform/persistence_offload.py with the
    weak-reference callbacks that may fire inside `resolve`. */
module OffloadRegistry {
  import opened Results

  type Owner = nat

  /** A repository object: its `id()` may be reused by a later object, its serial may not. */
  datatype Repository = Repository(id: int, serial: nat)

  /** A weak reference object, told apart by its serial. */
  datatype Reference = Reference(owner: Owner, serial: nat)

  /** What an adapter keeps strongly once `resolve` has returned. */
  datatype Holding<+T> = Holding(repository: Repository, offload: T)

  /** What the interpreter may do on its own: collect an owner, or run a whole nested `resolve`.
      `inFactory` happens while the factory runs, `inReference` while the weak reference is created. */
  datatype Event<+T> =
    | Collect(owner: Owner)
    | Request(repository: Repository, owner: Owner, requested: Option<T>, product: T,
              inFactory: seq<Event<T>>, inReference: seq<Owner>)

  function Without(references: seq<Reference>, released: Reference): (r: seq<Reference>)
    ensures forall x :: x in r <==> x in references && x != released
  {
    if references == [] then []
    else (if references[0] != released then [references[0]] else []) + Without(references[1..], released)
  }

  type OwnerTable = map<int, seq<Reference>>

  /** Listed references are exactly those with a pending callback; `extra` are being released. */
  ghost predicate Listed(owners: OwnerTable, callbacks: map<Reference, int>, extra: set<Reference>) {
    && (forall id :: id in owners ==> owners[id] != [])
    && (forall id, r :: id in owners && r in owners[id] && r !in extra ==> r in callbacks && callbacks[r] == id)
    && (forall r :: r in callbacks ==> callbacks[r] in owners && r in owners[callbacks[r]])
  }

  /** Every living owner holds the offload of the entry of its repository. */
  ghost predicate Shared<T>(offloads: map<int, T>, callbacks: map<Reference, int>, holdings: map<Reference, Holding<T>>,
                            dead: set<Owner>, nextSerial: nat) {
    && (forall r :: r in callbacks ==>
          && r.owner !in dead && r in holdings && holdings[r].repository.id == callbacks[r]
          && callbacks[r] in offloads && holdings[r].offload == offloads[callbacks[r]])
    && (forall r, s :: r in callbacks && s in callbacks && callbacks[r] == callbacks[s] ==>
          holdings[r].repository == holdings[s].repository)
    && (forall r :: r in holdings ==> r.serial < nextSerial)
  }

  /** The owner lists after `_release_owner`. */
  function Released(owners: OwnerTable, id: int, released: Reference): OwnerTable {
    if id !in owners then owners
    else
      var rest := Without(owners[id], released);
      if rest == [] then owners - {id} else owners[id := rest]
  }

  lemma ReleasedListed(owners: OwnerTable, callbacks: map<Reference, int>, reference: Reference)
    requires Listed(owners, callbacks, {}) && reference in callbacks
    ensures Listed(Released(owners, callbacks[reference], reference), callbacks - {reference}, {})
    ensures forall r :: r in callbacks && r != reference ==>
      callbacks[r] in owners && callbacks[r] in Released(owners, callbacks[reference], reference)
  {}

  lemma ReleasedShared<T>(offloads: map<int, T>, callbacks: map<Reference, int>, holdings: map<Reference, Holding<T>>,
                          dead: set<Owner>, nextSerial: nat, reference: Reference, offloads': map<int, T>)
    requires Shared(offloads, callbacks, holdings, dead, nextSerial)
    requires forall r :: r in callbacks && r != reference ==>
      callbacks[r] in offloads' && (callbacks[r] in offloads ==> offloads'[callbacks[r]] == offloads[callbacks[r]])
    ensures Shared(offloads', callbacks - {reference}, holdings, dead, nextSerial)
  {}

  /** Writing a fresh entry keeps the owner lists in step exactly when no entry appeared meanwhile: a
      factory that itself resolves the same repository would lose the owners registered by it. */
  lemma FreshEntryIffAbsent(owners: OwnerTable, callbacks: map<Reference, int>, id: int, reference: Reference)
    requires Listed(owners, callbacks, {}) && reference !in callbacks
    ensures Listed(owners[id := [reference]], callbacks[reference := id], {}) <==> id !in owners
  {
    if id in owners {
      var lost := owners[id][0];
      assert lost in owners[id] && lost in callbacks;
      var owners', callbacks' := owners[id := [reference]], callbacks[reference := id];
      assert lost in callbacks' && callbacks'[lost] == id && lost !in owners'[id];
    } else {
      AppendedListed(owners, callbacks, id, reference);
      assert [] + [reference] == [reference];
    }
  }

  lemma LiveCallbacks<T>(offloads: map<int, T>, callbacks: map<Reference, int>, holdings: map<Reference, Holding<T>>,
                         dead: set<Owner>, nextSerial: nat)
    requires Shared(offloads, callbacks, holdings, dead, nextSerial)
    ensures callbacks == map r | r in callbacks && r.owner !in dead :: callbacks[r]
  {}

  lemma ListedKeys(owners: OwnerTable, callbacks: map<Reference, int>, extra: set<Reference>)
    requires Listed(owners, callbacks, extra)
    ensures forall r :: r in callbacks ==> callbacks[r] in owners
  {}

  lemma AppendedListed(owners: OwnerTable, callbacks: map<Reference, int>, id: int, reference: Reference)
    requires Listed(owners, callbacks, {}) && reference !in callbacks
    ensures Listed(owners[id := (if id in owners then owners[id] else []) + [reference]], callbacks[reference := id], {})
  {}

  lemma AppendedShared<T>(offloads: map<int, T>, callbacks: map<Reference, int>, holdings: map<Reference, Holding<T>>,
                          dead: set<Owner>, nextSerial: nat, repository: Repository, offload: T, reference: Reference)
    requires Shared(offloads, callbacks, holdings, dead, nextSerial)
    requires repository.id in offloads ==> offloads[repository.id] == offload
    requires forall r :: r in callbacks && callbacks[r] == repository.id && r in holdings ==> holdings[r].repository == repository
    requires reference !in holdings && reference.owner !in dead && reference.serial < nextSerial
    ensures Shared(offloads[repository.id := offload], callbacks[reference := repository.id],
                   holdings[reference := Holding(repository, offload)], dead, nextSerial)
  {}

  lemma InsertedConsistent<T>(owners: OwnerTable, offloads: map<int, T>, callbacks: map<Reference, int>,
                              holdings: map<Reference, Holding<T>>, dead: set<Owner>, nextSerial: nat,
                              repository: Repository, offload: T, reference: Reference)
    requires Listed(owners, callbacks, {}) && Shared(offloads, callbacks, holdings, dead, nextSerial)
    requires owners.Keys == offloads.Keys
    requires reference !in callbacks && reference !in holdings && reference.owner !in dead && reference.serial < nextSerial
    ensures var id := repository.id;
      && Listed(owners[id := [reference]], callbacks[reference := id], {})
      && Shared(offloads[id := offload], callbacks[reference := id], holdings[reference := Holding(repository, offload)],
                dead, nextSerial)
      <==> id !in owners
  {
    FreshEntryIffAbsent(owners, callbacks, repository.id, reference);
    if repository.id !in owners {
      ListedKeys(owners, callbacks, {});
      hide Listed, Shared;
      assert repository.id in owners.Keys <==> repository.id in offloads.Keys;
      AppendedShared(offloads, callbacks, holdings, dead, nextSerial, repository, offload, reference);
    }
  }

  // ----- the promise on its own

  /** `r` keeps alive a holder of an offload for the repository with this id. */
  predicate Living<T>(holdings: map<Reference, Holding<T>>, dead: set<Owner>, r: Reference, id: int) {
    r in holdings && r.owner !in dead && holdings[r].repository.id == id
  }

  ghost predicate LivingWith<T>(holdings: map<Reference, Holding<T>>, dead: set<Owner>, id: int, offload: T) {
    exists r :: Living(holdings, dead, r, id) && holdings[r].offload == offload
  }

  /** All living owners of one repository hold one offload. */
  ghost predicate SharesOffloads<T>(holdings: map<Reference, Holding<T>>, dead: set<Owner>) {
    forall r, s, id :: Living(holdings, dead, r, id) && Living(holdings, dead, s, id) ==> holdings[r].offload == holdings[s].offload
  }

  /** With one more holder the owners go on sharing exactly when the others hold the same offload. */
  lemma NewHolder<T>(holdings: map<Reference, Holding<T>>, dead: set<Owner>, reference: Reference, repository: Repository, offload: T)
    requires SharesOffloads(holdings, dead) && reference !in holdings && reference.owner !in dead
    ensures var after := holdings[reference := Holding(repository, offload)];
      SharesOffloads(after, dead) <==>
        forall r :: Living(after, dead, r, repository.id) ==> after[r].offload == offload
  {
    var after := holdings[reference := Holding(repository, offload)];
    var id := repository.id;
    assert Living(after, dead, reference, id);
    if forall r :: Living(after, dead, r, id) ==> after[r].offload == offload {
      forall r, s, i | Living(after, dead, r, i) && Living(after, dead, s, i) ensures after[r].offload == after[s].offload {
        if i != id { assert Living(holdings, dead, r, i) && Living(holdings, dead, s, i); }
      }
    }
  }

  class Entry<T> {
    const offload: T
    var owners: seq<Reference>

    constructor (offload: T, owners: seq<Reference>)
      ensures this.offload == offload && this.owners == owners
    {
      this.offload, this.owners := offload, owners;
    }
  }

  class Registry<T> {
    var entries: map<int, Entry<T>>

    // The interpreter's side: pending callbacks with the repository id each closes over, what living
    // adapters hold, the owners already collected, and the next reference.
    var callbacks: map<Reference, int>
    var holdings: map<Reference, Holding<T>>
    var dead: set<Owner>
    var nextSerial: nat

    ghost predicate Distinct()
      reads `entries
    {
      forall a, b :: a in entries && b in entries && a != b ==> entries[a] != entries[b]
    }

    ghost function Owners(): map<int, seq<Reference>>
      reads `entries, entries.Values
    {
      map id | id in entries :: entries[id].owners
    }

    ghost function Offloads(): map<int, T>
      reads `entries, entries.Values
    {
      map id | id in entries :: entries[id].offload
    }

    lemma SameKeys()
      ensures Owners().Keys == Offloads().Keys == entries.Keys
    {}

    ghost predicate Consistent()
      reads this, entries.Values
    {
      Distinct() && Listed(Owners(), callbacks, {}) && Shared(Offloads(), callbacks, holdings, dead, nextSerial)
    }

    /** Every living holder still has its callback. */
    ghost predicate Tracked()
      reads this
    {
      forall r :: r in holdings && r.owner !in dead ==> r in callbacks
    }

    ghost predicate Valid()
      reads this, entries.Values
    {
      Consistent() && Tracked()
    }

    /** The registry's promise: all living owners of a repository hold one offload, that of its entry,
        and an entry exists exactly when its repository has a living owner. */
    lemma LivingOwnersShare()
      requires Valid()
      ensures forall r, s | r in holdings && s in holdings && r.owner !in dead && s.owner !in dead ::
        holdings[r].repository.id == holdings[s].repository.id ==> holdings[r] == holdings[s]
      ensures forall id :: id in entries <==>
        exists r :: r in holdings && r.owner !in dead && holdings[r].repository.id == id
      ensures forall r :: r in holdings && r.owner !in dead ==>
        holdings[r].repository.id in entries && entries[holdings[r].repository.id].offload == holdings[r].offload
    {
      forall id | id in entries ensures exists r :: r in holdings && r.owner !in dead && holdings[r].repository.id == id {
        assert id in Owners();
        var r := Owners()[id][0];
        assert r in Owners()[id] && r in callbacks;
      }
    }

    /** `id()` is unique among living objects: whoever still holds an object with this id holds this one. */
    predicate Identifies(repository: Repository)
      reads `callbacks, `holdings
    {
      forall r :: r in callbacks && callbacks[r] == repository.id && r in holdings ==> holdings[r].repository == repository
    }

    /** Entries may have gone, each without owners, since the table was `before`; none came or changed places. */
    ghost predicate Shrunk(before: map<int, Entry<T>>)
      reads `entries, before.Values
    {
      && (forall e :: e in entries ==> e in before && entries[e] == before[e])
      && (forall e :: e in before && e !in entries ==> before[e].owners == [] && before[e] !in entries.Values)
    }

    constructor ()
      ensures Valid() && entries == map[] && callbacks == map[] && dead == {} && fresh(this)
    {
      entries, callbacks, holdings, dead, nextSerial := map[], map[], map[], {}, 0;
    }

    /** `_release_owner` */
    method ReleaseOwner(id: int, released: Reference)
      requires Distinct()
      modifies `entries, entries.Values
      ensures Distinct() && Owners() == Released(old(Owners()), id, released)
      ensures entries.Values <= old(entries.Values) && Shrunk(old(entries))
    {
      if id !in entries {
        return;
      }
      ghost var owners := Owners();
      var entry := entries[id];
      entry.owners := Without(entry.owners, released);
      assert forall e :: e in entries && e != id ==> entries[e] != entry;
      assert Owners() == owners[id := entry.owners];
      if entry.owners == [] {
        entries := entries - {id};
        assert Owners() == owners - {id};
      }
    }

    /** One callback: the reference is cleared, then `_release_owner` runs. */
    method Fire(reference: Reference)
      requires Consistent() && reference in callbacks
      modifies `callbacks, `entries, entries.Values
      ensures Consistent() && callbacks == old(callbacks) - {reference}
      ensures entries.Values <= old(entries.Values) && Shrunk(old(entries))
    {
      hide Listed, Shared, Released;
      ghost var owners, offloads, before := Owners(), Offloads(), callbacks;
      ReleasedListed(owners, callbacks, reference);
      var id := callbacks[reference];
      callbacks := callbacks - {reference};
      ReleaseOwner(id, reference);
      SameKeys();
      assert forall e :: e in Offloads() ==> e in offloads && Offloads()[e] == offloads[e];
      ReleasedShared(offloads, before, holdings, dead, nextSerial, reference, Offloads());
    }

    /** The interpreter collects `owner`: its callbacks fire one after the other, in any order. */
    method CollectOwner(owner: Owner)
      requires Valid()
      modifies this, entries.Values
      ensures Valid() && dead == old(dead) + {owner} && nextSerial == old(nextSerial) && holdings == old(holdings)
      ensures callbacks == map r | r in old(callbacks) && r.owner != owner :: old(callbacks)[r]
      ensures entries.Values <= old(entries.Values) && Shrunk(old(entries))
    {
      hide Listed, Shared, Owners, Offloads;
      var pending := set r | r in callbacks && r.owner == owner;
      while pending != {}
        invariant Consistent() && dead == old(dead) && nextSerial == old(nextSerial) && holdings == old(holdings)
        invariant forall r :: r in pending <==> r in callbacks && r.owner == owner
        invariant forall r :: r in callbacks ==> r in old(callbacks) && callbacks[r] == old(callbacks)[r]
        invariant forall r :: r in old(callbacks) && r.owner != owner ==> r in callbacks
        invariant entries.Values <= old(entries.Values) && Shrunk(old(entries))
        decreases pending
      {
        hide Listed, Shared;
        var reference :| reference in pending;
        pending := pending - {reference};
        Fire(reference);
      }
      Bury(owner);
    }

    method Bury(owner: Owner)
      requires Consistent() && forall r :: r in callbacks ==> r.owner != owner
      modifies `dead
      ensures Consistent() && dead == old(dead) + {owner}
    {
      dead := dead + {owner};
    }

    method CollectAll(owners: seq<Owner>, active: set<Owner>)
      requires Valid()
      modifies this, entries.Values
      ensures Valid() && old(dead) <= dead && (forall o :: o in active && o in dead ==> o in old(dead)) && nextSerial == old(nextSerial)
      ensures holdings == old(holdings)
      ensures callbacks == map r | r in old(callbacks) && r.owner !in dead :: old(callbacks)[r]
      ensures entries.Values <= old(entries.Values) && Shrunk(old(entries))
    {
      hide Listed, Shared, Owners, Offloads, Distinct;
      LiveCallbacks(Offloads(), callbacks, holdings, dead, nextSerial);
      for i := 0 to |owners|
        invariant Valid() && old(dead) <= dead && (forall o :: o in active && o in dead ==> o in old(dead)) && nextSerial == old(nextSerial)
        invariant holdings == old(holdings)
        invariant callbacks == map r | r in old(callbacks) && r.owner !in dead :: old(callbacks)[r]
        invariant entries.Values <= old(entries.Values) && Shrunk(old(entries))
      {
        if owners[i] !in active {
          CollectOwner(owners[i]);
        }
      }
    }

    /** `_owner_reference`: the allocation may trigger collections before the reference exists. */
    method OwnerReference(id: int, owner: Owner, collected: seq<Owner>, active: set<Owner>) returns (reference: Reference)
      requires Valid() && owner in active && owner !in dead
      modifies this, entries.Values
      ensures Valid() && old(dead) <= dead && (forall o :: o in active && o in dead ==> o in old(dead))
      ensures holdings == old(holdings)
      ensures callbacks == map r | r in old(callbacks) && r.owner !in dead :: old(callbacks)[r]
      ensures entries.Values <= old(entries.Values) && Shrunk(old(entries))
      ensures reference == Reference(owner, old(nextSerial)) && nextSerial == old(nextSerial) + 1
      ensures reference !in callbacks && reference !in holdings && owner !in dead
    {
      hide Listed, Owners, Offloads;
      CollectAll(collected, active);
      reference := Reference(owner, nextSerial);
      nextSerial := nextSerial + 1;
    }

    /** Writing an entry into the table. */
    method Put(id: int, entry: Entry<T>, owners: seq<Reference>)
      requires Distinct() && (entry in entries.Values ==> id in entries && entries[id] == entry)
      modifies `entries, entry
      ensures Distinct() && entries == old(entries)[id := entry]
      ensures Owners() == old(Owners())[id := owners] && Offloads() == old(Offloads())[id := entry.offload]
      ensures entries.Values <= old(entries.Values) + {entry}
    {
      ghost var table := Owners();
      assert forall e :: e in entries && e != id ==> entries[e] != entry;
      entry.owners := owners;
      entries := entries[id := entry];
      assert Owners() == table[id := owners];
    }

    /** `entry.owners.append(reference)` and the write-back; the entry may have been dropped meanwhile. */
    method Append(entry: Entry<T>, repository: Repository, reference: Reference)
      requires Valid() && Identifies(repository)
      requires if repository.id in entries then entries[repository.id] == entry
               else entry.owners == [] && entry !in entries.Values
      requires reference !in callbacks && reference !in holdings && reference.owner !in dead && reference.serial < nextSerial
      modifies `entries, `callbacks, `holdings, entry
      ensures Valid() && entries == old(entries)[repository.id := entry] && entries.Values <= old(entries.Values) + {entry}
      ensures callbacks == old(callbacks)[reference := repository.id]
      ensures holdings == old(holdings)[reference := Holding(repository, entry.offload)]
    {
      hide Listed, Shared, Distinct;
      ghost var owners, offloads := Owners(), Offloads();
      AppendedListed(owners, callbacks, repository.id, reference);
      AppendedShared(offloads, callbacks, holdings, dead, nextSerial, repository, entry.offload, reference);
      assert entry.owners == if repository.id in owners then owners[repository.id] else [];
      hide Owners, Offloads;
      Put(repository.id, entry, entry.owners + [reference]);
      callbacks := callbacks[reference := repository.id];
      holdings := holdings[reference := Holding(repository, entry.offload)];
    }

    lemma CanInsert(repository: Repository, offload: T, reference: Reference)
      requires Valid()
      requires reference !in callbacks && reference !in holdings && reference.owner !in dead && reference.serial < nextSerial
      ensures Distinct()
      ensures var id := repository.id;
        && Listed(Owners()[id := [reference]], callbacks[reference := id], {})
        && Shared(Offloads()[id := offload], callbacks[reference := id], holdings[reference := Holding(repository, offload)],
                  dead, nextSerial)
        <==> id !in entries
    {
      hide Listed, Shared, Distinct, Tracked;
      SameKeys();
      assert repository.id in Owners() <==> repository.id in entries;
      InsertedConsistent(Owners(), Offloads(), callbacks, holdings, dead, nextSerial, repository, offload, reference);
    }

    /** The new entry; it replaces one that appeared while the factory ran, and then the registry is broken. */
    method Insert(repository: Repository, offload: T, reference: Reference)
      requires Valid()
      requires reference !in callbacks && reference !in holdings && reference.owner !in dead && reference.serial < nextSerial
      modifies `entries, `callbacks, `holdings
      ensures (Valid() <==> repository.id !in old(entries)) && entries.Keys == old(entries).Keys + {repository.id}
      ensures fresh(entries.Values - old(entries.Values)) && entries[repository.id].offload == offload
      ensures callbacks == old(callbacks)[reference := repository.id]
      ensures holdings == old(holdings)[reference := Holding(repository, offload)]
    {
      hide Listed, Shared, Distinct, Owners, Offloads;
      CanInsert(repository, offload, reference);
      var entry := new Entry(offload, [reference]);
      Put(repository.id, entry, [reference]);
      callbacks := callbacks[reference := repository.id];
      holdings := holdings[reference := Holding(repository, offload)];
    }

    ghost predicate Holds(r: Reference, owner: Owner, repository: Repository, offload: T)
      reads `holdings
    {
      r in holdings && r.owner == owner && holdings[r] == Holding(repository, offload)
    }

    /** `resolve`. `active` are the owners referenced by running calls, `busy` the ids whose factory is running. */
    method Resolve(repository: Repository, owner: Owner, requested: Option<T>, product: T,
                   inFactory: seq<Event<T>>, inReference: seq<Owner>, active: set<Owner>, busy: set<int>)
      returns (offload: T)
      requires Valid() && owner !in dead && repository.id !in busy && Identifies(repository)
      modifies this, entries.Values
      ensures Valid() && old(dead) <= dead && (forall o :: (o in active || o == owner) && o in dead ==> o in old(dead))
      ensures fresh(entries.Values - old(entries.Values))
      ensures repository.id in entries && entries[repository.id].offload == offload
      ensures exists r :: r in callbacks && Holds(r, owner, repository, offload)
      ensures forall r :: r in old(callbacks) && r.owner !in dead ==> r in callbacks && callbacks[r] == old(callbacks)[r]
      ensures forall r :: r in old(holdings) ==> r in holdings && holdings[r] == old(holdings)[r]
      ensures forall b :: b in busy && b in entries ==> b in old(entries)
      ensures repository.id in old(entries) ==> offload == old(entries)[repository.id].offload
      ensures repository.id !in old(entries) && requested.Some? ==> offload == requested.value
      ensures repository.id !in old(entries) && requested.None? ==> offload == product
      decreases inFactory, 1
    {
      hide Listed, Shared, Valid, Owners, Offloads, StartsNew;
      var id := repository.id;
      var reference;
      if id in entries {
        var entry := entries[id];
        reference := OwnerReference(id, owner, inReference, active + {owner});
        Append(entry, repository, reference);
        offload := entry.offload;
      } else {
        if requested.Some? {
          offload := requested.value;
        } else {
          Run(inFactory, active + {owner}, busy + {id});
          offload := product;
        }
        reference := OwnerReference(id, owner, inReference, active + {owner});
        Insert(repository, offload, reference);
      }
      assert reference in callbacks && Holds(reference, owner, repository, offload);
    }

    /** The interpreter can run this request now. */
    predicate Admits(e: Event<T>, busy: set<int>)
      reads `dead, `callbacks, `holdings
    {
      e.Request? && e.owner !in dead && e.repository.id !in busy && Identifies(e.repository)
    }

    /** The run starts with a request that has a new offload made. */
    predicate StartsNew(events: seq<Event<T>>, busy: set<int>)
      reads `dead, `callbacks, `holdings, `entries
    {
      events != [] && Admits(events[0], busy) && events[0].requested.None? && events[0].repository.id !in entries
    }

    /** Any run: events the interpreter cannot produce in the current state are skipped. */
    method Run(events: seq<Event<T>>, active: set<Owner>, busy: set<int>)
      requires Valid()
      modifies this, entries.Values
      ensures Valid() && old(dead) <= dead && (forall o :: o in active && o in dead ==> o in old(dead))
      ensures fresh(entries.Values - old(entries.Values))
      ensures forall r :: r in old(callbacks) && r.owner !in dead ==> r in callbacks && callbacks[r] == old(callbacks)[r]
      ensures forall r :: r in old(holdings) ==> r in holdings && holdings[r] == old(holdings)[r]
      ensures forall b :: b in busy && b in entries ==> b in old(entries)
      ensures old(StartsNew(events, busy)) ==>
        exists r :: Holds(r, events[0].owner, events[0].repository, events[0].product)
      decreases events, 0
    {
      hide Listed, Shared, Valid, Identifies;
      if events == [] {
        return;
      }
      ghost var nested := Reference(0, 0);
      match events[0] {
        case Collect(owner) =>
          if owner !in active {
            CollectOwner(owner);
          }
        case Request(repository, owner, requested, product, inFactory, inReference) =>
          if Admits(events[0], busy) {
            var offload := Resolve(repository, owner, requested, product, inFactory, inReference, active, busy);
            ghost var r :| r in callbacks && Holds(r, owner, repository, offload);
            nested := r;
          }
      }
      assert old(StartsNew(events, busy)) ==> Holds(nested, events[0].owner, events[0].repository, events[0].product);
      Run(events[1..], active, busy);
      assert old(StartsNew(events, busy)) ==> Holds(nested, events[0].owner, events[0].repository, events[0].product);
    }

    // ----- a factory that resolves its own repository

    lemma ValidShares()
      requires Valid()
      ensures SharesOffloads(holdings, dead)
      ensures forall id :: id in entries <==> exists r :: Living(holdings, dead, r, id)
    {
      LivingOwnersShare();
      forall id | id in entries ensures exists r :: Living(holdings, dead, r, id) {
        var r :| r in holdings && r.owner !in dead && holdings[r].repository.id == id;
        assert Living(holdings, dead, r, id);
      }
    }

    /** `resolve` of a repository without an entry whose factory may resolve that repository itself: the
        registry stays right exactly when no other owner got an offload for it meanwhile, and the owners go
        on sharing exactly when that offload is the same one. */
    method ResolveReentrant(repository: Repository, owner: Owner, product: T, inFactory: seq<Event<T>>,
                            inReference: seq<Owner>, active: set<Owner>, busy: set<int>)
      returns (offload: T, reference: Reference)
      requires Valid() && owner !in dead && repository.id !in entries
      modifies this, entries.Values
      ensures offload == product && Holds(reference, owner, repository, offload) && owner !in dead
      ensures old(dead) <= dead && forall o :: o in active && o in dead ==> o in old(dead)
      ensures Valid() <==> forall r :: Living(holdings, dead, r, repository.id) ==> r == reference
      ensures SharesOffloads(holdings, dead) <==>
        forall r :: Living(holdings, dead, r, repository.id) ==> holdings[r].offload == product
      ensures old(StartsNew(inFactory, busy)) ==>
        exists r :: r != reference && Holds(r, inFactory[0].owner, inFactory[0].repository, inFactory[0].product)
    {
      hide Valid, Identifies, Shrunk, Living, SharesOffloads;
      Run(inFactory, active + {owner}, busy);
      ghost var nested := Reference(0, 0);
      if old(StartsNew(inFactory, busy)) {
        nested :| Holds(nested, inFactory[0].owner, inFactory[0].repository, inFactory[0].product);
      }
      reference := OwnerReference(repository.id, owner, inReference, active + {owner});
      offload := product;
      InsertAnyway(repository, offload, reference);
      assert old(StartsNew(inFactory, busy)) ==>
        nested != reference && Holds(nested, inFactory[0].owner, inFactory[0].repository, inFactory[0].product);
    }

    /** The unconditional write, and what it breaks. */
    method InsertAnyway(repository: Repository, offload: T, reference: Reference)
      requires Valid()
      requires reference !in callbacks && reference !in holdings && reference.owner !in dead && reference.serial < nextSerial
      modifies `entries, `callbacks, `holdings
      ensures holdings == old(holdings)[reference := Holding(repository, offload)]
      ensures Valid() <==> forall r :: Living(holdings, dead, r, repository.id) ==> r == reference
      ensures SharesOffloads(holdings, dead) <==>
        forall r :: Living(holdings, dead, r, repository.id) ==> holdings[r].offload == offload
    {
      hide Valid, SharesOffloads;
      ValidShares();
      NewHolder(holdings, dead, reference, repository, offload);
      ghost var before := holdings;
      Insert(repository, offload, reference);
      assert forall r :: Living(before, dead, r, repository.id) <==> r != reference && Living(holdings, dead, r, repository.id);
    }
  }

  /** The run: while its factory runs, another owner resolves the same repository. Both live, and they hold
      different offloads. */
  method ReentrantFactorySplitsOwners<T>(repository: Repository, outer: Owner, inner: Owner, first: T, second: T)
    returns (registry: Registry<T>)
    requires outer != inner && first != second
    ensures !SharesOffloads(registry.holdings, registry.dead) && !registry.Valid()
    ensures LivingWith(registry.holdings, registry.dead, repository.id, first)
    ensures LivingWith(registry.holdings, registry.dead, repository.id, second)
  {
    registry := new Registry();
    var nested := Request(repository, inner, None, first, [], []);
    var offload, reference := registry.ResolveReentrant(repository, outer, second, [nested], [], {inner}, {});
    ghost var r :| r != reference && registry.Holds(r, inner, repository, first);
    ghost var holdings, dead := registry.holdings, registry.dead;
    assert Living(holdings, dead, r, repository.id) && Living(holdings, dead, reference, repository.id);
  }
}
