/** Every run of the profile store of mobile/src/session.ts refines a list of servers with one selected
    and one credential each, also when it stops after any single storage write. */
module ProfileRuns {
  import opened Results
  import opened Text
  import opened ProfileDocuments
  import opened ProfileStates

  // ----- keys

  lemma {:induction false} IdForAt(keys: seq<(string, string)>, i: nat)
    requires DistinctKeys(keys) && i < |keys|
    ensures IdFor(keys, keys[i].1) == Some(keys[i].0) && UrlFor(keys, keys[i].0) == Some(keys[i].1)
  {
    if i > 0 {
      assert keys[0].0 != keys[i].0 && keys[0].1 != keys[i].1;
      IdForAt(keys[1..], i - 1);
    }
  }

  lemma {:induction false} IdForAppend(keys: seq<(string, string)>, k: (string, string), url: string)
    ensures IdFor(keys + [k], url) == if IdFor(keys, url).Some? then IdFor(keys, url) else if k.1 == url then Some(k.0) else None
    ensures UrlsOf(keys + [k]) == UrlsOf(keys) + [k.1]
  {
    if keys == [] {
      assert ([] + [k])[0] == k && ([] + [k])[1..] == [];
    } else {
      IdForAppend(keys[1..], k, url);
      assert (keys + [k])[1..] == keys[1..] + [k];
    }
  }

  lemma {:induction false} UrlForMissing(keys: seq<(string, string)>, id: string)
    requires forall i :: 0 <= i < |keys| ==> keys[i].0 != id
    ensures UrlFor(keys, id) == None
  {
    if keys != [] { UrlForMissing(keys[1..], id); }
  }

  lemma {:induction false} UrlForAppend(keys: seq<(string, string)>, k: (string, string), id: string)
    ensures UrlFor(keys + [k], id) == if UrlFor(keys, id).Some? then UrlFor(keys, id) else if k.0 == id then Some(k.1) else None
  {
    if keys == [] {
      assert ([] + [k])[0] == k && ([] + [k])[1..] == [];
    } else {
      UrlForAppend(keys[1..], k, id);
      assert (keys + [k])[1..] == keys[1..] + [k];
    }
  }

  /** A token write touches the one server whose profile has the identity. */
  lemma TokenForSet(keys: seq<(string, string)>, tokens: map<string, string>, id: string, token: string, url: string)
    requires DistinctKeys(keys)
    ensures TokenFor(keys, tokens[id := token], url) == if IdFor(keys, url) == Some(id) then Some(token) else TokenFor(keys, tokens, url)
    ensures TokenFor(keys, tokens - {id}, url) == if IdFor(keys, url) == Some(id) then None else TokenFor(keys, tokens, url)
  {}

  lemma IdForUnique(keys: seq<(string, string)>, url: string, other: string)
    requires DistinctKeys(keys) && IdFor(keys, url).Some? && IdFor(keys, url) == IdFor(keys, other)
    ensures url == other
  {}

  lemma FindKey(d: Document, url: string)
    requires DistinctKeys(Keys(d.profiles))
    ensures Find(d.profiles, url).Some? ==> IdFor(Keys(d.profiles), url) == Some(Find(d.profiles, url).value.id)
    ensures Find(d.profiles, url).None? ==> IdFor(Keys(d.profiles), url) == None
    ensures Find(d.profiles, url).Some? ==> UrlFor(Keys(d.profiles), Find(d.profiles, url).value.id) == Some(url)
    ensures Find(d.profiles, url).Some? <==> url in UrlsOf(Keys(d.profiles))
  {
    var keys := Keys(d.profiles);
    match Find(d.profiles, url)
    case Some(p) =>
      var i :| 0 <= i < |d.profiles| && d.profiles[i] == p;
      IdForAt(keys, i);
      assert UrlsOf(keys)[i] == url;
    case None =>
      forall i | 0 <= i < |keys| ensures keys[i].1 != url && UrlsOf(keys)[i] != url {
        assert d.profiles[i] in d.profiles;
      }
  }

  lemma ReplaceKeepsKeys(profiles: seq<Profile>, old_: Profile, p: Profile)
    requires DistinctKeys(Keys(profiles)) && old_ in profiles && p.id == old_.id && p.baseUrl == old_.baseUrl
    ensures Keys(Replace(profiles, p)) == Keys(profiles)
  {
    hide DistinctKeys;
    var k :| 0 <= k < |profiles| && profiles[k] == old_;
    var keys, replaced := Keys(profiles), Keys(Replace(profiles, p));
    forall i | 0 <= i < |profiles| ensures replaced[i] == keys[i] {
      if i != k { KeysDiffer(keys, i, k); }
    }
  }

  lemma KeysDiffer(keys: seq<(string, string)>, i: nat, k: nat)
    requires DistinctKeys(keys) && i < |keys| && k < |keys| && i != k
    ensures keys[i].0 != keys[k].0 && keys[i].1 != keys[k].1
  {}

  function Dropped(urls: seq<string>, url: string): seq<string> {
    if urls == [] then [] else (if urls[0] == url then [] else [urls[0]]) + Dropped(urls[1..], url)
  }

  lemma {:induction false} DroppedAbsent(urls: seq<string>, url: string)
    requires url !in urls
    ensures Dropped(urls, url) == urls
  {
    if urls != [] {
      DroppedAbsent(urls[1..], url);
      assert urls == [urls[0]] + urls[1..];
    }
  }

  function DropId(keys: seq<(string, string)>, id: string): (r: seq<(string, string)>)
    ensures forall k :: k in r <==> k in keys && k.0 != id
  {
    if keys == [] then [] else (if keys[0].0 == id then [] else [keys[0]]) + DropId(keys[1..], id)
  }

  lemma {:induction false} KeysRemaining(profiles: seq<Profile>, id: string)
    ensures Keys(Remaining(profiles, id)) == DropId(Keys(profiles), id)
  {
    if profiles != [] {
      KeysRemaining(profiles[1..], id);
      var left := Remaining(profiles[1..], id);
      assert Keys([profiles[0]] + left) == [(profiles[0].id, profiles[0].baseUrl)] + Keys(left);
      assert Keys(profiles)[1..] == Keys(profiles[1..]);
    }
  }

  lemma DistinctTail(keys: seq<(string, string)>)
    requires DistinctKeys(keys) && keys != []
    ensures DistinctKeys(keys[1..])
    ensures forall k :: k in keys[1..] ==> k.0 != keys[0].0 && k.1 != keys[0].1
  {
    forall k | k in keys[1..] ensures k.0 != keys[0].0 && k.1 != keys[0].1 {
      var i :| 1 <= i < |keys| && keys[i] == k;
    }
  }

  lemma {:induction false} DropIdDistinct(keys: seq<(string, string)>, id: string)
    requires DistinctKeys(keys)
    ensures DistinctKeys(DropId(keys, id))
  {
    if keys != [] {
      DistinctTail(keys);
      DropIdDistinct(keys[1..], id);
    }
  }

  lemma {:induction false} DropIdAbsent(keys: seq<(string, string)>, id: string)
    requires forall k :: k in keys ==> k.0 != id
    ensures DropId(keys, id) == keys
  {
    if keys != [] {
      DropIdAbsent(keys[1..], id);
      assert keys == [keys[0]] + keys[1..];
    }
  }

  lemma {:induction false} UrlsOfMembers(keys: seq<(string, string)>, url: string)
    ensures url in UrlsOf(keys) <==> exists k :: k in keys && k.1 == url
  {
    if url in UrlsOf(keys) {
      var i :| 0 <= i < |keys| && UrlsOf(keys)[i] == url;
      assert keys[i] in keys;
    }
    if exists k :: k in keys && k.1 == url {
      var k :| k in keys && k.1 == url;
      var i :| 0 <= i < |keys| && keys[i] == k;
      assert UrlsOf(keys)[i] == url;
    }
  }

  /** Dropping one identity drops its server and leaves every other server alone. */
  lemma {:induction false} DropIdEffect(keys: seq<(string, string)>, id: string, url: string)
    requires DistinctKeys(keys) && (id, url) in keys
    ensures UrlsOf(DropId(keys, id)) == Dropped(UrlsOf(keys), url)
    ensures forall u :: IdFor(DropId(keys, id), u) == if u == url then None else IdFor(keys, u)
    ensures forall i :: i != id ==> UrlFor(DropId(keys, id), i) == UrlFor(keys, i)
  {
    hide DistinctKeys, DropId, UrlsOf, IdFor, UrlFor, Dropped;
    var first, rest := keys[0], keys[1..];
    DistinctTail(keys);
    assert keys == [first] + rest;
    FirstKey(first, rest, id, url);
    if first.0 == id {
      assert first == (id, url);
      DropIdAbsent(rest, id);
      UrlsOfMembers(rest, url);
      DroppedAbsent(UrlsOf(rest), url);
      MissingUrl(rest, url);
    } else {
      assert (id, url) in rest;
      DropIdEffect(rest, id, url);
      FirstKey(first, DropId(rest, id), id, url);
    }
  }

  lemma FirstKey(first: (string, string), rest: seq<(string, string)>, id: string, url: string)
    ensures DropId([first] + rest, id) == if first.0 == id then DropId(rest, id) else [first] + DropId(rest, id)
    ensures UrlsOf([first] + rest) == [first.1] + UrlsOf(rest)
    ensures Dropped([first.1] + UrlsOf(rest), url)
         == if first.1 == url then Dropped(UrlsOf(rest), url) else [first.1] + Dropped(UrlsOf(rest), url)
    ensures forall u :: IdFor([first] + rest, u) == if first.1 == u then Some(first.0) else IdFor(rest, u)
    ensures forall i :: UrlFor([first] + rest, i) == if first.0 == i then Some(first.1) else UrlFor(rest, i)
  {
    assert ([first] + rest)[0] == first && ([first] + rest)[1..] == rest;
    assert ([first.1] + UrlsOf(rest))[1..] == UrlsOf(rest);
  }

  lemma MissingUrl(keys: seq<(string, string)>, url: string)
    requires forall k :: k in keys ==> k.1 != url
    ensures IdFor(keys, url) == None
  {
    assert forall i :: 0 <= i < |keys| ==> keys[i] in keys;
  }

  // ----- storages with a settled document

  /** The storage holds `d`, and nothing is left to migrate. */
  ghost predicate Settled(urls: UrlParser, s: Storage, d: Document) {
    && !HasLegacy(s) && Sound(urls, s) && DocumentOf(urls, s) == d
    && Canonical(urls, d) && DistinctKeys(Keys(d.profiles))
  }

  lemma TokensSettled(urls: UrlParser, s: Storage, d: Document, id: string, token: string)
    requires Settled(urls, s, d)
    ensures Settled(urls, SetToken(s, id, token), d) && Settled(urls, DeleteToken(s, id), d)
  {
    hide ParseDocument, Canonical, DistinctKeys;
  }

  lemma SaveSettled(urls: UrlParser, s: Storage, d: Document)
    requires UrlLaws(urls) && Canonical(urls, d) && DistinctKeys(Keys(d.profiles))
    ensures Settled(urls, SaveDocument(s, d), d)
  {
    hide ParseDocument, Canonical, DistinctKeys, UrlLaws, Encode;
    ReadBackIffCanonical(urls, d);
  }

  /** In a settled storage everything is read off the document and the tokens. */
  lemma SettledView(urls: UrlParser, s: Storage, d: Document, url: string)
    requires Settled(urls, s, d)
    ensures Credential(urls, s, url) == TokenFor(Keys(d.profiles), s.tokens, url)
    ensures Listed(urls, s) == UrlsOf(Keys(d.profiles))
    ensures Selected(urls, s) == if d.selected.None? then None else UrlFor(Keys(d.profiles), d.selected.value)
  {
    hide ParseDocument, Canonical, DistinctKeys, TokenFor, UrlFor;
  }

  // ----- loading

  lemma LegacyProfileCanonical(urls: UrlParser, s: Storage, newId: string)
    requires UrlLaws(urls) && Pending(urls, s) && ValidId(newId)
    ensures Canonical(urls, MigratedDocument(urls, s, newId))
  {
    hide ValidId, NormalizeUrl, Trimmed, UrlLaws;
    NormalizeIdempotent(urls, s.legacyServer.value);
    assert UniqueTexts([]);
    var d := MigratedDocument(urls, s, newId);
    assert d.profiles[0] in d.profiles;
  }

  /** After a load the document is settled, and every storage the load passes through means the same:
      a crash during migration loses nothing and shows nothing. */
  lemma LoadIsInvisible(urls: UrlParser, s: Storage, newId: string, serverFirst: bool)
    requires UrlLaws(urls) && Sound(urls, s) && !Blocked(urls, s) && ValidId(newId)
    ensures Loaded(urls, s, newId).Ok?
    ensures Settled(urls, Last(s, LoadWrites(urls, s, newId, serverFirst)), Loaded(urls, s, newId).value)
    ensures forall w :: w in LoadWrites(urls, s, newId, serverFirst) ==> Sound(urls, w) && !Blocked(urls, w) && SameAccounts(urls, s, w)
  {
    hide ParseDocument, NormalizeUrl, UrlLaws, Canonical, ValidId, Encode, TokenFor, IdFor;
    if s.document.Some? {
      ReadIsCanonical(urls, s.document.value);
    } else if Pending(urls, s) {
      MigrationStates(urls, s, newId, serverFirst);
    } else {
      assert Canonical(urls, EMPTY_DOCUMENT) by { EmptyCanonical(urls); }
    }
  }

  lemma EmptyCanonical(urls: UrlParser)
    ensures Canonical(urls, EMPTY_DOCUMENT)
  {}

  lemma MigrationStates(urls: UrlParser, s: Storage, newId: string, serverFirst: bool)
    requires UrlLaws(urls) && Pending(urls, s) && ValidId(newId)
    ensures Settled(urls, Last(s, LoadWrites(urls, s, newId, serverFirst)), MigratedDocument(urls, s, newId))
    ensures forall w :: w in LoadWrites(urls, s, newId, serverFirst) ==> Sound(urls, w) && !Blocked(urls, w) && SameAccounts(urls, s, w)
  {
    hide ParseDocument, NormalizeUrl, UrlLaws, Canonical, ValidId, Encode;
    var d := MigratedDocument(urls, s, newId);
    LegacyProfileCanonical(urls, s, newId);
    assert Keys(d.profiles) == [(newId, LegacyUrl(urls, s))];
    var writes := LoadWrites(urls, s, newId, serverFirst);
    assert SameAccounts(urls, s, writes[0]);
    forall i | 1 <= i < 4 ensures Settled(urls, writes[i], d) && SameAccounts(urls, s, writes[i]) {
      SaveSettled(urls, writes[i], d);
      assert writes[i] == SaveDocument(writes[i], d);
      MigratedView(urls, s, writes[i], d, newId);
    }
  }

  lemma MigratedView(urls: UrlParser, s: Storage, w: Storage, d: Document, newId: string)
    requires Pending(urls, s) && d == MigratedDocument(urls, s, newId) && Settled(urls, w, d)
    requires newId in w.tokens && w.tokens[newId] == s.legacyToken.value
    ensures SameAccounts(urls, s, w)
  {
    hide ParseDocument, NormalizeUrl, Canonical, DistinctKeys, Settled;
    var keys := Keys(d.profiles);
    assert keys == [(newId, LegacyUrl(urls, s))] && keys[1..] == [];
    forall url ensures Credential(urls, s, url) == Credential(urls, w, url) {
      SettledView(urls, w, d, url);
    }
    SettledView(urls, w, d, "");
  }

  // ----- one operation

  function Target(a: Action): string { a.url }

  /** The credential of a server after an operation. */
  function NextCredential(c: Option<string>, a: Action, url: string): Option<string> {
    if url != a.url then c
    else match a
      case Store(_, token, _) => Some(token)
      case Remove(_) => None
      case Clear(_) => None
      case _ => c
  }

  function NextListed(listed: seq<string>, a: Action): seq<string> {
    match a
    case Store(url, _, _) => if url in listed then listed else listed + [url]
    case Remove(url) => Dropped(listed, url)
    case _ => listed
  }

  function NextSelected(listed: seq<string>, selected: Option<string>, a: Action): Option<string> {
    match a
    case Store(url, _, _) => Some(url)
    case Select(url) => if url in listed then Some(url) else selected
    case Remove(url) =>
      if selected == Some(url) then
        var rest := Dropped(listed, url);
        if rest == [] then None else Some(rest[0])
      else selected
    case _ => selected
  }

  ghost predicate OthersKeep(urls: UrlParser, s: Storage, w: Storage, except: string) {
    forall url :: url != except ==> Credential(urls, w, url) == Credential(urls, s, url)
  }

  /** A crash leaves the server of the operation its old credential or its new one. */
  ghost predicate Atomic(urls: UrlParser, s: Storage, w: Storage, a: Action) {
    var before := Credential(urls, s, a.url);
    Credential(urls, w, a.url) == before || Credential(urls, w, a.url) == NextCredential(before, a, a.url)
  }

  /** What one operation does to the meaning of the storage, and that every storage on the way is sound,
      agrees with the start on all other servers and holds the old or the new credential of its own. */
  ghost predicate Refines(urls: UrlParser, s: Storage, writes: seq<Storage>, a: Action) {
    var t := Last(s, writes);
    && (forall w :: w in writes ==> Sound(urls, w) && !Blocked(urls, w) && OthersKeep(urls, s, w, a.url) && Atomic(urls, s, w, a))
    && Sound(urls, t) && !Blocked(urls, t)
    && Credential(urls, t, a.url) == NextCredential(Credential(urls, s, a.url), a, a.url)
    && Listed(urls, t) == NextListed(Listed(urls, s), a)
    && Selected(urls, t) == NextSelected(Listed(urls, s), Selected(urls, s), a)
  }

  lemma StoredCanonical(urls: UrlParser, d: Document, url: string, newId: string, name: Option<string>)
    requires UrlLaws(urls) && Canonical(urls, d) && ValidId(newId) && NormalUrl(urls, url)
    ensures Canonical(urls, StoredDocument(urls, d, url, newId, name))
  {
    hide ValidId, NormalizeUrl, Trimmed, Trim, UrlLaws, UniqueTexts;
    NormalizeIdempotent(urls, url);
    assert UniqueTexts([]) by { NoDuplicates(); }
    var p, d' := StoredProfile(urls, d, url, newId, name), StoredDocument(urls, d, url, newId, name);
    assert CanonicalProfile(urls, p) by { DisplayNames(name); }
    assert p in d'.profiles by { StoredListed(urls, d, url, newId, name); }
    if Find(d.profiles, url).Some? {
      forall q | q in d'.profiles ensures CanonicalProfile(urls, q) {
        var i :| 0 <= i < |d'.profiles| && d'.profiles[i] == q;
        assert d.profiles[i] in d.profiles;
      }
    }
  }

  lemma NoDuplicates()
    ensures UniqueTexts([])
  {}

  lemma DisplayNames(name: Option<string>)
    ensures name.Some? ==> Trimmed(Trim(name.value))
  {}

  lemma StoredListed(urls: UrlParser, d: Document, url: string, newId: string, name: Option<string>)
    ensures StoredProfile(urls, d, url, newId, name) in StoredDocument(urls, d, url, newId, name).profiles
  {
    var p, d' := StoredProfile(urls, d, url, newId, name), StoredDocument(urls, d, url, newId, name);
    match Find(d.profiles, url)
    case Some(q) =>
      var i :| 0 <= i < |d.profiles| && d.profiles[i] == q;
      assert d'.profiles[i] == p;
    case None =>
      assert d'.profiles[|d.profiles|] == p;
  }

  /** Storages on the way are sound, and the others keep their credentials. */
  lemma Passing(urls: UrlParser, s: Storage, d: Document, w: Storage, d': Document, url: string)
    requires Settled(urls, s, d) && Settled(urls, w, d')
    requires forall u :: u != url ==> TokenFor(Keys(d'.profiles), w.tokens, u) == TokenFor(Keys(d.profiles), s.tokens, u)
    ensures Sound(urls, w) && !Blocked(urls, w) && OthersKeep(urls, s, w, url)
  {
    hide ParseDocument, Canonical, DistinctKeys, TokenFor, Settled;
    assert Sound(urls, w) && !Blocked(urls, w) by { SettledSound(urls, w, d'); }
    forall u | u != url ensures Credential(urls, w, u) == Credential(urls, s, u) {
      SettledView(urls, s, d, u);
      SettledView(urls, w, d', u);
    }
  }

  lemma SettledSound(urls: UrlParser, s: Storage, d: Document)
    requires Settled(urls, s, d)
    ensures Sound(urls, s) && !Blocked(urls, s) && Canonical(urls, d) && DistinctKeys(Keys(d.profiles))
  {}

  lemma OthersUnaffected(keys: seq<(string, string)>, tokens: map<string, string>, id: string, token: string, url: string)
    requires DistinctKeys(keys) && (IdFor(keys, url) == Some(id) || forall k :: k in keys ==> k.0 != id)
    ensures forall u :: u != url ==> TokenFor(keys, tokens[id := token], u) == TokenFor(keys, tokens, u)
    ensures forall u :: u != url ==> TokenFor(keys, tokens - {id}, u) == TokenFor(keys, tokens, u)
  {
    hide DistinctKeys, TokenFor, IdFor;
    forall u | u != url
      ensures TokenFor(keys, tokens[id := token], u) == TokenFor(keys, tokens, u)
      ensures TokenFor(keys, tokens - {id}, u) == TokenFor(keys, tokens, u)
    {
      TokenForSet(keys, tokens, id, token, u);
      if IdFor(keys, u) == Some(id) && IdFor(keys, url) == Some(id) { IdForUnique(keys, u, url); }
      if IdFor(keys, u).Some? {
        var i :| 0 <= i < |keys| && keys[i] == (IdFor(keys, u).value, u);
        assert keys[i] in keys;
      }
    }
  }

  function SelectedUrl(d: Document): Option<string> {
    if d.selected.None? then None else UrlFor(Keys(d.profiles), d.selected.value)
  }

  /** A token write followed by a document write. */
  lemma TwoWrites(urls: UrlParser, s: Storage, d: Document, w1: Storage, w2: Storage, d': Document, a: Action)
    requires Settled(urls, s, d) && Settled(urls, w1, d) && Settled(urls, w2, d')
    requires forall u :: u != a.url ==> TokenFor(Keys(d.profiles), w1.tokens, u) == TokenFor(Keys(d.profiles), s.tokens, u)
    requires forall u :: u != a.url ==> TokenFor(Keys(d'.profiles), w2.tokens, u) == TokenFor(Keys(d.profiles), s.tokens, u)
    requires TokenFor(Keys(d.profiles), w1.tokens, a.url) == TokenFor(Keys(d.profiles), s.tokens, a.url)
      || TokenFor(Keys(d.profiles), w1.tokens, a.url) == NextCredential(TokenFor(Keys(d.profiles), s.tokens, a.url), a, a.url)
    requires TokenFor(Keys(d'.profiles), w2.tokens, a.url) == NextCredential(TokenFor(Keys(d.profiles), s.tokens, a.url), a, a.url)
    requires UrlsOf(Keys(d'.profiles)) == NextListed(UrlsOf(Keys(d.profiles)), a)
    requires SelectedUrl(d') == NextSelected(UrlsOf(Keys(d.profiles)), SelectedUrl(d), a)
    ensures Refines(urls, s, [w1, w2], a)
  {
    hide ParseDocument, Canonical, DistinctKeys, TokenFor, Settled, Credential, Listed, Selected, Sound, Blocked,
      IdFor, UrlFor, UrlsOf, OthersKeep, NextListed, NextSelected, NextCredential, Keys;
    Passing(urls, s, d, w1, d, a.url);
    Passing(urls, s, d, w2, d', a.url);
    SettledView(urls, s, d, a.url);
    SettledView(urls, w1, d, a.url);
    SettledView(urls, w2, d', a.url);
  }

  /** One write that leaves the listed servers alone. */
  lemma OneWrite(urls: UrlParser, s: Storage, d: Document, w: Storage, d': Document, a: Action)
    requires Settled(urls, s, d) && Settled(urls, w, d') && Keys(d'.profiles) == Keys(d.profiles)
    requires forall u :: u != a.url ==> TokenFor(Keys(d.profiles), w.tokens, u) == TokenFor(Keys(d.profiles), s.tokens, u)
    requires TokenFor(Keys(d.profiles), w.tokens, a.url) == NextCredential(TokenFor(Keys(d.profiles), s.tokens, a.url), a, a.url)
    requires NextListed(UrlsOf(Keys(d.profiles)), a) == UrlsOf(Keys(d.profiles))
    requires SelectedUrl(d') == NextSelected(UrlsOf(Keys(d.profiles)), SelectedUrl(d), a)
    ensures Refines(urls, s, [w], a)
  {
    hide ParseDocument, Canonical, DistinctKeys, TokenFor, Settled, Credential, Listed, Selected, Sound, Blocked,
      IdFor, UrlFor, UrlsOf, OthersKeep, NextListed, NextSelected, NextCredential, Keys;
    Passing(urls, s, d, w, d', a.url);
    SettledView(urls, s, d, a.url);
    SettledView(urls, w, d', a.url);
  }

  lemma StoreExisting(urls: UrlParser, s: Storage, d: Document, url: string, token: string, name: Option<string>, newId: string)
    requires UrlLaws(urls) && Settled(urls, s, d) && ValidId(newId) && NormalUrl(urls, url) && Find(d.profiles, url).Some?
    ensures Refines(urls, s, DocumentWrites(urls, s, d, Store(url, token, name), newId), Store(url, token, name))
  {
    hide ParseDocument, Canonical, DistinctKeys, TokenFor, Settled, UrlLaws, NormalizeUrl, ValidId, Credential, Listed, Selected,
      Sound, Blocked, Encode, Find, IdFor, UrlFor, UrlsOf;
    var keys, old_ := Keys(d.profiles), Find(d.profiles, url).value;
    var p, d' := StoredProfile(urls, d, url, newId, name), StoredDocument(urls, d, url, newId, name);
    SettledSound(urls, s, d);
    FindKey(d, url);
    StoredCanonical(urls, d, url, newId, name);
    ReplaceKeepsKeys(d.profiles, old_, p);
    var w1 := SetToken(s, p.id, token);
    var w2 := SaveDocument(w1, d');
    TokensSettled(urls, s, d, p.id, token);
    SaveSettled(urls, w1, d');
    OthersUnaffected(keys, s.tokens, p.id, token, url);
    TokenForSet(keys, s.tokens, p.id, token, url);
    FindKey(d, url);
    TwoWrites(urls, s, d, w1, w2, d', Store(url, token, name));
  }

  lemma StoreNew(urls: UrlParser, s: Storage, d: Document, url: string, token: string, name: Option<string>, newId: string)
    requires UrlLaws(urls) && Settled(urls, s, d) && ValidId(newId) && NormalUrl(urls, url) && Find(d.profiles, url).None?
    requires forall k :: k in Keys(d.profiles) ==> k.0 != newId
    ensures Refines(urls, s, DocumentWrites(urls, s, d, Store(url, token, name), newId), Store(url, token, name))
  {
    hide ParseDocument, Canonical, DistinctKeys, TokenFor, Settled, UrlLaws, NormalizeUrl, ValidId, Credential, Listed, Selected,
      Sound, Blocked, Encode, Find, IdFor, UrlFor, UrlsOf;
    var keys := Keys(d.profiles);
    var p, d' := StoredProfile(urls, d, url, newId, name), StoredDocument(urls, d, url, newId, name);
    SettledSound(urls, s, d);
    FindKey(d, url);
    StoredCanonical(urls, d, url, newId, name);
    assert Keys(d'.profiles) == keys + [(newId, url)];
    NewKeyDistinct(keys, newId, url);
    var w1 := SetToken(s, p.id, token);
    var w2 := SaveDocument(w1, d');
    TokensSettled(urls, s, d, p.id, token);
    SaveSettled(urls, w1, d');
    OthersUnaffected(keys, s.tokens, newId, token, url);
    TokenForSet(keys, s.tokens, newId, token, url);
    NewKeyView(keys, w1.tokens, newId, url);
    TwoWrites(urls, s, d, w1, w2, d', Store(url, token, name));
  }

  lemma NewKeyDistinct(keys: seq<(string, string)>, id: string, url: string)
    requires DistinctKeys(keys) && url !in UrlsOf(keys) && forall k :: k in keys ==> k.0 != id
    ensures DistinctKeys(keys + [(id, url)])
  {
    forall i | 0 <= i < |keys| ensures keys[i].0 != id && keys[i].1 != url {
      assert keys[i] in keys && UrlsOf(keys)[i] == keys[i].1;
    }
  }

  lemma NewKeyView(keys: seq<(string, string)>, tokens: map<string, string>, id: string, url: string)
    requires IdFor(keys, url) == None && (forall k :: k in keys ==> k.0 != id) && id in tokens
    ensures TokenFor(keys + [(id, url)], tokens, url) == Some(tokens[id])
    ensures forall u :: u != url ==> TokenFor(keys + [(id, url)], tokens, u) == TokenFor(keys, tokens, u)
    ensures UrlsOf(keys + [(id, url)]) == UrlsOf(keys) + [url]
    ensures UrlFor(keys + [(id, url)], id) == Some(url)
  {
    forall u ensures IdFor(keys + [(id, url)], u) == if IdFor(keys, u).Some? then IdFor(keys, u) else if url == u then Some(id) else None {
      IdForAppend(keys, (id, url), u);
    }
    IdForAppend(keys, (id, url), url);
    forall i | 0 <= i < |keys| ensures keys[i].0 != id { assert keys[i] in keys; }
    UrlForMissing(keys, id);
    UrlForAppend(keys, (id, url), id);
  }

  lemma SelectRefines(urls: UrlParser, s: Storage, d: Document, url: string, newId: string)
    requires UrlLaws(urls) && Settled(urls, s, d)
    ensures Refines(urls, s, DocumentWrites(urls, s, d, Select(url), newId), Select(url))
  {
    hide ParseDocument, Canonical, DistinctKeys, TokenFor, Settled, UrlLaws, Credential, Listed, Selected,
      Sound, Blocked, Encode, Find, IdFor, UrlFor, UrlsOf;
    SettledSound(urls, s, d);
    FindKey(d, url);
    SettledView(urls, s, d, url);
    if Find(d.profiles, url).Some? {
      hide Refines;
      var d' := d.(selected := Some(Find(d.profiles, url).value.id));
      SelectionCanonical(urls, d, Find(d.profiles, url).value);
      SaveSettled(urls, s, d');
      OneWrite(urls, s, d, SaveDocument(s, d'), d', Select(url));
    }
  }

  lemma SelectionCanonical(urls: UrlParser, d: Document, p: Profile)
    requires Canonical(urls, d) && p in d.profiles
    ensures Canonical(urls, d.(selected := Some(p.id)))
  {
    hide CanonicalProfile;
  }

  lemma ClearRefines(urls: UrlParser, s: Storage, d: Document, url: string, newId: string)
    requires UrlLaws(urls) && Settled(urls, s, d)
    ensures Refines(urls, s, DocumentWrites(urls, s, d, Clear(url), newId), Clear(url))
  {
    hide ParseDocument, Canonical, DistinctKeys, Settled, UrlLaws, Credential, Listed, Selected,
      Sound, Blocked, Encode, Find, IdFor, UrlFor, UrlsOf;
    SettledSound(urls, s, d);
    FindKey(d, url);
    SettledView(urls, s, d, url);
    if Find(d.profiles, url).Some? {
      var id := Find(d.profiles, url).value.id;
      var w := DeleteToken(s, id);
      TokensSettled(urls, s, d, id, "");
      OthersUnaffected(Keys(d.profiles), s.tokens, id, "", url);
      TokenForSet(Keys(d.profiles), s.tokens, id, "", url);
      hide Refines, Keys, TokenFor;
      OneWrite(urls, s, d, w, d, Clear(url));
    }
  }

  lemma RecordRefines(urls: UrlParser, s: Storage, d: Document, a: Action, newId: string)
    requires UrlLaws(urls) && Settled(urls, s, d) && a.Record?
    ensures Refines(urls, s, DocumentWrites(urls, s, d, a, newId), a)
  {
    hide ParseDocument, Canonical, DistinctKeys, TokenFor, Settled, UrlLaws, Credential, Listed, Selected,
      Sound, Blocked, Encode, Find, IdFor, UrlFor, UrlsOf, UniqueStrings;
    SettledSound(urls, s, d);
    if Find(d.profiles, a.url).Some? {
      hide Refines, Keys, Replace;
      var old_ := Find(d.profiles, a.url).value;
      var p := Connected(old_, a.compatibility, a.now);
      var d' := d.(profiles := Replace(d.profiles, p));
      ReplaceKeepsKeys(d.profiles, old_, p);
      RecordCanonical(urls, d, old_, a.compatibility, a.now);
      SaveSettled(urls, s, d');
      OneWrite(urls, s, d, SaveDocument(s, d'), d', a);
    }
  }

  lemma RecordCanonical(urls: UrlParser, d: Document, old_: Profile, c: Compatibility, now: string)
    requires Canonical(urls, d) && old_ in d.profiles
    ensures Canonical(urls, d.(profiles := Replace(d.profiles, Connected(old_, c, now))))
  {
    hide ValidId, NormalizeUrl, Trimmed, Trim, UniqueTexts, UniqueStrings;
    UniqueStringsFixedIff(c.resources);
    UniqueStringsFixedIff(c.commands);
    var p := Connected(old_, c, now);
    var d' := d.(profiles := Replace(d.profiles, p));
    assert CanonicalProfile(urls, p);
    forall q | q in d'.profiles ensures CanonicalProfile(urls, q) {
      var i :| 0 <= i < |d'.profiles| && d'.profiles[i] == q;
      assert d.profiles[i] in d.profiles;
    }
    if d.selected.Some? {
      var q :| q in d.profiles && q.id == d.selected.value;
      var i :| 0 <= i < |d.profiles| && d.profiles[i] == q;
      assert d'.profiles[i].id == d.selected.value && d'.profiles[i] in d'.profiles;
    }
  }

  lemma RemoveRefines(urls: UrlParser, s: Storage, d: Document, url: string, newId: string)
    requires UrlLaws(urls) && Settled(urls, s, d)
    ensures Refines(urls, s, DocumentWrites(urls, s, d, Remove(url), newId), Remove(url))
  {
    if Find(d.profiles, url).Some? {
      RemoveListed(urls, s, d, Find(d.profiles, url).value, url);
    } else {
      hide ParseDocument, Canonical, DistinctKeys, Settled, UrlLaws, Credential, Listed, Selected,
        Sound, Blocked, Encode, Find, IdFor, UrlFor, UrlsOf, Dropped;
      SettledSound(urls, s, d);
      FindKey(d, url);
      SettledView(urls, s, d, url);
      DroppedAbsent(UrlsOf(Keys(d.profiles)), url);
      if d.selected.Some? { SelectedNotMissing(d, url); }
    }
  }

  lemma RemoveListed(urls: UrlParser, s: Storage, d: Document, p: Profile, url: string)
    requires UrlLaws(urls) && Settled(urls, s, d) && Find(d.profiles, url) == Some(p)
    ensures var w1 := DeleteToken(s, p.id);
      Refines(urls, s, [w1, SaveDocument(w1, RemovedDocument(d, p.id))], Remove(url))
  {
    hide ParseDocument, Canonical, DistinctKeys, Settled, UrlLaws, Credential, Listed, Selected,
      Sound, Blocked, Encode, Find, IdFor, UrlFor, UrlsOf, DropId, Dropped, Remaining, RemovedDocument, SelectedUrl, NextSelected, Refines;
    SettledSound(urls, s, d);
    FindKey(d, url);
    var keys, d' := Keys(d.profiles), RemovedDocument(d, p.id);
    KeyOf(d.profiles, p);
    RemovedKeys(d, p.id);
    DropIdEffect(keys, p.id, url);
    DropIdDistinct(keys, p.id);
    RemovedCanonical(urls, d, p.id);
    var w1 := DeleteToken(s, p.id);
    var w2 := SaveDocument(w1, d');
    TokensSettled(urls, s, d, p.id, "");
    SaveSettled(urls, w1, d');
    OthersUnaffected(keys, s.tokens, p.id, "", url);
    RemovedSelection(d, p, url);
    TwoWrites(urls, s, d, w1, w2, d', Remove(url));
  }

  lemma KeyOf(profiles: seq<Profile>, p: Profile)
    requires p in profiles
    ensures (p.id, p.baseUrl) in Keys(profiles)
  {
    var i :| 0 <= i < |profiles| && profiles[i] == p;
    assert Keys(profiles)[i] == (p.id, p.baseUrl);
  }

  lemma RemovedKeys(d: Document, id: string)
    ensures Keys(RemovedDocument(d, id).profiles) == DropId(Keys(d.profiles), id)
  {
    KeysRemaining(d.profiles, id);
  }

  lemma SelectedNotMissing(d: Document, url: string)
    requires url !in UrlsOf(Keys(d.profiles)) && d.selected.Some?
    ensures UrlFor(Keys(d.profiles), d.selected.value) != Some(url)
  {
    UrlForListed(Keys(d.profiles), d.selected.value);
  }

  lemma {:induction false} UrlForListed(keys: seq<(string, string)>, id: string)
    ensures UrlFor(keys, id).Some? ==> UrlFor(keys, id).value in UrlsOf(keys)
    ensures UrlFor(keys, id).Some? ==> (id, UrlFor(keys, id).value) in keys
  {
    if keys != [] {
      UrlForListed(keys[1..], id);
      assert keys == [keys[0]] + keys[1..];
    }
  }

  lemma RemovedCanonical(urls: UrlParser, d: Document, id: string)
    requires Canonical(urls, d)
    ensures Canonical(urls, RemovedDocument(d, id))
  {
    hide CanonicalProfile;
    var d' := RemovedDocument(d, id);
    if d'.selected.Some? {
      if d.selected == Some(id) {
        assert d'.profiles[0] in d'.profiles;
      } else {
        var q :| q in d.profiles && q.id == d.selected.value;
        assert q in d'.profiles;
      }
    }
  }

  lemma RemovedSelection(d: Document, p: Profile, url: string)
    requires DistinctKeys(Keys(d.profiles)) && p in d.profiles && p.baseUrl == url
    ensures SelectedUrl(RemovedDocument(d, p.id)) == NextSelected(UrlsOf(Keys(d.profiles)), SelectedUrl(d), Remove(url))
  {
    hide DistinctKeys, Find, UrlsOf, DropId, Dropped, IdFor;
    var keys, d' := Keys(d.profiles), RemovedDocument(d, p.id);
    var i :| 0 <= i < |d.profiles| && d.profiles[i] == p;
    assert keys[i] == (p.id, url) && keys[i] in keys;
    IdForAt(keys, i);
    KeysRemaining(d.profiles, p.id);
    DropIdEffect(keys, p.id, url);
    DropIdDistinct(keys, p.id);
    if d.selected == Some(p.id) {
      if d'.profiles != [] {
        IdForAt(Keys(d'.profiles), 0);
        assert UrlsOf(Keys(d'.profiles))[0] == d'.profiles[0].baseUrl;
      }
    } else if d.selected.Some? {
      SelectedElsewhere(keys, d.selected.value, p.id, url);
    }
  }

  lemma SelectedElsewhere(keys: seq<(string, string)>, id: string, other: string, url: string)
    requires DistinctKeys(keys) && (other, url) in keys && id != other
    ensures UrlFor(keys, id) != Some(url)
  {
    UrlForListed(keys, id);
    if UrlFor(keys, id).Some? {
      var i :| 0 <= i < |keys| && keys[i] == (id, UrlFor(keys, id).value);
      var j :| 0 <= j < |keys| && keys[j] == (other, url);
      KeysDiffer(keys, i, j);
    }
  }
}
