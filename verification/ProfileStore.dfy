/** `MobileSessionStore` of mobile/src/session.ts: its methods, proved to write what the actions of
    `ProfileStates` write and to answer what the storage means. */
module ProfileStore {
  import opened Results
  import opened Text
  import opened ProfileDocuments
  import opened ProfileStates
  import opened ProfileRuns
  import opened ProfileHistory

  datatype Session = Session(profileId: string, displayName: string, baseUrl: string)

  /** What `validateCredential` finds. */
  datatype Validation = Accepted | Rejected | Unavailable

  /** The server's answer to the one-time consume request. */
  datatype ConsumeAnswer = Refused | WithoutCredential | WithoutOrigin(secret: string) | Granted(secret: string, origin: string)

  function FindById(profiles: seq<Profile>, id: string): (r: Option<Profile>)
    ensures r.Some? ==> r.value in profiles && r.value.id == id
    ensures r.None? ==> forall p :: p in profiles ==> p.id != id
  {
    if profiles == [] then None else if profiles[0].id == id then Some(profiles[0]) else FindById(profiles[1..], id)
  }

  lemma SameKey(keys: seq<(string, string)>, i: nat, k: nat)
    requires DistinctKeys(keys) && i < |keys| && k < |keys|
    requires keys[i].0 == keys[k].0 || keys[i].1 == keys[k].1
    ensures i == k
  {}

  lemma FindByUrlAndId(profiles: seq<Profile>, p: Profile)
    requires DistinctKeys(Keys(profiles)) && p in profiles
    ensures Find(profiles, p.baseUrl) == Some(p) && FindById(profiles, p.id) == Some(p)
  {
    var k :| 0 <= k < |profiles| && profiles[k] == p;
    var q, r := Find(profiles, p.baseUrl).value, FindById(profiles, p.id).value;
    var i :| 0 <= i < |profiles| && profiles[i] == q;
    var j :| 0 <= j < |profiles| && profiles[j] == r;
    SameKey(Keys(profiles), i, k);
    SameKey(Keys(profiles), j, k);
  }

  /** The profile an identity names once the document is loaded. */
  function Named(urls: UrlParser, s: Storage, c: Choice, id: string): Option<Profile> {
    match Loaded(urls, s, c.migrationId)
    case Err(_) => None
    case Ok(d) => FindById(d.profiles, id)
  }

  function Loads(urls: UrlParser, s: Storage, c: Choice): seq<Storage> {
    LoadWrites(urls, s, c.migrationId, c.serverFirst)
  }

  lemma WritesAfterLoad(urls: UrlParser, s: Storage, a: Action, c: Choice, d: Document, own: seq<Storage>)
    requires Loaded(urls, s, c.migrationId) == Ok(d)
    requires own == DocumentWrites(urls, Last(s, Loads(urls, s, c)), d, a, c.profileId)
    ensures WritesOf(urls, s, a, c) == Loads(urls, s, c) + own
    ensures Last(s, WritesOf(urls, s, a, c)) == Last(Last(s, Loads(urls, s, c)), own)
  {
    hide DocumentWrites, LoadWrites, Loaded;
    LastAppend(s, Loads(urls, s, c), own);
  }

  lemma SettledNames(urls: UrlParser, s: Storage, d: Document, p: Profile)
    requires Settled(urls, s, d) && p in d.profiles
    ensures Find(d.profiles, p.baseUrl) == Some(p) && FindById(d.profiles, p.id) == Some(p) && ValidId(p.id)
    ensures Credential(urls, s, p.baseUrl) == if p.id in s.tokens then Some(s.tokens[p.id]) else None
  {
    hide Canonical, Keys, Find, FindById, Credential, IdFor, Settled, ValidId;
    SettledSound(urls, s, d);
    FindByUrlAndId(d.profiles, p);
    FindKey(d, p.baseUrl);
    SettledView(urls, s, d, p.baseUrl);
    assert ValidId(p.id) by { ListedValid(urls, d, p); }
  }

  lemma ListedValid(urls: UrlParser, d: Document, p: Profile)
    requires Canonical(urls, d) && p in d.profiles
    ensures ValidId(p.id)
  {
    hide ValidId;
    assert CanonicalProfile(urls, p);
  }

  lemma SelectedIsListed(urls: UrlParser, s: Storage, d: Document)
    requires Settled(urls, s, d)
    ensures d.selected.None? ==> Selected(urls, s) == None
    ensures d.selected.Some? ==> var p := FindById(d.profiles, d.selected.value);
      p.Some? && Selected(urls, s) == Some(p.value.baseUrl)
  {
    hide Keys, Find, Credential, IdFor, Settled, Selected, CanonicalProfile;
    SettledSound(urls, s, d);
    SettledView(urls, s, d, "");
    if d.selected.Some? {
      var p := FindById(d.profiles, d.selected.value).value;
      FindByUrlAndId(d.profiles, p);
      FindKey(d, p.baseUrl);
    }
  }

  lemma DocumentIdsValid(urls: UrlParser, s: Storage, p: Profile)
    requires UrlLaws(urls) && Sound(urls, s) && p in DocumentOf(urls, s).profiles
    ensures ValidId(p.id) && p.id != ""
  {
    hide UrlLaws, ParseDocument, Canonical, DistinctKeys, ValidId;
    assert s.document.Some?;
    ReadIsCanonical(urls, s.document.value);
    ListedValid(urls, DocumentOf(urls, s), p);
    ValidIdTrimmed(p.id);
  }

  lemma LoadKeepsAccounts(urls: UrlParser, s: Storage, c: Choice)
    requires UrlLaws(urls) && Sound(urls, s) && !Blocked(urls, s) && ValidId(c.migrationId)
    ensures SameAccounts(urls, s, Last(s, Loads(urls, s, c)))
  {
    hide UrlLaws, Sound, Blocked, ValidId, SameAccounts, LoadWrites;
    LoadIsInvisible(urls, s, c.migrationId, c.serverFirst);
    var writes := Loads(urls, s, c);
    if writes == [] {
      assert SameAccounts(urls, s, s) by { SameAsItself(urls, s); }
    } else {
      assert Last(s, writes) in writes;
    }
  }

  lemma SameAsItself(urls: UrlParser, s: Storage)
    ensures SameAccounts(urls, s, s)
  {}

  lemma {:induction false} RemainingShorterIffListed(profiles: seq<Profile>, id: string)
    ensures |Remaining(profiles, id)| < |profiles| <==> FindById(profiles, id).Some?
    ensures FindById(profiles, id).None? ==> Remaining(profiles, id) == profiles
  {
    if profiles != [] {
      RemainingShorterIffListed(profiles[1..], id);
      assert profiles == [profiles[0]] + profiles[1..];
    }
  }

  lemma RecordWrite(urls: UrlParser, s: Storage, d: Document, p: Profile, k: Compatibility, now: string, newId: string)
    requires Find(d.profiles, p.baseUrl) == Some(p)
    ensures DocumentWrites(urls, s, d, Record(p.baseUrl, k, now), newId)
         == [SaveDocument(s, d.(profiles := Replace(d.profiles, Connected(p, k, now))))]
  {
    hide Find, SaveDocument, Replace, Connected;
  }

  /** The selection once the profile `id` is gone. */
  function SelectionWithout(selected: Option<string>, id: string, remaining: seq<Profile>): Option<string> {
    if selected == Some(id) then (if remaining == [] then None else Some(remaining[0].id)) else selected
  }

  lemma RemoveWrite(urls: UrlParser, s: Storage, d: Document, p: Profile, newId: string)
    requires Find(d.profiles, p.baseUrl) == Some(p)
    ensures var s1, rest := DeleteToken(s, p.id), Remaining(d.profiles, p.id);
      DocumentWrites(urls, s, d, Remove(p.baseUrl), newId)
        == [s1, SaveDocument(s1, Document(SelectionWithout(d.selected, p.id, rest), rest))]
  {
    hide Find, SaveDocument, Remaining, DeleteToken;
  }

  lemma FreshIds(urls: UrlParser, s: Storage, c: Choice)
    requires FreshChoice(urls, s, c)
    ensures ValidId(c.migrationId) && ValidId(c.profileId)
  {}

  lemma SoundSettled(urls: UrlParser, s: Storage)
    requires UrlLaws(urls) && Sound(urls, s) && s.document.Some?
    ensures Settled(urls, s, DocumentOf(urls, s))
  {
    hide UrlLaws, ParseDocument, Canonical, DistinctKeys;
    ReadIsCanonical(urls, s.document.value);
  }

  /** The document a finished store leaves behind. */
  lemma StoredSettled(urls: UrlParser, s: Storage, url: string, token: string, name: Option<string>, c: Choice)
    requires UrlLaws(urls) && Sound(urls, s) && !Blocked(urls, s) && FreshChoice(urls, s, c) && NormalUrl(urls, url)
    ensures Loaded(urls, s, c.migrationId).Ok?
    ensures var d := Loaded(urls, s, c.migrationId).value;
      Settled(urls, After(urls, s, Store(url, token, name), c), StoredDocument(urls, d, url, c.profileId, name))
  {
    hide UrlLaws, Sound, Blocked, Settled, NormalizeUrl, LoadWrites, Credential, Listed, Selected, ParseDocument, Encode,
      StoredDocument, StoredProfile, OthersKeep, ValidId, Fresh, NextListed, NextSelected, NextCredential, Canonical, Loaded;
    FreshIds(urls, s, c);
    LoadIsInvisible(urls, s, c.migrationId, c.serverFirst);
    var d := Loaded(urls, s, c.migrationId).value;
    var s1 := Last(s, Loads(urls, s, c));
    var d' := StoredDocument(urls, d, url, c.profileId, name);
    SettledSound(urls, s1, d);
    StoredCanonical(urls, d, url, c.profileId, name);
    var t := SetToken(s1, StoredProfile(urls, d, url, c.profileId, name).id, token);
    WritesAfterLoad(urls, s, Store(url, token, name), c, d, [t, SaveDocument(t, d')]);
    OperationRefines(urls, s, Store(url, token, name), c);
    var after := After(urls, s, Store(url, token, name), c);
    assert after == SaveDocument(t, d');
    SoundSettled(urls, after);
    ReadBackIffCanonical(urls, d');
  }

  /** Deleting the token of the profile just stored takes back the credential and nothing else. */
  lemma StoredThenCleared(urls: UrlParser, s: Storage, url: string, token: string, name: Option<string>, c: Choice)
    requires UrlLaws(urls) && Sound(urls, s) && !Blocked(urls, s) && FreshChoice(urls, s, c) && NormalUrl(urls, url)
    requires Loaded(urls, s, c.migrationId).Ok?
    ensures var p := StoredProfile(urls, Loaded(urls, s, c.migrationId).value, url, c.profileId, name);
      var t := DeleteToken(After(urls, s, Store(url, token, name), c), p.id);
      && ValidId(p.id) && Sound(urls, t) && Credential(urls, t, url) == None && Selected(urls, t) == Some(url)
      && OthersKeep(urls, s, t, url)
  {
    hide UrlLaws, Sound, Blocked, Settled, NormalizeUrl, WritesOf, Credential, Listed, Selected, DeleteToken,
      ValidId, Fresh, NextListed, Loaded, StoredProfile, StoredDocument, Find;
    var d := Loaded(urls, s, c.migrationId).value;
    var d', p := StoredDocument(urls, d, url, c.profileId, name), StoredProfile(urls, d, url, c.profileId, name);
    var after := After(urls, s, Store(url, token, name), c);
    StoredSettled(urls, s, url, token, name, c);
    StoredListed(urls, d, url, c.profileId, name);
    StoredAt(urls, d, url, c.profileId, name);
    SettledNames(urls, after, d', p);
    OperationRefines(urls, s, Store(url, token, name), c);
    assert OthersKeep(urls, s, after, url) && Selected(urls, after) == Some(url);
    ClearRefines(urls, after, d', url, "");
    assert DocumentWrites(urls, after, d', Clear(url), "") == [DeleteToken(after, p.id)];
  }

  lemma StoredAt(urls: UrlParser, d: Document, url: string, newId: string, name: Option<string>)
    ensures StoredProfile(urls, d, url, newId, name).baseUrl == url
  {}

  /** A completed operation leaves a sound storage; a store needs unused identities for that. */
  lemma StaysSound(urls: UrlParser, s: Storage, a: Action, c: Choice)
    requires UrlLaws(urls) && Sound(urls, s) && !Blocked(urls, s) && ValidId(c.migrationId)
    requires a.Store? ==> FreshChoice(urls, s, c) && Allowed(urls, a)
    ensures Sound(urls, After(urls, s, a, c))
  {
    hide UrlLaws, Sound, Blocked, Settled, ValidId, FreshChoice, Allowed, DocumentWrites, LoadWrites, Loaded, Credential, Listed,
      Selected, NextListed, NextSelected, NextCredential;
    if a.Store? {
      OperationRefines(urls, s, a, c);
    } else {
      LoadIsInvisible(urls, s, c.migrationId, c.serverFirst);
      var d, loaded := Loaded(urls, s, c.migrationId).value, Last(s, Loads(urls, s, c));
      WritesAfterLoad(urls, s, a, c, d, DocumentWrites(urls, loaded, d, a, c.profileId));
      match a
      case Select(url) => SelectRefines(urls, loaded, d, url, c.profileId);
      case Remove(url) => RemoveRefines(urls, loaded, d, url, c.profileId);
      case Clear(url) => ClearRefines(urls, loaded, d, url, c.profileId);
      case Record(_, _, _) => RecordRefines(urls, loaded, d, a, c.profileId);
    }
  }

  lemma TokensStaySound(urls: UrlParser, s: Storage, id: string)
    requires Sound(urls, s)
    ensures Sound(urls, DeleteToken(s, id))
  {
    hide ParseDocument, DistinctKeys;
  }

  /** `normalizePairingCode`, up to letter case. */
  function PairingCode(value: string): string {
    if value == [] then []
    else (if value[0] == '-' || IsSpace(value[0]) then [] else [value[0]]) + PairingCode(value[1..])
  }

  /** The checks of `pair` up to the moment it stores the credential. */
  predicate Pairs(urls: UrlParser, descriptor: string, code: string, deviceName: string, answer: ConsumeAnswer) {
    && NormalizeUrl(urls, descriptor).Ok? && Trim(deviceName) != [] && PairingCode(code) != []
    && answer.Granted? && answer.secret != "" && NormalizeUrl(urls, answer.origin) == NormalizeUrl(urls, descriptor)
  }

  class MobileSessionStore {
    const urls: UrlParser
    var storage: Storage
    /** The storage after every single write so far. */
    ghost var trace: seq<Storage>

    constructor (urls: UrlParser, storage: Storage)
      ensures this.urls == urls && this.storage == storage && trace == []
    {
      this.urls, this.storage, trace := urls, storage, [];
    }

    ghost predicate Ready()
      reads this
    {
      UrlLaws(urls) && Sound(urls, storage)
    }

    /** The writes since `before` are those of `a`. */
    ghost predicate Performed(before: Storage, writes: seq<Storage>, a: Action, c: Choice)
      reads this
    {
      trace == writes + WritesOf(urls, before, a, c) && storage == Last(before, WritesOf(urls, before, a, c))
    }

    /** Nothing was written but what a load writes. */
    ghost predicate OnlyLoaded(before: Storage, writes: seq<Storage>, c: Choice)
      reads this
    {
      trace == writes + Loads(urls, before, c) && storage == Last(before, Loads(urls, before, c))
    }

    /** A load, then the writes of `a` on the loaded document. */
    lemma LoadThenWrites(before: Storage, writes: seq<Storage>, a: Action, c: Choice, d: Document, own: seq<Storage>)
      requires Loaded(urls, before, c.migrationId) == Ok(d)
      requires own == DocumentWrites(urls, Last(before, Loads(urls, before, c)), d, a, c.profileId)
      requires trace == writes + Loads(urls, before, c) + own && storage == Last(Last(before, Loads(urls, before, c)), own)
      ensures Performed(before, writes, a, c)
    {
      hide Loaded, DocumentWrites, LoadWrites, WritesOf;
      WritesAfterLoad(urls, before, a, c, d, own);
      assert trace == writes + (Loads(urls, before, c) + own);
    }

    lemma PerformedStorage(before: Storage, writes: seq<Storage>, a: Action, c: Choice)
      requires Performed(before, writes, a, c)
      ensures storage == After(urls, before, a, c)
    {
      hide WritesOf;
    }

    method Write(next: Storage)
      modifies this
      ensures storage == next && trace == old(trace) + [next]
    {
      storage := next;
      trace := trace + [next];
    }

    /** `loadDocument` */
    method LoadDocument(c: Choice) returns (r: Result<Document, SessionError>)
      requires Ready() && ValidId(c.migrationId)
      modifies this
      ensures Ready() && r == Loaded(urls, old(storage), c.migrationId) && OnlyLoaded(old(storage), old(trace), c)
      ensures r.Err? <==> Blocked(urls, old(storage))
      ensures r.Err? ==> storage == old(storage) && trace == old(trace)
      ensures r.Ok? ==> Settled(urls, storage, r.value) && SameAccounts(urls, old(storage), storage)
    {
      hide ParseDocument, NormalizeUrl, Encode, UrlLaws, ValidId, Settled, SameAccounts, Sound, MigratedDocument, SetToken, SaveDocument;
      ghost var before := storage;
      if !Blocked(urls, storage) {
        LoadIsInvisible(urls, storage, c.migrationId, c.serverFirst);
        LoadKeepsAccounts(urls, before, c);
        SettledSound(urls, Last(before, Loads(urls, before, c)), Loaded(urls, before, c.migrationId).value);
      }
      if storage.document.Some? {
        return ParseDocument(urls, storage.document.value);
      }
      if !HasLegacy(storage) {
        return Ok(EMPTY_DOCUMENT);
      }
      var normalized := NormalizeUrl(urls, storage.legacyServer.value);
      if normalized.Err? {
        return Err(normalized.error);
      }
      r := Migrate(normalized.value, storage.legacyToken.value, c);
    }

    /** The migrating half of `loadDocument`. */
    method Migrate(baseUrl: string, token: string, c: Choice) returns (r: Result<Document, SessionError>)
      requires Pending(urls, storage) && baseUrl == LegacyUrl(urls, storage) && storage.legacyToken == Some(token)
      modifies this
      ensures r == Ok(MigratedDocument(urls, old(storage), c.migrationId)) && OnlyLoaded(old(storage), old(trace), c)
    {
      hide NormalizeUrl, Encode;
      var profile := NewProfile(c.migrationId, HostOf(urls, baseUrl), baseUrl);
      Write(SetToken(storage, profile.id, token));
      var migrated := Document(Some(profile.id), [profile]);
      Write(SaveDocument(storage, migrated));
      if c.serverFirst {
        Write(storage.(legacyServer := None));
        Write(storage.(legacyToken := None));
      } else {
        Write(storage.(legacyToken := None));
        Write(storage.(legacyServer := None));
      }
      r := Ok(migrated);
    }

    /** `listProfiles` */
    method ListProfiles(c: Choice) returns (r: Result<seq<Profile>, SessionError>)
      requires Ready() && ValidId(c.migrationId)
      modifies this
      ensures Ready() && OnlyLoaded(old(storage), old(trace), c)
      ensures r.Err? <==> Blocked(urls, old(storage))
      ensures r.Ok? ==> r.value == Loaded(urls, old(storage), c.migrationId).value.profiles
      ensures r.Ok? ==> UrlsOf(Keys(r.value)) == Listed(urls, old(storage))
    {
      hide UrlLaws, ValidId, Settled, Listed, Blocked, OnlyLoaded, Sound, Loaded;
      var document :- LoadDocument(c);
      SettledView(urls, storage, document, "");
      r := Ok(document.profiles);
    }

    /** `selectedProfile` */
    method SelectedProfile(c: Choice) returns (r: Result<Option<Profile>, SessionError>)
      requires Ready() && ValidId(c.migrationId)
      modifies this
      ensures Ready() && OnlyLoaded(old(storage), old(trace), c)
      ensures r.Err? <==> Blocked(urls, old(storage))
      ensures r.Ok? ==> Selected(urls, old(storage)) == match r.value case None => None case Some(p) => Some(p.baseUrl)
      ensures r.Ok? ==> exists d :: Settled(urls, storage, d) && (r.value.Some? ==> r.value.value in d.profiles)
      ensures r.Ok? ==> SameAccounts(urls, old(storage), storage)
    {
      hide UrlLaws, ValidId, Settled, Selected, Listed, Credential, Blocked, OnlyLoaded, Loaded, Sound;
      var document :- LoadDocument(c);
      SelectedIsListed(urls, storage, document);
      r := Ok(if document.selected.None? then None else FindById(document.profiles, document.selected.value));
    }

    /** `current`: a session exactly when the selected server has a credential that is not empty. */
    method Current(c: Choice) returns (r: Result<Option<Session>, SessionError>)
      requires Ready() && ValidId(c.migrationId)
      modifies this
      ensures Ready() && OnlyLoaded(old(storage), old(trace), c)
      ensures r.Err? <==> Blocked(urls, old(storage))
      ensures r.Ok? ==> (r.value.Some? <==>
        Selected(urls, old(storage)).Some? && Credential(urls, old(storage), Selected(urls, old(storage)).value) !in {None, Some("")})
      ensures r.Ok? && r.value.Some? ==> Selected(urls, old(storage)) == Some(r.value.value.baseUrl)
    {
      hide UrlLaws, ValidId, Settled, Selected, Listed, Credential, Blocked, OnlyLoaded, Loaded, Sound;
      var profile :- SelectedProfile(c);
      if profile.None? { return Ok(None); }
      var p := profile.value;
      ghost var d :| Settled(urls, storage, d) && p in d.profiles;
      SettledNames(urls, storage, d, p);
      if p.id !in storage.tokens || storage.tokens[p.id] == "" { return Ok(None); }
      r := Ok(Some(Session(p.id, p.displayName, p.baseUrl)));
    }

    /** The token of a listed identity is the credential of its server. */
    lemma TokenIsCredential(p: Profile)
      requires Ready() && p in DocumentOf(urls, storage).profiles
      ensures Credential(urls, storage, p.baseUrl) == if p.id in storage.tokens then Some(storage.tokens[p.id]) else None
    {
      hide UrlLaws, ParseDocument, Canonical, DistinctKeys, Credential;
      var d := DocumentOf(urls, storage);
      assert storage.document.Some?;
      ReadIsCanonical(urls, storage.document.value);
      SettledNames(urls, storage, d, p);
    }

    /** `getToken` */
    method GetToken(profileId: Option<string>, c: Choice) returns (r: Result<Option<string>, SessionError>)
      requires Ready() && ValidId(c.migrationId)
      modifies this
      ensures Ready()
      ensures profileId.None? ==> OnlyLoaded(old(storage), old(trace), c) && (r.Err? <==> Blocked(urls, old(storage)))
      ensures profileId.None? && r.Ok? ==>
        r.value == match Selected(urls, old(storage)) case None => None case Some(url) => Credential(urls, old(storage), url)
      ensures profileId.Some? ==> storage == old(storage) && trace == old(trace)
      ensures profileId.Some? ==> (r.Err? <==> profileId.value != "" && !ValidId(profileId.value))
      ensures forall p :: p in DocumentOf(urls, old(storage)).profiles && profileId == Some(p.id) ==>
        r == Ok(Credential(urls, old(storage), p.baseUrl))
    {
      hide UrlLaws, ValidId, Settled, Selected, Listed, Credential, Blocked, OnlyLoaded, Loaded, DocumentOf, Sound;
      var id := "";
      match profileId {
        case Some(given) => id := given;
          forall p | p in DocumentOf(urls, storage).profiles && given == p.id
            ensures Credential(urls, storage, p.baseUrl) == (if p.id in storage.tokens then Some(storage.tokens[p.id]) else None)
            ensures ValidId(p.id) && p.id != ""
          {
            TokenIsCredential(p);
            DocumentIdsValid(urls, storage, p);
          }
        case None =>
          var profile :- SelectedProfile(c);
          if profile.None? { return Ok(None); }
          id := profile.value.id;
          ghost var d :| Settled(urls, storage, d) && profile.value in d.profiles;
          SettledNames(urls, storage, d, profile.value);
          ValidIdTrimmed(id);
      }
      if id == "" { return Ok(None); }
      if !ValidId(id) { return Err(ProfileIdInvalid); }
      r := Ok(if id in storage.tokens then Some(storage.tokens[id]) else None);
    }

    /** `selectProfile` */
    method SelectProfile(profileId: string, c: Choice) returns (r: Result<Profile, SessionError>)
      requires Ready() && ValidId(c.migrationId)
      modifies this
      ensures Ready()
      ensures var p := Named(urls, old(storage), c, profileId);
        if p.Some? then r == Ok(p.value) && Performed(old(storage), old(trace), Select(p.value.baseUrl), c)
        else r.Err? && OnlyLoaded(old(storage), old(trace), c)
    {
      hide UrlLaws, ValidId, Settled, SameAccounts, Blocked, Loaded, Find, LoadWrites, Writes, SaveDocument, Sound;
      ghost var before := storage;
      var document :- LoadDocument(c);
      var found := FindById(document.profiles, profileId);
      if found.None? { return Err(ProfileMissing); }
      var profile := found.value;
      SettledNames(urls, storage, document, profile);
      var selected := document.(selected := Some(profile.id));
      WritesAfterLoad(urls, before, Select(profile.baseUrl), c, document, [SaveDocument(storage, selected)]);
      Write(SaveDocument(storage, selected));
      StaysSound(urls, before, Select(profile.baseUrl), c);
      r := Ok(profile);
    }

    /** `removeProfile` */
    method RemoveProfile(profileId: string, c: Choice) returns (r: Result<(), SessionError>)
      requires Ready() && ValidId(c.migrationId)
      modifies this
      ensures Ready() && (r.Err? <==> Blocked(urls, old(storage)))
      ensures var p := Named(urls, old(storage), c, profileId);
        if p.Some? then Performed(old(storage), old(trace), Remove(p.value.baseUrl), c)
        else OnlyLoaded(old(storage), old(trace), c)
    {
      hide UrlLaws, ValidId, Settled, SameAccounts, Blocked, Loaded, Find, LoadWrites, Writes, SaveDocument, DeleteToken,
        DocumentWrites, Remaining, Keys, Performed, WritesOf, FindById, Canonical, Sound, SelectionWithout;
      ghost var before, writes := storage, trace;
      var document :- LoadDocument(c);
      var remaining := Remaining(document.profiles, profileId);
      RemainingShorterIffListed(document.profiles, profileId);
      assert Named(urls, before, c, profileId) == FindById(document.profiles, profileId);
      if |remaining| == |document.profiles| { return Ok(()); }
      ghost var p := FindById(document.profiles, profileId).value;
      SettledNames(urls, storage, document, p);
      var cleared := DeleteToken(storage, profileId);
      var next := Document(SelectionWithout(document.selected, profileId, remaining), remaining);
      RemoveWrite(urls, storage, document, p, c.profileId);
      ghost var own := [cleared, SaveDocument(cleared, next)];
      assert own == DocumentWrites(urls, storage, document, Remove(p.baseUrl), c.profileId);
      Write(cleared);
      Write(SaveDocument(storage, next));
      LoadThenWrites(before, writes, Remove(p.baseUrl), c, document, own);
      StaysSound(urls, before, Remove(p.baseUrl), c);
      assert Ready() by { PerformedStorage(before, writes, Remove(p.baseUrl), c); }
      r := Ok(());
    }

    /** `recordSuccessfulConnection` */
    method RecordSuccessfulConnection(profileId: string, compatibility: Compatibility, now: string, c: Choice)
      returns (r: Result<Profile, SessionError>)
      requires Ready() && ValidId(c.migrationId)
      modifies this
      ensures Ready()
      ensures var p := Named(urls, old(storage), c, profileId);
        if p.Some? then
          && r == Ok(Connected(p.value, compatibility, now))
          && Performed(old(storage), old(trace), Record(p.value.baseUrl, compatibility, now), c)
        else r.Err? && OnlyLoaded(old(storage), old(trace), c)
    {
      hide UrlLaws, ValidId, Settled, SameAccounts, Blocked, Loaded, Find, LoadWrites, Writes, SaveDocument, Connected,
        DocumentWrites, Replace, Keys, Sound;
      ghost var before := storage;
      var document :- LoadDocument(c);
      var found := FindById(document.profiles, profileId);
      if found.None? { return Err(ProfileMissing); }
      var profile := found.value;
      SettledNames(urls, storage, document, profile);
      var updated := Connected(profile, compatibility, now);
      var recorded := document.(profiles := Replace(document.profiles, updated));
      RecordWrite(urls, storage, document, profile, compatibility, now, c.profileId);
      WritesAfterLoad(urls, before, Record(profile.baseUrl, compatibility, now), c, document, [SaveDocument(storage, recorded)]);
      Write(SaveDocument(storage, recorded));
      StaysSound(urls, before, Record(profile.baseUrl, compatibility, now), c);
      r := Ok(updated);
    }

    /** `clear` with an identity. */
    method ClearProfile(profileId: string) returns (r: Result<(), SessionError>)
      modifies this
      ensures r.Err? <==> profileId != "" && !ValidId(profileId)
      ensures if ValidId(profileId) then storage == DeleteToken(old(storage), profileId) && trace == old(trace) + [storage]
        else storage == old(storage) && trace == old(trace)
      ensures old(Ready()) ==> Ready()
    {
      hide Sound, UrlLaws, DeleteToken;
      if Sound(urls, storage) { TokensStaySound(urls, storage, profileId); }
      if profileId == "" { return Ok(()); }
      if !ValidId(profileId) { return Err(ProfileIdInvalid); }
      Write(DeleteToken(storage, profileId));
      r := Ok(());
    }

    /** `clear` without an identity: the selected server forgets its credential. */
    method ClearSelected(c: Choice) returns (r: Result<(), SessionError>)
      requires Ready() && ValidId(c.migrationId)
      modifies this
      ensures Ready() && (r.Err? <==> Blocked(urls, old(storage)))
      ensures match Selected(urls, old(storage))
        case None => OnlyLoaded(old(storage), old(trace), c)
        case Some(url) => r.Ok? ==> Performed(old(storage), old(trace), Clear(url), c)
    {
      hide UrlLaws, ValidId, Settled, Selected, Listed, Credential, Blocked, Loaded, LoadWrites, Writes, Find, Sound;
      ghost var before := storage;
      var document :- LoadDocument(c);
      SelectedIsListed(urls, storage, document);
      if document.selected.None? { return Ok(()); }
      var profile := FindById(document.profiles, document.selected.value).value;
      SettledNames(urls, storage, document, profile);
      WritesAfterLoad(urls, before, Clear(profile.baseUrl), c, document, [DeleteToken(storage, profile.id)]);
      ValidIdTrimmed(profile.id);
      r := ClearProfile(profile.id);
    }

    /** `storeCredential` */
    method StoreCredential(baseUrl: string, token: string, name: Option<string>, c: Choice) returns (r: Result<Profile, SessionError>)
      requires Ready() && ValidId(c.migrationId)
      modifies this
      ensures match NormalizeUrl(urls, baseUrl)
        case Err(e) => r == Err(e) && storage == old(storage) && trace == old(trace)
        case Ok(url) =>
          if Blocked(urls, old(storage)) then r.Err? && storage == old(storage) && trace == old(trace)
          else
            && r.Ok? && Performed(old(storage), old(trace), Store(url, token, name), c)
            && Loaded(urls, old(storage), c.migrationId).Ok?
            && r.value == StoredProfile(urls, Loaded(urls, old(storage), c.migrationId).value, url, c.profileId, name)
      ensures FreshChoice(urls, old(storage), c) ==> Ready()
    {
      hide UrlLaws, ValidId, Settled, SameAccounts, Blocked, Loaded, Find, LoadWrites, Writes, SaveDocument, NormalizeUrl,
        DisplayName, HostOf, Sound, FreshChoice;
      ghost var before := storage;
      var url :- NormalizeUrl(urls, baseUrl);
      NormalizeIdempotent(urls, baseUrl);
      var document :- LoadDocument(c);
      var existing := Find(document.profiles, url);
      var profile := match existing
        case Some(p) => p.(displayName := DisplayName(name, p.displayName))
        case None => NewProfile(c.profileId, DisplayName(name, HostOf(urls, url)), url);
      var stored := SetToken(storage, profile.id, token);
      var profiles := if existing.Some? then Replace(document.profiles, profile) else document.profiles + [profile];
      WritesAfterLoad(urls, before, Store(url, token, name), c, document,
                      [stored, SaveDocument(stored, Document(Some(profile.id), profiles))]);
      Write(stored);
      Write(SaveDocument(storage, Document(Some(profile.id), profiles)));
      if FreshChoice(urls, before, c) { StaysSound(urls, before, Store(url, token, name), c); }
      r := Ok(profile);
    }

    /** `activate`: nothing is stored unless the server accepts the credential. */
    method Activate(baseUrl: string, token: string, validation: Validation, name: Option<string>, c: Choice)
      returns (r: Result<(), SessionError>)
      requires Ready() && ValidId(c.migrationId)
      modifies this
      ensures r.Ok? <==> NormalizeUrl(urls, baseUrl).Ok? && Trim(token) != [] && validation.Accepted? && !Blocked(urls, old(storage))
      ensures if r.Ok? then Performed(old(storage), old(trace), Store(NormalizeUrl(urls, baseUrl).value, Trim(token), name), c)
        else storage == old(storage) && trace == old(trace)
      ensures FreshChoice(urls, old(storage), c) ==> Ready()
    {
      hide UrlLaws, ValidId, Blocked, NormalizeUrl, Performed, Trim, Sound, FreshChoice;
      var url :- NormalizeUrl(urls, baseUrl);
      var candidate := Trim(token);
      if candidate == [] { return Err(TokenRequired); }
      match validation {
        case Rejected => return Err(CredentialRejected);
        case Unavailable => return Err(ValidationFailed);
        case Accepted =>
      }
      NormalizeIdempotent(urls, baseUrl);
      var profile :- StoreCredential(url, candidate, name, c);
      r := Ok(());
    }

    /** The storage right after `storeCredential`, and after a following deletion. */
    lemma PairedOutcome(before: Storage, writes: seq<Storage>, url: string, secret: string, name: Option<string>, c: Choice)
      requires UrlLaws(urls) && Sound(urls, before) && !Blocked(urls, before) && FreshChoice(urls, before, c) && NormalUrl(urls, url)
      requires Loaded(urls, before, c.migrationId).Ok? && Performed(before, writes, Store(url, secret, name), c)
      ensures trace == writes + WritesOf(urls, before, Store(url, secret, name), c)
      ensures Sound(urls, storage) && Credential(urls, storage, url) == Some(secret) && Selected(urls, storage) == Some(url)
      ensures OthersKeep(urls, before, storage, url)
      ensures var p := StoredProfile(urls, Loaded(urls, before, c.migrationId).value, url, c.profileId, name);
        var t := DeleteToken(storage, p.id);
        && ValidId(p.id) && Sound(urls, t) && Credential(urls, t, url) == None && Selected(urls, t) == Some(url)
        && OthersKeep(urls, before, t, url)
    {
      hide UrlLaws, Sound, Blocked, NormalizeUrl, WritesOf, Credential, Listed, Selected, DeleteToken,
        ValidId, Fresh, NextListed, Loaded, StoredProfile;
      OperationRefines(urls, before, Store(url, secret, name), c);
      StoredThenCleared(urls, before, url, secret, name, c);
    }

    /** `pair`: once the server has granted a credential for itself the credential is stored before it is
        validated, and only a rejection takes it away again. */
    method Pair(descriptor: string, code: string, deviceName: string, answer: ConsumeAnswer, validation: Validation,
                name: Option<string>, c: Choice) returns (r: Result<(), SessionError>)
      requires Ready() && FreshChoice(urls, storage, c)
      modifies this
      ensures Ready()
      ensures !Pairs(urls, descriptor, code, deviceName, answer) || Blocked(urls, old(storage)) ==>
        r.Err? && storage == old(storage) && trace == old(trace)
      ensures Pairs(urls, descriptor, code, deviceName, answer) && !Blocked(urls, old(storage)) ==>
        var url := NormalizeUrl(urls, descriptor).value;
        && (r.Ok? <==> validation.Accepted?)
        && Credential(urls, storage, url) == (if validation.Rejected? then None else Some(answer.secret))
        && Selected(urls, storage) == Some(url) && OthersKeep(urls, old(storage), storage, url)
        && trace == old(trace) + WritesOf(urls, old(storage), Store(url, answer.secret, name), c)
                    + if validation.Rejected? then [storage] else []
    {
      hide UrlLaws, Blocked, NormalizeUrl, Performed, Trim, FreshChoice, WritesOf, Sound, Credential, Selected, OthersKeep,
        PairingCode, ValidId, StoredProfile, DeleteToken, Loaded;
      ghost var before, writes := storage, trace;
      var url :- NormalizeUrl(urls, descriptor);
      if Trim(deviceName) == [] { return Err(DeviceNameRequired); }
      if PairingCode(code) == [] { return Err(CodeRequired); }
      if answer.Refused? { return Err(PairingFailed); }
      if answer.WithoutCredential? || answer.secret == "" { return Err(NoPairedCredential); }
      if answer.WithoutOrigin? { return Err(ServerMismatch); }
      var origin :- NormalizeUrl(urls, answer.origin);
      if origin != url { return Err(ServerMismatch); }
      NormalizeIdempotent(urls, descriptor);
      FreshIds(urls, storage, c);
      var profile :- StoreCredential(url, answer.secret, name, c);
      PairedOutcome(before, writes, url, answer.secret, name, c);
      match validation {
        case Accepted => r := Ok(());
        case Unavailable => r := Err(ValidationFailed);
        case Rejected =>
          var cleared := ClearProfile(profile.id);
          r := Err(CredentialRejected);
      }
    }
  }
}
