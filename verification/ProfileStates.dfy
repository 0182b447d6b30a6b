/** What the secure storage of mobile/src/session.ts means, and the single writes of every operation. */
module ProfileStates {
  import opened Results
  import opened Text
  import opened ProfileDocuments

  /** The keys the store uses: the profile document, one token per profile, and the legacy pair. */
  datatype Storage = Storage(document: Option<Json>, tokens: map<string, string>,
                             legacyServer: Option<string>, legacyToken: Option<string>)

  // ----- meaning

  /** Identity and base URL of every profile, in order. */
  function Keys(profiles: seq<Profile>): (r: seq<(string, string)>)
    ensures |r| == |profiles| && forall i :: 0 <= i < |r| ==> r[i] == (profiles[i].id, profiles[i].baseUrl)
  {
    if profiles == [] then [] else [(profiles[0].id, profiles[0].baseUrl)] + Keys(profiles[1..])
  }

  predicate DistinctKeys(keys: seq<(string, string)>) {
    forall i, j :: 0 <= i < j < |keys| ==> keys[i].0 != keys[j].0 && keys[i].1 != keys[j].1
  }

  /** The profile identity for a base URL. */
  function IdFor(keys: seq<(string, string)>, url: string): (r: Option<string>)
    ensures r.Some? ==> exists i :: 0 <= i < |keys| && keys[i] == (r.value, url)
    ensures r.None? ==> forall i :: 0 <= i < |keys| ==> keys[i].1 != url
  {
    if keys == [] then None
    else if keys[0].1 == url then Some(keys[0].0)
    else
      var r := IdFor(keys[1..], url);
      assert r.Some? ==> exists i :: 0 <= i < |keys[1..]| && keys[1..][i] == (r.value, url) && keys[i + 1] == keys[1..][i];
      r
  }

  function DocumentOf(urls: UrlParser, s: Storage): Document {
    if s.document.None? then EMPTY_DOCUMENT
    else match ParseDocument(urls, s.document.value)
      case Ok(d) => d
      case Err(_) => EMPTY_DOCUMENT
  }

  predicate HasLegacy(s: Storage) {
    && s.document.None?
    && s.legacyServer.Some? && s.legacyServer.value != "" && s.legacyToken.Some? && s.legacyToken.value != ""
  }

  /** A legacy pair that the next load migrates. */
  predicate Pending(urls: UrlParser, s: Storage) {
    HasLegacy(s) && NormalizeUrl(urls, s.legacyServer.value).Ok?
  }

  /** A legacy pair with an unusable URL: every operation fails. */
  predicate Blocked(urls: UrlParser, s: Storage) {
    HasLegacy(s) && NormalizeUrl(urls, s.legacyServer.value).Err?
  }

  function LegacyUrl(urls: UrlParser, s: Storage): string
    requires Pending(urls, s)
  {
    NormalizeUrl(urls, s.legacyServer.value).value
  }

  /** The store invariant: the document reads, and no two profiles share an identity or a base URL. */
  ghost predicate Sound(urls: UrlParser, s: Storage) {
    s.document.Some? ==>
      ParseDocument(urls, s.document.value).Ok? && DistinctKeys(Keys(DocumentOf(urls, s).profiles))
  }

  /** The credential the store holds for a server. */
  function Credential(urls: UrlParser, s: Storage, url: string): Option<string> {
    if Pending(urls, s) then (if url == LegacyUrl(urls, s) then s.legacyToken else None)
    else TokenFor(Keys(DocumentOf(urls, s).profiles), s.tokens, url)
  }

  function TokenFor(keys: seq<(string, string)>, tokens: map<string, string>, url: string): Option<string> {
    match IdFor(keys, url)
    case None => None
    case Some(id) => if id in tokens then Some(tokens[id]) else None
  }

  function UrlsOf(keys: seq<(string, string)>): (r: seq<string>)
    ensures |r| == |keys| && forall i :: 0 <= i < |r| ==> r[i] == keys[i].1
  {
    if keys == [] then [] else [keys[0].1] + UrlsOf(keys[1..])
  }

  /** The servers the store lists, in order. */
  function Listed(urls: UrlParser, s: Storage): seq<string> {
    if Pending(urls, s) then [LegacyUrl(urls, s)] else UrlsOf(Keys(DocumentOf(urls, s).profiles))
  }

  function UrlFor(keys: seq<(string, string)>, id: string): Option<string> {
    if keys == [] then None else if keys[0].0 == id then Some(keys[0].1) else UrlFor(keys[1..], id)
  }

  /** The selected server. */
  function Selected(urls: UrlParser, s: Storage): Option<string> {
    if Pending(urls, s) then Some(LegacyUrl(urls, s))
    else
      var d := DocumentOf(urls, s);
      if d.selected.None? then None else UrlFor(Keys(d.profiles), d.selected.value)
  }

  ghost predicate SameAccounts(urls: UrlParser, s: Storage, t: Storage) {
    && Listed(urls, s) == Listed(urls, t) && Selected(urls, s) == Selected(urls, t)
    && forall url :: Credential(urls, s, url) == Credential(urls, t, url)
  }

  // ----- single writes

  function SetToken(s: Storage, id: string, token: string): Storage { s.(tokens := s.tokens[id := token]) }

  function DeleteToken(s: Storage, id: string): Storage { s.(tokens := s.tokens - {id}) }

  function SaveDocument(s: Storage, d: Document): Storage { s.(document := Some(Encode(d))) }

  function Last(s: Storage, writes: seq<Storage>): Storage {
    if writes == [] then s else writes[|writes| - 1]
  }

  // ----- loading, with migration

  function HostOf(urls: UrlParser, url: string): string {
    match urls(url) case Some(u) => u.host case None => ""
  }

  function NewProfile(id: string, displayName: string, url: string): Profile {
    Profile(id, displayName, url, None, None, [], [])
  }

  function MigratedDocument(urls: UrlParser, s: Storage, newId: string): Document
    requires Pending(urls, s)
  {
    var url := LegacyUrl(urls, s);
    Document(Some(newId), [NewProfile(newId, HostOf(urls, url), url)])
  }

  /** `loadDocument`: the document, or the error. */
  function Loaded(urls: UrlParser, s: Storage, newId: string): Result<Document, SessionError> {
    if s.document.Some? then ParseDocument(urls, s.document.value)
    else if Pending(urls, s) then Ok(MigratedDocument(urls, s, newId))
    else if HasLegacy(s) then Err(NormalizeUrl(urls, s.legacyServer.value).error)
    else Ok(EMPTY_DOCUMENT)
  }

  /** The storage after each write of `loadDocument`; the two final deletions come in either order. */
  function LoadWrites(urls: UrlParser, s: Storage, newId: string, serverFirst: bool): seq<Storage> {
    if Pending(urls, s) then
      var s1 := SetToken(s, newId, s.legacyToken.value);
      var s2 := SaveDocument(s1, MigratedDocument(urls, s, newId));
      var s3 := if serverFirst then s2.(legacyServer := None) else s2.(legacyToken := None);
      [s1, s2, s3, s2.(legacyServer := None, legacyToken := None)]
    else []
  }

  // ----- operations on the loaded document

  function DisplayName(value: Option<string>, fallback: string): string {
    if value.Some? && Trim(value.value) != [] then Trim(value.value) else fallback
  }

  function Find(profiles: seq<Profile>, url: string): (r: Option<Profile>)
    ensures r.Some? ==> r.value in profiles && r.value.baseUrl == url
    ensures r.None? ==> forall p :: p in profiles ==> p.baseUrl != url
  {
    if profiles == [] then None else if profiles[0].baseUrl == url then Some(profiles[0]) else Find(profiles[1..], url)
  }

  function Replace(profiles: seq<Profile>, p: Profile): (r: seq<Profile>)
    ensures |r| == |profiles|
    ensures forall i :: 0 <= i < |r| ==> r[i] == if profiles[i].id == p.id then p else profiles[i]
  {
    if profiles == [] then [] else [if profiles[0].id == p.id then p else profiles[0]] + Replace(profiles[1..], p)
  }

  function Remaining(profiles: seq<Profile>, id: string): (r: seq<Profile>)
    ensures |r| <= |profiles|
    ensures forall p :: p in r <==> p in profiles && p.id != id
  {
    if profiles == [] then []
    else (if profiles[0].id == id then [] else [profiles[0]]) + Remaining(profiles[1..], id)
  }

  /** The profile `storeCredential` writes. */
  function StoredProfile(urls: UrlParser, d: Document, url: string, newId: string, name: Option<string>): Profile {
    match Find(d.profiles, url)
    case Some(p) => p.(displayName := DisplayName(name, p.displayName))
    case None => NewProfile(newId, DisplayName(name, HostOf(urls, url)), url)
  }

  function StoredDocument(urls: UrlParser, d: Document, url: string, newId: string, name: Option<string>): Document {
    var p := StoredProfile(urls, d, url, newId, name);
    Document(Some(p.id), if Find(d.profiles, url).Some? then Replace(d.profiles, p) else d.profiles + [p])
  }

  function RemovedDocument(d: Document, id: string): Document {
    var rest := Remaining(d.profiles, id);
    Document(if d.selected == Some(id) then (if rest == [] then None else Some(rest[0].id)) else d.selected, rest)
  }

  datatype Compatibility = Compatibility(apiVersion: string, resources: seq<string>, commands: seq<string>)

  function Connected(p: Profile, c: Compatibility, now: string): Profile {
    p.(lastConnection := Some(now), apiVersion := Some(c.apiVersion),
       resources := UniqueStrings(c.resources), commands := UniqueStrings(c.commands))
  }

  /** One operation of a session, naming servers by normalized URL. */
  datatype Action =
    | Store(url: string, token: string, name: Option<string>)
    | Select(url: string)
    | Remove(url: string)
    | Clear(url: string)
    | Record(url: string, compatibility: Compatibility, now: string)

  /** The storage after each write of an operation on document `d`, loaded into storage `s`. */
  function DocumentWrites(urls: UrlParser, s: Storage, d: Document, a: Action, newId: string): seq<Storage> {
    match a
    case Store(url, token, name) =>
      var s1 := SetToken(s, StoredProfile(urls, d, url, newId, name).id, token);
      [s1, SaveDocument(s1, StoredDocument(urls, d, url, newId, name))]
    case Select(url) =>
      (match Find(d.profiles, url)
       case None => []
       case Some(p) => [SaveDocument(s, d.(selected := Some(p.id)))])
    case Remove(url) =>
      (match Find(d.profiles, url)
       case None => []
       case Some(p) =>
         var s1 := DeleteToken(s, p.id);
         [s1, SaveDocument(s1, RemovedDocument(d, p.id))])
    case Clear(url) =>
      (match Find(d.profiles, url)
       case None => []
       case Some(p) => [DeleteToken(s, p.id)])
    case Record(url, c, now) =>
      (match Find(d.profiles, url)
       case None => []
       case Some(p) => [SaveDocument(s, d.(profiles := Replace(d.profiles, Connected(p, c, now))))])
  }

  /** All writes of an operation: those of the load, then its own. */
  function Writes(urls: UrlParser, s: Storage, a: Action, ids: (string, string), serverFirst: bool): seq<Storage> {
    match Loaded(urls, s, ids.0)
    case Err(_) => []
    case Ok(d) =>
      var load := LoadWrites(urls, s, ids.0, serverFirst);
      load + DocumentWrites(urls, Last(s, load), d, a, ids.1)
  }

  /** New identities are well formed and in nobody's use. */
  predicate Fresh(urls: UrlParser, s: Storage, ids: (string, string)) {
    && ValidId(ids.0) && ValidId(ids.1) && ids.0 != ids.1
    && forall i :: 0 <= i < |Keys(DocumentOf(urls, s).profiles)| ==>
         Keys(DocumentOf(urls, s).profiles)[i].0 != ids.0 && Keys(DocumentOf(urls, s).profiles)[i].0 != ids.1
  }
}
