/** Server profiles of mobile/src/session.ts: URL and text normalization, and the JSON document that
    holds the profiles. */
module ProfileDocuments {
  import opened Results
  import opened Text

  datatype SessionError =
    | UrlRequired | UrlNotAbsolute | UrlNotSecure | UrlWithCredentials | UrlNotOrigin
    | DocumentFormat | SelectedMissing | ProfileInvalid | ProfileIdInvalid | ProfileMissing
    | TokenRequired | DeviceNameRequired | CodeRequired | PairingFailed | NoPairedCredential | ServerMismatch
    | CredentialRejected | ValidationFailed

  // ----- normalization

  /** The URL parser's answer for an absolute URL. */
  datatype Url = Url(protocol: string, hostname: string, username: string, password: string,
                     pathname: string, search: string, hash: string, origin: string, host: string)

  type UrlParser = string -> Option<Url>

  predicate IsOrigin(u: Url) {
    u.username == "" && u.password == "" && u.pathname == "/" && u.search == "" && u.hash == ""
  }

  predicate Secure(u: Url) {
    u.protocol == "https:"
    || (u.protocol == "http:" && (u.hostname == "localhost" || u.hostname == "127.0.0.1" || u.hostname == "::1"))
  }

  /** What the model asks of the URL parser: the origin of a bare http(s) URL is plain text that parses to
      the same scheme, host and origin, and the host is not blank. */
  ghost predicate UrlLaws(urls: UrlParser) {
    forall s {:trigger urls(s)} :: urls(s).Some? && IsOrigin(urls(s).value) && Secure(urls(s).value) ==>
      var u := urls(s).value;
      && u.origin != [] && Trimmed(u.origin) && u.origin[|u.origin| - 1] != '/'
      && u.host != [] && Trimmed(u.host)
      && urls(u.origin).Some? && IsOrigin(urls(u.origin).value) && Secure(urls(u.origin).value)
      && urls(u.origin).value.origin == u.origin
  }

  function WithoutSlash(s: string): string {
    if s != [] && s[|s| - 1] == '/' then s[..|s| - 1] else s
  }

  /** `normalizeServerUrl` */
  function NormalizeUrl(urls: UrlParser, value: string): Result<string, SessionError> {
    var trimmed := WithoutSlash(Trim(value));
    if trimmed == [] then Err(UrlRequired)
    else match urls(trimmed)
      case None => Err(UrlNotAbsolute)
      case Some(u) =>
        if !Secure(u) then Err(UrlNotSecure)
        else if u.username != "" || u.password != "" then Err(UrlWithCredentials)
        else if u.pathname != "/" || u.search != "" || u.hash != "" then Err(UrlNotOrigin)
        else Ok(u.origin)
  }

  /** A base URL as the store keeps it. */
  predicate NormalUrl(urls: UrlParser, url: string) {
    NormalizeUrl(urls, url) == Ok(url)
  }

  lemma NormalizeIdempotent(urls: UrlParser, value: string)
    requires UrlLaws(urls) && NormalizeUrl(urls, value).Ok?
    ensures var url := NormalizeUrl(urls, value).value;
      NormalUrl(urls, url) && Trimmed(url) && url != [] && urls(url).Some? && urls(url).value.host != [] && Trimmed(urls(url).value.host)
  {
    var trimmed := WithoutSlash(Trim(value));
    var u := urls(trimmed).value;
    assert Trim(u.origin) == u.origin && WithoutSlash(u.origin) == u.origin;
  }

  /** Trimmed texts, blanks dropped. */
  function TrimmedTexts(values: seq<string>): (r: seq<string>)
    ensures forall v :: v in r ==> v != [] && Trimmed(v)
  {
    if values == [] then []
    else (if Trim(values[0]) == [] then [] else [Trim(values[0])]) + TrimmedTexts(values[1..])
  }

  /** `[...new Set(values)]` */
  function Distinct(values: seq<string>): (r: seq<string>)
    ensures forall v :: v in r <==> v in values
    ensures forall i, j :: 0 <= i < j < |r| ==> r[i] != r[j]
  {
    if values == [] then []
    else
      var n := |values| - 1;
      var before := Distinct(values[..n]);
      assert values == values[..n] + [values[n]];
      if values[n] in before then before else before + [values[n]]
  }

  /** `uniqueStrings` */
  function UniqueStrings(values: seq<string>): seq<string> { Distinct(TrimmedTexts(values)) }

  predicate UniqueTexts(values: seq<string>) {
    && (forall v :: v in values ==> v != [] && Trimmed(v))
    && (forall i, j :: 0 <= i < j < |values| ==> values[i] != values[j])
  }

  lemma TrimmedFixed(value: string)
    requires Trimmed(value)
    ensures Trim(value) == value
  {}

  lemma {:induction false} TrimmedTextsFixed(values: seq<string>)
    requires forall v :: v in values ==> v != [] && Trimmed(v)
    ensures TrimmedTexts(values) == values
  {
    hide Trim, Trimmed;
    if values != [] {
      assert values[0] in values;
      TrimmedFixed(values[0]);
      forall v | v in values[1..] ensures v != [] && Trimmed(v) { assert v in values; }
      TrimmedTextsFixed(values[1..]);
      assert values == [values[0]] + values[1..];
    }
  }

  lemma {:induction false} DistinctFixed(values: seq<string>)
    requires forall i, j :: 0 <= i < j < |values| ==> values[i] != values[j]
    ensures Distinct(values) == values
  {
    if values != [] {
      var n := |values| - 1;
      DistinctFixed(values[..n]);
      assert values == values[..n] + [values[n]];
    }
  }

  /** `uniqueStrings` changes nothing exactly on lists it could have produced. */
  lemma UniqueStringsFixedIff(values: seq<string>)
    ensures UniqueStrings(values) == values <==> UniqueTexts(values)
    ensures UniqueTexts(UniqueStrings(values))
  {
    if UniqueTexts(values) {
      TrimmedTextsFixed(values);
      DistinctFixed(values);
    }
  }

  // ----- profiles

  predicate IsHex(c: char) { '0' <= c <= '9' || 'a' <= c <= 'f' }

  /** `/^profile-[0-9a-f]{32}$/` */
  predicate ValidId(id: string) {
    |id| == 40 && id[..8] == "profile-" && forall i :: 8 <= i < 40 ==> IsHex(id[i])
  }

  lemma ValidIdTrimmed(id: string)
    requires ValidId(id)
    ensures Trimmed(id) && id != []
  {
    assert id[0] == id[..8][0] && IsHex(id[39]);
  }

  datatype Profile = Profile(id: string, displayName: string, baseUrl: string,
                             lastConnection: Option<string>, apiVersion: Option<string>,
                             resources: seq<string>, commands: seq<string>)

  datatype Document = Document(selected: Option<string>, profiles: seq<Profile>)

  const EMPTY_DOCUMENT := Document(None, [])

  /** A profile that reading would not change. */
  predicate CanonicalProfile(urls: UrlParser, p: Profile) {
    && ValidId(p.id) && p.displayName != [] && Trimmed(p.displayName)
    && NormalUrl(urls, p.baseUrl) && Trimmed(p.baseUrl) && p.baseUrl != []
    && UniqueTexts(p.resources) && UniqueTexts(p.commands)
  }

  predicate Lists(d: Document, id: string) {
    exists p :: p in d.profiles && p.id == id
  }

  predicate Canonical(urls: UrlParser, d: Document) {
    && (forall p :: p in d.profiles ==> CanonicalProfile(urls, p))
    && (d.selected.Some? ==> Lists(d, d.selected.value))
  }

  // ----- writing and reading JSON

  function OptionalText(value: Option<string>): Json {
    if value.Some? then JStr(value.value) else JNull
  }

  function Texts(values: seq<string>): (r: seq<Json>)
    ensures |r| == |values| && forall i :: 0 <= i < |r| ==> r[i] == JStr(values[i])
  {
    if values == [] then [] else [JStr(values[0])] + Texts(values[1..])
  }

  function EncodeProfile(p: Profile): Json {
    JObj(map["id" := JStr(p.id), "displayName" := JStr(p.displayName), "baseUrl" := JStr(p.baseUrl),
             "lastSuccessfulConnection" := OptionalText(p.lastConnection), "apiVersion" := OptionalText(p.apiVersion),
             "resources" := JArr(Texts(p.resources)), "commands" := JArr(Texts(p.commands))])
  }

  function EncodeProfiles(profiles: seq<Profile>): seq<Json> {
    if profiles == [] then [] else [EncodeProfile(profiles[0])] + EncodeProfiles(profiles[1..])
  }

  /** `JSON.stringify(document)` */
  function Encode(d: Document): Json {
    JObj(map["schemaVersion" := JNum(1.0), "selectedProfileId" := OptionalText(d.selected),
             "profiles" := JArr(EncodeProfiles(d.profiles))])
  }

  function MemberOf(members: map<string, Json>, name: string): Json {
    if name in members then members[name] else JNull
  }

  function TextOrNone(value: Json): Option<string> {
    if value.JStr? then Some(value.text) else None
  }

  function StringItems(items: seq<Json>): seq<string> {
    if items == [] then []
    else (if items[0].JStr? then [items[0].text] else []) + StringItems(items[1..])
  }

  /** `stringArray` */
  function StringArray(value: Json): seq<string> {
    if value.JArr? then UniqueStrings(StringItems(value.items)) else []
  }

  /** `requireStoredString` */
  function StoredString(value: Json): Result<string, SessionError> {
    if value.JStr? && Trim(value.text) != [] then Ok(Trim(value.text)) else Err(ProfileInvalid)
  }

  /** `parseServerProfile` */
  function ParseProfile(urls: UrlParser, value: Json): Result<Profile, SessionError> {
    if !value.JObj? then Err(ProfileInvalid)
    else
      var m := value.members;
      var stored :- StoredString(MemberOf(m, "baseUrl"));
      var baseUrl :- NormalizeUrl(urls, stored);
      var id :- StoredString(MemberOf(m, "id"));
      if !ValidId(id) then Err(ProfileIdInvalid)
      else
        var displayName :- StoredString(MemberOf(m, "displayName"));
        Ok(Profile(id, displayName, baseUrl, TextOrNone(MemberOf(m, "lastSuccessfulConnection")),
                   TextOrNone(MemberOf(m, "apiVersion")), StringArray(MemberOf(m, "resources")),
                   StringArray(MemberOf(m, "commands"))))
  }

  function ParseProfiles(urls: UrlParser, items: seq<Json>): Result<seq<Profile>, SessionError> {
    if items == [] then Ok([])
    else
      var first :- ParseProfile(urls, items[0]);
      var rest :- ParseProfiles(urls, items[1..]);
      Ok([first] + rest)
  }

  /** `parseProfileDocument` on parsed JSON. */
  function ParseDocument(urls: UrlParser, value: Json): Result<Document, SessionError> {
    if !value.JObj? || MemberOf(value.members, "schemaVersion") != JNum(1.0) || !MemberOf(value.members, "profiles").JArr? then
      Err(DocumentFormat)
    else
      var profiles :- ParseProfiles(urls, MemberOf(value.members, "profiles").items);
      var d := Document(TextOrNone(MemberOf(value.members, "selectedProfileId")), profiles);
      if d.selected.Some? && !Lists(d, d.selected.value) then Err(SelectedMissing) else Ok(d)
  }

  // ----- reading back what was written

  lemma {:induction false} StringItemsOfTexts(values: seq<string>)
    ensures StringItems(Texts(values)) == values
  {
    if values != [] {
      StringItemsOfTexts(values[1..]);
      assert Texts(values)[1..] == Texts(values[1..]);
    }
  }

  lemma StringArrayOfTexts(values: seq<string>)
    ensures StringArray(JArr(Texts(values))) == UniqueStrings(values)
  {
    StringItemsOfTexts(values);
  }

  lemma StoredStringFixed(text: string)
    requires text != [] && Trimmed(text)
    ensures StoredString(JStr(text)) == Ok(text)
  {}

  lemma StoredStringTrimmed(value: Json)
    requires StoredString(value).Ok?
    ensures StoredString(value).value != [] && Trimmed(StoredString(value).value)
  {}

  lemma StringArrayUnique(value: Json)
    ensures UniqueTexts(StringArray(value))
  {
    UniqueStringsFixedIff(if value.JArr? then StringItems(value.items) else []);
  }

  lemma StringArrayFixed(values: seq<string>)
    requires UniqueTexts(values)
    ensures StringArray(JArr(Texts(values))) == values
  {
    StringArrayOfTexts(values);
    UniqueStringsFixedIff(values);
  }

  lemma EncodedMembers(p: Profile)
    ensures var m := EncodeProfile(p).members;
      && MemberOf(m, "baseUrl") == JStr(p.baseUrl) && MemberOf(m, "id") == JStr(p.id)
      && MemberOf(m, "displayName") == JStr(p.displayName)
      && TextOrNone(MemberOf(m, "lastSuccessfulConnection")) == p.lastConnection
      && TextOrNone(MemberOf(m, "apiVersion")) == p.apiVersion
      && MemberOf(m, "resources") == JArr(Texts(p.resources)) && MemberOf(m, "commands") == JArr(Texts(p.commands))
  {
    hide Texts;
  }

  lemma ProfileReadBack(urls: UrlParser, p: Profile)
    requires CanonicalProfile(urls, p)
    ensures ParseProfile(urls, EncodeProfile(p)) == Ok(p)
  {
    hide UniqueStrings, ValidId, NormalizeUrl, Trim, Trimmed, Texts, StringArray, UniqueTexts, StoredString, MemberOf, EncodeProfile;
    assert EncodeProfile(p).JObj? by { EncodedObject(p); }
    EncodedMembers(p);
    ValidIdTrimmed(p.id);
    StoredStringFixed(p.id);
    StoredStringFixed(p.baseUrl);
    StoredStringFixed(p.displayName);
    StringArrayFixed(p.resources);
    StringArrayFixed(p.commands);
  }

  lemma EncodedObject(p: Profile)
    ensures EncodeProfile(p).JObj?
  {}

  lemma {:induction false} ProfilesReadBack(urls: UrlParser, profiles: seq<Profile>)
    requires forall p :: p in profiles ==> CanonicalProfile(urls, p)
    ensures ParseProfiles(urls, EncodeProfiles(profiles)) == Ok(profiles)
  {
    hide CanonicalProfile, ParseProfile, EncodeProfile;
    if profiles != [] {
      assert profiles[0] in profiles;
      ProfileReadBack(urls, profiles[0]);
      ProfilesReadBack(urls, profiles[1..]);
      var rest := EncodeProfiles(profiles[1..]);
      assert ([EncodeProfile(profiles[0])] + rest)[1..] == rest;
      assert profiles == [profiles[0]] + profiles[1..];
    }
  }

  lemma ProfileReadIsCanonical(urls: UrlParser, value: Json)
    requires UrlLaws(urls) && ParseProfile(urls, value).Ok?
    ensures CanonicalProfile(urls, ParseProfile(urls, value).value)
  {
    hide NormalizeUrl, Trim, Trimmed, StringArray, UniqueTexts, UrlLaws, StoredString, MemberOf, ValidId;
    var m := value.members;
    var stored := StoredString(MemberOf(m, "baseUrl")).value;
    NormalizeIdempotent(urls, stored);
    StoredStringTrimmed(MemberOf(m, "displayName"));
    StringArrayUnique(MemberOf(m, "resources"));
    StringArrayUnique(MemberOf(m, "commands"));
  }

  lemma {:induction false} ProfilesReadAreCanonical(urls: UrlParser, items: seq<Json>)
    requires UrlLaws(urls) && ParseProfiles(urls, items).Ok?
    ensures forall p :: p in ParseProfiles(urls, items).value ==> CanonicalProfile(urls, p)
  {
    hide CanonicalProfile, ParseProfile, UrlLaws;
    if items != [] {
      ProfileReadIsCanonical(urls, items[0]);
      ProfilesReadAreCanonical(urls, items[1..]);
    }
  }

  /** Whatever JSON is read, the document in memory is canonical. */
  lemma ReadIsCanonical(urls: UrlParser, value: Json)
    requires UrlLaws(urls) && ParseDocument(urls, value).Ok?
    ensures Canonical(urls, ParseDocument(urls, value).value)
  {
    hide CanonicalProfile, UrlLaws, ParseProfiles;
    ProfilesReadAreCanonical(urls, MemberOf(value.members, "profiles").items);
  }

  /** A saved document is read back unchanged exactly when it is canonical. */
  lemma ReadBackIffCanonical(urls: UrlParser, d: Document)
    requires UrlLaws(urls)
    ensures ParseDocument(urls, Encode(d)) == Ok(d) <==> Canonical(urls, d)
  {
    hide CanonicalProfile, UrlLaws, ParseProfiles, EncodeProfiles;
    if Canonical(urls, d) {
      ProfilesReadBack(urls, d.profiles);
      var m := Encode(d).members;
      assert MemberOf(m, "schemaVersion") == JNum(1.0);
      assert MemberOf(m, "profiles") == JArr(EncodeProfiles(d.profiles));
      assert TextOrNone(MemberOf(m, "selectedProfileId")) == d.selected;
    }
    if ParseDocument(urls, Encode(d)) == Ok(d) {
      ReadIsCanonical(urls, Encode(d));
    }
  }
}
