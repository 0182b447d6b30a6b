/** Whole runs of the profile store of mobile/src/session.ts. */
module ProfileHistory {
  import opened Results
  import opened ProfileDocuments
  import opened ProfileStates
  import opened ProfileRuns

  /** What chance decides in one operation: identities for a migrated and for a new profile, and which
      legacy key is deleted first. */
  datatype Choice = Choice(migrationId: string, profileId: string, serverFirst: bool)

  function WritesOf(urls: UrlParser, s: Storage, a: Action, c: Choice): seq<Storage> {
    Writes(urls, s, a, (c.migrationId, c.profileId), c.serverFirst)
  }

  predicate FreshChoice(urls: UrlParser, s: Storage, c: Choice) {
    Fresh(urls, s, (c.migrationId, c.profileId))
  }

  predicate Allowed(urls: UrlParser, a: Action) { a.Store? ==> NormalUrl(urls, a.url) }

  lemma LastAppend(s: Storage, a: seq<Storage>, b: seq<Storage>)
    ensures Last(s, a + b) == Last(Last(s, a), b)
  {}

  lemma DocumentRefines(urls: UrlParser, s: Storage, d: Document, a: Action, newId: string)
    requires UrlLaws(urls) && Settled(urls, s, d) && ValidId(newId) && Allowed(urls, a)
    requires forall k :: k in Keys(d.profiles) ==> k.0 != newId
    ensures Refines(urls, s, DocumentWrites(urls, s, d, a, newId), a)
  {
    hide Settled, Refines, UrlLaws, DocumentWrites, ValidId, NormalizeUrl, Keys;
    match a
    case Store(url, token, name) =>
      if Find(d.profiles, url).Some? {
        StoreExisting(urls, s, d, url, token, name, newId);
      } else {
        StoreNew(urls, s, d, url, token, name, newId);
      }
    case Select(url) => SelectRefines(urls, s, d, url, newId);
    case Remove(url) => RemoveRefines(urls, s, d, url, newId);
    case Clear(url) => ClearRefines(urls, s, d, url, newId);
    case Record(_, _, _) => RecordRefines(urls, s, d, a, newId);
  }

  /** One whole operation, its load and migration included. */
  lemma OperationRefines(urls: UrlParser, s: Storage, a: Action, c: Choice)
    requires UrlLaws(urls) && Sound(urls, s) && !Blocked(urls, s) && FreshChoice(urls, s, c) && Allowed(urls, a)
    ensures Refines(urls, s, WritesOf(urls, s, a, c), a)
  {
    hide Settled, UrlLaws, DocumentWrites, ValidId, NormalizeUrl, ParseDocument, LoadWrites, Credential, Listed, Selected, Sound, Blocked;
    LoadIsInvisible(urls, s, c.migrationId, c.serverFirst);
    var d, load := Loaded(urls, s, c.migrationId).value, LoadWrites(urls, s, c.migrationId, c.serverFirst);
    var t := Last(s, load);
    LoadedKeysFresh(urls, s, c);
    DocumentRefines(urls, t, d, a, c.profileId);
    var own := DocumentWrites(urls, t, d, a, c.profileId);
    LastAppend(s, load, own);
    assert SameAccounts(urls, s, t);
    forall w | w in load + own ensures Sound(urls, w) && !Blocked(urls, w) && OthersKeep(urls, s, w, a.url) && Atomic(urls, s, w, a) {
      if w in load { assert SameAccounts(urls, s, w); } else { assert w in own && OthersKeep(urls, t, w, a.url) && Atomic(urls, t, w, a); }
    }
  }

  lemma LoadedKeysFresh(urls: UrlParser, s: Storage, c: Choice)
    requires FreshChoice(urls, s, c) && Sound(urls, s) && Loaded(urls, s, c.migrationId).Ok?
    ensures forall k :: k in Keys(Loaded(urls, s, c.migrationId).value.profiles) ==> k.0 != c.profileId
  {
    hide ParseDocument, NormalizeUrl, ValidId, DistinctKeys;
  }

  // ----- runs

  function After(urls: UrlParser, s: Storage, a: Action, c: Choice): Storage {
    Last(s, WritesOf(urls, s, a, c))
  }

  function Run(urls: UrlParser, s: Storage, actions: seq<Action>, choices: seq<Choice>): Storage
    requires |actions| == |choices|
    decreases |actions|
  {
    if actions == [] then s else Run(urls, After(urls, s, actions[0], choices[0]), actions[1..], choices[1..])
  }

  /** At every step the new identities are in nobody's use. */
  predicate FreshRun(urls: UrlParser, s: Storage, actions: seq<Action>, choices: seq<Choice>)
    requires |actions| == |choices|
    decreases |actions|
  {
    actions == [] ||
    (FreshChoice(urls, s, choices[0]) && Allowed(urls, actions[0])
     && FreshRun(urls, After(urls, s, actions[0], choices[0]), actions[1..], choices[1..]))
  }

  function FinalCredential(c: Option<string>, actions: seq<Action>, url: string): Option<string>
    decreases |actions|
  {
    if actions == [] then c else FinalCredential(NextCredential(c, actions[0], url), actions[1..], url)
  }

  function FinalListed(listed: seq<string>, actions: seq<Action>): seq<string>
    decreases |actions|
  {
    if actions == [] then listed else FinalListed(NextListed(listed, actions[0]), actions[1..])
  }

  function FinalSelected(listed: seq<string>, selected: Option<string>, actions: seq<Action>): Option<string>
    decreases |actions|
  {
    if actions == [] then selected
    else FinalSelected(NextListed(listed, actions[0]), NextSelected(listed, selected, actions[0]), actions[1..])
  }

  /** Every run, from any sound storage, an empty or a legacy one included, refines the list of servers. */
  lemma {:induction false} RunRefines(urls: UrlParser, s: Storage, actions: seq<Action>, choices: seq<Choice>, url: string)
    requires |actions| == |choices| && UrlLaws(urls) && Sound(urls, s) && !Blocked(urls, s)
    requires FreshRun(urls, s, actions, choices)
    ensures var t := Run(urls, s, actions, choices);
      && Sound(urls, t) && !Blocked(urls, t)
      && Credential(urls, t, url) == FinalCredential(Credential(urls, s, url), actions, url)
      && Listed(urls, t) == FinalListed(Listed(urls, s), actions)
      && Selected(urls, t) == FinalSelected(Listed(urls, s), Selected(urls, s), actions)
    decreases |actions|
  {
    hide UrlLaws, Sound, Blocked, Credential, Listed, Selected, WritesOf, FreshChoice, Allowed, NextCredential, NextListed, NextSelected;
    if actions != [] {
      var a, c := actions[0], choices[0];
      OperationRefines(urls, s, a, c);
      var t := After(urls, s, a, c);
      assert Credential(urls, t, url) == NextCredential(Credential(urls, s, url), a, url) by {
        StepCredential(urls, s, WritesOf(urls, s, a, c), a, url);
      }
      RunRefines(urls, t, actions[1..], choices[1..], url);
    }
  }

  lemma StepCredential(urls: UrlParser, s: Storage, writes: seq<Storage>, a: Action, url: string)
    requires Refines(urls, s, writes, a)
    ensures Credential(urls, Last(s, writes), url) == NextCredential(Credential(urls, s, url), a, url)
  {
    hide Sound, Blocked, Credential, Listed, Selected, NextListed, NextSelected;
    if url != a.url && writes != [] {
      assert Last(s, writes) in writes;
    }
  }

  predicate Forgets(a: Action, url: string) {
    (a.Remove? || a.Clear?) && a.url == url
  }

  predicate StoresAt(actions: seq<Action>, i: int, url: string, token: string) {
    0 <= i < |actions| && actions[i].Store? && actions[i].url == url && actions[i].token == token
  }

  predicate Untouched(actions: seq<Action>, from: nat, url: string) {
    forall j :: from <= j < |actions| ==> !Forgets(actions[j], url) && !(actions[j].Store? && actions[j].url == url)
  }

  /** The credential at the end of a run from nothing is the last one stored and not since cleared. */
  lemma {:induction false} FinalIsLastStored(actions: seq<Action>, c: Option<string>, url: string, token: string)
    ensures FinalCredential(c, actions, url) == Some(token) <==>
      || (exists i :: StoresAt(actions, i, url, token) && Untouched(actions, i + 1, url))
      || (c == Some(token) && Untouched(actions, 0, url))
    decreases |actions|
  {
    if actions != [] {
      var a, rest := actions[0], actions[1..];
      var c' := NextCredential(c, a, url);
      FinalIsLastStored(rest, c', url, token);
      assert forall j :: 0 <= j < |rest| ==> rest[j] == actions[j + 1];
      assert Untouched(actions, 1, url) <==> Untouched(rest, 0, url) by { UntouchedTail(actions, 0, url); }
      if exists i :: StoresAt(rest, i, url, token) && Untouched(rest, i + 1, url) {
        var i :| StoresAt(rest, i, url, token) && Untouched(rest, i + 1, url);
        UntouchedTail(actions, i + 1, url);
        assert StoresAt(actions, i + 1, url, token) && Untouched(actions, i + 2, url);
      }
      if exists i :: StoresAt(actions, i, url, token) && Untouched(actions, i + 1, url) {
        var i :| StoresAt(actions, i, url, token) && Untouched(actions, i + 1, url);
        if i > 0 {
          UntouchedTail(actions, i, url);
          assert StoresAt(rest, i - 1, url, token);
        }
      }
      if c' == Some(token) && Untouched(rest, 0, url) && a.Store? && a.url == url {
        assert StoresAt(actions, 0, url, token);
      }
    }
  }

  lemma UntouchedTail(actions: seq<Action>, k: nat, url: string)
    requires actions != []
    ensures Untouched(actions, k + 1, url) <==> Untouched(actions[1..], k, url)
  {
    var rest := actions[1..];
    assert forall j :: 0 <= j < |rest| ==> rest[j] == actions[j + 1];
    assert forall j :: 1 <= j < |actions| ==> actions[j] == rest[j - 1];
  }

  const EMPTY_STORAGE := Storage(None, map[], None, None)

  /** From an empty store: `getToken` answers exactly the last credential stored and not since cleared. */
  lemma TokenIsLastStored(urls: UrlParser, actions: seq<Action>, choices: seq<Choice>, url: string, token: string)
    requires |actions| == |choices| && UrlLaws(urls) && FreshRun(urls, EMPTY_STORAGE, actions, choices)
    ensures Credential(urls, Run(urls, EMPTY_STORAGE, actions, choices), url) == Some(token)
       <==> exists i :: StoresAt(actions, i, url, token) && Untouched(actions, i + 1, url)
  {
    hide UrlLaws, NormalizeUrl, FreshRun, StoresAt, Untouched, Run;
    RunRefines(urls, EMPTY_STORAGE, actions, choices, url);
    assert Credential(urls, EMPTY_STORAGE, url) == None;
    FinalIsLastStored(actions, None, url, token);
  }

  /** In every reached storage the selected profile is listed and all identities and URLs differ. */
  lemma ReachedIsWellFormed(urls: UrlParser, actions: seq<Action>, choices: seq<Choice>)
    requires |actions| == |choices| && UrlLaws(urls) && FreshRun(urls, EMPTY_STORAGE, actions, choices)
    ensures var d := DocumentOf(urls, Run(urls, EMPTY_STORAGE, actions, choices));
      Canonical(urls, d) && DistinctKeys(Keys(d.profiles))
  {
    hide UrlLaws, NormalizeUrl, FreshRun, ParseDocument, Canonical, DistinctKeys;
    RunRefines(urls, EMPTY_STORAGE, actions, choices, "");
    var t := Run(urls, EMPTY_STORAGE, actions, choices);
    if t.document.Some? {
      ReadIsCanonical(urls, t.document.value);
    } else {
      EmptyCanonical(urls);
      assert DistinctKeys(Keys(EMPTY_DOCUMENT.profiles)) by { EmptyDistinct(); }
    }
  }

  lemma EmptyDistinct()
    ensures DistinctKeys(Keys(EMPTY_DOCUMENT.profiles))
  {}

  // ----- runs with crashes

  /** An operation that stops after `cut` storage writes, or completes when it has no more. */
  datatype Attempt = Attempt(action: Action, choice: Choice, cut: nat)

  function Interrupted(urls: UrlParser, s: Storage, step: Attempt): Storage {
    var writes := WritesOf(urls, s, step.action, step.choice);
    Last(s, writes[..if step.cut < |writes| then step.cut else |writes|])
  }

  function CrashRun(urls: UrlParser, s: Storage, steps: seq<Attempt>): Storage
    decreases |steps|
  {
    if steps == [] then s else CrashRun(urls, Interrupted(urls, s, steps[0]), steps[1..])
  }

  predicate FreshCrashRun(urls: UrlParser, s: Storage, steps: seq<Attempt>)
    decreases |steps|
  {
    steps == [] ||
    (FreshChoice(urls, s, steps[0].choice) && Allowed(urls, steps[0].action)
     && FreshCrashRun(urls, Interrupted(urls, s, steps[0]), steps[1..]))
  }

  /** `r` is what remains of `c` when each operation either took place or did not. */
  predicate Possible(c: Option<string>, steps: seq<Attempt>, url: string, r: Option<string>)
    decreases |steps|
  {
    if steps == [] then r == c
    else
      || Possible(c, steps[1..], url, r)
      || Possible(NextCredential(c, steps[0].action, url), steps[1..], url, r)
  }

  lemma InterruptedIsAtomic(urls: UrlParser, s: Storage, step: Attempt, url: string)
    requires UrlLaws(urls) && Sound(urls, s) && !Blocked(urls, s) && FreshChoice(urls, s, step.choice) && Allowed(urls, step.action)
    ensures var w := Interrupted(urls, s, step);
      && Sound(urls, w) && !Blocked(urls, w)
      && (Credential(urls, w, url) == Credential(urls, s, url)
          || Credential(urls, w, url) == NextCredential(Credential(urls, s, url), step.action, url))
  {
    hide UrlLaws, Sound, Blocked, Credential, Listed, Selected, WritesOf, FreshChoice, Allowed, NextListed, NextSelected;
    OperationRefines(urls, s, step.action, step.choice);
    var writes := WritesOf(urls, s, step.action, step.choice);
    var n := if step.cut < |writes| then step.cut else |writes|;
    if n > 0 {
      var w := Interrupted(urls, s, step);
      assert w == writes[n - 1] && w in writes;
      assert OthersKeep(urls, s, w, step.action.url) && Atomic(urls, s, w, step.action);
    }
  }

  /** Whatever crashes after whichever write, every operation is all or nothing for every credential. */
  lemma {:induction false} CrashesAreAtomic(urls: UrlParser, s: Storage, steps: seq<Attempt>, url: string)
    requires UrlLaws(urls) && Sound(urls, s) && !Blocked(urls, s) && FreshCrashRun(urls, s, steps)
    ensures var t := CrashRun(urls, s, steps);
      Sound(urls, t) && !Blocked(urls, t) && Possible(Credential(urls, s, url), steps, url, Credential(urls, t, url))
    decreases |steps|
  {
    hide UrlLaws, Sound, Blocked, Credential, Interrupted, FreshChoice, Allowed, NextCredential;
    if steps != [] {
      InterruptedIsAtomic(urls, s, steps[0], url);
      CrashesAreAtomic(urls, Interrupted(urls, s, steps[0]), steps[1..], url);
    }
  }

  /** So a credential found for a server was there at the start or was stored for that very server. */
  lemma {:induction false} PossibleWasStored(c: Option<string>, steps: seq<Attempt>, url: string, r: Option<string>)
    requires Possible(c, steps, url, r) && r.Some?
    ensures r == c || exists i :: 0 <= i < |steps| && StoresToken(steps[i], url, r.value)
    decreases |steps|
  {
    if steps != [] {
      var next := if Possible(c, steps[1..], url, r) then c else NextCredential(c, steps[0].action, url);
      PossibleWasStored(next, steps[1..], url, r);
      if exists i :: 0 <= i < |steps[1..]| && StoresToken(steps[1..][i], url, r.value) {
        var i :| 0 <= i < |steps[1..]| && StoresToken(steps[1..][i], url, r.value);
        assert StoresToken(steps[i + 1], url, r.value);
      }
    }
  }

  predicate StoresToken(step: Attempt, url: string, token: string) {
    step.action.Store? && step.action.url == url && step.action.token == token
  }

  /** From an empty store, through any crashes, no server ever shows a credential stored for another. */
  lemma CredentialsStayWithTheirServer(urls: UrlParser, steps: seq<Attempt>, url: string, token: string)
    requires UrlLaws(urls) && FreshCrashRun(urls, EMPTY_STORAGE, steps)
    requires Credential(urls, CrashRun(urls, EMPTY_STORAGE, steps), url) == Some(token)
    ensures exists i :: 0 <= i < |steps| && StoresToken(steps[i], url, token)
  {
    hide UrlLaws, FreshCrashRun, CrashRun, Possible, StoresToken;
    assert Credential(urls, EMPTY_STORAGE, url) == None;
    CrashesAreAtomic(urls, EMPTY_STORAGE, steps, url);
    PossibleWasStored(None, steps, url, Some(token));
  }
}
