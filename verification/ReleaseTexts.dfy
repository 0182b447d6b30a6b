/** Version texts of mobile/src/updates.ts, and which released versions keep the choice of the latest
    release right. */
module ReleaseTexts {
  import opened Results
  import opened Sorting
  import opened ReleaseVersions

  function JoinDots(parts: seq<string>): string
    requires parts != []
  {
    if |parts| == 1 then parts[0] else parts[0] + "." + JoinDots(parts[1..])
  }

  /** What `split(".")` yields of a prerelease text. */
  predicate IsPart(part: string) {
    forall i :: 0 <= i < |part| ==> part[i] != '.' && IsIdentifierChar(part[i])
  }

  lemma SpanOf(a: string, b: string, p: char -> bool)
    requires (forall i :: 0 <= i < |a| ==> p(a[i])) && (b == [] || !p(b[0]))
    ensures Span(a + b, p) == (a, b)
  {
    var r := Span(a + b, p);
    assert forall i :: 0 <= i < |a| ==> (a + b)[i] == a[i];
    assert forall i :: 0 <= i < |r.0| ==> (r.0 + r.1)[i] == r.0[i];
    assert b != [] ==> (a + b)[|a|] == b[0];
    assert r.1 != [] ==> (r.0 + r.1)[|r.0|] == r.1[0];
    assert |r.0| == |a|;
    assert (a + b)[..|a|] == a && (r.0 + r.1)[..|a|] == r.0;
    assert (a + b)[|a|..] == b && (r.0 + r.1)[|a|..] == r.1;
  }

  lemma DotIsNoDigit()
    ensures !IsDigit('.') && !IsDigit('-')
  {}

  lemma LastNumber(digits: string, tail: string)
    requires AllDigits(digits) && IsCoreNumber(digits) && (tail == [] || !IsDigit(tail[0]))
    ensures ParseCore(digits + tail, 1) == Some(([ToNat(digits)], tail))
  {
    SpanOf(digits, tail, IsDigit);
    hide IsCoreNumber, ToNat, IsDigit;
  }

  lemma NumberBefore(digits: string, rest: string, n: nat)
    requires AllDigits(digits) && IsCoreNumber(digits) && n > 1 && ParseCore(rest, n - 1).Some?
    ensures var (numbers, left) := ParseCore(rest, n - 1).value;
      ParseCore(digits + ("." + rest), n) == Some(([ToNat(digits)] + numbers, left))
  {
    DotIsNoDigit();
    SpanOf(digits, "." + rest, IsDigit);
    hide IsCoreNumber, ToNat, IsDigit;
    assert ("." + rest)[1..] == rest;
  }

  /** The first number of a core, and what was read behind it. */
  lemma CoreParts(s: string, n: nat) returns (digits: string, rest: string)
    requires ParseCore(s, n).Some?
    ensures AllDigits(digits) && IsCoreNumber(digits) && n > 0
    ensures n == 1 ==> ParseCore(s, n).value.0 == [ToNat(digits)]
    ensures n > 1 ==> ParseCore(rest, n - 1).Some? && ParseCore(s, n).value.0 == [ToNat(digits)] + ParseCore(rest, n - 1).value.0
  {
    hide IsCoreNumber, ToNat;
    var span := Span(s, IsDigit);
    digits, rest := span.0, if n > 1 then span.1[1..] else "";
  }

  /** The core of a version is read the same before any text that does not start with a digit. */
  lemma {:induction false} CoreBefore(s: string, n: nat, tail: string) returns (head: string)
    requires ParseCore(s, n).Some? && (tail == [] || !IsDigit(tail[0]))
    ensures ParseCore(head + tail, n) == Some((ParseCore(s, n).value.0, tail))
    decreases n
  {
    hide IsDigit, IsCoreNumber, ToNat, ParseCore, AllDigits;
    var digits, rest := CoreParts(s, n);
    if n == 1 {
      head := digits;
      LastNumber(digits, tail);
    } else {
      var more := CoreBefore(rest, n - 1, tail);
      head := digits + "." + more;
      NumberBefore(digits, more + tail, n);
      assert head + tail == digits + ("." + (more + tail));
    }
  }

  lemma {:induction false} SplitPart(part: string, rest: string)
    requires IsPart(part)
    ensures SplitDots(part) == [part]
    ensures SplitDots(part + "." + rest) == [part] + SplitDots(rest)
  {
    if part == [] {
      assert (part + "." + rest)[1..] == rest;
    } else {
      SplitPart(part[1..], rest);
      assert part == [part[0]] + part[1..];
      assert (part + "." + rest)[1..] == part[1..] + "." + rest;
    }
  }

  lemma {:induction false} SplitJoined(parts: seq<string>)
    requires parts != [] && forall p :: p in parts ==> IsPart(p)
    ensures SplitDots(JoinDots(parts)) == parts
    ensures forall i :: 0 <= i < |JoinDots(parts)| ==> IsIdentifierChar(JoinDots(parts)[i])
  {
    hide SplitDots;
    assert parts[0] in parts;
    if |parts| == 1 {
      SplitPart(parts[0], "");
    } else {
      SplitJoined(parts[1..]);
      SplitPart(parts[0], JoinDots(parts[1..]));
      assert parts == [parts[0]] + parts[1..];
    }
  }

  lemma {:induction false} PartsOf(s: string)
    requires forall i :: 0 <= i < |s| ==> IsIdentifierChar(s[i])
    ensures forall p :: p in SplitDots(s) ==> IsPart(p)
  {
    hide IsIdentifierChar;
    if s != [] {
      PartsOf(s[1..]);
      var r := SplitDots(s[1..]);
      assert r[0] in r;
      assert forall p :: p in r[1..] ==> p in r;
    }
  }

  lemma ReadParts(text: string)
    requires ParseSemver(text).Some?
    ensures forall p :: p in ParseSemver(text).value.prerelease ==> IsPart(p)
  {
    var (core, rest) := ParseCore(text, 3).value;
    hide ParseCore, IsPart, SplitDots, IsIdentifierChar;
    if rest != [] && rest[0] == '-' { PartsOf(Span(rest[1..], IsIdentifierChar).0); }
  }

  /** Any sensible prerelease can follow the core of a version that was read. */
  lemma TextFor(text: string, parts: seq<string>) returns (other: string)
    requires ParseSemver(text).Some? && |parts| > 1 && forall p :: p in parts ==> IsPart(p)
    ensures ParseSemver(other) == Some(Version(ParseSemver(text).value.core, parts))
  {
    var joined := JoinDots(parts);
    var tail := "-" + joined;
    DotIsNoDigit();
    var head := CoreBefore(text, 3, tail);
    SplitJoined(parts);
    hide ParseCore, IsPart, SplitDots, IsDigit, IsIdentifierChar;
    SpanOf(joined, "", IsIdentifierChar);
    assert joined + "" == joined && tail[1..] == joined;
    other := head + tail;
  }

  // ----- which versions keep the choice right

  ghost predicate OthersCanonical(releases: seq<Release>, r: Release) {
    forall c :: c in Candidates(releases) && c.release != r ==> Canonical(c.version)
  }

  predicate NewestRight(releases: seq<Release>, collate: (string, string) -> int) {
    Candidates(releases) == [] || (NewestFirst(releases, collate) != [] && Maximal(NewestFirst(releases, collate)[0], releases, collate))
  }

  function Published(text: string): Release { Release(false, false, Some(TAG_PREFIX + text), Verified) }

  lemma PublishedCandidate(text: string)
    requires ParseSemver(text).Some?
    ensures AsCandidate(Published(text)) == Some(Candidate(Published(text), text, ParseSemver(text).value))
  {
    hide ParseSemver;
    assert (TAG_PREFIX + text)[|TAG_PREFIX|..] == text;
  }

  /** Sorting three candidates whose neighbours tie leaves them as they are. */
  lemma TiedStay(a: Candidate, b: Candidate, c: Candidate, le: (Candidate, Candidate) -> bool)
    requires le(a, b) && le(b, c)
    ensures Sort([a, b, c], le) == [a, b, c]
  {
    assert [a, b, c][1..] == [b, c] && [b, c][1..] == [c] && [c][1..] == [];
    assert Sort([c], le) == [c];
    assert Sort([b, c], le) == [b] + [c];
    assert [a] + ([b] + [c]) == [a, b, c];
  }

  lemma ThreeCandidates(r: Release, s: Release, t: Release)
    requires AsCandidate(r).Some? && AsCandidate(s).Some? && AsCandidate(t).Some?
    ensures Candidates([r, s, t]) == [AsCandidate(r).value, AsCandidate(s).value, AsCandidate(t).value]
  {
    hide AsCandidate;
    assert [r, s, t][1..] == [s, t] && [s, t][1..] == [t] && [t][1..] == [];
    assert Candidates([t]) == [AsCandidate(t).value];
    assert Candidates([s, t]) == [AsCandidate(s).value] + [AsCandidate(t).value];
  }

  /** Texts of an older and a newer ordinary version that both tie with a version with a leading zero. */
  lemma TiedTexts(text: string, collate: (string, string) -> int) returns (older: string, newer: string)
    requires Collates(collate) && ParseSemver(text).Some? && !Canonical(ParseSemver(text).value)
    ensures ParseSemver(older).Some? && ParseSemver(newer).Some?
    ensures var v, w, x := ParseSemver(text).value, ParseSemver(older).value, ParseSemver(newer).value;
      && Canonical(w) && Canonical(x) && Compare(v, w, collate) == 0 && Compare(x, v, collate) == 0 && Compare(x, w, collate) > 0
  {
    var v := ParseSemver(text).value;
    var i := FirstLeadingZero(v.prerelease);
    var w, x := LeadingZeroTies(v, i, collate);
    ReadParts(text);
    NumbersAreParts(v.prerelease[i]);
    hide ParseSemver, Compare, Collates, Canonical, IsPart, Stripped;
    older := TextFor(text, w.prerelease);
    newer := TextFor(text, x.prerelease);
    CompareAntisymmetric(v, x, collate);
    CompareAntisymmetric(w, x, collate);
  }

  /** Beside a release with a leading zero there can be two ordinary ones of which the older is chosen. */
  lemma LeadingZeroHidesNewest(r: Release, collate: (string, string) -> int) returns (releases: seq<Release>)
    requires Collates(collate) && AsCandidate(r).Some? && !Canonical(AsCandidate(r).value.version)
    ensures OthersCanonical(releases, r) && !NewestRight(releases, collate)
  {
    hide ParseSemver, Candidates, Compare, Collates, Canonical, Sort;
    var c := AsCandidate(r).value;
    CandidateText(c);
    var older, newer := TiedTexts(c.text, collate);
    PublishedCandidate(older);
    PublishedCandidate(newer);
    hide AsCandidate, Published;
    var first, last := Published(older), Published(newer);
    releases := [first, r, last];
    ThreeCandidates(first, r, last);
    var a, z := AsCandidate(first).value, AsCandidate(last).value;
    TiedStay(a, c, z, Newest(collate));
    assert NewestFirst(releases, collate) == [a, c, z] && z in Candidates(releases);
    assert !Maximal(a, releases, collate);
  }

  lemma NumbersAreParts(s: string)
    requires IsNumeric(s)
    ensures IsPart(Stripped(s)) && IsPart("0") && IsPart("1")
  {
    hide Stripped, ToNat;
  }

  /** A release never disturbs the choice among ordinary releases exactly when its version has no numeric
      identifier with a leading zero. */
  lemma ChoiceRightIffCanonical(r: Release, collate: (string, string) -> int)
    requires Collates(collate) && AsCandidate(r).Some?
    ensures (forall releases | OthersCanonical(releases, r) :: NewestRight(releases, collate))
       <==> Canonical(AsCandidate(r).value.version)
  {
    hide ParseSemver, AsCandidate, Candidates, Compare, Collates, Canonical, Sort, NewestFirst;
    if Canonical(AsCandidate(r).value.version) {
      forall releases | OthersCanonical(releases, r) ensures NewestRight(releases, collate) {
        forall c | c in Candidates(releases) ensures Canonical(c.version) {
          assert AsCandidate(c.release) == Some(c);
        }
        if Candidates(releases) != [] {
          forall c | c in Candidates(releases)
            ensures NewestFirst(releases, collate) != []
            ensures Compare(c.version, NewestFirst(releases, collate)[0].version, collate) <= 0
          {
            NewestIsMaximal(releases, collate, c);
          }
          assert Candidates(releases)[0] in Candidates(releases);
        }
      }
    } else {
      var releases := LeadingZeroHidesNewest(r, collate);
    }
  }
}
