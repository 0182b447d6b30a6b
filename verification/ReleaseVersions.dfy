/** Version parsing, ordering and the choice of the latest release of mobile/src/updates.ts. */
module ReleaseVersions {
  import opened Results
  import opened Sorting

  datatype Version = Version(core: seq<nat>, prerelease: seq<string>)

  // ----- parsing

  predicate IsDigit(c: char) { '0' <= c <= '9' }

  predicate IsIdentifierChar(c: char) {
    IsDigit(c) || 'A' <= c <= 'Z' || 'a' <= c <= 'z' || c == '.' || c == '-'
  }

  predicate AllDigits(s: string) { forall i :: 0 <= i < |s| ==> IsDigit(s[i]) }

  /** `/^[0-9]+$/` */
  predicate IsNumeric(s: string) { s != [] && AllDigits(s) }

  /** `Number(...)` of a digit string. */
  function ToNat(s: string): nat
    requires AllDigits(s)
  {
    if s == [] then 0 else 10 * ToNat(s[..|s| - 1]) + (s[|s| - 1] - '0') as nat
  }

  /** The longest prefix of characters satisfying `p`, and the rest. */
  function Span(s: string, p: char -> bool): (r: (string, string))
    ensures r.0 + r.1 == s && (forall i :: 0 <= i < |r.0| ==> p(r.0[i])) && (r.1 == [] || !p(r.1[0]))
  {
    var n := SpanEnd(s, p, 0);
    (s[..n], s[n..])
  }

  function SpanEnd(s: string, p: char -> bool, i: nat): (r: nat)
    requires i <= |s|
    ensures i <= r <= |s| && (forall j :: i <= j < r ==> p(s[j])) && (r < |s| ==> !p(s[r]))
    decreases |s| - i
  {
    if i < |s| && p(s[i]) then SpanEnd(s, p, i + 1) else i
  }

  /** `0|[1-9][0-9]*` */
  predicate IsCoreNumber(s: string) {
    s == "0" || (IsNumeric(s) && s[0] != '0')
  }

  /** `n` numbers separated by dots, and the rest. */
  function ParseCore(s: string, n: nat): Option<(seq<nat>, string)>
    decreases n
  {
    if n == 0 then None
    else
      var (digits, rest) := Span(s, IsDigit);
      if !IsCoreNumber(digits) then None
      else if n == 1 then Some(([ToNat(digits)], rest))
      else if rest == [] || rest[0] != '.' then None
      else match ParseCore(rest[1..], n - 1)
        case None => None
        case Some((numbers, rest')) => Some(([ToNat(digits)] + numbers, rest'))
  }

  predicate IsBuild(s: string) {
    s == [] || (|s| > 1 && s[0] == '+' && forall i :: 1 <= i < |s| ==> IsIdentifierChar(s[i]))
  }

  function SplitDots(s: string): (r: seq<string>)
    ensures r != []
  {
    if s == [] then [""]
    else if s[0] == '.' then [""] + SplitDots(s[1..])
    else var r := SplitDots(s[1..]); [[s[0]] + r[0]] + r[1..]
  }

  /** `parseSemver` */
  function ParseSemver(value: string): (r: Option<Version>)
    ensures r.Some? ==> |r.value.core| == 3
  {
    match ParseCore(value, 3)
    case None => None
    case Some((core, rest)) =>
      if |core| != 3 then None
      else if rest != [] && rest[0] == '-' then
        var (prerelease, build) := Span(rest[1..], IsIdentifierChar);
        if prerelease == [] || !IsBuild(build) then None else Some(Version(core, SplitDots(prerelease)))
      else if IsBuild(rest) then Some(Version(core, []))
      else None
  }

  // ----- comparing

  /** A total order for text identifiers, standing for `localeCompare`. */
  ghost predicate Collates(collate: (string, string) -> int) {
    && (forall a, b :: collate(a, b) == 0 <==> a == b)
    && (forall a, b :: collate(a, b) < 0 <==> collate(b, a) > 0)
    && (forall a, b, c :: collate(a, b) < 0 && collate(b, c) < 0 ==> collate(a, c) < 0)
  }

  function CompareCore(a: seq<nat>, b: seq<nat>): int {
    if a == [] || b == [] then 0 else if a[0] != b[0] then a[0] - b[0] else CompareCore(a[1..], b[1..])
  }

  function CompareIdentifiers(l: string, r: string, collate: (string, string) -> int): int {
    if IsNumeric(l) && IsNumeric(r) then ToNat(l) - ToNat(r)
    else if IsNumeric(l) then -1
    else if IsNumeric(r) then 1
    else collate(l, r)
  }

  function ComparePrerelease(p: seq<string>, q: seq<string>, collate: (string, string) -> int): int {
    if p == [] && q == [] then 0
    else if p == [] then -1
    else if q == [] then 1
    else if p[0] == q[0] then ComparePrerelease(p[1..], q[1..], collate)
    else CompareIdentifiers(p[0], q[0], collate)
  }

  function Compare(a: Version, b: Version, collate: (string, string) -> int): int {
    var delta := CompareCore(a.core, b.core);
    if delta != 0 then delta
    else if a.prerelease == [] && b.prerelease != [] then 1
    else if b.prerelease == [] && a.prerelease != [] then -1
    else ComparePrerelease(a.prerelease, b.prerelease, collate)
  }

  /** `compareSemver`; text that is no version raises. */
  method CompareSemver(left: string, right: string, collate: (string, string) -> int) returns (r: Option<int>)
    ensures r == if ParseSemver(left).None? || ParseSemver(right).None? then None
                 else Some(Compare(ParseSemver(left).value, ParseSemver(right).value, collate))
  {
    hide ParseSemver, ToNat;
    var parsedLeft, parsedRight := ParseSemver(left), ParseSemver(right);
    if parsedLeft.None? || parsedRight.None? {
      return None;
    }
    var a, b := parsedLeft.value, parsedRight.value;
    assert a.core[0..] == a.core && b.core[0..] == b.core;
    for index := 0 to 3
      invariant CompareCore(a.core, b.core) == CompareCore(a.core[index..], b.core[index..])
    {
      assert a.core[index..][1..] == a.core[index + 1..] && b.core[index..][1..] == b.core[index + 1..];
      var delta: int := a.core[index] as int - b.core[index] as int;
      if delta != 0 {
        return Some(delta);
      }
    }
    var p, q := a.prerelease, b.prerelease;
    if p == [] && q != [] {
      return Some(1);
    }
    if q == [] && p != [] {
      return Some(-1);
    }
    var length := if |p| >= |q| then |p| else |q|;
    assert p[0..] == p && q[0..] == q;
    for index := 0 to length
      invariant index <= |p| && index <= |q|
      invariant ComparePrerelease(p, q, collate) == ComparePrerelease(p[index..], q[index..], collate)
    {
      if index >= |p| {
        return Some(-1);
      }
      if index >= |q| {
        return Some(1);
      }
      assert p[index..][1..] == p[index + 1..] && q[index..][1..] == q[index + 1..];
      var leftPart, rightPart := p[index], q[index];
      if leftPart == rightPart {
        continue;
      }
      if IsNumeric(leftPart) && IsNumeric(rightPart) {
        return Some(ToNat(leftPart) - ToNat(rightPart));
      }
      if IsNumeric(leftPart) {
        return Some(-1);
      }
      if IsNumeric(rightPart) {
        return Some(1);
      }
      return Some(collate(leftPart, rightPart));
    }
    return Some(0);
  }

  // ----- precedence, SemVer 2.0.0 section 11

  /** No numeric identifier is written with a leading zero. */
  predicate CanonicalIdentifier(s: string) {
    IsNumeric(s) && s[0] == '0' ==> s == "0"
  }

  predicate Canonical(v: Version) {
    |v.core| == 3 && forall i :: 0 <= i < |v.prerelease| ==> CanonicalIdentifier(v.prerelease[i])
  }

  ghost predicate IdentifierBelow(l: string, r: string, collate: (string, string) -> int) {
    if IsNumeric(l) then (IsNumeric(r) ==> ToNat(l) < ToNat(r))
    else !IsNumeric(r) && collate(l, r) < 0
  }

  /** The first difference decides; a list that continues another is above it. */
  ghost predicate PrereleaseBelow(p: seq<string>, q: seq<string>, collate: (string, string) -> int) {
    exists i :: 0 <= i < |q| && i <= |p| && p[..i] == q[..i] && (i < |p| ==> IdentifierBelow(p[i], q[i], collate))
  }

  ghost predicate CoreBelow(a: seq<nat>, b: seq<nat>) {
    exists i :: 0 <= i < |a| && i < |b| && a[..i] == b[..i] && a[i] < b[i]
  }

  ghost predicate Below(a: Version, b: Version, collate: (string, string) -> int) {
    || CoreBelow(a.core, b.core)
    || (a.core == b.core &&
        if b.prerelease == [] then a.prerelease != []
        else a.prerelease != [] && PrereleaseBelow(a.prerelease, b.prerelease, collate))
  }

  lemma {:induction false} CompareCoreSign(a: seq<nat>, b: seq<nat>)
    requires |a| == |b|
    ensures CompareCore(a, b) < 0 <==> CoreBelow(a, b)
    ensures CompareCore(a, b) == 0 <==> a == b
    ensures CompareCore(a, b) == -CompareCore(b, a)
  {
    if a != [] {
      var a', b' := a[1..], b[1..];
      CompareCoreSign(a', b');
      if a[0] == b[0] {
        if CoreBelow(a', b') {
          var i :| 0 <= i < |a'| && i < |b'| && a'[..i] == b'[..i] && a'[i] < b'[i];
          assert a[..i + 1] == [a[0]] + a'[..i] && b[..i + 1] == [b[0]] + b'[..i];
        }
        if CoreBelow(a, b) {
          var i :| 0 <= i < |a| && i < |b| && a[..i] == b[..i] && a[i] < b[i];
          assert i > 0;
          assert a'[..i - 1] == a[..i][1..] && b'[..i - 1] == b[..i][1..];
          assert a'[i - 1] < b'[i - 1];
        }
        assert a == [a[0]] + a' && b == [b[0]] + b';
      } else if a[0] < b[0] {
        assert a[..0] == b[..0];
      } else if CoreBelow(a, b) {
        var i :| 0 <= i < |a| && i < |b| && a[..i] == b[..i] && a[i] < b[i];
        if i > 0 { SameHead(a, b, i); }
      }
    }
  }

  lemma {:induction false} ToNatInjective(s: string, t: string)
    requires AllDigits(s) && AllDigits(t) && (s != [] ==> s[0] != '0') && (t != [] ==> t[0] != '0')
    requires ToNat(s) == ToNat(t)
    ensures s == t
  {
    if s == [] || t == [] {
      if s != [] { ToNatPositive(s); }
      if t != [] { ToNatPositive(t); }
    } else {
      var s', t' := s[..|s| - 1], t[..|t| - 1];
      ToNatInjective(s', t');
      assert s == s' + [s[|s| - 1]] && t == t' + [t[|t| - 1]];
    }
  }

  lemma {:induction false} ToNatPositive(s: string)
    requires AllDigits(s) && s != [] && s[0] != '0'
    ensures ToNat(s) > 0
  {
    if |s| > 1 { ToNatPositive(s[..|s| - 1]); }
  }

  lemma CanonicalNumbers(l: string, r: string)
    requires IsNumeric(l) && IsNumeric(r) && CanonicalIdentifier(l) && CanonicalIdentifier(r) && ToNat(l) == ToNat(r)
    ensures l == r
  {
    if l[0] == '0' || r[0] == '0' {
      assert ToNat("0") == 0 by { assert "0"[..0] == ""; }
      if l[0] != '0' { ToNatPositive(l); }
      if r[0] != '0' { ToNatPositive(r); }
    } else {
      ToNatInjective(l, r);
    }
  }

  ghost predicate CanonicalList(p: seq<string>) {
    forall i :: 0 <= i < |p| ==> CanonicalIdentifier(p[i])
  }

  lemma IdentifierSign(l: string, r: string, collate: (string, string) -> int)
    requires Collates(collate) && l != r
    ensures CompareIdentifiers(l, r, collate) < 0 <==> IdentifierBelow(l, r, collate)
    ensures CompareIdentifiers(l, r, collate) < 0 <==> CompareIdentifiers(r, l, collate) > 0
    ensures CompareIdentifiers(l, r, collate) > 0 <==> CompareIdentifiers(r, l, collate) < 0
    ensures CanonicalIdentifier(l) && CanonicalIdentifier(r) ==> CompareIdentifiers(l, r, collate) != 0
  {
    assert collate(l, r) != 0;
    if IsNumeric(l) && IsNumeric(r) && CanonicalIdentifier(l) && CanonicalIdentifier(r) && ToNat(l) == ToNat(r) {
      CanonicalNumbers(l, r);
    }
  }

  /** The loop decides by the first difference, as section 11 asks. */
  lemma {:induction false} PrereleaseSign(p: seq<string>, q: seq<string>, collate: (string, string) -> int)
    requires Collates(collate)
    ensures ComparePrerelease(p, q, collate) < 0 <==> PrereleaseBelow(p, q, collate)
    ensures ComparePrerelease(p, q, collate) < 0 <==> ComparePrerelease(q, p, collate) > 0
    ensures ComparePrerelease(p, q, collate) > 0 <==> ComparePrerelease(q, p, collate) < 0
    ensures CanonicalList(p) && CanonicalList(q) ==> (ComparePrerelease(p, q, collate) == 0 <==> p == q)
  {
    hide IdentifierBelow, CanonicalIdentifier, CompareIdentifiers, Collates;
    if p == [] || q == [] {
      if p == [] && q != [] { assert p[..0] == q[..0]; }
      assert ComparePrerelease(p, q, collate) < 0 ==> PrereleaseBelow(p, q, collate);
    } else if p[0] != q[0] {
      IdentifierSign(p[0], q[0], collate);
      HeadsDecide(p, q, collate);
    } else {
      hide PrereleaseBelow;
      PrereleaseSign(p[1..], q[1..], collate);
      PrereleaseTail(p, q, collate);
      assert ComparePrerelease(p, q, collate) == ComparePrerelease(p[1..], q[1..], collate);
      assert ComparePrerelease(q, p, collate) == ComparePrerelease(q[1..], p[1..], collate);
      assert CanonicalList(p) ==> CanonicalList(p[1..]);
      assert CanonicalList(q) ==> CanonicalList(q[1..]);
      assert p == [p[0]] + p[1..] && q == [q[0]] + q[1..];
    }
  }

  lemma HeadsDecide(p: seq<string>, q: seq<string>, collate: (string, string) -> int)
    requires p != [] && q != [] && p[0] != q[0]
    ensures PrereleaseBelow(p, q, collate) <==> IdentifierBelow(p[0], q[0], collate)
  {
    hide IdentifierBelow;
    if IdentifierBelow(p[0], q[0], collate) {
      assert p[..0] == q[..0];
    }
    if PrereleaseBelow(p, q, collate) {
      var i :| 0 <= i < |q| && i <= |p| && p[..i] == q[..i] && (i < |p| ==> IdentifierBelow(p[i], q[i], collate));
      if i > 0 { SameHead(p, q, i); }
    }
  }

  lemma SameHead<T>(a: seq<T>, b: seq<T>, i: nat)
    requires 0 < i <= |a| && i <= |b| && a[..i] == b[..i]
    ensures a[0] == b[0]
  {
    assert a[0] == a[..i][0] == b[..i][0];
  }

  lemma PrereleaseTail(p: seq<string>, q: seq<string>, collate: (string, string) -> int)
    requires p != [] && q != [] && p[0] == q[0] && Collates(collate)
    ensures PrereleaseBelow(p, q, collate) <==> PrereleaseBelow(p[1..], q[1..], collate)
  {
    hide IdentifierBelow, Collates;
    if PrereleaseBelow(p, q, collate) {
      NotBelowItself(p[0], collate);
      TailBelow(p, q, collate);
    }
    var p', q' := p[1..], q[1..];
    if PrereleaseBelow(p', q', collate) {
      var i :| 0 <= i < |q'| && i <= |p'| && p'[..i] == q'[..i] && (i < |p'| ==> IdentifierBelow(p'[i], q'[i], collate));
      assert p[..i + 1] == [p[0]] + p'[..i] && q[..i + 1] == [q[0]] + q'[..i];
    }
  }

  lemma TailBelow(p: seq<string>, q: seq<string>, collate: (string, string) -> int)
    requires p != [] && q != [] && p[0] == q[0] && !IdentifierBelow(p[0], q[0], collate)
    requires PrereleaseBelow(p, q, collate)
    ensures PrereleaseBelow(p[1..], q[1..], collate)
  {
    hide IdentifierBelow;
    var p', q' := p[1..], q[1..];
    var i :| 0 <= i < |q| && i <= |p| && p[..i] == q[..i] && (i < |p| ==> IdentifierBelow(p[i], q[i], collate));
    assert i > 0;
    assert p'[..i - 1] == p[..i][1..] && q'[..i - 1] == q[..i][1..];
    assert i < |p| ==> p'[i - 1] == p[i] && q'[i - 1] == q[i];
  }

  /** On canonical versions `compareSemver` is negative exactly below, zero exactly on equal precedence. */
  lemma CompareIsPrecedence(a: Version, b: Version, collate: (string, string) -> int)
    requires Collates(collate) && Canonical(a) && Canonical(b)
    ensures Compare(a, b, collate) < 0 <==> Below(a, b, collate)
    ensures Compare(a, b, collate) > 0 <==> Below(b, a, collate)
    ensures Compare(a, b, collate) == 0 <==> a == b
  {
    CompareCoreSign(a.core, b.core);
    CompareCoreSign(b.core, a.core);
    PrereleaseSign(a.prerelease, b.prerelease, collate);
    PrereleaseSign(b.prerelease, a.prerelease, collate);
    hide PrereleaseBelow, CoreBelow;
  }

  /** The sign flips when the arguments are swapped, for all versions. */
  lemma CompareAntisymmetric(a: Version, b: Version, collate: (string, string) -> int)
    requires Collates(collate) && |a.core| == |b.core|
    ensures Compare(a, b, collate) < 0 <==> Compare(b, a, collate) > 0
    ensures Compare(a, b, collate) == 0 <==> Compare(b, a, collate) == 0
  {
    CompareCoreSign(a.core, b.core);
    PrereleaseSign(a.prerelease, b.prerelease, collate);
  }

  lemma IdentifiersTransitive(l: string, m: string, r: string, collate: (string, string) -> int)
    requires Collates(collate)
    requires IdentifierBelow(l, m, collate) && IdentifierBelow(m, r, collate)
    ensures IdentifierBelow(l, r, collate)
  {}

  lemma {:induction false} PrereleaseTransitive(p: seq<string>, q: seq<string>, r: seq<string>, collate: (string, string) -> int)
    requires Collates(collate) && CanonicalList(p) && CanonicalList(q) && CanonicalList(r)
    requires ComparePrerelease(p, q, collate) <= 0 && ComparePrerelease(q, r, collate) <= 0
    ensures ComparePrerelease(p, r, collate) <= 0
  {
    hide CompareIdentifiers, IdentifierBelow, CanonicalIdentifier;
    if p != [] && q != [] && r != [] {
      if p[0] == q[0] && q[0] == r[0] {
        PrereleaseTransitive(p[1..], q[1..], r[1..], collate);
      } else {
        if p[0] != q[0] { IdentifierSign(p[0], q[0], collate); }
        if q[0] != r[0] { IdentifierSign(q[0], r[0], collate); }
        if p[0] != q[0] && q[0] != r[0] {
          IdentifiersTransitive(p[0], q[0], r[0], collate);
          assert p[0] != r[0] by { NotBelowItself(p[0], collate); }
          IdentifierSign(p[0], r[0], collate);
        }
      }
    }
  }

  lemma NotBelowItself(l: string, collate: (string, string) -> int)
    requires Collates(collate)
    ensures !IdentifierBelow(l, l, collate)
  {}

  lemma {:induction false} CoreTransitive(a: seq<nat>, b: seq<nat>, c: seq<nat>)
    requires |a| == |b| == |c| && CompareCore(a, b) <= 0 && CompareCore(b, c) <= 0
    ensures CompareCore(a, c) <= 0
    ensures CompareCore(a, c) == 0 ==> CompareCore(a, b) == 0 && CompareCore(b, c) == 0
  {
    if a != [] && a[0] == b[0] && b[0] == c[0] { CoreTransitive(a[1..], b[1..], c[1..]); }
  }

  lemma CompareTransitive(a: Version, b: Version, c: Version, collate: (string, string) -> int)
    requires Collates(collate) && Canonical(a) && Canonical(b) && Canonical(c)
    requires Compare(a, b, collate) <= 0 && Compare(b, c, collate) <= 0
    ensures Compare(a, c, collate) <= 0
  {
    CoreTransitive(a.core, b.core, c.core);
    if CompareCore(a.core, c.core) == 0 {
      if a.prerelease != [] && b.prerelease != [] && c.prerelease != [] {
        PrereleaseTransitive(a.prerelease, b.prerelease, c.prerelease, collate);
      }
    }
  }

  // ----- leading zeros

  function Stripped(s: string): (r: string)
    requires IsNumeric(s)
    ensures IsNumeric(r) && CanonicalIdentifier(r) && ToNat(r) == ToNat(s)
  {
    if |s| == 1 then s
    else
      ZeroesDrop(s);
      if s[0] == '0' then Stripped(s[1..]) else s
  }

  lemma {:induction false} ZeroesDrop(s: string)
    requires IsNumeric(s) && |s| > 1
    ensures s[0] == '0' ==> IsNumeric(s[1..]) && ToNat(s[1..]) == ToNat(s)
  {
    if s[0] == '0' {
      if |s| == 2 {
        assert s[..1] == ['0'] && ['0'][..0] == [] && s[1..][..0] == [];
        assert ToNat(s[..1]) == 0;
      } else {
        ZeroesDrop(s[..|s| - 1]);
        assert s[1..][..|s| - 2] == s[..|s| - 1][1..];
      }
    }
  }

  lemma {:induction false} ComparePrefix(prefix: seq<string>, p: seq<string>, q: seq<string>, collate: (string, string) -> int)
    ensures ComparePrerelease(prefix + p, prefix + q, collate) == ComparePrerelease(p, q, collate)
  {
    if prefix == [] {
      assert prefix + p == p && prefix + q == q;
    } else {
      ComparePrefix(prefix[1..], p, q, collate);
      assert (prefix + p)[1..] == prefix[1..] + p && (prefix + q)[1..] == prefix[1..] + q;
    }
  }

  /** A version with a leading zero ties with two versions that do not tie with each other. */
  lemma LeadingZeroTies(v: Version, i: nat, collate: (string, string) -> int) returns (w: Version, x: Version)
    requires |v.core| == 3 && i < |v.prerelease| && !CanonicalIdentifier(v.prerelease[i])
    requires forall j :: 0 <= j < i ==> CanonicalIdentifier(v.prerelease[j])
    ensures Canonical(w) && Canonical(x)
    ensures Compare(v, w, collate) == 0 && Compare(v, x, collate) == 0 && Compare(w, x, collate) < 0
    ensures w == Version(v.core, v.prerelease[..i] + [Stripped(v.prerelease[i]), "0"])
    ensures x == Version(v.core, v.prerelease[..i] + [Stripped(v.prerelease[i]), "1"])
  {
    var prefix, rest := v.prerelease[..i], v.prerelease[i..];
    var number := Stripped(v.prerelease[i]);
    w := Version(v.core, prefix + [number, "0"]);
    x := Version(v.core, prefix + [number, "1"]);
    assert v.prerelease == prefix + rest;
    SameCore(v.core);
    ComparePrefix(prefix, rest, [number, "0"], collate);
    ComparePrefix(prefix, rest, [number, "1"], collate);
    ComparePrefix(prefix, [number, "0"], [number, "1"], collate);
    assert [number, "0"][1..] == ["0"] && [number, "1"][1..] == ["1"];
    assert ToNat("0") == 0 && ToNat("1") == 1 by { assert "0"[..0] == "" && "1"[..0] == ""; }
    assert ComparePrerelease(["0"], ["1"], collate) == -1;
  }

  lemma {:induction false} SameCore(core: seq<nat>)
    ensures CompareCore(core, core) == 0
  {
    if core != [] { SameCore(core[1..]); }
  }

  /** Canonical versions that tie with `v` tie with each other exactly when `v` has no numeric identifier with a leading zero. */
  lemma TiesConsistentIffCanonical(v: Version, collate: (string, string) -> int)
    requires Collates(collate) && |v.core| == 3
    ensures Canonical(v) <==>
      forall w, x | Canonical(w) && Canonical(x) && Compare(v, w, collate) == 0 && Compare(v, x, collate) == 0 ::
        Compare(w, x, collate) == 0
  {
    if Canonical(v) {
      forall w, x | Canonical(w) && Canonical(x) && Compare(v, w, collate) == 0 && Compare(v, x, collate) == 0
        ensures Compare(w, x, collate) == 0
      {
        CompareIsPrecedence(v, w, collate);
        CompareIsPrecedence(v, x, collate);
        CompareIsPrecedence(w, x, collate);
      }
    } else {
      var i := FirstLeadingZero(v.prerelease);
      var w, x := LeadingZeroTies(v, i, collate);
    }
  }

  lemma {:induction false} FirstLeadingZero(p: seq<string>) returns (i: nat)
    requires exists j :: 0 <= j < |p| && !CanonicalIdentifier(p[j])
    ensures i < |p| && !CanonicalIdentifier(p[i]) && forall j :: 0 <= j < i ==> CanonicalIdentifier(p[j])
  {
    i := 0;
    while CanonicalIdentifier(p[i])
      invariant i < |p| && forall j :: 0 <= j < i ==> CanonicalIdentifier(p[j])
      invariant exists j :: i <= j < |p| && !CanonicalIdentifier(p[j])
      decreases |p| - i
    {
      i := i + 1;
    }
  }

  // ----- choosing the latest release

  const TAG_PREFIX := "mobile-v"

  /** What follows the choice for a release: its URLs, assets and manifest. */
  datatype Provenance = UntrustedUrl | MissingAssets | ManifestUnavailable | ManifestRejected | Verified

  datatype Release = Release(draft: bool, prerelease: bool, tag: Option<string>, provenance: Provenance)

  datatype UpdateState = Current | UpdateAvailable | NoMetadata | CheckFailed

  datatype UpdateInfo = UpdateInfo(state: UpdateState, latest: Option<string>)

  /** A release with the version its tag names. */
  datatype Candidate = Candidate(release: Release, text: string, version: Version)

  function AsCandidate(r: Release): Option<Candidate> {
    if r.draft || r.prerelease || r.tag.None? || !(TAG_PREFIX <= r.tag.value) then None
    else
      var text := r.tag.value[|TAG_PREFIX|..];
      match ParseSemver(text)
      case None => None
      case Some(v) => Some(Candidate(r, text, v))
  }

  function Candidates(releases: seq<Release>): (all: seq<Candidate>)
    ensures forall c :: c in all ==> c.release in releases && AsCandidate(c.release) == Some(c)
    ensures forall r :: r in releases && AsCandidate(r).Some? ==> AsCandidate(r).value in all
  {
    if releases == [] then []
    else (match AsCandidate(releases[0]) case Some(c) => [c] case None => []) + Candidates(releases[1..])
  }

  /** `sort((left, right) => compareSemver(right.version, left.version))`: newest first. */
  function Newest(collate: (string, string) -> int): (Candidate, Candidate) -> bool {
    (left: Candidate, right: Candidate) => Compare(right.version, left.version, collate) <= 0
  }

  function NewestFirst(releases: seq<Release>, collate: (string, string) -> int): seq<Candidate> {
    Sort(Candidates(releases), Newest(collate))
  }

  lemma {:induction false} NoCandidates(releases: seq<Release>)
    ensures Candidates(releases) == [] <==> forall r :: r in releases ==> AsCandidate(r).None?
  {
    hide AsCandidate;
    if releases != [] {
      NoCandidates(releases[1..]);
      assert releases == [releases[0]] + releases[1..];
    }
  }

  lemma CandidateText(c: Candidate)
    requires AsCandidate(c.release) == Some(c)
    ensures ParseSemver(c.text) == Some(c.version)
  {}

  /** The answer once a release is chosen. */
  function Outcome(chosen: Candidate, installed: string, collate: (string, string) -> int): UpdateInfo {
    match chosen.release.provenance
    case MissingAssets => UpdateInfo(NoMetadata, Some(chosen.text))
    case ManifestUnavailable => UpdateInfo(NoMetadata, Some(chosen.text))
    case Verified =>
      (match ParseSemver(installed)
       case None => UpdateInfo(CheckFailed, None)
       case Some(v) =>
         UpdateInfo(if Compare(chosen.version, v, collate) > 0 then UpdateAvailable else Current, Some(chosen.text)))
    case _ => UpdateInfo(CheckFailed, None)
  }

  function Discovered(releases: seq<Release>, installed: string, collate: (string, string) -> int): UpdateInfo {
    if NewestFirst(releases, collate) == [] then UpdateInfo(NoMetadata, None)
    else Outcome(NewestFirst(releases, collate)[0], installed, collate)
  }

  lemma NewestPreorder(all: seq<Candidate>, collate: (string, string) -> int)
    requires Collates(collate) && forall c :: c in all ==> Canonical(c.version)
    ensures PreorderOn(all, Newest(collate))
  {
    hide Compare, Collates;
    var newest := Newest(collate);
    forall a, b | a in all && b in all ensures newest(a, b) || newest(b, a) {
      CompareAntisymmetric(a.version, b.version, collate);
    }
    forall a, b, c | a in all && b in all && c in all && newest(a, b) && newest(b, c) ensures newest(a, c) {
      CompareTransitive(c.version, b.version, a.version, collate);
    }
  }

  lemma NewestIsMaximal(releases: seq<Release>, collate: (string, string) -> int, c: Candidate)
    requires Collates(collate) && forall x :: x in Candidates(releases) ==> Canonical(x.version)
    requires c in Candidates(releases)
    ensures NewestFirst(releases, collate) != [] && NewestFirst(releases, collate)[0] in Candidates(releases)
    ensures Compare(c.version, NewestFirst(releases, collate)[0].version, collate) <= 0
  {
    var all, newest := Candidates(releases), Newest(collate);
    NewestPreorder(all, collate);
    hide Compare, Collates, AsCandidate, Sort, PreorderOn, Candidates, Canonical;
    SortMembers(all, newest);
    SortSorts(all, newest);
    var sorted := Sort(all, newest);
    assert c in sorted && sorted[0] in sorted;
    var i :| 0 <= i < |sorted| && sorted[i] == c;
    CompareIsPrecedence(c.version, c.version, collate);
    assert i > 0 ==> newest(sorted[0], sorted[i]);
  }

  // ----- what the answer means

  /** A total order for text identifiers, and no leading zeros among candidates or in the installed version. */
  ghost predicate Comparable(releases: seq<Release>, installed: string, collate: (string, string) -> int) {
    && Collates(collate) && (forall c :: c in Candidates(releases) ==> Canonical(c.version))
    && (ParseSemver(installed).Some? ==> Canonical(ParseSemver(installed).value))
  }

  /** The newest candidate has passed all its provenance checks, and the installed version is a version. */
  predicate Settles(releases: seq<Release>, installed: string, collate: (string, string) -> int) {
    && NewestFirst(releases, collate) != [] && NewestFirst(releases, collate)[0].release.provenance == Verified
    && ParseSemver(installed).Some?
  }

  predicate Outranks(c: Candidate, installed: string, collate: (string, string) -> int) {
    ParseSemver(installed).Some? && Compare(c.version, ParseSemver(installed).value, collate) > 0
  }

  predicate NothingNewer(releases: seq<Release>, installed: string, collate: (string, string) -> int) {
    forall c :: c in Candidates(releases) ==> !Outranks(c, installed, collate)
  }

  predicate Maximal(c: Candidate, releases: seq<Release>, collate: (string, string) -> int) {
    forall d :: d in Candidates(releases) ==> Compare(d.version, c.version, collate) <= 0
  }

  /** The chosen release outranks the installed version exactly when some candidate does. */
  lemma CurrentIffNothingNewer(releases: seq<Release>, installed: string, collate: (string, string) -> int)
    requires Comparable(releases, installed, collate) && NewestFirst(releases, collate) != []
    ensures NewestFirst(releases, collate)[0] in Candidates(releases)
    ensures Maximal(NewestFirst(releases, collate)[0], releases, collate)
    ensures Outranks(NewestFirst(releases, collate)[0], installed, collate) <==> !NothingNewer(releases, installed, collate)
  {
    hide Compare, Collates, AsCandidate, Sort, Candidates, Canonical, ParseSemver;
    var all := Candidates(releases);
    SortMembers(all, Newest(collate));
    var chosen := NewestFirst(releases, collate)[0];
    assert chosen in NewestFirst(releases, collate);
    forall c | c in all ensures Compare(c.version, chosen.version, collate) <= 0 {
      NewestIsMaximal(releases, collate, c);
    }
    if ParseSemver(installed).Some? && !Outranks(chosen, installed, collate) {
      forall c | c in all ensures !Outranks(c, installed, collate) {
        CompareTransitive(c.version, chosen.version, ParseSemver(installed).value, collate);
      }
    }
  }

  lemma AnswerMeans(releases: seq<Release>, installed: string, collate: (string, string) -> int)
    ensures Comparable(releases, installed, collate) ==>
      var info := Discovered(releases, installed, collate);
      && (info.state == Current <==> Settles(releases, installed, collate) && NothingNewer(releases, installed, collate))
      && (info.state == UpdateAvailable <==> Settles(releases, installed, collate) && !NothingNewer(releases, installed, collate))
      && (info.latest.Some? ==>
           exists c :: c in Candidates(releases) && c.text == info.latest.value && Maximal(c, releases, collate))
  {
    hide Compare, Comparable, AsCandidate, NewestFirst, Candidates, Maximal, NothingNewer, ParseSemver;
    if Comparable(releases, installed, collate) && NewestFirst(releases, collate) != [] {
      CurrentIffNothingNewer(releases, installed, collate);
    }
  }

  /** An announced update always outranks the installed version, whatever the candidates. */
  lemma UpdateIsNewer(releases: seq<Release>, installed: string, collate: (string, string) -> int)
    ensures var info := Discovered(releases, installed, collate);
      info.state == UpdateAvailable ==>
        exists c :: c in Candidates(releases) && info.latest == Some(c.text) && Outranks(c, installed, collate)
  {
    hide Compare, AsCandidate, Sort, Candidates, ParseSemver;
    SortMembers(Candidates(releases), Newest(collate));
    if NewestFirst(releases, collate) != [] {
      var chosen := NewestFirst(releases, collate)[0];
      assert chosen in NewestFirst(releases, collate);
    }
  }

  /** `discoverOfficialMobileUpdate` on fetched release metadata. */
  method DiscoverUpdate(releases: seq<Release>, installed: string, collate: (string, string) -> int)
    returns (info: UpdateInfo)
    ensures NewestFirst(releases, collate) == [] <==> forall r :: r in releases ==> AsCandidate(r).None?
    ensures info == Discovered(releases, installed, collate)
    ensures Comparable(releases, installed, collate) ==>
      (info.state == Current <==> Settles(releases, installed, collate) && NothingNewer(releases, installed, collate))
    ensures Comparable(releases, installed, collate) ==>
      (info.state == UpdateAvailable <==> Settles(releases, installed, collate) && !NothingNewer(releases, installed, collate))
    ensures Comparable(releases, installed, collate) && info.latest.Some? ==>
      exists c :: c in Candidates(releases) && c.text == info.latest.value && Maximal(c, releases, collate)
    ensures info.state == UpdateAvailable ==>
      exists c :: c in Candidates(releases) && info.latest == Some(c.text) && Outranks(c, installed, collate)
  {
    hide AsCandidate, Sort, Newest, ParseSemver, Comparable, Settles, NothingNewer, Maximal, Outranks, Candidates, Compare;
    AnswerMeans(releases, installed, collate);
    UpdateIsNewer(releases, installed, collate);
    var candidates := Sort(Candidates(releases), Newest(collate));
    SortMembers(Candidates(releases), Newest(collate));
    SortPermutes(Candidates(releases), Newest(collate));
    NoCandidates(releases);
    if candidates == [] {
      return UpdateInfo(NoMetadata, None);
    }
    var chosen := candidates[0];
    assert chosen in candidates;
    CandidateText(chosen);
    if chosen.release.provenance == UntrustedUrl {
      info := UpdateInfo(CheckFailed, None);
    } else if chosen.release.provenance == MissingAssets || chosen.release.provenance == ManifestUnavailable {
      info := UpdateInfo(NoMetadata, Some(chosen.text));
    } else if chosen.release.provenance == ManifestRejected {
      info := UpdateInfo(CheckFailed, None);
    } else {
      var order := CompareSemver(chosen.text, installed, collate);
      if order.None? {
        info := UpdateInfo(CheckFailed, None);
      } else {
        info := UpdateInfo(if order.value > 0 then UpdateAvailable else Current, Some(chosen.text));
      }
    }
  }
}
