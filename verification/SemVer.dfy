/** Version comparison as the upgrade check uses it: a total preorder on the strings it can
    parse, and exactly where it agrees with section 11 of SemVer 2.0.0. */
module SemVer {
  import opened Options
  import opened Sequences
  import opened Strings

  // ----- Strings and numbers -----

  const MAX_INT: int := 0x7FFF_FFFF_FFFF_FFFF

  predicate IsDigit(c: char) { '0' <= c <= '9' }

  predicate AllDigits(s: string) { forall i :: 0 <= i < |s| ==> IsDigit(s[i]) }

  function DigitValue(c: char): nat
    requires IsDigit(c)
  {
    (c as int) - ('0' as int)
  }

  function Value(s: string): nat
    requires AllDigits(s)
  {
    if s == "" then 0 else 10 * Value(s[..|s| - 1]) + DigitValue(s[|s| - 1])
  }

  /** Signed decimal in 64-bit range: an optional sign and at least one digit. */
  function Atoi(s: string): Option<int>
  {
    var neg := s != "" && s[0] == '-';
    var digits := if neg || (s != "" && s[0] == '+') then s[1..] else s;
    if digits == "" || !AllDigits(digits) then None
    else
      var v: int := Value(digits);
      if neg then (if v > MAX_INT + 1 then None else Some(-v))
      else if v > MAX_INT then None
      else Some(v)
  }

  /** Position of the first `c`, or -1. */
  function IndexByte(s: string, c: char): (i: int)
    ensures -1 <= i < |s|
    ensures i >= 0 ==> s[i] == c
    ensures forall j :: 0 <= j < |s| && (i < 0 || j < i) ==> s[j] != c
  {
    if s == "" then -1
    else if s[0] == c then 0
    else
      var i := IndexByte(s[1..], c);
      if i < 0 then -1 else i + 1
  }

  function Split(s: string, c: char): (parts: seq<string>)
    ensures |parts| >= 1
    decreases |s|
  {
    var i := IndexByte(s, c);
    if i < 0 then [s] else [s[..i]] + Split(s[i + 1..], c)
  }

  // ----- Parsing -----

  datatype Parsed = Parsed(major: int, minor: int, patch: int, pre: string)

  function TrimV(s: string): string { if s != "" && s[0] == 'v' then s[1..] else s }

  function ParseCore(s: string, pre: string): Option<Parsed>
  {
    var parts := Split(s, '.');
    if |parts| != 3 then None
    else
      var major, minor, patch := Atoi(parts[0]), Atoi(parts[1]), Atoi(parts[2]);
      if major.None? || minor.None? || patch.None? then None
      else Some(Parsed(major.value, minor.value, patch.value, pre))
  }

  function ParseTrimmed(t: string): Option<Parsed>
  {
    if t == "" then None
    else
      var i := IndexByte(t, '-');
      if i >= 0 then ParseCore(t[..i], t[i + 1..]) else ParseCore(t, "")
  }

  function ParseSemver(s: string): Option<Parsed> { ParseTrimmed(TrimV(s)) }

  // ----- Comparing -----

  function CompareInts(a: int, b: int): int { if a < b then -1 else if a > b then 1 else 0 }

  /** A pre-release segment as the loop treats it. */
  datatype Ident = Num(n: int) | Text(s: string)

  function IdentOf(segment: string): Ident
  {
    var n := Atoi(segment);
    if n.Some? then Num(n.value) else Text(segment)
  }

  function Idents(segments: seq<string>): (r: seq<Ident>)
    ensures |r| == |segments|
  {
    seq(|segments|, i requires 0 <= i < |segments| => IdentOf(segments[i]))
  }

  function CompareIdent(x: Ident, y: Ident): int
  {
    match (x, y)
    case (Num(m), Num(n)) => CompareInts(m, n)
    case (Num(_), Text(_)) => -1
    case (Text(_), Num(_)) => 1
    case (Text(s), Text(t)) => CompareText(s, t)
  }

  function CompareIdents(xs: seq<Ident>, ys: seq<Ident>): int
  {
    if xs == [] then (if ys == [] then 0 else -1)
    else if ys == [] then 1
    else if CompareIdent(xs[0], ys[0]) != 0 then CompareIdent(xs[0], ys[0])
    else CompareIdents(xs[1..], ys[1..])
  }

  function ComparePre(a: string, b: string): int
  {
    if a == "" then (if b == "" then 0 else 1)
    else if b == "" then -1
    else CompareIdents(Idents(Split(a, '.')), Idents(Split(b, '.')))
  }

  /** Major, minor and patch decide in turn; `pre` is the comparison of the pre-releases. */
  function CompareCore(a: Parsed, b: Parsed, pre: int): int
  {
    if CompareInts(a.major, b.major) != 0 then CompareInts(a.major, b.major)
    else if CompareInts(a.minor, b.minor) != 0 then CompareInts(a.minor, b.minor)
    else if CompareInts(a.patch, b.patch) != 0 then CompareInts(a.patch, b.patch)
    else pre
  }

  function CompareParsed(a: Parsed, b: Parsed): int { CompareCore(a, b, ComparePre(a.pre, b.pre)) }

  function CompareVersions(a: string, b: string): int
  {
    var va, vb := ParseSemver(a), ParseSemver(b);
    if va.None? || vb.None? then CompareText(a, b) else CompareParsed(va.value, vb.value)
  }

  lemma {:induction false} SkipEqual(xs: seq<Ident>, ys: seq<Ident>, i: nat)
    requires i <= |xs| && i <= |ys| && forall j :: 0 <= j < i ==> CompareIdent(xs[j], ys[j]) == 0
    ensures CompareIdents(xs, ys) == CompareIdents(xs[i..], ys[i..])
    decreases i
  {
    if i > 0 {
      SkipEqual(xs[1..], ys[1..], i - 1);
      assert xs[1..][i - 1..] == xs[i..] && ys[1..][i - 1..] == ys[i..];
    } else {
      assert xs[0..] == xs && ys[0..] == ys;
    }
  }

  /** The segment loop of comparePre. */
  method ComparePreSegments(a: string, b: string) returns (r: int)
    ensures r == ComparePre(a, b)
  {
    if a == "" && b == "" { return 0; }
    if a == "" { return 1; }
    if b == "" { return -1; }
    var aParts, bParts := Split(a, '.'), Split(b, '.');
    ghost var xs, ys := Idents(aParts), Idents(bParts);
    var minLen := |aParts|;
    if |bParts| < minLen {
      minLen := |bParts|;
    }
    for i := 0 to minLen
      invariant forall j :: 0 <= j < i ==> CompareIdent(xs[j], ys[j]) == 0
    {
      SkipEqual(xs, ys, i);
      var aNum, bNum := Atoi(aParts[i]), Atoi(bParts[i]);
      assert xs[i..][0] == IdentOf(aParts[i]) && ys[i..][0] == IdentOf(bParts[i]);
      if aNum.Some? && bNum.Some? {
        var c := CompareInts(aNum.value, bNum.value);
        if c != 0 { return c; }
      } else if aNum.Some? {
        return -1;
      } else if bNum.Some? {
        return 1;
      } else {
        var c := CompareText(aParts[i], bParts[i]);
        if c != 0 { return c; }
      }
    }
    SkipEqual(xs, ys, minLen);
    return CompareInts(|aParts|, |bParts|);
  }

  // ----- A total preorder -----

  lemma IdentOrder(x: Ident, y: Ident, z: Ident)
    ensures CompareIdent(x, y) == -CompareIdent(y, x)
    ensures CompareIdent(x, y) == 0 <==> x == y
    ensures CompareIdent(x, y) <= 0 && CompareIdent(y, z) <= 0 ==> CompareIdent(x, z) <= 0
    ensures CompareIdent(x, y) < 0 && CompareIdent(y, z) < 0 ==> CompareIdent(x, z) < 0
  {
    if x.Text? && y.Text? {
      TextOrder(x.s, y.s, if z.Text? then z.s else "");
    }
  }

  lemma {:induction false} IdentsOrder(xs: seq<Ident>, ys: seq<Ident>, zs: seq<Ident>)
    ensures CompareIdents(xs, ys) == -CompareIdents(ys, xs)
    ensures CompareIdents(xs, ys) == 0 <==> xs == ys
    ensures CompareIdents(xs, ys) <= 0 && CompareIdents(ys, zs) <= 0 ==> CompareIdents(xs, zs) <= 0
    ensures CompareIdents(xs, ys) < 0 && CompareIdents(ys, zs) < 0 ==> CompareIdents(xs, zs) < 0
    decreases |xs| + |ys| + |zs|
  {
    if xs != [] && ys != [] {
      IdentOrder(xs[0], ys[0], if zs == [] then xs[0] else zs[0]);
      IdentsOrder(xs[1..], ys[1..], if zs == [] then [] else zs[1..]);
      assert xs[0] == ys[0] && xs[1..] == ys[1..] ==> xs == ys;
      if zs != [] {
        IdentOrder(ys[0], zs[0], xs[0]);
        IdentOrder(xs[0], zs[0], ys[0]);
      }
    }
  }

  lemma PreOrder(a: string, b: string, c: string)
    ensures ComparePre(a, b) == -ComparePre(b, a)
    ensures ComparePre(a, b) <= 0 && ComparePre(b, c) <= 0 ==> ComparePre(a, c) <= 0
    ensures ComparePre(a, b) < 0 && ComparePre(b, c) < 0 ==> ComparePre(a, c) < 0
  {
    var xs, ys, zs := Idents(Split(a, '.')), Idents(Split(b, '.')), Idents(Split(c, '.'));
    IdentsOrder(xs, ys, zs);
  }

  lemma CoreOrder(a: Parsed, b: Parsed, c: Parsed, ab: int, ba: int, bc: int, ac: int)
    requires ab == -ba
    requires ab <= 0 && bc <= 0 ==> ac <= 0
    requires ab < 0 && bc < 0 ==> ac < 0
    ensures CompareCore(a, b, ab) == -CompareCore(b, a, ba)
    ensures CompareCore(a, b, ab) <= 0 && CompareCore(b, c, bc) <= 0 ==> CompareCore(a, c, ac) <= 0
    ensures CompareCore(a, b, ab) < 0 && CompareCore(b, c, bc) < 0 ==> CompareCore(a, c, ac) < 0
  {
  }

  lemma ParsedOrder(a: Parsed, b: Parsed, c: Parsed)
    ensures CompareParsed(a, b) == -CompareParsed(b, a)
    ensures CompareParsed(a, b) <= 0 && CompareParsed(b, c) <= 0 ==> CompareParsed(a, c) <= 0
    ensures CompareParsed(a, b) < 0 && CompareParsed(b, c) < 0 ==> CompareParsed(a, c) < 0
  {
    PreOrder(a.pre, b.pre, c.pre);
    CoreOrder(a, b, c, ComparePre(a.pre, b.pre), ComparePre(b.pre, a.pre), ComparePre(b.pre, c.pre), ComparePre(a.pre, c.pre));
  }

  predicate Parseable(s: string) { ParseSemver(s).Some? }

  /** Versions that all parse, or that all fail to, are compared by one order. */
  predicate Uniform(a: string, b: string) { Parseable(a) <==> Parseable(b) }

  /** On versions that all parse (or all do not), the comparison is a total preorder. */
  lemma VersionsTotalPreorder(a: string, b: string, c: string)
    requires Uniform(a, b) && Uniform(b, c)
    ensures CompareVersions(a, a) == 0
    ensures CompareVersions(a, b) == -CompareVersions(b, a)
    ensures CompareVersions(a, b) <= 0 && CompareVersions(b, c) <= 0 ==> CompareVersions(a, c) <= 0
    ensures CompareVersions(a, b) < 0 && CompareVersions(b, c) < 0 ==> CompareVersions(a, c) < 0
  {
    if Parseable(a) {
      ParsedOrder(ParseSemver(a).value, ParseSemver(b).value, ParseSemver(c).value);
      ParsedOrder(ParseSemver(a).value, ParseSemver(a).value, ParseSemver(a).value);
    } else {
      TextOrder(a, b, c);
      TextOrder(a, a, a);
    }
  }

  // ----- Offered updates -----

  datatype Manifest = Manifest(version: string, artifacts: map<string, string>)

  datatype CheckResult =
    | PlatformNotFound
    | Checked(current: string, latest: string, available: bool, artifact: Option<string>)

  /** The answer names both versions; it fails exactly if there is a newer version but not for the
      platform, and brings the platform's artifact exactly if there is one to offer. */
  function CheckAgainstManifest(m: Manifest, current: string, platform: string): (r: CheckResult)
    ensures r.PlatformNotFound? <==> CompareVersions(m.version, current) > 0 && platform !in m.artifacts
    ensures r.Checked? ==> r.current == current && r.latest == m.version
    ensures r.Checked? ==> (r.available <==> CompareVersions(m.version, current) > 0) && (r.available <==> r.artifact.Some?)
    ensures r.Checked? && r.available ==> platform in m.artifacts && r.artifact.value == m.artifacts[platform]
  {
    if CompareVersions(m.version, current) > 0 then
      if platform in m.artifacts then Checked(current, m.version, true, Some(m.artifacts[platform]))
      else PlatformNotFound
    else Checked(current, m.version, false, None)
  }

  /** The manifest offers `next` as an update of `current`. */
  predicate Offers(m: Manifest, current: string, platform: string, next: string)
  {
    var r := CheckAgainstManifest(m, current, platform);
    r.Checked? && r.available && r.latest == next
  }

  ghost predicate Offered(current: string, next: string) { exists m, platform :: Offers(m, current, platform, next) }

  lemma OffersNewer(m: Manifest, current: string, platform: string, next: string)
    ensures Offers(m, current, platform, next) <==>
            m.version == next && CompareVersions(next, current) > 0 && platform in m.artifacts
  {
  }

  /** A version is offered, by some manifest on some platform, exactly if it compares greater. */
  lemma OfferedIff(current: string, next: string)
    ensures Offered(current, next) <==> CompareVersions(next, current) > 0
  {
    if m, platform :| Offers(m, current, platform, next) {
      OffersNewer(m, current, platform, next);
    }
    var m := Manifest(next, map["" := ""]);
    OffersNewer(m, current, "", next);
  }

  /** Each version was offered as an update of the one before it. */
  ghost predicate UpdateChain(vs: seq<string>)
  {
    forall i, j :: 0 <= i < |vs| && 0 <= j < |vs| && j == i + 1 ==> Offered(vs[i], vs[j])
  }

  lemma {:induction false} ChainIncreases(vs: seq<string>, i: nat, j: nat)
    requires UpdateChain(vs) && i < j < |vs|
    requires forall k :: 0 <= k < |vs| ==> Uniform(vs[0], vs[k])
    ensures CompareVersions(vs[i], vs[j]) < 0
    decreases j
  {
    OfferedIff(vs[j - 1], vs[j]);
    VersionsTotalPreorder(vs[j - 1], vs[j], vs[j]);
    if i < j - 1 {
      ChainIncreases(vs, i, j - 1);
      VersionsTotalPreorder(vs[i], vs[j - 1], vs[j]);
    }
  }

  /** No chain of offered updates over versions that all parse (or that all do not) comes
      back to a version, even under another spelling of it. */
  lemma ChainNeverRevisits(vs: seq<string>, i: nat, j: nat)
    requires UpdateChain(vs) && i < j < |vs|
    requires forall k :: 0 <= k < |vs| ==> Uniform(vs[0], vs[k])
    ensures vs[i] != vs[j] && CompareVersions(vs[i], vs[j]) != 0
  {
    ChainIncreases(vs, i, j);
    VersionsTotalPreorder(vs[i], vs[i], vs[i]);
  }

  // ----- Exactly when a chain can revisit -----

  /** `b` is not older than `a`, but an unparseable version stands between them in the order of texts. */
  predicate Inversion(a: string, b: string, z: string)
  {
    && Parseable(a) && Parseable(b) && !Parseable(z) && CompareVersions(a, b) <= 0
    && CompareText(b, z) < 0 && CompareText(z, a) < 0
  }

  ghost predicate Inverted(pool: set<string>)
  {
    exists a, b, z {:trigger Inversion(a, b, z)} :: a in pool && b in pool && z in pool && Inversion(a, b, z)
  }

  lemma CompareAntisymmetric(a: string, b: string)
    ensures CompareVersions(a, b) == -CompareVersions(b, a) && CompareVersions(a, a) == 0
  {
    TextOrder(a, b, a);
    VersionsTotalPreorder(a, a, a);
    if Uniform(a, b) { VersionsTotalPreorder(a, b, b); }
  }

  /** The comparison is transitive on three versions unless they are inverted. */
  lemma TransitiveUnlessInverted(x: string, y: string, z: string)
    requires CompareVersions(x, y) < 0 && CompareVersions(y, z) < 0
    requires !Inversion(z, x, y) && !Inversion(y, z, x) && !Inversion(x, y, z)
    ensures CompareVersions(x, z) < 0
  {
    if Uniform(x, y) && Uniform(y, z) {
      VersionsTotalPreorder(x, y, z);
    } else {
      CompareAntisymmetric(x, y);
      CompareAntisymmetric(y, z);
      CompareAntisymmetric(x, z);
      MixedTransitive(x, y, z);
    }
  }

  lemma MixedTransitive(x: string, y: string, z: string)
    requires CompareVersions(x, y) < 0 && CompareVersions(y, z) < 0 && !(Uniform(x, y) && Uniform(y, z))
    requires CompareVersions(x, z) == -CompareVersions(z, x)
    requires !Inversion(z, x, y) && !Inversion(y, z, x) && !Inversion(x, y, z)
    ensures CompareVersions(x, z) < 0
  {
    TextOrder(x, y, z);
    TextOrder(z, x, y);
    TextOrder(y, z, x);
    assert Parseable(x) != Parseable(z) ==> x != z;
  }

  lemma OfferedRises(x: string, y: string)
    requires Offered(x, y)
    ensures CompareVersions(x, y) < 0
  {
    OfferedIff(x, y);
    CompareAntisymmetric(x, y);
  }

  lemma StepUnlessInverted(pool: set<string>, x: string, y: string, z: string)
    requires !Inverted(pool) && x in pool && y in pool && z in pool
    requires CompareVersions(x, y) < 0 && CompareVersions(y, z) < 0
    ensures CompareVersions(x, z) < 0
  {
    assert !Inversion(z, x, y) && !Inversion(y, z, x) && !Inversion(x, y, z);
    TransitiveUnlessInverted(x, y, z);
  }

  lemma ChainIncreasesUnlessInverted(pool: set<string>, vs: seq<string>, i: nat, j: nat)
    requires UpdateChain(vs) && i < j < |vs| && !Inverted(pool)
    requires forall k :: 0 <= k < |vs| ==> vs[k] in pool
    ensures CompareVersions(vs[i], vs[j]) < 0
  {
    var older := set x, y | x in vs && y in vs && CompareVersions(x, y) < 0 :: (x, y);
    forall a, b | 0 <= a < |vs| && 0 <= b < |vs| && b == a + 1 ensures (vs[a], vs[b]) in older {
      OfferedRises(vs[a], vs[b]);
    }
    forall x, y, z | (x, y) in older && (y, z) in older ensures (x, z) in older {
      StepUnlessInverted(pool, x, y, z);
    }
    TransitiveChain(older, vs, i, j);
  }

  /** The chain comes back to a version, under the same or another spelling. */
  ghost predicate Revisits(vs: seq<string>)
  {
    UpdateChain(vs) && exists i, j :: 0 <= i < j < |vs| && CompareVersions(vs[i], vs[j]) == 0
  }

  lemma {:induction false} InversionRevisits(a: string, b: string, z: string) returns (vs: seq<string>)
    requires Inversion(a, b, z)
    ensures Revisits(vs) && forall k :: 0 <= k < |vs| ==> vs[k] in {a, b, z}
  {
    CompareAntisymmetric(a, b);
    CompareAntisymmetric(b, z);
    CompareAntisymmetric(z, a);
    OfferedIff(b, z);
    OfferedIff(z, a);
    if CompareVersions(a, b) == 0 {
      vs := [b, z, a];
      assert CompareVersions(vs[0], vs[2]) == 0;
    } else {
      OfferedIff(a, b);
      vs := [b, z, a, b];
      CompareAntisymmetric(b, b);
      assert CompareVersions(vs[0], vs[3]) == 0;
    }
  }

  /** Among any versions: some chain of offered updates comes back to a version exactly if two
      parseable ones are inverted around an unparseable one. */
  lemma {:induction false} RevisitsIff(pool: set<string>)
    ensures (exists vs :: Revisits(vs) && forall k :: 0 <= k < |vs| ==> vs[k] in pool) <==> Inverted(pool)
  {
    if Inverted(pool) {
      var a, b, z :| a in pool && b in pool && z in pool && Inversion(a, b, z);
      var vs := InversionRevisits(a, b, z);
      assert Revisits(vs) && forall k :: 0 <= k < |vs| ==> vs[k] in pool;
    } else {
      forall vs | UpdateChain(vs) && forall k :: 0 <= k < |vs| ==> vs[k] in pool ensures !Revisits(vs) {
        forall i, j | 0 <= i < j < |vs| ensures CompareVersions(vs[i], vs[j]) != 0 {
          ChainIncreasesUnlessInverted(pool, vs, i, j);
        }
      }
    }
  }

  /** With parseable and unparseable versions mixed, the two orders can disagree and a
      chain of offers can run in a circle: 1.9.0, 1.10.0, 1.5, 1.9.0. */
  lemma MixedChainCanRevisit() returns (vs: seq<string>)
    ensures UpdateChain(vs) && |vs| == 4 && vs[0] == vs[3]
    ensures Parseable(vs[0]) && Parseable(vs[1]) && !Parseable(vs[2])
  {
    var a, b, c := Version(1, 9, 0, []), Version(1, 10, 0, []), Join(["1", "5"]);
    vs := [Render(a), Render(b), c, Render(a)];
    CycleCompares(a, b);
    Circle(Render(a), Render(b), c);
  }

  lemma Circle(x: string, y: string, z: string)
    requires CompareVersions(y, x) > 0 && CompareVersions(z, y) > 0 && CompareVersions(x, z) > 0
    ensures UpdateChain([x, y, z, x])
  {
    OfferedIff(x, y);
    OfferedIff(y, z);
    OfferedIff(z, x);
  }

  lemma {:induction false} CycleCompares(a: Version, b: Version)
    requires a == Version(1, 9, 0, []) && b == Version(1, 10, 0, [])
    ensures Parseable(Render(a)) && Parseable(Render(b)) && !Parseable(Join(["1", "5"]))
    ensures CompareVersions(Render(b), Render(a)) > 0
    ensures CompareVersions(Join(["1", "5"]), Render(b)) > 0
    ensures CompareVersions(Render(a), Join(["1", "5"])) > 0
  {
    ParseRender(Render(a), a);
    ParseRender(Render(b), b);
    TwoPartsDoNotParse();
    CycleTexts(a, b);
  }

  lemma {:induction false} CycleTexts(a: Version, b: Version)
    requires a == Version(1, 9, 0, []) && b == Version(1, 10, 0, [])
    ensures CompareText(Join(["1", "5"]), Render(b)) > 0 && CompareText(Render(a), Join(["1", "5"])) > 0
  {
    assert Decimal(9) == [Digit(9)] && Decimal(1) == [Digit(1)];
    assert Decimal(10)[0] == '1' by { assert Decimal(10) == Decimal(1) + [Digit(0)]; }
    TwoPartsCompare(a, "9");
    TwoPartsCompare(b, "1");
    TextOrder(Render(b), Join(["1", "5"]), "");
  }

  lemma TwoPartsDoNotParse()
    ensures ParseSemver(Join(["1", "5"])) == None
  {
    SplitJoin(["1", "5"]);
    JoinChars(["1", "5"], '-');
    var s := Join(["1", "5"]);
    assert s[0] == '1';
    assert IndexByte(s, '-') == -1;
  }

  /** Byte order of "1.minor.patch" against "1.5" is decided by the first digit of the minor version. */
  lemma TwoPartsCompare(v: Version, first: string)
    requires v.major == 1 && v.pre == [] && |first| == 1 && first != "5" && Decimal(v.minor)[0] == first[0]
    ensures CompareText(Render(v), Join(["1", "5"])) == if first[0] < '5' then -1 else 1
  {
    RenderCore(v);
    var rest := Decimal(v.minor) + "." + Decimal(v.patch);
    assert Decimal(1) == "1";
    assert Render(v) == "1." + rest;
    assert ["1", "5"][1..] == ["5"] && Join(["5"]) == "5";
    assert Join(["1", "5"]) == "1." + "5";
    CompareAfterPrefix("1.", rest, "5");
    assert first == [first[0]] && "5"[0] == '5';
    assert rest[0] == first[0] != '5';
  }

  lemma RenderCore(v: Version)
    requires v.pre == []
    ensures Render(v) == Decimal(v.major) + "." + (Decimal(v.minor) + "." + Decimal(v.patch))
  {
    var parts := [Decimal(v.major), Decimal(v.minor), Decimal(v.patch)];
    assert parts[1..] == [Decimal(v.minor), Decimal(v.patch)];
    assert parts[1..][1..] == [Decimal(v.patch)];
    assert Join(parts[1..][1..]) == Decimal(v.patch);
    assert Join(parts[1..]) == Decimal(v.minor) + "." + Decimal(v.patch);
  }

  lemma {:induction false} CompareAfterPrefix(p: string, a: string, b: string)
    ensures CompareText(p + a, p + b) == CompareText(a, b)
    decreases |p|
  {
    if p == "" {
      assert p + a == a && p + b == b;
    } else {
      assert (p + a)[1..] == p[1..] + a && (p + b)[1..] == p[1..] + b;
      CompareAfterPrefix(p[1..], a, b);
    }
  }

  // ----- SemVer 2.0.0 -----

  /** A semantic version without build metadata. */
  datatype Version = Version(major: nat, minor: nat, patch: nat, pre: seq<string>)

  predicate IsLetter(c: char) { 'a' <= c <= 'z' || 'A' <= c <= 'Z' }

  predicate IdentChar(c: char) { IsDigit(c) || IsLetter(c) || c == '-' }

  /** Section 9: non-empty, of letters, digits and hyphens, numbers without leading zeros. */
  predicate ValidIdent(id: string)
  {
    id != "" && (forall i :: 0 <= i < |id| ==> IdentChar(id[i])) && (AllDigits(id) && |id| > 1 ==> id[0] != '0')
  }

  predicate ValidVersion(v: Version) { forall i :: 0 <= i < |v.pre| ==> ValidIdent(v.pre[i]) }

  /** ASCII order: a first difference, or a proper prefix. */
  ghost predicate TextBefore(a: string, b: string)
  {
    || (exists i :: 0 <= i < |a| && i < |b| && a[..i] == b[..i] && a[i] < b[i])
    || (a != b && a <= b)
  }

  /** Section 11.4: numbers numerically, others in ASCII order, numbers before others. */
  ghost predicate IdentBefore(x: string, y: string)
  {
    if AllDigits(x) && AllDigits(y) then Value(x) < Value(y)
    else if AllDigits(x) then true
    else if AllDigits(y) then false
    else TextBefore(x, y)
  }

  /** Section 11.4: the first differing identifier decides; otherwise more fields win. */
  ghost predicate PreBefore(xs: seq<string>, ys: seq<string>)
  {
    || (exists i :: 0 <= i < |xs| && i < |ys| && xs[..i] == ys[..i] && xs[i] != ys[i] && IdentBefore(xs[i], ys[i]))
    || (xs != ys && xs <= ys)
  }

  /** Section 11: precedence. */
  ghost predicate Precedes(a: Version, b: Version)
  {
    || a.major < b.major
    || (a.major == b.major && a.minor < b.minor)
    || (a.major == b.major && a.minor == b.minor && a.patch < b.patch)
    || (a.major == b.major && a.minor == b.minor && a.patch == b.patch &&
          PrePrecedes(a.pre, b.pre))
  }

  function Digit(n: nat): char
    requires n < 10
  {
    ('0' as int + n) as char
  }

  function Decimal(n: nat): (s: string)
    ensures s != "" && AllDigits(s) && Value(s) == n
    ensures |s| > 1 ==> s[0] != '0'
    ensures n > 0 ==> s[0] != '0'
  {
    if n < 10 then
      assert [Digit(n)][..0] == "";
      [Digit(n)]
    else
      var t := Decimal(n / 10) + [Digit(n % 10)];
      assert t[..|t| - 1] == Decimal(n / 10);
      t
  }

  function Join(parts: seq<string>): string
  {
    if parts == [] then "" else if |parts| == 1 then parts[0] else parts[0] + "." + Join(parts[1..])
  }

  function Core(v: Version): string { Join([Decimal(v.major), Decimal(v.minor), Decimal(v.patch)]) }

  function Render(v: Version): string { if v.pre == [] then Core(v) else Core(v) + "-" + Join(v.pre) }

  /** Both spellings the tool accepts. */
  predicate Spells(s: string, v: Version) { s == Render(v) || s == "v" + Render(v) }

  // ----- Parsing inverts rendering -----

  lemma FirstIndex(s: string, c: char, i: nat)
    requires i < |s| && s[i] == c && forall j :: 0 <= j < i ==> s[j] != c
    ensures IndexByte(s, c) == i
  {
  }

  lemma {:induction false} SplitJoin(parts: seq<string>)
    requires parts != [] && forall i, j :: 0 <= i < |parts| && 0 <= j < |parts[i]| ==> parts[i][j] != '.'
    ensures Split(Join(parts), '.') == parts
    decreases |parts|
  {
    var s := Join(parts);
    if |parts| == 1 {
      assert IndexByte(s, '.') == -1;
    } else {
      var i := |parts[0]|;
      FirstIndex(s, '.', i);
      assert s[..i] == parts[0] && s[i + 1..] == Join(parts[1..]);
      SplitJoin(parts[1..]);
    }
  }

  lemma {:induction false} JoinChars(parts: seq<string>, c: char)
    requires c != '.' && forall i, j :: 0 <= i < |parts| && 0 <= j < |parts[i]| ==> parts[i][j] != c
    ensures forall j :: 0 <= j < |Join(parts)| ==> Join(parts)[j] != c
    decreases |parts|
  {
    if |parts| > 1 { JoinChars(parts[1..], c); }
  }

  lemma AtoiDecimal(n: nat)
    requires n <= MAX_INT
    ensures Atoi(Decimal(n)) == Some(n)
  {
    assert IsDigit(Decimal(n)[0]);
  }

  predicate CoreInRange(v: Version) { v.major <= MAX_INT && v.minor <= MAX_INT && v.patch <= MAX_INT }

  function ParsedOf(v: Version): Parsed { Parsed(v.major, v.minor, v.patch, Join(v.pre)) }

  lemma ParseCoreText(v: Version, pre: string)
    requires CoreInRange(v)
    ensures ParseCore(Core(v), pre) == Some(Parsed(v.major, v.minor, v.patch, pre))
  {
    var parts := [Decimal(v.major), Decimal(v.minor), Decimal(v.patch)];
    forall i, j | 0 <= i < |parts| && 0 <= j < |parts[i]| ensures parts[i][j] != '.' {
      assert IsDigit(parts[i][j]);
    }
    SplitJoin(parts);
    AtoiDecimal(v.major);
    AtoiDecimal(v.minor);
    AtoiDecimal(v.patch);
  }

  lemma CoreHasNoHyphen(v: Version)
    ensures forall j :: 0 <= j < |Core(v)| ==> Core(v)[j] != '-'
    ensures Core(v) != "" && Core(v)[0] != 'v'
  {
    var parts := [Decimal(v.major), Decimal(v.minor), Decimal(v.patch)];
    forall i, j | 0 <= i < |parts| && 0 <= j < |parts[i]| ensures parts[i][j] != '-' {
      assert IsDigit(parts[i][j]);
    }
    JoinChars(parts, '-');
    assert Core(v)[0] == Decimal(v.major)[0];
  }

  /** Parsing inverts rendering, with or without the leading "v". */
  lemma {:induction false} ParseRender(s: string, v: Version)
    requires Spells(s, v) && ValidVersion(v) && CoreInRange(v)
    ensures ParseSemver(s) == Some(ParsedOf(v))
  {
    var t := Render(v);
    CoreHasNoHyphen(v);
    assert t[0] == Core(v)[0];
    assert TrimV(s) == t by {
      assert ("v" + t)[1..] == t;
    }
    ParseCoreText(v, Join(v.pre));
    if v.pre == [] {
      assert IndexByte(t, '-') == -1;
    } else {
      FirstIndex(t, '-', |Core(v)|);
      assert t[..|Core(v)|] == Core(v) && t[|Core(v)| + 1..] == Join(v.pre);
    }
  }

  // ----- What is parsed -----

  /** A number as the parser reads it: at least one digit, possibly after a plus sign, in range. */
  predicate Numeral(x: string, n: int)
  {
    var digits := if x != "" && x[0] == '+' then x[1..] else x;
    digits != "" && AllDigits(digits) && Value(digits) == n <= MAX_INT
  }

  function Dotted(a: string, b: string, c: string): string { a + "." + (b + "." + c) }

  /** Three numerals with dots between them. */
  ghost predicate CoreShaped(u: string, r: Parsed)
  {
    exists a, b, c :: u == Dotted(a, b, c) && Numeral(a, r.major) && Numeral(b, r.minor) && Numeral(c, r.patch)
  }

  /** These and the pre-release after the first hyphen, if there is one. */
  ghost predicate Shaped(t: string, r: Parsed)
  {
    || (r.pre == "" && CoreShaped(t, r))
    || exists u :: t == u + "-" + r.pre && CoreShaped(u, r)
  }

  lemma JoinCons(x: string, rest: seq<string>)
    requires rest != []
    ensures Join([x] + rest) == x + "." + Join(rest)
  {
    assert ([x] + rest)[1..] == rest;
  }

  lemma {:induction false} JoinSplit(s: string)
    ensures Join(Split(s, '.')) == s
    decreases |s|
  {
    var i := IndexByte(s, '.');
    if i >= 0 {
      JoinSplit(s[i + 1..]);
      JoinCons(s[..i], Split(s[i + 1..], '.'));
      assert s == s[..i] + "." + s[i + 1..];
    }
  }

  lemma NumeralChars(x: string, n: int)
    requires Numeral(x, n)
    ensures x != "" && x[0] != 'v' && '.' !in x && '-' !in x
  {
    forall c | c in x ensures IsDigit(c) || c == '+' {
      var i :| 0 <= i < |x| && x[i] == c;
      if x[0] == '+' && i > 0 { assert x[1..][i - 1] == c; }
    }
  }

  lemma DottedIsJoin(a: string, b: string, c: string)
    ensures Dotted(a, b, c) == Join([a, b, c])
  {
    assert [a, b, c] == [a] + [b, c] && [b, c] == [b] + [c];
    JoinCons(a, [b, c]);
    JoinCons(b, [c]);
  }

  lemma SplitDotted(a: string, b: string, c: string)
    requires '.' !in a && '.' !in b && '.' !in c
    ensures Split(Dotted(a, b, c), '.') == [a, b, c]
  {
    DottedIsJoin(a, b, c);
    SplitJoin([a, b, c]);
  }

  lemma DottedChars(a: string, b: string, c: string)
    requires '-' !in a && '-' !in b && '-' !in c && a != ""
    ensures '-' !in Dotted(a, b, c) && Dotted(a, b, c) != "" && Dotted(a, b, c)[0] == a[0]
  {
  }

  lemma AtoiIff(x: string, n: int)
    requires '-' !in x
    ensures Atoi(x) == Some(n) <==> Numeral(x, n)
  {
  }

  lemma CoreParsed(u: string, r: Parsed)
    requires '-' !in u && ParseCore(u, r.pre) == Some(r)
    ensures CoreShaped(u, r)
  {
    var parts := Split(u, '.');
    var a, b, c := parts[0], parts[1], parts[2];
    assert parts == [a, b, c];
    JoinSplit(u);
    DottedIsJoin(a, b, c);
    assert forall x :: x in a || x in b || x in c ==> x in Dotted(a, b, c);
    AtoiIff(a, r.major);
    AtoiIff(b, r.minor);
    AtoiIff(c, r.patch);
  }

  lemma CoreParses(u: string, r: Parsed)
    requires CoreShaped(u, r)
    ensures '-' !in u && u != "" && u[0] != 'v' && ParseCore(u, r.pre) == Some(r)
  {
    var a, b, c :| u == Dotted(a, b, c) && Numeral(a, r.major) && Numeral(b, r.minor) && Numeral(c, r.patch);
    NumeralChars(a, r.major);
    NumeralChars(b, r.minor);
    NumeralChars(c, r.patch);
    DottedChars(a, b, c);
    SplitDotted(a, b, c);
    AtoiIff(a, r.major);
    AtoiIff(b, r.minor);
    AtoiIff(c, r.patch);
  }

  lemma FirstHyphen(u: string, pre: string)
    requires '-' !in u
    ensures var t := u + "-" + pre; IndexByte(t, '-') == |u| && t[..|u|] == u && t[|u| + 1..] == pre
  {
    FirstIndex(u + "-" + pre, '-', |u|);
  }

  /** Exactly the texts of this shape, after an optional "v", are parsed, and to these parts. */
  lemma ParseIff(s: string, r: Parsed)
    ensures ParseSemver(s) == Some(r) <==> Shaped(if s != "" && s[0] == 'v' then s[1..] else s, r)
  {
    var t := TrimV(s);
    if ParseSemver(s) == Some(r) {
      ParsedIsShaped(t, r);
    }
    if Shaped(t, r) {
      ShapedParses(t, r);
    }
  }

  lemma ParsedIsShaped(t: string, r: Parsed)
    requires ParseTrimmed(t) == Some(r)
    ensures Shaped(t, r)
  {
    var i := IndexByte(t, '-');
    if i >= 0 {
      assert t == t[..i] + "-" + t[i + 1..];
      assert '-' !in t[..i];
      CoreParsed(t[..i], r);
    } else {
      CoreParsed(t, r);
    }
  }

  lemma ShapedParses(t: string, r: Parsed)
    requires Shaped(t, r)
    ensures ParseTrimmed(t) == Some(r)
  {
    if r.pre == "" && CoreShaped(t, r) {
      CoreParses(t, r);
      assert IndexByte(t, '-') < 0;
    } else {
      var u :| t == u + "-" + r.pre && CoreShaped(u, r);
      CoreParses(u, r);
      FirstHyphen(u, r.pre);
    }
  }

  lemma PreSegments(v: Version)
    requires ValidVersion(v) && v.pre != []
    ensures Join(v.pre) != "" && Split(Join(v.pre), '.') == v.pre
  {
    forall i, j | 0 <= i < |v.pre| && 0 <= j < |v.pre[i]| ensures v.pre[i][j] != '.' {
      assert IdentChar(v.pre[i][j]);
    }
    SplitJoin(v.pre);
    assert ValidIdent(v.pre[0]);
  }

  // ----- Agreement with section 11 -----

  /** The code takes the identifier for a number exactly when section 11 does: it is not a
      hyphen followed by digits of a representable number, nor a number too large for an int. */
  predicate Conforms(id: string)
  {
    && (AllDigits(id) ==> Value(id) <= MAX_INT)
    && !(|id| > 1 && id[0] == '-' && AllDigits(id[1..]) && Value(id[1..]) <= MAX_INT + 1)
  }

  lemma ConformsIffClassified(id: string)
    requires ValidIdent(id)
    ensures Conforms(id) <==> (Atoi(id).Some? <==> AllDigits(id))
    ensures AllDigits(id) && Value(id) <= MAX_INT ==> IdentOf(id) == Num(Value(id))
    ensures Atoi(id) == None ==> IdentOf(id) == Text(id)
  {
    assert IdentChar(id[0]);
    assert AllDigits(id) ==> IsDigit(id[0]);
  }

  lemma TextBeforeTail(a: string, b: string)
    requires a != "" && b != "" && a[0] == b[0]
    ensures TextBefore(a, b) ==> TextBefore(a[1..], b[1..])
  {
    var x, y := a[1..], b[1..];
    if i :| 0 <= i < |a| && i < |b| && a[..i] == b[..i] && a[i] < b[i] {
      assert i > 0 && x[..i - 1] == a[..i][1..] && y[..i - 1] == b[..i][1..];
      assert x[i - 1] < y[i - 1];
    } else if TextBefore(a, b) {
      assert x == a[1..|a|] && a == b[..|a|];
      assert y[..|x|] == b[..|a|][1..];
    }
  }

  lemma TextBeforeCons(c: char, x: string, y: string)
    requires TextBefore(x, y)
    ensures TextBefore([c] + x, [c] + y)
  {
    var a, b := [c] + x, [c] + y;
    if i :| 0 <= i < |x| && i < |y| && x[..i] == y[..i] && x[i] < y[i] {
      assert a[..i + 1] == [c] + x[..i] && b[..i + 1] == [c] + y[..i];
      assert a[i + 1] < b[i + 1];
    } else {
      assert b[..|a|] == [c] + y[..|x|];
    }
  }

  lemma {:induction false} TextBeforeIff(a: string, b: string)
    ensures CompareText(a, b) < 0 <==> TextBefore(a, b)
    decreases |a|
  {
    if a != "" && b != "" && a[0] == b[0] {
      TextBeforeIff(a[1..], b[1..]);
      TextBeforeTail(a, b);
      assert a == [a[0]] + a[1..] && b == [b[0]] + b[1..];
      if TextBefore(a[1..], b[1..]) { TextBeforeCons(a[0], a[1..], b[1..]); }
    } else if a != "" && b != "" {
      assert a[..0] == b[..0];
      assert a[0] != b[0];
    }
  }

  lemma {:induction false} ValueInjective(x: string, y: string)
    requires AllDigits(x) && AllDigits(y) && Value(x) == Value(y)
    requires ValidIdent(x) && ValidIdent(y)
    ensures x == y
    decreases |x| + |y|
  {
    if |x| > 1 { ValuePositive(x); }
    if |y| > 1 { ValuePositive(y); }
    if |x| == 1 && |y| == 1 {
      assert x[..0] == "" && y[..0] == "";
    } else if |x| > 1 && |y| > 1 {
      ValueInjective(x[..|x| - 1], y[..|y| - 1]);
      assert x == x[..|x| - 1] + [x[|x| - 1]] && y == y[..|y| - 1] + [y[|y| - 1]];
    } else if |x| > 1 {
      ValueShort(y);
    } else {
      ValueShort(x);
    }
  }

  lemma ValueShort(x: string)
    requires |x| == 1 && AllDigits(x)
    ensures Value(x) < 10
  {
    assert x[..0] == "";
  }

  lemma {:induction false} ValuePositive(x: string)
    requires x != "" && AllDigits(x) && x[0] != '0'
    ensures Value(x) > 0 && (|x| > 1 ==> Value(x) >= 10)
    decreases |x|
  {
    if |x| > 1 {
      ValuePositive(x[..|x| - 1]);
    } else {
      assert x[..0] == "";
    }
  }

  /** One pair of identifiers. */
  lemma IdentAgrees(x: string, y: string)
    requires ValidIdent(x) && ValidIdent(y) && Conforms(x) && Conforms(y)
    ensures CompareIdent(IdentOf(x), IdentOf(y)) == 0 <==> x == y
    ensures x != y ==> (CompareIdent(IdentOf(x), IdentOf(y)) < 0 <==> IdentBefore(x, y))
  {
    ConformsIffClassified(x);
    ConformsIffClassified(y);
    TextBeforeIff(x, y);
    TextOrder(x, y, y);
    if AllDigits(x) && AllDigits(y) && Value(x) == Value(y) {
      ValueInjective(x, y);
    }
  }

  predicate ConformingPre(pre: seq<string>) { forall i :: 0 <= i < |pre| ==> ValidIdent(pre[i]) && Conforms(pre[i]) }

  lemma {:induction false} PreAgrees(xs: seq<string>, ys: seq<string>)
    requires ConformingPre(xs) && ConformingPre(ys)
    ensures CompareIdents(Idents(xs), Idents(ys)) < 0 <==> PreBefore(xs, ys)
    ensures CompareIdents(Idents(xs), Idents(ys)) == 0 <==> xs == ys
    decreases |xs|
  {
    if xs != [] && ys != [] {
      IdentAgrees(xs[0], ys[0]);
      IdentsTail(xs, ys);
      if xs[0] == ys[0] {
        PreAgrees(xs[1..], ys[1..]);
        PreBeforeTail(xs, ys);
      } else {
        OnlyDifference(xs, ys, 0);
      }
    }
  }

  lemma IdentsTail(xs: seq<string>, ys: seq<string>)
    requires xs != [] && ys != []
    ensures var c := CompareIdent(IdentOf(xs[0]), IdentOf(ys[0]));
            CompareIdents(Idents(xs), Idents(ys)) == if c != 0 then c else CompareIdents(Idents(xs[1..]), Idents(ys[1..]))
    ensures xs == ys <==> xs[0] == ys[0] && xs[1..] == ys[1..]
  {
    assert Idents(xs)[1..] == Idents(xs[1..]) && Idents(ys)[1..] == Idents(ys[1..]);
    assert xs == [xs[0]] + xs[1..] && ys == [ys[0]] + ys[1..];
  }

  lemma PreBeforeTail(xs: seq<string>, ys: seq<string>)
    requires xs != [] && ys != [] && xs[0] == ys[0]
    ensures PreBefore(xs, ys) <==> PreBefore(xs[1..], ys[1..])
  {
    var us, vs := xs[1..], ys[1..];
    assert xs == [xs[0]] + us && ys == [ys[0]] + vs;
    if i :| 0 <= i < |xs| && i < |ys| && xs[..i] == ys[..i] && xs[i] != ys[i] && IdentBefore(xs[i], ys[i]) {
      assert i > 0 && us[..i - 1] == xs[..i][1..] && vs[..i - 1] == ys[..i][1..];
      assert us[i - 1] == xs[i] && vs[i - 1] == ys[i];
    }
    if i :| 0 <= i < |us| && i < |vs| && us[..i] == vs[..i] && us[i] != vs[i] && IdentBefore(us[i], vs[i]) {
      assert xs[..i + 1] == [xs[0]] + us[..i] && ys[..i + 1] == [ys[0]] + vs[..i];
      assert xs[i + 1] == us[i] && ys[i + 1] == vs[i];
    }
  }

  predicate Conforming(v: Version) { CoreInRange(v) && ConformingPre(v.pre) }

  /** The code's answer on two spellings of versions is section 11's. */
  ghost predicate Agrees(s: string, t: string, a: Version, b: Version)
  {
    && (CompareVersions(s, t) < 0 <==> Precedes(a, b))
    && (CompareVersions(s, t) > 0 <==> Precedes(b, a))
    && (CompareVersions(s, t) == 0 <==> a == b)
  }

  lemma {:induction false} ComparePreOf(a: Version, b: Version)
    requires Conforming(a) && Conforming(b) && a.pre != [] && b.pre != []
    ensures ComparePre(Join(a.pre), Join(b.pre)) < 0 <==> PreBefore(a.pre, b.pre)
    ensures ComparePre(Join(a.pre), Join(b.pre)) == 0 <==> a.pre == b.pre
  {
    PreSegments(a);
    PreSegments(b);
    PreAgrees(a.pre, b.pre);
  }

  ghost predicate PrePrecedes(xs: seq<string>, ys: seq<string>)
  {
    if xs == [] then false else if ys == [] then true else PreBefore(xs, ys)
  }

  lemma CoreAgrees(a: Version, b: Version, pre: int)
    requires (pre < 0 <==> PrePrecedes(a.pre, b.pre)) && (pre == 0 <==> a.pre == b.pre)
    ensures CompareCore(ParsedOf(a), ParsedOf(b), pre) < 0 <==> Precedes(a, b)
    ensures CompareCore(ParsedOf(a), ParsedOf(b), pre) == 0 <==> a == b
  {
  }

  lemma {:induction false} PreReleaseAgrees(a: Version, b: Version)
    requires Conforming(a) && Conforming(b)
    ensures var pre := ComparePre(ParsedOf(a).pre, ParsedOf(b).pre);
            (pre < 0 <==> PrePrecedes(a.pre, b.pre)) && (pre == 0 <==> a.pre == b.pre)
  {
    if a.pre != [] { PreSegments(a); }
    if b.pre != [] { PreSegments(b); }
    if a.pre != [] && b.pre != [] { ComparePreOf(a, b); }
  }

  /** For all conforming versions, in either spelling, the comparison is section 11's. */
  lemma {:induction false} AgreesWithSection11(s: string, t: string, a: Version, b: Version)
    requires Spells(s, a) && Spells(t, b) && Conforming(a) && Conforming(b)
    ensures Agrees(s, t, a, b)
  {
    ParseRender(s, a);
    ParseRender(t, b);
    ParsedOrder(ParsedOf(a), ParsedOf(b), ParsedOf(b));
    PreReleaseAgrees(a, b);
    PreReleaseAgrees(b, a);
    CoreAgrees(a, b, ComparePre(ParsedOf(a).pre, ParsedOf(b).pre));
    CoreAgrees(b, a, ComparePre(ParsedOf(b).pre, ParsedOf(a).pre));
  }

  lemma {:induction false} FirstBad(pre: seq<string>) returns (i: nat)
    requires (forall k :: 0 <= k < |pre| ==> ValidIdent(pre[k])) && !ConformingPre(pre)
    ensures i < |pre| && !Conforms(pre[i]) && ConformingPre(pre[..i])
  {
    var n := |pre| - 1;
    if ConformingPre(pre[..n]) {
      assert forall k :: 0 <= k < n ==> pre[k] == pre[..n][k];
      i := n;
    } else {
      i := FirstBad(pre[..n]);
      assert pre[..n][..i] == pre[..i];
    }
  }

  /** Two versions that differ first at identifier `i` are ordered by it, in the code and in section 11. */
  /** Two versions that differ first in pre-release identifier `i`. */
  predicate DifferFirst(a: Version, b: Version, i: nat)
  {
    && b == a.(pre := b.pre) && i < |a.pre| && i < |b.pre| && a.pre[..i] == b.pre[..i] && a.pre[i] != b.pre[i]
    && CompareIdent(IdentOf(a.pre[i]), IdentOf(b.pre[i])) != 0
  }

  lemma {:induction false} DifferencePrecedes(a: Version, b: Version, i: nat)
    requires DifferFirst(a, b, i)
    ensures Precedes(a, b) <==> IdentBefore(a.pre[i], b.pre[i])
    ensures Precedes(b, a) <==> IdentBefore(b.pre[i], a.pre[i])
  {
    OnlyDifference(a.pre, b.pre, i);
    OnlyDifference(b.pre, a.pre, i);
  }

  lemma {:induction false} DifferenceCompares(a: Version, b: Version, i: nat)
    requires ValidVersion(a) && ValidVersion(b) && DifferFirst(a, b, i)
    ensures CompareParsed(ParsedOf(a), ParsedOf(b)) == CompareIdent(IdentOf(a.pre[i]), IdentOf(b.pre[i]))
  {
    PreSegments(a);
    PreSegments(b);
    IdentsFirstDifference(a.pre, b.pre, i);
  }

  lemma {:induction false} FirstDifference(a: Version, b: Version, i: nat)
    requires ValidVersion(a) && ValidVersion(b) && CoreInRange(a) && CoreInRange(b) && DifferFirst(a, b, i)
    ensures CompareVersions(Render(a), Render(b)) == CompareIdent(IdentOf(a.pre[i]), IdentOf(b.pre[i]))
    ensures Precedes(a, b) <==> IdentBefore(a.pre[i], b.pre[i])
    ensures Precedes(b, a) <==> IdentBefore(b.pre[i], a.pre[i])
  {
    ParseRender(Render(a), a);
    ParseRender(Render(b), b);
    DifferenceCompares(a, b, i);
    DifferencePrecedes(a, b, i);
  }

  lemma IdentsFirstDifference(us: seq<string>, vs: seq<string>, i: nat)
    requires i < |us| && i < |vs| && us[..i] == vs[..i] && CompareIdent(IdentOf(us[i]), IdentOf(vs[i])) != 0
    ensures CompareIdents(Idents(us), Idents(vs)) == CompareIdent(IdentOf(us[i]), IdentOf(vs[i]))
  {
    var xs, ys := Idents(us), Idents(vs);
    forall j | 0 <= j < i ensures CompareIdent(xs[j], ys[j]) == 0 {
      assert us[j] == us[..i][j] && vs[j] == vs[..i][j];
      IdentOrder(xs[j], ys[j], ys[j]);
    }
    SkipEqual(xs, ys, i);
    assert xs[i..][0] == xs[i] && ys[i..][0] == ys[i];
  }

  lemma SamePrefix(xs: seq<string>, ys: seq<string>, j: nat, i: nat)
    requires i < j <= |xs| && j <= |ys| && xs[..j] == ys[..j]
    ensures xs[i] == ys[i]
  {
    assert xs[i] == xs[..j][i] && ys[i] == ys[..j][i];
  }

  lemma OnlyDifference(xs: seq<string>, ys: seq<string>, i: nat)
    requires i < |xs| && i < |ys| && xs[..i] == ys[..i] && xs[i] != ys[i]
    ensures PreBefore(xs, ys) <==> IdentBefore(xs[i], ys[i])
  {
    forall k | 0 <= k < i ensures xs[k] == ys[k] {
      assert xs[k] == xs[..i][k] && ys[k] == ys[..i][k];
    }
    forall j | 0 <= j < |xs| && j < |ys| && xs[..j] == ys[..j] && xs[j] != ys[j] ensures j == i {
      if j > i { SamePrefix(xs, ys, j, i); }
    }
  }

  /** A version with an identifier the code misclassifies is compared wrongly with some conforming version. */
  lemma NonConformingDisagrees(v: Version) returns (w: Version)
    requires ValidVersion(v) && CoreInRange(v) && !Conforming(v)
    ensures Conforming(w) && !Agrees(Render(v), Render(w), v, w)
  {
    var i := FirstBad(v.pre);
    var last := if AllDigits(v.pre[i]) then "-" else "1";
    assert ValidIdent(v.pre[i]);
    Misclassified(v.pre[i], last);
    w := Replaced(v, i, last);
    assert DifferFirst(v, w, i);
    FirstDifference(v, w, i);
  }

  lemma Replaced(v: Version, i: nat, last: string) returns (w: Version)
    requires ValidVersion(v) && CoreInRange(v) && i < |v.pre| && ConformingPre(v.pre[..i]) && ValidIdent(last) && Conforms(last)
    ensures w == v.(pre := v.pre[..i] + [last]) && ValidVersion(w) && Conforming(w)
    ensures w.pre[..i] == v.pre[..i] && w.pre[i] == last
  {
    w := v.(pre := v.pre[..i] + [last]);
    assert forall k :: 0 <= k < i ==> w.pre[k] == v.pre[..i][k];
  }

  /** A number too large for an int is taken for text, and a hyphenated number for a number. */
  lemma Misclassified(bad: string, last: string)
    requires ValidIdent(bad) && !Conforms(bad) && last == if AllDigits(bad) then "-" else "1"
    ensures ValidIdent(last) && Conforms(last) && bad != last
    ensures var c := CompareIdent(IdentOf(bad), IdentOf(last));
            c != 0 && !(c < 0 && IdentBefore(bad, last)) && !(c > 0 && IdentBefore(last, bad))
  {
    ConformsIffClassified(bad);
    assert "1"[..0] == "" && Value("1") == 1;
    assert Atoi("-") == None && Atoi("1") == Some(1);
    assert IdentChar(bad[0]);
  }

  /** For versions the code can parse: it orders `v` against every conforming version as
      section 11 does exactly when `v` conforms. */
  lemma {:induction false} AgreesIffConforming(v: Version)
    requires ValidVersion(v) && CoreInRange(v)
    ensures Conforming(v) <==>
            forall s, t, w :: Spells(s, v) && Spells(t, w) && Conforming(w) ==> Agrees(s, t, v, w)
  {
    if Conforming(v) {
      forall s, t, w | Spells(s, v) && Spells(t, w) && Conforming(w) ensures Agrees(s, t, v, w) {
        AgreesWithSection11(s, t, v, w);
      }
    } else {
      var w := NonConformingDisagrees(v);
      assert Spells(Render(v), v) && Spells(Render(w), w);
    }
  }
}
