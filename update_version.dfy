/**
 * The release helper `update-version.js`: it reads `version` from the package
 * manifest, splits it at `.`, converts the first three pieces with
 * `Number`, bumps the major, minor or patch number as the command-line
 * argument asks (resetting the lower numbers, as items 6 to 8 of Semantic
 * Versioning 2.0.0 require) and writes the joined result back.
 */
module UpdateVersion {
  import opened Types
  import opened Strings

  // ---------------------------------------------------------------------
  // JavaScript numbers as the script meets them
  // ---------------------------------------------------------------------

  /**
   * The values a version piece can take: `undefined` for a missing piece,
   * `NaN` for one `Number` cannot read, or a non-negative integer.
   */
  datatype Num = Undefined | NaN | Val(n: nat)

  predicate IsDigit(c: char) {
    '0' <= c <= '9'
  }

  predicate AllDigits(s: string) {
    forall i :: 0 <= i < |s| ==> IsDigit(s[i])
  }

  /** The value of a string of decimal digits (0 for the empty string). */
  function DigitsValue(s: string): nat
    requires AllDigits(s)
  {
    if s == [] then 0 else DigitsValue(s[..|s| - 1]) * 10 + (s[|s| - 1] as int - '0' as int)
  }

  /** `Number(s)` for the strings a version piece can be: surrounding whitespace is ignored, and an empty string is 0. */
  function ToNumber(s: string): Num {
    var t := Trim(s);
    if AllDigits(t) then Val(DigitsValue(t)) else NaN
  }

  /** `x++`: `undefined` and `NaN` become `NaN`. */
  function Inc(x: Num): (r: Num)
    ensures r.Val? <==> x.Val?
    ensures x.Val? ==> r.n == x.n + 1
    ensures !x.Val? ==> r == NaN
  {
    match x
    case Val(n) => Val(n + 1)
    case _ => NaN
  }

  function DigitChar(d: nat): char
    requires d < 10
  {
    ('0' as int + d) as char
  }

  /** The decimal text of `n`, the way a template literal prints an integer. */
  function NatText(n: nat): string {
    if n < 10 then [DigitChar(n)] else NatText(n / 10) + [DigitChar(n % 10)]
  }

  /** The text `${x}` gives. */
  function Show(x: Num): string {
    match x
    case Undefined => "undefined"
    case NaN => "NaN"
    case Val(n) => NatText(n)
  }

  /** `NatText` prints digits without a leading zero, and reading them back gives the number. */
  lemma {:induction false} NatTextSpec(n: nat)
    ensures |NatText(n)| > 0 && AllDigits(NatText(n))
    ensures DigitsValue(NatText(n)) == n
    ensures NatText(n)[0] == '0' ==> n == 0
  {
    if n >= 10 {
      NatTextSpec(n / 10);
      var s := NatText(n);
      assert s[..|s| - 1] == NatText(n / 10);
    }
  }

  /** `Number` reads the printed text of a number back as that number. */
  lemma NumberOfText(n: nat)
    ensures ToNumber(NatText(n)) == Val(n)
  {
    var s := NatText(n);
    NatTextSpec(n);
    DigitsTrimmed(s);
    TrimSpec(s);
    assert Trim(s) == s;
  }

  /** Digits are not whitespace, so a string of them is already trimmed. */
  lemma DigitsTrimmed(s: string)
    requires AllDigits(s)
    ensures Trimmed(s)
  {
    if s != [] {
      assert IsDigit(s[0]) && IsDigit(s[|s| - 1]);
    }
  }

  // ---------------------------------------------------------------------
  // Version triples
  // ---------------------------------------------------------------------

  datatype Triple = Triple(major: Num, minor: Num, patch: Num)

  /** Piece `k` after `map(Number)`, or `undefined` when the split has fewer pieces. */
  function Piece(parts: seq<string>, k: nat): Num {
    if k < |parts| then ToNumber(parts[k]) else Undefined
  }

  /** `let [major, minor, patch] = currentVersion.split('.').map(Number)`. */
  function ParseVersion(v: string): Triple {
    var parts := Split(v, ".");
    Triple(Piece(parts, 0), Piece(parts, 1), Piece(parts, 2))
  }

  /** `${major}.${minor}.${patch}`. */
  function RenderVersion(t: Triple): string {
    Show(t.major) + "." + Show(t.minor) + "." + Show(t.patch)
  }

  /** The text of a version made of three numbers. */
  function VersionText(major: nat, minor: nat, patch: nat): string {
    RenderVersion(Triple(Val(major), Val(minor), Val(patch)))
  }

  predicate Numeric(t: Triple) {
    t.major.Val? && t.minor.Val? && t.patch.Val?
  }

  /** Precedence of numeric versions: major, then minor, then patch. */
  predicate Below(a: Triple, b: Triple)
    requires Numeric(a) && Numeric(b)
  {
    a.major.n < b.major.n ||
    (a.major.n == b.major.n && (a.minor.n < b.minor.n || (a.minor.n == b.minor.n && a.patch.n < b.patch.n)))
  }

  /** What the argument selects; `patch` is also the default. */
  datatype Level = Major | Minor | Patch

  /** The `switch (arg)`: `process.argv[2]` is absent when no argument is given. */
  function LevelOf(arg: Option<string>): (l: Level)
    ensures l == Major <==> arg == Some("major")
    ensures l == Minor <==> arg == Some("minor")
  {
    if arg == Some("major") then Major else if arg == Some("minor") then Minor else Patch
  }

  /** The bumped triple: the selected number goes up by one, the ones below it restart at 0. */
  function Bumped(t: Triple, level: Level): Triple {
    match level
    case Major => Triple(Inc(t.major), Val(0), Val(0))
    case Minor => Triple(t.major, Inc(t.minor), Val(0))
    case Patch => Triple(t.major, t.minor, Inc(t.patch))
  }

  /** The numbers above the selected level: a bump must keep them. */
  predicate SameAbove(t: Triple, u: Triple, level: Level) {
    match level
    case Major => true
    case Minor => u.major == t.major
    case Patch => u.major == t.major && u.minor == t.minor
  }

  /** The numbers below the selected level: a bump must reset them to 0. */
  predicate ResetBelow(u: Triple, level: Level) {
    match level
    case Major => u.minor == Val(0) && u.patch == Val(0)
    case Minor => u.patch == Val(0)
    case Patch => true
  }

  /** A bump keeps the higher numbers, resets the lower ones and stays numeric. */
  lemma BumpedShape(t: Triple, level: Level)
    requires Numeric(t)
    ensures Numeric(Bumped(t, level))
    ensures SameAbove(t, Bumped(t, level), level) && ResetBelow(Bumped(t, level), level)
    ensures Below(t, Bumped(t, level))
  {
  }

  /**
   * The bump is the least numeric version above `t` that keeps the higher
   * numbers and resets the lower ones.
   */
  lemma BumpedLeast(t: Triple, level: Level, u: Triple)
    requires Numeric(t) && Numeric(u)
    requires Below(t, u) && SameAbove(t, u, level) && ResetBelow(u, level)
    ensures Bumped(t, level) == u || Below(Bumped(t, level), u)
  {
    match level
    case Major =>
      assert u.major.n > t.major.n;
    case Minor =>
      assert u.minor.n > t.minor.n;
    case Patch =>
      assert u.patch.n > t.patch.n;
  }

  /** The pieces that a bump at `level` carries over or increments. */
  predicate NumericFrom(t: Triple, level: Level) {
    match level
    case Major => t.major.Val?
    case Minor => t.major.Val? && t.minor.Val?
    case Patch => Numeric(t)
  }

  /**
   * The bump is numeric exactly when the pieces at and above the level are:
   * a missing or unreadable one stays `undefined` or turns into `NaN`, and
   * one below the level is reset anyway.
   */
  lemma BumpedNumeric(t: Triple, level: Level)
    ensures Numeric(Bumped(t, level)) <==> NumericFrom(t, level)
  {
  }

  /** `newVersion` for the manifest's `currentVersion` and the argument. */
  function NewVersion(current: string, arg: Option<string>): string {
    RenderVersion(Bumped(ParseVersion(current), LevelOf(arg)))
  }

  lemma SplitThree(a: string, b: string, c: string)
    requires '.' !in a && '.' !in b && '.' !in c
    ensures Split(a + "." + b + "." + c, ".") == [a, b, c]
  {
    var bc := b + ['.'] + c;
    SplitWithout(c, '.');
    SplitCons(b, '.', c);
    assert Split(bc, ".") == [b, c];
    SplitCons(a, '.', bc);
    assert Split(a + ['.'] + bc, ".") == [a, b, c];
    DottedAssoc(a, b, c);
  }

  lemma DottedAssoc(a: string, b: string, c: string)
    ensures a + "." + b + "." + c == a + ['.'] + (b + ['.'] + c)
  {
    assert "." == ['.'];
  }

  lemma NoDot(n: nat)
    ensures '.' !in NatText(n)
  {
    NatTextSpec(n);
    assert !IsDigit('.');
  }

  /**
   * A two-piece version such as `1.2` has no patch piece, so the default
   * bump increments `undefined` and writes `1.2.NaN`.
   */
  lemma {:induction false} TwoPiecePatchIsNaN(major: nat, minor: nat, arg: Option<string>)
    requires arg != Some("major") && arg != Some("minor")
    ensures var v := NatText(major) + "." + NatText(minor); NewVersion(v, arg) == v + ".NaN"
  {
    var a, b := NatText(major), NatText(minor);
    var v := a + "." + b;
    TwoPieceParse(major, minor);
    var l := LevelOf(arg);
    assert l == Patch;
    var u := Bumped(ParseVersion(v), l);
    assert u == Triple(Val(major), Val(minor), NaN);
    var w := RenderVersion(u);
    assert w == a + "." + b + "." + "NaN";
    assert NewVersion(v, arg) == w;
    DotNaN(v);
  }

  /** Appending `.` and then `NaN` appends `.NaN`. */
  lemma DotNaN(v: string)
    ensures v + "." + "NaN" == v + ".NaN"
  {
    assert |v + "." + "NaN"| == |v + ".NaN"|;
    forall i | 0 <= i < |v + ".NaN"|
      ensures (v + "." + "NaN")[i] == (v + ".NaN")[i]
    {
    }
  }

  /** `a.b` splits into two pieces, and the missing third one is `undefined`. */
  lemma {:induction false} TwoPieceParse(major: nat, minor: nat)
    ensures ParseVersion(NatText(major) + "." + NatText(minor)) == Triple(Val(major), Val(minor), Undefined)
  {
    var a, b := NatText(major), NatText(minor);
    NoDot(major);
    NoDot(minor);
    SplitWithout(b, '.');
    SplitCons(a, '.', b);
    assert a + "." + b == a + ['.'] + b;
    assert Split(a + "." + b, ".") == [a, b];
    NumberOfText(major);
    NumberOfText(minor);
  }

  /** Reading a printed numeric version gives its three numbers back. */
  lemma ParseVersionText(major: nat, minor: nat, patch: nat)
    ensures ParseVersion(VersionText(major, minor, patch)) == Triple(Val(major), Val(minor), Val(patch))
  {
    NoDot(major);
    NoDot(minor);
    NoDot(patch);
    SplitThree(NatText(major), NatText(minor), NatText(patch));
    NumberOfText(major);
    NumberOfText(minor);
    NumberOfText(patch);
  }

  /** For a version `M.m.p`, the script writes the bumped numbers. */
  lemma NewVersionOfText(major: nat, minor: nat, patch: nat, arg: Option<string>)
    ensures NewVersion(VersionText(major, minor, patch), arg) ==
            (match LevelOf(arg)
             case Major => VersionText(major + 1, 0, 0)
             case Minor => VersionText(major, minor + 1, 0)
             case Patch => VersionText(major, minor, patch + 1))
  {
    var t := Triple(Val(major), Val(minor), Val(patch));
    BumpedOfNumbers(major, minor, patch, LevelOf(arg));
    ParseVersionText(major, minor, patch);
    assert NewVersion(VersionText(major, minor, patch), arg) == RenderVersion(Bumped(t, LevelOf(arg)));
  }

  /** The bump of three numbers, written out per level. */
  lemma BumpedOfNumbers(major: nat, minor: nat, patch: nat, level: Level)
    ensures Bumped(Triple(Val(major), Val(minor), Val(patch)), level) ==
            match level
            case Major => Triple(Val(major + 1), Val(0), Val(0))
            case Minor => Triple(Val(major), Val(minor + 1), Val(0))
            case Patch => Triple(Val(major), Val(minor), Val(patch + 1))
  {
  }

  /**
   * What the script writes for a version `M.m.p` reads back as a strictly
   * higher numeric version with the higher numbers kept and the lower ones
   * reset.
   */
  lemma NewVersionSpec(major: nat, minor: nat, patch: nat, arg: Option<string>)
    ensures Numeric(ParseVersion(NewVersion(VersionText(major, minor, patch), arg)))
    ensures Below(Triple(Val(major), Val(minor), Val(patch)), ParseVersion(NewVersion(VersionText(major, minor, patch), arg)))
    ensures SameAbove(Triple(Val(major), Val(minor), Val(patch)), ParseVersion(NewVersion(VersionText(major, minor, patch), arg)), LevelOf(arg))
    ensures ResetBelow(ParseVersion(NewVersion(VersionText(major, minor, patch), arg)), LevelOf(arg))
  {
    var t := Triple(Val(major), Val(minor), Val(patch));
    var level := LevelOf(arg);
    ParseVersionText(major, minor, patch);
    var b := Bumped(t, level);
    BumpedShape(t, level);
    assert NewVersion(VersionText(major, minor, patch), arg) == VersionText(b.major.n, b.minor.n, b.patch.n);
    ParseVersionText(b.major.n, b.minor.n, b.patch.n);
  }

  // ---------------------------------------------------------------------
  // The script
  // ---------------------------------------------------------------------

  /** The `switch` that updates `major`, `minor` and `patch` in place. */
  method Bump(major0: Num, minor0: Num, patch0: Num, arg: Option<string>) returns (major: Num, minor: Num, patch: Num)
    ensures Triple(major, minor, patch) == Bumped(Triple(major0, minor0, patch0), LevelOf(arg))
  {
    major, minor, patch := major0, minor0, patch0;
    if arg == Some("major") {
      major := Inc(major);
      minor := Val(0);
      patch := Val(0);
    } else if arg == Some("minor") {
      minor := Inc(minor);
      patch := Val(0);
    } else {
      patch := Inc(patch);
    }
  }

  /**
   * The parsed `package.json`: its `version` string and, as opaque JSON
   * texts, every other field.
   */
  class PackageJson {
    var version: string
    var others: map<string, string>

    constructor (version: string, others: map<string, string>)
      ensures this.version == version && this.others == others
    {
      this.version := version;
      this.others := others;
    }

    /** The whole script on the manifest: only `version` changes. */
    method UpdateVersion(arg: Option<string>) returns (currentVersion: string, newVersion: string)
      modifies this
      ensures currentVersion == old(version)
      ensures newVersion == NewVersion(old(version), arg)
      ensures version == newVersion && others == old(others)
    {
      currentVersion := version;
      var versionParts := Split(currentVersion, ".");
      var major, minor, patch := Piece(versionParts, 0), Piece(versionParts, 1), Piece(versionParts, 2);
      major, minor, patch := Bump(major, minor, patch, arg);
      newVersion := Show(major) + "." + Show(minor) + "." + Show(patch);
      version := newVersion;
    }
  }
}
