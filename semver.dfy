/** Semantic-version precedence, the order in which the version check sorts the
    versions available for a module: Semantic Versioning 2.0.0, section 11, on
    versions without build metadata. */
module Semver {

  /** One dot-separated pre-release identifier. `Numeric` is a part that parses as
      an unsigned 64-bit number. `Alphanumeric` is any other non-empty part; it
      includes digit-only parts too large for 64 bits, which compare as text. */
  datatype Identifier = Numeric(value: nat) | Alphanumeric(text: string)

  /** major.minor.patch with its pre-release identifiers; an empty `pre` is a release. */
  datatype Version = Version(major: nat, minor: nat, patch: nat, pre: seq<Identifier>)

  /** Lexicographic order on code points (a proper prefix sorts first); it agrees
      with Go's byte-wise string comparison, since UTF-8 preserves code-point order. */
  predicate StringLess(s: string, t: string)
    decreases |s|
  {
    if s == [] then t != []
    else if t == [] then false
    else if s[0] != t[0] then s[0] < t[0]
    else StringLess(s[1..], t[1..])
  }

  /** Numeric identifiers compare numerically and sort below alphanumeric ones,
      which compare lexically. */
  predicate IdentifierLess(x: Identifier, y: Identifier) {
    match (x, y)
    case (Numeric(m), Numeric(n)) => m < n
    case (Numeric(_), Alphanumeric(_)) => true
    case (Alphanumeric(_), Numeric(_)) => false
    case (Alphanumeric(s), Alphanumeric(t)) => StringLess(s, t)
  }

  /** Identifier lists compare field by field; a proper prefix sorts first. */
  predicate IdentifiersLess(p: seq<Identifier>, q: seq<Identifier>)
    decreases |p|
  {
    if p == [] then q != []
    else if q == [] then false
    else if p[0] != q[0] then IdentifierLess(p[0], q[0])
    else IdentifiersLess(p[1..], q[1..])
  }

  /** A pre-release sorts below the release with the same major.minor.patch. */
  predicate PreReleaseLess(p: seq<Identifier>, q: seq<Identifier>) {
    if p == [] then false
    else if q == [] then true
    else IdentifiersLess(p, q)
  }

  /** Precedence: major, then minor, then patch numerically, then pre-release. */
  predicate Less(a: Version, b: Version) {
    if a.major != b.major then a.major < b.major
    else if a.minor != b.minor then a.minor < b.minor
    else if a.patch != b.patch then a.patch < b.patch
    else PreReleaseLess(a.pre, b.pre)
  }

  /** A sequence in ascending precedence: no element sorts below its predecessor. */
  predicate Sorted(s: seq<Version>) {
    forall k :: 0 < k < |s| ==> !Less(s[k], s[k - 1])
  }

  /** `v` is an element of `s` and no element of `s` has higher precedence. */
  predicate IsGreatest(v: Version, s: seq<Version>) {
    v in s && forall k :: 0 <= k < |s| ==> !Less(v, s[k])
  }

  // ---- strings ----

  lemma {:induction false} StringLessIrreflexive(s: string)
    ensures !StringLess(s, s)
    decreases |s|
  {
    if s != [] { StringLessIrreflexive(s[1..]); }
  }

  lemma {:induction false} StringLessTransitive(s: string, t: string, u: string)
    requires StringLess(s, t) && StringLess(t, u)
    ensures StringLess(s, u)
    decreases |s|
  {
    if s != [] && s[0] == t[0] && t[0] == u[0] {
      StringLessTransitive(s[1..], t[1..], u[1..]);
    }
  }

  lemma {:induction false} StringLessTotal(s: string, t: string)
    ensures s == t || StringLess(s, t) || StringLess(t, s)
    decreases |s|
  {
    if s != [] && t != [] && s[0] == t[0] {
      StringLessTotal(s[1..], t[1..]);
      if s[1..] == t[1..] {
        assert s == [s[0]] + s[1..] && t == [t[0]] + t[1..];
      }
    }
  }

  // ---- identifiers ----

  lemma IdentifierLessIrreflexive(x: Identifier)
    ensures !IdentifierLess(x, x)
  {
    if x.Alphanumeric? { StringLessIrreflexive(x.text); }
  }

  lemma IdentifierLessTransitive(x: Identifier, y: Identifier, z: Identifier)
    requires IdentifierLess(x, y) && IdentifierLess(y, z)
    ensures IdentifierLess(x, z)
  {
    if x.Alphanumeric? && y.Alphanumeric? && z.Alphanumeric? {
      StringLessTransitive(x.text, y.text, z.text);
    }
  }

  lemma IdentifierLessTotal(x: Identifier, y: Identifier)
    ensures x == y || IdentifierLess(x, y) || IdentifierLess(y, x)
  {
    if x.Alphanumeric? && y.Alphanumeric? { StringLessTotal(x.text, y.text); }
  }

  lemma {:induction false} IdentifiersLessIrreflexive(p: seq<Identifier>)
    ensures !IdentifiersLess(p, p)
    decreases |p|
  {
    if p != [] { IdentifiersLessIrreflexive(p[1..]); }
  }

  lemma {:induction false} IdentifiersLessTransitive(p: seq<Identifier>, q: seq<Identifier>, r: seq<Identifier>)
    requires IdentifiersLess(p, q) && IdentifiersLess(q, r)
    ensures IdentifiersLess(p, r)
    decreases |p|
  {
    if p != [] && q != [] && r != [] {
      if p[0] == q[0] && q[0] == r[0] {
        IdentifiersLessTransitive(p[1..], q[1..], r[1..]);
      } else if p[0] != q[0] && q[0] != r[0] {
        IdentifierLessTransitive(p[0], q[0], r[0]);
        if p[0] == r[0] { IdentifierLessIrreflexive(p[0]); }
      }
    }
  }

  lemma {:induction false} IdentifiersLessTotal(p: seq<Identifier>, q: seq<Identifier>)
    ensures p == q || IdentifiersLess(p, q) || IdentifiersLess(q, p)
    decreases |p|
  {
    if p != [] && q != [] {
      if p[0] == q[0] {
        IdentifiersLessTotal(p[1..], q[1..]);
        if p[1..] == q[1..] {
          assert p == [p[0]] + p[1..] && q == [q[0]] + q[1..];
        }
      } else {
        IdentifierLessTotal(p[0], q[0]);
      }
    }
  }

  // ---- versions: Less is a strict total order ----

  lemma LessIrreflexive(v: Version)
    ensures !Less(v, v)
  {
    IdentifiersLessIrreflexive(v.pre);
  }

  lemma LessTransitive(a: Version, b: Version, c: Version)
    requires Less(a, b) && Less(b, c)
    ensures Less(a, c)
  {
    if a.major == b.major == c.major && a.minor == b.minor == c.minor && a.patch == b.patch == c.patch {
      if a.pre != [] && b.pre != [] && c.pre != [] {
        IdentifiersLessTransitive(a.pre, b.pre, c.pre);
      }
    }
  }

  lemma LessAsymmetric(a: Version, b: Version)
    requires Less(a, b)
    ensures !Less(b, a)
  {
    if Less(b, a) {
      LessTransitive(a, b, a);
      LessIrreflexive(a);
    }
  }

  lemma LessTotal(a: Version, b: Version)
    ensures a == b || Less(a, b) || Less(b, a)
  {
    IdentifiersLessTotal(a.pre, b.pre);
  }

  /** "Not below" is transitive, so ascending order chains. */
  lemma NotLessTransitive(a: Version, b: Version, c: Version)
    requires !Less(b, a) && !Less(c, b)
    ensures !Less(c, a)
  {
    LessTotal(a, b);
    LessTotal(b, c);
    if a != b && b != c {
      LessTransitive(a, b, c);
      LessAsymmetric(a, c);
    } else if a != b {
      LessAsymmetric(a, b);
    } else if b != c {
      LessAsymmetric(b, c);
    } else {
      LessIrreflexive(a);
    }
  }

  /** Ascending order between neighbours gives ascending order between any two positions. */
  lemma {:induction false} SortedPairwise(s: seq<Version>, i: int, j: int)
    requires Sorted(s) && 0 <= i <= j < |s|
    ensures !Less(s[j], s[i])
    decreases j - i
  {
    if i == j {
      LessIrreflexive(s[i]);
    } else {
      SortedPairwise(s, i, j - 1);
      NotLessTransitive(s[i], s[j - 1], s[j]);
    }
  }

  /** The last element of a non-empty ascending sequence is a greatest element. */
  lemma SortedLastIsGreatest(s: seq<Version>)
    requires Sorted(s) && |s| > 0
    ensures IsGreatest(s[|s| - 1], s)
  {
    forall k | 0 <= k < |s| ensures !Less(s[|s| - 1], s[k]) {
      SortedPairwise(s, k, |s| - 1);
    }
  }

  /** Two greatest elements of one sequence are the same version. */
  lemma GreatestUnique(v: Version, w: Version, s: seq<Version>)
    requires IsGreatest(v, s) && IsGreatest(w, s)
    ensures v == w
  {
    LessTotal(v, w);
  }

  /** The example chain of section 11 of Semantic Versioning 2.0.0. */
  lemma PrecedenceExample()
    ensures Less(Version(1, 0, 0, [Alphanumeric("alpha")]), Version(1, 0, 0, [Alphanumeric("alpha"), Numeric(1)]))
    ensures Less(Version(1, 0, 0, [Alphanumeric("alpha"), Numeric(1)]), Version(1, 0, 0, [Alphanumeric("alpha"), Alphanumeric("beta")]))
    ensures Less(Version(1, 0, 0, [Alphanumeric("alpha"), Alphanumeric("beta")]), Version(1, 0, 0, [Alphanumeric("beta")]))
    ensures Less(Version(1, 0, 0, [Alphanumeric("beta")]), Version(1, 0, 0, [Alphanumeric("beta"), Numeric(2)]))
    ensures Less(Version(1, 0, 0, [Alphanumeric("beta"), Numeric(2)]), Version(1, 0, 0, [Alphanumeric("beta"), Numeric(11)]))
    ensures Less(Version(1, 0, 0, [Alphanumeric("beta"), Numeric(11)]), Version(1, 0, 0, [Alphanumeric("rc"), Numeric(1)]))
    ensures Less(Version(1, 0, 0, [Alphanumeric("rc"), Numeric(1)]), Version(1, 0, 0, []))
    ensures Less(Version(1, 9, 0, []), Version(1, 10, 0, [])) && Less(Version(1, 10, 0, []), Version(1, 11, 0, []))
  {
    var alpha, beta := Alphanumeric("alpha"), Alphanumeric("beta");
    assert IdentifiersLess([alpha, Numeric(1)][1..], [alpha, beta][1..]);
    assert StringLess("alpha", "beta");
    assert StringLess("beta", "rc");
  }
}
