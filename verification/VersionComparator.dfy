/** Version comparison (astrbot/cli/utils/version_comparator.py). The loops are proved against a
    declarative reading of section 11 of Semantic Versioning 2.0.0, extended to any number of numeric
    parts with missing parts read as zero; the reading is proved to be a strict weak order. */
module VersionComparator {
  import opened Wrappers
  import opened StableSorting

  datatype Ident = Num(n: nat) | Alnum(text: string)

  datatype Version = Version(parts: seq<nat>, pre: Option<seq<Ident>>)

  // ----- precedence, read declaratively

  function PartAt(parts: seq<nat>, i: nat): nat { if i < |parts| then parts[i] else 0 }

  /** The leftmost numeric difference decides. */
  ghost predicate PartsLess(a: seq<nat>, b: seq<nat>) {
    exists i: nat :: PartsLessAt(a, b, i)
  }

  ghost predicate PartsLessAt(a: seq<nat>, b: seq<nat>, i: nat) {
    PartAt(a, i) < PartAt(b, i) && forall j: nat :: j < i ==> PartAt(a, j) == PartAt(b, j)
  }

  ghost predicate PartsSame(a: seq<nat>, b: seq<nat>) {
    forall i: nat :: PartAt(a, i) == PartAt(b, i)
  }

  predicate TextLess(a: string, b: string) { TextLe(a, b) && a != b }

  /** Numeric identifiers compare numerically, alphanumeric ones by code point, and numeric ones are lower. */
  predicate IdentLess(a: Ident, b: Ident) {
    match (a, b)
    case (Num(m), Num(n)) => m < n
    case (Num(_), Alnum(_)) => true
    case (Alnum(_), Num(_)) => false
    case (Alnum(s), Alnum(t)) => TextLess(s, t)
  }

  /** The leftmost differing identifier decides; if there is none, the longer list is higher. */
  ghost predicate IdentsLess(a: seq<Ident>, b: seq<Ident>) {
    exists i: nat :: IdentsLessAt(a, b, i)
  }

  ghost predicate IdentsLessAt(a: seq<Ident>, b: seq<Ident>, i: nat) {
    && i <= |a| && i < |b| && a[..i] == b[..i]
    && (i < |a| ==> IdentLess(a[i], b[i]))
  }

  /** A pre-release is lower than the release itself. */
  ghost predicate PreLess(a: Option<seq<Ident>>, b: Option<seq<Ident>>) {
    a.Some? && (b.None? || IdentsLess(a.value, b.value))
  }

  ghost predicate Precedes(a: Version, b: Version) {
    PartsLess(a.parts, b.parts) || (PartsSame(a.parts, b.parts) && PreLess(a.pre, b.pre))
  }

  ghost predicate Equivalent(a: Version, b: Version) {
    PartsSame(a.parts, b.parts) && a.pre == b.pre
  }

  // ----- the comparison

  method ComparePre(a: seq<Ident>, b: seq<Ident>) returns (r: int)
    ensures r == -1 || r == 0 || r == 1
    ensures r == -1 ==> IdentsLess(a, b)
    ensures r == 1 ==> IdentsLess(b, a)
    ensures r == 0 ==> a == b
  {
    var length := if |a| > |b| then |a| else |b|;
    for i := 0 to length
      invariant i <= |a| && i <= |b| && a[..i] == b[..i]
    {
      var p1 := if i < |a| then Some(a[i]) else None;
      var p2 := if i < |b| then Some(b[i]) else None;
      if p1.None? && p2.Some? {
        assert IdentsLessAt(a, b, i);
        return -1;
      }
      if p1.Some? && p2.None? {
        assert IdentsLessAt(b, a, i);
        return 1;
      }
      var x, y := p1.value, p2.value;
      if x.Num? && y.Alnum? {
        assert IdentsLessAt(a, b, i);
        return -1;
      }
      if x.Alnum? && y.Num? {
        assert IdentsLessAt(b, a, i);
        return 1;
      }
      if x.Num? && y.Num? {
        if x.n > y.n {
          assert IdentsLessAt(b, a, i);
          return 1;
        }
        if x.n < y.n {
          assert IdentsLessAt(a, b, i);
          return -1;
        }
      } else {
        TextLeTotal(x.text, y.text);
        if TextLess(y.text, x.text) {
          assert IdentsLessAt(b, a, i);
          return 1;
        }
        if TextLess(x.text, y.text) {
          assert IdentsLessAt(a, b, i);
          return -1;
        }
      }
    }
    assert a[..|a|] == a && b[..|b|] == b;
    return 0;
  }

  function Zeros(n: nat): seq<nat> { seq(n, _ => 0) }

  /** 1, -1 or 0, as the first version is higher, lower or neither. */
  method CompareParsed(v1: Version, v2: Version) returns (r: int)
    ensures r == -1 || r == 0 || r == 1
    ensures r == -1 <==> Precedes(v1, v2)
    ensures r == 1 <==> Precedes(v2, v1)
    ensures r == 0 <==> Equivalent(v1, v2)
  {
    var length := if |v1.parts| > |v2.parts| then |v1.parts| else |v2.parts|;
    var parts1 := v1.parts + Zeros(length - |v1.parts|);
    var parts2 := v2.parts + Zeros(length - |v2.parts|);
    Trichotomy(v1, v2);
    for i := 0 to length
      invariant forall j: nat :: j < i ==> PartAt(v1.parts, j) == PartAt(v2.parts, j)
    {
      assert parts1[i] == PartAt(v1.parts, i) && parts2[i] == PartAt(v2.parts, i);
      if parts1[i] > parts2[i] {
        assert PartsLessAt(v2.parts, v1.parts, i);
        return 1;
      }
      if parts1[i] < parts2[i] {
        assert PartsLessAt(v1.parts, v2.parts, i);
        return -1;
      }
    }
    assert PartsSame(v1.parts, v2.parts);
    hide PartsSame, PartsLess;
    PartsSameBack(v1.parts, v2.parts);
    if v1.pre.None? && v2.pre.Some? {
      return 1;
    }
    if v1.pre.Some? && v2.pre.None? {
      return -1;
    }
    if v1.pre.Some? && v2.pre.Some? {
      r := ComparePre(v1.pre.value, v2.pre.value);
      return;
    }
    return 0;
  }

  lemma PartsSameBack(a: seq<nat>, b: seq<nat>)
    requires PartsSame(a, b)
    ensures PartsSame(b, a)
  {
  }

  // ----- precedence is an order

  lemma {:induction false} TextLeAntisymmetric(a: string, b: string)
    requires TextLe(a, b) && TextLe(b, a)
    ensures a == b
  {
    if a != [] {
      TextLeAntisymmetric(a[1..], b[1..]);
    }
  }

  lemma IdentTrichotomy(a: Ident, b: Ident)
    ensures a == b || IdentLess(a, b) || IdentLess(b, a)
    ensures !(IdentLess(a, b) && IdentLess(b, a)) && !IdentLess(a, a)
  {
    if a.Alnum? && b.Alnum? {
      TextLeTotal(a.text, b.text);
      if TextLe(a.text, b.text) && TextLe(b.text, a.text) {
        TextLeAntisymmetric(a.text, b.text);
      }
    }
  }

  lemma IdentTransitive(a: Ident, b: Ident, c: Ident)
    requires IdentLess(a, b) && IdentLess(b, c)
    ensures IdentLess(a, c)
  {
    if a.Alnum? && b.Alnum? && c.Alnum? {
      TextLeTransitive(a.text, b.text, c.text);
      if a == c {
        TextLeAntisymmetric(a.text, b.text);
      }
    }
  }

  lemma IdentsAsymmetric(a: seq<Ident>, b: seq<Ident>)
    requires IdentsLess(a, b)
    ensures !IdentsLess(b, a) && a != b
  {
    var i: nat :| IdentsLessAt(a, b, i);
    if i < |a| {
      IdentTrichotomy(a[i], b[i]);
    }
    forall j: nat
      ensures !IdentsLessAt(b, a, j)
    {
      NotBothLess(a, b, i, j);
    }
  }

  lemma NotBothLess(a: seq<Ident>, b: seq<Ident>, i: nat, j: nat)
    requires IdentsLessAt(a, b, i)
    ensures !IdentsLessAt(b, a, j)
  {
    forall k | 0 <= k < |a| && k < |b|
      ensures !(IdentLess(a[k], b[k]) && IdentLess(b[k], a[k])) && (a[k] == b[k] ==> !IdentLess(a[k], b[k]))
      ensures k < i ==> a[k] == b[k]
    {
      IdentTrichotomy(a[k], b[k]);
      assert k < i ==> a[..i][k] == b[..i][k];
    }
    forall m: nat, k: nat | k < m <= |a| && m <= |b| && a[..m] == b[..m]
      ensures a[k] == b[k]
    {
      assert a[..m][k] == b[..m][k];
    }
  }

  lemma IdentsTransitive(a: seq<Ident>, b: seq<Ident>, c: seq<Ident>)
    requires IdentsLess(a, b) && IdentsLess(b, c)
    ensures IdentsLess(a, c)
  {
    var i: nat :| IdentsLessAt(a, b, i);
    var j: nat :| IdentsLessAt(b, c, j);
    var k := if i < j then i else j;
    assert a[..k] == a[..i][..k] && b[..k] == b[..i][..k] && b[..k] == b[..j][..k] && c[..k] == c[..j][..k];
    if i < j {
      assert c[i] == c[..j][i] == b[..j][i] == b[i];
    } else if j < i {
      assert a[j] == a[..i][j] == b[..i][j] == b[j];
    } else if i < |a| {
      IdentTransitive(a[i], b[i], c[i]);
    }
    assert IdentsLessAt(a, c, k);
  }

  lemma PartsTrichotomy(a: seq<nat>, b: seq<nat>)
    ensures PartsSame(a, b) || PartsLess(a, b) || PartsLess(b, a)
    ensures !(PartsLess(a, b) && PartsLess(b, a)) && !(PartsSame(a, b) && PartsLess(a, b)) && !(PartsSame(a, b) && PartsLess(b, a))
  {
    var i := 0;
    while i < |a| || i < |b|
      invariant forall j: nat :: j < i ==> PartAt(a, j) == PartAt(b, j)
      decreases |a| + |b| - i
    {
      if PartAt(a, i) != PartAt(b, i) {
        assert PartsLessAt(a, b, i) || PartsLessAt(b, a, i);
        break;
      }
      i := i + 1;
    }
    forall m: nat, n: nat | PartsLessAt(a, b, m)
      ensures !PartsLessAt(b, a, n)
    {
      assert m < n ==> PartAt(a, m) < PartAt(b, m);
      assert n < m ==> PartAt(a, n) == PartAt(b, n);
    }
  }

  lemma PartsTransitive(a: seq<nat>, b: seq<nat>, c: seq<nat>)
    requires PartsLess(a, b) && PartsLess(b, c)
    ensures PartsLess(a, c)
  {
    var i: nat :| PartsLessAt(a, b, i);
    var j: nat :| PartsLessAt(b, c, j);
    assert PartsLessAt(a, c, if i < j then i else j);
  }

  /** Exactly one of lower, higher and equivalent holds. */
  lemma Trichotomy(a: Version, b: Version)
    ensures Precedes(a, b) || Precedes(b, a) || Equivalent(a, b)
    ensures !(Precedes(a, b) && Precedes(b, a)) && !(Equivalent(a, b) && Precedes(a, b)) && !(Equivalent(a, b) && Precedes(b, a))
  {
    PartsTrichotomy(a.parts, b.parts);
    if a.pre.Some? && b.pre.Some? {
      IdentsTrichotomy(a.pre.value, b.pre.value);
    }
  }

  lemma IdentsTrichotomy(a: seq<Ident>, b: seq<Ident>)
    ensures a == b || IdentsLess(a, b) || IdentsLess(b, a)
    ensures !(IdentsLess(a, b) && IdentsLess(b, a)) && (a == b ==> !IdentsLess(a, b))
  {
    var i := 0;
    while i < |a| && i < |b| && a[i] == b[i]
      invariant i <= |a| && i <= |b| && a[..i] == b[..i]
    {
      i := i + 1;
    }
    if i < |a| && i < |b| {
      IdentTrichotomy(a[i], b[i]);
      assert IdentsLessAt(a, b, i) || IdentsLessAt(b, a, i);
    } else if i < |b| {
      assert IdentsLessAt(a, b, i);
    } else if i < |a| {
      assert IdentsLessAt(b, a, i);
    } else {
      assert a == a[..i] && b == b[..i];
    }
    if IdentsLess(a, b) {
      IdentsAsymmetric(a, b);
    }
  }

  /** Lower is transitive, and equivalent versions are interchangeable. */
  lemma PrecedesTransitive(a: Version, b: Version, c: Version)
    requires (Precedes(a, b) || Equivalent(a, b)) && (Precedes(b, c) || Equivalent(b, c))
    ensures Precedes(a, c) || Equivalent(a, c)
    ensures Precedes(a, b) || Precedes(b, c) ==> Precedes(a, c)
  {
    PartsCompose(a.parts, b.parts, c.parts);
    hide PartsLess, PartsSame, IdentsLess;
    if a.pre.Some? && b.pre.Some? && c.pre.Some? && PreLess(a.pre, b.pre) && PreLess(b.pre, c.pre) {
      IdentsTransitive(a.pre.value, b.pre.value, c.pre.value);
    }
  }

  lemma PartsCompose(a: seq<nat>, b: seq<nat>, c: seq<nat>)
    ensures PartsSame(a, b) && PartsSame(b, c) ==> PartsSame(a, c)
    ensures (PartsLess(a, b) || PartsSame(a, b)) && (PartsLess(b, c) || PartsSame(b, c)) && (PartsLess(a, b) || PartsLess(b, c)) ==>
      PartsLess(a, c)
  {
    if PartsLess(a, b) && PartsLess(b, c) {
      PartsTransitive(a, b, c);
    } else if PartsLess(a, b) && PartsSame(b, c) {
      var i: nat :| PartsLessAt(a, b, i);
      assert PartsLessAt(a, c, i);
    } else if PartsSame(a, b) && PartsLess(b, c) {
      var i: nat :| PartsLessAt(b, c, i);
      assert PartsLessAt(a, c, i);
    }
  }

  /** Equivalent versions are those with the same numbers up to trailing zeros and the same
      pre-release. */
  function Trimmed(parts: seq<nat>): seq<nat> {
    if parts != [] && parts[|parts| - 1] == 0 then Trimmed(parts[..|parts| - 1]) else parts
  }

  lemma {:induction false} TrimmedSame(parts: seq<nat>)
    ensures PartsSame(Trimmed(parts), parts)
    ensures Trimmed(parts) != [] ==> Trimmed(parts)[|Trimmed(parts)| - 1] != 0
  {
    if parts != [] && parts[|parts| - 1] == 0 {
      var front := parts[..|parts| - 1];
      TrimmedSame(front);
      assert forall i: nat :: PartAt(parts, i) == PartAt(front, i);
    }
  }

  lemma EquivalentExactly(a: Version, b: Version)
    ensures Equivalent(a, b) <==> Trimmed(a.parts) == Trimmed(b.parts) && a.pre == b.pre
  {
    TrimmedSame(a.parts);
    TrimmedSame(b.parts);
    var s, t := Trimmed(a.parts), Trimmed(b.parts);
    assert s == t ==> forall i: nat :: PartAt(a.parts, i) == PartAt(s, i) == PartAt(b.parts, i);
    if PartsSame(a.parts, b.parts) {
      assert forall i: nat :: PartAt(s, i) == PartAt(a.parts, i) == PartAt(b.parts, i) == PartAt(t, i);
      SameLength(s, t);
      SameLength(t, s);
      assert forall i: nat :: i < |s| ==> s[i] == PartAt(s, i) == PartAt(t, i) == t[i];
    }
  }

  lemma SameLength(s: seq<nat>, t: seq<nat>)
    requires PartsSame(s, t)
    requires s != [] ==> s[|s| - 1] != 0
    ensures |s| <= |t|
  {
    assert s != [] ==> PartAt(t, |s| - 1) == PartAt(s, |s| - 1) != 0;
  }
}
