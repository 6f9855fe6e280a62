/** Reading a version from its text (astrbot/cli/utils/version_comparator.py), with the version grammar
    written out by hand: dotted numbers, an optional pre-release after '-', optional build metadata
    after '+', and one line break tolerated at the very end. */
module VersionText {
  import opened Selections
  import opened VersionComparator
  import opened Wrappers

  // ----- text

  function Lower(c: char): char { if 'A' <= c <= 'Z' then (c as int + 32) as char else c }

  /** Lower case, every letter v removed. */
  function Clean(s: string): string {
    if s == [] then [] else (if Lower(s[0]) == 'v' then [] else [Lower(s[0])]) + Clean(s[1..])
  }

  /** The text before the first c, or all of it. */
  function Before(s: string, c: char): (r: string)
    ensures c !in r && |r| <= |s|
  {
    if s == [] || s[0] == c then [] else [s[0]] + Before(s[1..], c)
  }

  /** The text after the first c, if there is one. */
  function After(s: string, c: char): (r: Option<string>)
    ensures r.Some? <==> c in s
    ensures r.Some? ==> |r.value| < |s|
  {
    if s == [] then None else if s[0] == c then Some(s[1..]) else After(s[1..], c)
  }

  function Split(s: string, c: char): (r: seq<string>)
    ensures r != []
    decreases |s|
  {
    match After(s, c)
    case None => [s]
    case Some(rest) => [Before(s, c)] + Split(rest, c)
  }

  function Join(texts: seq<string>, c: char): string
    requires texts != []
  {
    if |texts| == 1 then texts[0] else texts[0] + [c] + Join(texts[1..], c)
  }

  predicate Digit(c: char) { '0' <= c <= '9' }

  predicate Digits(s: string) { s != [] && forall i :: 0 <= i < |s| ==> Digit(s[i]) }

  predicate IdentChar(c: char) { Digit(c) || 'a' <= c <= 'z' || 'A' <= c <= 'Z' || c == '-' }

  lemma CharsAre(c: char)
    ensures Digit(c) <==> c in {'0', '1', '2', '3', '4', '5', '6', '7', '8', '9'}
    ensures IdentChar(c) <==> c in {
      '0', '1', '2', '3', '4', '5', '6', '7', '8', '9',
      'a', 'b', 'c', 'd', 'e', 'f', 'g', 'h', 'i', 'j', 'k', 'l', 'm', 'n', 'o', 'p', 'q', 'r', 's', 't', 'u', 'v', 'w', 'x', 'y', 'z',
      'A', 'B', 'C', 'D', 'E', 'F', 'G', 'H', 'I', 'J', 'K', 'L', 'M',
      'N', 'O', 'P', 'Q', 'R', 'S', 'T', 'U', 'V', 'W', 'X', 'Y', 'Z', '-' }
  {
  }

  predicate IdentText(s: string) { s != [] && forall i :: 0 <= i < |s| ==> IdentChar(s[i]) }

  function ToNat(s: string): nat
    requires s == [] || Digits(s)
  {
    if s == [] then 0 else
      assert Digit(s[|s| - 1]);
      10 * ToNat(s[..|s| - 1]) + (s[|s| - 1] as int - '0' as int)
  }

  // ----- the grammar

  function Body(s: string): string { if s != [] && s[|s| - 1] == '\n' then s[..|s| - 1] else s }

  function Core(s: string): string { Before(Before(Body(s), '+'), '-') }

  function PreText(s: string): Option<string> { After(Before(Body(s), '+'), '-') }

  predicate CoreOk(core: string) {
    var texts := Split(core, '.');
    forall i :: 0 <= i < |texts| ==> Digits(texts[i])
  }

  predicate PreOk(pre: Option<string>) {
    pre.Some? ==> var texts := Split(pre.value, '.'); forall i :: 0 <= i < |texts| ==> IdentText(texts[i])
  }

  predicate BuildOk(build: Option<string>) {
    build.Some? ==> build.value != [] && '\n' !in build.value
  }

  predicate Readable(s: string) {
    CoreOk(Core(s)) && PreOk(PreText(s)) && BuildOk(After(Body(s), '+'))
  }

  function Numbers(texts: seq<string>): (r: seq<nat>)
    requires forall i :: 0 <= i < |texts| ==> Digits(texts[i])
  {
    seq(|texts|, i requires 0 <= i < |texts| => ToNat(texts[i]))
  }

  function IdentOf(text: string): Ident { if Digits(text) then Num(ToNat(text)) else Alnum(text) }

  function Idents(texts: seq<string>): seq<Ident> {
    seq(|texts|, i requires 0 <= i < |texts| => IdentOf(texts[i]))
  }

  function PreOf(pre: Option<string>): Option<seq<Ident>> {
    if pre.None? || pre.value == [] then None else Some(Idents(Split(pre.value, '.')))
  }

  /** Unreadable text counts as no numbers and no pre-release. */
  function Parse(s: string): Version {
    if Readable(s) then Version(Numbers(Split(Core(s), '.')), PreOf(PreText(s))) else Version([], None)
  }

  /** What the comparison makes of a version text. */
  function Read(s: string): Version { Parse(Clean(s)) }

  // ----- the comparison of texts

  method SplitPrerelease(prerelease: Option<string>) returns (result: Option<seq<Ident>>)
    ensures result == PreOf(prerelease)
  {
    if prerelease.None? || prerelease.value == [] {
      return None;
    }
    var parts := Split(prerelease.value, '.');
    var idents := [];
    for i := 0 to |parts|
      invariant idents == Idents(parts[..i])
    {
      idents := idents + [IdentOf(parts[i])];
    }
    assert parts[..|parts|] == parts;
    return Some(idents);
  }

  method SplitVersion(version: string) returns (parsed: Version)
    ensures parsed == Parse(version)
  {
    if !Readable(version) {
      return Version([], None);
    }
    var prerelease := SplitPrerelease(PreText(version));
    return Version(Numbers(Split(Core(version), '.')), prerelease);
  }

  /** 1, -1 or 0, as the first version is higher, lower or neither, whatever the two texts are. */
  method CompareVersion(v1: string, v2: string) returns (r: int)
    ensures r == -1 || r == 0 || r == 1
    ensures r == -1 <==> Precedes(Read(v1), Read(v2))
    ensures r == 1 <==> Precedes(Read(v2), Read(v1))
    ensures r == 0 <==> Equivalent(Read(v1), Read(v2))
  {
    var p1 := SplitVersion(Clean(v1));
    var p2 := SplitVersion(Clean(v2));
    r := CompareParsed(p1, p2);
  }

  // ----- laws of cutting and joining

  lemma {:induction false} CutSkips(a: string, b: string, c: char)
    requires c !in a
    ensures Before(a + b, c) == a + Before(b, c) && After(a + b, c) == After(b, c)
  {
    hide Before, After;
    if a == [] {
      assert a + b == b;
    } else {
      CutSkips(a[1..], b, c);
      assert (a + b)[1..] == a[1..] + b;
      CutStep(a + b, c);
      assert [a[0]] + (a[1..] + Before(b, c)) == a + Before(b, c);
    }
  }

  lemma CutStep(s: string, c: char)
    requires s != [] && s[0] != c
    ensures Before(s, c) == [s[0]] + Before(s[1..], c) && After(s, c) == After(s[1..], c)
  {
  }

  lemma {:induction false} CutWhole(s: string, c: char)
    requires c !in s
    ensures Before(s, c) == s && After(s, c) == None
  {
    CutSkips(s, [], c);
    assert s + [] == s;
  }

  lemma CutAt(a: string, b: string, c: char)
    requires c !in a
    ensures Before(a + [c] + b, c) == a && After(a + [c] + b, c) == Some(b)
  {
    CutSkips(a, [c] + b, c);
    assert a + [c] + b == a + ([c] + b) && ([c] + b)[1..] == b;
    assert Before([c] + b, c) == [] && a + [] == a;
  }

  lemma {:induction false} SplitJoin(texts: seq<string>, c: char)
    requires texts != [] && forall i :: 0 <= i < |texts| ==> c !in texts[i]
    ensures Split(Join(texts, c), c) == texts
  {
    if |texts| == 1 {
      CutWhole(texts[0], c);
    } else {
      SplitJoin(texts[1..], c);
      CutAt(texts[0], Join(texts[1..], c), c);
      assert Join(texts, c) == texts[0] + [c] + Join(texts[1..], c);
      assert texts == [texts[0]] + texts[1..];
    }
  }

  lemma {:induction false} JoinAvoids(texts: seq<string>, c: char, d: char)
    requires texts != [] && c != d && forall i :: 0 <= i < |texts| ==> d !in texts[i]
    ensures d !in Join(texts, c)
  {
    if |texts| > 1 {
      JoinAvoids(texts[1..], c, d);
    }
  }

  // ----- rendering and the round trip

  function ToText(n: nat): (r: string)
    ensures Digits(r)
  {
    (if n < 10 then [] else ToText(n / 10)) + [('0' as int + n % 10) as char]
  }

  lemma {:induction false} ToNatToText(n: nat)
    ensures ToNat(ToText(n)) == n
  {
    var r := ToText(n);
    if n >= 10 {
      ToNatToText(n / 10);
      assert r[..|r| - 1] == ToText(n / 10);
    } else {
      assert r[..|r| - 1] == [];
    }
  }

  function IdentToText(x: Ident): string { match x case Num(n) => ToText(n) case Alnum(text) => text }

  predicate IdentOk(x: Ident) { x.Alnum? ==> IdentText(x.text) && !Digits(x.text) }

  /** The versions the grammar can express. */
  ghost predicate Renderable(v: Version) {
    && v.parts != []
    && (v.pre.Some? ==> v.pre.value != [])
    && (v.pre.Some? ==> forall i :: 0 <= i < |v.pre.value| ==> IdentOk(v.pre.value[i]))
  }

  function NumberTexts(parts: seq<nat>): (r: seq<string>)
    ensures |r| == |parts| && forall i :: 0 <= i < |r| ==> r[i] == ToText(parts[i])
  {
    seq(|parts|, i requires 0 <= i < |parts| => ToText(parts[i]))
  }

  function IdentTexts(pre: seq<Ident>): (r: seq<string>)
    ensures |r| == |pre| && forall i :: 0 <= i < |r| ==> r[i] == IdentToText(pre[i])
  {
    seq(|pre|, i requires 0 <= i < |pre| => IdentToText(pre[i]))
  }

  function Render(v: Version): string
    requires Renderable(v)
  {
    Join(NumberTexts(v.parts), '.') + if v.pre.None? then "" else "-" + Join(IdentTexts(v.pre.value), '.')
  }

  function Dashed(pre: Option<seq<string>>): string
    requires pre.Some? ==> pre.value != []
  {
    if pre.None? then "" else ['-'] + Join(pre.value, '.')
  }

  function Plussed(build: Option<string>): string { if build.None? then "" else ['+'] + build.value }

  ghost predicate Numeric(texts: seq<string>) {
    texts != [] && forall i :: 0 <= i < |texts| ==> Digits(texts[i])
  }

  ghost predicate Identifying(pre: Option<seq<string>>) {
    pre.Some? ==> (pre.value != [] && forall i :: 0 <= i < |pre.value| ==> IdentText(pre.value[i]))
  }

  lemma {:induction false} JoinNonempty(texts: seq<string>, c: char)
    requires texts != [] && texts[0] != []
    ensures Join(texts, c) != []
  {
  }

  /** A text assembled from dotted numbers, identifiers and build metadata is read as exactly those. */
  lemma ReadPieces(s: string, texts: seq<string>, pre: Option<seq<string>>, build: Option<string>)
    requires Numeric(texts) && Identifying(pre) && BuildOk(build)
    requires Body(s) == Join(texts, '.') + Dashed(pre) + Plussed(build)
    ensures Parse(s) == Version(Numbers(texts), if pre.None? then None else Some(Idents(pre.value)))
    ensures Readable(s) && Core(s) == Join(texts, '.') && (After(Body(s), '+').None? <==> build.None?)
  {
    hide Body, Join, Split, Before, After, Numbers, Idents, BuildOk;
    Cuts(Join(texts, '.'), pre, build) by { PieceChars(texts, pre); }
    SplitJoin(texts, '.') by { PieceChars(texts, pre); }
    if pre.Some? {
      SplitJoin(pre.value, '.') by { PieceChars(texts, pre); }
      JoinNonempty(pre.value, '.');
    }
  }

  lemma PieceChars(texts: seq<string>, pre: Option<seq<string>>)
    requires Numeric(texts) && Identifying(pre)
    ensures forall i :: 0 <= i < |texts| ==> '.' !in texts[i]
    ensures pre.Some? ==> forall i :: 0 <= i < |pre.value| ==> '.' !in pre.value[i]
    ensures '+' !in Join(texts, '.') && '-' !in Join(texts, '.') && '\n' !in Join(texts, '.')
    ensures '+' !in Dashed(pre) && '\n' !in Dashed(pre)
  {
    JoinAvoids(texts, '.', '+');
    JoinAvoids(texts, '.', '-');
    JoinAvoids(texts, '.', '\n');
    if pre.Some? {
      JoinAvoids(pre.value, '.', '+');
      JoinAvoids(pre.value, '.', '\n');
    }
  }

  lemma Cuts(core: string, pre: Option<seq<string>>, build: Option<string>)
    requires '+' !in core && '-' !in core && (pre.Some? ==> pre.value != []) && '+' !in Dashed(pre)
    ensures var body := core + Dashed(pre) + Plussed(build);
      && After(body, '+') == build && Before(Before(body, '+'), '-') == core
      && After(Before(body, '+'), '-') == (if pre.None? then None else Some(Join(pre.value, '.')))
  {
    hide Join, Before, After;
    var head := core + Dashed(pre);
    assert build.Some? ==> head + Plussed(build) == head + ['+'] + build.value;
    assert build.None? ==> head + Plussed(build) == head;
    assert pre.Some? ==> head == core + ['-'] + Join(pre.value, '.');
    assert pre.None? ==> head == core;
    if build.Some? { CutAt(head, build.value, '+'); } else { CutWhole(head, '+'); }
    if pre.Some? { CutAt(core, Join(pre.value, '.'), '-'); } else { CutWhole(core, '-'); }
  }

  lemma RenderPieces(v: Version)
    requires Renderable(v)
    ensures Numeric(NumberTexts(v.parts)) && Numbers(NumberTexts(v.parts)) == v.parts
    ensures Identifying(if v.pre.None? then None else Some(IdentTexts(v.pre.value)))
    ensures v.pre.Some? ==> Idents(IdentTexts(v.pre.value)) == v.pre.value
  {
    forall n: nat
      ensures ToNat(ToText(n)) == n
    {
      ToNatToText(n);
    }
    if v.pre.Some? {
      forall i | 0 <= i < |v.pre.value|
        ensures IdentText(IdentToText(v.pre.value[i])) && IdentOf(IdentToText(v.pre.value[i])) == v.pre.value[i]
      {
      }
    }
  }

  /** Reading a rendered version gives it back, with or without build metadata behind it and with or
      without a line break at the end. */
  lemma RoundTrip(v: Version, build: string)
    requires Renderable(v) && build != [] && '\n' !in build
    ensures Parse(Render(v)) == v
    ensures Parse(Render(v) + "+" + build) == v
    ensures Parse(Render(v) + "\n") == v
  {
    var texts := NumberTexts(v.parts);
    var pre := if v.pre.None? then None else Some(IdentTexts(v.pre.value));
    var text := Join(texts, '.') + Dashed(pre);
    hide *;
    RenderPieces(v);
    PieceChars(texts, pre);
    RenderJoins(v);
    Bodies(text, build);
    ReadPieces(text, texts, pre, None) by { BuildFits(build); }
    ReadPieces(text + "\n", texts, pre, None) by { BuildFits(build); }
    ReadPieces(text + "+" + build, texts, pre, Some(build)) by { BuildFits(build); }
  }

  lemma BuildFits(build: string)
    requires build != [] && '\n' !in build
    ensures BuildOk(Some(build)) && BuildOk(None)
  {
  }

  lemma RenderJoins(v: Version)
    requires Renderable(v)
    ensures var pre := if v.pre.None? then None else Some(IdentTexts(v.pre.value));
      Render(v) == Join(NumberTexts(v.parts), '.') + Dashed(pre)
  {
    hide Join, NumberTexts, IdentTexts;
  }

  lemma Bodies(text: string, build: string)
    requires '\n' !in text && build != [] && '\n' !in build
    ensures Body(text) == text + Plussed(None)
    ensures Body(text + "\n") == text + Plussed(None)
    ensures Body(text + "+" + build) == text + Plussed(Some(build))
  {
    assert (text + "\n")[..|text|] == text == text + Plussed(None);
    assert text + "+" + build == text + Plussed(Some(build));
  }

  // ----- which texts are read, and as what, told on the text

  /** d is c, or its small letter if c is one of the letters A to Z. */
  ghost predicate SmallOf(c: char, d: char) { if 'A' <= c <= 'Z' then d as int - 'a' as int == c as int - 'A' as int else d == c }

  /** The characters that are no letter v, in their order, as small letters. */
  ghost predicate CleanIs(s: string, cleaned: string, at: seq<nat>) {
    && Ascends(at, |s|) && |cleaned| == |at| && (forall i: nat :: i in at <==> i < |s| && s[i] != 'v' && s[i] != 'V')
    && forall k :: 0 <= k < |at| ==> SmallOf(s[at[k]], cleaned[k])
  }

  lemma CleanMore(c: char, rest: string, front: string, cleaned: string, at: seq<nat>)
    requires CleanIs(rest, cleaned, at)
    requires if c == 'v' || c == 'V' then front == [] else |front| == 1 && SmallOf(c, front[0])
    ensures CleanIs([c] + rest, front + cleaned, Behind(c != 'v' && c != 'V', at))
  {
    var keep := c != 'v' && c != 'V';
    var s, all := [c] + rest, Behind(keep, at);
    hide SmallOf, Behind;
    BehindHolds(keep, at, |rest|);
    assert forall i: nat :: 0 < i < |s| ==> s[i] == rest[i - 1];
    forall k: nat | k < |all|
      ensures SmallOf(s[all[k]], (front + cleaned)[k])
    {
      if k >= |front| {
        CleanAt(rest, cleaned, at, k - |front|);
        BehindIs(keep, at, k - |front|);
      }
    }
  }

  lemma CleanAt(s: string, cleaned: string, at: seq<nat>, k: nat)
    requires CleanIs(s, cleaned, at) && k < |at|
    ensures at[k] < |s| && |cleaned| == |at| && SmallOf(s[at[k]], cleaned[k])
  {
    hide SmallOf;
  }

  /** The cleaned text, told on the text. */
  lemma {:induction false} CleanTells(s: string) returns (at: seq<nat>)
    ensures CleanIs(s, Clean(s), at)
  {
    at := [];
    if s != [] {
      var c, rest := s[0], s[1..];
      var later := CleanTells(rest);
      var front := if Lower(c) == 'v' then [] else [Lower(c)];
      assert s == [c] + rest && Clean(s) == front + Clean(rest);
      assert Lower(c) == 'v' <==> c == 'v' || c == 'V';
      assert SmallOf(c, Lower(c));
      at := Behind(c != 'v' && c != 'V', later);
      hide CleanIs, Clean, Lower, SmallOf;
      CleanMore(c, rest, front, Clean(rest), later);
    }
  }

  lemma {:induction false} CutJoins(s: string, c: char)
    ensures s == Before(s, c) + (match After(s, c) case None => [] case Some(rest) => [c] + rest)
  {
    if s != [] && s[0] != c {
      CutJoins(s[1..], c);
      CutStep(s, c);
      assert s == [s[0]] + s[1..];
    }
  }

  lemma {:induction false} SplitJoins(s: string, c: char)
    ensures Join(Split(s, c), c) == s
    ensures forall i :: 0 <= i < |Split(s, c)| ==> c !in Split(s, c)[i]
    decreases |s|
  {
    CutJoins(s, c);
    if After(s, c).Some? {
      var rest := After(s, c).value;
      SplitJoins(rest, c);
      assert Split(s, c)[1..] == Split(rest, c);
      hide Before, After;
    }
  }

  /** The text is made of these pieces, and perhaps a line break at the very end. */
  ghost predicate MadeOf(s: string, texts: seq<string>, pre: Option<seq<string>>, build: Option<string>) {
    && Numeric(texts) && Identifying(pre) && (build.Some? ==> build.value != [] && '\n' !in build.value)
    && var text := Join(texts, '.') + Dashed(pre) + Plussed(build); s == text || s == text + "\n"
  }

  lemma MadeBody(s: string, texts: seq<string>, pre: Option<seq<string>>, build: Option<string>)
    requires MadeOf(s, texts, pre, build)
    ensures Body(s) == Join(texts, '.') + Dashed(pre) + Plussed(build)
  {
    PieceChars(texts, pre);
    var text := Join(texts, '.') + Dashed(pre) + Plussed(build);
    assert '\n' !in text;
    assert (text + "\n")[..|text|] == text;
    hide Join;
  }

  lemma ReadableMade(s: string)
    requires Readable(s)
    ensures MadeOf(s, Split(Core(s), '.'), match PreText(s) case None => None case Some(pre) => Some(Split(pre, '.')), After(Body(s), '+'))
  {
    var head, texts, build := Before(Body(s), '+'), Split(Core(s), '.'), After(Body(s), '+');
    var pre := match PreText(s) case None => None case Some(pre) => Some(Split(pre, '.'));
    assert Numeric(texts) && Identifying(pre) && (build.Some? ==> build.value != [] && '\n' !in build.value);
    assert s == Body(s) || s == Body(s) + "\n";
    SplitJoins(Core(s), '.');
    CutJoins(Body(s), '+');
    CutJoins(head, '-');
    if PreText(s).Some? {
      SplitJoins(PreText(s).value, '.');
    }
    assert head == Join(texts, '.') + Dashed(pre) by { hide Before, After, Split, Join, Body; }
    assert Body(s) == head + Plussed(build) by { hide Before, After, Split, Join, Body; }
    hide *;
    MadeFrom(s, Body(s), texts, pre, build);
  }

  lemma MadeFrom(s: string, body: string, texts: seq<string>, pre: Option<seq<string>>, build: Option<string>)
    requires Numeric(texts) && Identifying(pre) && (build.Some? ==> build.value != [] && '\n' !in build.value)
    requires body == Join(texts, '.') + Dashed(pre) + Plussed(build) && (s == body || s == body + "\n")
    ensures MadeOf(s, texts, pre, build)
  {
  }

  /** A text is read if and only if it is made of dotted numbers, perhaps dotted identifiers behind a dash, and
      perhaps build metadata behind a plus; its numbers and identifiers are then what it is read as, and any
      other text is read as no number at all. */
  lemma ParseExactly(s: string)
    ensures Readable(s) <==> exists texts, pre, build :: MadeOf(s, texts, pre, build)
    ensures forall texts, pre, build :: MadeOf(s, texts, pre, build) ==> ReadAs(s, texts, pre)
    ensures !Readable(s) ==> Parse(s) == Version([], None)
  {
    hide Readable, Parse, Core, PreText, Body, Split, MadeOf, ReadAs;
    if Readable(s) {
      ReadableMade(s);
    }
    forall texts, pre, build | MadeOf(s, texts, pre, build)
      ensures Readable(s) && ReadAs(s, texts, pre)
    {
      MadeReads(s, texts, pre, build);
    }
    NotReadable(s);
  }

  ghost predicate ReadAs(s: string, texts: seq<string>, pre: Option<seq<string>>) {
    Numeric(texts) && Parse(s) == Version(Numbers(texts), if pre.None? then None else Some(Idents(pre.value)))
  }

  lemma MadeReads(s: string, texts: seq<string>, pre: Option<seq<string>>, build: Option<string>)
    requires MadeOf(s, texts, pre, build)
    ensures Readable(s) && ReadAs(s, texts, pre)
  {
    MadeIs(s, texts, pre, build);
    MadeBody(s, texts, pre, build);
    hide Readable, Parse, Body, Numbers, MadeOf;
    ReadPieces(s, texts, pre, build);
  }

  lemma MadeIs(s: string, texts: seq<string>, pre: Option<seq<string>>, build: Option<string>)
    requires MadeOf(s, texts, pre, build)
    ensures Numeric(texts) && Identifying(pre) && BuildOk(build)
  {
  }

  lemma NotReadable(s: string)
    ensures !Readable(s) ==> Parse(s) == Version([], None)
  {
  }
}
