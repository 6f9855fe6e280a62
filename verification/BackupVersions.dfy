/** Whether a backup may be imported (astrbot/core/backup/importer.py): the versions of the backup and of
    the running program are compared by their first two parts, and then as a whole. */
module BackupVersions {
  import opened Selections
  import opened VersionComparator
  import opened VersionCleaning
  import opened VersionText
  import opened Wrappers

  datatype Status = Match | MinorDiff | MajorDiff

  function NonEmpty(texts: seq<string>): seq<string> {
    if texts == [] then [] else (if texts[0] == [] then [] else [texts[0]]) + NonEmpty(texts[1..])
  }

  /** The first two dotted parts of a version text. */
  function MajorOf(s: string): string {
    if s == [] then "0.0" else
      var parts := NonEmpty(Split(Before(Before(Clean(s), '-'), '+'), '.'));
      if |parts| >= 2 then parts[0] + "." + parts[1]
      else if |parts| == 1 then parts[0] + ".0"
      else "0.0"
  }

  ghost predicate CanImport(backup: string, current: string) {
    backup != [] && Equivalent(Read(MajorOf(backup)), Read(MajorOf(current)))
  }

  method CheckVersionCompatibility(backup: string, current: string) returns (status: Status, canImport: bool)
    ensures canImport == (status != MajorDiff)
    ensures canImport <==> CanImport(backup, current)
    ensures canImport ==> (status == Match <==> Equivalent(Read(backup), Read(current)))
  {
    if backup == [] {
      return MajorDiff, false;
    }
    var major := CompareVersion(MajorOf(backup), MajorOf(current));
    if major != 0 {
      return MajorDiff, false;
    }
    var whole := CompareVersion(backup, current);
    if whole != 0 {
      return MinorDiff, true;
    }
    return Match, true;
  }

  // ----- what the first two parts are

  ghost predicate WellFormed(s: string) { Readable(Clean(s)) }

  /** A single number followed by a line break: the one shape whose first two parts cannot be read back. */
  ghost predicate Bare(s: string) {
    var t := Clean(s);
    t != [] && t[|t| - 1] == '\n' && Digits(t[..|t| - 1])
  }

  function FirstTwo(v: Version): (nat, nat) { (PartAt(v.parts, 0), PartAt(v.parts, 1)) }

  lemma {:induction false} CutsCommute(s: string)
    ensures Before(Before(s, '-'), '+') == Before(Before(s, '+'), '-')
  {
    if s != [] {
      CutsCommute(s[1..]);
    }
  }

  lemma {:induction false} CutPrefix(a: string, b: string, c: char)
    requires c in a
    ensures Before(a + b, c) == Before(a, c) && After(a + b, c) == Some(After(a, c).value + b)
  {
    assert (a + b)[0] == a[0] && (a + b)[1..] == a[1..] + b;
    if a[0] != c {
      CutPrefix(a[1..], b, c);
    }
  }

  lemma BeforeBreak(b: string, c: char)
    requires c != '\n'
    ensures Before(b + "\n", c) == if c in b then Before(b, c) else b + "\n"
  {
    if c in b {
      CutPrefix(b, "\n", c);
    } else {
      CutSkips(b, "\n", c);
    }
  }

  /** The text in front of the pre-release and the build metadata, and the line break as well if
      neither is there. */
  lemma HeadIs(b: string)
    ensures Before(Before(b, '-'), '+') == Before(Before(b, '+'), '-')
    ensures Before(Before(b + "\n", '-'), '+') == if '-' in b || '+' in b then Before(Before(b, '+'), '-') else b + "\n"
    ensures '-' !in b && '+' !in b ==> Before(Before(b, '+'), '-') == b
  {
    hide Before;
    CutsCommute(b);
    BeforeBreak(b, '-');
    BeforeBreak(b, '+');
    if '-' !in b {
      CutWhole(b, '-');
    }
    if '+' !in b {
      CutWhole(b, '+');
    }
  }

  lemma {:induction false} SplitLast(s: string, c: char, d: char)
    requires c != d
    ensures var parts := Split(s, c); Split(s + [d], c) == parts[..|parts| - 1] + [parts[|parts| - 1] + [d]]
    decreases |s|
  {
    if c in s {
      var rest := After(s, c).value;
      SplitLast(rest, c, d);
      CutPrefix(s, [d], c);
      var parts := Split(rest, c);
      assert Split(s, c) == [Before(s, c)] + parts;
    } else {
      CutWhole(s, c);
      CutWhole(s + [d], c);
    }
  }

  lemma {:induction false} NothingEmpty(texts: seq<string>)
    requires forall i :: 0 <= i < |texts| ==> texts[i] != []
    ensures NonEmpty(texts) == texts
  {
    if texts != [] {
      NothingEmpty(texts[1..]);
    }
  }

  lemma PairRead(p: string, q: string)
    requires Digits(p) && Digits(q)
    ensures Read(p + "." + q) == Version([ToNat(p), ToNat(q)], None)
    ensures Read(p + "." + q + "\n") == Version([ToNat(p), ToNat(q)], None)
  {
    var text := p + "." + q;
    CleanKeeps(text);
    CleanKeeps(text + "\n");
    JoinPair(p, q);
    hide *;
    assert BuildOk(None) by { BuildFits("b"); }
    Bodies(text, "b");
    ReadPieces(text, [p, q], None, None);
    ReadPieces(text + "\n", [p, q], None, None);
    ReadIs(text);
    ReadIs(text + "\n");
  }

  lemma JoinPair(p: string, q: string)
    requires Digits(p) && Digits(q)
    ensures Numeric([p, q]) && Identifying(None) && Numbers([p, q]) == [ToNat(p), ToNat(q)]
    ensures p + "." + q == Join([p, q], '.') + Dashed(None) && '\n' !in p + "." + q
  {
    assert p + "." + q + [] == p + "." + q;
    assert Join([p, q], '.') == p + ['.'] + q;
  }

  lemma BareRead(p: string)
    requires Digits(p)
    ensures Read(p + "\n" + ".0") == Version([], None)
  {
    var text := p + "\n" + ".0";
    CleanKeeps(text);
    BareUnreadable(p, text);
    hide *;
    assert Read(text) == Parse(Clean(text)) by { ReadIs(text); }
    assert Parse(text) == Version([], None) by { UnreadableParse(text); }
  }

  lemma ReadIs(s: string)
    ensures Read(s) == Parse(Clean(s))
  {
  }

  lemma UnreadableParse(s: string)
    requires !Readable(s)
    ensures Parse(s) == Version([], None)
  {
  }

  lemma BareUnreadable(p: string, text: string)
    requires Digits(p) && text == p + "\n" + ".0"
    ensures !Readable(text)
  {
    hide Before, After, Split;
    CutWhole(text, '+');
    CutWhole(text, '-');
    assert Core(text) == text;
    FirstPiece(p + "\n", "0", text);
    assert !Digit((p + "\n")[|p|]);
  }

  lemma FirstPiece(a: string, b: string, text: string)
    requires '.' !in a && text == a + "." + b
    ensures Split(text, '.')[0] == a
  {
    CutAt(a, b, '.');
  }

  /** The two halves of MajorOf's last line, for a readable core. */
  lemma MajorFrom(s: string, texts: seq<string>)
    requires s != [] && texts != [] && forall i :: 0 <= i < |texts| ==> texts[i] != []
    requires Split(Before(Before(Clean(s), '-'), '+'), '.') == texts
    ensures MajorOf(s) == texts[0] + "." + if |texts| >= 2 then texts[1] else "0"
  {
    NothingEmpty(texts);
    assert texts[0] + ".0" == texts[0] + "." + "0";
  }

  function Texts(s: string): (r: seq<string>)
    ensures r != []
  {
    Split(Core(Clean(s)), '.')
  }

  lemma CoreNumbers(s: string)
    requires WellFormed(s)
    ensures s != [] && Numeric(Texts(s))
    ensures FirstTwo(Read(s)) == (ToNat(Texts(s)[0]), if |Texts(s)| >= 2 then ToNat(Texts(s)[1]) else 0)
  {
    hide Split, PreOk, BuildOk, PreOf, PreText, After;
    EmptyUnreadable();
    hide Clean, Before, Body;
  }

  lemma EmptyUnreadable()
    ensures !Readable(Clean(""))
  {
    assert Split(Core(""), '.')[0] == "";
  }

  ghost predicate HasBreak(s: string) { Clean(s) == Body(Clean(s)) + "\n" }

  lemma BreakOrNot(s: string)
    ensures HasBreak(s) || Clean(s) == Body(Clean(s))
    ensures Bare(s) ==> HasBreak(s) && Digits(Body(Clean(s)))
  {
  }

  lemma MajorPlain(s: string)
    requires WellFormed(s)
    requires !HasBreak(s) || '-' in Body(Clean(s)) || '+' in Body(Clean(s))
    ensures Read(MajorOf(s)) == Version([FirstTwo(Read(s)).0, FirstTwo(Read(s)).1], None) && !Bare(s)
  {
    hide Bare, Before, Split, MajorOf, Clean, Body, Read, WellFormed, FirstTwo;
    BreakOrNot(s);
    HeadIs(Body(Clean(s)));
    CoreNumbers(s);
    var texts := Texts(s);
    MajorFrom(s, texts);
    PairRead(texts[0], if |texts| >= 2 then texts[1] else "0");
    assert ToNat("0") == 0;
  }

  lemma MajorBroken(s: string)
    requires WellFormed(s)
    requires HasBreak(s) && '-' !in Body(Clean(s)) && '+' !in Body(Clean(s))
    ensures Read(MajorOf(s)) ==
            if Bare(s) then Version([], None) else Version([FirstTwo(Read(s)).0, FirstTwo(Read(s)).1], None)
  {
    hide Bare, Before, Split, MajorOf, Clean, Body, Read, WellFormed, FirstTwo;
    BreakOrNot(s);
    HeadIs(Body(Clean(s)));
    CoreNumbers(s);
    var texts := Texts(s);
    SplitLast(Body(Clean(s)), '.', '\n');
    var last := texts[|texts| - 1] + "\n";
    MajorFrom(s, texts[..|texts| - 1] + [last]);
    BareExactly(s);
    if |texts| == 1 {
      BareRead(texts[0]);
      assert texts[0] + "\n" + ".0" == last + "." + "0";
    } else {
      PairRead(texts[0], texts[1]);
      assert texts[0] + "." + texts[1] + "\n" == texts[0] + "." + (texts[1] + "\n");
    }
  }

  lemma BareExactly(s: string)
    requires WellFormed(s) && HasBreak(s) && '-' !in Body(Clean(s)) && '+' !in Body(Clean(s))
    ensures Bare(s) <==> |Texts(s)| == 1
  {
    hide Before, Clean;
    var b := Body(Clean(s));
    HeadIs(b);
    CoreNumbers(s);
  }

  lemma MajorRead(s: string)
    requires WellFormed(s)
    ensures s != []
    ensures Read(MajorOf(s)) ==
            if Bare(s) then Version([], None) else Version([FirstTwo(Read(s)).0, FirstTwo(Read(s)).1], None)
  {
    hide *;
    CoreNumbers(s);
    if HasBreak(s) && '-' !in Body(Clean(s)) && '+' !in Body(Clean(s)) {
      MajorBroken(s);
    } else {
      MajorPlain(s);
    }
  }

  lemma PairsEquivalent(m: nat, n: nat, k: nat, l: nat)
    ensures Equivalent(Version([m, n], None), Version([k, l], None)) <==> m == k && n == l
    ensures Equivalent(Version([], None), Version([k, l], None)) <==> k == 0 && l == 0
    ensures Equivalent(Version([m, n], None), Version([], None)) <==> m == 0 && n == 0
    ensures Equivalent(Version([], None), Version([], None))
  {
    var v, w, none := Version([m, n], None), Version([k, l], None), Version([], None);
    assert PartAt(v.parts, 0) == m && PartAt(v.parts, 1) == n && PartAt(w.parts, 0) == k && PartAt(w.parts, 1) == l;
    assert PartsSame(v.parts, w.parts) ==> PartAt(v.parts, 0) == PartAt(w.parts, 0) && PartAt(v.parts, 1) == PartAt(w.parts, 1);
    assert PartsSame(none.parts, w.parts) ==> PartAt(none.parts, 0) == PartAt(w.parts, 0) && PartAt(none.parts, 1) == PartAt(w.parts, 1);
    assert PartsSame(v.parts, none.parts) ==> PartAt(v.parts, 0) == PartAt(none.parts, 0) && PartAt(v.parts, 1) == PartAt(none.parts, 1);
  }

  // ----- when an import is allowed

  /** The two numbers that are compared: a bare version counts as 0.0. */
  ghost function Compared(s: string): (nat, nat) { if Bare(s) then (0, 0) else FirstTwo(Read(s)) }

  /** Between well-formed versions an import is allowed if and only if the first two parts agree, missing
      parts counting as zero, and those of a bare version counting as zero whatever it states. */
  lemma ImportExactly(backup: string, current: string)
    requires WellFormed(backup) && WellFormed(current)
    ensures CanImport(backup, current) <==> Compared(backup) == Compared(current)
  {
    hide Read, WellFormed, Bare, MajorOf, Equivalent, FirstTwo;
    MajorRead(backup);
    MajorRead(current);
    var b, c := FirstTwo(Read(backup)), FirstTwo(Read(current));
    PairsEquivalent(b.0, b.1, c.0, c.1);
  }

  /** The rule of the first two parts is kept except for exactly these: two bare versions that state different
      numbers, and a bare version other than zero against n.0, where n is the number it states, or 0.0. */
  lemma RuleKeptExactly(backup: string, current: string)
    requires WellFormed(backup) && WellFormed(current)
    ensures var (b, c) := (FirstTwo(Read(backup)), FirstTwo(Read(current)));
      (CanImport(backup, current) <==> b == c)
      <==> if Bare(backup) && Bare(current) then b == c
           else if Bare(backup) then b == (0, 0) || (c != (0, 0) && c != b)
           else if Bare(current) then c == (0, 0) || (b != (0, 0) && b != c)
           else true
  {
    hide *;
    ImportExactly(backup, current);
    ComparedIs(backup);
    ComparedIs(current);
  }

  lemma ComparedIs(s: string)
    ensures Compared(s) == if Bare(s) then (0, 0) else FirstTwo(Read(s))
  {
  }

  /** The backup version 4 with a line break is turned away by the running version 4.0. */
  lemma BareTurnedAway()
    ensures WellFormed("4\n") && Bare("4\n") && WellFormed("4.0") && !Bare("4.0")
    ensures FirstTwo(Read("4\n")) == FirstTwo(Read("4.0")) == (4, 0) && !CanImport("4\n", "4.0")
  {
    BareExample();
    PlainExample();
    hide *;
    RuleKeptExactly("4\n", "4.0");
  }

  lemma BareExample()
    ensures WellFormed("4\n") && Bare("4\n") && FirstTwo(Read("4\n")) == (4, 0)
  {
    CleanKeeps("4\n");
    BuildFits("b");
    assert "4\n"[..1] == "4" && Digits("4") && ToNat("4") == 4;
    hide Clean, Before, After, Split, Readable, Core, PreText;
    assert Join(["4"], '.') == "4" && "4" + Dashed(None) + Plussed(None) == "4";
    ReadPieces("4\n", ["4"], None, None);
    assert Numbers(["4"]) == [4];
  }

  lemma PairWellFormed(p: string, q: string)
    requires Digits(p) && Digits(q)
    ensures Readable(p + "." + q)
  {
    var text := p + "." + q;
    JoinPair(p, q);
    hide *;
    assert BuildOk(None) by { BuildFits("b"); }
    Bodies(text, "b");
    ReadPieces(text, [p, q], None, None);
  }

  lemma PlainExample()
    ensures WellFormed("4.0") && !Bare("4.0") && FirstTwo(Read("4.0")) == (4, 0)
  {
    CleanKeeps("4.0");
    assert Digits("4") && Digits("0") && ToNat("4") == 4 && ToNat("0") == 0;
    hide Clean, Read, Readable;
    assert "4" + "." + "0" == "4.0";
    PairRead("4", "0");
    PairWellFormed("4", "0");
  }

  /** A backup stating a version equivalent to the running one is let through if and only if both or neither of
      the two are bare, or they state 0.0. */
  lemma WholeVersionDecides(backup: string, current: string)
    requires WellFormed(backup) && WellFormed(current)
    requires Equivalent(Read(backup), Read(current))
    ensures CanImport(backup, current) <==> (Bare(backup) <==> Bare(current)) || FirstTwo(Read(backup)) == (0, 0)
  {
    hide Read, WellFormed, Bare, CanImport;
    ImportExactly(backup, current);
    assert forall i: nat :: PartAt(Read(backup).parts, i) == PartAt(Read(current).parts, i);
  }

  // ----- any two texts

  function Chomped(q: string): string { if q != [] && q[|q| - 1] == '\n' then q[..|q| - 1] else q }

  /** The numbers of two dotted pieces; both must be numbers, the second perhaps with a line break behind it, or
      neither counts. */
  function NumbersOf(p: string, q: string): (nat, nat) {
    if Digits(p) && Digits(Chomped(q)) then (ToNat(p), ToNat(Chomped(q))) else (0, 0)
  }

  /** What is compared of a text, well-formed or not: its first two dotted pieces that are not empty, in front
      of a dash or a plus, a missing one counting as 0. */
  function Told(s: string): (nat, nat) {
    var parts := NonEmpty(Split(Before(Before(Clean(s), '-'), '+'), '.'));
    if |parts| == 0 then (0, 0) else NumbersOf(parts[0], if |parts| == 1 then "0" else parts[1])
  }

  /** Such a piece: without the three separators, and already clean. */
  ghost predicate Piece(p: string) { p != [] && '.' !in p && '-' !in p && '+' !in p && Clean(p) == p }

  lemma {:induction false} NonEmptyTells(texts: seq<string>) returns (at: seq<nat>)
    ensures Picked(texts, NonEmpty(texts), at)
    ensures forall i: nat :: i in at <==> i < |texts| && texts[i] != []
  {
    at := [];
    if texts != [] {
      var first, rest := texts[0], texts[1..];
      var later := NonEmptyTells(rest);
      assert texts == [first] + rest && forall i :: 0 <= i < |rest| ==> rest[i] == texts[i + 1];
      at := Behind(first != [], later);
      PickedAscends(rest, NonEmpty(rest), later);
      PickedBehind(first, rest, NonEmpty(rest), later, first != []);
      BehindHolds(first != [], later, |rest|);
      assert NonEmpty(texts) == (if first != [] then [first] else []) + NonEmpty(rest);
      hide Picked, Behind;
    }
  }

  lemma {:induction false} CleanAll(a: string, b: string)
    ensures Clean(a + b) == Clean(a) + Clean(b)
  {
    if a == [] {
      assert a + b == b;
    } else {
      var rest := a[1..] + b;
      assert (a + b)[0] == a[0] && (a + b)[1..] == rest;
      CleanAll(a[1..], b);
      CleanBehind(a + b);
      CleanBehind(a);
      hide Clean, Lower;
    }
  }

  function CleanFirst(c: char): string { if Lower(c) == 'v' then [] else [Lower(c)] }

  lemma CleanBehind(s: string)
    requires s != []
    ensures Clean(s) == CleanFirst(s[0]) + Clean(s[1..])
  {
  }

  lemma {:induction false} CleanOnce(s: string)
    ensures Clean(Clean(s)) == Clean(s)
  {
    if s != [] {
      CleanOnce(s[1..]);
      CleanAll(if Lower(s[0]) == 'v' then [] else [Lower(s[0])], Clean(s[1..]));
      assert Lower(Lower(s[0])) == Lower(s[0]);
    }
  }

  /** A part of a clean text is clean. */
  lemma CleanPart(a: string, b: string, c: string)
    requires Clean(a + b + c) == a + b + c
    ensures Clean(b) == b
  {
    CleanAll(a + b, c);
    CleanAll(a, b);
    CleanShrinks(a);
    CleanShrinks(b);
    CleanShrinks(c);
    assert |Clean(a) + Clean(b) + Clean(c)| == |a + b + c|;
    assert (Clean(a) + Clean(b) + Clean(c))[|a|..|a| + |b|] == (a + b + c)[|a|..|a| + |b|] == b;
  }

  lemma {:induction false} CleanShrinks(s: string)
    ensures |Clean(s)| <= |s|
  {
    if s != [] {
      CleanShrinks(s[1..]);
    }
  }

  lemma DigitsArePieces(p: string)
    requires Digits(p)
    ensures Piece(p)
  {
    CleanKeeps(p);
  }

  /** Two pieces are read as their numbers, and as none if they are not both numbers. */
  lemma AnyPair(p: string, q: string)
    requires Piece(p) && Piece(q)
    ensures Read(p + "." + q) ==
            if Digits(p) && Digits(Chomped(q)) then Version([ToNat(p), ToNat(Chomped(q))], None) else Version([], None)
  {
    var c := Chomped(q);
    assert q == c || q == c + "\n";
    if Digits(p) && Digits(c) {
      assert p + "." + c + "\n" == p + "." + (c + "\n");
      PairRead(p, c);
    } else {
      PairUnread(p, q);
    }
  }

  lemma PairUnread(p: string, q: string)
    requires Piece(p) && Piece(q) && !(Digits(p) && Digits(Chomped(q)))
    ensures Read(p + "." + q) == Version([], None)
  {
    var text, c := p + "." + q, Chomped(q);
    PairClean(p, q);
    PairBody(p, q);
    PairCore(p, c, text);
    hide *;
    assert Read(text) == Parse(Clean(text)) by { ReadIs(text); }
    UnreadableParse(text);
  }

  lemma PairClean(p: string, q: string)
    requires Clean(p) == p && Clean(q) == q
    ensures Clean(p + "." + q) == p + "." + q
  {
    CleanAll(p + ".", q);
    CleanAll(p, ".");
    assert Clean(".") == ".";
  }

  lemma PairBody(p: string, q: string)
    requires q != []
    ensures Body(p + "." + q) == p + "." + Chomped(q)
  {
    var text := p + "." + q;
    assert text[|text| - 1] == q[|q| - 1] && text[..|text| - 1] == p + "." + q[..|q| - 1];
  }

  lemma PairCore(p: string, c: string, text: string)
    requires Body(text) == p + "." + c && '.' !in p && '.' !in c && '-' !in p && '-' !in c && '+' !in p && '+' !in c
    requires !(Digits(p) && Digits(c))
    ensures !Readable(text)
  {
    hide Before, After, Split, Body;
    CutWhole(Body(text), '+');
    CutWhole(Body(text), '-');
    assert Core(text) == Body(text);
    SplitPair(p, c);
    var texts := Split(Core(text), '.');
    assert texts == [p, c] && texts[0] == p && texts[1] == c;
  }

  lemma SplitPair(p: string, c: string)
    requires '.' !in p && '.' !in c
    ensures Split(p + "." + c, '.') == [p, c]
  {
    CutAt(p, c, '.');
    CutWhole(c, '.');
    hide Before, After;
    assert Split(c, '.') == [c];
  }

  /** The pieces of a cleaned text. */
  lemma PiecesOf(s: string)
    ensures forall i :: 0 <= i < |NonEmpty(Split(Before(Before(Clean(s), '-'), '+'), '.'))| ==>
      Piece(NonEmpty(Split(Before(Before(Clean(s), '-'), '+'), '.'))[i])
  {
    var t := Clean(s);
    var a := Before(t, '-');
    var b := Before(a, '+');
    CleanOnce(s);
    BeforeTells(t, '-');
    BeforeTells(a, '+');
    CleanFront(t, a);
    CleanFront(a, b);
    hide Clean, Before, Split, NonEmpty;
    PiecesClean(b);
    var texts := Split(b, '.');
    var at := NonEmptyTells(texts);
  }

  lemma BeforeTells(s: string, c: char)
    ensures Before(s, c) <= s && c !in Before(s, c) && forall d :: d !in s ==> d !in Before(s, c)
  {
    CutJoins(s, c);
  }

  lemma CleanFront(s: string, a: string)
    requires Clean(s) == s && a <= s
    ensures Clean(a) == a
  {
    assert s == [] + a + s[|a|..];
    CleanPart([], a, s[|a|..]);
  }

  ghost predicate Pieces(texts: seq<string>) {
    forall i :: 0 <= i < |texts| && texts[i] != [] ==> Piece(texts[i])
  }

  ghost predicate PlainText(s: string) { Clean(s) == s && '-' !in s && '+' !in s }

  lemma {:induction false} PiecesClean(s: string)
    requires PlainText(s)
    ensures Pieces(Split(s, '.'))
    decreases |s|
  {
    FirstClean(s);
    SplitStep(s);
    hide *;
    if After(s, '.').Some? {
      var rest := After(s, '.').value;
      RestClean(s, rest);
      PiecesClean(rest);
      PiecesMore(Before(s, '.'), Split(rest, '.'));
    }
  }

  lemma SplitStep(s: string)
    ensures After(s, '.').None? ==> Split(s, '.') == [s] && Before(s, '.') == s
    ensures After(s, '.').Some? ==> Split(s, '.') == [Before(s, '.')] + Split(After(s, '.').value, '.')
  {
    CutJoins(s, '.');
  }

  lemma FirstClean(s: string)
    requires PlainText(s)
    ensures Pieces([Before(s, '.')])
    ensures After(s, '.').None? ==> Pieces([s])
  {
    BeforeTells(s, '.');
    SplitStep(s);
    CleanFront(s, Before(s, '.'));
    hide Before, Clean, After, Split;
  }

  lemma RestClean(s: string, rest: string)
    requires PlainText(s) && After(s, '.') == Some(rest)
    ensures PlainText(rest) && |rest| < |s|
  {
    CutJoins(s, '.');
    hide Clean, Before, After;
    var front := Before(s, '.') + ['.'];
    assert s == front + rest + [];
    assert forall c :: c in rest ==> c in s;
    CleanPart(front, rest, []);
  }

  lemma PiecesMore(first: string, texts: seq<string>)
    requires Pieces([first]) && Pieces(texts)
    ensures Pieces([first] + texts)
  {
    hide Piece;
    assert [first][0] == first;
  }

  lemma MajorTold(s: string)
    ensures var (m, n) := Told(s);
      Read(MajorOf(s)) == Version([m, n], None) || ((m, n) == (0, 0) && Read(MajorOf(s)) == Version([], None))
  {
    var parts := NonEmpty(Split(Before(Before(Clean(s), '-'), '+'), '.'));
    var (p, q) := if s == [] || |parts| == 0 then ("0", "0") else (parts[0], if |parts| == 1 then "0" else parts[1]);
    MajorPieces(s);
    assert Told(s) == NumbersOf(p, q) by { ToldIs(s); }
    assert MajorOf(s) == p + "." + q;
    hide *;
    AnyPair(p, q);
    NumbersAre(p, q);
  }

  lemma NumbersAre(p: string, q: string)
    ensures NumbersOf(p, q) == if Digits(p) && Digits(Chomped(q)) then (ToNat(p), ToNat(Chomped(q))) else (0, 0)
  {
  }

  lemma ZeroTold()
    ensures NumbersOf("0", "0") == (0, 0) && Piece("0")
  {
    DigitsArePieces("0");
  }

  lemma ToldIs(s: string)
    ensures var parts := NonEmpty(Split(Before(Before(Clean(s), '-'), '+'), '.'));
      Told(s) == if s == [] || |parts| == 0 then NumbersOf("0", "0") else NumbersOf(parts[0], if |parts| == 1 then "0" else parts[1])
  {
    ZeroTold();
    if s == [] {
      NothingSplit();
    }
    hide Clean, Before, Split, NonEmpty, NumbersOf;
  }

  lemma NothingSplit()
    ensures NonEmpty(Split(Before(Before(Clean([]), '-'), '+'), '.')) == []
  {
  }

  lemma MajorPieces(s: string)
    ensures var parts := NonEmpty(Split(Before(Before(Clean(s), '-'), '+'), '.'));
      var (p, q) := if s == [] || |parts| == 0 then ("0", "0") else (parts[0], if |parts| == 1 then "0" else parts[1]);
      Piece(p) && Piece(q) && MajorOf(s) == p + "." + q
  {
    ZeroTold();
    PiecesOf(s);
    hide Clean, Before, Split, NonEmpty, Piece;
    var parts := NonEmpty(Split(Before(Before(Clean(s), '-'), '+'), '.'));
    assert "0" + "." + "0" == "0.0";
    assert |parts| == 1 ==> parts[0] + ".0" == parts[0] + "." + "0";
  }

  /** Whatever the two texts are: an import is allowed if and only if a backup version is given and what is
      told by the two texts is the same. */
  lemma ImportTells(backup: string, current: string)
    ensures CanImport(backup, current) <==> backup != [] && Told(backup) == Told(current)
  {
    MajorTold(backup);
    MajorTold(current);
    var b, c := Told(backup), Told(current);
    hide Told, Read, MajorOf, Equivalent;
    PairsEquivalent(b.0, b.1, c.0, c.1);
  }
}
