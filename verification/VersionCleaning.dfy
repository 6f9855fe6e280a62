/** What lower-casing a version text and removing every letter v from it does to the version that is read
    (astrbot/cli/utils/version_comparator.py). */
module VersionCleaning {
  import opened VersionComparator
  import opened VersionText
  import opened Wrappers
  import StableSorting

  lemma {:induction false} CleanKeeps(s: string)
    requires forall i :: 0 <= i < |s| ==> Digit(s[i]) || s[i] == '.' || s[i] == '\n'
    ensures Clean(s) == s
  {
    if s != [] {
      assert Lower(s[0]) == s[0] != 'v';
      CleanKeeps(s[1..]);
    }
  }

  // ----- where cleaning departs from the text

  lemma {:induction false} CleanAppend(a: string, b: string)
    ensures Clean(a + b) == Clean(a) + Clean(b)
  {
    if a == [] {
      assert a + b == b;
    } else {
      assert (a + b)[0] == a[0] && (a + b)[1..] == a[1..] + b;
      CleanAppend(a[1..], b);
      CleanStep(a);
      CleanStep(a + b);
    }
  }

  lemma CleanStep(s: string)
    requires s != []
    ensures Lower(s[0]) == 'v' ==> Clean(s) == Clean(s[1..])
    ensures Lower(s[0]) != 'v' ==> Clean(s) == [Lower(s[0])] + Clean(s[1..])
  {
  }

  /** A letter v counts for nothing, in front of a version or anywhere else in it. */
  lemma LetterVIgnored(head: string, rest: string)
    ensures Read(head + "v" + rest) == Read(head + rest) == Read(head + "V" + rest)
  {
    CleanAppend(head + "v", rest);
    CleanAppend(head, "v");
    CleanAppend(head + "V", rest);
    CleanAppend(head, "V");
    CleanAppend(head, rest);
    assert Clean("v") == [] && Clean("V") == [];
    assert Clean(head) + [] == Clean(head);
  }

  /** So pre-releases that section 11 of Semantic Versioning 2.0.0 orders can compare as equal. */
  lemma ReleaseOrderLost()
    ensures Precedes(Parse("1-re"), Parse("1-rev")) && Equivalent(Read("1-re"), Read("1-rev"))
  {
    hide Parse, Read;
    var a, b := "1-re", "1-rev";
    LetterVIgnored(a, "");
    assert a + "v" + "" == b && a + "" == a;
    assert !Digit("re"[0]) && !Digit("rev"[0]);
    SinglePre(a, "re");
    SinglePre(b, "rev");
    TextLessWitness();
    assert IdentsLessAt([Alnum("re")], [Alnum("rev")], 0);
    assert PartsSame([1], [1]);
  }

  lemma TextLessWitness()
    ensures TextLess("re", "rev")
  {
    assert "re"[1..] == "e" && "rev"[1..] == "ev" && "e"[1..] == "" && "ev"[1..] == "v";
    assert StableSorting.TextLe("e", "ev");
  }

  lemma SinglePre(s: string, text: string)
    requires IdentText(text) && !Digits(text) && s == ['1', '-'] + text
    ensures Parse(s) == Version([1], Some([Alnum(text)]))
  {
    hide Parse, Readable, Core, PreText, Before, After, Split, PreOf;
    var pre := Some([text]);
    assert Join(["1"], '.') == "1" && Dashed(pre) == ['-'] + text && Plussed(None) == "";
    assert s == "1" + Dashed(pre) + "";
    ReadPieces(s, ["1"], pre, None);
    assert ToNat("1") == 1;
    assert Numbers(["1"]) == [1] && Idents([text]) == [Alnum(text)];
  }

  // ----- when cleaning does not matter

  /** A character that cleaning neither changes nor produces. */
  predicate Steady(c: char) { !('a' <= c <= 'z') && !('A' <= c <= 'Z') }

  function CleanOption(s: Option<string>): Option<string> { if s.None? then None else Some(Clean(s.value)) }

  lemma {:induction false} CleanCut(s: string, c: char)
    requires Steady(c)
    ensures Before(Clean(s), c) == Clean(Before(s, c)) && After(Clean(s), c) == CleanOption(After(s, c))
  {
    if s != [] {
      CleanStep(s);
      if s[0] == c {
        assert Clean(s)[1..] == Clean(s[1..]);
      } else {
        CleanCut(s[1..], c);
        CutStep(s, c);
        CleanStep([s[0]] + Before(s[1..], c));
        if Lower(s[0]) != 'v' {
          assert Clean(s)[1..] == Clean(s[1..]);
          CutStep(Clean(s), c);
        }
      }
    }
  }

  function CleanAll(texts: seq<string>): (r: seq<string>)
    ensures |r| == |texts| && forall i :: 0 <= i < |r| ==> r[i] == Clean(texts[i])
  {
    seq(|texts|, i requires 0 <= i < |texts| => Clean(texts[i]))
  }

  lemma {:induction false} CleanSplit(s: string, c: char)
    requires Steady(c)
    ensures Split(Clean(s), c) == CleanAll(Split(s, c))
    decreases |s|
  {
    hide Clean, Before, After, CleanAll;
    CleanCut(s, c);
    if c in s {
      CleanSplit(After(s, c).value, c);
      assert CleanAll([Before(s, c)] + Split(After(s, c).value, c)) == [Clean(Before(s, c))] + CleanAll(Split(After(s, c).value, c));
    } else {
      assert CleanAll([s]) == [Clean(s)];
    }
  }

  lemma {:induction false} CutBack(s: string, c: char)
    requires c in s
    ensures s == Before(s, c) + [c] + After(s, c).value
  {
    if s[0] != c {
      CutBack(s[1..], c);
      CutStep(s, c);
    }
  }

  lemma {:induction false} JoinSplit(s: string, c: char)
    ensures Join(Split(s, c), c) == s
    decreases |s|
  {
    if c in s {
      CutBack(s, c);
      JoinSplit(After(s, c).value, c);
      assert Split(s, c)[1..] == Split(After(s, c).value, c);
    }
  }

  lemma NoBreakInside(s: string)
    requires Readable(s)
    ensures '\n' !in Body(s)
  {
    hide Before, After, Split, Join;
    var b, core := Body(s), Core(s);
    var head := Before(b, '+');
    JoinSplit(core, '.');
    JoinAvoids(Split(core, '.'), '.', '\n');
    if '-' in head {
      var pre := After(head, '-').value;
      CutBack(head, '-');
      JoinSplit(pre, '.');
      JoinAvoids(Split(pre, '.'), '.', '\n');
    } else {
      CutWhole(head, '-');
    }
    if '+' in b {
      CutBack(b, '+');
    } else {
      CutWhole(b, '+');
    }
  }

  lemma CleanBody(s: string)
    requires Readable(s)
    ensures Body(Clean(s)) == Clean(Body(s))
  {
    NoBreakInside(s);
    hide Readable, Before, After, Clean;
    var b := Body(s);
    CleanCut(b, '\n');
    assert '\n' !in Clean(b);
    if s != b {
      assert s == b + "\n";
      CleanAppend(b, "\n");
      CleanKeeps("\n");
      assert Clean(s)[..|Clean(b)|] == Clean(b);
    }
  }

  lemma DigitsStay(texts: seq<string>)
    requires forall i :: 0 <= i < |texts| ==> Digits(texts[i])
    ensures CleanAll(texts) == texts
  {
    forall i | 0 <= i < |texts|
      ensures Clean(texts[i]) == texts[i]
    {
      CleanKeeps(texts[i]);
    }
  }

  lemma IdentStaysExactly(text: string)
    ensures IdentOf(Clean(text)) == IdentOf(text) <==> Clean(text) == text
  {
    if Digits(text) {
      CleanKeeps(text);
    }
  }

  lemma IdentsStayExactly(texts: seq<string>)
    ensures Idents(CleanAll(texts)) == Idents(texts) <==> CleanAll(texts) == texts
  {
    hide IdentOf, Clean;
    var cleaned := CleanAll(texts);
    forall i | 0 <= i < |texts|
      ensures IdentOf(cleaned[i]) == IdentOf(texts[i]) <==> cleaned[i] == texts[i]
    {
      IdentStaysExactly(texts[i]);
    }
    assert forall i :: 0 <= i < |texts| ==> Idents(cleaned)[i] == IdentOf(cleaned[i]) && Idents(texts)[i] == IdentOf(texts[i]);
    assert Idents(cleaned) == Idents(texts) ==> forall i :: 0 <= i < |texts| ==> cleaned[i] == texts[i];
  }

  /** The pieces of a readable text and of its cleaned form. */
  lemma CleanPieces(s: string)
    requires Readable(s)
    ensures Core(Clean(s)) == Clean(Core(s)) && Split(Core(Clean(s)), '.') == Split(Core(s), '.')
    ensures PreText(Clean(s)) == CleanOption(PreText(s))
    ensures After(Body(Clean(s)), '+') == CleanOption(After(Body(s), '+'))
  {
    CleanBody(s);
    hide Before, After, Split, Clean, CleanAll, PreOk, BuildOk, Body;
    CleanCut(Body(s), '+');
    CleanCut(Before(Body(s), '+'), '-');
    CleanSplit(Core(s), '.');
    DigitsStay(Split(Core(s), '.'));
  }

  lemma PreStaysExactly(pre: string)
    requires PreOk(Some(pre))
    ensures pre != [] && (Idents(Split(Clean(pre), '.')) == Idents(Split(pre, '.')) <==> Clean(pre) == pre)
  {
    var texts := Split(pre, '.');
    assert texts[0] != [];
    hide Split, Join, Idents, Clean, CleanAll;
    CleanSplit(pre, '.');
    IdentsStayExactly(texts);
    JoinSplit(pre, '.');
    JoinSplit(Clean(pre), '.');
    JoinNonempty(texts, '.');
  }

  /** Whether the comparison sees the version a text states: it does if and only if the pre-release has no
      capital letter and no v, and the build metadata is more than letters v. */
  ghost predicate Unaffected(s: string) {
    && (PreText(s).Some? ==> Clean(PreText(s).value) == PreText(s).value)
    && (After(Body(s), '+').Some? ==> Clean(After(Body(s), '+').value) != [])
  }

  lemma ReadableCleaned(s: string)
    requires Readable(s)
    ensures Readable(Clean(s)) <==>
      PreOk(PreText(Clean(s))) && (After(Body(s), '+').Some? ==> Clean(After(Body(s), '+').value) != [])
  {
    CleanPieces(s);
    hide Before, After, Split, Body, Core, PreText, Clean, PreOk;
    if After(Body(s), '+').Some? {
      CleanCut(After(Body(s), '+').value, '\n');
    }
  }

  lemma ReadAsStatedExactly(s: string)
    requires Readable(s)
    ensures Read(s) == Parse(s) <==> Unaffected(s)
  {
    CleanPieces(s);
    ReadableCleaned(s);
    assert |Numbers(Split(Core(s), '.'))| > 0;
    hide Before, After, Split, Body, Core, PreText, Clean, Idents, Numbers, PreOk, BuildOk, CoreOk;
    if PreText(s).Some? {
      PreStaysExactly(PreText(s).value);
    }
  }
}
