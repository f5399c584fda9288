/**
 * The "automatic spell check" of a note: a fixed, ordered table of literal
 * Korean typo fixes, each applied to every occurrence (a global regular
 * expression without special characters), and the message chosen by
 * comparing the corrected text with the original.
 */
module Spelling {
  import opened Text

  /**
   * `s.replace(/pat/g, rep)`: replaces the non-overlapping occurrences of
   * `pat`, scanning left to right. A text without the pattern comes back
   * unchanged, and a replacement at least as long as the pattern never
   * shortens the text.
   */
  function ReplaceAll(s: string, pat: string, rep: string): (r: string)
    requires |pat| > 0
    ensures !Includes(s, pat) ==> r == s
    ensures |pat| <= |rep| ==> |s| <= |r|
    decreases |s|
  {
    if |s| < |pat| then s
    else if StartsWith(s, pat) then rep + ReplaceAll(s[|pat|..], pat, rep)
    else
      assert [s[0]] + s[1..] == s;
      [s[0]] + ReplaceAll(s[1..], pat, rep)
  }

  /** The characters that the same-length fixes of the table write (직, 밌, 애). */
  const Marks: set<char> := {'직', '밌', '애'}

  /** How many characters of `s` are in `Marks`. */
  function MarkCount(s: string): nat
  {
    if s == [] then 0 else (if s[0] in Marks then 1 else 0) + MarkCount(s[1..])
  }

  /** A measure that every correction of the table strictly increases. */
  function Weight(s: string): nat
  {
    |s| + MarkCount(s)
  }

  lemma {:induction false} WeightAppend(a: string, b: string)
    ensures Weight(a + b) == Weight(a) + Weight(b)
  {
    if a != [] {
      assert (a + b)[1..] == a[1..] + b;
      WeightAppend(a[1..], b);
    } else {
      assert a + b == b;
    }
  }

  /**
   * Replacing a pattern by something heavier never loses weight, and gains
   * weight exactly when the pattern occurs.
   */
  lemma {:induction false} ReplaceAllWeight(s: string, pat: string, rep: string)
    requires |pat| > 0 && Weight(pat) < Weight(rep)
    ensures Weight(ReplaceAll(s, pat, rep)) >= Weight(s)
    ensures Includes(s, pat) <==> Weight(ReplaceAll(s, pat, rep)) > Weight(s)
    decreases |s|
  {
    if StartsWith(s, pat) {
      ReplaceAllWeight(s[|pat|..], pat, rep);
      WeightAppend(rep, ReplaceAll(s[|pat|..], pat, rep));
      assert s == pat + s[|pat|..];
      WeightAppend(pat, s[|pat|..]);
    } else if s != [] {
      ReplaceAllWeight(s[1..], pat, rep);
      WeightAppend([s[0]], ReplaceAll(s[1..], pat, rep));
      assert s == [s[0]] + s[1..];
      WeightAppend([s[0]], s[1..]);
    }
  }

  /** Every pattern of the table is non-empty. */
  predicate Patterns(table: seq<(string, string)>)
  {
    forall i :: 0 <= i < |table| ==> |table[i].0| > 0
  }

  /** Every fix of the table replaces a pattern by something heavier. */
  predicate Growing(table: seq<(string, string)>)
  {
    forall i :: 0 <= i < |table| ==> Weight(table[i].0) < Weight(table[i].1)
  }

  /** Applies the fixes of `table` one after the other, each to the output of the previous one. */
  function ApplyAll(s: string, table: seq<(string, string)>): string
    requires Patterns(table)
    decreases |table|
  {
    if table == [] then s else ApplyAll(ReplaceAll(s, table[0].0, table[0].1), table[1..])
  }

  /**
   * A chain of growing fixes leaves a text unchanged exactly when none of its
   * patterns occurs in that text: no later fix can undo an earlier one.
   */
  lemma {:induction false} ApplyAllUnchangedIff(s: string, table: seq<(string, string)>)
    requires Patterns(table) && Growing(table)
    ensures Weight(ApplyAll(s, table)) >= Weight(s)
    ensures ApplyAll(s, table) == s <==> forall i :: 0 <= i < |table| ==> !Includes(s, table[i].0)
    decreases |table|
  {
    if table != [] {
      var s1 := ReplaceAll(s, table[0].0, table[0].1);
      ReplaceAllWeight(s, table[0].0, table[0].1);
      ApplyAllUnchangedIff(s1, table[1..]);
      if Includes(s, table[0].0) {
        assert ApplyAll(s, table) != s;
      } else {
        assert forall i :: 1 <= i < |table| ==> table[i] == table[1..][i - 1];
      }
    }
  }

  /** The typo table of the note editor, in the order the source applies it. */
  const Corrections: seq<(string, string)> := [
    ("움지이고", "움직이고"),
    ("재밋다", "재밌다"),
    ("똑같에", "똑같애"),
    ("바뀌내용", "바뀐 내용"),
    ("않돼", "안 돼"),
    ("않해", "안 해"),
    ("어떡해", "어떻게 해")
  ]

  /** The three fixes that only change one character into a marked one. */
  lemma SameLengthFixesGrow()
    ensures Weight("움지이고") < Weight("움직이고")
    ensures Weight("재밋다") < Weight("재밌다")
    ensures Weight("똑같에") < Weight("똑같애")
  {
    assert MarkCount("움직이고") >= 1 by { assert "움직이고"[1] in Marks; }
    assert MarkCount("재밌다") >= 1 by { assert "재밌다"[1] in Marks; }
    assert MarkCount("똑같애") >= 1 by { assert "똑같애"[2] in Marks; }
    assert MarkCount("움지이고") == 0 && MarkCount("재밋다") == 0 && MarkCount("똑같에") == 0;
  }

  /** The four fixes that insert a space or a syllable. */
  lemma LongerFixesGrow()
    ensures Weight("바뀌내용") < Weight("바뀐 내용")
    ensures Weight("않돼") < Weight("안 돼")
    ensures Weight("않해") < Weight("안 해")
    ensures Weight("어떡해") < Weight("어떻게 해")
  {
    assert MarkCount("바뀌내용") == 0 && MarkCount("않돼") == 0;
    assert MarkCount("않해") == 0 && MarkCount("어떡해") == 0;
  }

  lemma CorrectionsGrow()
    ensures Patterns(Corrections) && Growing(Corrections)
  {
    SameLengthFixesGrow();
    LongerFixesGrow();
  }

  /**
   * The corrected text the spell check proposes for `content`: the seven
   * fixes, chained in order. No fix shortens the text, and a note without
   * any of the seven typos comes back as it is.
   */
  function Correct(content: string): (r: string)
    ensures |content| <= |r|
    ensures (forall i :: 0 <= i < |Corrections| ==> !Includes(content, Corrections[i].0)) ==> r == content
  {
    assert Corrections[0].0 == "움지이고" && Corrections[1].0 == "재밋다" && Corrections[2].0 == "똑같에";
    assert Corrections[3].0 == "바뀌내용" && Corrections[4].0 == "않돼" && Corrections[5].0 == "않해";
    assert Corrections[6].0 == "어떡해";
    var s1 := ReplaceAll(content, "움지이고", "움직이고");
    var s2 := ReplaceAll(s1, "재밋다", "재밌다");
    var s3 := ReplaceAll(s2, "똑같에", "똑같애");
    var s4 := ReplaceAll(s3, "바뀌내용", "바뀐 내용");
    var s5 := ReplaceAll(s4, "않돼", "안 돼");
    var s6 := ReplaceAll(s5, "않해", "안 해");
    ReplaceAll(s6, "어떡해", "어떻게 해")
  }

  /** The chain is the table applied in order. */
  lemma CorrectIsTable(content: string)
    ensures Patterns(Corrections)
    ensures Correct(content) == ApplyAll(content, Corrections)
  {
    var t := Corrections;
    assert t[1..][1..][1..][1..][1..][1..][1..] == [];
  }

  /** The two messages the spell check can show. */
  datatype Verdict = NoTyposFound | CorrectionsMade

  /**
   * The message shown after a check: "no typos" exactly when none of the
   * seven patterns occurs in the note, which is exactly when the corrected
   * text equals the original.
   */
  function Check(content: string): (v: Verdict)
    ensures v == NoTyposFound <==> forall i :: 0 <= i < |Corrections| ==> !Includes(content, Corrections[i].0)
    ensures v == NoTyposFound <==> Correct(content) == content
  {
    CorrectionsGrow();
    CorrectIsTable(content);
    ApplyAllUnchangedIff(content, Corrections);
    if Correct(content) == content then NoTyposFound else CorrectionsMade
  }

  /** A stretch of text that cannot start an occurrence is copied through unchanged. */
  lemma {:induction false} ReplaceAllSkips(a: string, b: string, pat: string, rep: string)
    requires |pat| > 0 && pat[0] !in a
    ensures ReplaceAll(a + b, pat, rep) == a + ReplaceAll(b, pat, rep)
    decreases |a|
  {
    if a == [] {
      assert a + b == b;
    } else {
      assert (a + b)[0] == a[0];
      assert !StartsWith(a + b, pat);
      assert (a + b)[1..] == a[1..] + b;
      ReplaceAllSkips(a[1..], b, pat, rep);
      assert [a[0]] + a[1..] == a;
    }
  }

  /** An occurrence at the front is replaced and the scan resumes right after it. */
  lemma ReplaceAllHits(b: string, pat: string, rep: string)
    requires |pat| > 0
    ensures ReplaceAll(pat + b, pat, rep) == rep + ReplaceAll(b, pat, rep)
  {
    assert (pat + b)[..|pat|] == pat;
    assert (pat + b)[|pat|..] == b;
  }

  /** The first fix of the table finds nothing in the worked example. */
  lemma ExampleFirstFix()
    ensures ReplaceAll("어떡해 재밋다", "움지이고", "움직이고") == "어떡해 재밋다"
  {
    ReplaceAllSkips("어떡해 재밋다", [], "움지이고", "움직이고");
    assert "어떡해 재밋다" + [] == "어떡해 재밋다";
  }

  /** The second fix of the table on the worked example: it fires at the end. */
  lemma ExampleSecondFix()
    ensures ReplaceAll("어떡해 재밋다", "재밋다", "재밌다") == "어떡해 재밌다"
  {
    assert "어떡해 재밋다" == "어떡해 " + "재밋다";
    ReplaceAllSkips("어떡해 ", "재밋다", "재밋다", "재밌다");
    ReplaceAllHits([], "재밋다", "재밌다");
    assert "재밋다" + [] == "재밋다";
    assert "재밌다" + [] == "재밌다";
    assert "어떡해 " + "재밌다" == "어떡해 재밌다";
  }

  /** The four middle fixes of the table find nothing in the worked example. */
  lemma ExampleMiddleFixes()
    ensures ReplaceAll("어떡해 재밌다", "똑같에", "똑같애") == "어떡해 재밌다"
    ensures ReplaceAll("어떡해 재밌다", "바뀌내용", "바뀐 내용") == "어떡해 재밌다"
    ensures ReplaceAll("어떡해 재밌다", "않돼", "안 돼") == "어떡해 재밌다"
    ensures ReplaceAll("어떡해 재밌다", "않해", "안 해") == "어떡해 재밌다"
  {
    assert "어떡해 재밌다" + [] == "어떡해 재밌다";
    ReplaceAllSkips("어떡해 재밌다", [], "똑같에", "똑같애");
    ReplaceAllSkips("어떡해 재밌다", [], "바뀌내용", "바뀐 내용");
    ReplaceAllSkips("어떡해 재밌다", [], "않돼", "안 돼");
    ReplaceAllSkips("어떡해 재밌다", [], "않해", "안 해");
  }

  /** The last fix of the table on the worked example: it fires at the front. */
  lemma ExampleLastFix()
    ensures ReplaceAll("어떡해 재밌다", "어떡해", "어떻게 해") == "어떻게 해 재밌다"
  {
    assert "어떡해 재밌다" == "어떡해" + " 재밌다";
    ReplaceAllHits(" 재밌다", "어떡해", "어떻게 해");
    ReplaceAllSkips(" 재밌다", [], "어떡해", "어떻게 해");
    assert " 재밌다" + [] == " 재밌다";
    assert "어떻게 해" + " 재밌다" == "어떻게 해 재밌다";
  }

  /** The worked example: two typos fixed in one pass of the table. */
  lemma CorrectExample()
    ensures Correct("어떡해 재밋다") == "어떻게 해 재밌다"
  {
    ExampleFirstFix();
    ExampleSecondFix();
    ExampleMiddleFixes();
    ExampleLastFix();
  }

  /** Three fixes of the table whose first character does not occur in the corrected example. */
  lemma FixedPointSkips()
    ensures ReplaceAll("어떻게 해 재밌다", "움지이고", "움직이고") == "어떻게 해 재밌다"
    ensures ReplaceAll("어떻게 해 재밌다", "똑같에", "똑같애") == "어떻게 해 재밌다"
    ensures ReplaceAll("어떻게 해 재밌다", "바뀌내용", "바뀐 내용") == "어떻게 해 재밌다"
  {
    var s7 := "어떻게 해 재밌다";
    assert s7 + [] == s7;
    ReplaceAllSkips(s7, [], "움지이고", "움직이고");
    ReplaceAllSkips(s7, [], "똑같에", "똑같애");
    ReplaceAllSkips(s7, [], "바뀌내용", "바뀐 내용");
  }

  /** The two "않" fixes of the table do not apply to the corrected example. */
  lemma FixedPointSkipsNegations()
    ensures ReplaceAll("어떻게 해 재밌다", "않돼", "안 돼") == "어떻게 해 재밌다"
    ensures ReplaceAll("어떻게 해 재밌다", "않해", "안 해") == "어떻게 해 재밌다"
  {
    var s7 := "어떻게 해 재밌다";
    assert s7 + [] == s7;
    ReplaceAllSkips(s7, [], "않돼", "안 돼");
    ReplaceAllSkips(s7, [], "않해", "안 해");
  }

  /** The corrected example contains "재밌다", which is not the typo "재밋다". */
  lemma FixedPointNearMiss()
    ensures ReplaceAll("어떻게 해 재밌다", "재밋다", "재밌다") == "어떻게 해 재밌다"
  {
    assert "어떻게 해 재밌다" == "어떻게 해 " + "재밌다";
    ReplaceAllSkips("어떻게 해 ", "재밌다", "재밋다", "재밌다");
    assert !StartsWith("재밌다", "재밋다");
    assert ReplaceAll("밌다", "재밋다", "재밌다") == "밌다";
    assert ['재'] + "밌다" == "재밌다";
  }

  /** The corrected example starts with "어떻", which is not the typo "어떡해". */
  lemma FixedPointLastFix()
    ensures ReplaceAll("어떻게 해 재밌다", "어떡해", "어떻게 해") == "어떻게 해 재밌다"
  {
    var s7 := "어떻게 해 재밌다";
    assert !StartsWith(s7, "어떡해");
    assert s7[1..] == "떻게 해 재밌다";
    ReplaceAllSkips(s7[1..], [], "어떡해", "어떻게 해");
    assert s7[1..] + [] == s7[1..];
    assert [s7[0]] + s7[1..] == s7;
  }

  /** The corrected example has nothing left to fix: checking it again reports no typos. */
  lemma CorrectExampleIsFixedPoint()
    ensures Correct("어떻게 해 재밌다") == "어떻게 해 재밌다"
    ensures Check("어떡해 재밋다") == CorrectionsMade
    ensures Check("어떻게 해 재밌다") == NoTyposFound
  {
    FixedPointSkips();
    FixedPointSkipsNegations();
    FixedPointNearMiss();
    FixedPointLastFix();
    CorrectExample();
  }
}
