/** The `rarf2reef` command: a message trigger and a string rewrite.

    The command fires on any message in which the word `rarf`, in any letter
    case, stands at the start of the text or after a space, and is followed by
    a space or the end of the text (the regular expression `(^| )rarf( |$)`
    searched case-insensitively). Its reply is the message with every
    lower-case `rarf` replaced by `reef`, scanning left to right without
    overlaps, as Python's `str.replace` does.
 */
module Rarf {
  import opened Options

  /** The word the rewrite removes. */
  const Word: string := "rarf"

  /** The word it puts in its place. */
  const Replacement: string := "reef"

  // ---------------------------------------------------------------------
  // The trigger
  // ---------------------------------------------------------------------

  /** `c` is the lower-case ASCII letter `lower` or its upper-case form.
      Under Python's simple case folding no other character matches `r`,
      `a` or `f`. */
  predicate SameLetterIgnoringCase(c: char, lower: char)
    requires 'a' <= lower <= 'z'
  {
    c == lower || c as int == lower as int - 32
  }

  /** `rarf` in any letter case occupies `body[i..i+4]`. */
  predicate WordAt(body: string, i: nat)
    requires i + 4 <= |body|
  {
    && SameLetterIgnoringCase(body[i], 'r')
    && SameLetterIgnoringCase(body[i + 1], 'a')
    && SameLetterIgnoringCase(body[i + 2], 'r')
    && SameLetterIgnoringCase(body[i + 3], 'f')
  }

  /** `(^| )` can match just before position `i`: `^` without the multi-line
      flag matches only at the start of the text. */
  predicate LeftDelimited(body: string, i: nat)
    requires i <= |body|
  {
    i == 0 || body[i - 1] == ' '
  }

  /** `( |$)` can match at position `j`: `$` without the multi-line flag
      matches at the end of the text and also just before a final newline. */
  predicate RightDelimited(body: string, j: nat)
    requires j <= |body|
  {
    j == |body| || body[j] == ' ' || (j == |body| - 1 && body[j] == '\n')
  }

  /** The trigger pattern matches with its word at position `i`. */
  predicate TriggerAt(body: string, i: int)
  {
    0 <= i && i + 4 <= |body| && LeftDelimited(body, i) && WordAt(body, i) && RightDelimited(body, i + 4)
  }

  /** A regular-expression search for the trigger pattern succeeds on `body`. */
  predicate Triggers(body: string)
  {
    exists i | 0 <= i <= |body| - 4 :: TriggerAt(body, i)
  }

  /** Try each position from the left and return the position of the first
      delimited word. (A regular-expression match that begins with the
      leading space starts one position earlier; which matches exist, and
      their order, are the same.) */
  method FindTrigger(body: string) returns (pos: Option<nat>)
    ensures pos.Some? ==> TriggerAt(body, pos.value)
    ensures pos.Some? ==> forall j | 0 <= j < pos.value :: !TriggerAt(body, j)
    ensures pos.None? <==> !Triggers(body)
  {
    var i: nat := 0;
    while i + 4 <= |body|
      invariant forall j | 0 <= j < i :: !TriggerAt(body, j)
      decreases |body| - i
    {
      if LeftDelimited(body, i) && WordAt(body, i) && RightDelimited(body, i + 4) {
        return Some(i);
      }
      i := i + 1;
    }
    return None;
  }

  // ---------------------------------------------------------------------
  // The rewrite
  // ---------------------------------------------------------------------

  /** A lower-case `rarf` occupies `s[i..i+4]`. */
  predicate OccursAt(s: string, i: int)
  {
    0 <= i && i + 4 <= |s| && s[i] == 'r' && s[i + 1] == 'a' && s[i + 2] == 'r' && s[i + 3] == 'f'
  }

  /** `reef` occupies `s[i..i+4]`. */
  predicate ReplacementAt(s: string, i: int)
  {
    0 <= i && i + 4 <= |s| && s[i] == 'r' && s[i + 1] == 'e' && s[i + 2] == 'e' && s[i + 3] == 'f'
  }

  /** `s` contains no lower-case `rarf`. */
  predicate NoWord(s: string)
  {
    forall i | 0 <= i <= |s| - 4 :: !OccursAt(s, i)
  }

  /** Position `k` lies inside some occurrence of `rarf`. */
  predicate Covered(s: string, k: int)
  {
    OccursAt(s, k) || OccursAt(s, k - 1) || OccursAt(s, k - 2) || OccursAt(s, k - 3)
  }

  /** `str.replace("rarf", "reef")`: scan from the left, replace an
      occurrence and continue after it, otherwise keep one character. */
  function Replace(s: string): (r: string)
    ensures |r| == |s|
    decreases |s|
  {
    if |s| < 4 then s
    else if OccursAt(s, 0) then Replacement + Replace(s[4..])
    else [s[0]] + Replace(s[1..])
  }

  /** Occurrences of `rarf` never overlap: the word has no proper border. */
  lemma NoOverlap(s: string, i: int, j: int)
    requires OccursAt(s, i) && OccursAt(s, j) && i < j
    ensures i + 4 <= j
  {
  }

  /** Every occurrence of `rarf` in the input is `reef` in the output. */
  lemma {:induction false} ReplaceRewritesEveryOccurrence(s: string, i: int)
    requires OccursAt(s, i)
    ensures ReplacementAt(Replace(s), i)
    decreases |s|
  {
    var r := Replace(s);
    if OccursAt(s, 0) {
      if i != 0 {
        NoOverlap(s, 0, i);
        var t := s[4..];
        assert OccursAt(t, i - 4);
        ReplaceRewritesEveryOccurrence(t, i - 4);
        assert r == Replacement + Replace(t);
        assert r[i..i + 4] == Replace(t)[i - 4..i];
      }
    } else {
      var t := s[1..];
      assert OccursAt(t, i - 1);
      ReplaceRewritesEveryOccurrence(t, i - 1);
      assert r == [s[0]] + Replace(t);
      assert r[i..i + 4] == Replace(t)[i - 1..i + 3];
    }
  }

  /** A character outside every occurrence of `rarf` is kept. */
  lemma {:induction false} ReplaceKeepsUncovered(s: string, k: int)
    requires 0 <= k < |s| && !Covered(s, k)
    ensures Replace(s)[k] == s[k]
    decreases |s|
  {
    var r := Replace(s);
    if |s| < 4 {
    } else if OccursAt(s, 0) {
      var t := s[4..];
      ReplaceKeepsUncovered(t, k - 4);
      assert r == Replacement + Replace(t);
    } else if k > 0 {
      var t := s[1..];
      ReplaceKeepsUncovered(t, k - 1);
      assert r == [s[0]] + Replace(t);
    }
  }

  /** If the output starts with `arf`, so did the input: the only characters
      the rewrite introduces are the `e`s of `reef`. */
  lemma ArfPrefix(t: string)
    requires |t| >= 3 && Replace(t)[0] == 'a' && Replace(t)[1] == 'r' && Replace(t)[2] == 'f'
    ensures t[0] == 'a' && t[1] == 'r' && t[2] == 'f'
  {
  }

  /** The output never contains a lower-case `rarf`. */
  lemma {:induction false} ReplaceRemovesWord(s: string)
    ensures NoWord(Replace(s))
    decreases |s|
  {
    var r := Replace(s);
    if |s| < 4 {
    } else if OccursAt(s, 0) {
      var t := s[4..];
      ReplaceRemovesWord(t);
      assert r == Replacement + Replace(t);
      forall i | 0 <= i <= |r| - 4 ensures !OccursAt(r, i) {
        if i >= 4 {
          assert !OccursAt(Replace(t), i - 4);
        }
      }
    } else {
      var t := s[1..];
      ReplaceRemovesWord(t);
      assert r == [s[0]] + Replace(t);
      forall i | 0 <= i <= |r| - 4 ensures !OccursAt(r, i) {
        if i >= 1 {
          assert !OccursAt(Replace(t), i - 1);
        } else if OccursAt(r, 0) {
          ArfPrefix(t);
        }
      }
    }
  }

  /** A text without `rarf` comes back unchanged. */
  lemma {:induction false} ReplaceNoWordUnchanged(s: string)
    requires NoWord(s)
    ensures Replace(s) == s
    decreases |s|
  {
    if |s| >= 4 {
      var t := s[1..];
      forall i | 0 <= i <= |t| - 4 ensures !OccursAt(t, i) {
        assert !OccursAt(s, i + 1);
      }
      ReplaceNoWordUnchanged(t);
      assert s == [s[0]] + t;
    }
  }

  /** The rewrite is the identity exactly on texts without `rarf`. */
  lemma ReplaceFixedIff(s: string)
    ensures Replace(s) == s <==> NoWord(s)
  {
    ReplaceRemovesWord(s);
    if NoWord(s) {
      ReplaceNoWordUnchanged(s);
    }
  }

  /** Rewriting twice is rewriting once. */
  lemma ReplaceIdempotent(s: string)
    ensures Replace(Replace(s)) == Replace(s)
  {
    ReplaceRemovesWord(s);
    ReplaceNoWordUnchanged(Replace(s));
  }

  /** The command: no reply unless the trigger matches, else the rewritten body. */
  function Rarf2Reef(body: string): (r: Option<string>)
    ensures r.Some? <==> Triggers(body)
    ensures r.Some? ==> |r.value| == |body| && NoWord(r.value)
  {
    ReplaceRemovesWord(body);
    if Triggers(body) then Some(Replace(body)) else None
  }

  /** Matching ignores case but replacing does not: a body that fires the
      command without a lower-case `rarf` is answered with itself. */
  lemma TriggeredWithoutWordUnchanged(body: string)
    requires Triggers(body) && NoWord(body)
    ensures Rarf2Reef(body) == Some(body)
  {
    ReplaceNoWordUnchanged(body);
  }

  /** `RARF` is one such body. */
  lemma UpperCaseTriggersUnchanged()
    ensures Rarf2Reef("RARF") == Some("RARF")
  {
    assert TriggerAt("RARF", 0);
    TriggeredWithoutWordUnchanged("RARF");
  }

  /** A lower-case `rarf` standing as a word fires the command and changes the text. */
  lemma LowerCaseWordRewritten(body: string, i: int)
    requires OccursAt(body, i) && LeftDelimited(body, i) && RightDelimited(body, i + 4)
    ensures Rarf2Reef(body).Some? && Rarf2Reef(body).value != body
  {
    assert TriggerAt(body, i);
    ReplaceFixedIff(body);
  }
}
