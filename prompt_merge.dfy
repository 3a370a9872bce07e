/**
 * How `generate_response` turns the incoming text and the conversation
 * history into the prompt it sends (main-test.py lines 231-260).
 *
 * The assembly is straight-line: normalise both strings, delete the first
 * copy of the prompt from the history, then pick one of two concatenation
 * shapes.  The rebinding of the history at line 258 is local to
 * `generate_response` and never returned, so only the prompt is modelled.
 *
 * `MergePrompt` is the code as written, and `generate_response` uses it.
 * `MergePromptFixed` guards both branches on the stripped history instead
 * of the raw one; `BlankHistoryTurn` shows where the two differ and that
 * the corrected one sends a first message unchanged.
 */
module PromptMerge {
  import opened Wrappers
  import opened PyStrings

  /** The `conversation_history` argument: a string, or a list of fragments. */
  datatype HistoryArg = Flat(text: string) | Fragments(parts: seq<string>)

  /** Line 231-232: a list of fragments is joined with newlines first. */
  function Flatten(h: HistoryArg): string {
    match h
    case Flat(text) => text
    case Fragments(parts) => Join(parts)
  }

  /** Prompt and history after the pre-pass of lines 239-247. */
  datatype PrePassed = PrePassed(prompt: string, history: string)

  function PrePass(prompt: string, history: string): PrePassed {
    var p := RemoveCR(prompt);
    var h := RStrip(RemoveCR(history));
    PrePassed(p, if Contains(h, p) then RemoveFirst(p, h) else h)
  }

  /**
   * The pre-pass removes every carriage return, right-strips the history and,
   * when the prompt occurs in it, deletes exactly its first occurrence.
   */
  lemma {:induction false} PrePassSpec(prompt: string, history: string)
    ensures var r := PrePass(prompt, history);
            var h := RStrip(RemoveCR(history));
            && r.prompt == RemoveCR(prompt)
            && '\r' !in r.prompt && '\r' !in r.history
            && (!Contains(h, r.prompt) ==> r.history == h)
            && (Contains(h, r.prompt) ==>
                  exists i :: FirstOccurrence(r.prompt, h, i) && i <= |r.history|
                              && h == r.history[..i] + r.prompt + r.history[i..])
  {
    var h := RStrip(RemoveCR(history));
    var r := PrePass(prompt, history);
    RemoveCRSpec(prompt);
    RemoveCRSpec(history);
    assert '\r' !in h by {
      assert h == RemoveCR(history)[..|h|];
    }
  }

  /** Neither pre-passed string holds a carriage return. */
  lemma {:induction false} PrePassNoCR(prompt: string, history: string)
    ensures '\r' !in PrePass(prompt, history).prompt && '\r' !in PrePass(prompt, history).history
  {
    var c := RemoveCR(history);
    var h := RStrip(c);
    RemoveCRSpec(prompt);
    RemoveCRSpec(history);
    assert h == c[..|h|];
    assert '\r' !in h;
  }

  /** Lines 256-260 as written: the branch on the pre-passed prompt `p` and history `h`. */
  function Shape(p: string, h: string): string {
    if h != [] && !StartsWith(p, Strip(h)) then
      Strip(h) + "\n" + LStrip(p)
    else if h != [] then
      Strip(h) + LStrip(From(p, |h|))
    else
      p
  }

  /** The same branch with both guards on `strip(h)` instead of `h`. */
  function ShapeFixed(p: string, h: string): string {
    if Strip(h) != [] && !StartsWith(p, Strip(h)) then
      Strip(h) + "\n" + LStrip(p)
    else if Strip(h) != [] then
      Strip(h) + LStrip(From(p, |h|))
    else
      p
  }

  /** The prompt `generate_response` sends, exactly as main-test.py:239-260 computes it. */
  function MergePrompt(prompt: string, history: string): string {
    var pp := PrePass(prompt, history);
    Shape(pp.prompt, pp.history)
  }

  /**
   * The merge with the blank-history defect corrected: a history that is
   * only white space after the pre-pass leaves the prompt as it is.
   */
  function MergePromptFixed(prompt: string, history: string): string {
    var pp := PrePass(prompt, history);
    ShapeFixed(pp.prompt, pp.history)
  }

  /** The prompt sent never contains a carriage return, under either merge. */
  lemma {:induction false} SentHasNoCR(prompt: string, history: string)
    ensures '\r' !in MergePrompt(prompt, history)
    ensures '\r' !in MergePromptFixed(prompt, history)
  {
    var pp := PrePass(prompt, history);
    PrePassNoCR(prompt, history);
    ShapeNoCR(pp.prompt, pp.history);
    assert MergePrompt(prompt, history) == Shape(pp.prompt, pp.history);
    assert MergePromptFixed(prompt, history) == ShapeFixed(pp.prompt, pp.history);
  }

  /** Both branches only strip, slice and join with "\n", so they bring in no carriage return. */
  lemma {:induction false} ShapeNoCR(p: string, h: string)
    requires '\r' !in p && '\r' !in h
    ensures '\r' !in Shape(p, h) && '\r' !in ShapeFixed(p, h)
  {
    PiecesNoCR(p, h);
  }

  /** The two concatenations of lines 257 and 260 bring in no carriage return. */
  lemma {:induction false} PiecesNoCR(p: string, h: string)
    requires '\r' !in p && '\r' !in h
    ensures '\r' !in Strip(h) + "\n" + LStrip(p)
    ensures '\r' !in Strip(h) + LStrip(From(p, |h|))
  {
    var rest := From(p, |h|);
    NoCRAfterStrip(h, 0);
    NoCRAfterStrip(p, |h|);
    NoCRAfterStrip(rest, 0);
    var a, b, c := Strip(h), LStrip(p), LStrip(rest);
    ConcatNoCR(a, "\n");
    ConcatNoCR(a + "\n", b);
    ConcatNoCR(a, c);
  }

  /** Joining two strings without carriage returns gives none. */
  lemma {:induction false} ConcatNoCR(a: string, b: string)
    requires '\r' !in a && '\r' !in b
    ensures '\r' !in a + b
  {
    var x := a + b;
    forall i | 0 <= i < |x| ensures x[i] != '\r' {
      if i < |a| { assert x[i] == a[i]; }
      else { assert x[i] == b[i - |a|]; }
    }
  }

  /**
   * The three outcomes of lines 256-260 in terms of the pre-passed strings:
   * an empty history leaves the prompt with only carriage returns removed;
   * otherwise the prompt either goes on a new line after the stripped
   * history, or, when it already starts with that history, its part past
   * `len(history)` (the unstripped length) is spliced on.
   */
  lemma {:induction false} MergeBranches(prompt: string, history: string)
    ensures var pp := PrePass(prompt, history);
            var sent := MergePrompt(prompt, history);
            && (pp.history == [] ==> sent == RemoveCR(prompt))
            && (pp.history != [] && !StartsWith(pp.prompt, Strip(pp.history)) ==>
                  sent == Strip(pp.history) + "\n" + LStrip(pp.prompt))
            && (pp.history != [] && StartsWith(pp.prompt, Strip(pp.history)) ==>
                  sent == Strip(pp.history) + LStrip(From(pp.prompt, |pp.history|)))
  {
  }

  /**
   * A history that is blank once carriage returns are removed, or that is
   * the prompt itself up to trailing white space, is consumed entirely by the
   * pre-pass, so the prompt is sent with only its carriage returns removed.
   */
  lemma {:induction false} HistoryConsumed(prompt: string, history: string)
    requires AllSpace(RemoveCR(history)) || RStrip(RemoveCR(history)) == RemoveCR(prompt)
    ensures MergePrompt(prompt, history) == RemoveCR(prompt)
    ensures MergePromptFixed(prompt, history) == RemoveCR(prompt)
  {
    var p := RemoveCR(prompt);
    var h := RStrip(RemoveCR(history));
    if AllSpace(RemoveCR(history)) {
      assert h == [];
      if Contains(h, p) {
        var i :| FirstOccurrence(p, h, i) && i <= |RemoveFirst(p, h)|
                 && h == RemoveFirst(p, h)[..i] + p + RemoveFirst(p, h)[i..];
        assert |RemoveFirst(p, h)| == 0;
      }
    } else {
      assert OccursAt(p, h, 0);
      var i :| FirstOccurrence(p, h, i) && i <= |RemoveFirst(p, h)|
               && h == RemoveFirst(p, h)[..i] + p + RemoveFirst(p, h)[i..];
      assert |RemoveFirst(p, h)| == 0;
    }
    assert PrePass(prompt, history).history == [];
    StripEmptyIffBlank([]);
  }

  /** Wherever the stripped history is not blank, or the history is empty, the two merges agree. */
  lemma {:induction false} FixAgreesOutsideBlankHistory(prompt: string, history: string)
    requires var h := PrePass(prompt, history).history; h == [] || Strip(h) != []
    ensures MergePromptFixed(prompt, history) == MergePrompt(prompt, history)
  {
    var h := PrePass(prompt, history).history;
    if h == [] {
      StripEmptyIffBlank(h);
    }
  }

  /**
   * When `B` is white space and `t` is not, the first occurrence of `t` in
   * `B + t` is the one at the end: any earlier one would put the first
   * non-space character of `t` at a smaller index of `t`.
   */
  lemma {:induction false} FirstOccurrenceAfterBlank(B: string, t: string)
    requires AllSpace(B) && !AllSpace(t)
    ensures FirstOccurrence(t, B + t, |B|)
  {
    var m := FirstNonSpace(t);
    assert (B + t)[|B|..|B| + |t|] == t;
    forall j | 0 <= j < |B| ensures !OccursAt(t, B + t, j) {
      NoOccurrenceInBlank(B, t, m, j);
    }
  }

  /** A string that is not all white space has a first non-space character. */
  lemma {:induction false} FirstNonSpace(t: string) returns (m: int)
    requires !AllSpace(t)
    ensures 0 <= m < |t| && !IsSpace(t[m]) && AllSpace(t[..m])
  {
    var r := LStrip(t);
    m := |t| - |r|;
    assert t[..|t|] == t;
    assert t[m] == r[0];
  }

  /** An occurrence of `t` starting inside the blank `B` would align a space with `t[m]`. */
  lemma {:induction false} NoOccurrenceInBlank(B: string, t: string, m: int, j: int)
    requires AllSpace(B) && 0 <= m < |t| && !IsSpace(t[m]) && AllSpace(t[..m])
    requires 0 <= j < |B|
    ensures !OccursAt(t, B + t, j)
  {
    var x := B + t;
    var k := j + m;
    if k < |B| {
      assert x[k] == B[k];
    } else {
      assert x[k] == t[k - |B|] == t[..m][k - |B|];
    }
    assert x[j..j + |t|][m] == x[k] != t[m];
  }

  /** Strips of `t` when `t` has no trailing white space: the right strip changes nothing. */
  lemma {:induction false} RStripNoTrailing(s: string, t: string)
    requires t != [] && RStrip(t) == t
    ensures RStrip(s + t) == s + t
  {
    assert (s + t)[|s + t| - 1] == t[|t| - 1];
  }

  /** Appending white space does not change `strip`. */
  lemma {:induction false} StripTrailingSpace(s: string, c: char)
    requires IsSpace(c)
    ensures Strip(s + [c]) == Strip(s)
  {
    var x := s + [c];
    assert x[|x| - 1] == c;
    assert x[..|x| - 1] == s;
    assert RStrip(x) == RStrip(s);
  }

  /**
   * The pre-pass on the history `handle_message` passes for a new message:
   * the history `H`, a newline, then the message `t`.  When that trailing
   * copy is the first occurrence of `t`, the pre-pass leaves `H + "\n"`.
   */
  lemma {:induction false} PrePassAfterAppend(H: string, t: string)
    requires '\r' !in H && '\r' !in t
    requires t != [] && RStrip(t) == t
    requires FirstOccurrence(t, H + "\n" + t, |H| + 1)
    ensures PrePass(t, H + "\n" + t) == PrePassed(t, H + "\n")
  {
    var x := H + "\n" + t;
    assert x == (H + "\n") + t;
    assert '\r' !in x;
    RemoveCRSpec(x);
    RemoveCRSpec(t);
    RStripNoTrailing(H + "\n", t);
    FindFirstOccurrence(t, x, |H| + 1);
    RemoveFirstAt(t, x, |H| + 1);
    assert x[..|H| + 1] == H + "\n";
    assert x[|H| + 1 + |t|..] == [];
  }

  /**
   * An ordinary turn: `H` holds conversation, the message `t` is new to it
   * and does not start with it.  The prompt is the stripped history, a
   * newline and the message — both merges agree.
   */
  lemma {:induction false} ConversationTurn(H: string, t: string)
    requires '\r' !in H && '\r' !in t
    requires t != [] && RStrip(t) == t
    requires FirstOccurrence(t, H + "\n" + t, |H| + 1)
    requires Strip(H) != [] && !StartsWith(t, Strip(H))
    ensures MergePrompt(t, H + "\n" + t) == Strip(H) + "\n" + LStrip(t)
    ensures MergePromptFixed(t, H + "\n" + t) == Strip(H) + "\n" + LStrip(t)
  {
    PrePassAfterAppend(H, t);
    ShapeAfterNewline(H, t);
    var h, x := H + "\n", H + "\n" + t;
    assert MergePrompt(t, x) == Shape(t, h);
    assert MergePromptFixed(t, x) == ShapeFixed(t, h);
  }

  /**
   * A turn whose message starts with the stripped history: the message is
   * cut at `len(history)` of the pre-passed history, one more than `|H|`,
   * and glued to the history without a separator.
   */
  lemma {:induction false} ContinuationTurn(H: string, t: string)
    requires '\r' !in H && '\r' !in t
    requires t != [] && RStrip(t) == t
    requires FirstOccurrence(t, H + "\n" + t, |H| + 1)
    requires Strip(H) != [] && StartsWith(t, Strip(H))
    ensures MergePrompt(t, H + "\n" + t) == Strip(H) + LStrip(From(t, |H| + 1))
    ensures MergePromptFixed(t, H + "\n" + t) == Strip(H) + LStrip(From(t, |H| + 1))
  {
    PrePassAfterAppend(H, t);
    ShapeAfterNewline(H, t);
    var h, x := H + "\n", H + "\n" + t;
    assert MergePrompt(t, x) == Shape(t, h);
    assert MergePromptFixed(t, x) == ShapeFixed(t, h);
  }

  /**
   * The branch on a history ending in the newline the pre-pass leaves: when
   * the rest strips to something, both merges take the same branch.
   */
  lemma {:induction false} ShapeAfterNewline(H: string, t: string)
    requires Strip(H) != []
    ensures var h := H + "\n";
            && Shape(t, h) == ShapeFixed(t, h)
            && (!StartsWith(t, Strip(H)) ==> Shape(t, h) == Strip(H) + "\n" + LStrip(t))
            && (StartsWith(t, Strip(H)) ==> Shape(t, h) == Strip(H) + LStrip(From(t, |H| + 1)))
  {
    var h := H + "\n";
    assert h == H + ['\n'];
    NewlineIsSpace();
    StripTrailingSpace(H, '\n');
  }

  /**
   * A turn on a blank history (the first message of a conversation, where
   * `H` is ""): the pre-pass leaves `H + "\n"`, which is non-empty but
   * strips to "".  As written, the `startswith("")` branch fires and drops
   * the first `|H| + 1` characters of the message; the fixed merge sends the
   * message itself.
   */
  lemma {:induction false} BlankHistoryTurn(H: string, t: string)
    requires '\r' !in H && '\r' !in t
    requires AllSpace(H) && Strip(t) != [] && RStrip(t) == t
    ensures MergePromptFixed(t, H + "\n" + t) == t
    ensures MergePrompt(t, H + "\n" + t) == LStrip(From(t, |H| + 1))
    ensures MergePrompt(t, H + "\n" + t) != t
  {
    var h, x := H + "\n", H + "\n" + t;
    BlankPrePass(H, t);
    StripEmptyIffBlank(h);
    assert MergePrompt(t, x) == Shape(t, h);
    assert MergePromptFixed(t, x) == ShapeFixed(t, h);
    assert h != [] && Strip(h) == [] && StartsWith(t, Strip(h));
    var rest := LStrip(From(t, |h|));
    assert Shape(t, h) == [] + rest == rest;
    assert |rest| < |t|;
  }

  /** On a blank history `H`, the pre-pass leaves `H + "\n"`. */
  lemma {:induction false} BlankPrePass(H: string, t: string)
    requires '\r' !in H && '\r' !in t
    requires AllSpace(H) && Strip(t) != [] && RStrip(t) == t
    ensures PrePass(t, H + "\n" + t) == PrePassed(t, H + "\n")
    ensures AllSpace(H + "\n")
  {
    StripEmptyIffBlank(t);
    var h := H + "\n";
    NewlineIsSpace();
    forall i | 0 <= i < |h| ensures IsSpace(h[i]) {
      if i < |H| { assert h[i] == H[i]; }
    }
    FirstOccurrenceAfterBlank(h, t);
    assert H + "\n" + t == h + t;
    PrePassAfterAppend(H, t);
  }
}
