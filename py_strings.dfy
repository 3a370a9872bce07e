/** Option, used for values the source may leave as None. */
module Wrappers {
  datatype Option<+T> = None | Some(value: T)
}

/**
 * The handful of Python `str` operations the prompt assembler relies on:
 * `isspace`, `strip`/`lstrip`/`rstrip`, `replace('\r', '')`, `startswith`,
 * slicing past the end, the `in` substring test, `replace(p, '', 1)` and
 * `'\n'.join`.  Each comes with a contract or a lemma that says what its
 * result is in terms of the input, not how it is computed.
 */
module PyStrings {
  import opened Wrappers

  /**
   * The code points Python's `str.isspace()` accepts (bidirectional classes
   * WS, B and S, and general category Zs), as inclusive ranges.
   */
  const SpaceRanges: seq<(int, int)> :=
    [(0x09, 0x0D), (0x1C, 0x20), (0x85, 0x85), (0xA0, 0xA0), (0x1680, 0x1680),
     (0x2000, 0x200A), (0x2028, 0x2029), (0x202F, 0x202F), (0x205F, 0x205F), (0x3000, 0x3000)]

  /** Python's `str.isspace()` for a single code point. */
  predicate IsSpace(c: char) {
    exists k :: 0 <= k < |SpaceRanges| && SpaceRanges[k].0 <= c as int <= SpaceRanges[k].1
  }

  /** The newline the handler inserts is white space. */
  lemma {:induction false} NewlineIsSpace()
    ensures IsSpace('\n')
  {
    assert SpaceRanges[0].0 <= '\n' as int <= SpaceRanges[0].1;
  }

  /** Every character of `s` is white space (vacuously true of ""). */
  predicate AllSpace(s: string) {
    forall i :: 0 <= i < |s| ==> IsSpace(s[i])
  }

  /** `s.replace('\r', '')`: every carriage return deleted, everything else kept in order. */
  function RemoveCR(s: string): string {
    if s == [] then []
    else (if s[0] == '\r' then [] else [s[0]]) + RemoveCR(s[1..])
  }

  /**
   * The result of `replace('\r', '')` has no carriage return, is shorter by
   * exactly the number of carriage returns, brings in no new character, and
   * is the input itself when there was no carriage return.
   */
  lemma {:induction false} RemoveCRSpec(s: string)
    ensures var r := RemoveCR(s);
            && '\r' !in r
            && |r| == |s| - multiset(s)['\r']
            && (forall c :: c in r ==> c in s)
            && ('\r' !in s ==> r == s)
    decreases |s|
  {
    if s != [] {
      assert s == [s[0]] + s[1..];
      RemoveCRSpec(s[1..]);
    }
  }

  /**
   * `replace('\r', '')` works character by character: on a concatenation it
   * is the concatenation of the results, so the characters it keeps stay in
   * their order.
   */
  lemma {:induction false} RemoveCRConcat(a: string, b: string)
    ensures RemoveCR(a + b) == RemoveCR(a) + RemoveCR(b)
    decreases |a|
  {
    if a == [] {
      assert a + b == b;
    } else {
      var x := a + b;
      var head: string := if a[0] == '\r' then [] else [a[0]];
      assert x[0] == a[0];
      assert x[1..] == a[1..] + b;
      RemoveCRConcat(a[1..], b);
      assert RemoveCR(x) == head + RemoveCR(a[1..] + b);
      assert RemoveCR(a) == head + RemoveCR(a[1..]);
    }
  }

  /** On a single character: a carriage return becomes "", anything else is kept. */
  lemma {:induction false} RemoveCRChar(c: char)
    ensures RemoveCR([c]) == if c == '\r' then [] else [c]
  {
    assert [c][1..] == [];
  }

  /** The number of white-space characters `s` starts with. */
  function LeadingSpace(s: string): (n: nat)
    ensures n <= |s| && AllSpace(s[..n]) && (n == |s| || !IsSpace(s[n]))
  {
    if s != [] && IsSpace(s[0]) then
      var k := LeadingSpace(s[1..]);
      assert s[..k + 1] == [s[0]] + s[1..][..k];
      k + 1
    else 0
  }

  /** The number of white-space characters `s` ends with. */
  function TrailingSpace(s: string): (n: nat)
    ensures n <= |s| && AllSpace(s[|s| - n..]) && (n == |s| || !IsSpace(s[|s| - n - 1]))
  {
    if s != [] && IsSpace(s[|s| - 1]) then
      var t := s[..|s| - 1];
      var k := TrailingSpace(t);
      var tail := s[|s| - (k + 1)..];
      assert tail == t[|t| - k..] + [s[|s| - 1]];
      assert AllSpace(tail) by {
        forall i | 0 <= i < |tail| ensures IsSpace(tail[i]) {
          if i < k { assert tail[i] == t[|t| - k..][i]; }
        }
      }
      assert k + 1 < |s| ==> s[|s| - (k + 1) - 1] == t[|t| - k - 1];
      k + 1
    else 0
  }

  /** `s.lstrip()`. */
  function LStrip(s: string): string {
    s[LeadingSpace(s)..]
  }

  /** `s.rstrip()`. */
  function RStrip(s: string): string {
    s[..|s| - TrailingSpace(s)]
  }

  /** `s.strip()`: white space removed from both ends. */
  function Strip(s: string): (r: string)
    ensures |r| <= |s|
    ensures r == [] || (!IsSpace(r[0]) && !IsSpace(r[|r| - 1]))
  {
    var t := RStrip(s);
    var r := LStrip(t);
    assert r != [] ==> r[|r| - 1] == t[|t| - 1];
    r
  }

  /**
   * `strip()` cuts white space only, and only from the two ends: the input
   * is some white space, the result, and some more white space, and the
   * result neither starts nor ends with white space.
   */
  lemma {:induction false} StripSpec(s: string)
    ensures var r := Strip(s);
            && (r == [] || (!IsSpace(r[0]) && !IsSpace(r[|r| - 1])))
            && exists i :: 0 <= i && i + |r| <= |s| && AllSpace(s[..i])
                           && s[i..i + |r|] == r && AllSpace(s[i + |r|..])
  {
    var t := RStrip(s);
    var r := Strip(s);
    var i := LeadingSpace(t);
    assert r == t[i..];
    assert t == s[..|t|];
    assert s[..i] == t[..i];
    assert s[i..i + |r|] == t[i..];
    assert s[i + |r|..] == s[|s| - TrailingSpace(s)..];
  }

  /** Python's `not s.strip()`: a string strips to "" exactly when it is all white space. */
  lemma {:induction false} StripEmptyIffBlank(s: string)
    ensures Strip(s) == [] <==> AllSpace(s)
  {
    var t := RStrip(s);
    var r := LStrip(t);
    assert s == t + s[|t|..];
    if r == [] {
      assert s == s[|t|..];
    } else {
      assert r[0] == s[|t| - |r|];
    }
  }

  /** `s.startswith(p)`. */
  predicate StartsWith(s: string, p: string) {
    |p| <= |s| && s[..|p|] == p
  }

  /** `s[n:]`, which is "" when `n` is past the end. */
  function From(s: string, n: nat): (r: string)
    ensures n <= |s| ==> |r| == |s| - n && s == s[..n] + r
    ensures |s| <= n ==> r == []
  {
    if n <= |s| then s[n..] else []
  }

  /** `p` occurs in `s` starting at index `i`. */
  predicate OccursAt(p: string, s: string, i: int) {
    0 <= i && i + |p| <= |s| && s[i..i + |p|] == p
  }

  /** Python's `p in s`. */
  predicate Contains(s: string, p: string) {
    exists i :: 0 <= i <= |s| && OccursAt(p, s, i)
  }

  /** `p` occurs at `i` and at no earlier index: the occurrence `s.find(p)` reports. */
  predicate FirstOccurrence(p: string, s: string, i: int) {
    OccursAt(p, s, i) && forall j :: 0 <= j < i ==> !OccursAt(p, s, j)
  }

  /** Leftmost occurrence of `p` in `s` at or after index `k`. */
  function FindFrom(p: string, s: string, k: nat): (r: Option<nat>)
    ensures r.Some? ==> k <= r.value && OccursAt(p, s, r.value)
                        && forall j :: k <= j < r.value ==> !OccursAt(p, s, j)
    ensures r.None? ==> forall j :: k <= j ==> !OccursAt(p, s, j)
    decreases |s| - k
  {
    if k + |p| > |s| then None
    else if s[k..k + |p|] == p then Some(k)
    else FindFrom(p, s, k + 1)
  }

  /** `s.find(p)`, with None for -1. */
  function Find(p: string, s: string): (r: Option<nat>)
    ensures r.Some? <==> Contains(s, p)
    ensures r.Some? ==> FirstOccurrence(p, s, r.value)
  {
    FindFrom(p, s, 0)
  }

  /** `s.replace(p, '', 1)`: delete the leftmost occurrence of `p`, if there is one. */
  function RemoveFirst(p: string, s: string): (r: string)
    ensures !Contains(s, p) ==> r == s
    ensures forall c :: c in r ==> c in s
    ensures Contains(s, p) ==>
              exists i :: FirstOccurrence(p, s, i) && i <= |r| && s == r[..i] + p + r[i..]
  {
    match Find(p, s)
    case None => s
    case Some(i) =>
      var r := s[..i] + s[i + |p|..];
      assert s == r[..i] + p + r[i..];
      r
  }

  /** A known first occurrence is the one `find` reports. */
  lemma {:induction false} FindFirstOccurrence(p: string, s: string, i: int)
    requires FirstOccurrence(p, s, i)
    ensures Contains(s, p) && Find(p, s) == Some(i)
  {
    assert 0 <= i <= |s|;
    var r := Find(p, s);
    assert r.Some?;
    assert FirstOccurrence(p, s, r.value);
  }

  /** With a known first occurrence at `i`, `replace(p, '', 1)` cuts out `s[i..i + |p|]`. */
  lemma {:induction false} RemoveFirstAt(p: string, s: string, i: int)
    requires FirstOccurrence(p, s, i)
    ensures RemoveFirst(p, s) == s[..i] + s[i + |p|..]
  {
    FindFirstOccurrence(p, s, i);
  }

  /** Stripping and slicing never bring in a carriage return. */
  lemma {:induction false} NoCRAfterStrip(s: string, n: nat)
    ensures '\r' !in s ==> '\r' !in LStrip(s) && '\r' !in Strip(s) && '\r' !in From(s, n)
  {
    var l := LStrip(s);
    assert l == s[|s| - |l|..];
    var t := RStrip(s);
    assert t == s[..|t|];
    var r := LStrip(t);
    assert r == t[|t| - |r|..];
  }

  /** Sum of the lengths of `parts`. */
  function TotalLength(parts: seq<string>): nat {
    if parts == [] then 0 else TotalLength(parts[..|parts| - 1]) + |parts[|parts| - 1]|
  }

  /** `'\n'.join(parts)`. */
  function Join(parts: seq<string>): string {
    if parts == [] then []
    else if |parts| == 1 then parts[0]
    else Join(parts[..|parts| - 1]) + "\n" + parts[|parts| - 1]
  }

  /**
   * `'\n'.join(parts)` is empty for no parts; otherwise it is the parts in
   * order with one newline between each pair: part `k` starts at the total
   * length of the parts before it plus `k` separators and is followed by
   * "\n" unless it is the last.
   */
  lemma {:induction false} JoinSpec(parts: seq<string>)
    ensures parts == [] ==> Join(parts) == []
    ensures parts != [] ==> |Join(parts)| == TotalLength(parts) + |parts| - 1
    ensures forall k :: 0 <= k < |parts| ==> PartAt(parts, k)
  {
    JoinLength(parts);
    forall k | 0 <= k < |parts| ensures PartAt(parts, k) {
      JoinAt(parts, k);
    }
  }

  /** Part `k` sits at its offset in `Join(parts)`, followed by "\n" unless it is the last. */
  predicate PartAt(parts: seq<string>, k: int)
    requires 0 <= k < |parts|
  {
    var r := Join(parts);
    var o := TotalLength(parts[..k]) + k;
    && o + |parts[k]| <= |r|
    && r[o..o + |parts[k]|] == parts[k]
    && (k < |parts| - 1 ==> o + |parts[k]| < |r| && r[o + |parts[k]|] == '\n')
  }

  /** The length of `'\n'.join(parts)`. */
  lemma {:induction false} JoinLength(parts: seq<string>)
    ensures parts == [] ==> Join(parts) == []
    ensures parts != [] ==> |Join(parts)| == TotalLength(parts) + |parts| - 1
    decreases |parts|
  {
    if |parts| > 1 {
      JoinLength(parts[..|parts| - 1]);
    }
  }

  /** One part of the join, by induction on the number of parts. */
  lemma {:induction false} JoinAt(parts: seq<string>, k: int)
    requires 0 <= k < |parts|
    ensures PartAt(parts, k)
    decreases |parts|
  {
    var n := |parts|;
    if n == 1 {
      assert parts[..0] == [];
    } else if k < n - 1 {
      JoinAt(parts[..n - 1], k);
      JoinInitPart(parts, k);
    } else {
      JoinLastPart(parts);
    }
  }

  /** A part before the last keeps its place when the last part is joined on. */
  lemma {:induction false} JoinInitPart(parts: seq<string>, k: int)
    requires 0 <= k < |parts| - 1
    requires PartAt(parts[..|parts| - 1], k)
    ensures PartAt(parts, k)
  {
    var n := |parts|;
    var init := parts[..n - 1];
    var J := Join(init);
    var r := Join(parts);
    var o := TotalLength(parts[..k]) + k;
    assert r == J + "\n" + parts[n - 1];
    assert parts[..k] == init[..k] && parts[k] == init[k];
    assert r[o..o + |parts[k]|] == J[o..o + |parts[k]|];
    if k == n - 2 {
      JoinLength(init);
      assert init[..|init| - 1] == parts[..k];
      assert o + |parts[k]| == |J|;
    } else {
      assert r[o + |parts[k]|] == J[o + |parts[k]|];
    }
  }

  /** The last part comes right after the join of the others and a newline. */
  lemma {:induction false} JoinLastPart(parts: seq<string>)
    requires |parts| > 1
    ensures PartAt(parts, |parts| - 1)
  {
    var n := |parts|;
    var init := parts[..n - 1];
    var r := Join(parts);
    JoinLength(init);
    assert r == Join(init) + "\n" + parts[n - 1];
    assert parts[..n - 1] == init;
    assert r[|Join(init)| + 1..] == parts[n - 1];
  }
}
