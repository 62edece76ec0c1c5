/** The text normaliser applied to every quick-meaning row (`clean_quick_meaning`):
    `strip`, then `gsub(/\s+/, " ")`, then `gsub(/\s,/, ",")`.
    Terminal colouring is not part of this module (see the Display module). */
module Normalizer {

  /** Ruby's regular-expression class `\s`: space, tab, line feed, vertical tab,
      form feed and carriage return (ASCII only). */
  predicate IsSpace(c: char) {
    c == ' ' || c == '\t' || c == '\n' || c == '\U{0B}' || c == '\U{0C}' || c == '\r'
  }

  /** The characters `String#strip` removes at either end: `\s` and NUL. */
  predicate IsStripChar(c: char) {
    IsSpace(c) || c == '\0'
  }

  /** The length of the longest prefix of `s` whose characters all satisfy `p`. */
  function LeadCount(s: string, p: char -> bool): (n: nat)
    ensures n <= |s|
    ensures forall k :: 0 <= k < n ==> p(s[k])
    ensures n < |s| ==> !p(s[n])
  {
    if s != [] && p(s[0]) then 1 + LeadCount(s[1..], p) else 0
  }

  /** The length of the longest suffix of `s` whose characters all satisfy `p`. */
  function TrailCount(s: string, p: char -> bool): (n: nat)
    ensures n <= |s|
    ensures forall k :: |s| - n <= k < |s| ==> p(s[k])
    ensures n < |s| ==> !p(s[|s| - n - 1])
  {
    if s != [] && p(s[|s| - 1]) then 1 + TrailCount(s[..|s| - 1], p) else 0
  }

  /** `String#strip`: drops the leading and then the trailing run of strip characters. */
  function Strip(s: string): (r: string)
    ensures Trimmed(r)
    ensures |r| == 0 <==> forall k :: 0 <= k < |s| ==> IsStripChar(s[k])
  {
    var t := s[LeadCount(s, IsStripChar)..];
    t[..|t| - TrailCount(t, IsStripChar)]
  }

  /** The characters of `s` that are not whitespace, in order. */
  function Visible(s: string): string {
    if s == [] then [] else (if IsSpace(s[0]) then [] else [s[0]]) + Visible(s[1..])
  }

  /** What a single character becomes when every whitespace run is replaced by one space. */
  function Canonical(c: char): char {
    if IsSpace(c) then ' ' else c
  }

  /** The only whitespace is the plain space, and no two spaces are adjacent. */
  ghost predicate SingleSpaced(s: string) {
    && (forall i :: 0 <= i < |s| && IsSpace(s[i]) ==> s[i] == ' ')
    && (forall i :: 0 <= i < |s| - 1 ==> !(s[i] == ' ' && s[i + 1] == ' '))
  }

  /** No whitespace character stands immediately before a comma. */
  ghost predicate NoSpaceBeforeComma(s: string) {
    forall i :: 0 <= i < |s| - 1 ==> !(IsSpace(s[i]) && s[i + 1] == ',')
  }

  /** Neither end of `s` is a character `strip` would remove. */
  ghost predicate Trimmed(s: string) {
    s != [] ==> !IsStripChar(s[0]) && !IsStripChar(s[|s| - 1])
  }

  /** The shape of every normalised text. */
  ghost predicate IsClean(s: string) {
    Trimmed(s) && SingleSpaced(s) && NoSpaceBeforeComma(s)
  }

  /** `gsub(/\s+/, " ")`: each maximal whitespace run, found left to right, becomes one space. */
  function Collapse(s: string): (r: string)
    ensures |r| == 0 <==> |s| == 0
    ensures r != [] ==> r[0] == Canonical(s[0]) && r[|r| - 1] == Canonical(s[|s| - 1])
    decreases |s|
  {
    if s == [] then []
    else if IsSpace(s[0]) then [' '] + Collapse(s[LeadCount(s, IsSpace)..])
    else [s[0]] + Collapse(s[1..])
  }

  /** `gsub(/\s,/, ",")`: left to right and without overlap, a whitespace character
      followed by a comma becomes the comma alone. */
  function FixCommas(s: string): (r: string)
    ensures s != [] && !IsSpace(s[0]) ==> r != [] && r[0] == s[0]
    ensures s != [] && !IsSpace(s[|s| - 1]) ==> r != [] && r[|r| - 1] == s[|s| - 1]
    decreases |s|
  {
    if |s| >= 2 && IsSpace(s[0]) && s[1] == ',' then [','] + FixCommas(s[2..])
    else if s == [] then []
    else [s[0]] + FixCommas(s[1..])
  }

  /** `clean_quick_meaning` without the colouring: the text comes out empty exactly
      when it holds nothing but whitespace and NUL characters. */
  function Normalize(s: string): (r: string)
    ensures |r| == 0 <==> forall k :: 0 <= k < |s| ==> IsStripChar(s[k])
  {
    FixCommas(Collapse(Strip(s)))
  }

  /** Position `i` of `s` continues a whitespace run: it and the character before it
      are both whitespace. */
  predicate ContinuesRun(s: string, i: nat) {
    0 < i < |s| && IsSpace(s[i]) && IsSpace(s[i - 1])
  }

  /** Position `i` of `s` is a whitespace character directly before a comma. */
  predicate BeforeComma(s: string, i: nat) {
    i + 1 < |s| && IsSpace(s[i]) && s[i + 1] == ','
  }

  /** The positions `idx`, moved `d` places to the right. */
  function Shift(idx: seq<nat>, d: nat): (r: seq<nat>)
    ensures |r| == |idx|
    ensures forall k :: 0 <= k < |idx| ==> r[k] == idx[k] + d
  {
    seq(|idx|, k requires 0 <= k < |idx| => idx[k] + d)
  }

  lemma ShiftMembers(idx: seq<nat>, d: nat, i: nat)
    ensures i in Shift(idx, d) <==> i >= d && i - d in idx
  {
    var r := Shift(idx, d);
    if i in r {
      var k :| 0 <= k < |r| && r[k] == i;
      assert idx[k] == i - d;
    }
    if i >= d && i - d in idx {
      var k :| 0 <= k < |idx| && idx[k] == i - d;
      assert r[k] == i;
    }
  }

  /** `r` is made of the characters of `s` at the increasing positions `idx`, in
      that order, each passed through `f`. */
  ghost predicate Picks(s: string, r: string, idx: seq<nat>, f: char -> char) {
    && |idx| == |r|
    && (forall k :: 0 <= k < |idx| ==> idx[k] < |s| && r[k] == f(s[idx[k]]))
    && (forall k, l :: 0 <= k < l < |idx| ==> idx[k] < idx[l])
  }

  /** Picking position `m` and then, from `s[n..]`, the positions `rest`. */
  lemma PicksCons(s: string, n: nat, m: nat, rest: seq<nat>, r: string, f: char -> char)
    requires m < n <= |s|
    requires Picks(s[n..], r, rest, f)
    ensures Picks(s, [f(s[m])] + r, [m] + Shift(rest, n), f)
  {
    var idx := [m] + Shift(rest, n);
    forall k | 1 <= k < |idx| ensures idx[k] < |s| && ([f(s[m])] + r)[k] == f(s[idx[k]]) {
      assert s[idx[k]] == s[n..][rest[k - 1]];
    }
  }

  lemma ContinuesRunShift(s: string, n: nat, i: nat)
    requires n < i < |s|
    ensures ContinuesRun(s, i) == ContinuesRun(s[n..], i - n)
  {
    assert s[i] == s[n..][i - n] && s[i - 1] == s[n..][i - n - 1];
  }

  lemma BeforeCommaShift(s: string, n: nat, i: nat)
    requires n <= i < |s|
    ensures BeforeComma(s, i) == BeforeComma(s[n..], i - n)
  {
    assert s[i] == s[n..][i - n];
    if i + 1 < |s| {
      assert s[i + 1] == s[n..][i + 1 - n];
    }
  }

  /** Collapsing keeps, in order, exactly the characters that do not continue a
      whitespace run, and writes each kept whitespace character as a space: every
      maximal whitespace run becomes one space and everything else is unchanged. */
  lemma {:induction false} CollapseKeeps(s: string) returns (idx: seq<nat>)
    ensures Picks(s, Collapse(s), idx, Canonical)
    ensures forall i :: 0 <= i < |s| ==> (i in idx <==> !ContinuesRun(s, i))
    decreases |s|
  {
    if s == [] {
      idx := [];
    } else {
      var n := if IsSpace(s[0]) then LeadCount(s, IsSpace) else 1;
      var t := s[n..];
      var rest := CollapseKeeps(t);
      idx := [0] + Shift(rest, n);
      assert Collapse(s) == [Canonical(s[0])] + Collapse(t);
      PicksCons(s, n, 0, rest, Collapse(t), Canonical);
      forall i | 0 <= i < |s| ensures (i in idx <==> !ContinuesRun(s, i)) {
        ShiftMembers(rest, n, i);
        if 0 < i < n {
          assert IsSpace(s[i]) && IsSpace(s[i - 1]);
        } else if i > n {
          ContinuesRunShift(s, n, i);
        }
      }
    }
  }

  /** Removing the spaces before commas keeps, in order, exactly the characters that
      are not whitespace directly before a comma. */
  lemma {:induction false} FixCommasKeeps(s: string) returns (idx: seq<nat>)
    ensures Picks(s, FixCommas(s), idx, c => c)
    ensures forall i :: 0 <= i < |s| ==> (i in idx <==> !BeforeComma(s, i))
    decreases |s|
  {
    if s == [] {
      idx := [];
    } else {
      var n := if |s| >= 2 && IsSpace(s[0]) && s[1] == ',' then 2 else 1;
      var t := s[n..];
      var rest := FixCommasKeeps(t);
      idx := [n - 1] + Shift(rest, n);
      assert FixCommas(s) == [s[n - 1]] + FixCommas(t);
      PicksCons(s, n, n - 1, rest, FixCommas(t), c => c);
      forall i | 0 <= i < |s| ensures (i in idx <==> !BeforeComma(s, i)) {
        ShiftMembers(rest, n, i);
        if i >= n {
          BeforeCommaShift(s, n, i);
        }
      }
    }
  }

  /** After collapsing, every whitespace character is a single plain space. */
  lemma {:induction false} CollapseSingleSpaced(s: string)
    ensures SingleSpaced(Collapse(s))
    decreases |s|
  {
    if s != [] {
      var n := if IsSpace(s[0]) then LeadCount(s, IsSpace) else 1;
      var rest := Collapse(s[n..]);
      CollapseSingleSpaced(s[n..]);
      assert Collapse(s) == [Canonical(s[0])] + rest;
      assert IsSpace(s[0]) && rest != [] ==> rest[0] != ' ';
    }
  }

  /** Collapsing keeps the non-whitespace characters, in order. */
  lemma {:induction false} CollapseVisible(s: string)
    ensures Visible(Collapse(s)) == Visible(s)
    decreases |s|
  {
    if s != [] {
      var n := if IsSpace(s[0]) then LeadCount(s, IsSpace) else 1;
      CollapseVisible(s[n..]);
      VisibleConcat([Canonical(s[0])], Collapse(s[n..]));
      if IsSpace(s[0]) {
        VisibleOfPrefix(s, n);
      }
    }
  }

  /** Removing the spaces before commas keeps every other character, in order. */
  lemma {:induction false} FixCommasVisible(s: string)
    ensures Visible(FixCommas(s)) == Visible(s)
    decreases |s|
  {
    if |s| >= 2 && IsSpace(s[0]) && s[1] == ',' {
      FixCommasVisible(s[2..]);
      VisibleConcat([','], FixCommas(s[2..]));
      VisibleOfPrefix(s, 1);
      assert s[1..][1..] == s[2..];
    } else if s != [] {
      FixCommasVisible(s[1..]);
      VisibleConcat([s[0]], FixCommas(s[1..]));
    }
  }

  /** On single-spaced text, removing the spaces before commas leaves the text
      single-spaced and with no space before a comma. */
  lemma {:induction false} FixCommasClean(s: string)
    requires SingleSpaced(s)
    ensures SingleSpaced(FixCommas(s)) && NoSpaceBeforeComma(FixCommas(s))
    decreases |s|
  {
    if |s| >= 2 && IsSpace(s[0]) && s[1] == ',' {
      FixCommasClean(s[2..]);
    } else if s != [] {
      FixCommasClean(s[1..]);
      var rest := FixCommas(s[1..]);
      assert FixCommas(s) == [s[0]] + rest;
      if IsSpace(s[0]) && |s| >= 2 {
        assert rest[0] == s[1];
      }
    }
  }

  /** Every normalised text is clean: trimmed, single-spaced and with no space
      before a comma. */
  lemma NormalizeClean(s: string)
    ensures IsClean(Normalize(s))
  {
    var t := Strip(s);
    CollapseSingleSpaced(t);
    FixCommasClean(Collapse(t));
  }

  /** `strip` removes a run of strip characters at each end and keeps the middle
      of the text as it is. */
  lemma StripSlice(s: string) returns (i: nat, j: nat)
    ensures i <= j <= |s| && Strip(s) == s[i..j]
    ensures forall k :: 0 <= k < i ==> IsStripChar(s[k])
    ensures forall k :: j <= k < |s| ==> IsStripChar(s[k])
  {
    i := LeadCount(s, IsStripChar);
    var t := s[i..];
    j := i + |t| - TrailCount(t, IsStripChar);
    assert forall k :: j <= k < |s| ==> s[k] == t[k - i];
  }

  lemma TrimmedIsFixed(s: string)
    requires Trimmed(s)
    ensures Strip(s) == s
  {
  }

  lemma {:induction false} SingleSpacedIsFixed(s: string)
    requires SingleSpaced(s)
    ensures Collapse(s) == s
    decreases |s|
  {
    if s != [] {
      SingleSpacedIsFixed(s[1..]);
      if IsSpace(s[0]) {
        assert LeadCount(s, IsSpace) == 1 by {
          assert |s| > 1 ==> s[1] != ' ';
        }
      }
    }
  }

  lemma {:induction false} NoSpaceBeforeCommaIsFixed(s: string)
    requires NoSpaceBeforeComma(s)
    ensures FixCommas(s) == s
    decreases |s|
  {
    if s != [] {
      NoSpaceBeforeCommaIsFixed(s[1..]);
    }
  }

  /** Normalising a text that is already clean changes nothing. */
  lemma CleanIsFixed(s: string)
    requires IsClean(s)
    ensures Normalize(s) == s
  {
    TrimmedIsFixed(s);
    SingleSpacedIsFixed(s);
    NoSpaceBeforeCommaIsFixed(s);
  }

  /** A text is left unchanged by normalisation exactly when it is clean. */
  lemma NormalizeFixedIff(s: string)
    ensures Normalize(s) == s <==> IsClean(s)
  {
    if IsClean(s) {
      CleanIsFixed(s);
    } else {
      NormalizeClean(s);
    }
  }

  /** Normalisation is idempotent. */
  lemma NormalizeIdempotent(s: string)
    ensures Normalize(Normalize(s)) == Normalize(s)
  {
    NormalizeClean(s);
    CleanIsFixed(Normalize(s));
  }

  /** After `strip`, normalisation keeps every non-whitespace character, in order,
      and adds none. */
  lemma NormalizeVisible(s: string)
    ensures Visible(Normalize(s)) == Visible(Strip(s))
  {
    CollapseVisible(Strip(s));
    FixCommasVisible(Collapse(Strip(s)));
  }

  /** On a text without NUL characters, normalisation keeps every non-whitespace
      character, in order, and adds none. */
  lemma NormalizeKeepsVisible(s: string)
    requires forall k :: 0 <= k < |s| ==> s[k] != '\0'
    ensures Visible(Normalize(s)) == Visible(s)
  {
    var i, j := StripSlice(s);
    VisibleOfMiddle(s, i, j);
    NormalizeVisible(s);
  }

  // ---------------------------------------------------------------------------
  // Helper facts about Visible

  lemma {:induction false} VisibleConcat(a: string, b: string)
    ensures Visible(a + b) == Visible(a) + Visible(b)
    decreases |a|
  {
    if a == [] {
      assert a + b == b;
    } else {
      assert (a + b)[1..] == a[1..] + b;
      VisibleConcat(a[1..], b);
    }
  }

  lemma VisibleSplit(s: string, n: nat)
    requires n <= |s|
    ensures Visible(s) == Visible(s[..n]) + Visible(s[n..])
  {
    assert s == s[..n] + s[n..];
    VisibleConcat(s[..n], s[n..]);
  }

  lemma VisibleOfMiddle(s: string, i: nat, j: nat)
    requires i <= j <= |s|
    requires forall k :: 0 <= k < i ==> IsSpace(s[k])
    requires forall k :: j <= k < |s| ==> IsSpace(s[k])
    ensures Visible(s) == Visible(s[i..j])
  {
    var head := s[..j];
    VisibleOfSuffix(s, j);
    assert forall k :: 0 <= k < i ==> head[k] == s[k];
    VisibleOfPrefix(head, i);
    assert head[i..] == s[i..j];
  }

  lemma VisibleOfPrefix(s: string, i: nat)
    requires i <= |s|
    requires forall k :: 0 <= k < i ==> IsSpace(s[k])
    ensures Visible(s) == Visible(s[i..])
  {
    VisibleSplit(s, i);
    VisibleOfSpaces(s[..i]);
  }

  lemma VisibleOfSuffix(s: string, j: nat)
    requires j <= |s|
    requires forall k :: j <= k < |s| ==> IsSpace(s[k])
    ensures Visible(s) == Visible(s[..j])
  {
    VisibleSplit(s, j);
    VisibleOfSpaces(s[j..]);
  }

  lemma {:induction false} VisibleOfSpaces(s: string)
    requires forall k :: 0 <= k < |s| ==> IsSpace(s[k])
    ensures Visible(s) == []
    decreases |s|
  {
    if s != [] {
      VisibleOfSpaces(s[1..]);
    }
  }
}
