/** The in-place string rewriting loops of the logging library. */
module StringUtil {

  // ----- Searching -----

  predicate Occurs(s: string, pat: string, i: nat) {
    i + |pat| <= |s| && s[i..i + |pat|] == pat
  }

  ghost predicate Absent(s: string, pat: string) {
    forall i: nat :: !Occurs(s, pat, i)
  }

  /** The first occurrence at or after a position; `found` is false where `find` returns npos. */
  method Find(s: string, pat: string, from: nat) returns (found: bool, pos: nat)
    ensures found ==> from <= pos && Occurs(s, pat, pos)
    ensures found ==> forall i :: from <= i < pos ==> !Occurs(s, pat, i)
    ensures !found ==> forall i: nat :: from <= i ==> !Occurs(s, pat, i)
  {
    pos := from;
    while pos + |pat| <= |s|
      invariant from <= pos
      invariant forall i :: from <= i < pos ==> !Occurs(s, pat, i)
      decreases |s| - pos
    {
      if Occurs(s, pat, pos) {
        return true, pos;
      }
      pos := pos + 1;
    }
    found := false;
  }

  // ----- replace_all -----

  /** Leftmost non-overlapping replacement, by scanning one character at a time. */
  function Replaced(s: string, from: string, to: string): string
    requires from != []
  {
    if |s| < |from| then s
    else if s[..|from|] == from then to + Replaced(s[|from|..], from, to)
    else [s[0]] + Replaced(s[1..], from, to)
  }

  function Occurrences(s: string, from: string): nat
    requires from != []
  {
    if |s| < |from| then 0
    else if s[..|from|] == from then 1 + Occurrences(s[|from|..], from)
    else Occurrences(s[1..], from)
  }

  lemma OccursShift(s: string, pat: string, k: nat, i: nat)
    requires k <= |s|
    ensures Occurs(s[k..], pat, i) <==> Occurs(s, pat, k + i)
  {
    if k + i + |pat| <= |s| {
      assert s[k..][i..i + |pat|] == s[k + i..k + i + |pat|];
    }
  }

  lemma OccursFits(s: string, pat: string, i: nat)
    requires Occurs(s, pat, i)
    ensures i + |pat| <= |s|
  {
  }

  lemma AbsentShift(s: string, pat: string, k: nat)
    requires k <= |s| && Absent(s, pat)
    ensures Absent(s[k..], pat)
  {
    forall i: nat
      ensures !Occurs(s[k..], pat, i)
    {
      OccursShift(s, pat, k, i);
    }
  }

  // The two steps of the scan.

  lemma ScanHit(s: string, from: string, to: string)
    requires from != [] && Occurs(s, from, 0)
    ensures |from| <= |s| && s == from + s[|from|..]
    ensures Replaced(s, from, to) == to + Replaced(s[|from|..], from, to)
    ensures Occurrences(s, from) == 1 + Occurrences(s[|from|..], from)
  {
    assert s[0..0 + |from|] == s[..|from|];
    assert s == s[..|from|] + s[|from|..];
  }

  lemma ScanMiss(s: string, from: string, to: string)
    requires from != [] && s != [] && !Occurs(s, from, 0)
    ensures Replaced(s, from, to) == [s[0]] + Replaced(s[1..], from, to)
    ensures Occurrences(s, from) == Occurrences(s[1..], from)
  {
    if |s| < |from| {
      assert s == [s[0]] + s[1..];
    } else {
      assert s[0..0 + |from|] == s[..|from|];
    }
  }

  lemma ScanEnd(from: string, to: string)
    requires from != []
    ensures Replaced("", from, to) == "" && Occurrences("", from) == 0
    ensures !Occurs("", from, 0)
  {
  }

  lemma FirstInTail(s: string, pat: string, i: nat)
    requires i > 0 && s != [] && Occurs(s, pat, i)
    requires forall j :: 0 <= j < i ==> !Occurs(s, pat, j)
    ensures Occurs(s[1..], pat, i - 1)
    ensures forall j :: 0 <= j < i - 1 ==> !Occurs(s[1..], pat, j)
  {
    hide Occurs;
    OccursShift(s, pat, 1, i - 1);
    forall j | 0 <= j < i - 1
      ensures !Occurs(s[1..], pat, j)
    {
      OccursShift(s, pat, 1, j);
    }
  }

  /** The scan skips to the first occurrence. */
  lemma {:induction false} ReplacedAt(s: string, from: string, to: string, i: nat)
    requires from != [] && Occurs(s, from, i) && forall j :: 0 <= j < i ==> !Occurs(s, from, j)
    ensures Replaced(s, from, to) == s[..i] + to + Replaced(s[i + |from|..], from, to)
    ensures Occurrences(s, from) == 1 + Occurrences(s[i + |from|..], from)
    decreases i
  {
    hide *;
    OccursFits(s, from, i);
    if i == 0 {
      ScanHit(s, from, to);
      assert s[..0] + to == to;
    } else {
      ScanMiss(s, from, to);
      FirstInTail(s, from, i);
      ReplacedAt(s[1..], from, to, i - 1);
      var rest := s[i + |from|..];
      assert s[1..][i - 1 + |from|..] == rest;
      assert [s[0]] + (s[1..][..i - 1] + to + Replaced(rest, from, to))
          == s[..i] + to + Replaced(rest, from, to);
    }
  }

  lemma {:induction false} ReplacedNone(s: string, from: string, to: string)
    requires from != [] && Absent(s, from)
    ensures Replaced(s, from, to) == s && Occurrences(s, from) == 0
  {
    hide Replaced, Occurrences, Occurs;
    if s == [] {
      ScanEnd(from, to);
    } else {
      ScanMiss(s, from, to);
      AbsentShift(s, from, 1);
      ReplacedNone(s[1..], from, to);
    }
  }

  /** An occurrence exists exactly where the scan counts one. */
  lemma {:induction false} CountedIsPresent(s: string, from: string)
    requires from != []
    ensures Occurrences(s, from) == 0 <==> Absent(s, from)
  {
    hide Replaced, Occurrences, Occurs;
    if Absent(s, from) {
      ReplacedNone(s, from, from);
    } else {
      var i: nat :| Occurs(s, from, i);
      var first := FirstOf(s, from, i);
      OccursFits(s, from, first);
      ReplacedAt(s, from, from, first);
    }
  }

  ghost function FirstOf(s: string, pat: string, i: nat): (first: nat)
    requires Occurs(s, pat, i)
    ensures Occurs(s, pat, first) && forall j :: 0 <= j < first ==> !Occurs(s, pat, j)
  {
    if exists j :: 0 <= j < i && Occurs(s, pat, j) then
      var j :| 0 <= j < i && Occurs(s, pat, j);
      FirstOf(s, pat, j)
    else i
  }

  /** What the search from the end of the finished part says about the rest. */
  ghost predicate Next(rest: string, pat: string, found: bool, i: int) {
    if found then
      i >= 0 && Occurs(rest, pat, i) && forall j :: 0 <= j < i ==> !Occurs(rest, pat, j)
    else Absent(rest, pat)
  }

  method FindNext(ghost done: string, ghost rest: string, s: string, pat: string, start: nat)
    returns (found: bool, pos: nat)
    requires s == done + rest && start == |done|
    ensures Next(rest, pat, found, pos - |done|)
  {
    found, pos := Find(s, pat, start);
    hide Occurs;
    assert s[|done|..] == rest;
    forall j: nat
      ensures Occurs(rest, pat, j) <==> Occurs(s, pat, |done| + j)
    {
      OccursShift(s, pat, |done|, j);
    }
  }

  lemma SpliceRest(done: string, rest: string, s: string, i: nat, n: nat)
    requires s == done + rest && i + n <= |rest|
    ensures s[..|done| + i] == done + rest[..i]
    ensures s[|done| + i + n..] == rest[i + n..]
  {
  }

  lemma Reassociate(a: string, b: string, c: string, d: string)
    ensures a + (b + c + d) == (a + b + c) + d
  {
  }

  lemma ReplaceStep(done: string, rest: string, s: string, from: string, to: string, i: nat)
    requires from != [] && s == done + rest && Next(rest, from, true, i)
    ensures i + |from| <= |rest|
    ensures s[..|done| + i] + to + s[|done| + i + |from|..] == done + rest[..i] + to + rest[i + |from|..]
    ensures done + Replaced(rest, from, to)
         == (done + rest[..i] + to) + Replaced(rest[i + |from|..], from, to)
    ensures Occurrences(rest, from) == 1 + Occurrences(rest[i + |from|..], from)
  {
    hide Replaced, Occurrences, Occurs;
    OccursFits(rest, from, i);
    ReplacedAt(rest, from, to, i);
    SpliceRest(done, rest, s, i, |from|);
    Reassociate(done, rest[..i], to, Replaced(rest[i + |from|..], from, to));
  }

  /** The loop over `find` and `replace` does leftmost non-overlapping replacement and counts it. */
  method ReplaceAll(text: string, from: string, to: string) returns (ok: bool, s: string, count: nat)
    ensures ok <==> from != []
    ensures !ok ==> s == text
    ensures ok ==> s == Replaced(text, from, to) && count == Occurrences(text, from)
  {
    hide *;
    s, count := text, 0;
    if from == [] {
      return false, s, count;
    }
    ok := true;
    ghost var done, rest := "", text;
    assert s == done + rest;
    assert Replaced(text, from, to) == done + Replaced(rest, from, to);
    var found, pos := FindNext(done, rest, s, from, 0);
    while found
      invariant s == done + rest
      invariant Replaced(text, from, to) == done + Replaced(rest, from, to)
      invariant Occurrences(text, from) == count + Occurrences(rest, from)
      invariant Next(rest, from, found, pos - |done|)
      decreases |rest| + if found then 1 else 0
    {
      ghost var i := pos - |done|;
      NextIsPosition(rest, from, i);
      ReplaceStep(done, rest, s, from, to, i);
      s := s[..pos] + to + s[pos + |from|..];
      count := count + 1;
      done := done + rest[..i] + to;
      rest := rest[i + |from|..];
      found, pos := FindNext(done, rest, s, from, pos + |to|);
    }
    NextIsAbsent(rest, from, pos - |done|);
    ReplacedNone(rest, from, to);
  }

  lemma NextIsPosition(rest: string, pat: string, i: int)
    requires Next(rest, pat, true, i)
    ensures i >= 0
  {
  }

  lemma NextIsAbsent(rest: string, pat: string, i: int)
    requires Next(rest, pat, false, i)
    ensures Absent(rest, pat)
  {
  }

  /** Each replacement changes the length by the difference of the two strings. */
  lemma {:induction false} ReplacedLength(s: string, from: string, to: string)
    requires from != []
    ensures |Replaced(s, from, to)| == |s| + Occurrences(s, from) * (|to| - |from|)
  {
    hide Replaced, Occurrences, Occurs;
    if s == [] {
      ScanEnd(from, to);
    } else if Occurs(s, from, 0) {
      ScanHit(s, from, to);
      ReplacedLength(s[|from|..], from, to);
      Distribute(Occurrences(s[|from|..], from), |to| - |from|);
    } else {
      ScanMiss(s, from, to);
      ReplacedLength(s[1..], from, to);
    }
  }

  lemma Distribute(n: nat, d: int)
    ensures (1 + n) * d == d + n * d
  {
  }

  // ----- erase_all_sub_string -----

  predicate EndsWith(s: string, pat: string) {
    |pat| <= |s| && Occurs(s, pat, |s| - |pat|)
  }

  /** Push a character, and pop the pattern if the stack now ends with it. */
  function Push(stack: string, c: char, pat: string): string {
    var pushed := stack + [c];
    if EndsWith(pushed, pat) then pushed[..|pushed| - |pat|] else pushed
  }

  /** One pass over the text that pushes each character. */
  function Reduced(stack: string, s: string, pat: string): string
    decreases |s|
  {
    if s == [] then stack else Reduced(Push(stack, s[0], pat), s[1..], pat)
  }

  lemma ReducedCons(stack: string, c: char, rest: string, pat: string)
    ensures Reduced(stack, [c] + rest, pat) == Reduced(Push(stack, c, pat), rest, pat)
  {
    hide Push;
    assert ([c] + rest)[1..] == rest;
  }

  lemma AbsentPrefix(s: string, pat: string, n: nat)
    requires n <= |s| && forall j :: 0 <= j && j + |pat| <= n ==> !Occurs(s, pat, j)
    ensures Absent(s[..n], pat)
  {
    forall i: nat
      ensures !Occurs(s[..n], pat, i)
    {
      if i + |pat| <= n {
        assert !Occurs(s, pat, i);
        assert s[..n][i..i + |pat|] == s[i..i + |pat|];
      }
    }
  }

  lemma AbsentMeansNoSuffix(s: string, pat: string)
    requires Absent(s, pat)
    ensures !EndsWith(s, pat)
  {
  }

  /** While the pattern does not show, the pass only pushes. */
  lemma {:induction false} ReducedPushes(stack: string, t: string, rest: string, pat: string)
    requires Absent(stack + t, pat)
    ensures Reduced(stack, t + rest, pat) == Reduced(stack + t, rest, pat)
    decreases |t|
  {
    hide Occurs, Absent, EndsWith, Reduced;
    if t == [] {
      assert stack + t == stack && t + rest == rest;
    } else {
      var pushed := stack + [t[0]];
      assert pushed == (stack + t)[..|pushed|];
      assert pushed + t[1..] == stack + t;
      AbsentInPrefix(stack + t, pat, |pushed|);
      AbsentMeansNoSuffix(pushed, pat);
      assert t + rest == [t[0]] + (t[1..] + rest);
      ReducedCons(stack, t[0], t[1..] + rest, pat);
      ReducedPushes(pushed, t[1..], rest, pat);
    }
  }

  lemma AbsentInPrefix(s: string, pat: string, n: nat)
    requires n <= |s| && Absent(s, pat)
    ensures Absent(s[..n], pat)
  {
    hide Occurs;
    AbsentPrefix(s, pat, n);
  }

  /** Erasing the leftmost occurrence does not change what the pass computes. */
  lemma ReducedIgnoresFirst(s: string, pat: string, i: nat)
    requires pat != [] && Occurs(s, pat, i) && forall j :: 0 <= j < i ==> !Occurs(s, pat, j)
    ensures i + |pat| <= |s|
    ensures Reduced("", s, pat) == Reduced("", s[..i] + s[i + |pat|..], pat)
  {
    hide Reduced, Absent, Occurs, EndsWith;
    OccursFits(s, pat, i);
    var last := i + |pat| - 1;
    AbsentPrefix(s, pat, last);
    assert "" + s[..last] == s[..last] && s[..last] + s[last..] == s;
    ReducedPushes("", s[..last], s[last..], pat);
    ReducedPops(s, pat, i);
    AbsentPrefix(s, pat, i);
    assert "" + s[..i] == s[..i];
    ReducedPushes("", s[..i], s[i + |pat|..], pat);
  }

  lemma ReducedPops(s: string, pat: string, i: nat)
    requires pat != [] && i + |pat| <= |s| && Occurs(s, pat, i)
    ensures Reduced(s[..i + |pat| - 1], s[i + |pat| - 1..], pat) == Reduced(s[..i], s[i + |pat|..], pat)
  {
    hide Occurs, EndsWith, Reduced;
    var last := i + |pat| - 1;
    assert s[..last] + [s[last]] == s[..i + |pat|];
    OccursInPrefix(s, pat, i);
    assert Push(s[..last], s[last], pat) == s[..i + |pat|][..i] == s[..i];
    assert s[last..] == [s[last]] + s[i + |pat|..];
    ReducedCons(s[..last], s[last], s[i + |pat|..], pat);
  }

  lemma OccursInPrefix(s: string, pat: string, i: nat)
    requires i + |pat| <= |s| && Occurs(s, pat, i)
    ensures EndsWith(s[..i + |pat|], pat)
  {
    assert s[..i + |pat|][i..i + |pat|] == s[i..i + |pat|];
  }

  /** Erasing leftmost occurrences until none is left, each search from the start. */
  method EraseAll(text: string, pat: string) returns (s: string)
    requires pat != []
    ensures Absent(s, pat)
    ensures s == Reduced("", text, pat)
  {
    hide Reduced, Occurs;
    s := text;
    var found: bool, pos: nat := Find(s, pat, 0);
    while found
      invariant Reduced("", s, pat) == Reduced("", text, pat)
      invariant found ==> Occurs(s, pat, pos) && forall j :: 0 <= j < pos ==> !Occurs(s, pat, j)
      invariant !found ==> Absent(s, pat)
      decreases |s| + if found then 1 else 0
    {
      ReducedIgnoresFirst(s, pat, pos);
      s := s[..pos] + s[pos + |pat|..];
      found, pos := Find(s, pat, 0);
    }
    ReducedOfAbsent(s, pat);
  }

  lemma ReducedOfAbsent(s: string, pat: string)
    requires Absent(s, pat)
    ensures Reduced("", s, pat) == s
  {
    hide Occurs, Absent, EndsWith, Push;
    assert "" + s == s && s + "" == s;
    ReducedPushes("", s, "", pat);
  }

  /** An empty pattern is found at 0 in every string and erasing it changes nothing. */
  lemma EmptyPatternIsAlwaysFound(s: string)
    ensures Occurs(s, "", 0) && s[..0] + s[0 + |""|..] == s
  {
  }

  // ----- The collapse of closing brackets -----

  const SPACED := "> >"
  const CLOSED := ">>"

  /** The text without the single spaces that stand between two closing brackets. */
  function Collapsed(afterBracket: bool, s: string): string
    decreases |s|
  {
    if s == [] then ""
    else if afterBracket && |s| > 1 && s[0] == ' ' && s[1] == '>' then Collapsed(false, s[1..])
    else [s[0]] + Collapsed(s[0] == '>', s[1..])
  }

  lemma SpacedAtStart(s: string)
    ensures Occurs(s, SPACED, 0) <==> |s| >= 3 && s[0] == '>' && s[1] == ' ' && s[2] == '>'
  {
    if |s| >= 3 {
      assert s[0..3] == [s[0], s[1], s[2]];
    }
  }

  lemma ReplacedKeepsHead(s: string)
    ensures s == [] <==> Replaced(s, SPACED, CLOSED) == []
    ensures s != [] ==> Replaced(s, SPACED, CLOSED)[0] == s[0]
  {
    hide Replaced, Occurrences, Occurs;
    SpacedAtStart(s);
    if s == [] {
      ScanEnd(SPACED, CLOSED);
    } else if Occurs(s, SPACED, 0) {
      ScanHit(s, SPACED, CLOSED);
    } else {
      ScanMiss(s, SPACED, CLOSED);
    }
  }

  lemma CollapsedCons(p: bool, c: char, s: string)
    ensures Collapsed(p, [c] + s)
         == if p && c == ' ' && s != [] && s[0] == '>' then Collapsed(false, s) else [c] + Collapsed(c == '>', s)
  {
    assert ([c] + s)[1..] == s;
  }

  lemma CollapsedSpaced(p: bool, s: string)
    ensures Collapsed(p, SPACED + s) == CLOSED + Collapsed(true, s)
    ensures Collapsed(p, CLOSED + s) == CLOSED + Collapsed(true, s)
  {
    hide Collapsed;
    assert SPACED + s == ['>'] + ([' '] + (['>'] + s));
    assert CLOSED + s == ['>'] + (['>'] + s);
    assert CLOSED + Collapsed(true, s) == ['>'] + (['>'] + Collapsed(true, s));
    CollapsedCons(p, '>', [' '] + (['>'] + s));
    CollapsedCons(p, '>', ['>'] + s);
    CollapsedCons(true, ' ', ['>'] + s);
    CollapsedCons(true, '>', s);
    CollapsedCons(false, '>', s);
  }

  /** A pass of replacements does not change the collapsed text. */
  lemma {:induction false} PassKeepsCollapsed(p: bool, s: string)
    ensures Collapsed(p, Replaced(s, SPACED, CLOSED)) == Collapsed(p, s)
    decreases |s|
  {
    hide Replaced, Occurrences, Occurs, Collapsed;
    if s == [] {
      ScanEnd(SPACED, CLOSED);
    } else if Occurs(s, SPACED, 0) {
      ScanHit(s, SPACED, CLOSED);
      PassKeepsCollapsed(true, s[3..]);
      CollapsedSpaced(p, s[3..]);
      CollapsedSpaced(p, Replaced(s[3..], SPACED, CLOSED));
    } else {
      ScanMiss(s, SPACED, CLOSED);
      ReplacedKeepsHead(s[1..]);
      PassKeepsCollapsed(false, s[1..]);
      PassKeepsCollapsed(s[0] == '>', s[1..]);
      assert s == [s[0]] + s[1..];
      CollapsedCons(p, s[0], s[1..]);
      CollapsedCons(p, s[0], Replaced(s[1..], SPACED, CLOSED));
    }
  }

  /** Text without a spaced pair is collapsed. */
  lemma {:induction false} CollapsedOfAbsent(p: bool, s: string)
    requires Absent(s, SPACED)
    requires p ==> Absent(['>'] + s, SPACED)
    ensures Collapsed(p, s) == s
    decreases |s|
  {
    hide Occurs;
    if s != [] {
      AbsentShift(s, SPACED, 1);
      assert s == [s[0]] + s[1..];
      if p {
        assert !Occurs(['>'] + s, SPACED, 0);
        SpacedAtStart(['>'] + s);
      }
      CollapsedOfAbsent(s[0] == '>', s[1..]);
    }
  }

  /** The loop ends, leaves no spaced pair, and removes exactly the spaces between brackets. */
  method CollapseBrackets(text: string) returns (s: string)
    ensures Absent(s, SPACED)
    ensures s == Collapsed(false, text)
  {
    hide Replaced, Occurrences, Occurs, Absent, Collapsed;
    s := text;
    var count := 1;
    while count > 0
      invariant Collapsed(false, s) == Collapsed(false, text)
      invariant count == 0 ==> Absent(s, SPACED)
      decreases |s|, count
    {
      PassKeepsCollapsed(false, s);
      ReplacedLength(s, SPACED, CLOSED);
      CountedIsPresent(s, SPACED);
      var ok, t, n := ReplaceAll(s, SPACED, CLOSED);
      if n == 0 {
        ReplacedNone(s, SPACED, CLOSED);
      }
      s, count := t, n;
    }
    CollapsedOfAbsent(false, s);
  }

  // ----- What erasing can bring together -----

  lemma {:induction false} ReducedConcat(stack: string, a: string, b: string, pat: string)
    ensures Reduced(stack, a + b, pat) == Reduced(Reduced(stack, a, pat), b, pat)
    decreases |a|
  {
    hide Push;
    if a == [] {
      assert a + b == b;
    } else {
      assert a + b == [a[0]] + (a[1..] + b);
      ReducedCons(stack, a[0], a[1..] + b, pat);
      ReducedConcat(Push(stack, a[0], pat), a[1..], b, pat);
    }
  }

  /** A character that is not in the pattern shields what is below it on the stack. */
  lemma PushAbove(below: string, c: char, stack: string, x: char, pat: string)
    requires pat != [] && c !in pat
    ensures Push(below + [c] + stack, x, pat) == below + [c] + Push(stack, x, pat)
  {
    hide EndsWith;
    var base := below + [c];
    assert base + stack + [x] == base + (stack + [x]);
    SuffixAbove(below, c, stack + [x], pat);
    if EndsWith(stack + [x], pat) {
      EndsWithFits(stack + [x], pat);
      var n := |stack| + 1 - |pat|;
      assert (base + (stack + [x]))[..|base| + n] == base + (stack + [x])[..n];
    }
  }

  lemma EndsWithFits(s: string, pat: string)
    requires EndsWith(s, pat)
    ensures |pat| <= |s|
  {
  }

  lemma EndsWithChar(s: string, pat: string, k: nat)
    requires EndsWith(s, pat) && k < |pat|
    ensures |pat| <= |s| && s[|s| - |pat| + k] == pat[k]
  {
    var i := |s| - |pat|;
    assert s[i..i + |pat|][k] == s[i + k];
  }

  lemma SuffixOfTop(below: string, top: string, pat: string)
    requires |pat| <= |top|
    ensures EndsWith(below + top, pat) <==> EndsWith(top, pat)
  {
    var s := below + top;
    assert s[|s| - |pat|..|s| - |pat| + |pat|] == top[|top| - |pat|..|top| - |pat| + |pat|];
  }

  lemma SuffixReaches(below: string, c: char, top: string, pat: string)
    requires |pat| > |top| && c !in pat
    ensures !EndsWith(below + [c] + top, pat)
  {
    hide EndsWith;
    if EndsWith(below + [c] + top, pat) {
      EndsWithChar(below + [c] + top, pat, |pat| - |top| - 1);
      assert false;
    }
  }

  lemma SuffixAbove(below: string, c: char, top: string, pat: string)
    requires pat != [] && c !in pat
    ensures EndsWith(below + [c] + top, pat) <==> EndsWith(top, pat)
  {
    hide Occurs;
    if |pat| <= |top| {
      SuffixOfTop(below + [c], top, pat);
    } else {
      SuffixReaches(below, c, top, pat);
    }
  }

  lemma {:induction false} ReducedAbove(below: string, c: char, stack: string, t: string, pat: string)
    requires pat != [] && c !in pat
    ensures Reduced(below + [c] + stack, t, pat) == below + [c] + Reduced(stack, t, pat)
    decreases |t|
  {
    hide Push;
    if t != [] {
      PushAbove(below, c, stack, t[0], pat);
      ReducedAbove(below, c, Push(stack, t[0], pat), t[1..], pat);
    }
  }

  lemma PushOther(stack: string, c: char, pat: string)
    requires pat != [] && c !in pat
    ensures Push(stack, c, pat) == stack + [c]
  {
    hide EndsWith;
    SuffixReaches(stack, c, "", pat);
    assert stack + [c] + "" == stack + [c];
  }

  /** The pass works independently on both sides of a character that is not in the pattern. */
  lemma ReducedSplits(a: string, c: char, b: string, pat: string)
    requires pat != [] && c !in pat
    ensures Reduced("", a + [c] + b, pat) == Reduced("", a, pat) + [c] + Reduced("", b, pat)
  {
    hide Push, Reduced;
    assert a + [c] + b == a + ([c] + b);
    ReducedConcat("", a, [c] + b, pat);
    var below := Reduced("", a, pat);
    ReducedCons(below, c, b, pat);
    PushOther(below, c, pat);
    assert below + [c] + "" == below + [c];
    ReducedAbove(below, c, "", b, pat);
  }

  lemma {:induction false} ReducedChars(stack: string, t: string, pat: string, x: char)
    requires x in Reduced(stack, t, pat)
    ensures x in stack || x in t
    decreases |t|
  {
    if t != [] {
      ReducedChars(Push(stack, t[0], pat), t[1..], pat, x);
    }
  }

  lemma {:induction false} LastOf(t: string, c: char) returns (a: string, b: string)
    requires c in t
    ensures t == a + [c] + b && c !in b
    decreases |t|
  {
    var n := |t| - 1;
    if t[n] == c {
      a, b := t[..n], "";
    } else {
      a, b := LastOf(t[..n], c);
      b := b + [t[n]];
    }
  }

  /** A character of the result that is not in the pattern comes from one of the text, with both sides. */
  lemma {:induction false} ReducedLifts(t: string, pat: string, left: string, c: char, right: string) returns (a: string, b: string)
    requires pat != [] && c !in pat && Reduced("", t, pat) == left + [c] + right
    ensures t == a + [c] + b && Reduced("", a, pat) == left && Reduced("", b, pat) == right
    decreases |t|
  {
    hide Push, Reduced;
    ReducedChars("", t, pat, c);
    a, b := LastOf(t, c);
    ReducedSplits(a, c, b, pat);
    var front, back := Reduced("", a, pat), Reduced("", b, pat);
    if c in back {
      ReducedChars("", b, pat, c);
      assert false;
    }
    assert left + [c] + right == front + [c] + back;
    if |left| == |front| {
      SameSplit(left, right, front, back, c);
    } else {
      var between := EarlierSplit(left, right, front, back, c);
      var a', b' := ReducedLifts(a, pat, left, c, between);
      ReducedSplits(b', c, b, pat);
      assert t == a' + [c] + (b' + [c] + b);
      a, b := a', b' + [c] + b;
    }
  }

  lemma SameSplit(left: string, right: string, front: string, back: string, c: char)
    requires left + [c] + right == front + [c] + back && |left| == |front|
    ensures left == front && right == back
  {
    var s := left + [c] + right;
    assert s[..|left|] == left && s[..|left|] == front;
    assert s[|left| + 1..] == right && s[|left| + 1..] == back;
  }

  lemma LaterIsInBack(left: string, right: string, front: string, back: string, c: char)
    requires left + [c] + right == front + [c] + back && |left| > |front|
    ensures c in back
  {
    var s := left + [c] + right;
    assert s[|left|] == back[|left| - |front| - 1];
  }

  lemma EarlierSplit(left: string, right: string, front: string, back: string, c: char) returns (between: string)
    requires left + [c] + right == front + [c] + back && c !in back && |left| != |front|
    ensures front == left + [c] + between && right == between + [c] + back
  {
    var s := left + [c] + right;
    if |left| > |front| {
      LaterIsInBack(left, right, front, back, c);
      assert false;
    }
    between := front[|left| + 1..];
    assert s[..|front|] == front;
    assert s[|left| + 1..] == right;
    assert right == s[|left| + 1..|front|] + s[|front|..];
    assert s[|front|..] == [c] + back;
  }

  /** The part w of the text, between two characters that stay, is reduced to the target. */
  ghost predicate ReducesTo(t: string, pat: string, target: string, x: string, w: string, y: string)
    requires |target| >= 2
  {
    t == x + w + y && |w| >= 2 && w[0] == target[0] && w[|w| - 1] == target[|target| - 1] && Reduced("", w, pat) == target
  }

  ghost predicate Uncovers(t: string, pat: string, target: string)
    requires |target| >= 2
  {
    exists x, w, y :: ReducesTo(t, pat, target, x, w, y)
  }

  lemma UncoveredOccurs(t: string, pat: string, target: string, x: string, w: string, y: string)
    requires pat != [] && |target| >= 2 && target[0] !in pat && target[|target| - 1] !in pat && ReducesTo(t, pat, target, x, w, y)
    ensures Reduced("", t, pat) == Reduced("", x, pat) + target + Reduced("", y, pat)
  {
    hide Push, Reduced;
    var c, d, m := w[0], w[|w| - 1], w[1..|w| - 1];
    assert w == [c] + m + [d];
    assert x + w + y == x + [c] + (m + [d] + y);
    ReducedSplits(x, c, m + [d] + y, pat);
    ReducedSplits(m, d, y, pat);
    ReducedBetween(c, m, d, pat);
    var rx, rm, ry := Reduced("", x, pat), Reduced("", m, pat), Reduced("", y, pat);
    assert rx + [c] + (rm + [d] + ry) == rx + ([c] + rm + [d]) + ry;
  }

  lemma ReducedEmpty(pat: string)
    ensures Reduced("", "", pat) == ""
  {
  }

  lemma OccurrenceSplits(s: string, target: string, i: nat) returns (left: string, right: string)
    requires Occurs(s, target, i)
    ensures s == left + target + right
  {
    left, right := s[..i], s[i + |target|..];
    assert s == s[..i] + s[i..i + |target|] + s[i + |target|..];
  }

  lemma SplitOccurs(left: string, target: string, right: string)
    ensures Occurs(left + target + right, target, |left|)
  {
    assert (left + target + right)[|left|..|left| + |target|] == target;
  }

  /**
    Exactly when erasing one pattern uncovers another whose ends are not in the first: a part of
    the text with those ends reduces to it.
  */
  lemma UncoversExactly(t: string, pat: string, target: string)
    requires pat != [] && |target| >= 2 && target[0] !in pat && target[|target| - 1] !in pat
    ensures Absent(Reduced("", t, pat), target) <==> !Uncovers(t, pat, target)
  {
    hide Push, Reduced, Occurs, ReducesTo;
    if x, w, y :| ReducesTo(t, pat, target, x, w, y) {
      UncoveredOccurs(t, pat, target, x, w, y);
      SplitOccurs(Reduced("", x, pat), target, Reduced("", y, pat));
    }
    if i: nat :| Occurs(Reduced("", t, pat), target, i) {
      var left, right := OccurrenceSplits(Reduced("", t, pat), target, i);
      var x, w, y := OccursUncovered(t, pat, target, left, right);
    }
  }

  lemma OccursUncovered(t: string, pat: string, target: string, left: string, right: string) returns (x: string, w: string, y: string)
    requires pat != [] && |target| >= 2 && target[0] !in pat && target[|target| - 1] !in pat
    requires Reduced("", t, pat) == left + target + right
    ensures ReducesTo(t, pat, target, x, w, y)
  {
    hide Push, Reduced;
    var n := |target| - 1;
    var c, d, middle := target[0], target[n], target[1..n];
    assert target == [c] + middle + [d];
    assert left + target + right == left + [c] + (middle + [d] + right);
    var rest, m;
    x, rest := ReducedLifts(t, pat, left, c, middle + [d] + right);
    m, y := ReducedLifts(rest, pat, middle, d, right);
    w := [c] + m + [d];
    ReducedBetween(c, m, d, pat);
    assert x + [c] + (m + [d] + y) == x + w + y;
  }

  lemma ReducedBetween(c: char, m: string, d: char, pat: string)
    requires pat != [] && c !in pat && d !in pat
    ensures Reduced("", [c] + m + [d], pat) == [c] + Reduced("", m, pat) + [d]
  {
    hide Push, Reduced;
    assert "" + [c] + m == [c] + m && [c] + m + [d] + "" == [c] + m + [d];
    ReducedSplits("", c, m, pat);
    ReducedSplits([c] + m, d, "", pat);
    ReducedEmpty(pat);
  }

  const CLASS := "class "
  const INNER := "__1::"

  /** The text before the last of the three clean-up steps. */
  function Tidied(name: string): string {
    Collapsed(false, Reduced("", name, CLASS))
  }

  // ----- What the first two steps compute, without naming how -----

  /** No proper prefix of the pattern is also its suffix, so occurrences never overlap. */
  ghost predicate Unbordered(pat: string) {
    forall k :: 0 < k < |pat| ==> pat[..k] != pat[|pat| - k..]
  }

  lemma FirstOnlyOnce(pat: string)
    requires forall i :: 0 < i < |pat| ==> pat[i] != pat[0]
    ensures Unbordered(pat)
  {
    forall k | 0 < k < |pat|
      ensures pat[..k] != pat[|pat| - k..]
    {
      assert pat[..k][0] == pat[0] && pat[|pat| - k..][0] == pat[|pat| - k];
    }
  }

  /** Of a pattern pushed onto the stack nothing is popped before its last character. */
  lemma {:induction false} ReducedPattern(stack: string, pat: string, k: nat)
    requires pat != [] && Unbordered(pat) && k < |pat|
    ensures Reduced(stack, pat[..k], pat) == stack + pat[..k]
  {
    hide Reduced, Push, Unbordered;
    if k == 0 {
      ReducedNothing(stack, pat);
      assert pat[..0] == "" && stack + "" == stack;
    } else {
      ReducedPattern(stack, pat, k - 1);
      assert pat[..k] == pat[..k - 1] + [pat[k - 1]];
      ReducedConcat(stack, pat[..k - 1], [pat[k - 1]], pat);
      ReducedOne(stack + pat[..k - 1], pat[k - 1], pat);
      NotYet(stack, pat, k);
    }
  }

  lemma ReducedNothing(stack: string, pat: string)
    ensures Reduced(stack, "", pat) == stack
  {
  }

  lemma ReducedOne(stack: string, c: char, pat: string)
    ensures Reduced(stack, [c], pat) == Push(stack, c, pat)
  {
    hide Push;
  }

  lemma NotYet(stack: string, pat: string, k: nat)
    requires Unbordered(pat) && 0 < k < |pat|
    ensures Push(stack + pat[..k - 1], pat[k - 1], pat) == stack + pat[..k]
  {
    var s := stack + pat[..k];
    assert stack + pat[..k - 1] + [pat[k - 1]] == s;
    assert s[|s| - k..] == pat[..k];
    if |pat| <= |s| {
      var end := s[|s| - |pat|..|s| - |pat| + |pat|];
      assert end[|pat| - k..] == s[|s| - k..];
    }
  }

  lemma PatternPops(stack: string, pat: string)
    requires pat != [] && Unbordered(pat)
    ensures Reduced(stack, pat, pat) == stack
  {
    hide Reduced, Unbordered;
    var n := |pat| - 1;
    ReducedPattern(stack, pat, n);
    assert pat == pat[..n] + [pat[n]];
    ReducedConcat(stack, pat[..n], [pat[n]], pat);
    ReducedOne(stack + pat[..n], pat[n], pat);
    var s := stack + pat;
    assert stack + pat[..n] + [pat[n]] == s;
    assert s[|s| - |pat|..|s| - |pat| + |pat|] == pat && s[..|s| - |pat|] == stack;
  }

  /** Whatever stands around it, an occurrence of a pattern that cannot overlap itself goes. */
  lemma ErasedAnywhere(a: string, pat: string, b: string)
    requires pat != [] && Unbordered(pat)
    ensures Reduced("", a + pat + b, pat) == Reduced("", a + b, pat)
  {
    hide Reduced, Unbordered;
    var stack := Reduced("", a, pat);
    assert a + pat + b == a + (pat + b);
    ReducedConcat("", a, pat + b, pat);
    ReducedConcat(stack, pat, b, pat);
    PatternPops(stack, pat);
    ReducedConcat("", a, b, pat);
  }

  /** The space between two closing brackets goes, whatever stands around them. */
  lemma {:induction false} CollapsedAnywhere(p: bool, a: string, b: string)
    ensures Collapsed(p, a + "> >" + b) == Collapsed(p, a + ">>" + b)
    decreases |a|
  {
    hide Collapsed;
    if a == "" {
      assert "" + "> >" + b == SPACED + b && "" + ">>" + b == CLOSED + b;
      CollapsedSpaced(p, b);
    } else {
      var c, rest := a[0], a[1..];
      assert a + "> >" + b == [c] + (rest + "> >" + b) && a + ">>" + b == [c] + (rest + ">>" + b);
      CollapsedCons(p, c, rest + "> >" + b);
      CollapsedCons(p, c, rest + ">>" + b);
      if rest == "" {
        assert (rest + "> >" + b)[0] == '>' && (rest + ">>" + b)[0] == '>';
      }
      CollapsedAnywhere(c == '>', rest, b);
      CollapsedAnywhere(false, rest, b);
    }
  }

  /** Text with the class prefix or a spaced pair cleans up like the text without. */
  lemma TidiedRewrites(a: string, b: string)
    ensures Tidied(a + "class " + b) == Tidied(a + b)
    ensures Tidied(a + "> >" + b) == Tidied(a + ">>" + b)
  {
    hide Reduced, Collapsed, Unbordered;
    FirstOnlyOnce(CLASS);
    ErasedAnywhere(a, CLASS, b);
    SplitAtBracket(a, " ", b);
    SplitAtBracket(a, "", b);
    SpaceStays();
    assert a + ">" + " " + ">" + b == a + "> >" + b && a + ">" + "" + ">" + b == a + ">>" + b;
    var x, y := Reduced("", a, CLASS), Reduced("", b, CLASS);
    assert x + ">" + " " + ">" + y == x + "> >" + y && x + ">" + "" + ">" + y == x + ">>" + y;
    CollapsedAnywhere(false, Reduced("", a, CLASS), Reduced("", b, CLASS));
  }

  lemma SpaceStays()
    ensures Reduced("", " ", CLASS) == " " && Reduced("", "", CLASS) == ""
  {
    AbsentByFirst(" ", CLASS);
    ReducedOfAbsent(" ", CLASS);
    ReducedNothing("", CLASS);
  }

  lemma SplitAtBracket(a: string, between: string, b: string)
    ensures Reduced("", a + ">" + between + ">" + b, CLASS)
      == Reduced("", a, CLASS) + ">" + Reduced("", between, CLASS) + ">" + Reduced("", b, CLASS)
  {
    hide Reduced;
    assert a + ">" + between + ">" + b == (a + ['>'] + between) + ['>'] + b;
    ReducedSplits(a + ['>'] + between, '>', b, CLASS);
    ReducedSplits(a, '>', between, CLASS);
  }

  /** Text with neither is left alone. */
  lemma TidiedOfClean(name: string)
    requires Absent(name, "class ") && Absent(name, "> >")
    ensures Tidied(name) == name
  {
    hide Reduced, Collapsed, Occurs;
    ReducedOfAbsent(name, CLASS);
    CollapsedOfAbsent(false, name);
  }

  lemma PushHasNone(stack: string, c: char, pat: string)
    requires pat != "" && Absent(stack, pat)
    ensures Absent(Push(stack, c, pat), pat)
  {
    var pushed := stack + [c];
    if EndsWith(pushed, pat) {
      var n := |pushed| - |pat|;
      assert pushed[..n] == stack[..n];
      AbsentInPrefix(stack, pat, n);
    } else {
      forall i: nat
        ensures !Occurs(pushed, pat, i)
      {
        if i + |pat| <= |stack| {
          assert pushed[i..i + |pat|] == stack[i..i + |pat|];
          assert !Occurs(stack, pat, i);
        }
      }
    }
  }

  lemma {:induction false} ReducedHasNone(stack: string, s: string, pat: string)
    requires pat != "" && Absent(stack, pat)
    ensures Absent(Reduced(stack, s, pat), pat)
    decreases |s|
  {
    hide Absent, Push;
    if s != "" {
      PushHasNone(stack, s[0], pat);
      ReducedHasNone(Push(stack, s[0], pat), s[1..], pat);
    }
  }

  lemma AbsentCons(c: char, s: string, pat: string)
    requires Absent(s, pat) && !Occurs([c] + s, pat, 0)
    ensures Absent([c] + s, pat)
  {
    hide Occurs;
    assert ([c] + s)[1..] == s;
    forall i: nat
      ensures !Occurs([c] + s, pat, i)
    {
      if i > 0 {
        OccursShift([c] + s, pat, 1, i - 1);
      }
    }
  }

  lemma CollapsedHead(s: string)
    ensures s == "" <==> Collapsed(false, s) == ""
    ensures s != "" ==> Collapsed(false, s)[0] == s[0]
  {
  }

  /** Collapsed text has no spaced pair, not even with a closing bracket before it. */
  lemma {:induction false} CollapsedHasNone(p: bool, s: string)
    ensures Absent(Collapsed(p, s), SPACED)
    ensures p ==> Absent(['>'] + Collapsed(p, s), SPACED)
    decreases |s|
  {
    hide Occurs, Absent, Collapsed;
    if s == "" {
      CollapsedNothing(p);
      AbsentShort("");
      AbsentShort(['>'] + "");
    } else {
      var c, rest := s[0], s[1..];
      assert s == [c] + rest;
      CollapsedCons(p, c, rest);
      CollapsedHead(rest);
      CollapsedHasNone(false, rest);
      CollapsedHasNone(c == '>', rest);
      var t := Collapsed(p, s);
      if !(p && c == ' ' && rest != "" && rest[0] == '>') && c != '>' {
        SpacedAtStart(t);
        AbsentCons(c, Collapsed(false, rest), SPACED);
      }
      if p {
        SpacedAtStart(['>'] + t);
        AbsentCons('>', t, SPACED);
      }
    }
  }

  lemma CollapsedNothing(p: bool)
    ensures Collapsed(p, "") == ""
  {
  }

  lemma AbsentShort(s: string)
    requires |s| < |SPACED|
    ensures Absent(s, SPACED)
  {
  }

  /** What a text without closing brackets spells in the collapsed text, it spells in the text. */
  lemma {:induction false} CollapsedPrefix(s: string, pat: string)
    requires '>' !in pat && pat <= Collapsed(false, s)
    ensures pat <= s
    decreases |s|
  {
    hide Collapsed;
    if pat != "" {
      CollapsedHead(s);
      var rest := s[1..];
      assert s == [s[0]] + rest;
      CollapsedCons(false, s[0], rest);
      assert pat[0] == s[0];
      assert Collapsed(false, s)[1..] == Collapsed(false, rest);
      CollapsedPrefix(rest, pat[1..]);
      assert pat == [pat[0]] + pat[1..];
    }
  }

  lemma OccursAtStart(s: string, pat: string)
    ensures Occurs(s, pat, 0) <==> pat <= s
  {
    if |pat| <= |s| {
      assert s[0..0 + |pat|] == s[..|pat|];
    }
  }

  lemma {:induction false} CollapsedKeepsAbsent(p: bool, s: string, pat: string)
    requires pat != "" && '>' !in pat && Absent(s, pat)
    ensures Absent(Collapsed(p, s), pat)
    decreases |s|
  {
    hide Occurs, Absent, Collapsed;
    if s == "" {
      CollapsedNothing(p);
    } else {
      var c, rest := s[0], s[1..];
      assert s == [c] + rest;
      CollapsedCons(p, c, rest);
      AbsentShift(s, pat, 1);
      CollapsedKeepsAbsent(false, rest, pat);
      CollapsedKeepsAbsent(c == '>', rest, pat);
      if !(p && c == ' ' && rest != "" && rest[0] == '>') {
        if Occurs([c] + Collapsed(c == '>', rest), pat, 0) {
          NotAtStart(c, rest, pat);
          assert false;
        }
        AbsentCons(c, Collapsed(c == '>', rest), pat);
      }
    }
  }

  lemma NotAtStart(c: char, rest: string, pat: string)
    requires pat != "" && '>' !in pat && Absent([c] + rest, pat)
    ensures !Occurs([c] + Collapsed(c == '>', rest), pat, 0)
  {
    hide Occurs, Collapsed;
    var t := [c] + Collapsed(c == '>', rest);
    OccursAtStart(t, pat);
    if pat <= t {
      assert pat[0] == t[0] == c;
      assert pat[1..] <= t[1..];
      assert t[1..] == Collapsed(false, rest);
      CollapsedPrefix(rest, pat[1..]);
      assert pat == [c] + pat[1..];
      OccursAtStart([c] + rest, pat);
    }
  }

  /** After the first two steps neither is left: bringing brackets together cannot spell the prefix. */
  lemma TidiedIsClean(name: string)
    ensures Absent(Tidied(name), "class ") && Absent(Tidied(name), "> >")
  {
    hide Reduced, Collapsed, Occurs, Absent;
    AbsentByFirst("", CLASS);
    ReducedHasNone("", name, CLASS);
    CollapsedKeepsAbsent(false, Reduced("", name, CLASS), CLASS);
    CollapsedHasNone(false, Reduced("", name, CLASS));
  }

  lemma Ends()
    ensures SPACED[0] !in INNER && SPACED[|SPACED| - 1] !in INNER && CLASS[0] !in INNER && CLASS[|CLASS| - 1] !in INNER
    ensures INNER != [] && |SPACED| == 3 && |CLASS| == 6
  {
  }

  /**
    The clean-up that follows demangling. The last step erases the inner namespace everywhere,
    but it can bring the other two patterns back; it does exactly where it uncovers them.
  */
  method CleanName(name: string) returns (s: string)
    ensures s == Reduced("", Collapsed(false, Reduced("", name, "class ")), "__1::")
    ensures s == Reduced("", Tidied(name), INNER)
    ensures Absent(s, "__1::")
    ensures Absent(s, SPACED) <==> !Uncovers(Tidied(name), INNER, SPACED)
    ensures Absent(s, CLASS) <==> !Uncovers(Tidied(name), INNER, CLASS)
  {
    hide Reduced, Collapsed, Absent, Occurs, Uncovers;
    var unclassed := EraseAll(name, CLASS);
    var collapsed := CollapseBrackets(unclassed);
    s := EraseAll(collapsed, INNER);
    Ends();
    UncoversExactly(collapsed, INNER, SPACED);
    UncoversExactly(collapsed, INNER, CLASS);
  }

  lemma AbsentByFirst(s: string, pat: string)
    requires pat != [] && pat[0] !in s
    ensures Absent(s, pat)
  {
    forall i: nat
      ensures !Occurs(s, pat, i)
    {
      if i + |pat| <= |s| {
        assert s[i..i + |pat|][0] == s[i];
      }
    }
  }

  lemma InnerVanishes()
    ensures Reduced("", INNER, INNER) == ""
  {
    assert INNER[0..0 + |INNER|] == INNER;
    ReducedIgnoresFirst(INNER, INNER, 0);
    assert INNER[..0] + INNER[0 + |INNER|..] == "";
    ReducedEmpty(INNER);
  }

  lemma PairUntouched()
    ensures Tidied("> __1::>") == "> __1::>"
  {
    AbsentByFirst("> __1::>", CLASS);
    ReducedOfAbsent("> __1::>", CLASS);
    hide Reduced;
    assert Collapsed(false, "> __1::>") == "> __1::>";
  }

  /** A cleaned name can contain a spaced pair of brackets. */
  lemma CleanedPair()
    ensures Tidied("> __1::>") == "> __1::>" && Reduced("", Tidied("> __1::>"), INNER) == SPACED
  {
    hide Reduced, Push, Tidied;
    PairUntouched();
    InnerVanishes();
    ReducedEmpty(INNER);
    ReducedSplits("", '>', "", INNER);
    ReducedSplits(INNER, '>', "", INNER);
    ReducedSplits(">", ' ', INNER + ">", INNER);
    assert "" + ['>'] + "" == ">" && INNER + ['>'] + "" == INNER + ">";
    assert ">" + [' '] + (INNER + ">") == "> __1::>";
  }
}
