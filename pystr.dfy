/** The few pieces of Python's `str` that the chat loop relies on:
    substring search (`in`, `find`), `split` with an explicit separator,
    and its inverse `sep.join`. Strings are sequences of characters. */
module PyStr {

  datatype Option<+T> = None | Some(value: T)

  /** `pat` occurs in `s` starting at index `i`. */
  predicate OccursAt(s: string, pat: string, i: nat)
  {
    i + |pat| <= |s| && s[i..i + |pat|] == pat
  }

  /** Python's `pat in s`. */
  ghost predicate Contains(s: string, pat: string)
  {
    exists i :: 0 <= i && OccursAt(s, pat, i)
  }

  /** A marker whose last character is a newline and which has no other newline,
      such as "```python\n" or "```\n". Two occurrences of such a marker cannot
      overlap one another's newline, which is what lets a left-to-right scan
      find the boundaries a reader expects. */
  predicate NewlineTerminated(m: string)
  {
    |m| >= 1 && m[|m| - 1] == '\n' && forall i :: 0 <= i < |m| - 1 ==> m[i] != '\n'
  }

  /** Python's `s.find(pat, start)`, with `None` in place of -1: the first
      index at or after `start` where `pat` occurs. */
  function Find(s: string, pat: string, start: nat): (r: Option<nat>)
    requires start <= |s|
    ensures r.Some? ==> start <= r.value && OccursAt(s, pat, r.value)
    decreases |s| - start
  {
    if start + |pat| > |s| then None
    else if s[start..start + |pat|] == pat then Some(start)
    else Find(s, pat, start + 1)
  }

  /** What `Find` reports is the first occurrence at or after `start`, and it
      reports nothing only when there is none there. */
  lemma {:induction false} FindFirst(s: string, pat: string, start: nat)
    requires start <= |s|
    ensures Find(s, pat, start).Some? ==>
      forall j: nat :: start <= j < Find(s, pat, start).value ==> !OccursAt(s, pat, j)
    ensures Find(s, pat, start).None? ==> forall j: nat :: start <= j ==> !OccursAt(s, pat, j)
    decreases |s| - start
  {
    if start + |pat| > |s| {
    } else if s[start..start + |pat|] == pat {
    } else {
      FindFirst(s, pat, start + 1);
    }
  }

  /** Searching from the start finds nothing exactly when `pat` is absent. */
  lemma FindAbsent(s: string, pat: string)
    ensures Find(s, pat, 0).None? <==> !Contains(s, pat)
  {
    FindFirst(s, pat, 0);
  }

  /** An occurrence seen in a slice is an occurrence in the whole string. */
  lemma OccursInSlice(s: string, lo: nat, hi: nat, pat: string, i: nat)
    requires lo <= hi <= |s| && OccursAt(s[lo..hi], pat, i)
    ensures OccursAt(s, pat, lo + i)
  {
    forall t | 0 <= t < |pat| ensures s[lo + i + t] == pat[t] {
      assert s[lo..hi][i..i + |pat|][t] == pat[t];
    }
    assert s[lo + i..lo + i + |pat|] == pat;
  }

  /** A string has no occurrence of `pat` if the longer string it starts has none. */
  lemma NoOccurrenceInPrefix(a: string, s: string, pat: string)
    requires a <= s && !Contains(s, pat)
    ensures !Contains(a, pat)
  {
    forall i: nat | i <= |a| ensures !OccursAt(a, pat, i) {
      if i + |pat| <= |a| {
        assert a[i..i + |pat|] == s[i..i + |pat|];
        assert !OccursAt(s, pat, i);
      }
    }
  }

  /** An occurrence with none between `start` and it is the one `Find` reports
      when searching from `start`. */
  lemma {:induction false} FindIsFrom(s: string, pat: string, start: nat, k: nat)
    requires start <= k && OccursAt(s, pat, k)
    requires forall j: nat :: start <= j < k ==> !OccursAt(s, pat, j)
    ensures Find(s, pat, start).Some? && Find(s, pat, start).value == k
    decreases k - start
  {
    if start < k {
      assert !OccursAt(s, pat, start);
      FindIsFrom(s, pat, start + 1, k);
    }
  }

  /** An occurrence with none before it is the one `Find` reports. */
  lemma FindIs(s: string, pat: string, k: nat)
    requires OccursAt(s, pat, k)
    requires forall j: nat :: j < k ==> !OccursAt(s, pat, j)
    ensures Find(s, pat, 0).Some? && Find(s, pat, 0).value == k
  {
    FindIsFrom(s, pat, 0, k);
  }

  /** Appending text cannot move the first occurrence found in a prefix. */
  lemma FindInPrefix(x: string, z: string, pat: string)
    requires Find(x, pat, 0).Some?
    ensures Find(x + z, pat, 0) == Find(x, pat, 0)
  {
    var k := Find(x, pat, 0).value;
    FindFirst(x, pat, 0);
    forall j: nat | j < k ensures !OccursAt(x + z, pat, j) {
      assert (x + z)[j..j + |pat|] == x[j..j + |pat|];
      assert !OccursAt(x, pat, j);
    }
    assert (x + z)[k..k + |pat|] == x[k..k + |pat|];
    FindIs(x + z, pat, k);
  }

  /** If `x` holds no newline-terminated marker `m`, the first `m` in `x + m + y`
      is the one placed right after `x`: no occurrence can straddle the seam,
      because it would need a newline where `m` has none. */
  lemma FirstOccurrenceAfter(x: string, m: string, y: string)
    requires NewlineTerminated(m) && !Contains(x, m)
    ensures Find(x + m + y, m, 0).Some? && Find(x + m + y, m, 0).value == |x|
  {
    var s := x + m + y;
    assert s[|x|..|x| + |m|] == m;
    forall j: nat | j < |x| ensures !OccursAt(s, m, j) {
      if j + |m| <= |x| {
        assert s[j..j + |m|] == x[j..j + |m|];
        assert !OccursAt(x, m, j);
      } else {
        var p := j + |m| - 1;
        assert s[p] == m[p - |x|] != '\n';
        assert s[j..j + |m|][|m| - 1] != '\n';
      }
    }
    FindIs(s, m, |x|);
  }

  /** A string none of whose characters is the first character of `pat`
      does not contain `pat`. */
  lemma MissingChar(s: string, pat: string)
    requires |pat| > 0 && forall i :: 0 <= i < |s| ==> s[i] != pat[0]
    ensures !Contains(s, pat)
  {
    forall i: nat ensures !OccursAt(s, pat, i) {
      if i + |pat| <= |s| {
        assert s[i..i + |pat|][0] == s[i];
      }
    }
  }

  /** A string without a line break. */
  predicate SingleLine(s: string)
  {
    forall i :: 0 <= i < |s| ==> s[i] != '\n'
  }

  /** Two texts without a line break glue into one without a line break. */
  lemma SingleLineConcat(a: string, b: string)
    requires SingleLine(a) && SingleLine(b)
    ensures SingleLine(a + b)
  {
    forall i | 0 <= i < |a + b| ensures (a + b)[i] != '\n' {
      if i >= |a| {
        assert (a + b)[i] == b[i - |a|];
      }
    }
  }

  /** A string is a single line exactly when "\n" does not occur in it. */
  lemma SingleLineNoBreak(s: string)
    ensures SingleLine(s) <==> !Contains(s, "\n")
  {
    if SingleLine(s) {
      MissingChar(s, "\n");
    } else {
      var i :| 0 <= i < |s| && s[i] == '\n';
      assert OccursAt(s, "\n", i);
    }
  }

  /** `s` up to (not including) the first `pat`, or all of `s`: Python's `s.split(pat)[0]`. */
  function Cut(s: string, pat: string): (r: string)
    requires pat != []
    ensures r <= s && !Contains(r, pat)
    ensures forall j: nat :: j < |r| ==> !OccursAt(s, pat, j)
    ensures Contains(s, pat) ==> OccursAt(s, pat, |r|)
    ensures !Contains(s, pat) ==> r == s
  {
    FindAbsent(s, pat);
    FindFirst(s, pat, 0);
    match Find(s, pat, 0)
    case None => s
    case Some(k) =>
      assert !Contains(s[..k], pat) by {
        forall i: nat ensures !OccursAt(s[..k], pat, i) {
          if OccursAt(s[..k], pat, i) {
            OccursInSlice(s, 0, k, pat, i);
          }
        }
      }
      s[..k]
  }

  /** Cutting `x + m + y` at `m`, where `x` holds no `m`, gives back `x`. */
  lemma CutAt(x: string, m: string, y: string)
    requires NewlineTerminated(m) && !Contains(x, m)
    ensures Cut(x + m + y, m) == x
  {
    FirstOccurrenceAfter(x, m, y);
  }

  /** Python's `s.split(sep)` for a non-empty separator: the pieces between
      non-overlapping occurrences of `sep`, scanning from the left. */
  function Split(s: string, sep: string): (parts: seq<string>)
    requires sep != []
    ensures |parts| >= 1
    decreases |s|
  {
    match Find(s, sep, 0)
    case None => [s]
    case Some(k) => [s[..k]] + Split(s[k + |sep|..], sep)
  }

  /** The first piece of a split runs up to the first separator, and there is a
      single piece exactly when the separator is absent. */
  lemma SplitFirst(s: string, sep: string)
    requires sep != []
    ensures Split(s, sep)[0] == Cut(s, sep)
    ensures |Split(s, sep)| == 1 <==> !Contains(s, sep)
  {
    FindAbsent(s, sep);
  }

  /** One step of `split`: the text before the first separator, then the split
      of what follows it. */
  lemma SplitStep(s: string, sep: string, k: nat)
    requires sep != [] && Find(s, sep, 0).Some? && Find(s, sep, 0).value == k
    ensures k + |sep| <= |s|
    ensures Split(s, sep) == [s[..k]] + Split(s[k + |sep|..], sep)
  {
  }

  /** No piece of a split holds the separator. */
  lemma {:induction false} SplitPiecesFree(s: string, sep: string)
    requires sep != []
    ensures forall i :: 0 <= i < |Split(s, sep)| ==> !Contains(Split(s, sep)[i], sep)
    decreases |s|
  {
    SplitFirst(s, sep);
    match Find(s, sep, 0)
    case None =>
    case Some(k) =>
      SplitStep(s, sep, k);
      SplitPiecesFree(s[k + |sep|..], sep);
  }

  /** Python's `sep.join(parts)` for a non-empty list. */
  function Join(parts: seq<string>, sep: string): string
    requires |parts| >= 1
    decreases |parts|
  {
    if |parts| == 1 then parts[0] else parts[0] + sep + Join(parts[1..], sep)
  }

  /** Joining a list that starts with `a`. */
  lemma JoinCons(a: string, parts: seq<string>, sep: string)
    requires |parts| >= 1
    ensures Join([a] + parts, sep) == a + sep + Join(parts, sep)
  {
    assert ([a] + parts)[1..] == parts;
  }

  /** Joining two non-empty lists one after the other. */
  lemma {:induction false} JoinAppend(xs: seq<string>, ys: seq<string>, sep: string)
    requires |xs| >= 1 && |ys| >= 1
    ensures Join(xs + ys, sep) == Join(xs, sep) + sep + Join(ys, sep)
    decreases |xs|
  {
    if |xs| == 1 {
      JoinCons(xs[0], ys, sep);
    } else {
      JoinAppend(xs[1..], ys, sep);
      assert xs + ys == [xs[0]] + (xs[1..] + ys);
      JoinCons(xs[0], xs[1..] + ys, sep);
      JoinCons(xs[0], xs[1..], sep);
    }
  }

  /** Text put in front of a joined list joins its first piece. */
  lemma JoinPrefixFirst(p: string, parts: seq<string>, sep: string)
    requires |parts| >= 1
    ensures Join([p + parts[0]] + parts[1..], sep) == p + Join(parts, sep)
  {
    if |parts| > 1 {
      JoinCons(p + parts[0], parts[1..], sep);
    }
  }

  /** A non-empty list joins to a string that starts with its first piece. */
  lemma JoinStartsWithFirst(parts: seq<string>, sep: string)
    requires |parts| >= 1
    ensures parts[0] <= Join(parts, sep)
  {
  }

  /** A string is the text before an occurrence, the occurrence, and the rest. */
  lemma AroundOccurrence(s: string, pat: string, k: nat)
    requires OccursAt(s, pat, k)
    ensures s == s[..k] + pat + s[k + |pat|..]
  {
    assert s == s[..k] + s[k..k + |pat|] + s[k + |pat|..];
  }

  /** A marker glued between two texts occurs right after the first. */
  lemma OccursAtSeam(x: string, m: string, y: string)
    ensures OccursAt(x + m + y, m, |x|) && Contains(x + m + y, m)
  {
    var s := x + m + y;
    assert s[|x|..|x| + |m|] == m;
    assert OccursAt(s, m, |x|);
  }

  /** Five runs glued together, grouped around the middle or the fourth. */
  lemma Regroup5<T>(a: seq<T>, b: seq<T>, c: seq<T>, d: seq<T>, e: seq<T>)
    ensures a + b + c + d + e == a + b + (c + d + e)
    ensures a + b + c + d + e == (a + b + c) + d + e
  {
    assert a + b + c + d + e == a + b + (c + d + e);
  }

  /** Joining the pieces of a split with the separator gives the string back. */
  lemma {:induction false} SplitJoin(s: string, sep: string)
    requires sep != []
    ensures Join(Split(s, sep), sep) == s
    decreases |s|
  {
    match Find(s, sep, 0)
    case None =>
    case Some(k) =>
      var rest := s[k + |sep|..];
      SplitStep(s, sep, k);
      SplitJoin(rest, sep);
      JoinCons(s[..k], Split(rest, sep), sep);
      AroundOccurrence(s, sep, k);
  }

  /** The second piece of a split is the text after the first separator, cut at
      the next one: Python's `s.split(sep)[1]`. */
  lemma SplitSecond(s: string, sep: string, k: nat)
    requires sep != [] && Find(s, sep, 0).Some? && Find(s, sep, 0).value == k
    ensures |Split(s, sep)| >= 2
    ensures Split(s, sep)[1] == Cut(s[k + |sep|..], sep)
  {
    SplitStep(s, sep, k);
    SplitFirst(s[k + |sep|..], sep);
  }

  /** Splitting `x + sep + y` where `x` holds no separator. */
  lemma SplitAfterPiece(x: string, y: string, sep: string)
    requires NewlineTerminated(sep) && !Contains(x, sep)
    ensures Split(x, sep) == [x]
    ensures Split(x + sep + y, sep) == [x] + Split(y, sep)
  {
    var s := x + sep + y;
    FirstOccurrenceAfter(x, sep, y);
    SplitStep(s, sep, |x|);
    assert s[..|x|] == x;
    assert s[|x| + |sep|..] == y;
  }

  /** Text appended after the first separator only changes the later pieces. */
  lemma SplitShift(x: string, z: string, sep: string, k: nat)
    requires sep != [] && Find(x, sep, 0).Some? && Find(x, sep, 0).value == k
    ensures k + |sep| <= |x|
    ensures Split(x + z, sep) == [x[..k]] + Split(x[k + |sep|..] + z, sep)
  {
    FindInPrefix(x, z, sep);
    SplitStep(x + z, sep, k);
    assert (x + z)[..k] == x[..k];
    assert (x + z)[k + |sep|..] == x[k + |sep|..] + z;
  }

  /** Splitting on a newline-terminated separator distributes over a separator
      placed between two strings. */
  lemma {:induction false} SplitConcat(x: string, y: string, sep: string)
    requires NewlineTerminated(sep)
    ensures Split(x + sep + y, sep) == Split(x, sep) + Split(y, sep)
    decreases |x|
  {
    match Find(x, sep, 0)
    case None =>
      FindAbsent(x, sep);
      SplitAfterPiece(x, y, sep);
    case Some(k) =>
      SplitConcat(x[k + |sep|..], y, sep);
      SplitConcatStep(x, y, sep, k);
  }

  /** The inductive step of `SplitConcat`: past the first separator of `x`. */
  lemma SplitConcatStep(x: string, y: string, sep: string, k: nat)
    requires sep != [] && Find(x, sep, 0).Some? && Find(x, sep, 0).value == k
    requires k + |sep| <= |x|
    requires Split(x[k + |sep|..] + sep + y, sep) == Split(x[k + |sep|..], sep) + Split(y, sep)
    ensures Split(x + sep + y, sep) == Split(x, sep) + Split(y, sep)
  {
    SplitStep(x, sep, k);
    SplitShiftSep(x, y, sep, k);
    Regroup(Split(x + sep + y, sep), [x[..k]], Split(x[k + |sep|..] + sep + y, sep),
            Split(x[k + |sep|..], sep), Split(y, sep), Split(x, sep));
  }

  /** Re-association of the pieces in `SplitConcatStep`. */
  lemma Regroup<T>(all: seq<T>, head: seq<T>, rest: seq<T>, tail: seq<T>, more: seq<T>, first: seq<T>)
    requires all == head + rest && rest == tail + more && first == head + tail
    ensures all == first + more
  {
    assert head + (tail + more) == (head + tail) + more;
  }

  /** `SplitShift` with a separator at the front of the appended text. */
  lemma SplitShiftSep(x: string, y: string, sep: string, k: nat)
    requires sep != [] && Find(x, sep, 0).Some? && Find(x, sep, 0).value == k
    ensures k + |sep| <= |x|
    ensures Split(x + sep + y, sep) == [x[..k]] + Split(x[k + |sep|..] + sep + y, sep)
  {
    assert x + sep + y == x + (sep + y);
    SplitShift(x, sep + y, sep, k);
    assert x[k + |sep|..] + (sep + y) == x[k + |sep|..] + sep + y;
  }

  /** Joining pieces that hold no newline-terminated separator and splitting
      again gives the same pieces: the partner of `SplitJoin`. */
  lemma {:induction false} JoinSplit(parts: seq<string>, sep: string)
    requires NewlineTerminated(sep) && |parts| >= 1
    requires forall i :: 0 <= i < |parts| ==> !Contains(parts[i], sep)
    ensures Split(Join(parts, sep), sep) == parts
    decreases |parts|
  {
    if |parts| == 1 {
      SplitAfterPiece(parts[0], "", sep);
    } else {
      JoinSplit(parts[1..], sep);
      JoinSplitStep(parts, sep);
    }
  }

  /** The inductive step of `JoinSplit`: the first piece, then the rest. */
  lemma JoinSplitStep(parts: seq<string>, sep: string)
    requires NewlineTerminated(sep) && |parts| >= 2 && !Contains(parts[0], sep)
    requires Split(Join(parts[1..], sep), sep) == parts[1..]
    ensures Split(Join(parts, sep), sep) == parts
  {
    SplitAfterPiece(parts[0], Join(parts[1..], sep), sep);
    assert parts == [parts[0]] + parts[1..];
  }
}
