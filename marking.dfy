/**
 * The text side of the highlight marker: case-insensitive literal matching of
 * a keyword inside a node name, and the rewrite that wraps every occurrence in
 * the fixed highlight markup (zTreeNodeFuzzySearch.js:213-217).
 *
 * Case folding is ASCII only: `Lower` maps 'A'..'Z' to 'a'..'z' and leaves every
 * other character alone. The keyword is matched as literal text.
 */
module Marking {

  /** Opening tag inserted before every matched occurrence. */
  const Open: string := "<span style=" + ['"'] + "color: whitesmoke;background-color: #00a7d0;" + ['"'] + ">"
  /** Closing tag inserted after every matched occurrence. */
  const Close: string := "</span>"
  /** How many characters one wrapped occurrence adds: `|Open| + |Close|`. */
  const TagLength: nat := 66

  function Lower(c: char): char {
    if 'A' <= c <= 'Z' then (c as int + 32) as char else c
  }

  /** `a` and `b` are equal once both are case folded. */
  predicate FoldEq(a: string, b: string) {
    |a| == |b| && forall i :: 0 <= i < |a| ==> Lower(a[i]) == Lower(b[i])
  }

  /** The keyword `k` occurs (case-insensitively) in `s` starting at index `i`. */
  predicate MatchAt(s: string, k: string, i: int) {
    0 <= i && i + |k| <= |s| && FoldEq(s[i..i + |k|], k)
  }

  /**
   * Some occurrence of `k` exists in `s`: the fuzzy-match test on a string.
   * A keyword longer than the name never occurs; the empty keyword occurs in
   * every name.
   */
  function ContainsFold(s: string, k: string): (b: bool)
    ensures b ==> |k| <= |s|
    ensures |k| == 0 ==> b
  {
    assert |k| == 0 ==> MatchAt(s, k, 0);
    exists i | 0 <= i <= |s| - |k| :: MatchAt(s, k, i)
  }

  /** `xs` with `d` added to every element. */
  function Shift(xs: seq<int>, d: int): (r: seq<int>)
    ensures |r| == |xs| && forall i :: 0 <= i < |xs| ==> r[i] == xs[i] + d
  {
    seq(|xs|, i requires 0 <= i < |xs| => xs[i] + d)
  }

  /**
   * The positions in `s` where the scan of `Wrap` finds an occurrence and
   * wraps it, in increasing order.
   */
  ghost function Starts(s: string, k: string): seq<int>
    requires |k| > 0
    decreases |s|
  {
    if |s| < |k| then []
    else if FoldEq(s[..|k|], k) then [0] + Shift(Starts(s[|k|..], k), |k|)
    else Shift(Starts(s[1..], k), 1)
  }

  /**
   * The global, case-insensitive replace: scanning left to right, every
   * occurrence of `k` that does not overlap an earlier one is replaced by
   * `Open + occurrence + Close`; every other character is copied. The result
   * is longer by exactly one pair of tags per wrapped position.
   */
  function Wrap(s: string, k: string): (r: string)
    requires |k| > 0
    ensures |r| == |s| + TagLength * |Starts(s, k)|
    decreases |s|
  {
    if |s| < |k| then s
    else if FoldEq(s[..|k|], k) then
      assert |Open| + |Close| == TagLength;
      assert |Starts(s, k)| == 1 + |Starts(s[|k|..], k)|;
      Open + s[..|k|] + Close + Wrap(s[|k|..], k)
    else [s[0]] + Wrap(s[1..], k)
  }

  lemma ContainsAt(s: string, k: string, i: int)
    requires MatchAt(s, k, i)
    ensures ContainsFold(s, k)
  {
    assert 0 <= i <= |s| - |k| && MatchAt(s, k, i);
  }

  /** A shifted string still contains an occurrence that lies inside it. */
  lemma MatchShift(p: string, s: string, k: string, i: int)
    requires MatchAt(s, k, i)
    ensures MatchAt(p + s, k, |p| + i)
  {
    assert (p + s)[|p| + i..|p| + i + |k|] == s[i..i + |k|];
  }

  /** An occurrence at the front, or one in the tail, is an occurrence. */
  lemma ContainsFrontOrTail(s: string, k: string)
    requires |s| >= |k|
    ensures FoldEq(s[..|k|], k) ==> ContainsFold(s, k)
    ensures |s| > 0 && ContainsFold(s[1..], k) ==> ContainsFold(s, k)
  {
    if FoldEq(s[..|k|], k) {
      ContainsAt(s, k, 0);
    }
    if |s| > 0 && ContainsFold(s[1..], k) {
      var i :| 0 <= i <= |s[1..]| - |k| && MatchAt(s[1..], k, i);
      MatchShift([s[0]], s[1..], k, i);
      assert [s[0]] + s[1..] == s;
      ContainsAt(s, k, i + 1);
    }
  }

  /** Without an occurrence of the keyword the name is left exactly as it was. */
  lemma {:induction false} WrapWithoutMatch(s: string, k: string)
    requires |k| > 0
    requires !ContainsFold(s, k)
    ensures Wrap(s, k) == s
    decreases |s|
  {
    if |s| >= |k| {
      ContainsFrontOrTail(s, k);
      WrapWithoutMatch(s[1..], k);
    }
  }

  /** Wrapping never shortens a name, and lengthens it when a match exists. */
  lemma {:induction false} WrapLength(s: string, k: string)
    requires |k| > 0
    ensures |Wrap(s, k)| >= |s|
    ensures ContainsFold(s, k) ==> |Wrap(s, k)| > |s|
  {
    if |s| >= |k| {
      if FoldEq(s[..|k|], k) {
        WrapLength(s[|k|..], k);
      } else {
        WrapLength(s[1..], k);
        if ContainsFold(s, k) {
          var i :| 0 <= i <= |s| - |k| && MatchAt(s, k, i);
          assert i != 0;
          assert s[1..][i - 1..i - 1 + |k|] == s[i..i + |k|];
          ContainsAt(s[1..], k, i - 1);
        }
      }
    }
  }

  /** Every position `Wrap` wraps is an occurrence of the keyword. */
  lemma {:induction false} StartsAreMatches(s: string, k: string)
    requires |k| > 0
    ensures forall j :: 0 <= j < |Starts(s, k)| ==> MatchAt(s, k, Starts(s, k)[j])
    decreases |s|
  {
    if |s| < |k| {
    } else if FoldEq(s[..|k|], k) {
      var rest := s[|k|..];
      StartsAreMatches(rest, k);
      assert s[..|k|] + rest == s;
      assert s[0..0 + |k|] == s[..|k|];
      forall j | 0 < j < |Starts(s, k)| ensures MatchAt(s, k, Starts(s, k)[j]) {
        MatchShift(s[..|k|], rest, k, Starts(rest, k)[j - 1]);
      }
    } else {
      var rest := s[1..];
      StartsAreMatches(rest, k);
      assert [s[0]] + rest == s;
      forall j | 0 <= j < |Starts(s, k)| ensures MatchAt(s, k, Starts(s, k)[j]) {
        MatchShift([s[0]], rest, k, Starts(rest, k)[j]);
      }
    }
  }

  /** The wrapped positions increase and the wrapped segments do not overlap. */
  lemma {:induction false} StartsDisjoint(s: string, k: string)
    requires |k| > 0
    ensures forall j :: 0 <= j < |Starts(s, k)| ==> 0 <= Starts(s, k)[j]
    ensures forall i, j :: 0 <= i < j < |Starts(s, k)| ==> Starts(s, k)[i] + |k| <= Starts(s, k)[j]
    decreases |s|
  {
    if |s| < |k| {
    } else if FoldEq(s[..|k|], k) {
      StartsDisjoint(s[|k|..], k);
    } else {
      StartsDisjoint(s[1..], k);
    }
  }

  /**
   * The replace is global: every occurrence of the keyword in the name lies
   * inside, or starts, a wrapped segment.
   */
  lemma {:induction false} WrapCoversEveryMatch(s: string, k: string, i: int)
    requires |k| > 0
    requires MatchAt(s, k, i)
    ensures exists j :: 0 <= j < |Starts(s, k)| && Starts(s, k)[j] <= i < Starts(s, k)[j] + |k|
    decreases |s|
  {
    var st := Starts(s, k);
    if FoldEq(s[..|k|], k) {
      if i >= |k| {
        var rest := s[|k|..];
        assert rest[i - |k|..i - |k| + |k|] == s[i..i + |k|];
        WrapCoversEveryMatch(rest, k, i - |k|);
        var j :| 0 <= j < |Starts(rest, k)| && Starts(rest, k)[j] <= i - |k| < Starts(rest, k)[j] + |k|;
        assert st[j + 1] == Starts(rest, k)[j] + |k|;
      } else {
        assert st[0] == 0;
      }
    } else {
      assert s[0..0 + |k|] == s[..|k|];
      assert i != 0;
      var rest := s[1..];
      assert rest[i - 1..i - 1 + |k|] == s[i..i + |k|];
      WrapCoversEveryMatch(rest, k, i - 1);
      var j :| 0 <= j < |Starts(rest, k)| && Starts(rest, k)[j] <= i - 1 < Starts(rest, k)[j] + |k|;
      assert st[j] == Starts(rest, k)[j] + 1;
    }
  }

  /** `st` lists increasing, non-overlapping segments of length `|k|` inside `s`. */
  predicate Segs(s: string, k: string, st: seq<int>) {
    (forall j :: 0 <= j < |st| ==> 0 <= st[j] && st[j] + |k| <= |s|) &&
    (forall i, j :: 0 <= i < j < |st| ==> st[i] + |k| <= st[j])
  }

  /** The positions after the first one, relative to the end of the first segment. */
  function Tail(st: seq<int>, k: string): seq<int>
    requires st != []
  {
    Shift(st[1..], -(st[0] + |k|))
  }

  /** The segments after the first one lie inside the rest of the string. */
  lemma SegsTail(s: string, k: string, st: seq<int>)
    requires Segs(s, k, st) && st != []
    ensures Segs(s[st[0] + |k|..], k, Tail(st, k))
  {
    var tail := Tail(st, k);
    forall j | 0 <= j < |tail| ensures 0 <= tail[j] && tail[j] + |k| <= |s[st[0] + |k|..]| {
      assert st[0] + |k| <= st[j + 1];
    }
    forall i, j | 0 <= i < j < |tail| ensures tail[i] + |k| <= tail[j] {
      assert tail[i] == st[i + 1] - (st[0] + |k|) && tail[j] == st[j + 1] - (st[0] + |k|);
    }
  }

  /**
   * Markup placed by position: `s` with `pre` before and `post` after the
   * segment of length `|k|` at each position in `st`, and every other
   * character copied. `WrapIsMark` shows that the replace is this with `Open`
   * and `Close` at the positions of `Starts`.
   */
  function Mark(s: string, k: string, st: seq<int>, pre: string, post: string): string
    requires Segs(s, k, st)
    decreases |st|
  {
    if st == [] then s
    else
      SegsTail(s, k, st);
      s[..st[0]] + pre + s[st[0]..st[0] + |k|] + post + Mark(s[st[0] + |k|..], k, Tail(st, k), pre, post)
  }

  /** One step of `Mark`: the first segment is wrapped, the rest is marked. */
  lemma MarkUnfold(s: string, k: string, st: seq<int>, pre: string, post: string)
    requires Segs(s, k, st) && st != []
    ensures Segs(s[st[0] + |k|..], k, Tail(st, k))
    ensures Mark(s, k, st, pre, post) ==
      s[..st[0]] + pre + s[st[0]..st[0] + |k|] + post + Mark(s[st[0] + |k|..], k, Tail(st, k), pre, post)
  {
    SegsTail(s, k, st);
  }

  /** Segments inside `t` are segments inside `[x] + t`, one place further on. */
  lemma SegsCons(x: char, t: string, k: string, st: seq<int>)
    requires Segs(t, k, st)
    ensures Segs([x] + t, k, Shift(st, 1))
  {
    var sh := Shift(st, 1);
    forall j | 0 <= j < |sh| ensures 0 <= sh[j] && sh[j] + |k| <= |[x] + t| {
      assert sh[j] == st[j] + 1;
    }
    forall i, j | 0 <= i < j < |sh| ensures sh[i] + |k| <= sh[j] {
      assert sh[i] == st[i] + 1 && sh[j] == st[j] + 1;
    }
  }

  /** Shifting every position by one does not change the relative tail. */
  lemma TailShift(st: seq<int>, k: string)
    requires st != []
    ensures Tail(Shift(st, 1), k) == Tail(st, k)
  {
    var sh := Shift(st, 1);
    var a, b := Tail(sh, k), Tail(st, k);
    forall j | 0 <= j < |a| ensures a[j] == b[j] {
      assert sh[1..][j] == sh[j + 1] == st[j + 1] + 1;
    }
  }

  /** Slices of `[x] + t` one place further on are slices of `t`. */
  lemma ConsSlices(x: char, t: string, p: int, q: int)
    requires 0 <= p <= q <= |t|
    ensures ([x] + t)[..p + 1] == [x] + t[..p]
    ensures ([x] + t)[p + 1..q + 1] == t[p..q]
    ensures ([x] + t)[q + 1..] == t[q..]
  {
  }

  /** Marking after one extra leading character is marking shifted by one. */
  lemma MarkCons(x: char, t: string, k: string, st: seq<int>, pre: string, post: string)
    requires Segs(t, k, st)
    ensures Segs([x] + t, k, Shift(st, 1))
    ensures Mark([x] + t, k, Shift(st, 1), pre, post) == [x] + Mark(t, k, st, pre, post)
  {
    SegsCons(x, t, k, st);
    if st != [] {
      var s, sh, p := [x] + t, Shift(st, 1), st[0];
      assert sh[0] == p + 1;
      MarkUnfold(t, k, st, pre, post);
      MarkUnfold(s, k, sh, pre, post);
      ConsSlices(x, t, p, p + |k|);
      TailShift(st, k);
      ConsAppend(x, t[..p], pre, t[p..p + |k|], post, Mark(t[p + |k|..], k, Tail(st, k), pre, post));
    }
  }

  lemma ConsAppend(x: char, a: string, b: string, c: string, d: string, e: string)
    ensures [x] + a + b + c + d + e == [x] + (a + b + c + d + e)
  {
  }

  /** `Mark` with its first segment at the very front. */
  lemma MarkAtFront(s: string, k: string, st: seq<int>, pre: string, post: string)
    requires Segs(s, k, st) && st != [] && st[0] == 0
    ensures Segs(s[|k|..], k, Tail(st, k))
    ensures Mark(s, k, st, pre, post) == pre + s[..|k|] + post + Mark(s[|k|..], k, Tail(st, k), pre, post)
  {
    MarkUnfold(s, k, st, pre, post);
    assert s[..0] == [] && s[0..0 + |k|] == s[..|k|];
    EmptyAppend(pre, s[..|k|], post, Mark(s[|k|..], k, Tail(st, k), pre, post));
  }

  lemma EmptyAppend(a: string, b: string, c: string, d: string)
    ensures [] + a + b + c + d == a + b + c + d
  {
  }

  /** The tail of a first segment at 0 followed by shifted positions is those positions. */
  lemma TailOfFirst(xs: seq<int>, k: string)
    ensures Tail([0] + Shift(xs, |k|), k) == xs
  {
    var st := [0] + Shift(xs, |k|);
    var a := Tail(st, k);
    forall j | 0 <= j < |a| ensures a[j] == xs[j] {
      assert st[1..][j] == st[j + 1] == xs[j] + |k|;
    }
  }

  /** The positions of `Starts` are segments for `Mark`. */
  lemma StartsSegs(s: string, k: string)
    requires |k| > 0
    ensures Segs(s, k, Starts(s, k))
  {
    StartsAreMatches(s, k);
    StartsDisjoint(s, k);
  }

  /**
   * The replace puts the tags exactly around the positions of `Starts`: `Wrap`
   * is `Mark` with `Open` and `Close` at the leftmost non-overlapping
   * occurrences of the keyword.
   */
  lemma {:induction false} WrapIsMark(s: string, k: string)
    requires |k| > 0
    ensures Segs(s, k, Starts(s, k))
    ensures Wrap(s, k) == Mark(s, k, Starts(s, k), Open, Close)
    decreases |s|, 1
  {
    StartsSegs(s, k);
    if |s| < |k| {
    } else if FoldEq(s[..|k|], k) {
      WrapIsMarkAtMatch(s, k);
    } else {
      WrapIsMarkPastChar(s, k);
    }
  }

  lemma {:induction false} WrapIsMarkAtMatch(s: string, k: string)
    requires |k| > 0 && |s| >= |k| && FoldEq(s[..|k|], k)
    ensures Segs(s, k, Starts(s, k))
    ensures Wrap(s, k) == Mark(s, k, Starts(s, k), Open, Close)
    decreases |s|, 0
  {
    var st, rest := Starts(s, k), s[|k|..];
    WrapIsMark(rest, k);
    StartsSegs(s, k);
    TailOfFirst(Starts(rest, k), k);
    MarkAtFront(s, k, st, Open, Close);
  }

  lemma {:induction false} WrapIsMarkPastChar(s: string, k: string)
    requires |k| > 0 && |s| >= |k| && !FoldEq(s[..|k|], k)
    ensures Segs(s, k, Starts(s, k))
    ensures Wrap(s, k) == Mark(s, k, Starts(s, k), Open, Close)
    decreases |s|, 0
  {
    var rest := s[1..];
    WrapIsMark(rest, k);
    MarkCons(s[0], rest, k, Starts(rest, k), Open, Close);
    assert [s[0]] + rest == s;
  }

  /** `w` with every `Open` and `Close` tag removed, scanning left to right. */
  ghost function Strip(w: string): string
    decreases |w|
  {
    if w == [] then []
    else if |w| >= |Open| && w[..|Open|] == Open then Strip(w[|Open|..])
    else if |w| >= |Close| && w[..|Close|] == Close then Strip(w[|Close|..])
    else [w[0]] + Strip(w[1..])
  }

  lemma {:induction false} StripPlain(m: string, x: string)
    requires '<' !in m
    ensures Strip(m + x) == m + Strip(x)
    decreases |m|
  {
    if m == [] {
      assert m + x == x;
    } else {
      var w := m + x;
      assert w[0] == m[0] && Open[0] == '<' && Close[0] == '<';
      assert |w| >= |Open| ==> w[..|Open|][0] != Open[0];
      assert |w| >= |Close| ==> w[..|Close|][0] != Close[0];
      assert w[1..] == m[1..] + x;
      StripPlain(m[1..], x);
    }
  }

  lemma StripOpen(x: string)
    ensures Strip(Open + x) == Strip(x)
  {
    var w := Open + x;
    assert w[..|Open|] == Open && w[|Open|..] == x;
  }

  lemma StripClose(x: string)
    ensures Strip(Close + x) == Strip(x)
  {
    var w := Close + x;
    assert w[1] == '/' && Open[1] == 's';
    assert |w| >= |Open| ==> w[..|Open|][1] != Open[1];
    assert w[..|Close|] == Close && w[|Close|..] == x;
  }

  /** Removing the tags around one wrapped occurrence leaves the occurrence. */
  lemma StripSegment(m: string, r: string)
    requires '<' !in m
    ensures Strip(Open + m + Close + r) == m + Strip(r)
  {
    assert Open + m + Close + r == Open + (m + (Close + r));
    StripOpen(m + (Close + r));
    StripPlain(m, Close + r);
    StripClose(r);
  }

  /**
   * Removing the tags from a marked name gives the name back, provided the
   * name itself contains no `<`: the marker adds tags and nothing else.
   */
  lemma {:induction false} StripWrap(s: string, k: string)
    requires |k| > 0
    requires '<' !in s
    ensures Strip(Wrap(s, k)) == s
    decreases |s|, 1
  {
    if |s| < |k| {
      StripPlain(s, []);
      assert s + [] == s;
    } else if FoldEq(s[..|k|], k) {
      StripWrapAtMatch(s, k);
    } else {
      StripWrapPastChar(s, k);
    }
  }

  lemma {:induction false} StripWrapAtMatch(s: string, k: string)
    requires |k| > 0 && |s| >= |k| && FoldEq(s[..|k|], k)
    requires '<' !in s
    ensures Strip(Wrap(s, k)) == s
    decreases |s|, 0
  {
    var m, rest := s[..|k|], s[|k|..];
    assert m + rest == s;
    assert '<' !in m && '<' !in rest;
    StripWrap(rest, k);
    StripSegment(m, Wrap(rest, k));
  }

  lemma {:induction false} StripWrapPastChar(s: string, k: string)
    requires |k| > 0 && |s| >= |k| && !FoldEq(s[..|k|], k)
    requires '<' !in s
    ensures Strip(Wrap(s, k)) == s
    decreases |s|, 0
  {
    var rest := s[1..];
    assert [s[0]] + rest == s;
    assert '<' !in rest;
    StripWrap(rest, k);
    StripPlain([s[0]], Wrap(rest, k));
  }

  /** The marker changes a name exactly when the keyword occurs in it. */
  lemma WrapIsIdentityIff(s: string, k: string)
    requires |k| > 0
    ensures Wrap(s, k) == s <==> !ContainsFold(s, k)
  {
    WrapLength(s, k);
    if !ContainsFold(s, k) {
      WrapWithoutMatch(s, k);
    }
  }

  /** The matched text itself survives the rewrite, so the keyword still occurs. */
  lemma {:induction false} WrapKeepsMatch(s: string, k: string)
    requires |k| > 0
    requires ContainsFold(s, k)
    ensures ContainsFold(Wrap(s, k), k)
  {
    if FoldEq(s[..|k|], k) {
      var w := Open + s[..|k|] + Close + Wrap(s[|k|..], k);
      assert w[|Open|..|Open| + |k|] == s[..|k|];
      ContainsAt(w, k, |Open|);
    } else {
      var i :| 0 <= i <= |s| - |k| && MatchAt(s, k, i);
      assert i != 0;
      assert s[1..][i - 1..i - 1 + |k|] == s[i..i + |k|];
      ContainsAt(s[1..], k, i - 1);
      WrapKeepsMatch(s[1..], k);
      var j :| 0 <= j <= |Wrap(s[1..], k)| - |k| && MatchAt(Wrap(s[1..], k), k, j);
      MatchShift([s[0]], Wrap(s[1..], k), k, j);
      ContainsAt([s[0]] + Wrap(s[1..], k), k, j + 1);
    }
  }

  /**
   * Marking an already marked name wraps the old markup again: highlights
   * compound unless the name is restored first, which is why every search
   * begins with the restorer.
   */
  lemma WrapCompounds(s: string, k: string)
    requires |k| > 0
    requires ContainsFold(s, k)
    ensures Wrap(Wrap(s, k), k) != Wrap(s, k)
  {
    WrapKeepsMatch(s, k);
    WrapIsIdentityIff(Wrap(s, k), k);
  }

  /** `a` can be obtained from `b` by deleting characters: every character of `a` is kept, in order. */
  ghost predicate Subsequence(a: string, b: string)
    decreases |b|
  {
    if b == [] then a == []
    else (a != [] && a[0] == b[0] && Subsequence(a[1..], b[1..])) || Subsequence(a, b[1..])
  }

  lemma {:induction false} SubsequenceSkip(a: string, p: string, b: string)
    requires Subsequence(a, b)
    ensures Subsequence(a, p + b)
    decreases |p|
  {
    if p != [] {
      SubsequenceSkip(a, p[1..], b);
      assert (p + b)[1..] == p[1..] + b;
    } else {
      assert p + b == b;
    }
  }

  lemma {:induction false} SubsequenceConcat(a: string, b: string, c: string, d: string)
    requires Subsequence(a, c) && Subsequence(b, d)
    ensures Subsequence(a + b, c + d)
    decreases |c|
  {
    if c == [] {
      assert a == [] && a + b == b && c + d == d;
    } else {
      assert (c + d)[0] == c[0] && (c + d)[1..] == c[1..] + d;
      if a != [] && a[0] == c[0] && Subsequence(a[1..], c[1..]) {
        SubsequenceConcat(a[1..], b, c[1..], d);
        assert (a + b)[0] == a[0] && (a + b)[1..] == a[1..] + b;
      } else {
        SubsequenceConcat(a, b, c[1..], d);
      }
    }
  }

  lemma {:induction false} SubsequenceRefl(a: string)
    ensures Subsequence(a, a)
    decreases |a|
  {
    if a != [] {
      SubsequenceRefl(a[1..]);
    }
  }

  lemma SubsequenceEmpty(b: string)
    ensures Subsequence([], b)
    decreases |b|
  {
    if b != [] {
      SubsequenceEmpty(b[1..]);
    }
  }

  /** Wrapping one occurrence in markup keeps it, and the rest kept after it, in order. */
  lemma KeepsTextAroundMatch(m: string, rest: string, w: string)
    requires Subsequence(rest, w)
    ensures Subsequence(m + rest, Open + m + Close + w)
  {
    SubsequenceRefl(m);
    SubsequenceEmpty(Close);
    SubsequenceConcat(m, [], m, Close);
    assert m + [] == m;
    SubsequenceConcat(m, rest, m + Close, w);
    SubsequenceSkip(m + rest, Open, m + Close + w);
    assert Open + (m + Close + w) == Open + m + Close + w;
  }

  /** Text outside the matches, and the matched text itself, is kept in order. */
  lemma {:induction false} WrapKeepsText(s: string, k: string)
    requires |k| > 0
    ensures Subsequence(s, Wrap(s, k))
    decreases |s|
  {
    if |s| < |k| {
      SubsequenceRefl(s);
    } else if FoldEq(s[..|k|], k) {
      WrapKeepsText(s[|k|..], k);
      KeepsTextAroundMatch(s[..|k|], s[|k|..], Wrap(s[|k|..], k));
      assert s[..|k|] + s[|k|..] == s;
    } else {
      WrapKeepsText(s[1..], k);
      SubsequenceRefl([s[0]]);
      SubsequenceConcat([s[0]], s[1..], [s[0]], Wrap(s[1..], k));
      assert [s[0]] + s[1..] == s;
    }
  }
}
