/**
 * Python's `str.find`, `str.split(sep)` and `sep.join(pieces)` on strings,
 * for a non-empty separator. These are the only string operations the
 * extraction logic uses.
 */
module PyStr {
  import opened Outcomes

  /** `pat` occurs in `s` starting at index `i`. */
  predicate OccursAt(s: string, pat: string, i: nat)
  {
    i + |pat| <= |s| && s[i..i + |pat|] == pat
  }

  /** `pat` occurs somewhere in `s` (Python's `pat in s`). */
  ghost predicate Contains(s: string, pat: string)
  {
    exists i: nat :: OccursAt(s, pat, i)
  }

  /** The index of the first occurrence of `pat` in `s` (Python's `s.find(pat)`, with -1 as None). */
  function Find(s: string, pat: string): (r: Option<nat>)
    requires |pat| > 0
    ensures r.Some? ==> OccursAt(s, pat, r.value)
    decreases |s|
  {
    if |s| < |pat| then None
    else if s[..|pat|] == pat then Some(0)
    else
      match Find(s[1..], pat)
      case None => None
      case Some(k) =>
        OccursShift(s, pat, k);
        Some(k + 1)
  }

  /** An occurrence in `s[1..]` is an occurrence in `s` one place further on. */
  lemma OccursShift(s: string, pat: string, j: nat)
    requires |s| > 0
    ensures OccursAt(s, pat, j + 1) <==> OccursAt(s[1..], pat, j)
  {
    if j + 1 + |pat| <= |s| {
      assert s[j + 1..j + 1 + |pat|] == s[1..][j..j + |pat|];
    }
  }

  /** `Find` returns the first occurrence, and returns none only when `pat` occurs nowhere. */
  lemma {:induction false} FindFirst(s: string, pat: string)
    requires |pat| > 0
    ensures Find(s, pat).Some? ==> forall j: nat :: j < Find(s, pat).value ==> !OccursAt(s, pat, j)
    ensures Find(s, pat).None? ==> forall j: nat :: !OccursAt(s, pat, j)
    decreases |s|
  {
    if |s| < |pat| {
    } else if s[..|pat|] == pat {
    } else {
      FindFirst(s[1..], pat);
      assert !OccursAt(s, pat, 0);
      forall j: nat | j > 0 ensures OccursAt(s, pat, j) <==> OccursAt(s[1..], pat, j - 1) {
        OccursShift(s, pat, j - 1);
      }
    }
  }

  /** `Find` gives none exactly when `pat` does not occur. */
  lemma FindNone(s: string, pat: string)
    requires |pat| > 0
    ensures Find(s, pat).None? <==> !Contains(s, pat)
  {
    FindFirst(s, pat);
    if Find(s, pat).Some? {
      assert OccursAt(s, pat, Find(s, pat).value);
    }
  }

  /** Any first occurrence of `pat` is what `Find` returns. */
  lemma FindIsFirstOccurrence(s: string, pat: string, i: nat)
    requires |pat| > 0 && OccursAt(s, pat, i)
    requires forall j: nat :: j < i ==> !OccursAt(s, pat, j)
    ensures Find(s, pat) == Some(i)
  {
    FindFirst(s, pat);
  }

  /** A prefix of a string with no occurrence has none either. */
  lemma PrefixNotContains(s: string, t: string, pat: string)
    requires t <= s && !Contains(s, pat)
    ensures !Contains(t, pat)
  {
    forall i: nat ensures !OccursAt(t, pat, i) {
      if i + |pat| <= |t| {
        assert s[i..i + |pat|] == t[i..i + |pat|];
        assert !OccursAt(s, pat, i);
      }
    }
  }

  /** Python's `s.split(sep)`: the pieces between the occurrences of `sep`, scanned left to right. */
  function Split(s: string, sep: string): (parts: seq<string>)
    requires |sep| > 0
    ensures |parts| >= 1
    decreases |s|
  {
    match Find(s, sep)
    case None => [s]
    case Some(i) => [s[..i]] + Split(s[i + |sep|..], sep)
  }

  /** No piece of a split holds the separator. */
  lemma {:induction false} SplitPiecesFree(s: string, sep: string)
    requires |sep| > 0
    ensures forall k :: 0 <= k < |Split(s, sep)| ==> !Contains(Split(s, sep)[k], sep)
    decreases |s|
  {
    match Find(s, sep)
    case None =>
      assert Split(s, sep) == [s];
      FindFirst(s, sep);
    case Some(i) =>
      var rest := s[i + |sep|..];
      SplitAt(s, sep, i);
      HeadBeforeFirstFree(s, sep);
      SplitPiecesFree(rest, sep);
  }

  /** The text before the first separator holds no separator. */
  lemma HeadBeforeFirstFree(s: string, sep: string)
    requires |sep| > 0 && Find(s, sep).Some?
    ensures !Contains(s[..Find(s, sep).value], sep)
  {
    var i := Find(s, sep).value;
    var head := s[..i];
    FindFirst(s, sep);
    forall j: nat ensures !OccursAt(head, sep, j) {
      if j + |sep| <= |head| {
        assert j < i && !OccursAt(s, sep, j);
        assert forall t :: j <= t < j + |sep| ==> head[t] == s[t];
        assert s[j..j + |sep|] == head[j..j + |sep|];
      }
    }
  }

  /** Where there is no separator, the split is the whole string alone. */
  lemma SplitNone(s: string, sep: string)
    requires |sep| > 0 && Find(s, sep).None?
    ensures Split(s, sep) == [s]
  {
  }

  /** Where the first separator is at `i`, the split is the text before it followed by the split of the text after it. */
  lemma SplitAt(s: string, sep: string, i: nat)
    requires |sep| > 0 && Find(s, sep) == Some(i)
    ensures Split(s, sep) == [s[..i]] + Split(s[i + |sep|..], sep)
  {
  }

  /** The first piece of a split is the text before the first separator, or all of `s`. */
  lemma SplitHead(s: string, sep: string)
    requires |sep| > 0
    ensures Find(s, sep).None? ==> Split(s, sep)[0] == s
    ensures Find(s, sep).Some? ==> Split(s, sep)[0] == s[..Find(s, sep).value]
  {
  }

  /** A split has more than one piece exactly when the separator was found. */
  lemma SplitMore(s: string, sep: string)
    requires |sep| > 0
    ensures |Split(s, sep)| > 1 <==> Find(s, sep).Some?
  {
    if Find(s, sep).None? {
      SplitNone(s, sep);
    } else {
      SplitAt(s, sep, Find(s, sep).value);
    }
  }

  /** A string without the separator splits into itself alone. */
  lemma SplitWithoutSep(s: string, sep: string)
    requires |sep| > 0 && !Contains(s, sep)
    ensures Split(s, sep) == [s]
  {
  }

  /** The first piece of a split is a prefix of `s` that is all of `s` or is followed by the separator. */
  lemma SplitHeadBoundary(s: string, sep: string)
    requires |sep| > 0
    ensures Split(s, sep)[0] <= s
    ensures Split(s, sep)[0] == s || OccursAt(s, sep, |Split(s, sep)[0]|)
  {
    SplitHead(s, sep);
  }

  /**
   * When `x` holds no `pat` and `y` does not start with a character that could
   * complete a `pat` begun inside `x`, no occurrence of `pat` in `x + y` starts inside `x`.
   */
  lemma NoOccurrenceBefore(x: string, y: string, pat: string)
    requires |pat| > 0 && !Contains(x, pat)
    requires |y| > 0 && y[0] !in pat[1..]
    ensures forall j: nat :: j < |x| ==> !OccursAt(x + y, pat, j)
  {
    forall j: nat | j < |x| ensures !OccursAt(x + y, pat, j) {
      if j + |pat| <= |x| {
        assert (x + y)[j..j + |pat|] == x[j..j + |pat|];
        assert !OccursAt(x, pat, j);
      } else if j + |pat| <= |x + y| {
        var d := |x| - j;
        assert (x + y)[j..j + |pat|][d] == y[0];
        assert pat[d] == pat[1..][d - 1];
      }
    }
  }

  /**
   * Under the same conditions, the first piece of splitting `x + y` is `x` when `pat`
   * starts right after it, and otherwise runs at least one character into `y`.
   */
  lemma SplitHeadPast(x: string, y: string, pat: string)
    requires |pat| > 0 && !Contains(x, pat)
    requires |y| > 0 && y[0] !in pat[1..]
    ensures OccursAt(x + y, pat, |x|) ==> Split(x + y, pat)[0] == x
    ensures !OccursAt(x + y, pat, |x|) ==> x + [y[0]] <= Split(x + y, pat)[0]
  {
    var s := x + y;
    NoOccurrenceBefore(x, y, pat);
    FindFirst(s, pat);
    SplitHead(s, pat);
    match Find(s, pat)
    case None =>
    case Some(k) =>
      assert k >= |x|;
      if OccursAt(s, pat, |x|) {
        assert s[..|x|] == x;
      } else {
        assert s[..|x| + 1] == x + [y[0]];
      }
  }

  /** Python's `sep.join(pieces)`. */
  function Join(sep: string, pieces: seq<string>): (r: string)
    ensures |pieces| == 0 ==> r == ""
    ensures |pieces| > 0 ==> pieces[0] <= r
  {
    if |pieces| == 0 then ""
    else if |pieces| == 1 then pieces[0]
    else pieces[0] + sep + Join(sep, pieces[1..])
  }

  /** The total length of the pieces. */
  function TotalLength(pieces: seq<string>): nat
  {
    if pieces == [] then 0 else |pieces[0]| + TotalLength(pieces[1..])
  }

  /** Joining the pieces of a split gives back the string. */
  lemma {:induction false} JoinSplit(s: string, sep: string)
    requires |sep| > 0
    ensures Join(sep, Split(s, sep)) == s
    decreases |s|
  {
    match Find(s, sep)
    case None =>
      assert Split(s, sep) == [s];
    case Some(i) =>
      var rest := s[i + |sep|..];
      var parts := Split(rest, sep);
      SplitAt(s, sep, i);
      JoinSplit(rest, sep);
      JoinCons(sep, s[..i], parts);
      Rejoin(s, sep, i);
  }

  /** Joining a piece in front of a non-empty run puts one separator after it. */
  lemma JoinCons(sep: string, head: string, tail: seq<string>)
    requires |tail| > 0
    ensures Join(sep, [head] + tail) == head + sep + Join(sep, tail)
  {
    assert ([head] + tail)[1..] == tail;
  }

  /** Cutting out an occurrence of `sep` and putting it back gives the string again. */
  lemma Rejoin(s: string, sep: string, i: nat)
    requires OccursAt(s, sep, i)
    ensures s[..i] + sep + s[i + |sep|..] == s
  {
    assert s[i..i + |sep|] == sep;
    assert s == s[..i] + s[i..i + |sep|] + s[i + |sep|..];
  }

  /** Joining no pieces and splitting again gives one empty piece, not the empty list. */
  lemma SplitOfEmptyJoin(sep: string)
    requires |sep| > 0
    ensures Split(Join(sep, []), sep) == [""]
  {
  }

  /** Splitting a join on a one-character separator gives back the pieces, when no piece holds the separator. */
  lemma {:induction false} SplitJoin(pieces: seq<string>, sep: string)
    requires |sep| == 1 && |pieces| >= 1
    requires forall k :: 0 <= k < |pieces| ==> !Contains(pieces[k], sep)
    ensures Split(Join(sep, pieces), sep) == pieces
    decreases |pieces|
  {
    var s := Join(sep, pieces);
    if |pieces| == 1 {
      assert !Contains(s, sep);
    } else {
      var head := pieces[0];
      var rest := Join(sep, pieces[1..]);
      SplitJoin(pieces[1..], sep);
      assert s == head + (sep + rest);
      SplitAfterFreeHead(head, rest, sep);
      assert pieces == [head] + pieces[1..];
    }
  }

  /** A one-character separator after a piece that lacks it is the first one: the split starts with that piece. */
  lemma SplitAfterFreeHead(head: string, rest: string, sep: string)
    requires |sep| == 1 && !Contains(head, sep)
    ensures Split(head + (sep + rest), sep) == [head] + Split(rest, sep)
  {
    var s := head + (sep + rest);
    assert OccursAt(s, sep, |head|) by { assert s[|head|..|head| + 1] == sep; }
    NoOccurrenceBefore(head, sep + rest, sep);
    FindIsFirstOccurrence(s, sep, |head|);
    assert s[..|head|] == head;
    assert s[|head| + |sep|..] == rest;
  }

  /** The length of a join: the pieces' lengths plus one separator between each neighbouring pair. */
  lemma {:induction false} JoinLength(sep: string, pieces: seq<string>)
    ensures |pieces| == 0 ==> Join(sep, pieces) == ""
    ensures |pieces| > 0 ==> |Join(sep, pieces)| == TotalLength(pieces) + (|pieces| - 1) * |sep|
  {
    if |pieces| > 1 {
      JoinLength(sep, pieces[1..]);
    }
  }

  /** Joining two non-empty runs of pieces puts one separator between their joins. */
  lemma {:induction false} JoinAppend(sep: string, a: seq<string>, b: seq<string>)
    requires |a| > 0 && |b| > 0
    ensures Join(sep, a + b) == Join(sep, a) + sep + Join(sep, b)
    decreases |a|
  {
    if |a| > 1 {
      JoinAppend(sep, a[1..], b);
      assert (a + b)[1..] == a[1..] + b;
    } else {
      assert (a + b)[1..] == b;
    }
  }

  /** Where piece `k` starts in the join: after the earlier pieces and one separator per earlier piece. */
  function Offset(sep: string, pieces: seq<string>, k: nat): nat
    requires k <= |pieces|
  {
    TotalLength(pieces[..k]) + k * |sep|
  }

  /** Piece `k > 0` starts after the first piece, one separator, and its offset among the remaining pieces. */
  lemma OffsetStep(sep: string, pieces: seq<string>, k: nat)
    requires 0 < k <= |pieces|
    ensures Offset(sep, pieces, k) == |pieces[0]| + |sep| + Offset(sep, pieces[1..], k - 1)
  {
    assert pieces[..k][1..] == pieces[1..][..k - 1];
  }

  /** A slice of `y` reappears in `x + y` shifted by `|x|`. */
  lemma ShiftSlice(x: string, y: string, a: nat, b: nat)
    requires a <= b <= |y|
    ensures (x + y)[|x| + a..|x| + b] == y[a..b]
  {
  }

  /** The pieces appear in the join in order, each followed by the separator unless it is the last. */
  lemma {:induction false} JoinPieceAt(sep: string, pieces: seq<string>, k: nat)
    requires k < |pieces|
    ensures Offset(sep, pieces, k) + |pieces[k]| <= |Join(sep, pieces)|
    ensures Join(sep, pieces)[Offset(sep, pieces, k)..Offset(sep, pieces, k) + |pieces[k]|] == pieces[k]
    ensures k + 1 < |pieces| ==> OccursAt(Join(sep, pieces), sep, Offset(sep, pieces, k) + |pieces[k]|)
    decreases k
  {
    var s := Join(sep, pieces);
    if |pieces| == 1 {
      assert pieces[..0] == [];
    } else if k == 0 {
      assert pieces[..0] == [];
      assert s == pieces[0] + sep + Join(sep, pieces[1..]);
    } else {
      var tail := pieces[1..];
      var c := pieces[0] + sep;
      var o := Offset(sep, tail, k - 1);
      var len := |pieces[k]|;
      JoinPieceAt(sep, tail, k - 1);
      OffsetStep(sep, pieces, k);
      assert s == c + Join(sep, tail);
      ShiftSlice(c, Join(sep, tail), o, o + len);
      if k + 1 < |pieces| {
        ShiftSlice(c, Join(sep, tail), o + len, o + len + |sep|);
      }
    }
  }

  lemma JoinExample()
    ensures Join(" ", ["a", "b", "c"]) == "a b c"
  {
  }
}
