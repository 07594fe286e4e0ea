/**
 * The Python string operations the scripts rely on, for a single-character
 * argument: `s.split(sep)`, `sep.join(parts)` and `s.strip(c)`.
 */
module Text {

  /** Number of occurrences of `c` in `s`. */
  function Count(s: string, c: char): nat
  {
    if s == [] then 0 else (if s[0] == c then 1 else 0) + Count(s[1..], c)
  }

  lemma {:induction false} CountAppend(a: string, b: string, c: char)
    ensures Count(a + b, c) == Count(a, c) + Count(b, c)
  {
    if a == [] {
      assert a + b == b;
    } else {
      assert (a + b)[1..] == a[1..] + b;
      CountAppend(a[1..], b, c);
    }
  }

  /** A string made of `d` only holds no other character. */
  lemma {:induction false} CountInRun(s: string, c: char, d: char)
    requires c != d
    requires forall k :: 0 <= k < |s| ==> s[k] == d
    ensures Count(s, c) == 0
  {
    if s != [] {
      CountInRun(s[1..], c, d);
    }
  }

  /**
   * Python `s.split(sep)`: the pieces between occurrences of `sep`, including
   * the empty ones; the empty string gives one empty piece.
   */
  function Split(s: string, sep: char): (parts: seq<string>)
    ensures |parts| == Count(s, sep) + 1
    decreases |s|
  {
    if s == [] then [[]]
    else
      var rest := Split(s[1..], sep);
      if s[0] == sep then [[]] + rest
      else [[s[0]] + rest[0]] + rest[1..]
  }

  /** Python `sep.join(parts)`: pieces free of `sep` are joined by exactly one `sep` between neighbours. */
  function Join(parts: seq<string>, sep: char): (r: string)
    ensures (forall i :: 0 <= i < |parts| ==> sep !in parts[i]) ==> Count(r, sep) == if parts == [] then 0 else |parts| - 1
  {
    if parts == [] then []
    else if |parts| == 1 then
      CountAbsent(parts[0], sep);
      parts[0]
    else
      var rest := Join(parts[1..], sep);
      CountAbsent(parts[0], sep);
      CountAppend(parts[0], [sep], sep);
      CountAppend(parts[0] + [sep], rest, sep);
      assert (forall i :: 0 <= i < |parts| ==> sep !in parts[i]) ==> (forall i :: 0 <= i < |parts[1..]| ==> sep !in parts[1..][i]);
      parts[0] + [sep] + rest
  }

  /** A string without `c` holds no `c`. */
  lemma {:induction false} CountAbsent(s: string, c: char)
    ensures c !in s ==> Count(s, c) == 0
  {
    if s != [] {
      CountAbsent(s[1..], c);
    }
  }

  /** A join of two or more pieces starts with the first piece and a separator. */
  lemma JoinCons(parts: seq<string>, sep: char)
    requires |parts| >= 2
    ensures Join(parts, sep) == parts[0] + [sep] + Join(parts[1..], sep)
  {
  }

  /** Joining the pieces of a split gives back the string. */
  lemma {:induction false} JoinSplit(s: string, sep: char)
    ensures Join(Split(s, sep), sep) == s
  {
    if s != [] {
      var rest := Split(s[1..], sep);
      JoinSplit(s[1..], sep);
      if s[0] == sep {
        assert ([[]] + rest)[1..] == rest;
        assert Join(Split(s, sep), sep) == [] + [sep] + Join(rest, sep);
      } else if |rest| == 1 {
        assert Join(Split(s, sep), sep) == [s[0]] + rest[0];
      } else {
        var parts := Split(s, sep);
        assert parts[1..] == rest[1..];
        assert Join(parts, sep) == [s[0]] + rest[0] + [sep] + Join(rest[1..], sep);
        assert Join(rest, sep) == rest[0] + [sep] + Join(rest[1..], sep);
      }
    }
  }

  /** No piece of a split holds the separator. */
  lemma {:induction false} SplitPiecesHaveNoSeparator(s: string, sep: char)
    ensures forall i :: 0 <= i < |Split(s, sep)| ==> sep !in Split(s, sep)[i]
  {
    if s != [] {
      SplitPiecesHaveNoSeparator(s[1..], sep);
      var rest := Split(s[1..], sep);
      var parts := Split(s, sep);
      if s[0] == sep {
        assert forall i :: 1 <= i < |parts| ==> parts[i] == rest[i - 1];
      } else {
        assert forall i :: 1 <= i < |parts| ==> parts[i] == rest[i];
        assert sep !in rest[0];
      }
    }
  }

  /** Splitting a piece free of `sep` in front of the rest extends the first piece. */
  lemma {:induction false} SplitPrefix(p: string, t: string, sep: char)
    requires sep !in p
    ensures Split(p + t, sep) == [p + Split(t, sep)[0]] + Split(t, sep)[1..]
  {
    if p != [] {
      assert (p + t)[1..] == p[1..] + t;
      assert (p + t)[0] == p[0];
      SplitPrefix(p[1..], t, sep);
      assert [p[0]] + (p[1..] + Split(t, sep)[0]) == p + Split(t, sep)[0];
    } else {
      var rest := Split(t, sep);
      assert p + t == t;
      assert p + rest[0] == rest[0];
      assert rest == [rest[0]] + rest[1..];
    }
  }

  /** Splitting a join of pieces free of `sep` gives back the pieces. */
  lemma {:induction false} SplitJoin(parts: seq<string>, sep: char)
    requires |parts| >= 1
    requires forall i :: 0 <= i < |parts| ==> sep !in parts[i]
    ensures Split(Join(parts, sep), sep) == parts
  {
    if |parts| == 1 {
      SplitPrefix(parts[0], [], sep);
      assert parts[0] + [] == parts[0];
    } else {
      var tail := Join(parts[1..], sep);
      SplitJoin(parts[1..], sep);
      assert Join(parts, sep) == parts[0] + ([sep] + tail);
      SplitPrefix(parts[0], [sep] + tail, sep);
      assert ([sep] + tail)[1..] == tail;
      assert Split([sep] + tail, sep) == [[]] + parts[1..];
      assert parts[0] + [] == parts[0];
      assert parts == [parts[0]] + parts[1..];
    }
  }

  /** `s` without its run of leading `c` characters. */
  function StripLeft(s: string, c: char): (r: string)
    ensures |r| <= |s| && r == s[|s| - |r|..]
    ensures forall k :: 0 <= k < |s| - |r| ==> s[k] == c
    ensures r == [] || r[0] != c
  {
    if s != [] && s[0] == c then StripLeft(s[1..], c) else s
  }

  /** `s` without its run of trailing `c` characters. */
  function StripRight(s: string, c: char): (r: string)
    ensures |r| <= |s| && r == s[..|r|]
    ensures forall k :: |r| <= k < |s| ==> s[k] == c
    ensures r == [] || r[|r| - 1] != c
  {
    if s != [] && s[|s| - 1] == c then StripRight(s[..|s| - 1], c) else s
  }

  /**
   * Python `s.strip(c)`: the contiguous middle of `s` left once every leading
   * and every trailing `c` is removed; nothing inside it is touched.
   */
  function Strip(s: string, c: char): (r: string)
    ensures StripStart(s, c) + |r| <= |s|
    ensures r == s[StripStart(s, c)..StripStart(s, c) + |r|]
    ensures forall k :: 0 <= k < StripStart(s, c) ==> s[k] == c
    ensures forall k :: StripStart(s, c) + |r| <= k < |s| ==> s[k] == c
    ensures r == [] || (r[0] != c && r[|r| - 1] != c)
  {
    var left := StripLeft(s, c);
    var r := StripRight(left, c);
    var i := |s| - |left|;
    assert left == s[i..];
    assert r == left[..|r|];
    assert r == s[i..i + |r|];
    assert forall k :: i + |r| <= k < |s| ==> s[k] == left[k - i];
    r
  }

  /** Where the text kept by `Strip` begins in `s`. */
  function StripStart(s: string, c: char): (i: nat)
    ensures i <= |s|
  {
    |s| - |StripLeft(s, c)|
  }

  /** Stripping `c` leaves the count of every other character unchanged. */
  lemma StripKeepsOtherCharacters(s: string, c: char, d: char)
    requires c != d
    ensures Count(Strip(s, c), d) == Count(s, d)
  {
    var i := StripStart(s, c);
    var j := i + |Strip(s, c)|;
    CountBetweenRuns(s, i, j, c, d);
  }

  /** Cutting runs of `c` off both ends of `s` leaves the count of `d` unchanged. */
  lemma CountBetweenRuns(s: string, i: nat, j: nat, c: char, d: char)
    requires c != d && i <= j <= |s|
    requires forall k :: 0 <= k < i ==> s[k] == c
    requires forall k :: j <= k < |s| ==> s[k] == c
    ensures Count(s[i..j], d) == Count(s, d)
  {
    var front, mid, back := s[..i], s[i..j], s[j..];
    assert s == front + (mid + back);
    CountAppend(front, mid + back, d);
    CountAppend(mid, back, d);
    CountInRun(front, d, c);
    assert forall k :: 0 <= k < |back| ==> back[k] == s[j + k];
    CountInRun(back, d, c);
  }

  /** Stripping does nothing to a string that neither starts nor ends with `c`. */
  lemma StripUntouched(s: string, c: char)
    requires s == [] || (s[0] != c && s[|s| - 1] != c)
    ensures Strip(s, c) == s
  {
  }

  /** Stripping a run of `c` off the front of a string that does not start with `c`. */
  lemma {:induction false} StripLeftRun(pre: string, m: string, c: char)
    requires forall k :: 0 <= k < |pre| ==> pre[k] == c
    requires m == [] || m[0] != c
    ensures StripLeft(pre + m, c) == m
  {
    if pre == [] {
      assert pre + m == m;
    } else {
      assert (pre + m)[1..] == pre[1..] + m;
      StripLeftRun(pre[1..], m, c);
    }
  }

  /** Stripping a run of `c` off the back of a string that does not end with `c`. */
  lemma {:induction false} StripRightRun(m: string, post: string, c: char)
    requires forall k :: 0 <= k < |post| ==> post[k] == c
    requires m == [] || m[|m| - 1] != c
    ensures StripRight(m + post, c) == m
  {
    if post == [] {
      assert m + post == m;
    } else {
      var shorter := post[..|post| - 1];
      assert (m + post)[..|m + post| - 1] == m + shorter;
      StripRightRun(m, shorter, c);
    }
  }

  /**
   * What `Strip` keeps is determined by the text alone: surrounding runs of `c`
   * go, and a middle that starts and ends with another character stays whole.
   */
  lemma StripSurrounded(pre: string, m: string, post: string, c: char)
    requires forall k :: 0 <= k < |pre| ==> pre[k] == c
    requires forall k :: 0 <= k < |post| ==> post[k] == c
    requires m == [] || (m[0] != c && m[|m| - 1] != c)
    ensures Strip(pre + m + post, c) == m
  {
    if m == [] {
      assert pre + m + post == pre + post;
      var all := pre + post;
      assert forall k :: 0 <= k < |all| ==> all[k] == c;
      StripLeftRun(all, [], c);
      assert all + [] == all;
    } else {
      assert (pre + m + post) == pre + (m + post);
      StripLeftRun(pre, m + post, c);
      StripRightRun(m, post, c);
    }
  }

  /** Stripping twice strips no more than stripping once. */
  lemma StripIdempotent(s: string, c: char)
    ensures Strip(Strip(s, c), c) == Strip(s, c)
  {
    StripUntouched(Strip(s, c), c);
  }
}
