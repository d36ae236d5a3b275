/**
 * The few Python 2 byte-string operations the session layer relies on:
 * `str.find`, `str.split(None, maxsplit)` and `int()` on a decimal token,
 * together with the decimal rendering a peer uses to write a version number.
 * Buffers are modelled as `string`; every character stands for one byte.
 */
module Text {
  import opened Wrappers

  /** `pat` occurs in `s` starting at index `i`. */
  predicate IsAt(s: string, pat: string, i: int)
  {
    0 <= i && i + |pat| <= |s| && s[i..i + |pat|] == pat
  }

  /** `k` is the first occurrence of `pat` in `s` at or after `from`. */
  ghost predicate FirstFrom(s: string, pat: string, from: int, k: int)
  {
    from <= k && IsAt(s, pat, k) && forall i :: from <= i < k ==> !IsAt(s, pat, i)
  }

  /** `pat` does not occur in `s` at or after `from`. */
  ghost predicate NoneFrom(s: string, pat: string, from: int)
  {
    forall i :: from <= i ==> !IsAt(s, pat, i)
  }

  /**
   * Python's `s.find(pat, from)`: the index of the first occurrence of `pat`
   * that starts at or after `from`, or -1 when there is none.
   */
  function Find(s: string, pat: string, from: nat): (r: int)
    decreases |s| - from
    ensures r == -1 <==> NoneFrom(s, pat, from)
    ensures r != -1 ==> FirstFrom(s, pat, from, r)
  {
    if from + |pat| > |s| then -1
    else if s[from..from + |pat|] == pat then assert IsAt(s, pat, from); from
    else Find(s, pat, from + 1)
  }

  /** Any position that is the first occurrence is what `Find` returns. */
  lemma FindIs(s: string, pat: string, from: nat, k: int)
    requires FirstFrom(s, pat, from, k)
    ensures Find(s, pat, from) == k
  {
  }

  /** When nothing occurs at or after `from`, `Find` returns -1. */
  lemma FindNone(s: string, pat: string, from: nat)
    requires NoneFrom(s, pat, from)
    ensures Find(s, pat, from) == -1
  {
  }

  /** An occurrence found in `s` is still the first one once more text is appended. */
  lemma {:induction false} FindExtend(s: string, more: string, pat: string, from: nat)
    requires Find(s, pat, from) != -1
    ensures Find(s + more, pat, from) == Find(s, pat, from)
  {
    var k := Find(s, pat, from);
    forall i | from <= i <= k
      ensures IsAt(s + more, pat, i) == IsAt(s, pat, i)
    {
      if 0 <= i && i + |pat| <= |s| {
        assert (s + more)[i..i + |pat|] == s[i..i + |pat|];
      }
    }
    FindIs(s + more, pat, from, k);
  }

  /** An occurrence lying wholly inside the middle part of `a + x + b` is an occurrence in `x`. */
  lemma OccursInMiddle(a: string, x: string, b: string, pat: string, p: int)
    requires IsAt(a + x + b, pat, p) && |a| <= p && p + |pat| <= |a| + |x|
    ensures IsAt(x, pat, p - |a|)
  {
    assert (a + x + b)[p..p + |pat|] == x[p - |a|..p - |a| + |pat|];
  }

  /** A pattern absent from `x` is not found where it would lie wholly inside `x`. */
  lemma AbsentInMiddle(a: string, x: string, b: string, pat: string, p: int)
    requires NoneFrom(x, pat, 0) && |a| <= p && p + |pat| <= |a| + |x|
    ensures !IsAt(a + x + b, pat, p)
  {
    if IsAt(a + x + b, pat, p) {
      OccursInMiddle(a, x, b, pat, p);
    }
  }

  /** A one-character pattern occurs exactly where that character stands. */
  lemma IsAtChar(s: string, c: char, i: int)
    requires 0 <= i < |s|
    ensures IsAt(s, [c], i) <==> s[i] == c
  {
    assert s[i..i + 1] == [s[i]];
  }

  /** Python 2's `isspace` on one byte: space, tab, newline, carriage return, vertical tab, form feed. */
  predicate IsSpace(c: char)
  {
    c == ' ' || c == '\t' || c == '\n' || c == '\r' || c == '\U{0B}' || c == '\U{0C}'
  }

  /** `w` holds no whitespace. */
  predicate NoSpace(w: string)
  {
    forall i :: 0 <= i < |w| ==> !IsSpace(w[i])
  }

  /** `w` is not empty and does not start with whitespace. */
  predicate StartsWord(w: string)
  {
    w != [] && !IsSpace(w[0])
  }

  /** The first index at or after `i` that is not whitespace (or `|s|`). */
  function SkipSpace(s: string, i: nat): (j: nat)
    requires i <= |s|
    decreases |s| - i
    ensures i <= j <= |s|
    ensures j < |s| ==> !IsSpace(s[j])
    ensures forall k :: i <= k < j ==> IsSpace(s[k])
  {
    if i < |s| && IsSpace(s[i]) then SkipSpace(s, i + 1) else i
  }

  /** The first index at or after `i` that is whitespace (or `|s|`). */
  function SkipWord(s: string, i: nat): (j: nat)
    requires i <= |s|
    decreases |s| - i
    ensures i <= j <= |s|
    ensures j < |s| ==> IsSpace(s[j])
    ensures forall k :: i <= k < j ==> !IsSpace(s[k])
  {
    if i < |s| && !IsSpace(s[i]) then SkipWord(s, i + 1) else i
  }

  /**
   * Python 2's `s[i:].split(None, maxsplit)`: at most `maxsplit`
   * whitespace-free words, then the remainder (its leading whitespace
   * skipped, its trailing whitespace kept) as one last token when it is
   * not empty.
   */
  function SplitFrom(s: string, i: nat, maxsplit: nat): (tokens: seq<string>)
    requires i <= |s|
    decreases |s| - i
    ensures |tokens| <= maxsplit + 1
  {
    var j := SkipSpace(s, i);
    if j == |s| then []
    else if maxsplit == 0 then [s[j..]]
    else
      var k := SkipWord(s, j);
      [s[j..k]] + SplitFrom(s, k, maxsplit - 1)
  }

  /** Python 2's `s.split(None, maxsplit)`. */
  function SplitWhitespace(s: string, maxsplit: nat): (tokens: seq<string>)
    ensures |tokens| <= maxsplit + 1
  {
    SplitFrom(s, 0, maxsplit)
  }

  /**
   * The shape of a split: every token is a non-empty run that starts with a
   * non-whitespace byte, and each of the first `maxsplit` holds no
   * whitespace at all.
   */
  predicate WellSplit(tokens: seq<string>, maxsplit: nat)
  {
    && |tokens| <= maxsplit + 1
    && (forall k :: 0 <= k < |tokens| ==> StartsWord(tokens[k]))
    && (forall k :: 0 <= k < |tokens| && k < maxsplit ==> NoSpace(tokens[k]))
  }

  lemma WellSplitCons(w: string, more: seq<string>, maxsplit: nat)
    requires maxsplit > 0 && StartsWord(w) && NoSpace(w) && WellSplit(more, maxsplit - 1)
    ensures WellSplit([w] + more, maxsplit)
  {
    var tokens := [w] + more;
    forall k | 1 <= k < |tokens|
      ensures tokens[k] == more[k - 1]
    {
    }
  }

  lemma {:induction false} SplitFromTokens(s: string, i: nat, maxsplit: nat)
    requires i <= |s|
    decreases |s| - i
    ensures WellSplit(SplitFrom(s, i, maxsplit), maxsplit)
  {
    var j := SkipSpace(s, i);
    if j < |s| {
      if maxsplit == 0 {
        assert s[j..][0] == s[j];
      } else {
        var k := SkipWord(s, j);
        var w := s[j..k];
        assert w[0] == s[j];
        assert NoSpace(w) by {
          forall n | 0 <= n < |w| ensures !IsSpace(w[n]) {
            assert w[n] == s[j + n];
          }
        }
        SplitFromTokens(s, k, maxsplit - 1);
        WellSplitCons(w, SplitFrom(s, k, maxsplit - 1), maxsplit);
      }
    }
  }

  /** What `split` returns is well shaped. */
  lemma SplitTokens(s: string, maxsplit: nat)
    ensures WellSplit(SplitWhitespace(s, maxsplit), maxsplit)
  {
    SplitFromTokens(s, 0, maxsplit);
  }

  /** A word of `s` starts at `k`: a byte that is not blank, at the front or after a blank. */
  predicate WordStart(s: string, k: nat)
    requires k < |s|
  {
    !IsSpace(s[k]) && (k == 0 || IsSpace(s[k - 1]))
  }

  /** How many words of `s` start at or after `i`. */
  function WordsFrom(s: string, i: nat): nat
    requires i <= |s|
    decreases |s| - i
  {
    if i == |s| then 0
    else (if WordStart(s, i) then 1 else 0) + WordsFrom(s, i + 1)
  }

  /** `i` does not cut a word of `s` in two. */
  predicate Boundary(s: string, i: nat)
    requires i <= |s|
  {
    i == 0 || i == |s| || IsSpace(s[i - 1]) || IsSpace(s[i])
  }

  /**
   * `split(None, maxsplit)` returns one token per word of the line, up to
   * `maxsplit + 1` tokens: so a header line has fewer than three tokens
   * exactly when it has fewer than three words.
   */
  lemma SplitCount(s: string, maxsplit: nat)
    ensures var words := WordsFrom(s, 0);
      |SplitWhitespace(s, maxsplit)| == if words <= maxsplit then words else maxsplit + 1
  {
    SplitFromCount(s, 0, maxsplit);
  }

  lemma {:induction false} SplitFromCount(s: string, i: nat, maxsplit: nat)
    requires i <= |s| && Boundary(s, i)
    ensures var words := WordsFrom(s, i);
      |SplitFrom(s, i, maxsplit)| == if words <= maxsplit then words else maxsplit + 1
    decreases |s| - i
  {
    var j := SkipSpace(s, i);
    NoWordsBetween(s, i, j);
    if j == |s| {
      assert SplitFrom(s, i, maxsplit) == [];
    } else {
      assert WordStart(s, j);
      assert WordsFrom(s, j) == 1 + WordsFrom(s, j + 1);
      if maxsplit == 0 {
        assert SplitFrom(s, i, maxsplit) == [s[j..]];
      } else {
        var k := SkipWord(s, j);
        forall n | j + 1 <= n < k
          ensures IsSpace(s[n]) || (n > 0 && !IsSpace(s[n - 1]))
        {
          assert !IsSpace(s[n - 1]);
        }
        NoWordsBetween(s, j + 1, k);
        assert Boundary(s, k);
        SplitFromCount(s, k, maxsplit - 1);
        assert SplitFrom(s, i, maxsplit) == [s[j..k]] + SplitFrom(s, k, maxsplit - 1);
      }
    }
  }

  /** No word starts in `[a, b)`: the count from `a` is the count from `b`. */
  lemma {:induction false} NoWordsBetween(s: string, a: nat, b: nat)
    requires a <= b <= |s|
    requires forall k :: a <= k < b ==> IsSpace(s[k]) || (k > 0 && !IsSpace(s[k - 1]))
    ensures WordsFrom(s, a) == WordsFrom(s, b)
    decreases b - a
  {
    if a < b {
      NoWordsBetween(s, a + 1, b);
    }
  }

  /** A position that ends a run of whitespace is what `SkipSpace` returns. */
  lemma SkipSpaceIs(s: string, i: nat, j: nat)
    requires i <= j <= |s|
    requires forall k :: i <= k < j ==> IsSpace(s[k])
    requires j < |s| ==> !IsSpace(s[j])
    ensures SkipSpace(s, i) == j
  {
  }

  /** A position that ends a run of non-whitespace is what `SkipWord` returns. */
  lemma SkipWordIs(s: string, i: nat, j: nat)
    requires i <= j <= |s|
    requires forall k :: i <= k < j ==> !IsSpace(s[k])
    requires j < |s| ==> IsSpace(s[j])
    ensures SkipWord(s, i) == j
  {
  }

  /** Leading whitespace does not change a split. */
  lemma SplitFromBlank(s: string, i: nat, maxsplit: nat)
    requires i < |s| && IsSpace(s[i])
    ensures SplitFrom(s, i, maxsplit) == SplitFrom(s, i + 1, maxsplit)
  {
    assert SkipSpace(s, i) == SkipSpace(s, i + 1);
  }

  /** A split that still may cut takes the word that starts at `i`. */
  lemma SplitFromWord(s: string, i: nat, j: nat, maxsplit: nat)
    requires i < j <= |s| && maxsplit > 0
    requires forall k :: i <= k < j ==> !IsSpace(s[k])
    requires j < |s| ==> IsSpace(s[j])
    ensures SplitFrom(s, i, maxsplit) == [s[i..j]] + SplitFrom(s, j, maxsplit - 1)
  {
    SkipSpaceIs(s, i, i);
    SkipWordIs(s, i, j);
  }

  /** A split that may not cut any more returns the rest as one token. */
  lemma SplitFromLast(s: string, i: nat)
    requires i < |s| && !IsSpace(s[i])
    ensures SplitFrom(s, i, 0) == [s[i..]]
  {
    SkipSpaceIs(s, i, i);
  }

  /** A header line `w1 w2 rest` splits into exactly those three tokens. */
  lemma SplitThree(line: string, w1: string, w2: string, rest: string)
    requires w1 != [] && w2 != [] && NoSpace(w1) && NoSpace(w2) && StartsWord(rest)
    requires line == w1 + " " + w2 + " " + rest
    ensures SplitWhitespace(line, 2) == [w1, w2, rest]
  {
    var a := |w1|;
    var b := a + 1 + |w2|;
    assert SplitFrom(line, a, 1) == [w2, rest] by {
      ThreeParts(line, w1, w2, rest);
      SplitTail(line, a, b);
    }
    assert SplitFrom(line, 0, 2) == [w1] + SplitFrom(line, a, 1) by {
      ThreeParts(line, w1, w2, rest);
      SplitFromWord(line, 0, a, 2);
    }
  }

  /** After the first word: a blank, a second word, a blank and the remainder. */
  lemma SplitTail(line: string, a: nat, b: nat)
    requires a + 1 < b < |line| - 1
    requires IsSpace(line[a]) && IsSpace(line[b]) && !IsSpace(line[b + 1])
    requires forall k :: a + 1 <= k < b ==> !IsSpace(line[k])
    ensures SplitFrom(line, a, 1) == [line[a + 1..b], line[b + 1..]]
  {
    SplitFromLast(line, b + 1);
    SplitFromBlank(line, b, 0);
    SplitFromWord(line, a + 1, b, 1);
    SplitFromBlank(line, a, 1);
  }

  /** Where the parts of `w1 w2 rest` stand in the line. */
  lemma ThreeParts(line: string, w1: string, w2: string, rest: string)
    requires w1 != [] && w2 != [] && NoSpace(w1) && NoSpace(w2) && StartsWord(rest)
    requires line == w1 + " " + w2 + " " + rest
    ensures |line| == |w1| + |w2| + 2 + |rest|
    ensures forall k :: 0 <= k < |w1| ==> !IsSpace(line[k])
    ensures forall k :: |w1| + 1 <= k < |w1| + 1 + |w2| ==> !IsSpace(line[k])
    ensures IsSpace(line[|w1|]) && IsSpace(line[|w1| + 1 + |w2|]) && !IsSpace(line[|w1| + |w2| + 2])
    ensures line[0..|w1|] == w1
    ensures line[|w1| + 1..|w1| + 1 + |w2|] == w2
    ensures line[|w1| + |w2| + 2..] == rest
  {
    var a := |w1|;
    var b := a + 1 + |w2|;
    assert forall k :: 0 <= k < a ==> line[k] == w1[k];
    assert forall k :: a + 1 <= k < b ==> line[k] == w2[k - a - 1];
    assert line[0..a] == w1;
    assert line[a + 1..b] == w2;
    assert line[b + 1..] == rest;
  }

  predicate IsDigit(c: char)
  {
    '0' <= c <= '9'
  }

  predicate AllDigits(s: string)
  {
    forall i :: 0 <= i < |s| ==> IsDigit(s[i])
  }

  /** The number a string of decimal digits denotes, most significant digit first. */
  function DigitsValue(ds: string): nat
    requires AllDigits(ds)
  {
    if ds == [] then 0
    else DigitsValue(ds[..|ds| - 1]) * 10 + (ds[|ds| - 1] as int - '0' as int)
  }

  /**
   * Python's `int(token)` on a whitespace-free token: an optional sign
   * followed by one or more decimal digits; anything else raises (None).
   */
  function ParseInt(t: string): (r: Option<int>)
    ensures r.Some? <==>
      (t != [] && AllDigits(t)) ||
      (|t| > 1 && (t[0] == '+' || t[0] == '-') && AllDigits(t[1..]))
    ensures r.Some? && t[0] == '-' ==> r.value <= 0
    ensures r.Some? && t[0] != '-' ==> r.value >= 0
  {
    if t != [] && (t[0] == '+' || t[0] == '-') then
      var ds := t[1..];
      if ds != [] && AllDigits(ds) then
        var v: int := DigitsValue(ds);
        Some(if t[0] == '-' then -v else v)
      else None
    else if t != [] && AllDigits(t) then Some(DigitsValue(t))
    else None
  }

  /** The decimal digits of `n`, as `'%d' % n` writes them. */
  function ShowNat(n: nat): (r: string)
    ensures r != [] && AllDigits(r)
  {
    var d := ['0' + (n % 10) as char];
    if n < 10 then d else ShowNat(n / 10) + d
  }

  /** `'%d' % i` for any integer. */
  function ShowInt(i: int): (r: string)
    ensures r != [] && NoSpace(r)
  {
    if i < 0 then "-" + ShowNat(-i) else ShowNat(i)
  }

  lemma {:induction false} DigitsOfShowNat(n: nat)
    ensures DigitsValue(ShowNat(n)) == n
  {
    var d := ['0' + (n % 10) as char];
    if n >= 10 {
      DigitsOfShowNat(n / 10);
      var r := ShowNat(n / 10) + d;
      assert r[..|r| - 1] == ShowNat(n / 10);
    }
  }

  /** Reading back a rendered integer gives the integer: `int('%d' % i) == i`. */
  lemma ParseShowInt(i: int)
    ensures ParseInt(ShowInt(i)) == Some(i)
  {
    if i < 0 {
      DigitsOfShowNat(-i);
      assert ShowInt(i)[1..] == ShowNat(-i);
    } else {
      DigitsOfShowNat(i);
    }
  }
}
