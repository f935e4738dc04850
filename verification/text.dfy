/** String helpers with the semantics of the Python `str` methods the system uses. */
module Text {
  import opened Results

  /** Python's `s.startswith(prefix)`. */
  predicate StartsWith(s: string, prefix: string) {
    |prefix| <= |s| && s[..|prefix|] == prefix
  }

  /** Python's `s.endswith(suffix)`. */
  predicate EndsWith(s: string, suffix: string) {
    |suffix| <= |s| && s[|s| - |suffix|..] == suffix
  }

  /** `pat` occurs in `s` starting at index `i`. */
  predicate OccursAt(s: string, pat: string, i: int) {
    0 <= i && i + |pat| <= |s| && s[i..i + |pat|] == pat
  }

  /** Python's `pat in s`. */
  predicate Contains(s: string, pat: string) {
    exists i :: 0 <= i <= |s| && OccursAt(s, pat, i)
  }

  /** An occurrence in `s[1..]` is an occurrence in `s`, one position later. */
  lemma OccursShift(s: string, pat: string, i: nat)
    requires |s| > 0
    ensures OccursAt(s[1..], pat, i) <==> OccursAt(s, pat, i + 1)
  {
    if i + |pat| <= |s| - 1 {
      assert s[1..][i..i + |pat|] == s[i + 1..i + 1 + |pat|];
    }
  }

  /** An occurrence inside a prefix of `s` is an occurrence in `s`. */
  lemma OccursInPrefix(s: string, n: nat, pat: string, i: int)
    requires n <= |s|
    requires OccursAt(s[..n], pat, i)
    ensures OccursAt(s, pat, i)
  {
    assert s[..n][i..i + |pat|] == s[i..i + |pat|];
  }

  /** A pattern whose first character is absent from `s` does not occur in `s`. */
  lemma MissingFirstChar(s: string, pat: string)
    requires |pat| > 0 && pat[0] !in s
    ensures !Contains(s, pat)
  {
    forall i | 0 <= i <= |s| && OccursAt(s, pat, i) ensures false {
    }
  }

  /** Index of the first occurrence of `pat` in `s` (Python's `s.find(pat)`, with `None` for -1). */
  function Find(s: string, pat: string): (r: Option<nat>)
    requires |pat| > 0
    ensures r.Some? ==> OccursAt(s, pat, r.value)
    ensures r.Some? ==> forall j :: 0 <= j < r.value ==> !OccursAt(s, pat, j)
    ensures r.None? <==> !Contains(s, pat)
    decreases |s|
  {
    if |s| < |pat| then None
    else if s[..|pat|] == pat then Some(0)
    else
      var tail := Find(s[1..], pat);
      assert forall j: nat :: OccursAt(s[1..], pat, j) <==> OccursAt(s, pat, j + 1) by {
        forall j: nat ensures OccursAt(s[1..], pat, j) <==> OccursAt(s, pat, j + 1) {
          OccursShift(s, pat, j);
        }
      }
      match tail
      case None =>
        assert !Contains(s, pat) by {
          forall i | OccursAt(s, pat, i) ensures false {
            if i > 0 {
              OccursShift(s, pat, i - 1);
            }
          }
        }
        None
      case Some(i) =>
        assert forall j :: 0 < j < i + 1 ==> !OccursAt(s, pat, j) by {
          forall j | 0 < j < i + 1 ensures !OccursAt(s, pat, j) {
            assert !OccursAt(s[1..], pat, j - 1);
          }
        }
        Some(i + 1)
  }

  /** Python's `s.split(sep)[0]`: the text before the first `sep`, or all of `s`. */
  function Before(s: string, sep: string): (r: string)
    requires |sep| > 0
    ensures r <= s
    ensures !Contains(r, sep)
    ensures forall j :: 0 <= j < |r| ==> !OccursAt(s, sep, j)
    ensures |r| < |s| <==> Contains(s, sep)
    ensures |r| < |s| ==> OccursAt(s, sep, |r|)
  {
    match Find(s, sep)
    case Some(i) =>
      assert !Contains(s[..i], sep) by {
        forall j | OccursAt(s[..i], sep, j) ensures false {
          OccursInPrefix(s, i, sep, j);
        }
      }
      s[..i]
    case None => s
  }

  /** Python's `s.replace(pat, rep)`: every non-overlapping occurrence of `pat`, scanned from
      the left, is replaced by `rep`. */
  function Replace(s: string, pat: string, rep: string): (r: string)
    requires |pat| > 0
    ensures !Contains(s, pat) ==> r == s
    ensures forall c :: c in r ==> c in s || c in rep
    ensures |rep| <= |pat| ==> |r| <= |s|
    decreases |s|
  {
    if |s| == 0 then []
    else if StartsWith(s, pat) then
      assert OccursAt(s, pat, 0);
      rep + Replace(s[|pat|..], pat, rep)
    else
      assert !Contains(s, pat) ==> !Contains(s[1..], pat) by {
        forall j | OccursAt(s[1..], pat, j) ensures Contains(s, pat) {
          OccursShift(s, pat, j);
        }
      }
      [s[0]] + Replace(s[1..], pat, rep)
  }

  /** One step of `Replace`: the pattern at the start is replaced, any other first character
      is kept. */
  lemma ReplaceUnfold(s: string, pat: string, rep: string)
    requires |pat| > 0 && |s| > 0
    ensures StartsWith(s, pat) ==>
      Replace(s, pat, rep) == rep + Replace(s[|pat|..], pat, rep)
    ensures !StartsWith(s, pat) ==> Replace(s, pat, rep) == [s[0]] + Replace(s[1..], pat, rep)
  {
  }

  /** When the first character of `pat` does not recur in it, no occurrence of `pat` in
      `a + pat + b` starts inside a prefix `a` that holds none. */
  lemma NoEarlyOccurrence(a: string, pat: string, b: string)
    requires |pat| > 0 && pat[0] !in pat[1..] && !Contains(a, pat)
    ensures forall j :: 0 <= j < |a| ==> !OccursAt(a + pat + b, pat, j)
  {
    var s := a + pat + b;
    forall j | 0 <= j < |a| ensures !OccursAt(s, pat, j) {
      if j + |pat| <= |a| {
        assert s[j..j + |pat|] == a[j..j + |pat|];
        assert !OccursAt(a, pat, j);
      } else {
        var k := |a| - j;
        assert s[|a|] == pat[0];
        assert pat[k] == pat[1..][k - 1];
        assert j + |pat| <= |s| ==> s[j..j + |pat|][k] == s[|a|];
      }
    }
  }

  /** The first occurrence of such a pattern in `a + pat + b` is the one right after `a`. */
  lemma FindAfterClean(a: string, pat: string, b: string)
    requires |pat| > 0 && pat[0] !in pat[1..] && !Contains(a, pat)
    ensures Find(a + pat + b, pat) == Some(|a|)
  {
    NoEarlyOccurrence(a, pat, b);
    assert (a + pat + b)[|a|..|a| + |pat|] == pat;
    assert OccursAt(a + pat + b, pat, |a|);
  }

  /** Replacing in `a + pat + b`, where `a` holds no occurrence and the first character of
      `pat` does not recur in it, keeps `a`, puts `rep` in place of that occurrence and carries
      on in `b`: the left-to-right scan of `str.replace` replaces the first occurrence. */
  lemma ReplaceSplit(a: string, pat: string, b: string, rep: string)
    requires |pat| > 0 && pat[0] !in pat[1..] && !Contains(a, pat)
    ensures Replace(a + pat + b, pat, rep) == a + rep + Replace(b, pat, rep)
  {
    FindAfterClean(a, pat, b);
    ReplaceAtFirst(a + pat + b, pat, rep, |a|);
    SplitParts(a, pat, b);
  }

  /** The parts of `a + pat + b` around the occurrence after `a`. */
  lemma SplitParts(a: string, pat: string, b: string)
    ensures (a + pat + b)[..|a|] == a && (a + pat + b)[|a| + |pat|..] == b
  {
  }

  /** `Replace` keeps the text before the first occurrence, puts `rep` in its place and carries
      on after it: the left-to-right, non-overlapping scan of `str.replace`. */
  lemma ReplaceAtFirst(s: string, pat: string, rep: string, i: nat)
    requires |pat| > 0 && Find(s, pat) == Some(i)
    ensures i + |pat| <= |s|
    ensures Replace(s, pat, rep) == s[..i] + rep + Replace(s[i + |pat|..], pat, rep)
  {
    ReplaceSkip(s, i, pat, rep);
    DropJoin(s, i, pat);
    ReplaceAtStart(pat, s[i + |pat|..], rep);
    JoinAssoc(s[..i], rep, Replace(s[i + |pat|..], pat, rep));
  }

  /** A prefix of `s` in which no occurrence starts is copied unchanged. */
  lemma {:induction false} ReplaceSkip(s: string, n: nat, pat: string, rep: string)
    requires |pat| > 0 && n <= |s|
    requires forall j :: 0 <= j < n ==> !OccursAt(s, pat, j)
    ensures Replace(s, pat, rep) == s[..n] + Replace(s[n..], pat, rep)
    decreases n
  {
    if n == 0 {
      assert s[..0] + s == s;
    } else {
      var t := s[1..];
      assert !OccursAt(s, pat, 0);
      forall j | 0 <= j < n - 1 ensures !OccursAt(t, pat, j) {
        OccursShift(s, pat, j);
      }
      ReplaceSkip(t, n - 1, pat, rep);
      SliceStep(s, n);
      var rest := Replace(s[n..], pat, rep);
      ReplaceCopiesFirst(s, pat, rep, t[..n - 1] + rest);
      HeadAndSlice(s, n, rest);
    }
  }

  /** The slices of `s[1..]` at `n - 1` are the slices of `s` at `n`. */
  lemma SliceStep(s: string, n: nat)
    requires 0 < n <= |s|
    ensures s[1..][n - 1..] == s[n..]
  {
  }

  /** Putting the first character back in front of a slice of the rest. */
  lemma HeadAndSlice(s: string, n: nat, x: string)
    requires 0 < n <= |s|
    ensures [s[0]] + (s[1..][..n - 1] + x) == s[..n] + x
  {
    assert s[..n] == [s[0]] + s[1..][..n - 1];
  }

  /** The text from the first occurrence on is that occurrence followed by the rest. */
  lemma DropJoin(s: string, i: nat, pat: string)
    requires OccursAt(s, pat, i)
    ensures s[i..] == pat + s[i + |pat|..]
  {
  }

  /** Concatenation regroups. */
  lemma JoinAssoc(x: string, y: string, z: string)
    ensures x + (y + z) == x + y + z
  {
  }

  /** An occurrence at the very start is replaced and the scan resumes after it. */
  lemma ReplaceAtStart(pat: string, b: string, rep: string)
    requires |pat| > 0
    ensures Replace(pat + b, pat, rep) == rep + Replace(b, pat, rep)
  {
    var s := pat + b;
    assert s[..|pat|] == pat;
    ReplaceUnfold(s, pat, rep);
    assert s[|pat|..] == b;
  }

  /** Where no occurrence starts, the first character is copied ahead of the rest's result. */
  lemma ReplaceCopiesFirst(s: string, pat: string, rep: string, rest: string)
    requires |s| > 0 && |pat| > 0 && !StartsWith(s, pat)
    requires Replace(s[1..], pat, rep) == rest
    ensures Replace(s, pat, rep) == [s[0]] + rest
  {
  }

  /** Replacing a one-character pattern by a one-character text acts position by position. */
  lemma {:induction false} ReplaceChar(s: string, c: char, d: char)
    ensures |Replace(s, [c], [d])| == |s|
    ensures forall k :: 0 <= k < |s| ==>
      Replace(s, [c], [d])[k] == (if s[k] == c then d else s[k])
    decreases |s|
  {
    if |s| > 0 {
      ReplaceChar(s[1..], c, d);
      var r := Replace(s, [c], [d]);
      var tail := Replace(s[1..], [c], [d]);
      if StartsWith(s, [c]) {
        assert r == [d] + tail;
      } else {
        assert r == [s[0]] + tail;
      }
    }
  }

  /** Replacing one character by another distributes over concatenation. */
  lemma ReplaceCharAppend(x: string, y: string, c: char, d: char)
    ensures Replace(x + y, [c], [d]) == Replace(x, [c], [d]) + Replace(y, [c], [d])
  {
    ReplaceChar(x + y, c, d);
    ReplaceChar(x, c, d);
    ReplaceChar(y, c, d);
  }

  /** After replacing a character by a different one, the character is gone. */
  lemma CharReplacedEverywhere(s: string, c: char, d: char)
    requires c != d
    ensures c !in Replace(s, [c], [d])
  {
    ReplaceChar(s, c, d);
    var r := Replace(s, [c], [d]);
    forall k | 0 <= k < |r| ensures r[k] != c {
    }
  }

  /** When the first character of `pat` never recurs inside `pat`, an occurrence at the end of
      `x + pat` cannot overlap an earlier one, so replacing in `x + pat` replaces exactly that
      trailing occurrence whenever `x` itself has none. */
  lemma ReplaceTrailing(x: string, pat: string, rep: string)
    requires |pat| > 0 && pat[0] !in pat[1..]
    requires !Contains(x, pat)
    ensures Replace(x + pat, pat, rep) == x + rep
  {
    ReplaceSplit(x, pat, [], rep);
    assert x + pat + [] == x + pat;
    assert x + rep + [] == x + rep;
  }

  /** One decimal digit. */
  function Digit(d: nat): (c: char)
    requires d < 10
    ensures '0' <= c <= '9'
    ensures c as int - '0' as int == d
  {
    ('0' as int + d) as char
  }

  /** Decimal rendering of a natural number, as Python's `f"{n}"`. */
  function NatToString(n: nat): (r: string)
    ensures |r| > 0
    ensures r[0] == '0' ==> n == 0
    ensures forall k :: 0 <= k < |r| ==> '0' <= r[k] <= '9'
  {
    if n < 10 then [Digit(n)] else NatToString(n / 10) + [Digit(n % 10)]
  }

  predicate AllDigits(s: string) {
    forall k :: 0 <= k < |s| ==> '0' <= s[k] <= '9'
  }

  /** The number a string of decimal digits denotes. */
  function DigitsValue(s: string): nat
    requires AllDigits(s)
  {
    if s == [] then 0 else DigitsValue(s[..|s| - 1]) * 10 + (s[|s| - 1] as int - '0' as int)
  }

  /** Reading back the decimal rendering of `n` gives `n`. */
  lemma {:induction false} NatToStringValue(n: nat)
    ensures AllDigits(NatToString(n))
    ensures DigitsValue(NatToString(n)) == n
  {
    var r := NatToString(n);
    if n >= 10 {
      NatToStringValue(n / 10);
      assert r[..|r| - 1] == NatToString(n / 10);
    }
  }
}
