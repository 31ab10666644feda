/** The handful of Python `str` operations the editor relies on, with Python's
    own semantics: `startswith`, `endswith`, `replace` (left to right, no
    overlap), `lstrip`/`rstrip`/`strip` of one character, and `join`. */
module PyStr {

  predicate StartsWith(s: string, p: string) {
    |p| <= |s| && s[..|p|] == p
  }

  predicate EndsWith(s: string, q: string) {
    |q| <= |s| && s[|s| - |q|..] == q
  }

  /** `pat` occurs in `s` starting at index `i`. */
  predicate OccursAt(s: string, pat: string, i: int) {
    0 <= i && i + |pat| <= |s| && s[i..i + |pat|] == pat
  }

  /** Python's `pat in s`. */
  predicate Contains(s: string, pat: string) {
    exists i :: 0 <= i <= |s| - |pat| && OccursAt(s, pat, i)
  }

  /** Python's `s.replace(pat, rep)` for a non-empty `pat`: the scan goes left
      to right, and after a match it resumes just past the match, so matches
      never overlap and text produced by `rep` is never rescanned. */
  function ReplaceAll(s: string, pat: string, rep: string): (r: string)
    requires |pat| > 0
    ensures |rep| <= |pat| ==> |r| <= |s|
    ensures rep == pat ==> r == s
    decreases |s|
  {
    if |s| == 0 then ""
    else if StartsWith(s, pat) then
      assert s == s[..|pat|] + s[|pat|..];
      rep + ReplaceAll(s[|pat|..], pat, rep)
    else
      assert s == [s[0]] + s[1..];
      [s[0]] + ReplaceAll(s[1..], pat, rep)
  }

  /** Python's `s.lstrip(c)`: the longest suffix of `s` that does not start with `c`. */
  function LStrip(s: string, c: char): (r: string)
    ensures |r| <= |s| && r == s[|s| - |r|..]
    ensures forall i :: 0 <= i < |s| - |r| ==> s[i] == c
    ensures |r| > 0 ==> r[0] != c
    decreases |s|
  {
    if |s| > 0 && s[0] == c then LStrip(s[1..], c) else s
  }

  /** Python's `s.rstrip(c)`: the longest prefix of `s` that does not end with `c`. */
  function RStrip(s: string, c: char): (r: string)
    ensures |r| <= |s| && r == s[..|r|]
    ensures forall i :: |r| <= i < |s| ==> s[i] == c
    ensures |r| > 0 ==> r[|r| - 1] != c
    decreases |s|
  {
    if |s| > 0 && s[|s| - 1] == c then RStrip(s[..|s| - 1], c) else s
  }

  /** The window `r` of `s`, cut as `strip` cuts it: `l` is `s` without a
      prefix of `c`, and `r` is `l` without a suffix of `c`. */
  lemma StripWindow(s: string, c: char, l: string, r: string)
    requires |l| <= |s| && l == s[|s| - |l|..]
    requires |r| <= |l| && r == l[..|r|]
    requires forall i :: |r| <= i < |l| ==> l[i] == c
    ensures OccursAt(s, r, |s| - |l|)
    ensures forall i :: |s| - |l| + |r| <= i < |s| ==> s[i] == c
  {
    var k := |s| - |l|;
    assert s[k..][..|r|] == s[k..k + |r|];
    forall i | k + |r| <= i < |s| ensures s[i] == c {
      assert s[i] == l[i - k];
    }
  }

  /** Python's `s.strip(c)`: every leading and every trailing `c` removed. */
  function Strip(s: string, c: char): (r: string)
    ensures |r| > 0 ==> r[0] != c && r[|r| - 1] != c
    ensures OccursAt(s, r, |s| - |LStrip(s, c)|)
    ensures forall i :: 0 <= i < |s| - |LStrip(s, c)| ==> s[i] == c
    ensures forall i :: |s| - |LStrip(s, c)| + |r| <= i < |s| ==> s[i] == c
    ensures Contains(s, r)
  {
    var l := LStrip(s, c);
    var r := RStrip(l, c);
    StripWindow(s, c, l, r);
    r
  }

  /** Python's `sep.join(parts)`. */
  function Join(parts: seq<string>, sep: string): (r: string)
    ensures parts == [] ==> r == ""
    ensures |parts| > 0 ==> StartsWith(r, parts[0]) && EndsWith(r, parts[|parts| - 1])
    ensures |parts| > 1 ==> |r| >= |parts[0]| + |sep| + |parts[|parts| - 1]|
    decreases |parts|
  {
    if |parts| == 0 then ""
    else if |parts| == 1 then parts[0]
    else parts[0] + sep + Join(parts[1..], sep)
  }

  /** The number a string of decimal digits denotes, most significant first. */
  function DigitsValue(s: string): int
    decreases |s|
  {
    if |s| == 0 then 0
    else DigitsValue(s[..|s| - 1]) * 10 + (s[|s| - 1] as int - '0' as int)
  }

  /** Python's `str(n)` for a natural number: its decimal digits, without
      leading zeros, which read back as `n`. */
  function NatToString(n: nat): (r: string)
    ensures |r| > 0
    ensures forall i :: 0 <= i < |r| ==> '0' <= r[i] <= '9'
    ensures n > 0 ==> r[0] != '0'
    ensures DigitsValue(r) == n
    decreases n
  {
    if n < 10 then [('0' as int + n) as char]
    else
      var r := NatToString(n / 10) + [('0' as int + n % 10) as char];
      assert r[..|r| - 1] == NatToString(n / 10);
      r
  }

  /** One step of the `replace` scan when no match starts at the front. */
  lemma ReplaceAllSkip(s: string, pat: string, rep: string)
    requires |pat| > 0 && |s| > 0 && !StartsWith(s, pat)
    ensures ReplaceAll(s, pat, rep) == [s[0]] + ReplaceAll(s[1..], pat, rep)
  {
  }

  /** One step of the `replace` scan at a match: the scan resumes past it. */
  lemma ReplaceAllMatch(s: string, pat: string, rep: string)
    requires |pat| > 0 && StartsWith(s, pat)
    ensures ReplaceAll(s, pat, rep) == rep + ReplaceAll(s[|pat|..], pat, rep)
  {
  }

  /** A leading `c` is removed by `strip` like the rest of the prefix. */
  lemma StripLeading(s: string, c: char)
    requires |s| > 0 && s[0] == c
    ensures Strip(s, c) == Strip(s[1..], c)
  {
  }

  /** `strip` leaves alone a string that neither starts nor ends with `c`. */
  lemma StripUntouched(s: string, c: char)
    requires |s| > 0 && s[0] != c && s[|s| - 1] != c
    ensures Strip(s, c) == s
  {
  }

  /** A string in which `pat` never occurs is left alone by `replace`. */
  lemma {:induction false} ReplaceAllAbsent(s: string, pat: string, rep: string)
    requires |pat| > 0
    requires !Contains(s, pat)
    ensures ReplaceAll(s, pat, rep) == s
    decreases |s|
  {
    if |s| > 0 {
      assert !OccursAt(s, pat, 0);
      assert !StartsWith(s, pat);
      forall i | 0 <= i <= |s[1..]| - |pat| ensures !OccursAt(s[1..], pat, i) {
        assert s[1..][i..i + |pat|] == s[i + 1..i + 1 + |pat|];
        assert !OccursAt(s, pat, i + 1);
      }
      ReplaceAllAbsent(s[1..], pat, rep);
      assert s == [s[0]] + s[1..];
    }
  }

  /** A pattern whose first character is absent from `s` does not occur in it. */
  lemma AbsentFirstChar(s: string, pat: string)
    requires |pat| > 0 && pat[0] !in s
    ensures !Contains(s, pat)
  {
  }

  /** A match at the front of `s + q` lies inside `s` when the last character
      of `pat` never appears in `q`. */
  lemma StartsWithAppend(s: string, q: string, pat: string)
    requires |pat| > 0
    requires pat[|pat| - 1] !in q
    ensures StartsWith(s + q, pat) <==> StartsWith(s, pat)
  {
  }

  /** If the last character of `pat` never appears in `q`, no match can end
      inside `q`, so `replace` on `s + q` leaves `q` untouched at the end. */
  lemma {:induction false} ReplaceAllAppend(s: string, q: string, pat: string, rep: string)
    requires |pat| > 0
    requires pat[|pat| - 1] !in q
    ensures ReplaceAll(s + q, pat, rep) == ReplaceAll(s, pat, rep) + q
    decreases |s|
  {
    if |s| == 0 {
      assert s + q == q;
      forall i | 0 <= i <= |q| - |pat| ensures !OccursAt(q, pat, i) {
        assert q[i..i + |pat|][|pat| - 1] == q[i + |pat| - 1];
      }
      ReplaceAllAbsent(q, pat, rep);
    } else {
      StartsWithAppend(s, q, pat);
      if StartsWith(s, pat) {
        assert (s + q)[|pat|..] == s[|pat|..] + q;
        ReplaceAllAppend(s[|pat|..], q, pat, rep);
      } else {
        assert (s + q)[1..] == s[1..] + q;
        ReplaceAllAppend(s[1..], q, pat, rep);
      }
    }
  }

  /** No match can start inside a prefix that lacks the pattern's first
      character, so `replace` copies such a prefix and goes on after it. */
  lemma {:induction false} ReplaceAllSkipsPrefix(p: string, t: string, pat: string, rep: string)
    requires |pat| > 0 && pat[0] !in p
    ensures ReplaceAll(p + t, pat, rep) == p + ReplaceAll(t, pat, rep)
    decreases |p|
  {
    if |p| == 0 {
      assert p + t == t;
    } else {
      assert (p + t)[0] == p[0] != pat[0];
      assert !StartsWith(p + t, pat) by {
        if |pat| <= |p + t| {
          assert (p + t)[..|pat|][0] == (p + t)[0];
        }
      }
      assert (p + t)[1..] == p[1..] + t;
      ReplaceAllSkipsPrefix(p[1..], t, pat, rep);
      assert p == [p[0]] + p[1..];
    }
  }

  /** A suffix that does not begin with `c` survives `lstrip` whole. */
  lemma {:induction false} LStripAppend(s: string, q: string, c: char)
    requires |q| > 0 && q[0] != c
    ensures LStrip(s + q, c) == LStrip(s, c) + q
    decreases |s|
  {
    if |s| == 0 {
      assert s + q == q;
    } else if s[0] == c {
      assert (s + q)[1..] == s[1..] + q;
      LStripAppend(s[1..], q, c);
    }
  }

  /** A suffix that neither begins nor ends with `c` survives `strip`. */
  lemma StripKeepsSuffix(s: string, q: string, c: char)
    requires |q| > 0 && q[0] != c && q[|q| - 1] != c
    ensures EndsWith(Strip(s + q, c), q)
  {
    LStripAppend(s, q, c);
    var l := LStrip(s, c) + q;
    assert l[|l| - 1] == q[|q| - 1];
    assert RStrip(l, c) == l;
  }

  /** `join` of a longer list: the new part comes last, after one separator,
      so the parts appear in the order given. */
  lemma {:induction false} JoinSnoc(parts: seq<string>, x: string, sep: string)
    requires |parts| > 0
    ensures Join(parts + [x], sep) == Join(parts, sep) + sep + x
    decreases |parts|
  {
    if |parts| == 1 {
      assert (parts + [x])[1..] == [x];
    } else {
      assert (parts + [x])[1..] == parts[1..] + [x];
      JoinSnoc(parts[1..], x, sep);
    }
  }
}
