/** The Python `str` operations the application relies on, restricted to
    ASCII: whitespace, strip, split, join, replace, case mapping, prefix and
    substring tests, slicing, and decimal conversion of integers. */
module Text {
  import opened Wrappers

  // ---------------------------------------------------------------------
  // Whitespace
  // ---------------------------------------------------------------------

  /** `str.isspace` on one ASCII character: tab, line feed, vertical tab,
      form feed, carriage return, the separators 0x1c-0x1f, and space. */
  predicate IsSpace(c: char) {
    c == ' ' || ('\t' <= c <= '\r') || ('\U{1c}' <= c <= '\U{1f}')
  }

  predicate AllSpace(s: string) {
    forall i :: 0 <= i < |s| ==> IsSpace(s[i])
  }

  predicate NoSpace(s: string) {
    forall i :: 0 <= i < |s| ==> !IsSpace(s[i])
  }

  /** Neither end of `s` is whitespace. */
  predicate Trimmed(s: string) {
    s == [] || (!IsSpace(s[0]) && !IsSpace(s[|s| - 1]))
  }

  function StripLeft(s: string): (r: string)
    ensures |r| <= |s| && r == s[|s| - |r|..]
    ensures r == [] || !IsSpace(r[0])
    ensures forall i :: 0 <= i < |s| - |r| ==> IsSpace(s[i])
    decreases |s|
  {
    if s != [] && IsSpace(s[0]) then StripLeft(s[1..]) else s
  }

  function StripRight(s: string): (r: string)
    ensures |r| <= |s| && r == s[..|r|]
    ensures r == [] || !IsSpace(r[|r| - 1])
    ensures forall i :: |r| <= i < |s| ==> IsSpace(s[i])
    decreases |s|
  {
    if s != [] && IsSpace(s[|s| - 1]) then StripRight(s[..|s| - 1]) else s
  }

  /** `str.strip()`: removes the leading and trailing whitespace. */
  function Strip(s: string): (r: string)
    ensures Trimmed(r)
    ensures r == [] <==> AllSpace(s)
    ensures Trimmed(s) ==> r == s
    ensures |r| <= |s|
  {
    StripRight(StripLeft(s))
  }

  // ---------------------------------------------------------------------
  // Splitting on whitespace, joining
  // ---------------------------------------------------------------------

  /** The longest prefix of `t` that holds no whitespace. */
  function TakeWord(t: string): (w: string)
    ensures |w| <= |t| && w == t[..|w|] && NoSpace(w)
    ensures |w| < |t| ==> IsSpace(t[|w|])
    ensures t != [] && !IsSpace(t[0]) ==> w != []
    decreases |t|
  {
    if t == [] || IsSpace(t[0]) then [] else [t[0]] + TakeWord(t[1..])
  }

  /** `str.split()` with no argument: the maximal runs of non-whitespace. */
  function Words(s: string): (ws: seq<string>)
    ensures forall i :: 0 <= i < |ws| ==> ws[i] != [] && NoSpace(ws[i])
    decreases |s|
  {
    var t := StripLeft(s);
    if t == [] then []
    else
      assert t[0] == s[|s| - |t|];
      var w := TakeWord(t);
      assert |w| > 0;
      var rest := Words(t[|w|..]);
      ConsAllWords(w, rest);
      [w] + rest
  }

  lemma ConsAllWords(w: string, rest: seq<string>)
    requires w != [] && NoSpace(w)
    requires forall i :: 0 <= i < |rest| ==> rest[i] != [] && NoSpace(rest[i])
    ensures forall i :: 0 <= i < |[w] + rest| ==> ([w] + rest)[i] != [] && NoSpace(([w] + rest)[i])
  {
    forall i | 0 <= i < |[w] + rest| ensures ([w] + rest)[i] != [] && NoSpace(([w] + rest)[i]) {
      if i > 0 { assert ([w] + rest)[i] == rest[i - 1]; }
    }
  }

  /** Text made only of whitespace, and only such text, has no words. */
  lemma WordsEmptyIffBlank(s: string)
    ensures Words(s) == [] <==> AllSpace(s)
  {
    var t := StripLeft(s);
    if t != [] {
      assert t[0] == s[|s| - |t|];
      assert !IsSpace(s[|s| - |t|]);
    }
  }

  /** `sep.join(parts)`. */
  function Join(sep: string, parts: seq<string>): string
    decreases |parts|
  {
    if |parts| == 0 then ""
    else if |parts| == 1 then parts[0]
    else parts[0] + sep + Join(sep, parts[1..])
  }

  /** Joining non-empty whitespace-free words with single spaces gives a
      string with no whitespace at either end, so `strip` leaves it alone. */
  lemma JoinedWordsTrimmed(parts: seq<string>)
    requires forall i :: 0 <= i < |parts| ==> parts[i] != [] && NoSpace(parts[i])
    ensures Trimmed(Join(" ", parts))
    ensures Strip(Join(" ", parts)) == Join(" ", parts)
  {
    if |parts| > 0 {
      JoinEnds(" ", parts);
      var first, last := parts[0], parts[|parts| - 1];
      assert !IsSpace(first[0]) && !IsSpace(last[|last| - 1]);
    }
  }

  /** A join of non-empty pieces starts with the first piece's first
      character and ends with the last piece's last character. */
  lemma {:induction false} JoinEnds(sep: string, parts: seq<string>)
    requires |parts| >= 1
    requires forall i :: 0 <= i < |parts| ==> parts[i] != []
    ensures var j := Join(sep, parts);
      |j| > 0 && j[0] == parts[0][0] && j[|j| - 1] == parts[|parts| - 1][|parts[|parts| - 1]| - 1]
    decreases |parts|
  {
    if |parts| >= 2 {
      JoinEnds(sep, parts[1..]);
      var rest := Join(sep, parts[1..]);
      var j := parts[0] + sep + rest;
      assert j[0] == parts[0][0];
      assert j[|j| - 1] == rest[|rest| - 1];
    }
  }

  // ---------------------------------------------------------------------
  // Prefixes, suffixes, substrings
  // ---------------------------------------------------------------------

  /** `s.startswith(p)`. */
  predicate StartsWith(s: string, p: string) {
    |p| <= |s| && s[..|p|] == p
  }

  /** `s.endswith(p)`. */
  predicate EndsWith(s: string, p: string) {
    |p| <= |s| && s[|s| - |p|..] == p
  }

  /** `sub in s`. */
  predicate Contains(s: string, sub: string) {
    exists i | 0 <= i <= |s| :: StartsWith(s[i..], sub)
  }

  /** Python's `s[:n]` for a non-negative `n`. */
  function Take<T>(s: seq<T>, n: nat): (r: seq<T>)
    ensures |r| == Min(n, |s|) && r == s[..|r|]
  {
    if n <= |s| then s[..n] else s
  }

  /** `s[:n] + "..." if len(s) > n else s`: the preview idiom used for
      excerpts (200 and 300 characters) and for the paper preview (800). */
  function Ellipsize(s: string, n: nat): (r: string)
    ensures |r| <= n + 3
    ensures |s| <= n ==> r == s
    ensures |s| > n ==> |r| == n + 3 && StartsWith(r, s[..n]) && EndsWith(r, "...")
  {
    if |s| > n then s[..n] + "..." else s
  }

  // ---------------------------------------------------------------------
  // Splitting on a separator, replacing
  // ---------------------------------------------------------------------

  /** `s.split(sep)` for a non-empty separator, scanning left to right;
      `cur` is the piece collected so far. */
  function SplitFrom(s: string, sep: string, cur: string): (parts: seq<string>)
    requires sep != []
    ensures |parts| >= 1
    decreases |s|
  {
    if StartsWith(s, sep) then [cur] + SplitFrom(s[|sep|..], sep, [])
    else if s == [] then [cur]
    else SplitFrom(s[1..], sep, cur + [s[0]])
  }

  function SplitOn(s: string, sep: string): (parts: seq<string>)
    requires sep != []
    ensures |parts| >= 1
  {
    SplitFrom(s, sep, [])
  }

  lemma {:induction false} JoinSplitFrom(s: string, sep: string, cur: string)
    requires sep != []
    ensures Join(sep, SplitFrom(s, sep, cur)) == cur + s
    decreases |s|
  {
    if StartsWith(s, sep) {
      var rest := SplitFrom(s[|sep|..], sep, []);
      JoinSplitFrom(s[|sep|..], sep, []);
      JoinCons(sep, cur, rest);
      assert s == sep + s[|sep|..];
      assert cur + sep + ([] + s[|sep|..]) == cur + s;
    } else if s == [] {
    } else {
      JoinSplitFrom(s[1..], sep, cur + [s[0]]);
      assert cur + [s[0]] + s[1..] == cur + s;
    }
  }

  /** Joining a part in front of at least one more part puts the
      separator between them. */
  lemma JoinCons(sep: string, first: string, rest: seq<string>)
    requires |rest| >= 1
    ensures Join(sep, [first] + rest) == first + sep + Join(sep, rest)
  {
    assert ([first] + rest)[1..] == rest;
  }

  /** Splitting and re-joining with the same separator gives back the string. */
  lemma JoinSplit(s: string, sep: string)
    requires sep != []
    ensures Join(sep, SplitOn(s, sep)) == s
  {
    JoinSplitFrom(s, sep, []);
  }

  lemma {:induction false} JoinTakeSplitFromIsPrefix(s: string, sep: string, cur: string, k: nat)
    requires sep != []
    requires 1 <= k <= |SplitFrom(s, sep, cur)|
    ensures StartsWith(cur + s, Join(sep, SplitFrom(s, sep, cur)[..k]))
    decreases |s|
  {
    var parts := SplitFrom(s, sep, cur);
    if StartsWith(s, sep) {
      var rest := SplitFrom(s[|sep|..], sep, []);
      assert parts == [cur] + rest;
      if k > 1 {
        JoinTakeSplitFromIsPrefix(s[|sep|..], sep, [], k - 1);
        assert parts[..k] == [cur] + rest[..k - 1];
        assert parts[..k][1..] == rest[..k - 1];
        var p := Join(sep, rest[..k - 1]);
        assert StartsWith(s[|sep|..], p);
        assert s == sep + s[|sep|..];
        assert Join(sep, parts[..k]) == cur + sep + p;
        assert (cur + s)[..|cur + sep + p|] == cur + sep + p;
      } else {
        assert parts[..k] == [cur];
      }
    } else if s == [] {
      assert parts[..k] == [cur];
    } else {
      JoinTakeSplitFromIsPrefix(s[1..], sep, cur + [s[0]], k);
      assert cur + [s[0]] + s[1..] == cur + s;
    }
  }

  /** The first `k` pieces of `s.split(sep)`, re-joined, are a prefix of `s`. */
  lemma JoinTakeSplitIsPrefix(s: string, sep: string, k: nat)
    requires sep != [] && k >= 1
    ensures StartsWith(s, Join(sep, Take(SplitOn(s, sep), k)))
  {
    var parts := SplitOn(s, sep);
    JoinTakeSplitFromIsPrefix(s, sep, [], Min(k, |parts|));
    assert Take(parts, k) == parts[..Min(k, |parts|)];
  }

  function CountChar(s: string, c: char): nat
    decreases |s|
  {
    if s == [] then 0 else (if s[0] == c then 1 else 0) + CountChar(s[1..], c)
  }

  lemma {:induction false} SplitFromCharCount(s: string, c: char, cur: string)
    ensures |SplitFrom(s, [c], cur)| == CountChar(s, c) + 1
    decreases |s|
  {
    if StartsWith(s, [c]) {
      SplitFromCharCount(s[1..], c, []);
    } else if s == [] {
    } else {
      SplitFromCharCount(s[1..], c, cur + [s[0]]);
    }
  }

  /** Splitting on one character gives one more piece than there are
      occurrences of that character (`s.split('\n')` gives one line per
      line break, plus one). */
  lemma SplitCharCount(s: string, c: char)
    ensures |SplitOn(s, [c])| == CountChar(s, c) + 1
  {
    SplitFromCharCount(s, c, []);
  }

  /** `s.replace(c, r)` for a one-character pattern: every `c` becomes `r`. */
  function ReplaceChar(s: string, c: char, r: string): string
    decreases |s|
  {
    if s == [] then [] else (if s[0] == c then r else [s[0]]) + ReplaceChar(s[1..], c, r)
  }

  /** `s.replace(pat, rep)` for a non-empty pattern: the leftmost
      non-overlapping occurrences are replaced, scanning left to right. */
  function ReplaceAll(s: string, pat: string, rep: string): string
    requires pat != []
    decreases |s|
  {
    if StartsWith(s, pat) then rep + ReplaceAll(s[|pat|..], pat, rep)
    else if s == [] then []
    else [s[0]] + ReplaceAll(s[1..], pat, rep)
  }

  lemma {:induction false} ReplaceAllIsJoinSplitFrom(s: string, pat: string, rep: string, cur: string)
    requires pat != []
    ensures Join(rep, SplitFrom(s, pat, cur)) == cur + ReplaceAll(s, pat, rep)
    decreases |s|
  {
    if StartsWith(s, pat) {
      ReplaceAllIsJoinSplitFrom(s[|pat|..], pat, rep, []);
    } else if s == [] {
    } else {
      ReplaceAllIsJoinSplitFrom(s[1..], pat, rep, cur + [s[0]]);
      assert cur + [s[0]] + ReplaceAll(s[1..], pat, rep) == cur + ([s[0]] + ReplaceAll(s[1..], pat, rep));
    }
  }

  /** Python's identity `s.replace(p, r) == r.join(s.split(p))`. */
  lemma ReplaceAllIsJoinSplit(s: string, pat: string, rep: string)
    requires pat != []
    ensures ReplaceAll(s, pat, rep) == Join(rep, SplitOn(s, pat))
  {
    ReplaceAllIsJoinSplitFrom(s, pat, rep, []);
  }

  /** The one-character replacement agrees with the general scan. */
  lemma {:induction false} ReplaceCharIsReplaceAll(s: string, c: char, r: string)
    ensures ReplaceChar(s, c, r) == ReplaceAll(s, [c], r)
    decreases |s|
  {
    if s != [] {
      ReplaceCharIsReplaceAll(s[1..], c, r);
    }
  }

  lemma {:induction false} ReplaceCharConcat(a: string, b: string, c: char, r: string)
    ensures ReplaceChar(a + b, c, r) == ReplaceChar(a, c, r) + ReplaceChar(b, c, r)
    decreases |a|
  {
    if a == [] {
      assert a + b == b;
    } else {
      ReplaceCharConcat(a[1..], b, c, r);
      var h := if a[0] == c then r else [a[0]];
      assert (a + b)[0] == a[0] && (a + b)[1..] == a[1..] + b;
      assert ReplaceChar(a + b, c, r) == h + ReplaceChar(a[1..] + b, c, r);
      assert ReplaceChar(a, c, r) == h + ReplaceChar(a[1..], c, r);
      assert h + (ReplaceChar(a[1..], c, r) + ReplaceChar(b, c, r))
          == (h + ReplaceChar(a[1..], c, r)) + ReplaceChar(b, c, r);
    }
  }

  lemma {:induction false} ReplaceCharAbsent(s: string, c: char, r: string)
    requires c !in s
    ensures ReplaceChar(s, c, r) == s
    decreases |s|
  {
    if s != [] {
      ReplaceCharAbsent(s[1..], c, r);
    }
  }

  /** After replacing `c` by a string without `d`, the result holds `d`
      only where the original did (for `d == c`: nowhere). */
  lemma {:induction false} ReplaceCharRemoves(s: string, c: char, r: string, d: char)
    requires d !in r
    requires d == c || d !in s
    ensures d !in ReplaceChar(s, c, r)
    decreases |s|
  {
    if s != [] {
      ReplaceCharRemoves(s[1..], c, r, d);
    }
  }

  // ---------------------------------------------------------------------
  // ASCII case mapping
  // ---------------------------------------------------------------------

  function LowerChar(c: char): char {
    if 'A' <= c <= 'Z' then (c as int + 32) as char else c
  }

  function UpperChar(c: char): char {
    if 'a' <= c <= 'z' then (c as int - 32) as char else c
  }

  /** `str.lower()` on ASCII letters. */
  function Lower(s: string): (r: string)
    ensures |r| == |s| && forall i :: 0 <= i < |s| ==> r[i] == LowerChar(s[i])
  {
    seq(|s|, i requires 0 <= i < |s| => LowerChar(s[i]))
  }

  /** `str.upper()` on ASCII letters. */
  function Upper(s: string): (r: string)
    ensures |r| == |s| && forall i :: 0 <= i < |s| ==> r[i] == UpperChar(s[i])
  {
    seq(|s|, i requires 0 <= i < |s| => UpperChar(s[i]))
  }

  // ---------------------------------------------------------------------
  // Decimal numbers
  // ---------------------------------------------------------------------

  predicate IsDigit(c: char) { '0' <= c <= '9' }

  /** `str.isdigit()` on ASCII: non-empty and every character a digit. */
  predicate IsDigits(s: string) {
    |s| > 0 && forall i :: 0 <= i < |s| ==> IsDigit(s[i])
  }

  /** The value of a string of decimal digits (`int(s)` once `s.isdigit()`). */
  function DigitsValue(s: string): nat
    requires forall i :: 0 <= i < |s| ==> IsDigit(s[i])
    decreases |s|
  {
    if s == [] then 0
    else
      assert IsDigit(s[|s| - 1]);
      DigitsValue(s[..|s| - 1]) * 10 + (s[|s| - 1] as int - '0' as int)
  }

  function DigitChar(d: nat): (c: char)
    requires d < 10
    ensures IsDigit(c) && c as int - '0' as int == d
  {
    ('0' as int + d) as char
  }

  /** `str(n)` for a natural number. */
  function NatToString(n: nat): (s: string)
    ensures IsDigits(s)
    decreases n
  {
    if n < 10 then [DigitChar(n)] else NatToString(n / 10) + [DigitChar(n % 10)]
  }

  /** Reading back the decimal rendering gives the number. */
  lemma {:induction false} NatToStringRoundTrip(n: nat)
    ensures DigitsValue(NatToString(n)) == n
    decreases n
  {
    var s := NatToString(n);
    if n < 10 {
      assert s[..|s| - 1] == [];
    } else {
      NatToStringRoundTrip(n / 10);
      assert s[..|s| - 1] == NatToString(n / 10);
    }
  }

  /** Different numbers render differently. */
  lemma NatToStringInjective(a: nat, b: nat)
    requires NatToString(a) == NatToString(b)
    ensures a == b
  {
    NatToStringRoundTrip(a);
    NatToStringRoundTrip(b);
  }

  /** `str(i)` for an integer. */
  function IntToString(i: int): (s: string)
    ensures s != [] && Trimmed(s)
  {
    if i < 0 then "-" + NatToString(-i) else NatToString(i)
  }

  /** `int(s)` on a string: surrounding whitespace, an optional sign and at
      least one decimal digit; `None` stands for the `ValueError`. */
  function ParseInt(s: string): Option<int> {
    var t := Strip(s);
    if |t| > 0 && (t[0] == '-' || t[0] == '+') && IsDigits(t[1..]) then
      Some(if t[0] == '-' then -(DigitsValue(t[1..]) as int) else DigitsValue(t[1..]))
    else if IsDigits(t) then Some(DigitsValue(t))
    else None
  }

  /** `int(str(i)) == i`. */
  lemma ParseIntRoundTrip(i: int)
    ensures ParseInt(IntToString(i)) == Some(i)
  {
    var s := IntToString(i);
    if i < 0 {
      NatToStringRoundTrip(-i);
      assert s[1..] == NatToString(-i);
    } else {
      NatToStringRoundTrip(i);
    }
  }
}
