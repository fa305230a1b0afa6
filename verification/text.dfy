/** The JavaScript string primitives the application relies on, over strings as `seq<char>`. */
module Text {

  /** The characters `String.prototype.trim` removes: white space and line terminators. */
  predicate IsSpace(ch: char) {
    || ch == ' ' || ch == '\t' || ch == '\n' || ch == '\r'
    || ch == '\U{000B}' || ch == '\U{000C}' || ch == '\U{00A0}' || ch == '\U{1680}'
    || ('\U{2000}' <= ch <= '\U{200A}')
    || ch == '\U{2028}' || ch == '\U{2029}' || ch == '\U{202F}' || ch == '\U{205F}'
    || ch == '\U{3000}' || ch == '\U{FEFF}'
  }

  /** Every character of `s` is white space (the empty string included). */
  predicate IsBlank(s: string) {
    forall k :: 0 <= k < |s| ==> IsSpace(s[k])
  }

  /** The number of white-space characters `s` starts with. */
  function LeadingSpaces(s: string): (n: nat)
    ensures n <= |s|
    ensures IsBlank(s[..n])
    ensures n < |s| ==> !IsSpace(s[n])
  {
    if |s| == 0 || !IsSpace(s[0]) then 0
    else
      var n := 1 + LeadingSpaces(s[1..]);
      assert s[..n] == [s[0]] + s[1..][..n - 1];
      n
  }

  /** The number of white-space characters `s` ends with. */
  function TrailingSpaces(s: string): (n: nat)
    ensures n <= |s|
    ensures IsBlank(s[|s| - n..])
    ensures n < |s| ==> !IsSpace(s[|s| - 1 - n])
  {
    if |s| == 0 || !IsSpace(s[|s| - 1]) then 0
    else
      var init := s[..|s| - 1];
      var n := 1 + TrailingSpaces(init);
      assert s[|s| - n..] == init[|init| - (n - 1)..] + [s[|s| - 1]];
      n
  }

  /** `String.prototype.trim`: `s` without its leading and trailing white space. */
  function Trim(s: string): (r: string)
    ensures exists i, j :: 0 <= i <= j <= |s| && r == s[i..j] && IsBlank(s[..i]) && IsBlank(s[j..])
    ensures |r| > 0 ==> !IsSpace(r[0]) && !IsSpace(r[|r| - 1])
  {
    var a := LeadingSpaces(s);
    var rest := s[a..];
    var b := TrailingSpaces(rest);
    if a == |s| then
      assert s[..|s|] == s;
      []
    else
      assert rest[|rest| - b..] == s[a + |rest| - b..];
      assert !IsSpace(rest[0]);
      assert b < |rest|;
      s[a..|s| - b]
  }

  /** A string with no white space at either end. */
  predicate Trimmed(s: string) {
    |s| == 0 || (!IsSpace(s[0]) && !IsSpace(s[|s| - 1]))
  }

  lemma TrimOfTrimmed(s: string)
    requires Trimmed(s)
    ensures Trim(s) == s
  {
    assert s[..|s|] == s;
  }

  /** Trimming twice is trimming once. */
  lemma TrimIdempotent(s: string)
    ensures Trim(Trim(s)) == Trim(s)
  {
    TrimOfTrimmed(Trim(s));
  }

  /** `trim` yields the empty string exactly for the blank strings, which is when `trim(s) || d` falls back to `d`. */
  lemma TrimEmptyIffBlank(s: string)
    ensures Trim(s) == [] <==> IsBlank(s)
  {
    var a := LeadingSpaces(s);
    if a == |s| {
      assert s[..a] == s;
    } else {
      var rest := s[a..];
      var b := TrailingSpaces(rest);
      assert !IsSpace(rest[0]);
      assert b < |rest|;
      assert Trim(s) == s[a..|s| - b];
    }
  }

  /** `s.startsWith(p)`. */
  predicate StartsWith(s: string, p: string) {
    |p| <= |s| && s[..|p|] == p
  }

  /** `p` occurs in `s` starting at index `i`. */
  predicate OccursAt(s: string, p: string, i: int) {
    0 <= i && i + |p| <= |s| && s[i..i + |p|] == p
  }

  /** `s.indexOf(ch)` for a one-character pattern: the first index holding `ch`, or -1. */
  function IndexOf(s: string, ch: char): (r: int)
    ensures -1 <= r < |s|
    ensures r == -1 <==> ch !in s
    ensures r >= 0 ==> s[r] == ch && ch !in s[..r]
  {
    if |s| == 0 then -1
    else if s[0] == ch then 0
    else
      var k := IndexOf(s[1..], ch);
      assert s == [s[0]] + s[1..];
      if k == -1 then -1
      else
        assert s[..k + 1] == [s[0]] + s[1..][..k];
        k + 1
  }

  /** An index holding `ch` with no earlier `ch` is what `indexOf` returns. */
  lemma IndexOfAt(s: string, ch: char, i: nat)
    requires i < |s| && s[i] == ch && ch !in s[..i]
    ensures IndexOf(s, ch) == i
  {
  }

  /** The last occurrence of `p` in `s` at an index no greater than `i`, or -1. */
  function LastIndexFrom(s: string, p: string, i: int): (r: int)
    requires i + |p| <= |s|
    ensures r == -1 || 0 <= r <= i
    ensures r == -1 ==> forall k :: 0 <= k <= i ==> !OccursAt(s, p, k)
    ensures r >= 0 ==> OccursAt(s, p, r) && forall k :: r < k <= i ==> !OccursAt(s, p, k)
    decreases i + 1
  {
    if i < 0 then -1
    else if s[i..i + |p|] == p then i
    else LastIndexFrom(s, p, i - 1)
  }

  /** `s.lastIndexOf(p)`: the greatest index at which `p` occurs in `s`, or -1 when it does not occur. */
  function LastIndexOf(s: string, p: string): (r: int)
    ensures r == -1 || 0 <= r <= |s| - |p|
    ensures r == -1 <==> forall k :: !OccursAt(s, p, k)
    ensures r >= 0 ==> OccursAt(s, p, r) && forall k :: r < k ==> !OccursAt(s, p, k)
  {
    LastIndexFrom(s, p, |s| - |p|)
  }

  /** An occurrence with none after it is what `lastIndexOf` returns. */
  lemma LastIndexOfAt(s: string, p: string, i: nat)
    requires OccursAt(s, p, i)
    requires forall k :: i < k ==> !OccursAt(s, p, k)
    ensures LastIndexOf(s, p) == i
  {
    var r := LastIndexOf(s, p);
    assert r != -1;
  }

  function Clamp(x: int, n: nat): (r: nat)
    ensures r <= n
    ensures 0 <= x <= n ==> r == x
  {
    if x < 0 then 0 else if x > n then n else x
  }

  /** `s.substring(a, b)`: both bounds are clamped into the string, and they are swapped when `a > b`. */
  function Substring(s: string, a: int, b: int): (r: string)
    ensures var lo, hi := Clamp(a, |s|), Clamp(b, |s|);
            r == if lo <= hi then s[lo..hi] else s[hi..lo]
  {
    var lo, hi := Clamp(a, |s|), Clamp(b, |s|);
    if lo <= hi then s[lo..hi] else s[hi..lo]
  }

  /** `s.substring(0, n)` is the prefix of length `min(|s|, n)`. */
  lemma SubstringPrefix(s: string, n: nat)
    ensures Substring(s, 0, n) == s[..if |s| < n then |s| else n]
  {
  }

  /** The decimal digits of `n`, most significant first, with no leading zeros: `String(n)`. */
  function NatToString(n: nat): (r: string)
    ensures |r| >= 1
    ensures forall k :: 0 <= k < |r| ==> '0' <= r[k] <= '9'
    ensures |r| > 1 ==> r[0] != '0'
    ensures r[0] == '0' <==> n == 0
    decreases n
  {
    if n < 10 then [Digit(n)]
    else NatToString(n / 10) + [Digit(n % 10)]
  }

  function Digit(d: nat): (ch: char)
    requires d < 10
    ensures '0' <= ch <= '9'
  {
    (d + '0' as int) as char
  }

  /** The value of a string of decimal digits, read most significant first. */
  function DigitsValue(s: string): nat
    requires forall k :: 0 <= k < |s| ==> '0' <= s[k] <= '9'
  {
    if |s| == 0 then 0
    else DigitsValue(s[..|s| - 1]) * 10 + ((s[|s| - 1] as int) - ('0' as int))
  }

  /** Reading back the digits `NatToString` writes gives the number written. */
  lemma {:induction false} NatToStringRoundTrip(n: nat)
    ensures DigitsValue(NatToString(n)) == n
    decreases n
  {
    if n >= 10 {
      var r := NatToString(n);
      NatToStringRoundTrip(n / 10);
      assert r[..|r| - 1] == NatToString(n / 10);
    }
  }

  /** `s.replace(from, to)` with a one-character string pattern: only the FIRST occurrence is replaced. */
  function ReplaceFirst(s: string, from: char, to: char): (r: string)
    ensures |r| == |s|
    ensures from !in s ==> r == s
    ensures from in s ==>
              var i := IndexOf(s, from);
              r[i] == to && forall k :: 0 <= k < |s| && k != i ==> r[k] == s[k]
  {
    var i := IndexOf(s, from);
    if i < 0 then s else s[..i] + [to] + s[i + 1..]
  }

  /** With the first `from` at index `i`, replacing it rewrites exactly that character. */
  lemma ReplaceFirstAt(s: string, from: char, to: char, i: nat)
    requires i < |s| && s[i] == from && from !in s[..i]
    ensures ReplaceFirst(s, from, to) == s[..i] + [to] + s[i + 1..]
  {
    IndexOfAt(s, from, i);
  }

  /** The UTF-16 code units of one character: two for a character beyond the Basic Multilingual Plane. */
  function Utf16Width(ch: char): (w: nat)
    ensures 1 <= w <= 2
  {
    if ch as int >= 0x1_0000 then 2 else 1
  }

  /** A character JavaScript stores in one code unit. */
  predicate InBmp(ch: char) {
    ch as int < 0x1_0000
  }

  /** `s.length`: JavaScript counts UTF-16 code units, not characters. */
  function Utf16Length(s: string): (n: nat)
    ensures |s| <= n <= 2 * |s|
  {
    if |s| == 0 then 0 else Utf16Width(s[0]) + Utf16Length(s[1..])
  }

  /** A string has as many code units as characters exactly when it stays within the Basic Multilingual Plane. */
  lemma {:induction false} Utf16LengthIsLengthIffBmp(s: string)
    ensures Utf16Length(s) == |s| <==> forall k :: 0 <= k < |s| ==> InBmp(s[k])
    decreases |s|
  {
    if |s| > 0 {
      var t := s[1..];
      Utf16LengthIsLengthIffBmp(t);
      assert forall k :: 1 <= k < |s| ==> s[k] == t[k - 1];
    }
  }

  /** How many leading characters of `s` fit in `limit` UTF-16 code units. */
  function Utf16FitCount(s: string, limit: nat): (k: nat)
    ensures k <= |s|
  {
    if |s| == 0 || Utf16Width(s[0]) > limit then 0
    else 1 + Utf16FitCount(s[1..], limit - Utf16Width(s[0]))
  }

  /** The length of a character followed by a string. */
  lemma Utf16LengthCons(ch: char, s: string)
    ensures Utf16Length([ch] + s) == Utf16Width(ch) + Utf16Length(s)
  {
    assert ([ch] + s)[1..] == s;
  }

  /** The counted characters fit, one more would not, and a string that fits whole is counted whole. */
  lemma {:induction false} Utf16FitCountFits(s: string, limit: nat)
    ensures var k := Utf16FitCount(s, limit);
            && Utf16Length(s[..k]) <= limit
            && (k < |s| ==> Utf16Length(s[..k]) + Utf16Width(s[k]) > limit)
            && (Utf16Length(s) <= limit ==> k == |s|)
    decreases |s|
  {
    if |s| > 0 && Utf16Width(s[0]) <= limit {
      var t := s[1..];
      var w := Utf16Width(s[0]);
      Utf16FitCountFits(t, limit - w);
      var k := Utf16FitCount(s, limit);
      assert s[..k] == [s[0]] + t[..k - 1];
      Utf16LengthCons(s[0], t[..k - 1]);
      Utf16LengthCons(s[0], t);
      assert s == [s[0]] + t;
      if k < |s| {
        assert s[k] == t[k - 1];
      }
    } else if |s| > 0 {
      assert s[..0] == [];
      Utf16LengthCons(s[0], s[1..]);
      assert s == [s[0]] + s[1..];
    }
  }

  /**
   * `s.substring(0, limit)` counted in UTF-16 code units: the longest prefix of `s` that fits
   * in `limit` code units. A character whose two code units straddle the cut is left out.
   */
  function Utf16Prefix(s: string, limit: nat): (r: string)
    ensures |r| <= |s| && r == s[..|r|]
    ensures Utf16Length(r) <= limit
    ensures |r| < |s| ==> Utf16Length(r) + Utf16Width(s[|r|]) > limit
    ensures Utf16Length(s) <= limit ==> r == s
  {
    Utf16FitCountFits(s, limit);
    s[..Utf16FitCount(s, limit)]
  }

  /** On text within the Basic Multilingual Plane, counting code units is counting characters. */
  lemma {:induction false} Utf16FitCountOfBmp(s: string, limit: nat)
    requires forall k :: 0 <= k < |s| ==> InBmp(s[k])
    ensures Utf16FitCount(s, limit) == if |s| < limit then |s| else limit
    decreases |s|
  {
    if |s| > 0 && limit > 0 {
      var t := s[1..];
      assert InBmp(s[0]);
      forall k | 0 <= k < |t| ensures InBmp(t[k]) {
        assert t[k] == s[k + 1];
      }
      Utf16FitCountOfBmp(t, limit - 1);
    }
  }

  lemma Utf16PrefixOfBmp(s: string, limit: nat)
    requires forall k :: 0 <= k < |s| ==> InBmp(s[k])
    ensures Utf16Prefix(s, limit) == s[..if |s| < limit then |s| else limit]
  {
    Utf16FitCountOfBmp(s, limit);
  }

  /**
   * Text whose every character takes two code units (all of it beyond the Basic Multilingual
   * Plane) is cut at half the limit, in characters.
   */
  lemma {:induction false} Utf16FitCountOfAstral(s: string, limit: nat)
    requires Utf16Length(s) == 2 * |s|
    ensures Utf16FitCount(s, limit) == HalfCut(|s|, limit)
    decreases |s|
  {
    if |s| > 0 {
      var t := s[1..];
      assert Utf16Length(s) == Utf16Width(s[0]) + Utf16Length(t);
      assert Utf16Width(s[0]) == 2 && Utf16Length(t) == 2 * |t|;
      if limit >= 2 {
        Utf16FitCountOfAstral(t, limit - 2);
        HalfCutStep(|s|, limit);
      }
    }
  }

  lemma Utf16PrefixOfAstral(s: string, limit: nat)
    requires Utf16Length(s) == 2 * |s|
    ensures |Utf16Prefix(s, limit)| == HalfCut(|s|, limit)
  {
    Utf16FitCountOfAstral(s, limit);
  }

  /** `min(n, limit / 2)`: how many two-unit characters of `n` fit in `limit` code units. */
  function HalfCut(n: nat, limit: nat): (k: nat)
    ensures k <= n && 2 * k <= limit
    ensures k == n || limit < 2 * k + 2
  {
    if n < limit / 2 then n else limit / 2
  }

  lemma HalfCutStep(n: nat, limit: nat)
    requires n > 0 && limit >= 2
    ensures HalfCut(n, limit) == 1 + HalfCut(n - 1, limit - 2)
  {
  }

  /** `parts.join(sep)`. */
  function Join(parts: seq<string>, sep: string): string
  {
    if |parts| == 0 then []
    else if |parts| == 1 then parts[0]
    else Join(parts[..|parts| - 1], sep) + sep + parts[|parts| - 1]
  }

  /** Joining one more part appends the separator and that part. */
  lemma JoinSnoc(parts: seq<string>, last: string, sep: string)
    requires |parts| > 0
    ensures Join(parts + [last], sep) == Join(parts, sep) + sep + last
  {
    assert (parts + [last])[..|parts|] == parts;
  }
}
