/**
 * The slice of Python's `str` behaviour the crawler's text rules rely on:
 * `isspace`, `strip`, `split()` without arguments, ASCII `lower`, character
 * counting, substring tests, decimal formatting of integers and `join`.
 * Strings are sequences of Unicode scalar values, as Python's `str` is a
 * sequence of code points.
 */
module PyStr {

  /** U+FFFD, the replacement character that decoding errors leave behind. */
  const Replacement: char := '\U{FFFD}'

  /** Python's `str.isspace` (and the `\s` class of `re` on `str` patterns):
      exactly these 29 code points. */
  predicate IsSpace(c: char) {
    var n := c as int;
    (9 <= n <= 13) || (28 <= n <= 32) || n == 0x85 || n == 0xA0 || n == 0x1680
    || (0x2000 <= n <= 0x200A) || n == 0x2028 || n == 0x2029 || n == 0x202F
    || n == 0x205F || n == 0x3000
  }

  predicate NoSpace(s: string) {
    forall i :: 0 <= i < |s| ==> !IsSpace(s[i])
  }

  /** `ord(c) < 128` */
  predicate IsAscii(c: char) {
    (c as int) < 128
  }

  /** `str.isalnum` restricted to ASCII letters and digits. */
  predicate IsAsciiAlnum(c: char) {
    ('0' <= c <= '9') || ('a' <= c <= 'z') || ('A' <= c <= 'Z')
  }

  /** Number of characters of `s` that satisfy `p` (`sum(1 for c in s if p(c))`,
      and `s.count(c)` for a one-character needle). */
  function CountIf(s: string, p: char -> bool): (n: nat)
    ensures n <= |s|
  {
    if s == [] then 0 else (if p(s[0]) then 1 else 0) + CountIf(s[1..], p)
  }

  lemma {:induction false} CountIfNone(s: string, p: char -> bool)
    requires forall i :: 0 <= i < |s| ==> !p(s[i])
    ensures CountIf(s, p) == 0
  {
    if s != [] {
      CountIfNone(s[1..], p);
    }
  }

  lemma {:induction false} CountIfAll(s: string, p: char -> bool)
    requires forall i :: 0 <= i < |s| ==> p(s[i])
    ensures CountIf(s, p) == |s|
  {
    if s != [] {
      CountIfAll(s[1..], p);
    }
  }

  /** Two tests that disagree on every character split the string between
      them. */
  lemma {:induction false} CountIfComplement(s: string, p: char -> bool, q: char -> bool)
    requires forall i :: 0 <= i < |s| ==> (p(s[i]) <==> !q(s[i]))
    ensures CountIf(s, p) + CountIf(s, q) == |s|
  {
    if s != [] {
      CountIfComplement(s[1..], p, q);
    }
  }

  /** The characters of `s` that satisfy `keep`, in order
      (`''.join(c for c in s if keep(c))`, and `s.replace(c, '')`). */
  function Filter(s: string, keep: char -> bool): (r: string)
    ensures |r| <= |s|
    ensures forall c :: c in r ==> keep(c) && c in s
    ensures (forall i :: 0 <= i < |s| ==> keep(s[i])) ==> r == s
  {
    if s == [] then []
    else
      var rest := Filter(s[1..], keep);
      assert forall c :: c in s[1..] ==> c in s;
      if keep(s[0]) then [s[0]] + rest else rest
  }

  /** `s.lstrip()`: drops the leading whitespace and nothing else. */
  function LStrip(s: string): (r: string)
    ensures |r| <= |s| && r == s[|s| - |r|..]
    ensures forall i :: 0 <= i < |s| - |r| ==> IsSpace(s[i])
    ensures r != [] ==> !IsSpace(r[0])
  {
    if s != [] && IsSpace(s[0]) then LStrip(s[1..]) else s
  }

  /** `s.rstrip()`: drops the trailing whitespace and nothing else. */
  function RStrip(s: string): (r: string)
    ensures |r| <= |s| && r == s[..|r|]
    ensures forall i :: |r| <= i < |s| ==> IsSpace(s[i])
    ensures r != [] ==> !IsSpace(r[|r| - 1])
  {
    if s != [] && IsSpace(s[|s| - 1]) then RStrip(s[..|s| - 1]) else s
  }

  /** `s.strip()` */
  function Strip(s: string): string {
    RStrip(LStrip(s))
  }

  /** `strip` keeps a contiguous slice of `s` that neither starts nor ends
      with whitespace; everything cut off on either side is whitespace. */
  lemma StripShape(s: string)
    ensures var r, lo := Strip(s), |s| - |LStrip(s)|;
            && lo + |r| <= |s| && r == s[lo..lo + |r|]
            && (forall i :: 0 <= i < lo ==> IsSpace(s[i]))
            && (forall i :: lo + |r| <= i < |s| ==> IsSpace(s[i]))
            && (r != [] ==> !IsSpace(r[0]) && !IsSpace(r[|r| - 1]))
  {
    StripSlice(s);
    StripTrailing(s);
    StripEnds(s);
  }

  lemma StripSlice(s: string)
    ensures var r, lo := Strip(s), |s| - |LStrip(s)|;
            lo + |r| <= |s| && r == s[lo..lo + |r|]
  {
    var t := LStrip(s);
    SliceOfSuffix(s, t, RStrip(t));
  }

  lemma StripTrailing(s: string)
    ensures var r, lo := Strip(s), |s| - |LStrip(s)|;
            forall i :: lo + |r| <= i < |s| ==> IsSpace(s[i])
  {
    var t := LStrip(s);
    TrailingSpace(s, t, RStrip(t));
  }

  lemma StripEnds(s: string)
    ensures var r := Strip(s);
            r != [] ==> !IsSpace(r[0]) && !IsSpace(r[|r| - 1])
  {
    var t := LStrip(s);
    if RStrip(t) != [] {
      assert RStrip(t)[0] == t[0];
    }
  }

  lemma SliceOfSuffix<T>(s: seq<T>, t: seq<T>, r: seq<T>)
    requires |t| <= |s| && t == s[|s| - |t|..]
    requires |r| <= |t| && r == t[..|r|]
    ensures var lo := |s| - |t|; r == s[lo..lo + |r|]
  {
  }

  lemma TrailingSpace(s: string, t: string, r: string)
    requires |t| <= |s| && t == s[|s| - |t|..]
    requires |r| <= |t| && forall j :: |r| <= j < |t| ==> IsSpace(t[j])
    ensures var lo := |s| - |t|; forall i :: lo + |r| <= i < |s| ==> IsSpace(s[i])
  {
    var lo := |s| - |t|;
    forall i | lo + |r| <= i < |s| ensures IsSpace(s[i]) {
      assert s[i] == t[i - lo];
    }
  }

  lemma StripNoSpace(s: string)
    requires NoSpace(s)
    ensures Strip(s) == s
  {
    if s != [] {
      assert !IsSpace(s[0]) && !IsSpace(s[|s| - 1]);
    }
  }

  /** A string that neither starts nor ends with whitespace is its own
      `strip`. */
  lemma StripTrimmed(s: string)
    requires s != [] ==> !IsSpace(s[0]) && !IsSpace(s[|s| - 1])
    ensures Strip(s) == s
  {
    if s != [] {
      assert LStrip(s) == s;
      assert RStrip(s) == s;
    }
  }

  /** `strip` keeps characters of `s` only. */
  lemma StripKeepsChars(s: string)
    ensures forall x :: x in Strip(s) ==> x in s
  {
    StripShape(s);
  }

  /** Every character of `Strip(s)` is a character of `s`. */
  lemma {:induction false} StripChars(s: string, i: nat)
    requires i < |Strip(s)|
    ensures Strip(s)[i] in s
  {
    StripShape(s);
    var lo := |s| - |LStrip(s)|;
    assert Strip(s)[i] == s[lo + i];
  }

  /** Appending whitespace does not change what `strip` keeps. */
  lemma {:induction false} StripAppendSpace(s: string, c: char)
    requires IsSpace(c)
    ensures Strip(s + [c]) == Strip(s)
  {
    LStripAppend(s, c);
    var t := LStrip(s);
    if t == [] {
      assert LStrip(s + [c]) == [];
    } else {
      assert LStrip(s + [c]) == t + [c];
      assert (t + [c])[..|t + [c]| - 1] == t;
    }
  }

  lemma {:induction false} LStripAppend(s: string, c: char)
    requires IsSpace(c)
    ensures LStrip(s) == [] ==> LStrip(s + [c]) == []
    ensures LStrip(s) != [] ==> LStrip(s + [c]) == LStrip(s) + [c]
  {
    if s == [] {
      assert s + [c] == [c];
      assert [c][1..] == [];
    } else if IsSpace(s[0]) {
      assert (s + [c])[1..] == s[1..] + [c];
      assert LStrip(s + [c]) == LStrip(s[1..] + [c]);
      LStripAppend(s[1..], c);
    } else {
      assert (s + [c])[0] == s[0];
    }
  }

  /** The longest prefix of `s` that holds no whitespace. */
  function WordPrefix(s: string): (w: string)
    ensures w <= s && NoSpace(w)
    ensures |w| < |s| ==> IsSpace(s[|w|])
  {
    if s == [] || IsSpace(s[0]) then [] else [s[0]] + WordPrefix(s[1..])
  }

  /** `s.split()`: the maximal runs of non-whitespace characters, in order. */
  function Words(s: string): (ws: seq<string>)
    ensures forall i :: 0 <= i < |ws| ==> ws[i] != [] && NoSpace(ws[i])
    decreases |s|
  {
    var t := LStrip(s);
    if t == [] then []
    else
      var w := WordPrefix(t);
      [w] + Words(t[|w|..])
  }

  function LowerChar(c: char): char {
    if 'A' <= c <= 'Z' then (c as int + 32) as char else c
  }

  /** `s.lower()` on ASCII letters. */
  function Lower(s: string): (r: string)
    ensures |r| == |s| && forall i :: 0 <= i < |s| ==> r[i] == LowerChar(s[i])
  {
    if s == [] then [] else [LowerChar(s[0])] + Lower(s[1..])
  }

  /** `sub in s` */
  predicate Contains(s: string, sub: string) {
    sub <= s || (s != [] && Contains(s[1..], sub))
  }

  lemma {:induction false} ContainsAt(s: string, sub: string, k: nat)
    requires k + |sub| <= |s| && s[k..k + |sub|] == sub
    ensures Contains(s, sub)
  {
    if k > 0 {
      assert s[1..][k - 1..k - 1 + |sub|] == sub;
      ContainsAt(s[1..], sub, k - 1);
    }
  }

  lemma {:induction false} ContainsWitness(s: string, sub: string) returns (k: nat)
    requires Contains(s, sub)
    ensures k + |sub| <= |s| && s[k..k + |sub|] == sub
  {
    if sub <= s {
      k := 0;
    } else {
      var k' := ContainsWitness(s[1..], sub);
      k := k' + 1;
    }
  }

  /** `s.endswith(suffix)` */
  predicate EndsWith(s: string, suffix: string) {
    |suffix| <= |s| && s[|s| - |suffix|..] == suffix
  }

  /** `s[:n]` for `n >= 0` */
  function Take(s: string, n: int): (r: string)
    ensures |r| == if 0 <= n <= |s| then n else if n < 0 then 0 else |s|
    ensures r <= s
  {
    if n <= 0 then [] else if n <= |s| then s[..n] else s
  }

  function DigitChar(d: nat): char
    requires d < 10
  {
    "0123456789"[d]
  }

  /** `str(n)` for a non-negative integer: its decimal digits. */
  function NatToString(n: nat): (r: string)
    ensures r != []
    ensures forall i :: 0 <= i < |r| ==> '0' <= r[i] <= '9'
  {
    if n < 10 then [DigitChar(n)] else NatToString(n / 10) + [DigitChar(n % 10)]
  }

  /** `sep.join(parts)` */
  function Join(parts: seq<string>, sep: string): (r: string)
  {
    if parts == [] then []
    else if |parts| == 1 then parts[0]
    else parts[0] + sep + Join(parts[1..], sep)
  }
}
