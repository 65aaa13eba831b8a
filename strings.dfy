/** Python's `str` operations used by the modelled code, on `seq<char>`.
    Character classes are ASCII: Unicode case folding and Unicode whitespace,
    letters and digits are not modelled. */
module Strings {

  /** The ASCII characters Python's `str.strip()` removes. */
  const Whitespace: set<char> := {' ', '\t', '\n', '\r', '\U{000B}', '\U{000C}'}

  predicate IsSpace(c: char) { c in Whitespace }

  predicate IsDigit(c: char) { '0' <= c <= '9' }

  predicate IsAlpha(c: char) { ('a' <= c <= 'z') || ('A' <= c <= 'Z') }

  /** `s.lstrip(chars)`: drops the longest prefix made of `chars`. */
  function LStripChars(s: string, chars: set<char>): (r: string)
    ensures |r| <= |s| && r == s[|s| - |r|..]
    ensures r != [] ==> r[0] !in chars
    ensures forall i :: 0 <= i < |s| - |r| ==> s[i] in chars
  {
    if s == [] || s[0] !in chars then s else LStripChars(s[1..], chars)
  }

  /** `s.rstrip(chars)`: drops the longest suffix made of `chars`. */
  function RStripChars(s: string, chars: set<char>): (r: string)
    ensures |r| <= |s| && r == s[..|r|]
    ensures r != [] ==> r[|r| - 1] !in chars
    ensures forall i :: |r| <= i < |s| ==> s[i] in chars
  {
    if s == [] || s[|s| - 1] !in chars then s else RStripChars(s[..|s| - 1], chars)
  }

  /** `s.strip(chars)`. */
  function StripChars(s: string, chars: set<char>): (r: string)
    ensures |r| <= |s|
    ensures r != [] ==> r[0] !in chars && r[|r| - 1] !in chars
  {
    RStripChars(LStripChars(s, chars), chars)
  }

  function Strip(s: string): string { StripChars(s, Whitespace) }

  function LStrip(s: string): string { LStripChars(s, Whitespace) }

  /** A string that neither begins nor ends with whitespace is its own strip. */
  lemma StripUnpadded(s: string)
    requires s != [] && !IsSpace(s[0]) && !IsSpace(s[|s| - 1])
    ensures Strip(s) == s
  {
    assert LStripChars(s, Whitespace) == s;
    assert RStripChars(s, Whitespace) == s;
  }

  /** Every character a strip leaves was a character of the input. */
  lemma StripCharsKeeps(s: string, chars: set<char>)
    ensures forall c :: c in StripChars(s, chars) ==> c in s
  {
    var l := LStripChars(s, chars);
    var r := RStripChars(l, chars);
    forall c | c in r
      ensures c in s
    {
      var i :| 0 <= i < |r| && r[i] == c;
      assert r[i] == l[i] == s[|s| - |l| + i];
    }
  }

  /** A string that neither begins nor ends with one of `chars` is its own strip. */
  lemma StripCharsUnpadded(s: string, chars: set<char>)
    requires s != [] ==> s[0] !in chars && s[|s| - 1] !in chars
    ensures StripChars(s, chars) == s
  {
    assert LStripChars(s, chars) == s;
    assert RStripChars(s, chars) == s;
  }

  /** Every piece stripped. */
  function StripAll(pieces: seq<string>): (r: seq<string>)
    ensures |r| == |pieces|
    ensures forall k :: 0 <= k < |pieces| ==> r[k] == Strip(pieces[k])
  {
    seq(|pieces|, k requires 0 <= k < |pieces| => Strip(pieces[k]))
  }

  /** Stripping a list extended by one piece extends the stripped list by that piece
      stripped. */
  lemma StripAllSnoc(pieces: seq<string>, piece: string)
    ensures StripAll(pieces + [piece]) == StripAll(pieces) + [Strip(piece)]
  {
  }

  /** A non-empty text: Python's truth value of a string. */
  predicate NotEmpty(x: string) { x != "" }

  /** Stripping twice strips no more than once. */
  lemma StripIdempotent(s: string)
    ensures Strip(Strip(s)) == Strip(s)
  {
    var t := Strip(s);
    if t != [] {
      assert t[0] !in Whitespace && t[|t| - 1] !in Whitespace;
      StripUnpadded(t);
    }
  }

  /** Lower-casing a stripped string leaves it stripped: no letter is whitespace. */
  lemma LowerKeepsStripped(s: string)
    requires Strip(s) == s
    ensures Strip(Lower(s)) == Lower(s)
  {
    if s != [] {
      var t := Lower(s);
      assert !IsSpace(t[0]) && !IsSpace(t[|t| - 1]);
      StripUnpadded(t);
    }
  }

  /** `s.strip().lower()` is stripped and has no capital letter. */
  lemma LowerStripClean(s: string)
    ensures Strip(Lower(Strip(s))) == Lower(Strip(s))
    ensures forall i :: 0 <= i < |Lower(Strip(s))| ==> !('A' <= Lower(Strip(s))[i] <= 'Z')
  {
    var t := Strip(s);
    StripIdempotent(s);
    LowerKeepsStripped(t);
    var u := Lower(t);
    forall i | 0 <= i < |u|
      ensures !('A' <= u[i] <= 'Z')
    {
      LowerCharUncapital(t[i]);
    }
  }

  /** A lower-cased character is never a capital. */
  lemma LowerCharUncapital(c: char)
    ensures !('A' <= LowerChar(c) <= 'Z')
  {
  }

  /** A string without capital letters is its own lower case. */
  lemma LowerUncapitalised(s: string)
    requires forall i :: 0 <= i < |s| ==> !('A' <= s[i] <= 'Z')
    ensures Lower(s) == s
  {
  }

  /** The string holds only whitespace. */
  predicate IsBlank(s: string)
  {
    s == [] || (IsSpace(s[0]) && IsBlank(s[1..]))
  }

  /** A blank string is one made of whitespace characters only. */
  lemma {:induction false} BlankIffAllSpace(s: string)
    ensures IsBlank(s) <==> (forall i :: 0 <= i < |s| ==> IsSpace(s[i]))
  {
    if s != [] {
      BlankIffAllSpace(s[1..]);
      assert forall i :: 1 <= i < |s| ==> s[i] == s[1..][i - 1];
    }
  }

  /** `not s.strip()` holds exactly for the blank strings. */
  lemma BlankIffStripEmpty(s: string)
    ensures IsBlank(s) <==> (forall i :: 0 <= i < |s| ==> IsSpace(s[i]))
    ensures IsBlank(s) <==> Strip(s) == []
  {
    BlankIffAllSpace(s);
    var l := LStripChars(s, Whitespace);
    assert l == [] <==> (forall i :: 0 <= i < |s| ==> IsSpace(s[i]));
    if l != [] {
      assert l[0] !in Whitespace;
      assert RStripChars(l, Whitespace) != [];
    }
  }

  function LowerChar(c: char): char
  {
    if 'A' <= c <= 'Z' then (c as int + 32) as char else c
  }

  function UpperChar(c: char): char
  {
    if 'a' <= c <= 'z' then (c as int - 32) as char else c
  }

  /** `s.lower()` on ASCII letters. */
  function Lower(s: string): (r: string)
    ensures |r| == |s|
    ensures forall i :: 0 <= i < |s| ==> r[i] == LowerChar(s[i])
  {
    seq(|s|, i requires 0 <= i < |s| => LowerChar(s[i]))
  }

  /** `s.upper()` on ASCII letters. */
  function Upper(s: string): (r: string)
    ensures |r| == |s|
    ensures forall i :: 0 <= i < |s| ==> r[i] == UpperChar(s[i])
  {
    seq(|s|, i requires 0 <= i < |s| => UpperChar(s[i]))
  }

  /** `sep.join(parts)`. */
  function Join(sep: string, parts: seq<string>): string
  {
    if |parts| == 0 then ""
    else if |parts| == 1 then parts[0]
    else parts[0] + sep + Join(sep, parts[1..])
  }

  /** Joining one more part adds the separator and that part at the end. */
  lemma {:induction false} JoinAppend(sep: string, parts: seq<string>, x: string)
    requires |parts| >= 1
    ensures Join(sep, parts + [x]) == Join(sep, parts) + sep + x
  {
    if |parts| == 1 {
      assert (parts + [x])[1..] == [x];
    } else {
      JoinAppend(sep, parts[1..], x);
      assert (parts + [x])[1..] == parts[1..] + [x];
    }
  }

  /** `s.split(c)` for a one-character separator: never empty, no piece holds `c`. */
  function Split(s: string, c: char): (r: seq<string>)
    ensures |r| >= 1
    ensures forall k :: 0 <= k < |r| ==> c !in r[k]
  {
    if s == [] then [""]
    else if s[0] == c then [""] + Split(s[1..], c)
    else
      var rest := Split(s[1..], c);
      [[s[0]] + rest[0]] + rest[1..]
  }

  lemma {:induction false} SplitNoSeparator(s: string, c: char)
    requires c !in s
    ensures Split(s, c) == [s]
  {
    if s != [] {
      SplitNoSeparator(s[1..], c);
      assert [s[0]] + s[1..] == s;
    }
  }

  lemma {:induction false} SplitAfterPiece(a: string, c: char, b: string)
    requires c !in a
    ensures Split(a + [c] + b, c) == [a] + Split(b, c)
  {
    if a == [] {
      assert a + [c] + b == [c] + b;
      assert ([c] + b)[1..] == b;
    } else {
      assert (a + [c] + b)[1..] == a[1..] + [c] + b;
      SplitAfterPiece(a[1..], c, b);
      assert [a[0]] + a[1..] == a;
    }
  }

  /** Splitting on `c` undoes joining with `c` when no piece contains `c`. */
  lemma {:induction false} SplitJoin(xs: seq<string>, c: char)
    requires |xs| >= 1
    requires forall k :: 0 <= k < |xs| ==> c !in xs[k]
    ensures Split(Join([c], xs), c) == xs
  {
    if |xs| == 1 {
      SplitNoSeparator(xs[0], c);
    } else {
      SplitJoin(xs[1..], c);
      SplitAfterPiece(xs[0], c, Join([c], xs[1..]));
    }
  }

  predicate StartsWith(s: string, prefix: string)
  {
    |prefix| <= |s| && s[..|prefix|] == prefix
  }

  /** A prefix of a prefix is a prefix. */
  lemma StartsWithTrans(s: string, t: string, u: string)
    requires StartsWith(s, t) && StartsWith(t, u)
    ensures StartsWith(s, u)
  {
    assert s[..|u|] == s[..|t|][..|u|];
  }

  predicate EndsWith(s: string, suffix: string)
  {
    |suffix| <= |s| && s[|s| - |suffix|..] == suffix
  }

  /** A concatenation starts with its left part and ends with its right part. */
  lemma ConcatAffixes(a: string, b: string)
    ensures StartsWith(a + b, a) && EndsWith(a + b, b)
  {
    assert (a + b)[..|a|] == a;
    assert (a + b)[|a + b| - |b|..] == b;
  }

  /** `sub in s`. */
  predicate Contains(s: string, sub: string)
  {
    StartsWith(s, sub) || (s != [] && Contains(s[1..], sub))
  }

  /** `s.replace(pat, repl)`: left to right, non-overlapping, without rescanning. */
  function Replace(s: string, pat: string, repl: string): string
    requires |pat| > 0
  {
    if |s| < |pat| then s
    else if StartsWith(s, pat) then repl + Replace(s[|pat|..], pat, repl)
    else [s[0]] + Replace(s[1..], pat, repl)
  }

  lemma {:induction false} ReplaceAbsent(s: string, pat: string, repl: string)
    requires |pat| > 0
    requires !Contains(s, pat)
    ensures Replace(s, pat, repl) == s
  {
    if |s| >= |pat| {
      ReplaceAbsent(s[1..], pat, repl);
      assert [s[0]] + s[1..] == s;
    }
  }

  /** A string that starts with the pattern has its first occurrence replaced there. */
  lemma ReplaceLeading(pat: string, rest: string, repl: string)
    requires |pat| > 0
    ensures Replace(pat + rest, pat, repl) == repl + Replace(rest, pat, repl)
  {
    assert (pat + rest)[..|pat|] == pat;
    assert (pat + rest)[|pat|..] == rest;
  }

  /** Replacing never brings in a character that neither the string nor the
      replacement holds. */
  lemma {:induction false} ReplaceKeepsOut(s: string, pat: string, repl: string, c: char)
    requires |pat| > 0
    requires c !in s && c !in repl
    ensures c !in Replace(s, pat, repl)
  {
    if |s| >= |pat| {
      if StartsWith(s, pat) {
        ReplaceKeepsOut(s[|pat|..], pat, repl, c);
      } else {
        ReplaceKeepsOut(s[1..], pat, repl, c);
      }
    }
  }

  function DigitChar(d: nat): char
    requires d < 10
  {
    ('0' as int + d) as char
  }

  /** `str(n)` for a natural number. */
  function NatToString(n: nat): (r: string)
    ensures |r| >= 1
    ensures forall i :: 0 <= i < |r| ==> IsDigit(r[i])
  {
    if n < 10 then [DigitChar(n)] else NatToString(n / 10) + [DigitChar(n % 10)]
  }

  /** `str(i)` for an integer. */
  function IntToString(i: int): string
  {
    if i < 0 then "-" + NatToString(-i) else NatToString(i)
  }

  function Zeros(k: nat): (r: string)
    ensures |r| == k
    ensures forall i :: 0 <= i < k ==> r[i] == '0'
  {
    if k == 0 then "" else "0" + Zeros(k - 1)
  }

  /** `f"{i:0w}"`: zero-padded to width `w`, the sign counting towards the width. */
  function ZeroPad(i: int, w: nat): (r: string)
  {
    if i < 0 then
      var digits := NatToString(-i);
      "-" + (if |digits| + 1 < w then Zeros(w - 1 - |digits|) else "") + digits
    else
      var digits := NatToString(i);
      (if |digits| < w then Zeros(w - |digits|) else "") + digits
  }

  /** The padding makes the text at least as wide as asked. */
  lemma ZeroPadWidth(i: int, w: nat)
    ensures |ZeroPad(i, w)| >= w
  {
    if i < 0 {
      var digits := NatToString(-i);
      if |digits| + 1 < w {
        assert |Zeros(w - 1 - |digits|)| == w - 1 - |digits|;
      }
    } else {
      var digits := NatToString(i);
      if |digits| < w {
        assert |Zeros(w - |digits|)| == w - |digits|;
      }
    }
  }
  /** `s.isdigit()` on ASCII digits: non-empty and made of digits only. */
  predicate IsDigits(s: string)
  {
    |s| > 0 && forall i :: 0 <= i < |s| ==> IsDigit(s[i])
  }

  /** `int(s)` for a string of decimal digits. */
  function DigitsValue(s: string): nat
    requires forall i :: 0 <= i < |s| ==> IsDigit(s[i])
  {
    if s == [] then 0 else 10 * DigitsValue(s[..|s| - 1]) + DigitValue(s[|s| - 1])
  }

  function DigitValue(c: char): nat
    requires IsDigit(c)
  {
    c as int - '0' as int
  }

  /** Reading back the decimal text of `n` gives `n`. */
  lemma {:induction false} DigitsValueOfNatToString(n: nat)
    ensures IsDigits(NatToString(n)) && DigitsValue(NatToString(n)) == n
  {
    if n >= 10 {
      DigitsValueOfNatToString(n / 10);
      var s := NatToString(n);
      assert s[..|s| - 1] == NatToString(n / 10);
    }
  }

  function Pow10(k: nat): (r: nat)
    ensures r >= 1
  {
    if k == 0 then 1 else 10 * Pow10(k - 1)
  }

  /** A number below 10^k has at most k decimal digits. */
  lemma {:induction false} NatToStringLength(n: nat, k: nat)
    requires k >= 1 && n < Pow10(k)
    ensures |NatToString(n)| <= k
  {
    if n >= 10 {
      assert Pow10(1) == 10;
      NatToStringLength(n / 10, k - 1);
    }
  }

  /** Leading zeros do not change the value of a digit string. */
  lemma {:induction false} LeadingZerosValue(k: nat, s: string)
    requires forall i :: 0 <= i < |s| ==> IsDigit(s[i])
    ensures forall i :: 0 <= i < |Zeros(k) + s| ==> IsDigit((Zeros(k) + s)[i])
    ensures DigitsValue(Zeros(k) + s) == DigitsValue(s)
  {
    if s == [] {
      assert Zeros(k) + s == Zeros(k);
      ZerosValue(k);
    } else {
      var init := s[..|s| - 1];
      LeadingZerosValue(k, init);
      assert (Zeros(k) + s)[..|Zeros(k) + s| - 1] == Zeros(k) + init;
    }
  }

  lemma {:induction false} ZerosValue(k: nat)
    ensures DigitsValue(Zeros(k)) == 0
  {
    if k > 0 {
      assert Zeros(k)[..k - 1] == Zeros(k - 1);
      ZerosValue(k - 1);
    }
  }

  /** Zero padding a natural number gives a digit string of at least the width that
      reads back as the number, and exactly the width when the number fits. */
  lemma ZeroPadRoundTrip(i: nat, w: nat)
    ensures IsDigits(ZeroPad(i, w)) && DigitsValue(ZeroPad(i, w)) == i
    ensures |ZeroPad(i, w)| >= w
    ensures w >= 1 && i < Pow10(w) ==> |ZeroPad(i, w)| == w
  {
    var digits := NatToString(i);
    DigitsValueOfNatToString(i);
    if w >= 1 && i < Pow10(w) {
      NatToStringLength(i, w);
    }
    if |digits| < w {
      LeadingZerosValue(w - |digits|, digits);
      assert ZeroPad(i, w) == Zeros(w - |digits|) + digits;
    } else {
      assert ZeroPad(i, w) == digits;
    }
  }

  /** `x` between a prefix and a suffix. */
  function Framed(prefix: string, x: string, suffix: string): (d: string)
    ensures |d| == |prefix| + |x| + |suffix|
    ensures StartsWith(d, prefix) && EndsWith(d, suffix)
    ensures d[|prefix|..|d| - |suffix|] == x
  {
    var d := prefix + x + suffix;
    assert d[..|prefix|] == prefix;
    assert d[|d| - |suffix|..] == suffix;
    assert d[|prefix|..|d| - |suffix|] == x;
    d
  }
}
