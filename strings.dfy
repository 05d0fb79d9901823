/** The handful of Python string operations the views rely on: `str.strip`,
  * `str.lower`, `str.isdigit`, `int(...)`, `f'{n}'` and the database's
  * case-insensitive containment test (`__icontains`). */
module Strings {

  /** The characters Python's `str.strip()` removes: the ASCII separators and the Unicode
    * whitespace characters. */
  const SpaceChars: seq<char> := [
    ' ', '\t', '\n', '\U{0B}', '\U{0C}', '\r', '\U{1C}', '\U{1D}', '\U{1E}', '\U{1F}',
    '\U{85}', '\U{A0}', '\U{1680}',
    '\U{2000}', '\U{2001}', '\U{2002}', '\U{2003}', '\U{2004}', '\U{2005}',
    '\U{2006}', '\U{2007}', '\U{2008}', '\U{2009}', '\U{200A}',
    '\U{2028}', '\U{2029}', '\U{202F}', '\U{205F}', '\U{3000}']

  /** `c` is one of the whitespace characters from position `k` of the list on. */
  predicate SpaceFrom(c: char, k: nat)
    decreases |SpaceChars| - k
  {
    k < |SpaceChars| && (SpaceChars[k] == c || SpaceFrom(c, k + 1))
  }

  /** Python's notion of a whitespace character. */
  predicate IsSpace(c: char) {
    SpaceFrom(c, 0)
  }

  /** A character outside the list is not whitespace. */
  lemma {:induction false} NotSpaceFrom(c: char, k: nat)
    requires c !in SpaceChars
    ensures !SpaceFrom(c, k)
    decreases |SpaceChars| - k
  {
    if k < |SpaceChars| {
      NotSpaceFrom(c, k + 1);
    }
  }

  /** Digits are not whitespace. */
  lemma DigitNotSpace(c: char)
    requires '0' <= c <= '9'
    ensures !IsSpace(c)
  {
    assert c !in SpaceChars by {
      assert forall i :: 0 <= i < |SpaceChars| ==> SpaceChars[i] < '0' || '9' < SpaceChars[i];
    }
    NotSpaceFrom(c, 0);
  }

  predicate AllSpace(s: string) {
    forall i :: 0 <= i < |s| ==> IsSpace(s[i])
  }

  /** No whitespace at either end. */
  predicate Trimmed(s: string) {
    s == [] || (!IsSpace(s[0]) && !IsSpace(s[|s| - 1]))
  }

  /** `s.lstrip()`: `s` without its leading whitespace. */
  function StripLeft(s: string): (r: string)
    ensures |r| <= |s| && r == s[|s| - |r|..]
    ensures forall k :: 0 <= k < |s| - |r| ==> IsSpace(s[k])
    ensures r != [] ==> !IsSpace(r[0])
  {
    if s != [] && IsSpace(s[0]) then
      var r := StripLeft(s[1..]);
      assert s[1..][|s| - 1 - |r|..] == s[|s| - |r|..];
      r
    else s
  }

  /** `s.rstrip()`: `s` without its trailing whitespace. */
  function StripRight(s: string): (r: string)
    ensures |r| <= |s| && r == s[..|r|]
    ensures forall k :: |r| <= k < |s| ==> IsSpace(s[k])
    ensures r != [] ==> !IsSpace(r[|r| - 1])
  {
    if s != [] && IsSpace(s[|s| - 1]) then
      var t := s[..|s| - 1];
      var r := StripRight(t);
      assert t[..|r|] == s[..|r|];
      r
    else s
  }

  /** `s.strip()`: `s` without its leading and trailing whitespace. */
  function Strip(s: string): (r: string)
    ensures |r| <= |s|
    ensures r == [] <==> AllSpace(s)
    ensures Trimmed(r)
    ensures exists i :: StrippedAt(s, r, i)
  {
    var l := StripLeft(s);
    var r := StripRight(l);
    StripGlue(s, l, r);
    r
  }

  /** `r` is `s` with `i` whitespace characters cut from the front and only whitespace cut from the back. */
  predicate StrippedAt(s: string, r: string, i: int) {
    && 0 <= i <= |s| - |r|
    && s[i..i + |r|] == r
    && (forall k :: 0 <= k < i ==> IsSpace(s[k]))
    && (forall k :: i + |r| <= k < |s| ==> IsSpace(s[k]))
  }

  /** What the two halves of `Strip` establish, put together: `l` is `s` after the leading
    * whitespace, and `r` is `l` before the trailing whitespace. */
  lemma StripGlue(s: string, l: string, r: string)
    requires |l| <= |s| && l == s[|s| - |l|..]
    requires forall k :: 0 <= k < |s| - |l| ==> IsSpace(s[k])
    requires l != [] ==> !IsSpace(l[0])
    requires |r| <= |l| && r == l[..|r|]
    requires forall k :: |r| <= k < |l| ==> IsSpace(l[k])
    ensures StrippedAt(s, r, |s| - |l|)
    ensures r == [] <==> AllSpace(s)
    ensures r != [] ==> !IsSpace(r[0])
  {
    var i := |s| - |l|;
    assert s[i..i + |r|] == l[..|r|];
    assert forall k :: i <= k < |s| ==> s[k] == l[k - i];
  }

  /** What `strip` leaves is a piece of the original text. */
  lemma StripContained(s: string)
    ensures Contains(s, Strip(s))
  {
    var i :| StrippedAt(s, Strip(s), i);
    assert OccursAt(s, Strip(s), i);
  }

  /** Whitespace on either side of a text that neither starts nor ends with whitespace is all
    * that `strip` removes. */
  lemma StripPadded(pre: string, t: string, post: string)
    requires AllSpace(pre) && AllSpace(post) && t != [] && Trimmed(t)
    ensures Strip(pre + t + post) == t
  {
    assert pre + t + post == pre + (t + post);
    StripLeftOfPadded(pre, t + post);
    StripRightOfPadded(t, post);
  }

  /** Only one text without whitespace at either end sits in `s` with nothing but whitespace
    * around it. */
  lemma StrippedAtUnique(s: string, r1: string, i1: int, r2: string, i2: int)
    requires StrippedAt(s, r1, i1) && StrippedAt(s, r2, i2)
    requires r1 != [] && Trimmed(r1) && r2 != [] && Trimmed(r2)
    ensures i1 == i2 && r1 == r2
  {
    assert s[i1] == r1[0] && s[i2] == r2[0];
    assert s[i1 + |r1| - 1] == r1[|r1| - 1] && s[i2 + |r2| - 1] == r2[|r2| - 1];
  }

  /** `Strip`'s contract pins its result: any text without whitespace at either end that sits
    * in `s` between whitespace-only margins is `Strip(s)`. */
  lemma StripUnique(s: string, r: string, i: int)
    requires StrippedAt(s, r, i) && Trimmed(r)
    ensures r == Strip(s)
  {
    if r == [] {
      assert forall k :: 0 <= k < |s| ==> IsSpace(s[k]);
    } else {
      assert s[i] == r[0];
      var j :| StrippedAt(s, Strip(s), j);
      StrippedAtUnique(s, r, i, Strip(s), j);
    }
  }

  lemma {:induction false} StripLeftOfPadded(pad: string, t: string)
    requires AllSpace(pad) && t != [] && !IsSpace(t[0])
    ensures StripLeft(pad + t) == t
  {
    if pad != [] {
      assert (pad + t)[1..] == pad[1..] + t;
      StripLeftOfPadded(pad[1..], t);
    } else {
      assert pad + t == t;
    }
  }

  lemma {:induction false} StripRightOfPadded(t: string, pad: string)
    requires AllSpace(pad) && t != [] && !IsSpace(t[|t| - 1])
    ensures StripRight(t + pad) == t
  {
    if pad != [] {
      assert (t + pad)[..|t + pad| - 1] == t + pad[..|pad| - 1];
      StripRightOfPadded(t, pad[..|pad| - 1]);
    } else {
      assert t + pad == t;
    }
  }

  /** Stripping twice is stripping once. */
  lemma StripIdempotent(s: string)
    ensures Strip(Strip(s)) == Strip(s)
  {
  }

  /** ASCII case folding of one character. */
  function LowerChar(c: char): char {
    if 'A' <= c <= 'Z' then (c as int + 32) as char else c
  }

  /** `s.lower()` on ASCII text. */
  function Lower(s: string): string {
    seq(|s|, i requires 0 <= i < |s| => LowerChar(s[i]))
  }

  predicate IsPrefix(p: string, s: string) {
    |p| <= |s| && s[..|p|] == p
  }

  /** Python's `sub in s`: `sub` occurs as a contiguous slice of `s`. */
  function Contains(s: string, sub: string): (b: bool)
    ensures b <==> exists i :: OccursAt(s, sub, i)
    decreases |s|
  {
    if IsPrefix(sub, s) then
      assert OccursAt(s, sub, 0);
      true
    else if s == [] then
      false
    else
      var rest := Contains(s[1..], sub);
      ContainsStep(s, sub, rest);
      rest
  }

  lemma ContainsStep(s: string, sub: string, rest: bool)
    requires s != [] && !IsPrefix(sub, s)
    requires rest <==> exists i :: OccursAt(s[1..], sub, i)
    ensures rest <==> exists i :: OccursAt(s, sub, i)
  {
    if rest {
      var i :| OccursAt(s[1..], sub, i);
      assert s[i + 1..i + 1 + |sub|] == s[1..][i..i + |sub|];
      assert OccursAt(s, sub, i + 1);
    } else {
      forall i | 0 < i <= |s| - |sub|
        ensures OccursAt(s, sub, i) <==> OccursAt(s[1..], sub, i - 1)
      {
        assert s[i..i + |sub|] == s[1..][i - 1..i - 1 + |sub|];
      }
      assert |sub| <= |s| ==> s[0..0 + |sub|] == s[..|sub|];
    }
  }

  /** `sub` occurs in `s` starting at index `i`. */
  predicate OccursAt(s: string, sub: string, i: int) {
    0 <= i <= |s| - |sub| && s[i..i + |sub|] == sub
  }

  /** The `__icontains` lookup: containment after ASCII case folding of both sides. */
  function IContains(s: string, q: string): bool {
    Contains(Lower(s), Lower(q))
  }

  predicate IsDigit(c: char) {
    '0' <= c <= '9'
  }

  /** `s.isdigit()` for ASCII text: at least one character, all of them digits. */
  predicate IsDigits(s: string) {
    s != [] && forall i :: 0 <= i < |s| ==> IsDigit(s[i])
  }

  /** `int(s)` for a string of decimal digits (leading zeros allowed). */
  function DigitsValue(s: string): nat
    requires forall i :: 0 <= i < |s| ==> IsDigit(s[i])
  {
    if s == [] then 0
    else
      assert IsDigit(s[|s| - 1]);
      DigitsValue(s[..|s| - 1]) * 10 + (s[|s| - 1] as int - '0' as int)
  }

  function DigitChar(d: nat): (c: char)
    requires d < 10
    ensures IsDigit(c) && !IsSpace(c)
  {
    var c := ('0' as int + d) as char;
    DigitNotSpace(c);
    c
  }

  /** `f'{n}'`: the decimal numeral of `n`, with no leading zero. */
  function Decimal(n: nat): (s: string)
    ensures IsDigits(s)
    ensures Trimmed(s)
    ensures s[0] == '0' <==> n == 0
  {
    if n < 10 then [DigitChar(n)] else Decimal(n / 10) + [DigitChar(n % 10)]
  }

  /** `int(f'{n}') == n`: the numeral reads back as the number it was made from. */
  lemma {:induction false} DecimalRoundTrip(n: nat)
    ensures DigitsValue(Decimal(n)) == n
  {
    if n >= 10 {
      var s := Decimal(n);
      assert s[..|s| - 1] == Decimal(n / 10);
      DecimalRoundTrip(n / 10);
    }
  }

  /** A number in 10000..99999 is written with exactly five digits. */
  lemma FiveDigitDecimal(n: nat)
    requires 10000 <= n <= 99999
    ensures |Decimal(n)| == 5
  {
    var n1, n2, n3, n4 := n / 10, n / 10 / 10, n / 10 / 10 / 10, n / 10 / 10 / 10 / 10;
    assert 1 <= n4 <= 9 && n3 / 10 == n4 && n2 / 10 == n3 && n1 / 10 == n2;
    assert |Decimal(n4)| == 1;
    assert |Decimal(n3)| == 2;
    assert |Decimal(n2)| == 3;
    assert |Decimal(n1)| == 4;
  }
}
