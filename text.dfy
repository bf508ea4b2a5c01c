/**
 * The Python string operations the scripts rely on: decimal digits and
 * str(int), str.split/str.join on one character, str.strip, str.find and
 * str.replace of one character by another.
 */
module Text {
  import opened Wrappers

  // ---------------------------------------------------------------------
  // Decimal digits
  // ---------------------------------------------------------------------

  /** An ASCII decimal digit (the only digits this model parses). */
  predicate IsDigit(c: char) {
    '0' <= c <= '9'
  }

  predicate AllDigits(s: string) {
    forall i :: 0 <= i < |s| ==> IsDigit(s[i])
  }

  function DigitValue(c: char): nat
    requires IsDigit(c)
  {
    c as int - '0' as int
  }

  function DigitChar(d: nat): (c: char)
    requires d < 10
    ensures IsDigit(c) && DigitValue(c) == d
  {
    ('0' as int + d) as char
  }

  /** The value of a string of decimal digits, most significant first. */
  function DigitsValue(s: string): nat
    requires AllDigits(s)
  {
    if s == [] then 0 else DigitsValue(s[..|s| - 1]) * 10 + DigitValue(s[|s| - 1])
  }

  /** Python's str(n) for a non-negative integer. */
  function NatToDecimal(n: nat): (s: string)
    ensures |s| > 0 && AllDigits(s)
    ensures DigitsValue(s) == n
    ensures s[0] == '0' ==> n == 0
  {
    if n < 10 then [DigitChar(n)]
    else
      var prefix := NatToDecimal(n / 10);
      var s := prefix + [DigitChar(n % 10)];
      assert s[..|s| - 1] == prefix;
      s
  }

  /** Python's str(i) for any integer: a minus sign, then the digits. */
  function IntToDecimal(i: int): (s: string)
    ensures |s| > 0
    ensures forall j :: 0 <= j < |s| ==> IsDigit(s[j]) || (j == 0 && s[j] == '-')
    ensures i >= 0 ==> s == NatToDecimal(i)
  {
    if i < 0 then "-" + NatToDecimal(-i) else NatToDecimal(i)
  }

  /** str(n) is the one numeral of n: decimal digits worth n, with no leading zero. */
  lemma NatToDecimalMeaning(n: nat)
    ensures var s := NatToDecimal(n);
      && |s| > 0 && AllDigits(s) && DigitsValue(s) == n
      && (s[0] == '0' ==> s == "0")
  {
    var s := NatToDecimal(n);
    if n >= 10 {
      var prefix := NatToDecimal(n / 10);
      assert s[0] == prefix[0];
    }
  }

  /**
   * str(i) is the numeral of i: a minus sign exactly when i is negative,
   * followed by the digits of |i| with no leading zero.
   */
  lemma IntToDecimalMeaning(i: int)
    ensures var s := IntToDecimal(i);
      var digits := if i < 0 then s[1..] else s;
      && (s[0] == '-' <==> i < 0)
      && |digits| > 0 && AllDigits(digits)
      && DigitsValue(digits) == (if i < 0 then -i else i)
      && (digits[0] == '0' ==> digits == "0")
  {
    var s := IntToDecimal(i);
    if i < 0 {
      NatToDecimalMeaning(-i);
      assert s[1..] == NatToDecimal(-i);
    } else {
      NatToDecimalMeaning(i);
    }
  }

  // ---------------------------------------------------------------------
  // str.split(sep) and sep.join(parts) for a one-character separator
  // ---------------------------------------------------------------------

  /** s.split(sep): the pieces between occurrences of sep, empty pieces kept. */
  function Split(s: string, sep: char): (parts: seq<string>)
    ensures |parts| >= 1
    decreases |s|
  {
    if s == [] then [""]
    else
      var rest := Split(s[1..], sep);
      if s[0] == sep then [""] + rest
      else [[s[0]] + rest[0]] + rest[1..]
  }

  /** sep.join(parts). */
  function Join(parts: seq<string>, sep: char): string
  {
    if parts == [] then ""
    else if |parts| == 1 then parts[0]
    else parts[0] + [sep] + Join(parts[1..], sep)
  }

  lemma {:induction false} SplitWithoutSeparator(s: string, sep: char)
    requires sep !in s
    ensures Split(s, sep) == [s]
    decreases |s|
  {
    if s != [] {
      SplitWithoutSeparator(s[1..], sep);
      assert [s[0]] + s[1..] == s;
    }
  }

  lemma {:induction false} SplitAtSeparator(a: string, sep: char, b: string)
    requires sep !in a
    ensures Split(a + [sep] + b, sep) == [a] + Split(b, sep)
    decreases |a|
  {
    if a == [] {
      assert a + [sep] + b == [sep] + b;
      assert ([sep] + b)[1..] == b;
    } else {
      SplitAtSeparator(a[1..], sep, b);
      assert (a + [sep] + b)[1..] == a[1..] + [sep] + b;
      assert [a[0]] + a[1..] == a;
    }
  }

  /** Joining pieces that do not contain the separator, then splitting, gives the pieces back. */
  lemma {:induction false} SplitJoin(parts: seq<string>, sep: char)
    requires |parts| >= 1
    requires forall i :: 0 <= i < |parts| ==> sep !in parts[i]
    ensures Split(Join(parts, sep), sep) == parts
    decreases |parts|
  {
    if |parts| == 1 {
      SplitWithoutSeparator(parts[0], sep);
    } else {
      SplitJoin(parts[1..], sep);
      SplitAtSeparator(parts[0], sep, Join(parts[1..], sep));
      assert [parts[0]] + parts[1..] == parts;
    }
  }

  /** Joining one more piece adds the separator and the piece at the end. */
  lemma {:induction false} JoinAppend(parts: seq<string>, x: string, sep: char)
    requires |parts| >= 1
    ensures Join(parts + [x], sep) == Join(parts, sep) + [sep] + x
    decreases |parts|
  {
    if |parts| == 1 {
      assert (parts + [x])[1..] == [x];
    } else {
      assert (parts + [x])[1..] == parts[1..] + [x];
      JoinAppend(parts[1..], x, sep);
    }
  }

  /** s.split(sep)[1] exists exactly when sep occurs in s. */
  lemma {:induction false} SplitHasSecond(s: string, sep: char)
    ensures |Split(s, sep)| >= 2 <==> sep in s
    decreases |s|
  {
    if s != [] {
      SplitHasSecond(s[1..], sep);
      assert s == [s[0]] + s[1..];
    }
  }

  // ---------------------------------------------------------------------
  // str.strip()
  // ---------------------------------------------------------------------

  /** Python's str.isspace for one character: what str.strip() removes. */
  predicate IsSpace(c: char) {
    || '\t' <= c <= '\r'
    || '\U{1c}' <= c <= '\U{1f}'
    || c == ' '
    || c == '\U{85}'
    || c == '\U{a0}'
    || c == '\U{1680}'
    || '\U{2000}' <= c <= '\U{200a}'
    || c == '\U{2028}'
    || c == '\U{2029}'
    || c == '\U{202f}'
    || c == '\U{205f}'
    || c == '\U{3000}'
  }

  /** s.lstrip(): the suffix left after removing leading whitespace. */
  function StripStart(s: string): (r: string)
    ensures |r| <= |s| && r == s[|s| - |r|..]
    ensures r == [] || !IsSpace(r[0])
    ensures forall i :: 0 <= i < |s| - |r| ==> IsSpace(s[i])
  {
    if s != [] && IsSpace(s[0]) then StripStart(s[1..]) else s
  }

  /** s.rstrip(): the prefix left after removing trailing whitespace. */
  function StripEnd(s: string): (r: string)
    ensures |r| <= |s| && r == s[..|r|]
    ensures r == [] || !IsSpace(r[|r| - 1])
    ensures forall i :: |r| <= i < |s| ==> IsSpace(s[i])
  {
    if s != [] && IsSpace(s[|s| - 1]) then StripEnd(s[..|s| - 1]) else s
  }

  /** s.strip(). */
  function Strip(s: string): (r: string)
    ensures |r| <= |s|
    ensures r == [] || (!IsSpace(r[0]) && !IsSpace(r[|r| - 1]))
  {
    var t := StripStart(s);
    var r := StripEnd(t);
    assert r == [] || r[0] == t[0];
    r
  }

  /**
   * r is what strip leaves of s when s has a characters of leading
   * whitespace: the slice s[a..a + |r|], with only whitespace before and
   * after it, neither starting nor ending with whitespace.
   */
  ghost predicate StrippedSlice(s: string, a: nat, r: string) {
    && a + |r| <= |s| && r == s[a..a + |r|]
    && (forall i :: 0 <= i < a ==> IsSpace(s[i]))
    && (forall i :: a + |r| <= i < |s| ==> IsSpace(s[i]))
    && (r == [] || (!IsSpace(r[0]) && !IsSpace(r[|r| - 1])))
  }

  /** What strip removes: exactly the leading and the trailing whitespace. */
  lemma StripSlice(s: string)
    ensures StrippedSlice(s, |s| - |StripStart(s)|, Strip(s))
  {
    var t := StripStart(s);
    var r := StripEnd(t);
    assert Strip(s) == r;
    SliceOfPrefixOfSuffix(s, t, r);
  }

  /** A prefix r of a suffix t of s, each cut at whitespace, is the slice strip leaves. */
  lemma SliceOfPrefixOfSuffix(s: string, t: string, r: string)
    requires |t| <= |s| && t == s[|s| - |t|..]
    requires forall i :: 0 <= i < |s| - |t| ==> IsSpace(s[i])
    requires |r| <= |t| && r == t[..|r|]
    requires forall i :: |r| <= i < |t| ==> IsSpace(t[i])
    requires r == [] || (!IsSpace(r[0]) && !IsSpace(r[|r| - 1]))
    ensures StrippedSlice(s, |s| - |t|, r)
  {
    var a := |s| - |t|;
    forall i | a + |r| <= i < |s|
      ensures IsSpace(s[i])
    {
      assert s[i] == t[i - a];
    }
  }

  /** Stripping twice is stripping once. */
  lemma StripIdempotent(s: string)
    ensures Strip(Strip(s)) == Strip(s)
  {
    var r := Strip(s);
    assert StripStart(r) == r;
    assert StripEnd(r) == r;
  }

  // ---------------------------------------------------------------------
  // Substring search
  // ---------------------------------------------------------------------

  predicate OccursAt(s: string, pat: string, i: nat) {
    i + |pat| <= |s| && s[i..i + |pat|] == pat
  }

  ghost predicate Contains(s: string, pat: string) {
    exists i: nat :: OccursAt(s, pat, i)
  }

  /** s.find(pat, start): the leftmost occurrence of pat at or after `start`. */
  function Find(s: string, pat: string, start: nat): (r: Option<nat>)
    requires start <= |s|
    ensures r.Some? ==> start <= r.value && OccursAt(s, pat, r.value)
    ensures r.Some? ==> forall j :: start <= j < r.value ==> !OccursAt(s, pat, j)
    ensures r.None? ==> forall j: nat :: start <= j ==> !OccursAt(s, pat, j)
    decreases |s| - start
  {
    if OccursAt(s, pat, start) then Some(start)
    else if start == |s| then None
    else Find(s, pat, start + 1)
  }

  /** An occurrence inside a slice is an occurrence in the whole string, shifted by the slice start. */
  lemma SliceOccurrence(s: string, pat: string, a: nat, b: nat, i: nat)
    requires a <= b <= |s|
    ensures OccursAt(s[a..b], pat, i) ==> OccursAt(s, pat, a + i)
  {
    if OccursAt(s[a..b], pat, i) {
      forall j | 0 <= j < |pat|
        ensures s[a + i + j] == pat[j]
      {
        assert s[a..b][i..i + |pat|][j] == pat[j];
      }
      assert s[a + i..a + i + |pat|] == pat;
    }
  }

  /** A piece taken from the middle of a string without pat does not contain pat either. */
  lemma SliceWithout(s: string, pat: string, a: nat, b: nat)
    requires a <= b <= |s|
    requires !Contains(s, pat)
    ensures !Contains(s[a..b], pat)
  {
    forall i: nat
      ensures !OccursAt(s[a..b], pat, i)
    {
      SliceOccurrence(s, pat, a, b, i);
    }
  }

  /** The text before the leftmost occurrence of pat does not contain pat. */
  lemma BeforeFirstWithout(s: string, pat: string, i: nat)
    requires |pat| > 0 && i <= |s| && Find(s, pat, 0) == Some(i)
    ensures !Contains(s[..i], pat)
  {
    forall j: nat
      ensures !OccursAt(s[..i], pat, j)
    {
      if j + |pat| <= i {
        assert j < i;
        assert !OccursAt(s, pat, j);
        assert s[..i][j..j + |pat|] == s[j..j + |pat|];
      }
    }
  }

  /** Stripping cannot create an occurrence. */
  lemma StripWithout(s: string, pat: string)
    requires !Contains(s, pat)
    ensures !Contains(Strip(s), pat)
  {
    var t := StripStart(s);
    SliceWithout(s, pat, |s| - |t|, |s|);
    assert t == s[|s| - |t|..|s|];
    SliceWithout(t, pat, 0, |StripEnd(t)|);
  }

  // ---------------------------------------------------------------------
  // str.replace for one character
  // ---------------------------------------------------------------------

  /** s.replace(from, to) where the two strings are single characters. */
  function ReplaceChar(s: string, from: char, to: char): (r: string)
    ensures |r| == |s|
    ensures forall i :: 0 <= i < |s| ==> r[i] == (if s[i] == from then to else s[i])
  {
    if s == [] then [] else [if s[0] == from then to else s[0]] + ReplaceChar(s[1..], from, to)
  }
}
