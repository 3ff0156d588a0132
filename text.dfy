/**
 * String helpers with the semantics of the .NET string methods the programs call
 * (ordinal comparison, ASCII case mapping).
 */
module Text {

  /**
   * char.IsWhiteSpace: the control characters U+0009 to U+000D and U+0085 and the Unicode
   * space, line and paragraph separators.
   */
  predicate IsWhiteSpace(c: char)
  {
    || c == ' ' || c == '\t' || c == '\n' || c == '\r' || c == '\U{000B}' || c == '\U{000C}'
    || c == '\U{0085}' || c == '\U{00A0}' || c == '\U{1680}' || '\U{2000}' <= c <= '\U{200A}'
    || c == '\U{2028}' || c == '\U{2029}' || c == '\U{202F}' || c == '\U{205F}' || c == '\U{3000}'
  }

  /** string.IsNullOrWhiteSpace, for a non-null string. */
  predicate IsBlank(s: string)
  {
    forall i :: 0 <= i < |s| ==> IsWhiteSpace(s[i])
  }

  /** string.TrimStart(): leading white space removed. */
  function TrimStart(s: string): (r: string)
    ensures |r| <= |s|
  {
    if s != [] && IsWhiteSpace(s[0]) then TrimStart(s[1..]) else s
  }

  /** TrimStart keeps a suffix, drops only white space, and stops at the first other character. */
  lemma {:induction false} TrimStartSuffix(s: string)
    ensures TrimStart(s) == s[|s| - |TrimStart(s)|..]
    ensures TrimStart(s) != [] ==> !IsWhiteSpace(TrimStart(s)[0])
    ensures IsBlank(s[..|s| - |TrimStart(s)|])
    decreases |s|
  {
    if s != [] && IsWhiteSpace(s[0]) {
      TrimStartSuffix(s[1..]);
      var t := TrimStart(s[1..]);
      assert s[1..][..|s[1..]| - |t|] == s[1..|s| - |t|];
      assert s[1..][|s[1..]| - |t|..] == s[|s| - |t|..];
    }
  }

  /** string.TrimEnd(): trailing white space removed. */
  function TrimEnd(s: string): (r: string)
    ensures |r| <= |s|
  {
    if s != [] && IsWhiteSpace(s[|s| - 1]) then TrimEnd(s[..|s| - 1]) else s
  }

  /** TrimEnd keeps a prefix, drops only white space, and stops at the last other character. */
  lemma {:induction false} TrimEndPrefix(s: string)
    ensures TrimEnd(s) == s[..|TrimEnd(s)|]
    ensures TrimEnd(s) != [] ==> !IsWhiteSpace(TrimEnd(s)[|TrimEnd(s)| - 1])
    ensures IsBlank(s[|TrimEnd(s)|..])
    decreases |s|
  {
    if s != [] && IsWhiteSpace(s[|s| - 1]) {
      TrimEndPrefix(s[..|s| - 1]);
      var t := TrimEnd(s[..|s| - 1]);
      assert s[..|s| - 1][..|t|] == s[..|t|];
      assert s[|t|..] == s[..|s| - 1][|t|..] + [s[|s| - 1]];
    }
  }

  /** string.Trim(). */
  function Trim(s: string): (r: string)
  {
    TrimEnd(TrimStart(s))
  }

  lemma TrimEmptyIffBlank(s: string)
    ensures Trim(s) == [] <==> IsBlank(s)
  {
    var t := TrimStart(s);
    TrimStartSuffix(s);
    TrimEndPrefix(t);
    assert s[..|s| - |t|] + t == s;
    if t != [] {
      assert t[0] == s[|s| - |t|];
      assert t[0..] == t;
    }
  }

  function ToLowerChar(c: char): char
  {
    if 'A' <= c <= 'Z' then (c as int + 32) as char else c
  }

  /** string.ToLowerInvariant() on ASCII letters. */
  function ToLower(s: string): (r: string)
    ensures |r| == |s|
  {
    if s == [] then [] else [ToLowerChar(s[0])] + ToLower(s[1..])
  }

  /** ToLower maps each character on its own. */
  lemma {:induction false} ToLowerAt(s: string, i: int)
    requires 0 <= i < |s|
    ensures ToLower(s)[i] == ToLowerChar(s[i])
    decreases |s|
  {
    if i > 0 {
      ToLowerAt(s[1..], i - 1);
    }
  }

  lemma {:induction false} ToLowerAppend(a: string, b: string)
    ensures ToLower(a + b) == ToLower(a) + ToLower(b)
    decreases |a|
  {
    if a == [] {
      assert a + b == b;
    } else {
      ToLowerAppend(a[1..], b);
      assert (a + b)[0] == a[0] && (a + b)[1..] == a[1..] + b;
    }
  }

  /** Lower-casing twice is lower-casing once. */
  lemma {:induction false} ToLowerIdempotent(s: string)
    ensures ToLower(ToLower(s)) == ToLower(s)
    decreases |s|
  {
    if s != [] {
      ToLowerIdempotent(s[1..]);
      assert ToLower(s)[1..] == ToLower(s[1..]);
    }
  }

  /** string.Equals(a, b, StringComparison.OrdinalIgnoreCase), with ASCII case folding. */
  predicate EqualsIgnoreCase(a: string, b: string)
  {
    ToLower(a) == ToLower(b)
  }

  predicate StartsWith(s: string, prefix: string)
  {
    prefix <= s
  }

  /** string.Split(sep): n separators give n + 1 pieces, empty ones included. */
  function Split(s: string, sep: char): (r: seq<string>)
    ensures |r| >= 1
    ensures forall i :: 0 <= i < |r| ==> sep !in r[i]
    decreases |s|
  {
    if sep !in s then [s]
    else
      var k := IndexOf(s, sep);
      [s[..k]] + Split(s[k + 1..], sep)
  }

  /** Position of the first occurrence of c in s. */
  function IndexOf(s: string, c: char): (k: nat)
    requires c in s
    ensures k < |s| && s[k] == c && c !in s[..k]
  {
    if s[0] == c then 0 else 1 + IndexOf(s[1..], c)
  }

  /** Position of the last occurrence of c in s, or -1 (string.LastIndexOf). */
  function LastIndexOf(s: string, c: char): (k: int)
    ensures -1 <= k < |s|
    ensures k >= 0 ==> s[k] == c && c !in s[k + 1..]
    ensures k == -1 <==> c !in s
  {
    if s == [] then -1
    else if s[|s| - 1] == c then |s| - 1
    else
      assert s[..|s| - 1] + [s[|s| - 1]] == s;
      LastIndexOf(s[..|s| - 1], c)
  }

  /** The first occurrence is the one with none before it. */
  lemma {:induction false} IndexOfAt(s: string, c: char, k: nat)
    requires k < |s| && s[k] == c && c !in s[..k]
    ensures IndexOf(s, c) == k
  {
  }

  /** The last occurrence is the one with none after it. */
  lemma {:induction false} LastIndexOfAt(s: string, c: char, k: nat)
    requires k < |s| && s[k] == c && c !in s[k + 1..]
    ensures LastIndexOf(s, c) == k
  {
  }

  function Repeat(c: char, n: nat): (r: string)
    ensures |r| == n
  {
    if n == 0 then [] else [c] + Repeat(c, n - 1)
  }

  /** Every character of Repeat(c, n) is c. */
  lemma {:induction false} RepeatAt(c: char, n: nat, i: int)
    requires 0 <= i < n
    ensures Repeat(c, n)[i] == c
    decreases n
  {
    if i > 0 {
      RepeatAt(c, n - 1, i - 1);
    }
  }

  /** string.PadRight(width): blanks appended up to width characters. */
  function PadRight(s: string, width: int): (r: string)
    ensures |r| == if |s| < width then width else |s|
  {
    if |s| < width then s + Repeat(' ', width - |s|) else s
  }

  /** PadRight keeps the string at the front and fills the rest with blanks. */
  lemma PadRightKeeps(s: string, width: int)
    ensures PadRight(s, width)[..|s|] == s
    ensures forall i :: |s| <= i < |PadRight(s, width)| ==> PadRight(s, width)[i] == ' '
  {
    forall i | |s| <= i < |PadRight(s, width)|
      ensures PadRight(s, width)[i] == ' '
    {
      RepeatAt(' ', width - |s|, i - |s|);
    }
  }

  /** string.PadLeft(width): blanks prepended up to width characters. */
  function PadLeft(s: string, width: int): (r: string)
    ensures |r| == if |s| < width then width else |s|
  {
    if |s| < width then Repeat(' ', width - |s|) + s else s
  }

  /** PadLeft keeps the string at the end and fills the front with blanks. */
  lemma PadLeftKeeps(s: string, width: int)
    ensures PadLeft(s, width)[|PadLeft(s, width)| - |s|..] == s
    ensures forall i :: 0 <= i < |PadLeft(s, width)| - |s| ==> PadLeft(s, width)[i] == ' '
  {
    forall i | 0 <= i < |PadLeft(s, width)| - |s|
      ensures PadLeft(s, width)[i] == ' '
    {
      RepeatAt(' ', width - |s|, i);
    }
  }

  function DigitChar(d: nat): char
    requires d < 10
  {
    ('0' as int + d) as char
  }

  predicate IsDigit(c: char)
  {
    '0' <= c <= '9'
  }

  /** Decimal rendering of a natural number. */
  function NatToString(n: nat): (r: string)
    ensures |r| >= 1
    ensures forall i :: 0 <= i < |r| ==> IsDigit(r[i])
  {
    if n < 10 then [DigitChar(n)] else NatToString(n / 10) + [DigitChar(n % 10)]
  }

  /** Decimal rendering of an integer, with a leading '-' when negative. */
  function IntToString(n: int): (r: string)
    ensures |r| >= 1
  {
    if n < 0 then "-" + NatToString(-n) else NatToString(n)
  }

  /** The format ":00": at least two digits, zero-padded. */
  function TwoDigits(n: nat): (r: string)
    ensures |r| >= 2
    ensures forall i :: 0 <= i < |r| ==> IsDigit(r[i])
  {
    if n < 10 then "0" + NatToString(n) else NatToString(n)
  }

  lemma {:induction false} NatToStringInjective(a: nat, b: nat)
    requires NatToString(a) == NatToString(b)
    ensures a == b
  {
    if a < 10 || b < 10 {
    } else {
      var sa, sb := NatToString(a / 10), NatToString(b / 10);
      assert sa + [DigitChar(a % 10)] == sb + [DigitChar(b % 10)];
      assert sa == (sa + [DigitChar(a % 10)])[..|sa|];
      assert sb == (sb + [DigitChar(b % 10)])[..|sb|];
      NatToStringInjective(a / 10, b / 10);
    }
  }

  lemma TwoDigitsInjective(a: nat, b: nat)
    requires TwoDigits(a) == TwoDigits(b)
    ensures a == b
  {
    if a < 10 && b >= 10 {
      assert TwoDigits(a)[0] == '0';
      NatToStringLeading(b);
    } else if b < 10 && a >= 10 {
      assert TwoDigits(b)[0] == '0';
      NatToStringLeading(a);
    } else if a < 10 && b < 10 {
      assert TwoDigits(a)[1..] == NatToString(a);
      assert TwoDigits(b)[1..] == NatToString(b);
      NatToStringInjective(a, b);
    } else {
      NatToStringInjective(a, b);
    }
  }

  /** A number of two or more digits does not start with '0'. */
  lemma {:induction false} NatToStringLeading(n: nat)
    requires n >= 10
    ensures NatToString(n)[0] != '0'
  {
    if n / 10 >= 10 {
      NatToStringLeading(n / 10);
    }
  }
}
