/**
 * The JavaScript string built-ins the backend relies on, stated over `seq<char>`:
 * `parseInt`, `String.prototype.trim`, `split`, `toLowerCase`, and the decimal
 * text of a non-negative integer (what a template literal prints for `Date.now()`).
 */
module JsText {
  import opened Basics

  /** The WhiteSpace and LineTerminator code points that `trim` and `parseInt` skip. */
  predicate IsWhitespace(c: char) {
    || c == '\t' || c == '\n' || c == '\U{000B}' || c == '\U{000C}' || c == '\r' || c == ' '
    || c == '\U{00A0}' || c == '\U{1680}' || ('\U{2000}' <= c <= '\U{200A}')
    || c == '\U{2028}' || c == '\U{2029}' || c == '\U{202F}' || c == '\U{205F}'
    || c == '\U{3000}' || c == '\U{FEFF}'
  }

  /** Drops the leading whitespace. */
  function TrimStart(s: string): (r: string)
    ensures |r| <= |s| && r == s[|s| - |r|..]
    ensures r == [] || !IsWhitespace(r[0])
    ensures forall i :: 0 <= i < |s| - |r| ==> IsWhitespace(s[i])
  {
    if |s| > 0 && IsWhitespace(s[0]) then TrimStart(s[1..]) else s
  }

  /** Drops the trailing whitespace. */
  function TrimEnd(s: string): (r: string)
    ensures |r| <= |s| && r == s[..|r|]
    ensures r == [] || !IsWhitespace(r[|r| - 1])
    ensures forall i :: |r| <= i < |s| ==> IsWhitespace(s[i])
  {
    if |s| > 0 && IsWhitespace(s[|s| - 1]) then TrimEnd(s[..|s| - 1]) else s
  }

  /** `s.trim()`. */
  function Trim(s: string): string {
    TrimEnd(TrimStart(s))
  }

  /**
   * `trim` keeps one contiguous piece of `s`: a prefix of what is left once the
   * leading whitespace is dropped.
   */
  lemma {:induction false} TrimIsPiece(s: string)
    ensures |Trim(s)| <= |TrimStart(s)| <= |s|
    ensures TrimStart(s) == s[|s| - |TrimStart(s)|..]
    ensures Trim(s) == TrimStart(s)[..|Trim(s)|]
  {
    var t := TrimStart(s);
    assert Trim(s) == TrimEnd(t);
  }

  /** A trimmed string neither starts nor ends with whitespace. */
  lemma {:induction false} TrimEndsClean(s: string)
    ensures Trim(s) == [] || (!IsWhitespace(Trim(s)[0]) && !IsWhitespace(Trim(s)[|Trim(s)| - 1]))
  {
    var t := TrimStart(s);
    var r := TrimEnd(t);
    if r != [] {
      assert r[0] == t[0];
    }
  }

  /** Everything `trim` drops, before the piece and after it, is whitespace. */
  lemma {:induction false} TrimDropsOnlyWhitespace(s: string)
    ensures var k := |s| - |TrimStart(s)|;
      && k + |Trim(s)| <= |s|
      && (forall i :: 0 <= i < k ==> IsWhitespace(s[i]))
      && (forall i :: k + |Trim(s)| <= i < |s| ==> IsWhitespace(s[i]))
  {
    var t := TrimStart(s);
    var r := TrimEnd(t);
    var k := |s| - |t|;
    assert t == s[k..];
    forall i | k + |r| <= i < |s|
      ensures IsWhitespace(s[i])
    {
      assert s[i] == t[i - k];
    }
  }

  /** Trimming is idempotent: a trimmed string has nothing left to trim. */
  lemma TrimIdempotent(s: string)
    ensures Trim(Trim(s)) == Trim(s)
  {
    var t := Trim(s);
    assert t == [] || (!IsWhitespace(t[0]) && !IsWhitespace(t[|t| - 1]));
    assert TrimStart(t) == t;
  }

  /** ASCII case mapping of one character. */
  function LowerChar(c: char): char {
    if 'A' <= c <= 'Z' then (c as int + 32) as char else c
  }

  /** `s.toLowerCase()` for ASCII letters; other characters are kept. */
  function ToLower(s: string): string {
    seq(|s|, i requires 0 <= i < |s| => LowerChar(s[i]))
  }

  /**
   * Lower-casing keeps the length and leaves no upper-case ASCII letter: each
   * one becomes its lower-case letter, and every other character is kept.
   */
  lemma ToLowerHasNoUpper(s: string)
    ensures |ToLower(s)| == |s|
    ensures forall i :: 0 <= i < |s| ==> !('A' <= ToLower(s)[i] <= 'Z')
    ensures forall i :: 0 <= i < |s| && 'A' <= s[i] <= 'Z' ==> ToLower(s)[i] as int == s[i] as int + 32
    ensures forall i :: 0 <= i < |s| && !('A' <= s[i] <= 'Z') ==> ToLower(s)[i] == s[i]
  {
  }

  /** Lower-casing twice is lower-casing once. */
  lemma ToLowerIdempotent(s: string)
    ensures ToLower(ToLower(s)) == ToLower(s)
  {
  }

  /** `hay` contains `needle` as a contiguous substring. */
  predicate Contains(hay: string, needle: string)
    decreases |hay|
  {
    needle <= hay || (|hay| > 0 && Contains(hay[1..], needle))
  }

  /** `Contains` is the existence of an offset at which `needle` occurs. */
  lemma {:induction false} ContainsAt(hay: string, needle: string)
    ensures Contains(hay, needle) <==> exists i :: 0 <= i <= |hay| && needle <= hay[i..]
    decreases |hay|
  {
    assert hay[0..] == hay;
    if |hay| > 0 {
      ContainsAt(hay[1..], needle);
      forall i | 1 <= i <= |hay|
        ensures hay[1..][i - 1..] == hay[i..]
      {
      }
    }
  }

  /** The position of the first `c` in `s`, if any. */
  function IndexOf(s: string, c: char): (r: Option<nat>)
    ensures r.None? ==> c !in s
    ensures r.Some? ==> r.value < |s| && s[r.value] == c && c !in s[..r.value]
  {
    if |s| == 0 then None
    else if s[0] == c then Some(0)
    else match IndexOf(s[1..], c)
      case None => None
      case Some(i) => assert s[1..][..i] == s[1..i + 1]; Some(i + 1)
  }

  /** The position of the last `c` in `s`, if any. */
  function LastIndexOf(s: string, c: char): (r: Option<nat>)
    ensures r.None? ==> c !in s
    ensures r.Some? ==> r.value < |s| && s[r.value] == c && c !in s[r.value + 1..]
  {
    if |s| == 0 then None
    else if s[|s| - 1] == c then Some(|s| - 1)
    else
      var r := LastIndexOf(s[..|s| - 1], c);
      assert r.Some? ==> s[r.value + 1..] == s[..|s| - 1][r.value + 1..] + [s[|s| - 1]];
      r
  }

  /** `s.split(sep)` for a one-character separator: the empty string gives `[""]`. */
  function Split(s: string, sep: char): (pieces: seq<string>)
    ensures |pieces| >= 1
    ensures forall i :: 0 <= i < |pieces| ==> sep !in pieces[i]
    decreases |s|
  {
    match IndexOf(s, sep)
    case None => [s]
    case Some(i) => [s[..i]] + Split(s[i + 1..], sep)
  }

  /** `pieces.join(sep)`. */
  function Join(pieces: seq<string>, sep: char): string
    requires |pieces| >= 1
  {
    if |pieces| == 1 then pieces[0] else pieces[0] + [sep] + Join(pieces[1..], sep)
  }

  /** Joining the pieces of a split gives the original string back. */
  lemma {:induction false} JoinSplit(s: string, sep: char)
    ensures Join(Split(s, sep), sep) == s
    decreases |s|
  {
    match IndexOf(s, sep)
    case None =>
    case Some(i) =>
      var rest := Split(s[i + 1..], sep);
      assert Split(s, sep) == [s[..i]] + rest;
      assert ([s[..i]] + rest)[1..] == rest;
      assert Join(Split(s, sep), sep) == s[..i] + [sep] + Join(rest, sep);
      JoinSplit(s[i + 1..], sep);
      assert s == s[..i] + [sep] + s[i + 1..];
  }

  /** Splitting the join of separator-free pieces gives the pieces back. */
  lemma {:induction false} SplitJoin(pieces: seq<string>, sep: char)
    requires |pieces| >= 1
    requires forall i :: 0 <= i < |pieces| ==> sep !in pieces[i]
    ensures Split(Join(pieces, sep), sep) == pieces
    decreases |pieces|
  {
    if |pieces| > 1 {
      var p, t := pieces[0], Join(pieces[1..], sep);
      SplitJoin(pieces[1..], sep);
      FirstSeparator(p, t, sep);
      assert Join(pieces, sep) == p + [sep] + t;
    }
  }

  /** In `p + [sep] + t` with no `sep` in `p`, the first `sep` is the one after `p`. */
  lemma FirstSeparator(p: string, t: string, sep: char)
    requires sep !in p
    ensures IndexOf(p + [sep] + t, sep) == Some(|p|)
    ensures Split(p + [sep] + t, sep) == [p] + Split(t, sep)
  {
    var s := p + [sep] + t;
    assert s[|p|] == sep;
    var j := IndexOf(s, sep).value;
    assert forall k :: 0 <= k < |p| ==> s[k] == p[k];
    assert forall k :: 0 <= k < j ==> s[..j][k] == s[k];
    assert s[..|p|] == p;
    assert s[|p| + 1..] == t;
  }

  /** Whether `parseInt` was given a radix of 10 or no radix at all. */
  datatype Radix = Decimal | Unspecified

  /** The value of digit `c` in base 10 or 16, if it is one. */
  function DigitValue(c: char, base: nat): (r: Option<nat>)
    requires base == 10 || base == 16
    ensures r.Some? ==> r.value < base
  {
    if '0' <= c <= '9' then Some(c as int - '0' as int)
    else if base == 16 && 'a' <= c <= 'f' then Some(c as int - 'a' as int + 10)
    else if base == 16 && 'A' <= c <= 'F' then Some(c as int - 'A' as int + 10)
    else None
  }

  predicate IsDigitIn(c: char, base: nat)
    requires base == 10 || base == 16
  {
    DigitValue(c, base).Some?
  }

  /** The length of the longest prefix of `s` made of digits. */
  function DigitRunLength(s: string, base: nat): (n: nat)
    requires base == 10 || base == 16
    ensures n <= |s|
    ensures forall i :: 0 <= i < n ==> IsDigitIn(s[i], base)
    ensures n == |s| || !IsDigitIn(s[n], base)
  {
    if |s| > 0 && IsDigitIn(s[0], base) then 1 + DigitRunLength(s[1..], base) else 0
  }

  /** The number a run of digits denotes, most significant digit first. */
  function DigitsValue(ds: string, base: nat): nat
    requires base == 10 || base == 16
    requires forall i :: 0 <= i < |ds| ==> IsDigitIn(ds[i], base)
  {
    if ds == [] then 0
    else
      assert IsDigitIn(ds[|ds| - 1], base);
      DigitsValue(ds[..|ds| - 1], base) * base + DigitValue(ds[|ds| - 1], base).value
  }

  /** The longest run of digits at the start of `v`, read in `base`; `None` when there is none. */
  function ParseDigits(v: string, base: nat): Option<nat>
    requires base == 10 || base == 16
  {
    var n := DigitRunLength(v, base);
    if n == 0 then None else Some(DigitsValue(v[..n], base))
  }

  /** Whether `parseInt` without a radix reads `u` (signs already skipped) in base 16. */
  predicate HasHexPrefix(u: string, radix: Radix) {
    radix == Unspecified && |u| >= 2 && u[0] == '0' && (u[1] == 'x' || u[1] == 'X')
  }

  /**
   * `parseInt(s, 10)` (radix `Decimal`) or `parseInt(s)` (radix `Unspecified`);
   * `None` is `NaN`. Leading whitespace and one sign are skipped, then the longest
   * run of digits is read; without a radix a `0x`/`0X` prefix selects base 16.
   */
  function ParseInt(s: string, radix: Radix): Option<int> {
    ParseTrimmed(TrimStart(s), radix)
  }

  /** `parseInt` once the leading whitespace is gone. */
  function ParseTrimmed(t: string, radix: Radix): Option<int> {
    var negative := |t| > 0 && t[0] == '-';
    var u := if |t| > 0 && (t[0] == '-' || t[0] == '+') then t[1..] else t;
    var digits := if HasHexPrefix(u, radix) then ParseDigits(u[2..], 16) else ParseDigits(u, 10);
    match digits
    case None => None
    case Some(m) => Some(if negative then -(m as int) else m as int)
  }

  /** Whitespace before the number is skipped: `parseInt(" " + s)` reads as `parseInt(s)`. */
  lemma {:induction false} ParseIntSkipsLeadingWhitespace(c: char, s: string, radix: Radix)
    requires IsWhitespace(c)
    ensures ParseInt([c] + s, radix) == ParseInt(s, radix)
  {
    var cs := [c] + s;
    assert cs[0] == c && cs[1..] == s;
  }

  /** `parseInt` applied to a query parameter; an absent one reads as "undefined", which is `NaN`. */
  function ParseParam(p: Option<string>, radix: Radix): (r: Option<int>)
    ensures p.None? ==> r.None?
  {
    match p
    case None => None
    case Some(s) => ParseInt(s, radix)
  }

  /** The character of a decimal digit. */
  function DigitChar(d: nat): (c: char)
    requires d < 10
    ensures DigitValue(c, 10) == Some(d)
  {
    ('0' as int + d) as char
  }

  /** The decimal text of `n` without leading zeros, as JavaScript prints an integer. */
  function DecimalText(n: nat): (r: string)
    ensures |r| >= 1
    ensures forall i :: 0 <= i < |r| ==> '0' <= r[i] <= '9'
    decreases n
  {
    if n < 10 then [DigitChar(n)] else DecimalText(n / 10) + [DigitChar(n % 10)]
  }

  /** The decimal text of an integer, with a leading `-` when it is negative. */
  function SignedDecimalText(k: int): string {
    if k < 0 then "-" + DecimalText(-k) else DecimalText(k)
  }

  /** The decimal text of `n` reads back as `n`. */
  lemma {:induction false} DecimalTextValue(n: nat)
    ensures forall i :: 0 <= i < |DecimalText(n)| ==> IsDigitIn(DecimalText(n)[i], 10)
    ensures DigitsValue(DecimalText(n), 10) == n
    decreases n
  {
    var r := DecimalText(n);
    assert forall i :: 0 <= i < |r| ==> IsDigitIn(r[i], 10);
    if n >= 10 {
      DecimalTextValue(n / 10);
      assert r[..|r| - 1] == DecimalText(n / 10);
    }
  }

  /** The digits of a decimal text followed by a non-digit read back as its value. */
  lemma ParseDigitsOf(d: string, rest: string)
    requires |d| >= 1
    requires forall i :: 0 <= i < |d| ==> '0' <= d[i] <= '9'
    requires rest == [] || !IsDigitIn(rest[0], 10)
    ensures forall i :: 0 <= i < |d| ==> IsDigitIn(d[i], 10)
    ensures ParseDigits(d + rest, 10) == Some(DigitsValue(d, 10))
  {
    var s := d + rest;
    var n := DigitRunLength(s, 10);
    assert forall i :: 0 <= i < |d| ==> s[i] == d[i];
    if rest != [] {
      assert s[|d|] == rest[0];
    }
    assert n == |d|;
    assert s[..n] == d;
  }

  /** A decimal text of more than one digit does not start with `0`. */
  lemma {:induction false} LeadingDigitNonZero(n: nat)
    requires n >= 10
    ensures DecimalText(n)[0] != '0'
    decreases n
  {
    if n / 10 >= 10 {
      LeadingDigitNonZero(n / 10);
    }
  }

  /** A decimal text followed by anything other than `x` or `X` has no hex prefix. */
  lemma {:induction false} NoHexPrefix(n: nat, rest: string, radix: Radix)
    requires radix == Unspecified && n == 0 ==> rest == [] || (rest[0] != 'x' && rest[0] != 'X')
    ensures !HasHexPrefix(DecimalText(n) + rest, radix)
  {
    var s := DecimalText(n) + rest;
    if n >= 10 {
      LeadingDigitNonZero(n);
      assert s[0] == DecimalText(n)[0];
    } else if n >= 1 {
      assert s[0] == DecimalText(n)[0];
    } else if |s| >= 2 {
      assert s[1] == rest[0];
    }
  }

  /** Text that does not start with whitespace is parsed as it stands. */
  lemma ParseIntOfUnpadded(s: string, radix: Radix)
    requires s == [] || !IsWhitespace(s[0])
    ensures ParseInt(s, radix) == ParseTrimmed(s, radix)
  {
    assert TrimStart(s) == s;
  }

  /** After the whitespace, text with no sign or hex prefix is read as its leading decimal digits. */
  lemma ParseTrimmedUnsigned(u: string, radix: Radix)
    requires |u| > 0 && u[0] != '-' && u[0] != '+' && !HasHexPrefix(u, radix)
    ensures ParseTrimmed(u, radix) == match ParseDigits(u, 10) case None => None case Some(m) => Some(m as int)
  {
  }

  /** After the whitespace, a minus sign negates the decimal digits that follow it. */
  lemma ParseTrimmedNegated(u: string, radix: Radix)
    requires |u| > 0 && u[0] == '-' && !HasHexPrefix(u[1..], radix)
    ensures ParseTrimmed(u, radix) == match ParseDigits(u[1..], 10) case None => None case Some(m) => Some(-(m as int))
  {
  }

  /** Text with no leading whitespace, sign or hex prefix is read as its leading digits. */
  lemma ParseUnsignedText(s: string, radix: Radix)
    requires |s| > 0 && !IsWhitespace(s[0]) && s[0] != '-' && s[0] != '+'
    requires !HasHexPrefix(s, radix)
    ensures ParseInt(s, radix) == match ParseDigits(s, 10) case None => None case Some(m) => Some(m as int)
  {
    ParseIntOfUnpadded(s, radix);
    ParseTrimmedUnsigned(s, radix);
  }

  /**
   * `parseInt` reads the decimal text of `n` back as `n`, whatever non-digit text
   * follows it, with or without a radix of 10; only `0` followed by `x` or `X`
   * without a radix is read otherwise, as a hexadecimal prefix.
   */
  lemma {:induction false} ParseDecimalPrefix(n: nat, rest: string, radix: Radix)
    requires rest == [] || !IsDigitIn(rest[0], 10)
    requires radix == Unspecified && n == 0 ==> rest == [] || (rest[0] != 'x' && rest[0] != 'X')
    ensures ParseInt(DecimalText(n) + rest, radix) == Some(n)
  {
    DecimalTextValue(n);
    NoHexPrefix(n, rest, radix);
    ParseDigitText(DecimalText(n), rest, radix);
  }

  /** A run of decimal digits followed by a non-digit, with no hex prefix, is read as its value. */
  lemma {:induction false} ParseDigitText(d: string, rest: string, radix: Radix)
    requires |d| >= 1
    requires forall i :: 0 <= i < |d| ==> '0' <= d[i] <= '9'
    requires rest == [] || !IsDigitIn(rest[0], 10)
    requires !HasHexPrefix(d + rest, radix)
    ensures forall i :: 0 <= i < |d| ==> IsDigitIn(d[i], 10)
    ensures ParseInt(d + rest, radix) == Some(DigitsValue(d, 10) as int)
  {
    var s := d + rest;
    ParseDigitsOf(d, rest);
    assert s[0] == d[0];
    ParseIntOfUnpadded(s, radix);
    ParseTrimmedUnsigned(s, radix);
  }

  /** `parseInt` reads the signed decimal text of any integer back as that integer. */
  lemma {:induction false} ParseSignedDecimal(k: int, radix: Radix)
    ensures ParseInt(SignedDecimalText(k), radix) == Some(k)
  {
    if k >= 0 {
      assert ParseInt(SignedDecimalText(k), radix) == Some(k) by {
        assert SignedDecimalText(k) == DecimalText(k) + [];
        ParseDecimalPrefix(k, [], radix);
      }
    } else {
      ParseNegatedDecimal(k, radix);
    }
  }

  /** The text of a negative integer, a minus sign and its digits, reads back as that integer. */
  lemma {:induction false} ParseNegatedDecimal(k: int, radix: Radix)
    requires k < 0
    ensures ParseInt(SignedDecimalText(k), radix) == Some(k)
  {
    var m: nat := -k;
    var d := DecimalText(m);
    var s := "-" + d;
    assert SignedDecimalText(k) == s;
    assert s[0] == '-' && s[1..] == d;
    assert ParseDigits(d, 10) == Some(m) by {
      DecimalTextValue(m);
      ParseDigitsOf(d, []);
      assert d + [] == d;
    }
    assert !HasHexPrefix(d, radix) by {
      NoHexPrefix(m, [], radix);
      assert d + [] == d;
    }
    ParseIntOfUnpadded(s, radix);
    ParseTrimmedNegated(s, radix);
  }
}
