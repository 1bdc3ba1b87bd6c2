/**
 * The string primitives the backend (Python) and the frontend (TypeScript)
 * rely on, with the semantics of those languages written out: `str.find`,
 * slicing with negative and overlong bounds, `strip`, `split`, `join`,
 * `isdigit`, `int(...)`, `str(int)`, and JavaScript's `parseInt`.
 * Only ASCII digits are digits here (Python also accepts other Unicode
 * decimal digits).
 */
module Text {
  import opened Wrappers

  // ---------------------------------------------------------------------------
  // Characters

  predicate IsDigit(c: char) { '0' <= c <= '9' }

  function DigitValue(c: char): (d: nat)
    requires IsDigit(c)
    ensures d < 10
  {
    (c as int) - ('0' as int)
  }

  function DigitChar(d: nat): (c: char)
    requires d < 10
    ensures IsDigit(c) && DigitValue(c) == d
  {
    ('0' as int + d) as char
  }

  /** Python's `str.isspace()` on one character (the Unicode White_Space set Python uses). */
  predicate IsPySpace(c: char)
  {
    var n := c as int;
    n == 32 || 9 <= n <= 13 || 28 <= n <= 31 || n == 0x85 || n == 0xA0 || n == 0x1680
    || 0x2000 <= n <= 0x200A || n == 0x2028 || n == 0x2029 || n == 0x202F || n == 0x205F
    || n == 0x3000
  }

  /** The characters JavaScript's `parseInt` skips at the front (StrWhiteSpaceChar). */
  predicate IsJsSpace(c: char)
  {
    var n := c as int;
    9 <= n <= 13 || n == 32 || n == 0xA0 || n == 0x1680 || 0x2000 <= n <= 0x200A
    || n == 0x2028 || n == 0x2029 || n == 0x202F || n == 0x205F || n == 0x3000 || n == 0xFEFF
  }

  // ---------------------------------------------------------------------------
  // Searching and slicing

  predicate OccursAt(s: string, sub: string, i: int)
  {
    0 <= i && i + |sub| <= |s| && s[i..i + |sub|] == sub
  }

  /** Python's `s.find(sub, start)`: the lowest index at or after `start` where `sub` occurs, or -1. */
  function Find(s: string, sub: string, start: nat): (r: int)
    ensures r == -1 || (start <= r && OccursAt(s, sub, r))
    ensures r == -1 ==> forall i | start <= i :: !OccursAt(s, sub, i)
    ensures r != -1 ==> forall i | start <= i < r :: !OccursAt(s, sub, i)
    decreases |s| - start
  {
    if start + |sub| > |s| then -1
    else if s[start..start + |sub|] == sub then start
    else Find(s, sub, start + 1)
  }

  lemma OccursChar(s: string, c: char, k: int)
    ensures OccursAt(s, [c], k) <==> 0 <= k < |s| && s[k] == c
  {
    if 0 <= k < |s| { assert s[k..k + 1] == [s[k]]; }
  }

  /** An occurrence at `e` with none between `start` and `e` is what `find` returns. */
  lemma FindAt(s: string, sub: string, start: nat, e: int)
    requires start <= e && OccursAt(s, sub, e)
    requires forall k | start <= k < e :: !OccursAt(s, sub, k)
    ensures Find(s, sub, start) == e
  {
  }

  lemma FindNone(s: string, sub: string, start: nat)
    requires forall k | start <= k :: !OccursAt(s, sub, k)
    ensures Find(s, sub, start) == -1
  {
  }

  /** Python's `s.rfind(c)` for one character: the index of the last `c`, or -1. */
  function LastIndexOf(s: string, c: char): (r: int)
    ensures -1 <= r < |s|
    ensures r == -1 <==> c !in s
    ensures r >= 0 ==> s[r] == c && c !in s[r + 1..]
  {
    if s == [] then -1
    else if s[|s| - 1] == c then |s| - 1
    else
      var r := LastIndexOf(s[..|s| - 1], c);
      assert s[r + 1..] == s[..|s| - 1][r + 1..] + [s[|s| - 1]];
      r
  }

  /** How Python normalises one slice bound `i` for a sequence of length `n`. */
  function SliceBound(i: int, n: nat): (r: nat)
    ensures r <= n
    ensures 0 <= i <= n ==> r == i
    ensures i > n ==> r == n
    ensures i < 0 && -i <= n ==> r == n + i
    ensures i < 0 && -i > n ==> r == 0
  {
    if i < 0 then (if i + n < 0 then 0 else i + n)
    else if i > n then n
    else i
  }

  /** Python's `s[i:j]` for any integers `i`, `j` (negative counts from the end; out of range clamps). */
  function PySlice(s: string, i: int, j: int): (r: string)
    ensures var a, b := SliceBound(i, |s|), SliceBound(j, |s|);
      if a < b then r == s[a..b] else r == []
  {
    var a, b := SliceBound(i, |s|), SliceBound(j, |s|);
    if a < b then s[a..b] else []
  }

  /** Bounds already inside the sequence are taken as they are. */
  lemma PySliceInside(s: string, i: int, j: int)
    requires 0 <= i <= j <= |s|
    ensures PySlice(s, i, j) == s[i..j]
  {
  }

  /** An end bound of -1 stops one short of the end. */
  lemma PySliceToLast(s: string, i: int)
    requires 0 <= i < |s|
    ensures PySlice(s, i, -1) == s[i..|s| - 1]
  {
  }

  /** `s.replace(a, b)` for one-character `a` and `b`. */
  function ReplaceChar(s: string, a: char, b: char): (r: string)
    ensures |r| == |s|
    ensures forall i | 0 <= i < |s| :: r[i] == (if s[i] == a then b else s[i])
  {
    if s == [] then [] else [if s[0] == a then b else s[0]] + ReplaceChar(s[1..], a, b)
  }

  // ---------------------------------------------------------------------------
  // strip

  /** The number of whitespace characters `s` starts with. */
  function LeadingSpaces(s: string): (k: nat)
    ensures k <= |s|
    ensures forall i | 0 <= i < k :: IsPySpace(s[i])
    ensures k < |s| ==> !IsPySpace(s[k])
  {
    if s != [] && IsPySpace(s[0]) then 1 + LeadingSpaces(s[1..]) else 0
  }

  /** The length of `s` without the whitespace it ends with. */
  function ContentEnd(s: string): (e: nat)
    ensures e <= |s|
    ensures forall i | e <= i < |s| :: IsPySpace(s[i])
    ensures e > 0 ==> !IsPySpace(s[e - 1])
  {
    if s != [] && IsPySpace(s[|s| - 1]) then ContentEnd(s[..|s| - 1]) else |s|
  }

  /**
   * Python's `s.strip()`: the longest infix of `s` that neither starts nor
   * ends with whitespace, removing only whitespace.
   */
  function Strip(s: string): (r: string)
    ensures |r| <= |s|
    ensures var k := LeadingSpaces(s);
      && k + |r| <= |s| && r == s[k..k + |r|]
      && (forall i | 0 <= i < k :: IsPySpace(s[i]))
      && (forall i | k + |r| <= i < |s| :: IsPySpace(s[i]))
    ensures r != [] ==> !IsPySpace(r[0]) && !IsPySpace(r[|r| - 1])
  {
    var k, e := LeadingSpaces(s), ContentEnd(s);
    if k < e then s[k..e] else []
  }

  lemma StripUnchanged(s: string)
    requires s != [] ==> !IsPySpace(s[0]) && !IsPySpace(s[|s| - 1])
    ensures Strip(s) == s
  {
  }

  lemma StripIdempotent(s: string)
    ensures Strip(Strip(s)) == Strip(s)
  {
    StripUnchanged(Strip(s));
  }

  // ---------------------------------------------------------------------------
  // split and join

  function Count(s: string, c: char): (n: nat)
    ensures n == 0 <==> c !in s
    ensures n <= |s|
  {
    if s == [] then 0 else (if s[0] == c then 1 else 0) + Count(s[1..], c)
  }

  /** Python's `s.split(c)` for a one-character separator. */
  function Split(s: string, c: char): (parts: seq<string>)
    ensures |parts| == Count(s, c) + 1
    ensures forall p <- parts :: c !in p
  {
    if s == [] then [[]]
    else
      var rest := Split(s[1..], c);
      if s[0] == c then [[]] + rest else [[s[0]] + rest[0]] + rest[1..]
  }

  /** Python's `sep.join(parts)`. */
  function Join(parts: seq<string>, sep: string): string
  {
    if |parts| == 0 then []
    else if |parts| == 1 then parts[0]
    else parts[0] + sep + Join(parts[1..], sep)
  }

  lemma SplitWithout(s: string, c: char)
    requires c !in s
    ensures Split(s, c) == [s]
  {
    if s != [] {
      SplitWithout(s[1..], c);
      assert [s[0]] + s[1..] == s;
    }
  }

  /** Splitting at one separator splits independently on either side of it. */
  lemma {:induction false} SplitAppend(a: string, b: string, c: char)
    ensures Split(a + [c] + b, c) == Split(a, c) + Split(b, c)
  {
    var s := a + [c] + b;
    if a == [] {
      assert s == [c] + b;
      assert s[1..] == b;
    } else {
      assert s[0] == a[0] && s[1..] == a[1..] + [c] + b;
      SplitAppend(a[1..], b, c);
      var x, y := Split(a[1..], c), Split(b, c);
      assert Split(s[1..], c) == x + y;
      if a[0] == c {
        assert Split(s, c) == [[]] + (x + y);
        assert Split(a, c) == [[]] + x;
        AppendAssoc([[]], x, y);
      } else {
        ConsAppend(x, y);
        var h := [a[0]] + x[0];
        assert Split(s, c) == [h] + (x[1..] + y);
        assert Split(a, c) == [h] + x[1..];
        AppendAssoc([h], x[1..], y);
      }
    }
  }

  lemma AppendAssoc<T>(p: seq<T>, q: seq<T>, r: seq<T>)
    ensures p + (q + r) == (p + q) + r
  {
  }

  lemma ConsAppend<T>(x: seq<T>, y: seq<T>)
    requires x != []
    ensures (x + y)[0] == x[0] && (x + y)[1..] == x[1..] + y
  {
  }

  /**
   * Joining the parts of a split with `d` gives the text with every `c`
   * replaced by `d`; with `d == c` this is the round trip `c.join(s.split(c)) == s`.
   */
  lemma {:induction false} JoinSplitReplace(s: string, c: char, d: char)
    ensures Join(Split(s, c), [d]) == ReplaceChar(s, c, d)
  {
    if s != [] {
      var rest, tail := Split(s[1..], c), ReplaceChar(s[1..], c, d);
      JoinSplitReplace(s[1..], c, d);
      assert ReplaceChar(s, c, d) == [if s[0] == c then d else s[0]] + tail;
      if s[0] == c {
        var parts := [[]] + rest;
        assert parts[0] == [] && parts[1..] == rest;
        assert Join(parts, [d]) == [] + [d] + tail;
        assert [] + [d] == [d];
      } else {
        var h := [s[0]] + rest[0];
        var parts := [h] + rest[1..];
        assert parts[0] == h && parts[1..] == rest[1..];
        if |rest| > 1 {
          var j := Join(rest[1..], [d]);
          assert Join(parts, [d]) == h + [d] + j;
          assert tail == rest[0] + [d] + j;
          AppendAssoc([s[0]], rest[0] + [d], j);
          AppendAssoc([s[0]], rest[0], [d]);
        }
      }
    }
  }

  lemma JoinSplit(s: string, c: char)
    ensures Join(Split(s, c), [c]) == s
  {
    JoinSplitReplace(s, c, c);
    assert ReplaceChar(s, c, c) == s;
  }

  // ---------------------------------------------------------------------------
  // Digits, str(int) and int(str)

  /** Python's `s.isdigit()` (ASCII digits): non-empty and all digits. */
  predicate IsDigits(s: string)
  {
    |s| > 0 && forall i | 0 <= i < |s| :: IsDigit(s[i])
  }

  predicate AllDigits(s: string)
  {
    forall i | 0 <= i < |s| :: IsDigit(s[i])
  }

  function DigitsValue(s: string): (v: nat)
    requires AllDigits(s)
  {
    if s == [] then 0 else 10 * DigitsValue(s[..|s| - 1]) + DigitValue(s[|s| - 1])
  }

  function Pow10(k: nat): (p: nat)
    ensures p >= 1
  {
    if k == 0 then 1 else 10 * Pow10(k - 1)
  }

  lemma {:induction false} DigitsValueBound(s: string)
    requires AllDigits(s)
    ensures DigitsValue(s) < Pow10(|s|)
  {
    if s != [] {
      DigitsValueBound(s[..|s| - 1]);
    }
  }

  /** Python's `str(n)` for a natural number: its decimal digits, no leading zero. */
  function NatToString(n: nat): (s: string)
    ensures IsDigits(s)
    ensures |s| > 1 ==> s[0] != '0'
  {
    if n < 10 then [DigitChar(n)] else NatToString(n / 10) + [DigitChar(n % 10)]
  }

  /** Python's (and JavaScript's) decimal rendering of an integer. */
  function IntToString(i: int): (s: string)
    ensures |s| > 0
    ensures '&' !in s && '<' !in s && ' ' !in s
  {
    if i < 0 then "-" + NatToString(-i) else NatToString(i)
  }

  lemma {:induction false} NatToStringRoundTrip(n: nat)
    ensures DigitsValue(NatToString(n)) == n
  {
    if n >= 10 {
      var s := NatToString(n);
      assert s[..|s| - 1] == NatToString(n / 10);
      NatToStringRoundTrip(n / 10);
    }
  }

  lemma NatToStringInjective(m: nat, n: nat)
    ensures NatToString(m) == NatToString(n) ==> m == n
  {
    NatToStringRoundTrip(m);
    NatToStringRoundTrip(n);
  }

  /** Reads back an optionally negative decimal integer; the inverse of IntToString. */
  function DecimalInt(s: string): Option<int>
  {
    if |s| > 0 && s[0] == '-' && IsDigits(s[1..]) then Some(0 - DigitsValue(s[1..]))
    else if IsDigits(s) then Some(DigitsValue(s))
    else None
  }

  lemma IntToStringRoundTrip(i: int)
    ensures DecimalInt(IntToString(i)) == Some(i)
  {
    var s := IntToString(i);
    if i < 0 {
      var d := NatToString(-i);
      assert s == "-" + d;
      assert s[0] == '-' && s[1..] == d;
      NatToStringRoundTrip(-i);
      assert DecimalInt(s) == Some(0 - DigitsValue(d));
    } else {
      var d := NatToString(i);
      assert s == d && IsDigit(d[0]);
      NatToStringRoundTrip(i);
      assert DecimalInt(s) == Some(DigitsValue(d));
    }
  }

  lemma IntToStringInjective(i: int, j: int)
    ensures IntToString(i) == IntToString(j) ==> i == j
  {
    IntToStringRoundTrip(i);
    IntToStringRoundTrip(j);
  }

  /** The digit groups Python's `int()` accepts: digits with single underscores between them. */
  predicate UnderscoredDigits(b: string)
  {
    && |b| > 0 && IsDigit(b[0]) && IsDigit(b[|b| - 1])
    && forall i | 0 <= i < |b| :: IsDigit(b[i]) || (b[i] == '_' && i + 1 < |b| && IsDigit(b[i + 1]))
  }

  function RemoveUnderscores(b: string): (r: string)
    requires forall i | 0 <= i < |b| :: IsDigit(b[i]) || b[i] == '_'
    ensures AllDigits(r)
    ensures AllDigits(b) ==> r == b
  {
    if b == [] then [] else (if b[0] == '_' then [] else [b[0]]) + RemoveUnderscores(b[1..])
  }

  /**
   * Python's `int(s)` on a str in base 10: surrounding whitespace, an optional
   * sign, then digit groups; anything else raises ValueError (here: None).
   */
  function PyInt(s: string): (r: Option<int>)
    ensures r.Some? ==> Strip(s) != []
  {
    var t := Strip(s);
    if |t| > 0 && (t[0] == '+' || t[0] == '-') then
      if UnderscoredDigits(t[1..]) then
        var v := DigitsValue(RemoveUnderscores(t[1..]));
        Some(if t[0] == '-' then 0 - v else v as int)
      else None
    else if UnderscoredDigits(t) then Some(DigitsValue(RemoveUnderscores(t)))
    else None
  }

  lemma PyIntOfDecimal(n: nat)
    ensures PyInt(NatToString(n)) == Some(n)
  {
    var s := NatToString(n);
    StripUnchanged(s);
    NatToStringRoundTrip(n);
    assert s[0] != '+' && s[0] != '-';
    assert UnderscoredDigits(s);
    assert RemoveUnderscores(s) == s;
  }

  // ---------------------------------------------------------------------------
  // JavaScript's parseInt(s) with no radix

  predicate IsHexDigit(c: char) { IsDigit(c) || 'a' <= c <= 'f' || 'A' <= c <= 'F' }

  function HexDigitValue(c: char): (d: nat)
    requires IsHexDigit(c)
    ensures d < 16
  {
    if IsDigit(c) then DigitValue(c)
    else if 'a' <= c <= 'f' then (c as int) - ('a' as int) + 10
    else (c as int) - ('A' as int) + 10
  }

  /** The number of JavaScript whitespace characters `s` starts with. */
  function JsLeadingSpaces(s: string): (k: nat)
    ensures k <= |s|
    ensures forall i | 0 <= i < k :: IsJsSpace(s[i])
    ensures k < |s| ==> !IsJsSpace(s[k])
  {
    if s != [] && IsJsSpace(s[0]) then 1 + JsLeadingSpaces(s[1..]) else 0
  }

  /** The longest prefix of `s` made of digits of the given radix (10 or 16). */
  function DigitPrefix(s: string, hex: bool): (r: string)
    ensures r <= s
    ensures forall i | 0 <= i < |r| :: if hex then IsHexDigit(r[i]) else IsDigit(r[i])
    ensures |r| < |s| ==> !(if hex then IsHexDigit(s[|r|]) else IsDigit(s[|r|]))
  {
    if s != [] && (if hex then IsHexDigit(s[0]) else IsDigit(s[0])) then [s[0]] + DigitPrefix(s[1..], hex)
    else []
  }

  function RadixValue(s: string, hex: bool): nat
    requires forall i | 0 <= i < |s| :: if hex then IsHexDigit(s[i]) else IsDigit(s[i])
  {
    if s == [] then 0
    else (if hex then 16 else 10) * RadixValue(s[..|s| - 1], hex)
         + (if hex then HexDigitValue(s[|s| - 1]) else DigitValue(s[|s| - 1]))
  }

  /**
   * `parseInt(s)`: skip leading whitespace, an optional sign, a `0x`/`0X`
   * prefix selects radix 16; the longest digit prefix is read and the rest
   * ignored. No digit at all gives NaN (here: None).
   */
  function JsParseInt(s: string): (r: Option<int>)
  {
    var t := s[JsLeadingSpaces(s)..];
    var negative := |t| > 0 && t[0] == '-';
    var u := if |t| > 0 && (t[0] == '-' || t[0] == '+') then t[1..] else t;
    var hex := |u| >= 2 && u[0] == '0' && (u[1] == 'x' || u[1] == 'X');
    var body := if hex then u[2..] else u;
    var digits := DigitPrefix(body, hex);
    if digits == [] then None
    else
      var v := RadixValue(digits, hex);
      Some(if negative then 0 - v else v as int)
  }

  lemma DecimalRadixValue(s: string)
    requires AllDigits(s)
    ensures RadixValue(s, false) == DigitsValue(s)
  {
  }

  /** `parseInt` reads back the decimal rendering of any integer. */
  lemma {:induction false} JsParseIntOfDecimal(i: int)
    ensures JsParseInt(IntToString(i)) == Some(i)
  {
    var n: nat := if i < 0 then -i else i;
    var d := NatToString(n);
    assert IsDigits(d);
    if i < 0 {
      var s := "-" + d;
      assert s == IntToString(i);
      assert s[1..] == d;
      UnsignedDigits(s, d, true);
    } else {
      assert d == IntToString(i);
      UnsignedDigits(d, d, false);
    }
    AllDigitsPrefix(d);
    DecimalRadixValue(d);
    NatToStringRoundTrip(n);
  }

  /** The steps of `parseInt` on an optional minus sign followed by decimal digits. */
  lemma UnsignedDigits(s: string, d: string, negative: bool)
    requires IsDigits(d)
    requires s == (if negative then "-" else "") + d
    ensures JsParseInt(s) == Some(if negative then 0 - RadixValue(DigitPrefix(d, false), false)
                                  else RadixValue(DigitPrefix(d, false), false) as int)
  {
    SignedDigitsUnsigned(s, d, negative);
    DecimalNotHex(d);
  }

  /** After the (absent) whitespace, the sign is taken off and the digits remain. */
  lemma SignedDigitsUnsigned(s: string, d: string, negative: bool)
    requires IsDigits(d)
    requires s == (if negative then "-" else "") + d
    ensures var t := s[JsLeadingSpaces(s)..];
      && (|t| > 0 && t[0] == '-' <==> negative)
      && (if |t| > 0 && (t[0] == '-' || t[0] == '+') then t[1..] else t) == d
  {
    assert !IsJsSpace(s[0]) by { assert s[0] == '-' || IsDigit(s[0]); }
    assert s[JsLeadingSpaces(s)..] == s;
    if !negative {
      assert IsDigit(s[0]);
    }
  }

  /** A run of decimal digits has no `0x` prefix and a non-empty digit prefix. */
  lemma DecimalNotHex(d: string)
    requires IsDigits(d)
    ensures !(|d| >= 2 && d[0] == '0' && (d[1] == 'x' || d[1] == 'X'))
    ensures DigitPrefix(d, false) != []
  {
    assert IsDigit(d[0]);
    if |d| >= 2 { assert IsDigit(d[1]); }
  }

  lemma {:induction false} AllDigitsPrefix(s: string)
    requires AllDigits(s)
    ensures DigitPrefix(s, false) == s
  {
    if s != [] {
      AllDigitsPrefix(s[1..]);
    }
  }

  // ---------------------------------------------------------------------------
  // String order

  /**
   * JavaScript's default comparison of two strings: code unit by code unit,
   * a proper prefix first. On the ASCII text compared here, code units and
   * characters coincide.
   */
  predicate LexLe(a: string, b: string)
  {
    a == [] || (b != [] && (a[0] < b[0] || (a[0] == b[0] && LexLe(a[1..], b[1..]))))
  }

  lemma {:induction false} LexTotal(a: string, b: string)
    ensures LexLe(a, b) || LexLe(b, a)
  {
    if a != [] && b != [] && a[0] == b[0] {
      LexTotal(a[1..], b[1..]);
    }
  }

  lemma {:induction false} LexTrans(a: string, b: string, c: string)
    requires LexLe(a, b) && LexLe(b, c)
    ensures LexLe(a, c)
  {
    if a != [] && a[0] == b[0] && b[0] == c[0] {
      LexTrans(a[1..], b[1..], c[1..]);
    }
  }

  lemma {:induction false} LexAntisymmetric(a: string, b: string)
    requires LexLe(a, b) && LexLe(b, a)
    ensures a == b
  {
    if a != [] {
      LexAntisymmetric(a[1..], b[1..]);
      assert a == [a[0]] + a[1..] && b == [b[0]] + b[1..];
    }
  }

  /** The leading digit carries the weight of the place it stands in. */
  lemma {:induction false} DigitsValueFront(s: string)
    requires AllDigits(s) && |s| > 0
    ensures DigitsValue(s) == DigitValue(s[0]) * Pow10(|s| - 1) + DigitsValue(s[1..])
  {
    if |s| > 1 {
      var init, t := s[..|s| - 1], s[1..];
      DigitsValueFront(init);
      assert init[0] == s[0];
      assert t[..|t| - 1] == init[1..] && t[|t| - 1] == s[|s| - 1];
      var d, p, x, l := DigitValue(s[0]), Pow10(|s| - 2), DigitsValue(init[1..]), DigitValue(s[|s| - 1]);
      assert DigitsValue(init) == d * p + x;
      assert DigitsValue(s) == 10 * DigitsValue(init) + l;
      assert DigitsValue(t) == 10 * x + l;
      assert Pow10(|s| - 1) == 10 * p;
      PlaceShift(d, p, x, l);
    }
  }

  lemma PlaceShift(d: nat, p: nat, x: nat, l: nat)
    ensures 10 * (d * p + x) + l == d * (10 * p) + (10 * x + l)
  {
    assert 10 * (d * p) == d * (10 * p);
  }

  /** A smaller leading digit outweighs any lower places. */
  lemma LeadingDigitDecides(x: nat, y: nat, p: nat, u: nat, v: nat)
    requires x < y && u < p && v < p
    ensures x * p + u < y * p + v
  {
    assert (x + 1) * p <= y * p;
  }

  /** Two place-value numbers compare by their leading digit unless it is the same. */
  lemma CompareLeading(x: nat, y: nat, p: nat, u: nat, v: nat, m: int, n: int)
    requires m == x * p + u && n == y * p + v && u < p && v < p
    ensures x < y ==> m < n
    ensures y < x ==> n < m
    ensures x == y ==> (m <= n <==> u <= v)
  {
    if x < y { LeadingDigitDecides(x, y, p, u, v); }
    if y < x { LeadingDigitDecides(y, x, p, v, u); }
  }

  /** On digit strings of one length, string order is numeric order. */
  lemma {:induction false} LexDigits(a: string, b: string)
    requires AllDigits(a) && AllDigits(b) && |a| == |b|
    ensures LexLe(a, b) <==> DigitsValue(a) <= DigitsValue(b)
  {
    if a != [] {
      DigitsValueFront(a);
      DigitsValueFront(b);
      DigitsValueBound(a[1..]);
      DigitsValueBound(b[1..]);
      CompareLeading(DigitValue(a[0]), DigitValue(b[0]), Pow10(|a| - 1),
                     DigitsValue(a[1..]), DigitsValue(b[1..]), DigitsValue(a), DigitsValue(b));
      LexDigits(a[1..], b[1..]);
    }
  }

  /** Two natural numbers written with the same number of digits compare as their strings do. */
  lemma SameWidthOrder(m: nat, n: nat)
    requires |NatToString(m)| == |NatToString(n)|
    ensures LexLe(NatToString(m), NatToString(n)) <==> m <= n
  {
    LexDigits(NatToString(m), NatToString(n));
    NatToStringRoundTrip(m);
    NatToStringRoundTrip(n);
  }
}
