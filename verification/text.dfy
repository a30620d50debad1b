/** The PHP string primitives the parser is built from (strpos, explode,
    implode, str_replace, trim, strtoupper, strtolower, ucwords, strrev,
    substr, array_slice, integer to string and back). PHP strings are byte
    strings; here one `char` stands for one byte. */
module Text {
  import opened Wrappers

  /** PCRE's `\s`: space, tab, line feed, vertical tab, form feed, carriage return. */
  predicate IsSpace(c: char) {
    c == ' ' || c == '\t' || c == '\n' || c == '\U{000B}' || c == '\U{000C}' || c == '\r'
  }

  /** PCRE's `\w` in the C locale: ASCII letters, digits and the underscore. */
  predicate IsWordChar(c: char) {
    ('a' <= c <= 'z') || ('A' <= c <= 'Z') || ('0' <= c <= '9') || c == '_'
  }

  predicate IsDigit(c: char) {
    '0' <= c <= '9'
  }

  /** `p` occurs in `s` starting at index `i`. */
  predicate OccursAt(s: string, p: string, i: nat) {
    i + |p| <= |s| && s[i..i + |p|] == p
  }

  /** No occurrence of `p` starts in `s` before index `n`. */
  predicate AbsentBefore(s: string, p: string, n: nat) {
    forall j :: 0 <= j < n ==> !OccursAt(s, p, j)
  }

  // ---------------------------------------------------------------------
  // strpos

  /** The first occurrence of `p` in `s` at or after `from` (PHP `strpos`). */
  function IndexOfFrom(s: string, p: string, from: nat): (r: Option<nat>)
    requires from <= |s|
    ensures r.Some? ==> from <= r.value && OccursAt(s, p, r.value)
    ensures r.Some? ==> forall j :: from <= j < r.value ==> !OccursAt(s, p, j)
    ensures r.None? ==> forall j :: from <= j ==> !OccursAt(s, p, j)
    decreases |s| - from
  {
    if OccursAt(s, p, from) then Some(from)
    else if from == |s| then None
    else IndexOfFrom(s, p, from + 1)
  }

  function IndexOf(s: string, p: string): Option<nat> {
    IndexOfFrom(s, p, 0)
  }

  // ---------------------------------------------------------------------
  // explode / implode

  /** PHP `explode(sep, s)`: the pieces of `s` between the occurrences of `sep`,
      found left to right without overlap. */
  function Split(s: string, sep: string): (parts: seq<string>)
    requires |sep| > 0
    ensures |parts| >= 1
    decreases |s|
  {
    var found := IndexOf(s, sep);
    if found.None? then [s]
    else [s[..found.value]] + Split(s[found.value + |sep|..], sep)
  }

  /** PHP `implode(sep, parts)`. */
  function Join(parts: seq<string>, sep: string): string {
    if |parts| == 0 then ""
    else if |parts| == 1 then parts[0]
    else parts[0] + sep + Join(parts[1..], sep)
  }

  /** implode undoes explode. */
  lemma {:induction false} JoinSplit(s: string, sep: string)
    requires |sep| > 0
    ensures Join(Split(s, sep), sep) == s
    decreases |s|
  {
    match IndexOf(s, sep)
    case None =>
    case Some(i) =>
      var rest := s[i + |sep|..];
      var parts := Split(rest, sep);
      JoinSplit(rest, sep);
      assert Split(s, sep) == [s[..i]] + parts;
      assert ([s[..i]] + parts)[1..] == parts;
      assert Join([s[..i]] + parts, sep) == s[..i] + sep + Join(parts, sep);
      assert s[i..i + |sep|] == sep;
      assert s == s[..i] + s[i..i + |sep|] + rest;
  }

  /** No piece produced by explode contains the separator. */
  lemma {:induction false} SplitPiecesFree(s: string, sep: string)
    requires |sep| > 0
    ensures forall k, j :: 0 <= k < |Split(s, sep)| && 0 <= j ==> !OccursAt(Split(s, sep)[k], sep, j)
    decreases |s|
  {
    match IndexOf(s, sep)
    case None =>
      assert Split(s, sep) == [s];
    case Some(i) =>
      var rest := s[i + |sep|..];
      SplitPiecesFree(rest, sep);
      var parts := Split(s, sep);
      assert parts == [s[..i]] + Split(rest, sep);
      forall k, j | 0 <= k < |parts| && 0 <= j
        ensures !OccursAt(parts[k], sep, j)
      {
        if k == 0 {
          if OccursAt(s[..i], sep, j) {
            assert s[j..j + |sep|] == s[..i][j..j + |sep|];
            assert OccursAt(s, sep, j);
          }
        } else {
          assert parts[k] == Split(rest, sep)[k - 1];
        }
      }
  }

  // ---------------------------------------------------------------------
  // str_replace

  /** PHP `str_replace(p, r, s)` for one search string: occurrences of `p` are
      found left to right without overlap and replaced by `r`; an empty
      search string leaves the subject unchanged. */
  function ReplaceAll(s: string, p: string, r: string): string
    decreases |s|
  {
    if |p| == 0 || |s| < |p| then s
    else if s[..|p|] == p then r + ReplaceAll(s[|p|..], p, r)
    else [s[0]] + ReplaceAll(s[1..], p, r)
  }

  /** Dropping the first character keeps the absence, one index earlier. */
  lemma AbsentShift(s: string, p: string, n: nat)
    requires 0 < n <= |s|
    requires AbsentBefore(s, p, n)
    ensures AbsentBefore(s[1..], p, n - 1)
  {
    var t := s[1..];
    forall j | 0 <= j < n - 1
      ensures !OccursAt(t, p, j)
    {
      assert !OccursAt(s, p, j + 1);
      if j + |p| <= |t| {
        assert t[j..j + |p|] == s[j + 1..j + 1 + |p|];
      }
    }
  }

  /** Where no occurrence starts, str_replace passes one character over. */
  lemma ReplaceOne(s: string, p: string, r: string)
    requires |p| > 0 && |p| <= |s|
    requires !OccursAt(s, p, 0)
    ensures ReplaceAll(s, p, r) == [s[0]] + ReplaceAll(s[1..], p, r)
  {
    assert s[..|p|] != p by {
      assert s[0..0 + |p|] == s[..|p|];
    }
  }

  /** Text before the first occurrence passes through str_replace untouched. */
  lemma {:induction false} ReplaceSkip(s: string, p: string, r: string, n: nat)
    requires n <= |s|
    requires AbsentBefore(s, p, n)
    ensures ReplaceAll(s, p, r) == s[..n] + ReplaceAll(s[n..], p, r)
    decreases n
  {
    if n == 0 {
      assert s[..0] + s[0..] == s;
    } else {
      assert !OccursAt(s, p, 0);
      assert |p| > 0;
      if |s| < |p| {
        assert |s[n..]| < |p|;
        assert s[..n] + s[n..] == s;
      } else {
        var t := s[1..];
        ReplaceOne(s, p, r);
        AbsentShift(s, p, n);
        ReplaceSkip(t, p, r, n - 1);
        assert t[..n - 1] == s[1..n];
        assert t[n - 1..] == s[n..];
        var tail := ReplaceAll(s[n..], p, r);
        assert ReplaceAll(s, p, r) == [s[0]] + (s[1..n] + tail);
        Concat3([s[0]], s[1..n], tail);
        assert [s[0]] + s[1..n] == s[..n];
      }
    }
  }

  /** A string without occurrences of the search string is left unchanged. */
  lemma ReplaceAbsent(s: string, p: string, r: string)
    requires AbsentBefore(s, p, |s|)
    ensures ReplaceAll(s, p, r) == s
  {
    ReplaceSkip(s, p, r, |s|);
    assert s[..|s|] == s;
  }

  /** A suffix cut in two. */
  lemma SliceAt<T>(s: seq<T>, i: nat, k: nat)
    requires i <= k <= |s|
    ensures s[i..] == s[i..k] + s[k..]
  {
  }

  /** Concatenation is associative. */
  lemma Concat3<T>(a: seq<T>, b: seq<T>, c: seq<T>)
    ensures (a + b) + c == a + (b + c)
  {
  }

  /** Where an occurrence starts, str_replace puts the replacement out and
      resumes after it. */
  lemma ReplaceHere(s: string, p: string, r: string, i: nat)
    requires |p| > 0 && OccursAt(s, p, i)
    ensures ReplaceAll(s[i..], p, r) == r + ReplaceAll(s[i + |p|..], p, r)
  {
    var u := s[i..];
    assert u[..|p|] == s[i..i + |p|];
    assert u[|p|..] == s[i + |p|..];
  }

  /** explode cuts at the first occurrence and goes on after it. */
  lemma SplitHere(s: string, p: string, i: nat)
    requires |p| > 0 && IndexOf(s, p) == Some(i)
    ensures i + |p| <= |s|
    ensures Split(s, p) == [s[..i]] + Split(s[i + |p|..], p)
  {
    FoundFits(s, p, i);
    SplitAt(s, p, i);
  }

  /** A found occurrence lies inside the string. */
  lemma FoundFits(s: string, p: string, i: nat)
    requires IndexOf(s, p) == Some(i)
    ensures i + |p| <= |s|
  {
  }

  lemma SplitAt(s: string, p: string, i: nat)
    requires |p| > 0 && IndexOf(s, p) == Some(i) && i + |p| <= |s|
    ensures Split(s, p) == [s[..i]] + Split(s[i + |p|..], p)
  {
  }

  /** implode of a list with a first piece and at least one more. */
  lemma JoinCons(x: string, tail: seq<string>, sep: string)
    requires |tail| >= 1
    ensures Join([x] + tail, sep) == x + sep + Join(tail, sep)
  {
    assert ([x] + tail)[1..] == tail;
  }

  /** str_replace is implode of explode: every occurrence is replaced. */
  lemma {:induction false} ReplaceAllIsJoinSplit(s: string, p: string, r: string)
    requires |p| > 0
    ensures ReplaceAll(s, p, r) == Join(Split(s, p), r)
    decreases |s|
  {
    var found := IndexOf(s, p);
    if found.None? {
      ReplaceAbsent(s, p, r);
    } else {
      var i := found.value;
      SplitHere(s, p, i);
      var pre, rest := s[..i], s[i + |p|..];
      var tail := Split(rest, p);
      ReplaceSkip(s, p, r, i);
      ReplaceHere(s, p, r, i);
      ReplaceAllIsJoinSplit(rest, p, r);
      JoinCons(pre, tail, r);
      var A := ReplaceAll(s, p, r);
      var B := ReplaceAll(s[i..], p, r);
      var C := ReplaceAll(rest, p, r);
      var J := Join(tail, r);
      assert A == pre + B;
      assert B == r + C;
      assert C == J;
      assert Join([pre] + tail, r) == pre + r + J;
      Concat3(pre, r, J);
      assert A == Join([pre] + tail, r);
    }
  }

  // ---------------------------------------------------------------------
  // trim

  /** The characters PHP's `trim` strips by default: " \t\n\r\0\x0B". */
  const DefaultTrimChars: set<char> := {' ', '\t', '\n', '\r', '\0', '\U{000B}'}

  function TrimLeft(s: string, cs: set<char>): (r: string)
    ensures |r| <= |s| && r == s[|s| - |r|..]
    ensures r != [] ==> r[0] !in cs
    ensures forall k :: 0 <= k < |s| - |r| ==> s[k] in cs
    decreases |s|
  {
    if s != [] && s[0] in cs then TrimLeft(s[1..], cs) else s
  }

  function TrimRight(s: string, cs: set<char>): (r: string)
    ensures |r| <= |s| && r == s[..|r|]
    ensures r != [] ==> r[|r| - 1] !in cs
    ensures forall k :: |r| <= k < |s| ==> s[k] in cs
    decreases |s|
  {
    if s != [] && s[|s| - 1] in cs then TrimRight(s[..|s| - 1], cs) else s
  }

  /** PHP `trim(s, cs)`: strips the characters of `cs` from both ends. */
  function Trim(s: string, cs: set<char>): string {
    TrimRight(TrimLeft(s, cs), cs)
  }

  /** trim keeps a contiguous piece of its input, removes only characters of
      `cs`, and leaves no character of `cs` at either end. */
  lemma TrimIsInfix(s: string, cs: set<char>)
    ensures exists a, b ::
              && 0 <= a <= b <= |s| && Trim(s, cs) == s[a..b]
              && (forall k :: 0 <= k < a ==> s[k] in cs)
              && (forall k :: b <= k < |s| ==> s[k] in cs)
    ensures Trim(s, cs) != [] ==> Trim(s, cs)[0] !in cs && Trim(s, cs)[|Trim(s, cs)| - 1] !in cs
  {
    var a, b := TrimCut(s, cs);
    var l := TrimLeft(s, cs);
    var r := TrimRight(l, cs);
    if r != [] {
      assert r[0] == l[0];
    }
  }

  /** Where trim cuts its input. */
  lemma TrimCut(s: string, cs: set<char>) returns (a: nat, b: nat)
    ensures a <= b <= |s| && Trim(s, cs) == s[a..b]
    ensures forall k :: 0 <= k < a ==> s[k] in cs
    ensures forall k :: b <= k < |s| ==> s[k] in cs
  {
    var l := TrimLeft(s, cs);
    var r := TrimRight(l, cs);
    a := |s| - |l|;
    b := a + |r|;
    assert Trim(s, cs) == r;
    PrefixOfSuffix(s, a, l, |r|, r, cs);
    assert a <= b <= |s|;
    assert Trim(s, cs) == s[a..b];
    assert forall k :: b <= k < |s| ==> s[k] in cs;
    assert forall k :: 0 <= k < a ==> s[k] in cs;
  }

  /** Cutting a prefix of a suffix is cutting the middle, and what follows the
      prefix in the suffix follows it in the whole. */
  lemma PrefixOfSuffix<T>(s: seq<T>, a: nat, l: seq<T>, n: nat, r: seq<T>, cs: set<T>)
    requires a <= |s| && l == s[a..] && n <= |l| && r == l[..n]
    requires forall k :: n <= k < |l| ==> l[k] in cs
    ensures r == s[a..a + n]
    ensures forall k :: a + n <= k < |s| ==> s[k] in cs
  {
    forall k | a + n <= k < |s| ensures s[k] in cs {
      assert s[k] == l[k - a];
    }
  }

  /** Trimming twice is trimming once. */
  lemma TrimIdempotent(s: string, cs: set<char>)
    ensures Trim(Trim(s, cs), cs) == Trim(s, cs)
  {
    TrimIsInfix(s, cs);
  }

  // ---------------------------------------------------------------------
  // ASCII case mapping (PHP 8 strtoupper / strtolower / ucwords are locale-free)

  function UpperChar(c: char): char {
    if 'a' <= c <= 'z' then (c as int - 32) as char else c
  }

  function LowerChar(c: char): char {
    if 'A' <= c <= 'Z' then (c as int + 32) as char else c
  }

  /** PHP `strtoupper`. */
  function Upper(s: string): (r: string)
    ensures |r| == |s|
    ensures forall i :: 0 <= i < |s| ==> r[i] == UpperChar(s[i])
  {
    seq(|s|, i requires 0 <= i < |s| => UpperChar(s[i]))
  }

  /** PHP `strtolower`. */
  function Lower(s: string): (r: string)
    ensures |r| == |s|
    ensures forall i :: 0 <= i < |s| ==> r[i] == LowerChar(s[i])
  {
    seq(|s|, i requires 0 <= i < |s| => LowerChar(s[i]))
  }

  /** The delimiters PHP's `ucwords` uses by default: " \t\r\n\f\v". */
  const DefaultWordDelimiters: set<char> := {' ', '\t', '\r', '\n', '\U{000C}', '\U{000B}'}

  /** PHP `ucwords(s, delims)`: upper-cases the first character and every
      character that follows a delimiter. */
  function Ucwords(s: string, delims: set<char>): (r: string)
    ensures |r| == |s|
  {
    seq(|s|, i requires 0 <= i < |s| => if i == 0 || s[i - 1] in delims then UpperChar(s[i]) else s[i])
  }

  // ---------------------------------------------------------------------
  // strrev

  /** PHP `strrev`. */
  function Reverse(s: string): (r: string)
    ensures |r| == |s|
    ensures forall i :: 0 <= i < |s| ==> r[i] == s[|s| - 1 - i]
  {
    seq(|s|, i requires 0 <= i < |s| => s[|s| - 1 - i])
  }

  // ---------------------------------------------------------------------
  // substr($s, 0, $len) and array_slice($a, 0, $len)

  /** How many leading elements `substr(s, 0, len)` and `array_slice(a, 0, len)`
      keep of `n`: a negative length stops that many elements before the end. */
  function PrefixLength(n: nat, len: int): (k: nat)
    ensures k <= n
  {
    if len >= 0 then (if len <= n then len else n)
    else if n + len >= 0 then n + len
    else 0
  }

  function SlicePrefix<T>(s: seq<T>, len: int): seq<T> {
    s[..PrefixLength(|s|, len)]
  }

  // ---------------------------------------------------------------------
  // Decimal conversion

  function DigitChar(d: nat): (c: char)
    requires d < 10
    ensures IsDigit(c)
  {
    ('0' as int + d) as char
  }

  function DigitValue(c: char): nat
    requires IsDigit(c)
  {
    c as int - '0' as int
  }

  predicate AllDigits(s: string) {
    forall i :: 0 <= i < |s| ==> IsDigit(s[i])
  }

  /** PHP's conversion of a non-negative integer to its decimal string. */
  function NatToString(n: nat): (r: string)
    ensures |r| >= 1 && AllDigits(r)
    decreases n
  {
    if n < 10 then [DigitChar(n)] else NatToString(n / 10) + [DigitChar(n % 10)]
  }

  function ParseDigits(s: string): nat
    requires AllDigits(s)
  {
    if s == [] then 0 else ParseDigits(s[..|s| - 1]) * 10 + DigitValue(s[|s| - 1])
  }

  /** Reading back the decimal string of `n` gives `n`. */
  lemma {:induction false} ParseNatToString(n: nat)
    ensures ParseDigits(NatToString(n)) == n
    decreases n
  {
    var s := NatToString(n);
    if n >= 10 {
      ParseNatToString(n / 10);
      assert s[..|s| - 1] == NatToString(n / 10);
    }
  }

  /** Distinct numbers have distinct decimal strings. */
  lemma NatToStringInjective(a: nat, b: nat)
    requires NatToString(a) == NatToString(b)
    ensures a == b
  {
    ParseNatToString(a);
    ParseNatToString(b);
  }

  /** PHP's `(string)` of an integer. */
  function IntToString(n: int): string {
    if n < 0 then "-" + NatToString(-n) else NatToString(n)
  }

  /** An integer literal: an optional minus sign followed by one or more digits. */
  function ParseInt(s: string): (r: Option<int>)
  {
    if |s| > 0 && s[0] == '-' then
      (if |s| > 1 && AllDigits(s[1..]) then Some(-(ParseDigits(s[1..]) as int)) else None)
    else if |s| > 0 && AllDigits(s) then Some(ParseDigits(s) as int)
    else None
  }

  /** Every integer's decimal string reads back as that integer. */
  lemma ParseIntToString(n: int)
    ensures ParseInt(IntToString(n)) == Some(n)
  {
    if n < 0 {
      var digits := NatToString(-n);
      assert IntToString(n) == "-" + digits;
      ParseNatToString(-n);
      ParseNegative(digits);
    } else {
      var digits := NatToString(n);
      assert IntToString(n) == digits;
      ParseNatToString(n);
      ParseUnsigned(digits);
    }
  }

  lemma ParseNegative(digits: string)
    requires |digits| >= 1 && AllDigits(digits)
    ensures ParseInt("-" + digits) == Some(-(ParseDigits(digits) as int))
  {
    assert ("-" + digits)[1..] == digits;
  }

  lemma ParseUnsigned(digits: string)
    requires |digits| >= 1 && AllDigits(digits)
    ensures ParseInt(digits) == Some(ParseDigits(digits) as int)
  {
    assert IsDigit(digits[0]);
  }


  // ---------------------------------------------------------------------
  // PHP numeric strings

  /** The whitespace PHP allows before a numeric string. */
  predicate IsNumericSpace(c: char) {
    c == ' ' || c == '\t' || c == '\n' || c == '\r' || c == '\U{000B}' || c == '\U{000C}'
  }

  /** The end of the run of numeric whitespace starting at `i`. */
  function SpaceEnd(s: string, i: nat): (j: nat)
    requires i <= |s|
    ensures i <= j <= |s|
    ensures j < |s| ==> !IsNumericSpace(s[j])
    ensures forall k :: i <= k < j ==> IsNumericSpace(s[k])
    decreases |s| - i
  {
    if i < |s| && IsNumericSpace(s[i]) then SpaceEnd(s, i + 1) else i
  }

  /** The end of the run of digits starting at `i`. */
  function DigitEnd(s: string, i: nat): (j: nat)
    requires i <= |s|
    ensures i <= j <= |s|
    ensures j < |s| ==> !IsDigit(s[j])
    ensures AllDigits(s[i..j])
    decreases |s| - i
  {
    if i < |s| && IsDigit(s[i]) then DigitEnd(s, i + 1) else i
  }

  /** The exact number `mantissa * 10^exp`, negated when `neg`. */
  datatype Decimal = Decimal(neg: bool, mantissa: nat, exp: int)

  function Pow10(e: nat): (r: nat)
    ensures r >= 1
  {
    if e == 0 then 1 else 10 * Pow10(e - 1)
  }

  /** The exponent `e` or `E`, an optional sign and digits at `i`; 0 when
      no digit follows the `e`, which then is not part of the number. */
  function ExponentAt(s: string, i: nat): int
    requires i <= |s|
  {
    if i < |s| && (s[i] == 'e' || s[i] == 'E') then
      var f := i + 1;
      var g := if f < |s| && (s[f] == '-' || s[f] == '+') then f + 1 else f;
      var h := DigitEnd(s, g);
      if h == g then 0
      else if g > f && s[f] == '-' then -(ParseDigits(s[g..h]) as int)
      else ParseDigits(s[g..h])
    else 0
  }

  /** The number PHP reads at the start of `s`: leading whitespace, a sign,
      digits with an optional `.` fraction (at least one digit in all), and
      an exponent. None when `s` does not start with a number. What follows
      the number does not change its value. */
  function NumericPrefix(s: string): (r: Option<Decimal>)
  {
    var a := SpaceEnd(s, 0);
    var b := if a < |s| && (s[a] == '-' || s[a] == '+') then a + 1 else a;
    NumberAt(s, a < |s| && s[a] == '-', b)
  }

  /** The unsigned number at `b`, its digits running to `DigitEnd(s, b)`. */
  function NumberAt(s: string, neg: bool, b: nat): Option<Decimal>
    requires b <= |s|
  {
    var c := DigitEnd(s, b);
    if c < |s| && s[c] == '.' then FractionAt(s, neg, b, c)
    else if c == b then None
    else Some(Decimal(neg, ParseDigits(s[b..c]), ExponentAt(s, c)))
  }

  /** The number whose integer digits are `s[b..c]` and whose `.` is at `c`. */
  function FractionAt(s: string, neg: bool, b: nat, c: nat): Option<Decimal>
    requires b <= c < |s| && AllDigits(s[b..c])
  {
    var e := DigitEnd(s, c + 1);
    if c == b && e == c + 1 then None
    else
      assert AllDigits(s[b..c] + s[c + 1..e]) by {
        assert AllDigits(s[c + 1..e]);
      }
      Some(Decimal(neg, ParseDigits(s[b..c] + s[c + 1..e]), ExponentAt(s, e) - (e - (c + 1))))
  }

  /** PHP's integer range on 64-bit platforms. */
  const IntMin: int := -0x8000_0000_0000_0000
  const IntMax: int := 0x7FFF_FFFF_FFFF_FFFF

  /** A number fits an integer parameter when it lies in [IntMin, IntMax + 1). */
  predicate FitsInt(x: Decimal) {
    if x.exp >= 0 then
      (if x.neg then x.mantissa * Pow10(x.exp) <= IntMax + 1 else x.mantissa * Pow10(x.exp) <= IntMax)
    else
      (if x.neg then x.mantissa <= (IntMax + 1) * Pow10(-x.exp) else x.mantissa < (IntMax + 1) * Pow10(-x.exp))
  }

  /** The number truncated toward zero. */
  function Truncate(x: Decimal): int {
    var m := if x.exp >= 0 then x.mantissa * Pow10(x.exp) else x.mantissa / Pow10(-x.exp);
    if x.neg then -m else m
  }

  /** A number that fits the integer range truncates to an integer in it. */
  lemma TruncateFits(x: Decimal)
    requires FitsInt(x)
    ensures IntMin <= Truncate(x) <= IntMax
  {
    if x.exp < 0 {
      var p := Pow10(-x.exp);
      DivBelow(x.mantissa, if x.neg then IntMax + 2 else IntMax + 1, p);
    }
  }

  lemma DivBelow(a: nat, k: nat, p: nat)
    requires p >= 1 && a < k * p
    ensures a / p < k
  {
    var q := a / p;
    assert q * p <= a;
    assert q * p < k * p;
  }

  /** The digit run from `i` ends at `k` when `s[i..k]` are digits and `s[k]` is not. */
  lemma {:induction false} DigitEndAt(s: string, i: nat, k: nat)
    requires i <= k <= |s|
    requires AllDigits(s[i..k])
    requires k == |s| || !IsDigit(s[k])
    ensures DigitEnd(s, i) == k
    decreases k - i
  {
    if i < k {
      assert IsDigit(s[i..k][0]);
      assert s[i + 1..k] == s[i..k][1..];
      DigitEndAt(s, i + 1, k);
    }
  }

  /** A number without whitespace before it and without a fraction reads as
      its integer digits, scaled by the exponent after them. */
  lemma IntegerPart(s: string, b: nat)
    requires b < |s|
    requires b == (if s[0] == '-' || s[0] == '+' then 1 else 0)
    requires !IsNumericSpace(s[0]) && IsDigit(s[b])
    requires DigitEnd(s, b) == |s| || s[DigitEnd(s, b)] != '.'
    ensures var c := DigitEnd(s, b);
            NumericPrefix(s) == Some(Decimal(s[0] == '-', ParseDigits(s[b..c]), ExponentAt(s, c)))
  {
    assert SpaceEnd(s, 0) == 0;
    assert DigitEnd(s, b) == DigitEnd(s, b + 1);
  }

  /** An integer literal followed by text that cannot continue a number reads
      as the literal's value, with exponent 0. */
  lemma LiteralPrefix(a: string, rest: string)
    requires ParseInt(a).Some?
    requires rest == [] || !(IsDigit(rest[0]) || rest[0] == '.' || rest[0] == 'e' || rest[0] == 'E')
    ensures var x := NumericPrefix(a + rest);
            && x.Some? && x.value.exp == 0
            && (if x.value.neg then -(x.value.mantissa as int) else x.value.mantissa as int) == ParseInt(a).value
  {
    var s := a + rest;
    assert s[..|a|] == a;
    var b := if s[0] == '-' then 1 else 0;
    assert s[b..|a|] == a[b..];
    assert IsDigit(a[b..][0]);
    DigitEndAt(s, b, |a|);
    IntegerPart(s, b);
    assert ExponentAt(s, |a|) == 0;
    if s[0] == '-' {
      assert a[1..] == a[b..];
    } else {
      assert a == a[b..];
    }
  }

  /** The exponent `e` followed by the digit run `b`, to the end of the text. */
  lemma ExponentDigits(s: string, i: nat, b: string)
    requires i < |s| && s[i] == 'e' && s[i + 1..] == b
    requires |b| >= 1 && AllDigits(b)
    ensures ExponentAt(s, i) == ParseDigits(b)
  {
    assert s[i + 1] == b[0] && IsDigit(b[0]);
    assert s[i + 1..|s|] == b;
    DigitEndAt(s, i + 1, |s|);
  }

  /** `a` `e` `b`, with `a` and `b` digit runs, reads as `a * 10^b`. */
  lemma ScientificPrefix(a: string, b: string)
    requires |a| >= 1 && AllDigits(a) && |b| >= 1 && AllDigits(b)
    ensures NumericPrefix(a + "e" + b) == Some(Decimal(false, ParseDigits(a), ParseDigits(b)))
  {
    var s := a + "e" + b;
    assert s[..|a|] == a && s[|a|] == 'e' && s[|a| + 1..] == b;
    assert IsDigit(a[0]);
    DigitEndAt(s, 0, |a|);
    IntegerPart(s, 0);
    ExponentDigits(s, |a|, b);
  }

}
