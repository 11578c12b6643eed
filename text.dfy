/**
  ASCII text helpers shared by the modules that handle strings: character
  classes, case mapping, substring search, number parsing and printing,
  splitting on one separator character, and the lexicographic order that
  Python's `sorted` and Qt's string comparison use on code units.
*/
module Text {
  import opened Common

  predicate IsUpper(c: char) { 'A' <= c <= 'Z' }
  predicate IsLower(c: char) { 'a' <= c <= 'z' }
  predicate IsDigit(c: char) { '0' <= c <= '9' }
  /**
    White space that Qt's `QChar::isSpace` and Python's `str.isspace` agree on
    in Latin-1: tab, line feed, vertical tab, form feed, carriage return,
    space, next line and no-break space; beyond Latin-1, the Unicode space,
    line and paragraph separators (general categories Zs, Zl and Zp).
  */
  predicate IsSpace(c: char) {
    9 <= c as int <= 13 || c == ' ' || c as int == 0x85 || c as int == 0xa0 ||
    c as int == 0x1680 || 0x2000 <= c as int <= 0x200a || c as int == 0x2028 || c as int == 0x2029 ||
    c as int == 0x202f || c as int == 0x205f || c as int == 0x3000
  }

  /** Python's `str.isspace` also counts the separators 0x1c to 0x1f. */
  predicate IsPySpace(c: char) { IsSpace(c) || 0x1c <= c as int <= 0x1f }

  /** White space for Qt (`py` false) or for Python (`py` true). */
  predicate Space(c: char, py: bool) { if py then IsPySpace(c) else IsSpace(c) }

  function LowerChar(c: char): char {
    if IsUpper(c) then (c as int + 32) as char else c
  }

  function UpperChar(c: char): char {
    if IsLower(c) then (c as int - 32) as char else c
  }

  /** ASCII lower-casing, character by character. */
  function Lower(s: string): (r: string)
    ensures |r| == |s| && forall i :: 0 <= i < |s| ==> r[i] == LowerChar(s[i])
  {
    seq(|s|, i requires 0 <= i < |s| => LowerChar(s[i]))
  }

  /** ASCII upper-casing, character by character (Python's `str.upper` on ASCII text). */
  function Upper(s: string): (r: string)
    ensures |r| == |s| && forall i :: 0 <= i < |s| ==> r[i] == UpperChar(s[i])
  {
    seq(|s|, i requires 0 <= i < |s| => UpperChar(s[i]))
  }

  /** `needle` occurs in `hay` as a contiguous block (Python `in`, Qt `contains`). */
  predicate HasSubstring(hay: string, needle: string) {
    exists i | 0 <= i <= |hay| - |needle| :: OccursAt(hay, needle, i)
  }

  /** `needle` occurs in `hay` starting at index `i`. */
  predicate OccursAt(hay: string, needle: string, i: int) {
    0 <= i <= |hay| - |needle| && hay[i..i + |needle|] == needle
  }

  /** Concatenation is associative. */
  lemma ConcatAssoc<T>(x: seq<T>, y: seq<T>, z: seq<T>)
    ensures (x + y) + z == x + (y + z)
  {
  }

  /** A string occurs in any string that has it between a prefix and a suffix. */
  lemma MiddleOccurs(pre: string, mid: string, post: string)
    ensures OccursAt(pre + mid + post, mid, |pre|) && HasSubstring(pre + mid + post, mid)
  {
    var hay := pre + mid + post;
    assert hay[|pre|..|pre| + |mid|] == mid;
    assert OccursAt(hay, mid, |pre|);
  }

  /** Case-insensitive containment, as Qt's `contains(txt, Qt::CaseInsensitive)` on ASCII text. */
  predicate ContainsIgnoringCase(hay: string, needle: string) {
    HasSubstring(Lower(hay), Lower(needle))
  }

  predicate StartsWith(s: string, prefix: string) {
    |prefix| <= |s| && s[..|prefix|] == prefix
  }

  function DigitChar(d: nat): char
    requires d < 10
  {
    ('0' as int + d) as char
  }

  /** Lower-case hexadecimal digit of a nibble. */
  function HexLower(d: nat): char
    requires d < 16
  {
    if d < 10 then DigitChar(d) else ('a' as int + d - 10) as char
  }

  /** Upper-case hexadecimal digit of a nibble. */
  function HexUpper(d: nat): char
    requires d < 16
  {
    if d < 10 then DigitChar(d) else ('A' as int + d - 10) as char
  }

  /** The value of a lower-case hex digit, if it is one. */
  function HexValue(c: char): Option<nat> {
    if '0' <= c <= '9' then Some(c as int - '0' as int)
    else if 'a' <= c <= 'f' then Some(c as int - 'a' as int + 10)
    else None
  }

  /** Decimal rendering of a natural number, as Python's `str` and Qt's `number` print it. */
  function NatToString(n: nat): (r: string)
    ensures |r| >= 1 && forall i :: 0 <= i < |r| ==> IsDigit(r[i])
    decreases n
  {
    if n < 10 then [DigitChar(n)] else NatToString(n / 10) + [DigitChar(n % 10)]
  }

  /** Decimal rendering of an integer, with a leading '-' when negative (Python `str`). */
  function IntToString(i: int): (r: string)
    ensures |r| >= 1
    ensures i < 0 <==> r[0] == '-'
  {
    if i < 0 then "-" + NatToString(-i) else NatToString(i)
  }

  /** Value of a digit in base 10 or 16 (either case), or None when it is not one. */
  function DigitValue(c: char, base: nat): (r: Option<nat>)
    ensures r.Some? ==> r.value < base
    requires base == 10 || base == 16
  {
    if IsDigit(c) then Some(c as int - '0' as int)
    else if base == 16 && 'a' <= c <= 'f' then Some(c as int - 'a' as int + 10)
    else if base == 16 && 'A' <= c <= 'F' then Some(c as int - 'A' as int + 10)
    else None
  }

  predicate AllDigits(s: string, base: nat)
    requires base == 10 || base == 16
  {
    forall i :: 0 <= i < |s| ==> DigitValue(s[i], base).Some?
  }

  /** Positional value of a digit string, most significant digit first. */
  function DigitsValue(s: string, base: nat): nat
    requires base == 10 || base == 16
    requires AllDigits(s, base)
  {
    if s == [] then 0
    else DigitsValue(s[..|s| - 1], base) * base + DigitValue(s[|s| - 1], base).value
  }

  function TrimStart(s: string, py: bool): (r: string)
    ensures |r| <= |s|
  {
    if |s| > 0 && Space(s[0], py) then TrimStart(s[1..], py) else s
  }

  function TrimEnd(s: string, py: bool): (r: string)
    ensures |r| <= |s|
  {
    if |s| > 0 && Space(s[|s| - 1], py) then TrimEnd(s[..|s| - 1], py) else s
  }

  function Trim(s: string, py: bool): string {
    TrimEnd(TrimStart(s, py), py)
  }

  /**
    Signed integer text: surrounding white space, an optional sign, then one or
    more digits of `base` (with an optional "0x" prefix in base 16 when
    `hexPrefix` holds). None when the text is not of that form.
  */
  function ParseSigned(s: string, base: nat, hexPrefix: bool): Option<int>
    requires base == 10 || base == 16
  {
    var t := Trim(s, false);
    var neg := |t| > 0 && t[0] == '-';
    var body := if |t| > 0 && (t[0] == '-' || t[0] == '+') then t[1..] else t;
    var digits :=
      if hexPrefix && base == 16 && |body| >= 2 && body[0] == '0' && (body[1] == 'x' || body[1] == 'X')
      then body[2..] else body;
    if |digits| == 0 || !AllDigits(digits, base) then None
    else
      var magnitude: int := DigitsValue(digits, base);
      Some(if neg then -magnitude else magnitude)
  }

  /** Qt's `QString::toInt(&ok, base)`: a signed 32-bit result, failing outside that range. */
  function QtToInt(s: string, base: nat): (r: Option<int>)
    requires base == 10 || base == 16
    ensures r.Some? ==> -0x8000_0000 <= r.value < 0x8000_0000
    ensures r.Some? <==>
      ParseSigned(s, base, true).Some? && -0x8000_0000 <= ParseSigned(s, base, true).value < 0x8000_0000
    ensures r.Some? ==> r == ParseSigned(s, base, true)
  {
    match ParseSigned(s, base, true)
    case Some(v) => if -0x8000_0000 <= v < 0x8000_0000 then Some(v) else None
    case None => None
  }

  /**
    Decimal digits as Python's `int` reads them: at least one digit, with
    single underscores allowed between digits.
  */
  predicate PyDigits(s: string) {
    |s| > 0 && IsDigit(s[0]) && IsDigit(s[|s| - 1]) &&
    forall k :: 0 <= k < |s| - 1 ==> (IsDigit(s[k]) || s[k] == '_') && (s[k] == '_' ==> IsDigit(s[k + 1]))
  }

  /** The digits of a grouped digit string, underscores dropped. */
  function Ungrouped(s: string): string {
    if s == [] then [] else (if s[0] == '_' then [] else [s[0]]) + Ungrouped(s[1..])
  }

  /** Grouped digits leave only digits once ungrouped. */
  lemma {:induction false} UngroupedDigits(s: string)
    requires forall k :: 0 <= k < |s| ==> IsDigit(s[k]) || s[k] == '_'
    ensures AllDigits(Ungrouped(s), 10)
  {
    if s != [] {
      UngroupedDigits(s[1..]);
      var head: string := if s[0] == '_' then [] else [s[0]];
      assert Ungrouped(s) == head + Ungrouped(s[1..]);
    }
  }

  /** Without underscores, a digit string is its own ungrouped form. */
  lemma {:induction false} UngroupedOfDigits(s: string)
    requires forall k :: 0 <= k < |s| ==> IsDigit(s[k])
    ensures Ungrouped(s) == s
  {
    if s != [] {
      UngroupedOfDigits(s[1..]);
    }
  }

  /**
    Python's `int(s)` on decimal text: surrounding white space, an optional
    sign, then digits in groups separated by single underscores. None where
    `int` raises ValueError.
  */
  function PyInt(s: string): Option<int> {
    var t := Trim(s, true);
    var neg := |t| > 0 && t[0] == '-';
    var body := if |t| > 0 && (t[0] == '-' || t[0] == '+') then t[1..] else t;
    if !PyDigits(body) then None
    else
      var magnitude: int := GroupedValue(body);
      Some(if neg then -magnitude else magnitude)
  }

  /** The value of grouped decimal digits. */
  function GroupedValue(s: string): nat
    requires PyDigits(s)
  {
    assert forall k :: 0 <= k < |s| ==> IsDigit(s[k]) || s[k] == '_';
    UngroupedDigits(s);
    DigitsValue(Ungrouped(s), 10)
  }

  /** Unsigned grouped digits with nothing around them read as their value. */
  lemma PyIntUnsigned(s: string)
    requires PyDigits(s)
    ensures PyInt(s) == Some(GroupedValue(s))
  {
    assert !IsPySpace(s[0]) && !IsPySpace(s[|s| - 1]);
    assert Trim(s, true) == s;
    assert s[0] != '-' && s[0] != '+';
  }

  /** Python's `str` of an integer reads back through `int` as itself. */
  lemma PyIntRoundTrip(i: int)
    ensures PyInt(IntToString(i)) == Some(i)
  {
    var m: nat := if i < 0 then -i else i;
    var ds := NatToString(m);
    NatToStringValue(m);
    assert PyDigits(ds);
    UngroupedOfDigits(ds);
    assert GroupedValue(ds) == m;
    if i < 0 {
      PyIntNegative(ds);
    } else {
      PyIntUnsigned(ds);
    }
  }

  /** A minus sign before grouped digits negates their value. */
  lemma PyIntNegative(s: string)
    requires PyDigits(s)
    ensures PyInt("-" + s) == Some(-(GroupedValue(s) as int))
  {
    var t := "-" + s;
    assert !IsPySpace(t[0]) && t[|t| - 1] == s[|s| - 1] && !IsPySpace(t[|t| - 1]);
    assert Trim(t, true) == t;
    assert t[1..] == s;
  }

  /** A single underscore between two digit groups does not change the value `int` reads. */
  lemma PyIntIgnoresGroups(a: string, b: string)
    requires |a| > 0 && |b| > 0 && (forall k :: 0 <= k < |a| ==> IsDigit(a[k])) && (forall k :: 0 <= k < |b| ==> IsDigit(b[k]))
    ensures PyInt(a + "_" + b) == PyInt(a + b)
  {
    var x, y := a + "_" + b, a + b;
    assert PyDigits(x) by {
      forall k | 0 <= k < |x| - 1
        ensures (IsDigit(x[k]) || x[k] == '_') && (x[k] == '_' ==> IsDigit(x[k + 1]))
      {
        if k < |a| { assert x[k] == a[k]; }
        else if k == |a| { assert x[k + 1] == b[0]; }
        else { assert x[k] == b[k - |a| - 1]; }
      }
    }
    assert PyDigits(y) by {
      forall k | 0 <= k < |y| ensures IsDigit(y[k]) {
        if k < |a| { assert y[k] == a[k]; } else { assert y[k] == b[k - |a|]; }
      }
    }
    PyIntUnsigned(x);
    PyIntUnsigned(y);
    assert Ungrouped(x) == Ungrouped(y) by {
      UngroupedOfDigits(a);
      UngroupedOfDigits(b);
      UngroupedDropsUnderscore(a, b);
    }
  }

  /** Between two groups that hold no underscore, the underscore is dropped. */
  lemma UngroupedDropsUnderscore(a: string, b: string)
    requires Ungrouped(a) == a && Ungrouped(b) == b
    ensures Ungrouped(a + "_" + b) == a + b == Ungrouped(a + b)
  {
    assert Ungrouped(a + "_") == a by {
      assert Ungrouped("_") == [] by { assert "_"[1..] == []; }
      UngroupedAppend(a, "_");
    }
    UngroupedAppend(a + "_", b);
    UngroupedAppend(a, b);
  }

  lemma {:induction false} UngroupedAppend(s: string, t: string)
    ensures Ungrouped(s + t) == Ungrouped(s) + Ungrouped(t)
  {
    if s == [] {
      assert s + t == t;
    } else {
      assert (s + t)[0] == s[0] && (s + t)[1..] == s[1..] + t;
      UngroupedAppend(s[1..], t);
    }
  }

  /** The decimal rendering of `n` is all digits and reads back as `n`. */
  lemma {:induction false} NatToStringValue(n: nat)
    ensures AllDigits(NatToString(n), 10) && DigitsValue(NatToString(n), 10) == n
    decreases n
  {
    var r := NatToString(n);
    if n >= 10 {
      NatToStringValue(n / 10);
      assert r[..|r| - 1] == NatToString(n / 10);
    }
  }

  /**
    A 32-bit integer written in decimal reads back as itself, and a decimal
    integer outside that range is refused.
  */
  lemma QtToIntRoundTrip(i: int)
    ensures -0x8000_0000 <= i < 0x8000_0000 ==> QtToInt(IntToString(i), 10) == Some(i)
    ensures !(-0x8000_0000 <= i < 0x8000_0000) ==> QtToInt(IntToString(i), 10) == None
  {
    var m: nat := if i < 0 then -i else i;
    var ds := NatToString(m);
    NatToStringValue(m);
    var s := IntToString(i);
    if i < 0 {
      assert s[1..] == ds;
      NegativeDecimal(s);
    } else {
      ParseDecimal(ds);
    }
  }

  /** Decimal digits parse as their value. */
  lemma ParseDecimal(ds: string)
    requires |ds| > 0 && forall k :: 0 <= k < |ds| ==> IsDigit(ds[k])
    ensures AllDigits(ds, 10)
    ensures ParseSigned(ds, 10, true) == Some(DigitsValue(ds, 10))
  {
    UntrimmedDigits(ds);
    assert ds[0] != '-' && ds[0] != '+';
    assert |ds| < 2 || (ds[1] != 'x' && ds[1] != 'X');
  }

  /** A minus sign before decimal digits negates their value. */
  lemma NegativeDecimal(t: string)
    requires |t| > 1 && t[0] == '-' && AllDigits(t[1..], 10) && forall k :: 1 <= k < |t| ==> IsDigit(t[k])
    ensures ParseSigned(t, 10, true) == Some(-(DigitsValue(t[1..], 10) as int))
  {
    UntrimmedDigits(t);
    var body := t[1..];
    assert |body| < 2 || (body[1] != 'x' && body[1] != 'X') by {
      if |body| >= 2 { assert body[1] == t[2]; }
    }
  }

  /** Text that starts with a sign or digit and ends with a digit has no white space to trim. */
  lemma UntrimmedDigits(t: string)
    requires |t| > 0 && (IsDigit(t[0]) || t[0] == '-') && IsDigit(t[|t| - 1])
    ensures Trim(t, false) == t
  {
    assert TrimStart(t, false) == t;
    assert TrimEnd(t, false) == t;
  }

  /** The quote Python's `repr` puts around a string: double quotes when it holds a single quote and no double quote. */
  function ReprQuote(s: string): char {
    if '\'' in s && '"' !in s then '"' else '\''
  }

  /**
    The Latin-1 characters `str.isprintable` refuses, which `repr` writes as
    `\x` and two hex digits: the C0 controls, delete, the C1 controls, the
    no-break space and the soft hyphen.
  */
  predicate ReprHex(c: char) { c as int < 0x20 || 0x7f <= c as int <= 0xa0 || c as int == 0xad }

  /** How `repr` writes one character inside quotes `q`: backslash escapes for the backslash, the quote and the characters that do not print. */
  function ReprChar(c: char, q: char): string {
    if c == '\\' then "\\\\"
    else if c == q then ['\\', q]
    else if c == '\n' then "\\n"
    else if c == '\r' then "\\r"
    else if c == '\t' then "\\t"
    else if ReprHex(c) then ['\\', 'x', HexLower(c as int / 16), HexLower(c as int % 16)]
    else [c]
  }

  function ReprBody(s: string, q: char): string
    decreases |s|
  {
    if s == [] then "" else ReprChar(s[0], q) + ReprBody(s[1..], q)
  }

  /** Python's `repr` of a string, as `str` of a tuple prints each string in it. */
  function PyRepr(s: string): (r: string)
    ensures |r| >= 2 && r[0] == r[|r| - 1] == ReprQuote(s)
  {
    var q := ReprQuote(s);
    [q] + ReprBody(s, q) + [q]
  }

  /** Reads the escapes of a `repr` body back into the characters they stand for. */
  function UnreprBody(t: string): string
    decreases |t|
  {
    if t == [] then ""
    else if t[0] == '\\' && |t| >= 2 then
      if t[1] == 'n' then "\n" + UnreprBody(t[2..])
      else if t[1] == 'r' then "\r" + UnreprBody(t[2..])
      else if t[1] == 't' then "\t" + UnreprBody(t[2..])
      else if t[1] == 'x' && |t| >= 4 && HexValue(t[2]).Some? && HexValue(t[3]).Some? then
        [(HexValue(t[2]).value * 16 + HexValue(t[3]).value) as char] + UnreprBody(t[4..])
      else [t[1]] + UnreprBody(t[2..])
    else [t[0]] + UnreprBody(t[1..])
  }

  /** The escape of one character reads back as that character, whatever follows it. */
  lemma UnreprChar(c: char, q: char, rest: string)
    requires q == '\'' || q == '"'
    ensures UnreprBody(ReprChar(c, q) + rest) == [c] + UnreprBody(rest)
  {
    var e := ReprChar(c, q);
    if ReprHex(c) {
      if c != '\n' && c != '\r' && c != '\t' {
        var h, l := c as int / 16, c as int % 16;
        assert HexValue(HexLower(h)) == Some(h) && HexValue(HexLower(l)) == Some(l);
        assert (e + rest)[4..] == rest;
      } else {
        assert (e + rest)[2..] == rest;
      }
    } else if c == '\\' || c == q {
      assert (e + rest)[2..] == rest;
    } else {
      assert (e + rest)[1..] == rest;
    }
  }

  lemma {:induction false} UnreprReprBody(s: string, q: char)
    requires q == '\'' || q == '"'
    ensures UnreprBody(ReprBody(s, q)) == s
    decreases |s|
  {
    if s != [] {
      UnreprChar(s[0], q, ReprBody(s[1..], q));
      UnreprReprBody(s[1..], q);
      assert [s[0]] + s[1..] == s;
    }
  }

  /** Reading the text between the quotes of `repr(s)` back gives `s`, so distinct strings print differently. */
  lemma PyReprRoundTrip(s: string)
    ensures var r := PyRepr(s); UnreprBody(r[1..|r| - 1]) == s
  {
    var r := PyRepr(s);
    assert r[1..|r| - 1] == ReprBody(s, ReprQuote(s));
    UnreprReprBody(s, ReprQuote(s));
  }

  /** Index of the first occurrence of `c` in `s`. */
  function IndexOf(s: string, c: char): (i: nat)
    requires c in s
    ensures i < |s| && s[i] == c && c !in s[..i]
  {
    if s[0] == c then 0 else 1 + IndexOf(s[1..], c)
  }

  /** Python's `s.split(c)` for a one-character separator. */
  function Split(s: string, c: char): (parts: seq<string>)
    ensures |parts| >= 1
    decreases |s|
  {
    if c !in s then [s]
    else
      var i := IndexOf(s, c);
      [s[..i]] + Split(s[i + 1..], c)
  }

  /** Python's `c.join(parts)` for a one-character separator. */
  function Join(parts: seq<string>, c: char): string
    requires |parts| >= 1
  {
    if |parts| == 1 then parts[0] else parts[0] + [c] + Join(parts[1..], c)
  }

  /** Splitting on `c` loses nothing: joining the parts back gives the text, and no part holds `c`. */
  lemma {:induction false} SplitJoin(s: string, c: char)
    ensures Join(Split(s, c), c) == s
    ensures forall k :: 0 <= k < |Split(s, c)| ==> c !in Split(s, c)[k]
    decreases |s|
  {
    if c in s {
      var i := IndexOf(s, c);
      SplitJoin(s[i + 1..], c);
      assert s == s[..i] + [c] + s[i + 1..];
    }
  }

  /** The first part of a split is the text before the first separator (or all of it). */
  lemma SplitHead(s: string, c: char)
    ensures c !in s ==> Split(s, c)[0] == s
    ensures c in s ==> Split(s, c)[0] == s[..IndexOf(s, c)]
  {
  }

  /** Strict lexicographic order on code units (Python `<` on str, Qt `operator<` on QString). */
  predicate LexLess(a: string, b: string) {
    if |a| == 0 then |b| > 0
    else if |b| == 0 then false
    else a[0] < b[0] || (a[0] == b[0] && LexLess(a[1..], b[1..]))
  }

  lemma {:induction false} LexLessIrreflexive(a: string)
    ensures !LexLess(a, a)
  {
    if |a| > 0 {
      LexLessIrreflexive(a[1..]);
    }
  }

  lemma {:induction false} LexLessTransitive(a: string, b: string, c: string)
    requires LexLess(a, b) && LexLess(b, c)
    ensures LexLess(a, c)
  {
    if |a| > 0 && |b| > 0 && |c| > 0 && a[0] == b[0] && b[0] == c[0] {
      LexLessTransitive(a[1..], b[1..], c[1..]);
    }
  }

  lemma {:induction false} LexLessTotal(a: string, b: string)
    requires a != b
    ensures LexLess(a, b) || LexLess(b, a)
  {
    if |a| > 0 && |b| > 0 && a[0] == b[0] {
      assert a == [a[0]] + a[1..] && b == [b[0]] + b[1..];
      LexLessTotal(a[1..], b[1..]);
    }
  }

  lemma LexLessAsymmetric(a: string, b: string)
    requires LexLess(a, b)
    ensures !LexLess(b, a)
  {
    if LexLess(b, a) {
      LexLessTransitive(a, b, a);
      LexLessIrreflexive(a);
    }
  }

  /** Every element is strictly below every later one: sorted, and free of duplicates. */
  predicate StrictlySorted(s: seq<string>) {
    forall i, j :: 0 <= i < j < |s| ==> LexLess(s[i], s[j])
  }

  function InsertSorted(x: string, s: seq<string>): seq<string> {
    if s == [] then [x]
    else if LexLess(x, s[0]) then [x] + s
    else [s[0]] + InsertSorted(x, s[1..])
  }

  lemma {:induction false} InsertSortedProps(x: string, s: seq<string>)
    requires StrictlySorted(s) && x !in s
    ensures StrictlySorted(InsertSorted(x, s))
    ensures forall y :: y in InsertSorted(x, s) <==> y in s || y == x
    ensures |InsertSorted(x, s)| == |s| + 1
  {
    if s == [] {
    } else if LexLess(x, s[0]) {
      forall j | 0 <= j < |s| ensures LexLess(x, s[j]) {
        if j > 0 { LexLessTransitive(x, s[0], s[j]); }
      }
    } else {
      LexLessTotal(x, s[0]);
      assert StrictlySorted(s[1..]);
      InsertSortedProps(x, s[1..]);
      var t := InsertSorted(x, s[1..]);
      forall y | y in t ensures LexLess(s[0], y) {
        if y != x {
          var j :| 0 <= j < |s[1..]| && s[1..][j] == y;
          assert s[j + 1] == y;
        }
      }
    }
  }

  lemma HeadIsMember<T>(b: seq<T>)
    ensures b != [] ==> b[0] in b
  {
  }

  /** Two strictly sorted lists with the same elements are the same list. */
  lemma {:induction false} StrictlySortedUnique(a: seq<string>, b: seq<string>)
    requires StrictlySorted(a) && StrictlySorted(b)
    requires forall x :: x in a <==> x in b
    ensures a == b
  {
    if a == [] && b == [] {
    } else if a == [] {
      HeadIsMember(b);
      assert false;
    } else {
      assert b != [] by { assert a[0] in b; }
      assert b[0] in a && a[0] in b;
      var i :| 0 <= i < |a| && a[i] == b[0];
      var j :| 0 <= j < |b| && b[j] == a[0];
      if i > 0 && j > 0 {
        LexLessAsymmetric(a[0], a[i]);
      } else if i > 0 {
        LexLessIrreflexive(a[0]);
      } else if j > 0 {
        LexLessIrreflexive(b[0]);
      }
      assert a[0] == b[0];
      forall x ensures x in a[1..] <==> x in b[1..] {
        if x in a[1..] {
          var k :| 1 <= k < |a| && a[k] == x;
          LexLessIrreflexive(x);
          assert x in b && x != b[0];
          assert b == [b[0]] + b[1..];
        }
        if x in b[1..] {
          var k :| 1 <= k < |b| && b[k] == x;
          LexLessIrreflexive(x);
          assert x in a && x != a[0];
          assert a == [a[0]] + a[1..];
        }
      }
      StrictlySortedUnique(a[1..], b[1..]);
      assert a == [a[0]] + a[1..] && b == [b[0]] + b[1..];
    }
  }

  /** The distinct elements of a list in ascending order: Python's `sorted(set(xs))`. */
  function SortedDistinct(xs: seq<string>): (r: seq<string>)
    ensures StrictlySorted(r)
    ensures forall x :: x in r <==> x in xs
  {
    if xs == [] then []
    else
      var n := |xs| - 1;
      assert xs == xs[..n] + [xs[n]];
      var s := SortedDistinct(xs[..n]);
      if xs[n] in s then s
      else
        InsertSortedProps(xs[n], s);
        InsertSorted(xs[n], s)
  }

  /**
    The elements of a set of strings in ascending order: the shape of Python's
    `sorted(xs)` on a set, and of iterating a sorted map's keys.
  */
  method SortedElements(xs: set<string>) returns (r: seq<string>)
    ensures StrictlySorted(r)
    ensures forall x :: x in r <==> x in xs
    ensures |r| == |xs|
  {
    r := [];
    var rest := xs;
    while rest != {}
      invariant rest <= xs
      invariant StrictlySorted(r)
      invariant forall x :: x in r <==> x in xs && x !in rest
      invariant |r| + |rest| == |xs|
      decreases |rest|
    {
      var x :| x in rest;
      InsertSortedProps(x, r);
      r := InsertSorted(x, r);
      rest := rest - {x};
    }
  }
}
