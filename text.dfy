/** String helpers used by the spreadsheet: ASCII character classes, `trim`, case mapping,
    substring search and replacement, `join`, and decimal text for numbers. */
module Text {

  import opened Types

  predicate IsUpper(c: char) { 'A' <= c <= 'Z' }
  predicate IsLower(c: char) { 'a' <= c <= 'z' }
  predicate IsDigit(c: char) { '0' <= c <= '9' }

  /** The ASCII white space that `String.prototype.trim` removes. */
  predicate IsSpace(c: char) {
    c == ' ' || c == '\t' || c == '\n' || c == '\r' || c == '\U{000B}' || c == '\U{000C}'
  }

  predicate AllSpace(s: string) { forall i :: 0 <= i < |s| ==> IsSpace(s[i]) }
  predicate AllDigits(s: string) { forall i :: 0 <= i < |s| ==> IsDigit(s[i]) }
  predicate AllUpper(s: string) { forall i :: 0 <= i < |s| ==> IsUpper(s[i]) }

  /** `String.fromCharCode(n)`: the UTF-16 code unit n mod 65536 (a lone surrogate, which a
      Dafny string cannot hold, becomes U+FFFD). */
  function CharCode(n: int): char {
    var u := n % 0x1_0000;
    if u < 0xD800 || 0xE000 <= u then u as char else '\U{FFFD}'
  }

  // ---------------------------------------------------------------- sequences

  lemma InitLast<T>(s: seq<T>)
    requires s != []
    ensures s[..|s| - 1] + [s[|s| - 1]] == s
  {
  }

  lemma AppendInit<T>(a: seq<T>, b: seq<T>)
    requires b != []
    ensures (a + b)[..|a + b| - 1] == a + b[..|b| - 1]
  {
  }

  lemma AppendAssoc<T>(x: seq<T>, y: seq<T>, z: seq<T>)
    ensures (x + y) + z == x + (y + z)
  {
  }

  lemma AppendIndexLeft<T>(a: seq<T>, b: seq<T>, i: int)
    requires 0 <= i < |a|
    ensures (a + b)[i] == a[i]
  {
  }

  lemma AppendIndexRight<T>(a: seq<T>, b: seq<T>, i: int)
    requires 0 <= i < |b|
    ensures (a + b)[|a| + i] == b[i]
  {
  }

  lemma PrefixOfPrefix<T>(s: seq<T>, j: nat)
    requires j < |s|
    ensures s[..j + 1][..j] == s[..j]
  {
  }

  lemma TakeSnoc<T>(s: seq<T>, j: nat)
    requires j < |s|
    ensures s[..j + 1] == s[..j] + [s[j]]
  {
  }

  // ---------------------------------------------------------------- trim

  /** Only white space in s[lo..hi]. */
  predicate SpaceBetween(s: string, lo: nat, hi: nat)
    requires lo <= hi <= |s|
  {
    forall k :: lo <= k < hi ==> IsSpace(s[k])
  }

  /** The first position at or after `from` that does not hold white space (or |s|). */
  function SkipSpace(s: string, from: nat): (n: nat)
    requires from <= |s|
    ensures from <= n <= |s| && SpaceBetween(s, from, n)
    ensures n == |s| || !IsSpace(s[n])
    decreases |s| - from
  {
    if from < |s| && IsSpace(s[from]) then SkipSpace(s, from + 1) else from
  }

  /** The position after the last character of s[lo..hi] that is not white space (or lo). */
  function SkipSpaceBack(s: string, lo: nat, hi: nat): (n: nat)
    requires lo <= hi <= |s|
    ensures lo <= n <= hi && SpaceBetween(s, n, hi)
    ensures n == lo || !IsSpace(s[n - 1])
    decreases hi
  {
    if lo < hi && IsSpace(s[hi - 1]) then SkipSpaceBack(s, lo, hi - 1) else hi
  }

  /** No white space at either end. */
  predicate Trimmed(s: string) {
    s == [] || (!IsSpace(s[0]) && !IsSpace(s[|s| - 1]))
  }

  /** `s.trim()`: s without its leading and trailing white space. */
  function Trim(s: string): (r: string)
    ensures Trimmed(r)
    ensures exists i :: 0 <= i <= |s| - |r| && r == s[i..i + |r|] && SpaceBetween(s, 0, i) && SpaceBetween(s, i + |r|, |s|)
  {
    var i := SkipSpace(s, 0);
    var j := SkipSpaceBack(s, i, |s|);
    assert s[i..j] == s[i..i + |s[i..j]|];
    s[i..j]
  }

  /** A string without white space at either end is its own trim. */
  lemma TrimOfTrimmed(s: string)
    requires Trimmed(s)
    ensures Trim(s) == s
  {
    assert s[0..|s|] == s;
  }

  lemma TrimIdempotent(s: string)
    ensures Trim(Trim(s)) == Trim(s)
  {
    TrimOfTrimmed(Trim(s));
  }

  /** Only white space trims to the empty string. */
  lemma TrimEmptyIffSpace(s: string)
    ensures Trim(s) == [] <==> AllSpace(s)
  {
    var i := SkipSpace(s, 0);
    var j := SkipSpaceBack(s, i, |s|);
    assert Trim(s) == s[i..j];
  }

  // ---------------------------------------------------------------- case

  function UpperChar(c: char): char { if IsLower(c) then (c as int - 32) as char else c }
  function LowerChar(c: char): char { if IsUpper(c) then (c as int + 32) as char else c }

  /** `s.toUpperCase()` on ASCII: no lower-case letter is left and the text is unchanged up to case. */
  function ToUpper(s: string): (r: string)
    ensures |r| == |s|
    ensures forall i :: 0 <= i < |r| ==> !IsLower(r[i]) && LowerChar(r[i]) == LowerChar(s[i])
  {
    seq(|s|, i requires 0 <= i < |s| => UpperChar(s[i]))
  }

  /** `s.toLowerCase()` on ASCII: no upper-case letter is left and the text is unchanged up to case. */
  function ToLower(s: string): (r: string)
    ensures |r| == |s|
    ensures forall i :: 0 <= i < |r| ==> !IsUpper(r[i]) && UpperChar(r[i]) == UpperChar(s[i])
  {
    seq(|s|, i requires 0 <= i < |s| => LowerChar(s[i]))
  }

  lemma LowerOfUpper(s: string)
    ensures ToLower(ToUpper(s)) == ToLower(s)
  {
  }

  lemma UpperOfLower(s: string)
    ensures ToUpper(ToLower(s)) == ToUpper(s)
  {
  }

  // ---------------------------------------------------------------- search and replace

  predicate OccursAt(s: string, p: string, i: nat) {
    i + |p| <= |s| && s[i..i + |p|] == p
  }

  /** `s.indexOf(p, from)`: the leftmost occurrence of p at or after `from`. */
  function IndexOf(s: string, p: string, from: nat): (r: Option<nat>)
    ensures r.Some? ==> from <= r.value && OccursAt(s, p, r.value)
    ensures r.Some? ==> forall j :: from <= j < r.value ==> !OccursAt(s, p, j)
    ensures r.None? ==> forall j :: from <= j ==> !OccursAt(s, p, j)
    decreases |s| - from
  {
    if from + |p| > |s| then None
    else if s[from..from + |p|] == p then Some(from)
    else IndexOf(s, p, from + 1)
  }

  /** `s.includes(p)`. */
  predicate Contains(s: string, p: string) {
    IndexOf(s, p, 0).Some?
  }

  lemma ContainsIff(s: string, p: string)
    ensures Contains(s, p) <==> exists i :: 0 <= i && OccursAt(s, p, i)
  {
  }

  lemma OccursAtChar(s: string, c: char, i: nat)
    ensures OccursAt(s, [c], i) <==> i < |s| && s[i] == c
  {
    if i < |s| {
      assert s[i..i + 1] == [s[i]];
    }
  }

  /** The index of a one-character pattern is the first position holding that character. */
  lemma IndexOfChar(s: string, c: char, from: nat)
    ensures IndexOf(s, [c], from).Some? <==> exists i :: from <= i < |s| && s[i] == c
    ensures IndexOf(s, [c], from).Some? ==>
      var i := IndexOf(s, [c], from).value;
      i < |s| && s[i] == c && forall j :: from <= j < i ==> s[j] != c
  {
    forall i | from <= i < |s| && s[i] == c
      ensures IndexOf(s, [c], from).Some?
    {
      OccursAtChar(s, c, i);
    }
    if IndexOf(s, [c], from).Some? {
      var i := IndexOf(s, [c], from).value;
      OccursAtChar(s, c, i);
      forall j | from <= j < i
        ensures s[j] != c
      {
        OccursAtChar(s, c, j);
      }
    }
  }

  /** `s.replace(p, rep)` with a string pattern: only the leftmost occurrence is replaced. */
  function ReplaceFirst(s: string, p: string, rep: string): string {
    match IndexOf(s, p, 0)
    case None => s
    case Some(i) => s[..i] + rep + s[i + |p|..]
  }

  /** `s.replace(new RegExp(p, 'g'), rep)` for a pattern without regular-expression syntax:
      every occurrence, scanning left to right without overlap; the empty pattern matches
      before every character and at the end. */
  function ReplaceAll(s: string, p: string, rep: string): string
    decreases |s|
  {
    if p == [] then InsertEverywhere(s, rep)
    else match IndexOf(s, p, 0)
      case None => s
      case Some(i) => s[..i] + rep + ReplaceAll(s[i + |p|..], p, rep)
  }

  function InsertEverywhere(s: string, rep: string): string {
    if s == [] then rep else rep + [s[0]] + InsertEverywhere(s[1..], rep)
  }

  /** Text without the pattern is left alone. */
  lemma ReplaceAllAbsent(s: string, p: string, rep: string)
    requires p != [] && !Contains(s, p)
    ensures ReplaceAll(s, p, rep) == s
  {
  }

  /** Replacing a non-empty pattern by itself changes nothing. */
  lemma {:induction false} ReplaceAllBySelf(s: string, p: string)
    requires p != []
    ensures ReplaceAll(s, p, p) == s
    decreases |s|
  {
    var k := IndexOf(s, p, 0);
    if k.Some? {
      var i := k.value;
      var t := s[i + |p|..];
      SplitAtOccurrence(s, p, i);
      assert ReplaceAll(s, p, p) == s[..i] + p + ReplaceAll(t, p, p);
      ReplaceAllBySelf(t, p);
    }
  }

  lemma SplitAtOccurrence(s: string, p: string, i: nat)
    requires OccursAt(s, p, i)
    ensures s == s[..i] + p + s[i + |p|..]
  {
    assert s == s[..i] + s[i..i + |p|] + s[i + |p|..];
  }

  /** `pieces.join(sep)`. */
  function Join(pieces: seq<string>, sep: string): string {
    if |pieces| == 0 then ""
    else if |pieces| == 1 then pieces[0]
    else Join(pieces[..|pieces| - 1], sep) + sep + pieces[|pieces| - 1]
  }

  // ---------------------------------------------------------------- decimal numbers

  function DigitChar(d: int): char
    requires 0 <= d < 10
  {
    (48 + d) as char
  }

  /** Decimal text of a natural number, without leading zeros. */
  function NatToString(n: nat): (r: string)
    ensures r != [] && AllDigits(r)
    ensures |r| > 1 ==> r[0] != '0'
  {
    if n < 10 then [DigitChar(n)] else NatToString(n / 10) + [DigitChar(n % 10)]
  }

  /** `parseInt(s, 10)` of a string of decimal digits. */
  function DigitsValue(s: string): nat
    requires AllDigits(s)
  {
    if s == [] then 0 else DigitsValue(s[..|s| - 1]) * 10 + (s[|s| - 1] as int - 48)
  }

  lemma {:induction false} DigitsRoundTrip(n: nat)
    ensures DigitsValue(NatToString(n)) == n
  {
    if n >= 10 {
      DigitsRoundTrip(n / 10);
      var s := NatToString(n);
      assert s[..|s| - 1] == NatToString(n / 10);
    }
  }

  lemma NatToStringInjective(m: nat, n: nat)
    requires NatToString(m) == NatToString(n)
    ensures m == n
  {
    DigitsRoundTrip(m);
    DigitsRoundTrip(n);
  }

  /** `String(i)` for an integer. */
  function IntToString(i: int): string {
    if i < 0 then "-" + NatToString(-i) else NatToString(i)
  }

  lemma IntToStringInjective(i: int, j: int)
    requires IntToString(i) == IntToString(j)
    ensures i == j
  {
    if i < 0 && j < 0 {
      assert IntToString(i)[1..] == NatToString(-i);
      assert IntToString(j)[1..] == NatToString(-j);
      NatToStringInjective(-i, -j);
    } else if i >= 0 && j >= 0 {
      NatToStringInjective(i, j);
    }
  }

  lemma NoDotInDigits(s: string)
    requires AllDigits(s)
    ensures IndexOf(s, ".", 0).None?
  {
    var k := IndexOf(s, ".", 0);
    if k.Some? {
      DotAt(s, k.value);
      assert false;
    }
  }

  lemma DotAt(s: string, p: nat)
    requires OccursAt(s, ".", p)
    ensures s[p] == '.'
  {
    assert s[p..p + 1][0] == s[p];
  }

  function Pow10(k: nat): (r: nat)
    ensures r >= 1
  {
    if k == 0 then 1 else 10 * Pow10(k - 1)
  }

  /** Unsigned decimal literal `D+`, `D+.`, `.D+` or `D+.D+`: either side of the point may
      be empty, but not both, and an empty side reads as 0. */
  predicate IsUnsigned(t: string) {
    match IndexOf(t, ".", 0)
    case None => t != [] && AllDigits(t)
    case Some(p) => (0 < p || p + 1 < |t|) && AllDigits(t[..p]) && AllDigits(t[p + 1..])
  }

  function UnsignedValue(t: string): real
    requires IsUnsigned(t)
  {
    match IndexOf(t, ".", 0)
    case None => DigitsValue(t) as real
    case Some(p) =>
      DigitsValue(t[..p]) as real + DigitsValue(t[p + 1..]) as real / Pow10(|t| - p - 1) as real
  }

  /** Text that `Number(t)` reads as a finite number: an optional sign and an unsigned literal. */
  predicate IsNumberLiteral(t: string) {
    t != [] && if t[0] == '+' || t[0] == '-' then IsUnsigned(t[1..]) else IsUnsigned(t)
  }

  function LiteralValue(t: string): real
    requires IsNumberLiteral(t)
  {
    if t[0] == '-' then -UnsignedValue(t[1..])
    else if t[0] == '+' then UnsignedValue(t[1..])
    else UnsignedValue(t)
  }

  /** `!isNaN(Number(s)) && s.trim() !== ''` for a string s. */
  predicate NumericText(s: string) {
    IsNumberLiteral(Trim(s))
  }

  /** `Number(s)` for numeric text. */
  function TextNumber(s: string): real
    requires NumericText(s)
  {
    LiteralValue(Trim(s))
  }

  /** An unsigned literal holds a digit, and nothing but digits and the point. */
  lemma UnsignedAlphabet(t: string)
    requires IsUnsigned(t)
    ensures exists i :: 0 <= i < |t| && IsDigit(t[i])
    ensures forall i :: 0 <= i < |t| ==> IsDigit(t[i]) || t[i] == '.'
  {
    match IndexOf(t, ".", 0)
    case None =>
      assert IsDigit(t[0]);
    case Some(p) =>
      if 0 < p {
        assert t[..p][0] == t[0];
      } else {
        assert t[p + 1..][0] == t[p + 1];
      }
      forall i | 0 <= i < |t| ensures IsDigit(t[i]) || t[i] == '.' {
        if i < p {
          assert t[..p][i] == t[i];
        } else if i == p {
          DotAt(t, p);
        } else {
          assert t[p + 1..][i - p - 1] == t[i];
        }
      }
  }

  /** A literal that `Number` reads holds a digit, and nothing but digits, the point and a
      leading sign. */
  lemma NumberLiteralAlphabet(t: string)
    requires IsNumberLiteral(t)
    ensures exists i :: 0 <= i < |t| && IsDigit(t[i])
    ensures forall i :: 0 <= i < |t| ==> IsDigit(t[i]) || t[i] == '.' || t[i] == '+' || t[i] == '-'
  {
    if t[0] == '+' || t[0] == '-' {
      var u := t[1..];
      UnsignedAlphabet(u);
      var k :| 0 <= k < |u| && IsDigit(u[k]);
      assert t[k + 1] == u[k];
      forall i | 1 <= i < |t| ensures IsDigit(t[i]) || t[i] == '.' {
        assert t[i] == u[i - 1];
      }
    } else {
      UnsignedAlphabet(t);
    }
  }

  /** The first point of `a.b`, for a digit run a, is the one after a. */
  lemma PointAfterDigits(a: string, b: string)
    requires AllDigits(a)
    ensures IndexOf(a + "." + b, ".", 0) == Some(|a|)
  {
    var t := a + "." + b;
    assert t[|a|..|a| + 1] == ".";
    forall j | 0 <= j < |a| ensures !OccursAt(t, ".", j) {
      assert t[j] == a[j];
      assert t[j..j + 1][0] == t[j];
    }
    var r := IndexOf(t, ".", 0);
    assert OccursAt(t, ".", |a|);
    assert r.Some? && !(r.value > |a|);
  }

  /** `a.b`, with digit runs a and b not both empty, has no blank at either end. */
  lemma DecimalTrimmed(a: string, b: string)
    requires AllDigits(a) && AllDigits(b)
    ensures Trim(a + "." + b) == a + "." + b
  {
    var t := a + "." + b;
    assert t[0] == (if a != [] then a[0] else '.');
    assert t[|t| - 1] == (if b != [] then b[|b| - 1] else '.');
    TrimOfTrimmed(t);
  }

  /** `a.b`, with digit runs a and b not both empty, is an unsigned literal worth
      a + b / 10^|b|. */
  lemma DecimalUnsigned(a: string, b: string)
    requires AllDigits(a) && AllDigits(b) && (a != [] || b != [])
    ensures IsUnsigned(a + "." + b)
    ensures UnsignedValue(a + "." + b) == DigitsValue(a) as real + DigitsValue(b) as real / Pow10(|b|) as real
  {
    var t := a + "." + b;
    PointAfterDigits(a, b);
    PartsOfDecimal(a, b);
    UnsignedAtPoint(t, |a|, a, b);
  }

  lemma PartsOfDecimal(a: string, b: string)
    ensures (a + "." + b)[..|a|] == a && (a + "." + b)[|a| + 1..] == b
  {
  }

  /** The literal's parts around its first point. */
  lemma UnsignedAtPoint(t: string, p: nat, a: string, b: string)
    requires IndexOf(t, ".", 0) == Some(p) && p < |t|
    requires t[..p] == a && t[p + 1..] == b
    requires (a != [] || b != []) && AllDigits(a) && AllDigits(b)
    ensures IsUnsigned(t)
    ensures UnsignedValue(t) == DigitsValue(a) as real + DigitsValue(b) as real / Pow10(|b|) as real
  {
    assert |t| - p - 1 == |b|;
  }

  /** `a.b`, with digit runs a and b not both empty, is numeric and reads as a + b / 10^|b|:
      so ".5" is 0.5 and "5." is 5. */
  lemma DecimalTextValue(a: string, b: string)
    requires AllDigits(a) && AllDigits(b) && (a != [] || b != [])
    ensures NumericText(a + "." + b)
    ensures TextNumber(a + "." + b) == DigitsValue(a) as real + DigitsValue(b) as real / Pow10(|b|) as real
  {
    var t := a + "." + b;
    DecimalTrimmed(a, b);
    DecimalUnsigned(a, b);
    assert t[0] == (if a != [] then a[0] else '.');
  }

  /** White space alone is not a number (although `Number('  ')` is 0). */
  lemma BlankIsNotNumeric(s: string)
    requires AllSpace(s)
    ensures !NumericText(s)
  {
    TrimEmptyIffSpace(s);
  }

  /** The decimal text of an integer reads back as that integer. */
  lemma IntTextIsNumeric(i: int)
    ensures NumericText(IntToString(i)) && TextNumber(IntToString(i)) == i as real
  {
    var t := IntToString(i);
    var u := NatToString(if i < 0 then -i else i);
    TrimOfTrimmed(t);
    NoDotInDigits(u);
    DigitsRoundTrip(if i < 0 then -i else i);
    if i < 0 {
      assert t[1..] == u;
    } else {
      assert t == u;
    }
  }

  // ---------------------------------------------------------------- numbers as text

  /** Digits of a fraction 0 <= f < 1, truncated to k places. */
  function FractionDigits(f: real, k: nat): string
    requires 0.0 <= f < 1.0
    decreases k
  {
    if k == 0 then []
    else
      var d := (f * 10.0).Floor;
      [DigitChar(d)] + FractionDigits(f * 10.0 - d as real, k - 1)
  }

  function DropTrailingZeros(s: string): string {
    if s != [] && s[|s| - 1] == '0' then DropTrailingZeros(s[..|s| - 1]) else s
  }

  function UnsignedText(x: real): string
    requires x >= 0.0
  {
    var n := x.Floor;
    if n as real == x then NatToString(n)
    else
      var f := DropTrailingZeros(FractionDigits(x - n as real, 15));
      NatToString(n) + "." + (if f == [] then "0" else f)
  }

  /** `String(x)` for a number: an integer prints as its decimal digits, which is JavaScript's
      text below 1e21 in size (JavaScript switches to exponent form there); a non-integer
      keeps 15 fractional digits. */
  function NumberText(x: real): string {
    if x < 0.0 then "-" + UnsignedText(-x) else UnsignedText(x)
  }

  lemma NumberTextOfInt(i: int)
    ensures NumberText(i as real) == IntToString(i)
  {
    if i < 0 {
      assert (-(i as real)) == (-i) as real;
      assert ((-i) as real).Floor == -i;
    } else {
      assert (i as real).Floor == i;
    }
  }
}
