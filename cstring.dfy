/** Bytes, NUL-terminated strings and the few C library routines the firmware leans on
    (strlen, strstr, sscanf "%u"), stated over byte sequences. */
module Bytes {

  type byte = x: int | 0 <= x < 256

  datatype Option<T> = None | Some(value: T)

  const NUL: byte := 0
  const LF: byte := 10
  const CR: byte := 13
  const QUOTE: byte := 34
  const BACKSLASH: byte := 92

  /** Largest value of a C `uint32_t` plus one. */
  const UINT32_LIMIT: nat := 0x1_0000_0000

  function Min(a: int, b: int): int { if a < b then a else b }

  /** The bytes of an ASCII string literal. */
  function Ascii(s: string): (r: seq<byte>)
    ensures |r| == |s|
    ensures forall i :: 0 <= i < |s| && s[i] as int < 256 ==> r[i] == s[i] as int
  {
    seq(|s|, i requires 0 <= i < |s| => (s[i] as int) % 256)
  }

  lemma AsciiSlice(s: string, i: nat, j: nat)
    requires i <= j <= |s|
    ensures Ascii(s)[i..j] == Ascii(s[i..j])
  {
  }

  lemma AsciiAppend(s: string, t: string)
    ensures Ascii(s + t) == Ascii(s) + Ascii(t)
  {
  }

  lemma AppendAssoc<T>(a: seq<T>, b: seq<T>, c: seq<T>)
    ensures (a + b) + c == a + (b + c)
  {
  }

  /** The byte at index i of a buffer, reading a NUL past its end. */
  function At(s: seq<byte>, i: nat): byte
  {
    if i < |s| then s[i] else NUL
  }

  predicate NoNul(s: seq<byte>)
  {
    forall i :: 0 <= i < |s| ==> s[i] != NUL
  }

  /** strlen: the index of the first NUL, or |s| when the buffer holds none. */
  function StrLen(s: seq<byte>): (n: nat)
    ensures n <= |s|
    ensures NoNul(s[..n])
    ensures n < |s| ==> s[n] == NUL
  {
    if s == [] || s[0] == NUL then 0
    else
      var m := StrLen(s[1..]);
      assert s[1..][..m] == s[1..1 + m];
      1 + m
  }

  /** The C string stored at the start of a buffer. */
  function CStr(s: seq<byte>): (r: seq<byte>)
    ensures NoNul(r) && r <= s
    ensures |r| < |s| ==> s[|r|] == NUL
  {
    s[..StrLen(s)]
  }

  /** The first NUL is the only index that qualifies as the string's length. */
  lemma {:induction false} StrLenUnique(s: seq<byte>, n: nat)
    requires n <= |s| && NoNul(s[..n])
    requires n < |s| ==> s[n] == NUL
    ensures StrLen(s) == n
  {
    if n > 0 {
      assert s[..n][0] == s[0];
      assert s[1..][..n - 1] == s[..n][1..];
      StrLenUnique(s[1..], n - 1);
    }
  }

  /** A NUL at index k bounds the string's length. */
  lemma {:induction false} StrLenBound(s: seq<byte>, k: nat)
    requires k < |s| && s[k] == NUL
    ensures StrLen(s) <= k
  {
    if k > 0 && s[0] != NUL {
      StrLenBound(s[1..], k - 1);
    }
  }

  /** The C string of a buffer is the C string of any prefix reaching a NUL. */
  lemma CStrOfPrefix(s: seq<byte>, k: nat)
    requires k < |s| && s[k] == NUL
    ensures CStr(s) == CStr(s[..k])
  {
    var m := StrLen(s);
    StrLenBound(s, k);
    assert s[..k][..m] == s[..m];
    StrLenUnique(s[..k], m);
  }

  lemma CStrOfTerminated(s: seq<byte>, t: seq<byte>)
    requires NoNul(s)
    ensures CStr(s + [NUL] + t) == s
  {
    var b := s + [NUL] + t;
    assert b[|s|] == NUL;
    assert b[..|s|] == s;
  }

  /** `needle` occurs in `hay` starting at index i. */
  predicate OccursAt<T(==)>(hay: seq<T>, needle: seq<T>, i: nat)
  {
    i + |needle| <= |hay| && hay[i..i + |needle|] == needle
  }

  /** strstr: the first index at or after `from` where `needle` occurs. */
  function FindFrom<T(==)>(hay: seq<T>, needle: seq<T>, from: nat): (r: Option<nat>)
    ensures r.Some? ==> from <= r.value && OccursAt(hay, needle, r.value)
    ensures r.Some? ==> forall j :: from <= j < r.value ==> !OccursAt(hay, needle, j)
    ensures r.None? ==> forall j :: from <= j ==> !OccursAt(hay, needle, j)
    decreases |hay| - from
  {
    if from + |needle| > |hay| then None
    else if hay[from..from + |needle|] == needle then Some(from)
    else FindFrom(hay, needle, from + 1)
  }

  function Find<T(==)>(hay: seq<T>, needle: seq<T>): (r: Option<nat>)
    ensures r.Some? ==> OccursAt(hay, needle, r.value)
    ensures r.Some? ==> forall j :: 0 <= j < r.value ==> !OccursAt(hay, needle, j)
    ensures r.None? ==> forall j :: !OccursAt(hay, needle, j)
  {
    FindFrom(hay, needle, 0)
  }

  predicate Contains<T(==)>(hay: seq<T>, needle: seq<T>)
  {
    Find(hay, needle).Some?
  }

  lemma ContainsWhenOccurs<T>(hay: seq<T>, needle: seq<T>, i: nat)
    requires OccursAt(hay, needle, i)
    ensures Contains(hay, needle)
  {
  }

  predicate IsDigit(b: byte) { 48 <= b <= 57 }

  /** isspace in the C locale. */
  predicate IsSpace(b: byte) { b == 32 || 9 <= b <= 13 }

  /** The value of a run of decimal digits. */
  function DigitsValue(d: seq<byte>): nat
    requires forall i :: 0 <= i < |d| ==> IsDigit(d[i])
  {
    if d == [] then 0
    else
      assert IsDigit(d[|d| - 1]);
      DigitsValue(d[..|d| - 1]) * 10 + (d[|d| - 1] as int - 48)
  }

  /** Number of consecutive digits starting at index i. */
  function DigitRun(s: seq<byte>, i: nat): (n: nat)
    requires i <= |s|
    ensures i + n <= |s|
    ensures forall j :: i <= j < i + n ==> IsDigit(s[j])
    ensures i + n < |s| ==> !IsDigit(s[i + n])
    decreases |s| - i
  {
    if i < |s| && IsDigit(s[i]) then 1 + DigitRun(s, i + 1) else 0
  }

  function SkipSpaces(s: seq<byte>, i: nat): (k: nat)
    requires i <= |s|
    ensures i <= k <= |s|
    ensures k < |s| ==> !IsSpace(s[k])
    decreases |s| - i
  {
    if i < |s| && IsSpace(s[i]) then SkipSpaces(s, i + 1) else i
  }

  /** sscanf(s, "%u", &v) on a 32-bit target: skip white space, take an optional sign and at
      least one digit. As in strtoul, a magnitude beyond the range saturates to 2^32 - 1
      whatever the sign, and a minus sign on an in-range magnitude negates it modulo 2^32.
      None is a matching failure, which leaves the destination untouched. */
  function ScanUnsigned(s: seq<byte>): (r: Option<nat>)
    ensures r.Some? ==> r.value < UINT32_LIMIT
  {
    var k := SkipSpaces(s, 0);
    var neg := k < |s| && s[k] == 45;
    var d := if k < |s| && (s[k] == 43 || s[k] == 45) then k + 1 else k;
    var n := DigitRun(s, d);
    if n == 0 then None
    else
      var v := DigitsValue(s[d..d + n]);
      Some(if v >= UINT32_LIMIT then UINT32_LIMIT - 1 else if neg && v > 0 then UINT32_LIMIT - v else v)
  }

  /** What "%u" reads from leading white space, an optional sign and a run of digits: the
      value itself when it fits and has no minus sign, 2^32 minus it under a minus sign, and
      2^32 - 1 when it does not fit, whatever the sign. */
  lemma {:induction false} ScanSigned(ws: seq<byte>, sign: seq<byte>, digits: seq<byte>, rest: seq<byte>)
    requires forall i :: 0 <= i < |ws| ==> IsSpace(ws[i])
    requires sign == [] || sign == [43] || sign == [45]
    requires digits != [] && forall i :: 0 <= i < |digits| ==> IsDigit(digits[i])
    requires rest == [] || !IsDigit(rest[0])
    ensures var v := DigitsValue(digits);
      ScanUnsigned(ws + sign + digits + rest)
        == Some(if v >= UINT32_LIMIT then UINT32_LIMIT - 1
                else if sign == [45] && v > 0 then UINT32_LIMIT - v
                else v)
  {
    var s := ws + sign + digits + rest;
    assert s == ws + (sign + digits + rest);
    assert (sign + digits + rest)[0] == (if sign == [] then digits[0] else sign[0]);
    SkipSpacesOver(ws, sign + digits + rest, 0);
    var d := |ws| + |sign|;
    assert s == (ws + sign) + digits + rest;
    DigitRunFrom(ws + sign, digits, rest, 0);
    assert s[d..d + |digits|] == digits;
  }

  /** Without a digit after the white space and the optional sign, "%u" matches nothing. */
  lemma ScanWithoutDigits(ws: seq<byte>, sign: seq<byte>, rest: seq<byte>)
    requires forall i :: 0 <= i < |ws| ==> IsSpace(ws[i])
    requires sign == [] || sign == [43] || sign == [45]
    requires rest == [] || (!IsDigit(rest[0]) && !IsSpace(rest[0]) && (sign == [] ==> rest[0] != 43 && rest[0] != 45))
    ensures ScanUnsigned(ws + sign + rest) == None
  {
    var s := ws + sign + rest;
    assert s == ws + (sign + rest);
    if sign + rest != [] {
      assert (sign + rest)[0] == (if sign == [] then rest[0] else sign[0]);
    }
    SkipSpacesOver(ws, sign + rest, 0);
    var d := |ws| + |sign|;
    if d < |s| {
      assert s[d] == rest[0];
    }
  }

  lemma {:induction false} SkipSpacesOver(ws: seq<byte>, t: seq<byte>, i: nat)
    requires i <= |ws|
    requires forall j :: 0 <= j < |ws| ==> IsSpace(ws[j])
    requires t == [] || !IsSpace(t[0])
    ensures SkipSpaces(ws + t, i) == |ws|
    decreases |ws| - i
  {
    if i < |ws| {
      assert (ws + t)[i] == ws[i];
      SkipSpacesOver(ws, t, i + 1);
    } else if t != [] {
      assert (ws + t)[i] == t[0];
    }
  }

  lemma {:induction false} DigitRunFrom(pre: seq<byte>, d: seq<byte>, rest: seq<byte>, j: nat)
    requires j <= |d|
    requires forall i :: 0 <= i < |d| ==> IsDigit(d[i])
    requires rest == [] || !IsDigit(rest[0])
    ensures DigitRun(pre + d + rest, |pre| + j) == |d| - j
    decreases |d| - j
  {
    var s := pre + d + rest;
    if j < |d| {
      assert s[|pre| + j] == d[j];
      DigitRunFrom(pre, d, rest, j + 1);
    } else if rest != [] {
      assert s[|pre| + j] == rest[0];
    }
  }

  /** Decimal rendering of a natural number, most significant digit first. */
  function Decimal(n: nat): (r: seq<byte>)
    ensures |r| > 0
    ensures forall i :: 0 <= i < |r| ==> IsDigit(r[i])
    ensures DigitsValue(r) == n
  {
    if n < 10 then [48 + n]
    else
      var r := Decimal(n / 10) + [48 + n % 10];
      assert r[..|r| - 1] == Decimal(n / 10);
      r
  }

  /** sscanf "%u" reads back what Decimal writes, whatever non-digit follows. */
  lemma {:induction false} ScanDecimal(n: nat, rest: seq<byte>)
    requires n < UINT32_LIMIT
    requires rest == [] || !IsDigit(rest[0])
    ensures ScanUnsigned(Decimal(n) + rest) == Some(n)
  {
    var s := Decimal(n) + rest;
    var d := Decimal(n);
    assert !IsSpace(s[0]) && s[0] != 43 && s[0] != 45;
    assert SkipSpaces(s, 0) == 0;
    DigitRunOfDigits(d, rest);
    assert s[0..|d|] == d;
  }

  lemma {:induction false} DigitRunOfDigits(d: seq<byte>, rest: seq<byte>)
    requires forall i :: 0 <= i < |d| ==> IsDigit(d[i])
    requires rest == [] || !IsDigit(rest[0])
    ensures DigitRun(d + rest, 0) == |d|
  {
    var s := d + rest;
    assert forall j :: 0 <= j < |d| ==> s[j] == d[j];
    assert |d| < |s| ==> s[|d|] == rest[0];
  }
}
