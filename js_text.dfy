/**
 * The JavaScript string built-ins the two scripts rely on: the regular
 * expression class `\w`, `toUpperCase`/`toLowerCase` (restricted to ASCII),
 * `String.prototype.includes` and `parseInt(s, 10)`.
 */
module JsText {

  /** The regular-expression class `\w`: `[A-Za-z0-9_]`. */
  predicate IsWordChar(c: char) {
    ('a' <= c <= 'z') || ('A' <= c <= 'Z') || ('0' <= c <= '9') || c == '_'
  }

  predicate IsDigit(c: char) {
    '0' <= c <= '9'
  }

  /** `toUpperCase` on one ASCII character. */
  function UpperChar(c: char): (u: char)
    ensures 'a' <= c <= 'z' ==> 'A' <= u <= 'Z' && u as int == c as int - 32
    ensures !('a' <= c <= 'z') ==> u == c
  {
    if 'a' <= c <= 'z' then (c as int - 32) as char else c
  }

  /** `toLowerCase` on one ASCII character. */
  function LowerChar(c: char): (l: char)
    ensures 'A' <= c <= 'Z' ==> 'a' <= l <= 'z' && l as int == c as int + 32
    ensures !('A' <= c <= 'Z') ==> l == c
  {
    if 'A' <= c <= 'Z' then (c as int + 32) as char else c
  }

  /** `s.toLowerCase()` for ASCII text. */
  function Lower(s: string): (r: string)
    ensures |r| == |s|
    ensures forall i :: 0 <= i < |s| ==> r[i] == LowerChar(s[i])
  {
    seq(|s|, i requires 0 <= i < |s| => LowerChar(s[i]))
  }

  /** Lower-cased text has no upper-case letter left. */
  lemma LowerHasNoUpper(s: string)
    ensures forall i :: 0 <= i < |Lower(s)| ==> !('A' <= Lower(s)[i] <= 'Z')
  {
  }

  /** Lower-casing lower-cased text changes nothing. */
  lemma LowerIdempotent(s: string)
    ensures Lower(Lower(s)) == Lower(s)
  {
    LowerHasNoUpper(s);
  }

  /** `s.includes(sub)`: `sub` occurs in `s` as a contiguous piece. */
  predicate Contains(s: string, sub: string)
    decreases |s|
  {
    sub <= s || (s != [] && Contains(s[1..], sub))
  }

  /** `sub` occurs in `s` starting at offset `i`. */
  predicate OccursAt(s: string, sub: string, i: int) {
    0 <= i <= |s| - |sub| && s[i..i + |sub|] == sub
  }

  /** `Contains` finds exactly the offsets at which `sub` occurs. */
  lemma {:induction false} ContainsIffOccurs(s: string, sub: string)
    ensures Contains(s, sub) <==> exists i :: OccursAt(s, sub, i)
    decreases |s|
  {
    if sub <= s {
      assert OccursAt(s, sub, 0);
    } else if s == [] {
    } else {
      ContainsIffOccurs(s[1..], sub);
      if Contains(s[1..], sub) {
        var j :| OccursAt(s[1..], sub, j);
        assert s[j + 1..j + 1 + |sub|] == s[1..][j..j + |sub|];
        assert OccursAt(s, sub, j + 1);
      }
      if i :| OccursAt(s, sub, i) {
        assert i != 0;
        assert s[1..][i - 1..i - 1 + |sub|] == s[i..i + |sub|];
        assert OccursAt(s[1..], sub, i - 1);
      }
    }
  }

  /** A string that contains a non-empty piece is itself non-empty. */
  lemma ContainsNonEmpty(s: string, sub: string)
    requires Contains(s, sub) && sub != []
    ensures s != []
  {
    ContainsIffOccurs(s, sub);
  }

  // ---------------------------------------------------------------------
  // parseInt(s, 10)
  // ---------------------------------------------------------------------

  /** The characters `parseInt` skips at the start (WhiteSpace and LineTerminator). */
  predicate IsJsWhiteSpace(c: char) {
    c == '\t' || c == '\n' || c == '\U{000B}' || c == '\U{000C}' || c == '\r' || c == ' '
    || c == '\U{00A0}' || c == '\U{1680}' || ('\U{2000}' <= c <= '\U{200A}')
    || c == '\U{2028}' || c == '\U{2029}' || c == '\U{202F}' || c == '\U{205F}'
    || c == '\U{3000}' || c == '\U{FEFF}'
  }

  /** Every character of `ws` is white space in the sense of `parseInt`. */
  predicate AllWhiteSpace(ws: string) {
    ws == [] || (IsJsWhiteSpace(ws[0]) && AllWhiteSpace(ws[1..]))
  }

  /** The result of `parseInt`: a number or `NaN`. */
  datatype Number = NaN | Num(value: int)

  /** Skips the white space `parseInt` ignores before the number. */
  function TrimStart(s: string): (r: string)
    ensures |r| <= |s|
    ensures r == [] || !IsJsWhiteSpace(r[0])
  {
    if s != [] && IsJsWhiteSpace(s[0]) then TrimStart(s[1..]) else s
  }

  /**
   * What is skipped is white space and nothing else: the result is the
   * suffix of `s` left after a run of white space.
   */
  lemma {:induction false} TrimStartDropsWhiteSpace(s: string)
    ensures TrimStart(s) == s[|s| - |TrimStart(s)|..]
    ensures AllWhiteSpace(s[..|s| - |TrimStart(s)|])
    decreases |s|
  {
    if s != [] && IsJsWhiteSpace(s[0]) {
      var t := s[1..];
      TrimStartDropsWhiteSpace(t);
      var k := |t| - |TrimStart(t)|;
      assert s[|s| - |TrimStart(s)|..] == t[k..];
      assert s[..|s| - |TrimStart(s)|] == [s[0]] + t[..k];
      assert ([s[0]] + t[..k])[1..] == t[..k];
    } else {
      assert s[..0] == [];
    }
  }

  function DigitValue(c: char): nat {
    if IsDigit(c) then c as int - '0' as int else 0
  }

  /** The value of the decimal digits `ds` read after digits worth `acc`. */
  function DigitsValueFrom(acc: nat, ds: string): nat
    decreases ds
  {
    if ds == [] then acc else DigitsValueFrom(acc * 10 + DigitValue(ds[0]), ds[1..])
  }

  /** The value of a string of decimal digits, most significant first. */
  function DigitsValue(ds: string): nat {
    DigitsValueFrom(0, ds)
  }

  /**
   * Reads the leading run of decimal digits of `u` on top of `acc` (the value
   * read so far, `NaN` while no digit has been read).
   */
  function ScanDigits(u: string, acc: Number): Number
    decreases u
  {
    if u != [] && IsDigit(u[0]) then
      ScanDigits(u[1..], Num(if acc.Num? then acc.value * 10 + DigitValue(u[0]) else DigitValue(u[0])))
    else acc
  }

  /**
   * `parseInt(s, 10)`: skip leading white space, accept one optional sign,
   * take the longest run of decimal digits; no digits gives `NaN`.
   */
  function ParseInt(s: string): Number {
    ParseSigned(TrimStart(s))
  }

  /** `parseInt` once the leading white space is gone. */
  function ParseSigned(t: string): Number {
    if t != [] && t[0] == '-' then Negate(ScanDigits(t[1..], NaN))
    else if t != [] && t[0] == '+' then ScanDigits(t[1..], NaN)
    else ScanDigits(t, NaN)
  }

  function Negate(n: Number): Number {
    match n
    case NaN => NaN
    case Num(v) => Num(-v)
  }

  /** Decimal rendering of a natural number, the inverse of `DigitsValue`. */
  function FormatNat(n: nat): (ds: string)
    ensures ds != []
    ensures forall i :: 0 <= i < |ds| ==> IsDigit(ds[i])
  {
    if n < 10 then [('0' as int + n) as char]
    else FormatNat(n / 10) + [('0' as int + n % 10) as char]
  }

  /** Reading one more digit multiplies by ten and adds the digit. */
  lemma {:induction false} DigitsValueSnoc(acc: nat, ds: string, d: char)
    ensures DigitsValueFrom(acc, ds + [d]) == DigitsValueFrom(acc, ds) * 10 + DigitValue(d)
    decreases ds
  {
    if ds != [] {
      assert (ds + [d])[1..] == ds[1..] + [d];
      DigitsValueSnoc(acc * 10 + DigitValue(ds[0]), ds[1..], d);
    }
  }

  lemma {:induction false} DigitsValueOfFormat(n: nat)
    ensures DigitsValue(FormatNat(n)) == n
  {
    if n < 10 {
      var c := ('0' as int + n) as char;
      assert FormatNat(n) == [c] && DigitValue(c) == n;
      assert DigitsValueFrom(0, [c]) == DigitsValueFrom(DigitValue(c), []);
    } else {
      var d := ('0' as int + n % 10) as char;
      assert FormatNat(n) == FormatNat(n / 10) + [d];
      assert DigitValue(d) == n % 10;
      DigitsValueOfFormat(n / 10);
      DigitsValueSnoc(0, FormatNat(n / 10), d);
    }
  }

  lemma {:induction false} TrimStartSkips(ws: string, rest: string)
    requires AllWhiteSpace(ws)
    requires rest == [] || !IsJsWhiteSpace(rest[0])
    ensures TrimStart(ws + rest) == rest
    decreases |ws|
  {
    if ws != [] {
      assert (ws + rest)[1..] == ws[1..] + rest;
      TrimStartSkips(ws[1..], rest);
    }
  }

  lemma {:induction false} ScanRun(ds: string, rest: string, acc: nat)
    requires forall i :: 0 <= i < |ds| ==> IsDigit(ds[i])
    requires rest == [] || !IsDigit(rest[0])
    ensures ScanDigits(ds + rest, Num(acc)) == Num(DigitsValueFrom(acc, ds))
    decreases |ds|
  {
    if ds != [] {
      assert (ds + rest)[1..] == ds[1..] + rest;
      ScanRun(ds[1..], rest, acc * 10 + DigitValue(ds[0]));
    }
  }

  /** A run of digits ended by a non-digit scans to the value of the run. */
  lemma ScanFirst(ds: string, rest: string)
    requires ds != [] && forall i :: 0 <= i < |ds| ==> IsDigit(ds[i])
    requires rest == [] || !IsDigit(rest[0])
    ensures ScanDigits(ds + rest, NaN) == Num(DigitsValue(ds))
  {
    assert (ds + rest)[1..] == ds[1..] + rest;
    ScanRun(ds[1..], rest, DigitValue(ds[0]));
  }

  lemma ParseSignedDigits(sign: string, ds: string, rest: string)
    requires sign == "" || sign == "+" || sign == "-"
    requires ds != [] && forall i :: 0 <= i < |ds| ==> IsDigit(ds[i])
    requires rest == [] || !IsDigit(rest[0])
    ensures ParseSigned(sign + ds + rest) == Num(if sign == "-" then -(DigitsValue(ds) as int) else DigitsValue(ds))
  {
    var u := ds + rest;
    ScanFirst(ds, rest);
    assert sign + ds + rest == sign + u;
    if sign == "" {
      assert sign + u == u;
      assert IsDigit(u[0]);
    } else {
      assert (sign + u)[1..] == u;
    }
  }

  /**
   * White space, an optional sign, then a non-empty run of digits that is not
   * followed by another digit: `parseInt` returns the signed value of the run.
   */
  lemma ParseIntDigits(ws: string, sign: string, ds: string, rest: string)
    requires AllWhiteSpace(ws)
    requires sign == "" || sign == "+" || sign == "-"
    requires ds != [] && forall i :: 0 <= i < |ds| ==> IsDigit(ds[i])
    requires rest == [] || !IsDigit(rest[0])
    ensures ParseInt(ws + sign + ds + rest) == Num(if sign == "-" then -(DigitsValue(ds) as int) else DigitsValue(ds))
  {
    var t := sign + ds + rest;
    assert ws + sign + ds + rest == ws + t;
    assert !IsJsWhiteSpace(t[0]);
    TrimStartSkips(ws, t);
    ParseSignedDigits(sign, ds, rest);
  }

  /**
   * White space, an optional sign, then anything that does not start with a
   * digit (nor, without a sign, with more white space or a sign): `parseInt`
   * is `NaN`.
   */
  lemma ParseIntNoDigits(ws: string, sign: string, rest: string)
    requires AllWhiteSpace(ws)
    requires sign == "" || sign == "+" || sign == "-"
    requires rest == [] || !IsDigit(rest[0])
    requires sign == "" ==> rest == [] || (!IsJsWhiteSpace(rest[0]) && rest[0] != '+' && rest[0] != '-')
    ensures ParseInt(ws + sign + rest) == NaN
  {
    var t := sign + rest;
    assert ws + sign + rest == ws + t;
    TrimStartSkips(ws, t);
    if sign != "" {
      assert t[1..] == rest;
    } else {
      assert t == rest;
    }
  }

  /** Rendering a natural number and parsing it back gives the number again. */
  lemma ParseIntFormat(n: nat, rest: string)
    requires rest == [] || !IsDigit(rest[0])
    ensures ParseInt(FormatNat(n) + rest) == Num(n)
    ensures ParseInt("-" + FormatNat(n) + rest) == Num(-(n as int))
  {
    var ds := FormatNat(n);
    DigitsValueOfFormat(n);
    ParseIntDigits("", "", ds, rest);
    assert "" + "" + ds + rest == ds + rest;
    ParseIntDigits("", "-", ds, rest);
    assert "" + "-" + ds + rest == "-" + ds + rest;
  }
}
