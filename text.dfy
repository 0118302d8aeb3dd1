/**
 * The string operations the challenge lifecycle relies on: JavaScript's
 * `String.prototype.trim`, the UTF-16 `length` of a string, the decimal
 * rendering of a non-negative integer in a template literal, and the
 * pipe-joined string that is hashed into a proof token.
 */
module Text {

  /** The characters `trim` removes: ECMAScript WhiteSpace (tab, vertical tab,
      form feed, space, no-break space, byte order mark and every other
      space separator) and LineTerminator (LF, CR, LS, PS). */
  predicate IsJsSpace(c: char) {
    c == '\t' || c == '\n' || c == '\U{000B}' || c == '\U{000C}' || c == '\r' ||
    c == ' ' || c == '\U{00A0}' || c == '\U{1680}' ||
    ('\U{2000}' <= c <= '\U{200A}') ||
    c == '\U{2028}' || c == '\U{2029}' || c == '\U{202F}' || c == '\U{205F}' ||
    c == '\U{3000}' || c == '\U{FEFF}'
  }

  predicate AllSpace(s: string) {
    forall k :: 0 <= k < |s| ==> IsJsSpace(s[k])
  }

  /** `trimStart`: drops the leading whitespace. */
  function TrimStart(s: string): string {
    if s != [] && IsJsSpace(s[0]) then TrimStart(s[1..]) else s
  }

  /** `trimEnd`: drops the trailing whitespace. */
  function TrimEnd(s: string): string {
    if s != [] && IsJsSpace(s[|s| - 1]) then TrimEnd(s[..|s| - 1]) else s
  }

  /** `s.trim()`. */
  function Trim(s: string): string {
    TrimEnd(TrimStart(s))
  }

  lemma {:induction false} TrimStartSpec(s: string)
    ensures |TrimStart(s)| <= |s| && TrimStart(s) == s[|s| - |TrimStart(s)|..]
    ensures AllSpace(s[..|s| - |TrimStart(s)|])
    ensures TrimStart(s) == [] || !IsJsSpace(TrimStart(s)[0])
  {
    if s != [] && IsJsSpace(s[0]) {
      TrimStartSpec(s[1..]);
    }
  }

  lemma {:induction false} TrimEndSpec(s: string)
    ensures |TrimEnd(s)| <= |s| && TrimEnd(s) == s[..|TrimEnd(s)|]
    ensures AllSpace(s[|TrimEnd(s)|..])
    ensures TrimEnd(s) == [] || !IsJsSpace(TrimEnd(s)[|TrimEnd(s)| - 1])
  {
    if s != [] && IsJsSpace(s[|s| - 1]) {
      var init := s[..|s| - 1];
      TrimEndSpec(init);
      assert s[|TrimEnd(s)|..] == init[|TrimEnd(init)|..] + [s[|s| - 1]];
    }
  }

  /** `trim` leaves the slice of `s` between its leading and its trailing
      whitespace; that slice starts and ends with a character that is not
      whitespace, or is empty. */
  lemma TrimSpec(s: string)
    ensures exists i, j ::
      0 <= i <= j <= |s| && Trim(s) == s[i..j] && AllSpace(s[..i]) && AllSpace(s[j..])
    ensures Trim(s) == [] || (!IsJsSpace(Trim(s)[0]) && !IsJsSpace(Trim(s)[|Trim(s)| - 1]))
  {
    var t := TrimStart(s);
    var r := TrimEnd(t);
    TrimStartSpec(s);
    TrimEndSpec(t);
    var i, j := |s| - |t|, |s| - |t| + |r|;
    assert r == s[i..j];
    assert s[j..] == t[|r|..];
  }

  lemma TrimStartFixed(s: string)
    requires s == [] || !IsJsSpace(s[0])
    ensures TrimStart(s) == s
  {
  }

  lemma TrimEndFixed(s: string)
    requires s == [] || !IsJsSpace(s[|s| - 1])
    ensures TrimEnd(s) == s
  {
  }

  /** Trimming twice is trimming once. */
  lemma TrimIdempotent(s: string)
    ensures Trim(Trim(s)) == Trim(s)
  {
    var r := Trim(s);
    TrimSpec(s);
    TrimStartFixed(r);
    TrimEndFixed(r);
  }

  /** `s.length` in JavaScript counts UTF-16 code units: a character outside
      the Basic Multilingual Plane is a surrogate pair and counts twice. */
  function Utf16Length(s: string): (r: nat)
    ensures |s| <= r <= 2 * |s|
    ensures r == |s| <==> forall k :: 0 <= k < |s| ==> s[k] as int < 0x1_0000
  {
    if s == [] then 0
    else Utf16Length(s[..|s| - 1]) + (if s[|s| - 1] as int < 0x1_0000 then 1 else 2)
  }

  function DigitChar(d: nat): (c: char)
    requires d < 10
    ensures '0' <= c <= '9' && (c as int) - ('0' as int) == d
  {
    (('0' as int) + d) as char
  }

  predicate AllDigits(s: string) {
    forall k :: 0 <= k < |s| ==> '0' <= s[k] <= '9'
  }

  /** `${n}` for a non-negative integer: its decimal digits, without leading zeros. */
  function DecimalString(n: nat): (r: string)
    ensures r != [] && AllDigits(r)
    ensures r[0] == '0' ==> r == "0"
  {
    if n < 10 then [DigitChar(n)] else DecimalString(n / 10) + [DigitChar(n % 10)]
  }

  /** The value of a string of decimal digits (the reference the rendering is checked against). */
  function DecimalValue(s: string): (n: nat)
    requires AllDigits(s)
  {
    if s == [] then 0 else 10 * DecimalValue(s[..|s| - 1]) + ((s[|s| - 1] as int) - ('0' as int))
  }

  /** Reading back the rendered digits gives the number rendered. */
  lemma {:induction false} DecimalRoundTrip(n: nat)
    ensures DecimalValue(DecimalString(n)) == n
  {
    var r := DecimalString(n);
    if n >= 10 {
      DecimalRoundTrip(n / 10);
      assert r[..|r| - 1] == DecimalString(n / 10);
    }
  }

  /** Distinct numbers render as distinct strings. */
  lemma DecimalInjective(m: nat, n: nat)
    requires DecimalString(m) == DecimalString(n)
    ensures m == n
  {
    DecimalRoundTrip(m);
    DecimalRoundTrip(n);
  }

  /** The string hashed into a proof token: `${id}|${resp}|${salt}|${ts}`. */
  function ProofInput(id: string, resp: string, salt: string, ts: nat): string
  {
    id + "|" + resp + "|" + salt + "|" + DecimalString(ts)
  }

  /** Two submissions that differ only in their salt hash different strings,
      so the token cannot be recomputed from the id, text and time alone. */
  lemma ProofInputSaltSensitive(id: string, resp: string, salt1: string, salt2: string, ts: nat)
    requires salt1 != salt2
    ensures ProofInput(id, resp, salt1, ts) != ProofInput(id, resp, salt2, ts)
  {
    var p := id + "|" + resp + "|";
    var q := "|" + DecimalString(ts);
    var x1, x2 := p + salt1 + q, p + salt2 + q;
    assert ProofInput(id, resp, salt1, ts) == x1;
    assert ProofInput(id, resp, salt2, ts) == x2;
    if |salt1| == |salt2| {
      assert x1[|p|..|p| + |salt1|] == salt1;
      assert x2[|p|..|p| + |salt2|] == salt2;
    } else {
      assert |x1| != |x2|;
    }
  }
}
