/**
 * The few Python string operations the scraper applies to the text it
 * extracts: `str.strip()`, the `in` substring test, `str.split(' ')[0]`,
 * `", ".join(...)` and `int(...)` on a token.
 */
module PyStr {
  import opened Wrappers

  /** The characters for which Python's `str.isspace()` holds; `strip()` removes exactly these. */
  predicate IsSpace(c: char) {
    || c == ' ' || c == '\t' || c == '\n' || c == '\r'
    || c == '\U{000B}' || c == '\U{000C}'
    || ('\U{001C}' <= c <= '\U{001F}')
    || c == '\U{0085}' || c == '\U{00A0}' || c == '\U{1680}'
    || ('\U{2000}' <= c <= '\U{200A}')
    || c == '\U{2028}' || c == '\U{2029}' || c == '\U{202F}' || c == '\U{205F}' || c == '\U{3000}'
  }

  predicate AllSpace(s: string) {
    forall k :: 0 <= k < |s| ==> IsSpace(s[k])
  }

  /** `s.lstrip()`. */
  function StripLeft(s: string): string {
    if |s| > 0 && IsSpace(s[0]) then StripLeft(s[1..]) else s
  }

  /** `s.rstrip()`. */
  function StripRight(s: string): string {
    if |s| > 0 && IsSpace(s[|s| - 1]) then StripRight(s[..|s| - 1]) else s
  }

  /** `s.strip()`. */
  function Strip(s: string): string {
    StripRight(StripLeft(s))
  }

  /** `lstrip()` leaves the suffix that follows the leading whitespace. */
  lemma {:induction false} StripLeftSuffix(s: string)
    ensures |StripLeft(s)| <= |s| && StripLeft(s) == s[|s| - |StripLeft(s)|..]
    ensures AllSpace(s[..|s| - |StripLeft(s)|])
    ensures StripLeft(s) == [] || !IsSpace(StripLeft(s)[0])
    decreases |s|
  {
    if |s| > 0 && IsSpace(s[0]) {
      StripLeftSuffix(s[1..]);
      var n := |s| - |StripLeft(s)|;
      assert s[..n] == [s[0]] + s[1..][..n - 1];
    }
  }

  /** `rstrip()` leaves the prefix that precedes the trailing whitespace. */
  lemma {:induction false} StripRightPrefix(s: string)
    ensures |StripRight(s)| <= |s| && StripRight(s) == s[..|StripRight(s)|]
    ensures AllSpace(s[|StripRight(s)|..])
    ensures StripRight(s) == [] || !IsSpace(StripRight(s)[|StripRight(s)| - 1])
    decreases |s|
  {
    if |s| > 0 && IsSpace(s[|s| - 1]) {
      var init := s[..|s| - 1];
      StripRightPrefix(init);
      var n := |StripRight(s)|;
      assert s[n..] == init[n..] + [s[|s| - 1]];
    }
  }

  /** `rstrip()` keeps every position up to the last non-whitespace character. */
  lemma {:induction false} StripRightKeeps(s: string, k: nat)
    requires k < |s| && !IsSpace(s[k])
    ensures k < |StripRight(s)|
    decreases |s|
  {
    if IsSpace(s[|s| - 1]) {
      assert k < |s| - 1;
      StripRightKeeps(s[..|s| - 1], k);
    }
  }

  /**
   * What `strip()` promises: the result is the slice `s[i..i + |r|]` with
   * only whitespace outside it, and it neither begins nor ends with whitespace.
   */
  lemma StripSlice(s: string) returns (i: nat)
    ensures i + |Strip(s)| <= |s| && Strip(s) == s[i..i + |Strip(s)|]
    ensures AllSpace(s[..i]) && AllSpace(s[i + |Strip(s)|..])
    ensures Strip(s) == [] || (!IsSpace(Strip(s)[0]) && !IsSpace(Strip(s)[|Strip(s)| - 1]))
  {
    var l := StripLeft(s);
    var r := StripRight(l);
    StripLeftSuffix(s);
    StripRightPrefix(l);
    i := |s| - |l|;
    assert s[i + |r|..] == l[|r|..];
    assert r != [] ==> r[0] == l[0];
  }

  /** The result of `strip()` is empty exactly when the text is all whitespace. */
  lemma StripEmptyIff(s: string)
    ensures Strip(s) == [] <==> AllSpace(s)
  {
    var i := StripSlice(s);
    if Strip(s) == [] {
      forall k | 0 <= k < |s| ensures IsSpace(s[k]) {
        if k < i {
          assert s[..i][k] == s[k];
        } else {
          assert s[i..][k - i] == s[k];
        }
      }
    } else {
      assert s[i] == Strip(s)[0];
    }
  }

  /** `p` is a prefix of `s`. */
  predicate StartsWith(s: string, p: string) {
    |p| <= |s| && s[..|p|] == p
  }

  /** Python's `p in s` on strings. */
  predicate Contains(s: string, p: string)
    decreases |s|
  {
    StartsWith(s, p) || (|s| > 0 && Contains(s[1..], p))
  }

  /** `p` occurs in `s` starting at position `i`. */
  predicate OccursAt(s: string, p: string, i: int) {
    0 <= i <= |s| - |p| && s[i..i + |p|] == p
  }

  /** `p in s` holds exactly when `p` occurs at some position of `s`. */
  lemma {:induction false} ContainsAt(s: string, p: string)
    ensures Contains(s, p) <==> exists i :: OccursAt(s, p, i)
    decreases |s|
  {
    if StartsWith(s, p) {
      assert OccursAt(s, p, 0);
    } else if |s| == 0 {
    } else {
      ContainsAt(s[1..], p);
      if exists i :: OccursAt(s, p, i) {
        var i :| OccursAt(s, p, i);
        assert i != 0;
        assert s[1..][i - 1..i - 1 + |p|] == s[i..i + |p|];
        assert OccursAt(s[1..], p, i - 1);
      }
      if Contains(s[1..], p) {
        var i :| OccursAt(s[1..], p, i);
        assert s[1..][i..i + |p|] == s[i + 1..i + 1 + |p|];
        assert OccursAt(s, p, i + 1);
      }
    }
  }

  /** `s.split(' ')[0]`: the text before the first space character. */
  function FirstToken(s: string): string {
    if s == [] || s[0] == ' ' then [] else [s[0]] + FirstToken(s[1..])
  }

  /** The first token is the longest prefix without a space: it ends at the first space or at the end. */
  lemma {:induction false} FirstTokenPrefix(s: string)
    ensures |FirstToken(s)| <= |s| && FirstToken(s) == s[..|FirstToken(s)|]
    ensures ' ' !in FirstToken(s)
    ensures |FirstToken(s)| == |s| || s[|FirstToken(s)|] == ' '
  {
    if s != [] && s[0] != ' ' {
      FirstTokenPrefix(s[1..]);
    }
  }

  /** `sep.join(parts)`. */
  function Join(parts: seq<string>, sep: string): string {
    if parts == [] then ""
    else if |parts| == 1 then parts[0]
    else parts[0] + sep + Join(parts[1..], sep)
  }

  predicate IsDigit(c: char) {
    '0' <= c <= '9'
  }

  predicate AllDigits(s: string) {
    forall k :: 0 <= k < |s| ==> IsDigit(s[k])
  }

  /** The value of a non-empty run of decimal digits, most significant first. */
  function DigitsValue(ds: string): nat
    requires AllDigits(ds)
  {
    if ds == [] then 0
    else 10 * DigitsValue(ds[..|ds| - 1]) + (ds[|ds| - 1] as int - '0' as int)
  }

  /**
   * `int(token)` on the integers the scraper meets: an optional sign
   * followed by one or more ASCII digits; anything else raises (None).
   */
  function ParseInt(t: string): Option<int> {
    if |t| > 0 && (t[0] == '+' || t[0] == '-') then
      var ds := t[1..];
      if ds != [] && AllDigits(ds) then
        Some(if t[0] == '-' then -(DigitsValue(ds) as int) else DigitsValue(ds))
      else None
    else if t != [] && AllDigits(t) then Some(DigitsValue(t))
    else None
  }

  /** The decimal notation of `n` (Python's `str(n)` for `n >= 0`): the reference `ParseInt` is checked against. */
  function Decimal(n: nat): (r: string)
    ensures r != [] && AllDigits(r)
  {
    if n < 10 then ['0' + n as char] else Decimal(n / 10) + ['0' + (n % 10) as char]
  }

  lemma {:induction false} DigitsOfDecimal(n: nat)
    ensures DigitsValue(Decimal(n)) == n
  {
    if n >= 10 {
      DigitsOfDecimal(n / 10);
      var d := Decimal(n);
      assert d[..|d| - 1] == Decimal(n / 10);
    }
  }

  /** `int()` reads back what `str()` writes, with or without a sign. */
  lemma ParseDecimal(n: nat)
    ensures ParseInt(Decimal(n)) == Some(n)
    ensures ParseInt("+" + Decimal(n)) == Some(n)
    ensures ParseInt("-" + Decimal(n)) == Some(-(n as int))
  {
    DigitsOfDecimal(n);
    assert ("+" + Decimal(n))[1..] == Decimal(n);
    assert ("-" + Decimal(n))[1..] == Decimal(n);
  }

  /**
   * `int()` raises on an empty token, on a lone sign, and on any token with
   * a character other than a digit after its optional leading sign.
   */
  lemma ParseIntRejects(t: string, k: nat)
    requires t == [] || t == "+" || t == "-" || (k < |t| && !IsDigit(t[k]) && !(k == 0 && (t[0] == '+' || t[0] == '-')))
    ensures ParseInt(t) == None
  {
    if t != [] && t != "+" && t != "-" && (t[0] == '+' || t[0] == '-') {
      assert t[1..][k - 1] == t[k];
    }
  }
}

/** The two kinds of Python value that end up in a course record, and Python's truthiness of them. */
module PyValue {
  datatype Value = Text(text: string) | Int(number: int)

  /** `bool(v)`: a string is true when non-empty, an integer when non-zero. */
  predicate Truthy(v: Value) {
    match v
    case Text(s) => s != ""
    case Int(n) => n != 0
  }

  /** Python's `v or fallback`. */
  function Or(v: Value, fallback: Value): Value {
    if Truthy(v) then v else fallback
  }
}
