/** The few JavaScript value and string rules the chat application relies on:
    optional (possibly absent) values and their truthiness, String.prototype.trim,
    the `<` comparison of two strings, ASCII lower-casing, String.prototype.includes
    and the decimal rendering of a count inside a template string. */
module JsString {

  /** A value that may be absent (`undefined` or `null` in the source). */
  datatype Option<T> = None | Some(value: T)

  /** A string-valued field is truthy when it is present and not the empty string. */
  predicate Truthy(o: Option<string>) {
    o.Some? && o.value != ""
  }

  /** `o || fallback` for an optional string. */
  function Or(o: Option<string>, fallback: string): string {
    if Truthy(o) then o.value else fallback
  }

  // ---------------------------------------------------------------------------
  // String.prototype.trim

  /** The characters trim removes: ECMAScript WhiteSpace and LineTerminator. */
  predicate IsWhitespace(c: char) {
    || c == '\t' || c == '\n' || c == '\U{000B}' || c == '\U{000C}' || c == '\r'
    || c == ' ' || c == '\U{00A0}' || c == '\U{1680}'
    || ('\U{2000}' <= c <= '\U{200A}')
    || c == '\U{2028}' || c == '\U{2029}' || c == '\U{202F}' || c == '\U{205F}'
    || c == '\U{3000}' || c == '\U{FEFF}'
  }

  /** Every character of `s` is whitespace (the empty string included). */
  predicate IsBlank(s: string) {
    forall i :: 0 <= i < |s| ==> IsWhitespace(s[i])
  }

  /** Drops the leading whitespace: the result is the longest suffix of `s`
      that does not start with whitespace. */
  function TrimStart(s: string): (r: string)
    ensures |r| <= |s| && r == s[|s| - |r|..]
    ensures forall i :: 0 <= i < |s| - |r| ==> IsWhitespace(s[i])
    ensures r != [] ==> !IsWhitespace(r[0])
  {
    if s != [] && IsWhitespace(s[0]) then
      var r := TrimStart(s[1..]);
      assert forall i :: 1 <= i < |s| ==> s[i] == s[1..][i - 1];
      r
    else s
  }

  /** Drops the trailing whitespace: the result is the longest prefix of `s`
      that does not end with whitespace. */
  function TrimEnd(s: string): (r: string)
    ensures |r| <= |s| && r == s[..|r|]
    ensures forall i :: |r| <= i < |s| ==> IsWhitespace(s[i])
    ensures r != [] ==> !IsWhitespace(r[|r| - 1])
  {
    if s != [] && IsWhitespace(s[|s| - 1]) then
      var r := TrimEnd(s[..|s| - 1]);
      assert forall i :: 0 <= i < |s| - 1 ==> s[i] == s[..|s| - 1][i];
      r
    else s
  }

  /** String.prototype.trim: the result neither starts nor ends with whitespace. */
  function Trim(s: string): (r: string)
    ensures |r| <= |s|
    ensures r != [] ==> !IsWhitespace(r[0]) && !IsWhitespace(r[|r| - 1])
  {
    var t := TrimStart(s);
    var r := TrimEnd(t);
    assert r != "" ==> r[0] == s[|s| - |t|];
    r
  }

  /** `!s.trim()`: trimming leaves nothing exactly when the string is blank. */
  lemma TrimEmptyIffBlank(s: string)
    ensures Trim(s) == "" <==> IsBlank(s)
  {
    var t := TrimStart(s);
    var r := TrimEnd(t);
    assert t != [] ==> IsWhitespace(t[0]) || r != "";
    assert r != "" ==> r[0] == s[|s| - |t|];
  }

  /** Dropping `a` and then `b` elements drops `a + b`. */
  lemma DropDrop(s: string, a: nat, b: nat)
    requires a + b <= |s|
    ensures s[a..][b..] == s[a + b..]
  {
  }

  /** The first `n` elements after `a` are the slice from `a` to `a + n`. */
  lemma TakeOfDrop(s: string, a: nat, n: nat)
    requires a + n <= |s|
    ensures s[a..][..n] == s[a..a + n]
  {
  }

  /** A blank string has blank prefixes and suffixes. */
  lemma BlankSlices(s: string, n: nat)
    requires n <= |s| && (forall i :: 0 <= i < n ==> IsWhitespace(s[i]))
    ensures IsBlank(s[..n])
  {
    assert forall i :: 0 <= i < n ==> s[..n][i] == s[i];
  }

  /** What TrimStart drops is blank. */
  lemma TrimStartDropsBlank(s: string)
    ensures IsBlank(s[..|s| - |TrimStart(s)|])
  {
    BlankSlices(s, |s| - |TrimStart(s)|);
  }

  /** What TrimEnd drops is blank. */
  lemma TrimEndDropsBlank(s: string)
    ensures IsBlank(s[|TrimEnd(s)|..])
  {
    var n := |TrimEnd(s)|;
    forall i | 0 <= i < |s| - n ensures IsWhitespace(s[n..][i]) {
      assert s[n..][i] == s[n + i];
    }
  }

  /** The trimmed string is the slice of `s` that follows what TrimStart drops. */
  lemma TrimIsSlice(s: string)
    ensures var k := |s| - |TrimStart(s)|;
      k + |Trim(s)| <= |s| && Trim(s) == s[k..k + |Trim(s)|]
  {
    var t := TrimStart(s);
    var r := TrimEnd(t);
    var k := |s| - |t|;
    assert Trim(s) == r;
    assert t == s[k..];
    assert r == t[..|r|];
    TakeOfDrop(s, k, |r|);
  }

  /** What follows the trimmed string in `s` is blank. */
  lemma TrimTailBlank(s: string)
    ensures var k := |s| - |TrimStart(s)|;
      k + |Trim(s)| <= |s| && IsBlank(s[k + |Trim(s)|..])
  {
    var t := TrimStart(s);
    var r := TrimEnd(t);
    TrimEndDropsBlank(t);
    DropDrop(s, |s| - |t|, |r|);
  }

  /** Trim removes only padding: the result is the slice of `s` between a blank
      prefix and a blank suffix. */
  lemma TrimRemovesPadding(s: string)
    ensures var k := |s| - |TrimStart(s)|;
      && k + |Trim(s)| <= |s|
      && Trim(s) == s[k..k + |Trim(s)|]
      && IsBlank(s[..k])
      && IsBlank(s[k + |Trim(s)|..])
  {
    TrimIsSlice(s);
    TrimStartDropsBlank(s);
    TrimTailBlank(s);
  }

  /** Leading whitespace before a string that does not start with whitespace is
      exactly what TrimStart removes. */
  lemma {:induction false} TrimStartPadded(w: string, c: string)
    requires IsBlank(w) && (c == [] || !IsWhitespace(c[0]))
    ensures TrimStart(w + c) == c
  {
    if w != [] {
      assert (w + c)[1..] == w[1..] + c;
      TrimStartPadded(w[1..], c);
    }
  }

  /** Trailing whitespace after a string that does not end with whitespace is
      exactly what TrimEnd removes. */
  lemma {:induction false} TrimEndPadded(c: string, w: string)
    requires IsBlank(w) && (c == [] || !IsWhitespace(c[|c| - 1]))
    ensures TrimEnd(c + w) == c
    decreases |w|
  {
    if w != [] {
      assert (c + w)[..|c + w| - 1] == c + w[..|w| - 1];
      TrimEndPadded(c, w[..|w| - 1]);
    }
  }

  /** Trim removes exactly the padding: whitespace around a string that neither
      starts nor ends with whitespace is all that goes. */
  lemma TrimPadded(before: string, c: string, after: string)
    requires IsBlank(before) && IsBlank(after)
    requires c != [] && !IsWhitespace(c[0]) && !IsWhitespace(c[|c| - 1])
    ensures Trim(before + c + after) == c
  {
    assert before + c + after == before + (c + after);
    TrimStartPadded(before, c + after);
    TrimEndPadded(c, after);
  }

  /** Trimming twice is trimming once. */
  lemma TrimIdempotent(s: string)
    ensures Trim(Trim(s)) == Trim(s)
  {
    var r := Trim(s);
    assert TrimStart(r) == r;
    assert TrimEnd(r) == r;
  }

  // ---------------------------------------------------------------------------
  // The `<` comparison of two strings

  /** `a < b` on strings: lexicographic order, a proper prefix coming first. */
  predicate Less(a: string, b: string) {
    if a == [] then b != []
    else if b == [] then false
    else if a[0] != b[0] then a[0] < b[0]
    else Less(a[1..], b[1..])
  }

  lemma {:induction false} LessIrreflexive(a: string)
    ensures !Less(a, a)
  {
    if a != [] {
      LessIrreflexive(a[1..]);
    }
  }

  lemma {:induction false} LessTransitive(a: string, b: string, c: string)
    requires Less(a, b) && Less(b, c)
    ensures Less(a, c)
  {
    if a != [] && a[0] == b[0] && b[0] == c[0] {
      LessTransitive(a[1..], b[1..], c[1..]);
    }
  }

  lemma LessAsymmetric(a: string, b: string)
    ensures !(Less(a, b) && Less(b, a))
  {
    if Less(a, b) && Less(b, a) {
      LessTransitive(a, b, a);
      LessIrreflexive(a);
    }
  }

  /** Two different strings are always ordered one way or the other. */
  lemma {:induction false} LessTotal(a: string, b: string)
    ensures a == b || Less(a, b) || Less(b, a)
  {
    if a != [] && b != [] && a[0] == b[0] {
      LessTotal(a[1..], b[1..]);
      if a[1..] == b[1..] {
        assert a == [a[0]] + a[1..] && b == [b[0]] + b[1..];
      }
    }
  }

  /** "Not less" (that is, greater or equal) is transitive. */
  lemma NotLessTransitive(a: string, b: string, c: string)
    requires !Less(a, b) && !Less(b, c)
    ensures !Less(a, c)
  {
    LessTotal(a, b);
    LessTotal(b, c);
    LessIrreflexive(a);
    if Less(a, c) {
      if a == b {
        assert false;
      } else if b == c {
        assert false;
      } else {
        LessTransitive(c, b, a);
        LessTransitive(a, c, a);
        assert false;
      }
    }
  }

  // ---------------------------------------------------------------------------
  // toLowerCase and includes (over ASCII letters)

  function LowerChar(c: char): char {
    if 'A' <= c <= 'Z' then (c as int + 32) as char else c
  }

  /** String.prototype.toLowerCase, restricted to the ASCII letters. */
  function ToLower(s: string): (r: string)
    ensures |r| == |s|
    ensures forall i :: 0 <= i < |s| ==> r[i] == LowerChar(s[i])
  {
    if s == [] then [] else [LowerChar(s[0])] + ToLower(s[1..])
  }

  /** `needle` occurs in `s` starting at index `k`. */
  predicate OccursAt(s: string, needle: string, k: nat) {
    k + |needle| <= |s| && s[k..k + |needle|] == needle
  }

  /** String.prototype.includes: try every start position from left to right. */
  predicate Includes(s: string, needle: string)
    decreases |s|
  {
    (|needle| <= |s| && s[..|needle|] == needle) || (s != [] && Includes(s[1..], needle))
  }

  /** An occurrence in the tail is an occurrence one position further on. */
  lemma OccursInTail(s: string, needle: string, k: nat)
    requires s != [] && OccursAt(s[1..], needle, k)
    ensures OccursAt(s, needle, k + 1)
  {
    assert s[1..][k..k + |needle|] == s[k + 1..k + 1 + |needle|];
  }

  /** An occurrence past the first position is an occurrence in the tail. */
  lemma OccursPastHead(s: string, needle: string, k: nat)
    requires k > 0 && OccursAt(s, needle, k)
    ensures OccursAt(s[1..], needle, k - 1)
  {
    assert s[1..][k - 1..k - 1 + |needle|] == s[k..k + |needle|];
  }

  /** `includes` is true exactly when the needle occurs at some position. */
  lemma {:induction false} IncludesIffOccurs(s: string, needle: string)
    ensures Includes(s, needle) <==> exists k: nat :: OccursAt(s, needle, k)
    decreases |s|
  {
    if |needle| <= |s| && s[..|needle|] == needle {
      assert OccursAt(s, needle, 0);
    } else if s == [] {
      assert needle != [];
    } else {
      IncludesIffOccurs(s[1..], needle);
      if Includes(s[1..], needle) {
        var k: nat :| OccursAt(s[1..], needle, k);
        OccursInTail(s, needle, k);
      }
      if exists k: nat :: OccursAt(s, needle, k) {
        var k: nat :| OccursAt(s, needle, k);
        assert k != 0;
        OccursPastHead(s, needle, k);
      }
    }
  }

  /** Every string includes the empty string. */
  lemma IncludesEmpty(s: string)
    ensures Includes(s, "")
  {
    assert s[..0] == "";
  }

  // ---------------------------------------------------------------------------
  // Decimal rendering of a count, as in the template string `Session ${n}`

  function DigitChar(d: nat): (c: char)
    requires d < 10
  {
    (('0' as int) + d) as char
  }

  predicate IsDigit(c: char) {
    '0' <= c <= '9'
  }

  /** The decimal digits of `n`, most significant first, without leading zeros. */
  function NatToString(n: nat): (r: string)
    ensures r != [] && forall i :: 0 <= i < |r| ==> IsDigit(r[i])
    ensures |r| > 1 ==> r[0] != '0'
    decreases n
  {
    if n < 10 then [DigitChar(n)] else NatToString(n / 10) + [DigitChar(n % 10)]
  }

  /** The number a string of decimal digits denotes. */
  function DigitsValue(s: string): nat
    requires forall i :: 0 <= i < |s| ==> IsDigit(s[i])
  {
    if s == [] then 0
    else
      assert IsDigit(s[|s| - 1]);
      10 * DigitsValue(s[..|s| - 1]) + (s[|s| - 1] as int - '0' as int)
  }

  /** Reading back the rendered digits gives the number. */
  lemma {:induction false} NatToStringRoundTrip(n: nat)
    ensures DigitsValue(NatToString(n)) == n
    decreases n
  {
    var r := NatToString(n);
    if n >= 10 {
      NatToStringRoundTrip(n / 10);
      assert r[..|r| - 1] == NatToString(n / 10);
    }
  }

  /** Different counts render differently. */
  lemma NatToStringInjective(m: nat, n: nat)
    ensures NatToString(m) == NatToString(n) ==> m == n
  {
    NatToStringRoundTrip(m);
    NatToStringRoundTrip(n);
  }
}
