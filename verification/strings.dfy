/**
 * The JavaScript string operations the commands rely on: `trim`, `split` on a
 * one-character separator, `join`, replacing the first occurrence of a
 * substring, and the canonical decimal numerals that name array and string
 * indices.
 */
module Strings {
  import opened Wrappers

  /** The code points `String.prototype.trim` removes: the WhiteSpace and
      LineTerminator characters of ECMA-262. */
  predicate IsSpace(c: char) {
    || c == ' ' || c == '\t' || c == '\n' || c == '\r'
    || c == '\U{000B}' || c == '\U{000C}' || c == '\U{00A0}' || c == '\U{FEFF}'
    || c == '\U{1680}' || ('\U{2000}' <= c <= '\U{200A}')
    || c == '\U{2028}' || c == '\U{2029}' || c == '\U{202F}' || c == '\U{205F}'
    || c == '\U{3000}'
  }

  predicate AllSpace(s: string) {
    forall i :: 0 <= i < |s| ==> IsSpace(s[i])
  }

  /** Drops the leading white space. */
  function TrimStart(s: string): (r: string)
    ensures |r| <= |s| && r == s[|s| - |r|..]
    ensures AllSpace(s[..|s| - |r|])
    ensures |r| > 0 ==> !IsSpace(r[0])
  {
    if |s| > 0 && IsSpace(s[0]) then TrimStart(s[1..]) else s
  }

  /** Drops the trailing white space. */
  function TrimEnd(s: string): (r: string)
    ensures |r| <= |s| && r == s[..|r|]
    ensures AllSpace(s[|r|..])
    ensures |r| > 0 ==> !IsSpace(r[|r| - 1])
  {
    if |s| > 0 && IsSpace(s[|s| - 1]) then TrimEnd(s[..|s| - 1]) else s
  }

  /** `String.prototype.trim`: drops the white space at both ends; the
      result is empty exactly when the input is all white space. */
  function Trim(s: string): (r: string)
    ensures |r| <= |s|
    ensures |r| > 0 ==> !IsSpace(r[0]) && !IsSpace(r[|r| - 1])
    ensures r == "" <==> AllSpace(s)
  {
    var t := TrimStart(s);
    var r := TrimEnd(t);
    TrimmedBlank(s, t, r);
    r
  }

  /** What `Trim` keeps is an infix of its input, and what it cuts at either
      end is white space. */
  lemma TrimCutsSpace(s: string)
    ensures exists i, j :: 0 <= i <= j <= |s| && Trim(s) == s[i..j] && AllSpace(s[..i]) && AllSpace(s[j..])
  {
    var t := TrimStart(s);
    TrimmedInfix(s, t, TrimEnd(t));
  }

  lemma TrimmedInfix(s: string, t: string, r: string)
    requires |t| <= |s| && t == s[|s| - |t|..] && AllSpace(s[..|s| - |t|])
    requires |r| <= |t| && r == t[..|r|] && AllSpace(t[|r|..])
    ensures exists i, j :: 0 <= i <= j <= |s| && r == s[i..j] && AllSpace(s[..i]) && AllSpace(s[j..])
  {
    var i := |s| - |t|;
    var j := i + |r|;
    forall k | 0 <= k < |r|
      ensures r[k] == s[i + k]
    {
      assert r[k] == t[k];
      assert t[k] == s[i + k];
    }
    assert r == s[i..j];
    forall k | j <= k < |s|
      ensures IsSpace(s[k])
    {
      var m := k - i;
      assert |r| <= m < |t|;
      assert t[m] == s[k];
      assert t[|r|..][m - |r|] == t[m];
    }
    assert AllSpace(s[j..]);
  }

  lemma TrimmedBlank(s: string, t: string, r: string)
    requires t == TrimStart(s) && r == TrimEnd(t)
    ensures r == "" <==> AllSpace(s)
  {
    var i := |s| - |t|;
    assert t == s[i..];
    if r == "" {
      assert t[|r|..] == t;
      assert t == "";
      forall k | 0 <= k < |s|
        ensures IsSpace(s[k])
      {
        assert s[..i][k] == s[k];
      }
    } else {
      assert r[0] == t[0] == s[i];
    }
  }

  /** `.map(s => s.trim())`. */
  function TrimAll(parts: seq<string>): (r: seq<string>)
    ensures |r| == |parts|
    ensures forall i :: 0 <= i < |parts| ==> r[i] == Trim(parts[i])
  {
    seq(|parts|, i requires 0 <= i < |parts| => Trim(parts[i]))
  }

  lemma {:induction false} TrimStartSkipsSpace(c: char, s: string)
    requires IsSpace(c)
    ensures TrimStart([c] + s) == TrimStart(s)
  {
    assert ([c] + s)[1..] == s;
  }

  /** A leading blank (such as the one `join(', ')` leaves after a comma)
      does not survive trimming. */
  lemma {:induction false} TrimSkipsLeadingSpace(c: char, s: string)
    requires IsSpace(c)
    ensures Trim([c] + s) == Trim(s)
  {
    TrimStartSkipsSpace(c, s);
  }

  lemma TrimIdempotent(s: string)
    ensures Trim(Trim(s)) == Trim(s)
  {
    var r := Trim(s);
    if |r| > 0 {
      assert TrimStart(r) == r;
      assert TrimEnd(r) == r;
    }
  }

  /** The position of the first `c` in `s`, if any. */
  function IndexOfChar(s: string, c: char): (r: Option<nat>)
    ensures r.Some? ==> r.value < |s| && s[r.value] == c && c !in s[..r.value]
    ensures r.None? ==> c !in s
  {
    if |s| == 0 then None
    else if s[0] == c then Some(0)
    else match IndexOfChar(s[1..], c)
      case None => None
      case Some(i) =>
        assert s[..i + 1] == [s[0]] + s[1..][..i];
        Some(i + 1)
  }

  lemma {:induction false} FirstSeparator(s: string, c: char, k: nat)
    requires k < |s| && s[k] == c && c !in s[..k]
    ensures IndexOfChar(s, c) == Some(k)
    decreases k
  {
    if k > 0 {
      assert s[0] == s[..k][0];
      assert s[1..][..k - 1] == s[..k][1..];
      FirstSeparator(s[1..], c, k - 1);
    }
  }

  /** `parts.join(sep)`. */
  function Join(parts: seq<string>, sep: string): string
  {
    if |parts| == 0 then ""
    else if |parts| == 1 then parts[0]
    else parts[0] + sep + Join(parts[1..], sep)
  }

  /** `s.split(sep)` for a one-character separator: the pieces between the
      separators, empty pieces included; joining them back gives `s`. */
  function Split(s: string, sep: char): (r: seq<string>)
    ensures |r| >= 1
    ensures forall i :: 0 <= i < |r| ==> sep !in r[i]
    ensures Join(r, [sep]) == s
    decreases |s|
  {
    match IndexOfChar(s, sep)
    case None => [s]
    case Some(i) =>
      var rest := Split(s[i + 1..], sep);
      var r := [s[..i]] + rest;
      assert r[1..] == rest;
      assert s == s[..i] + [sep] + s[i + 1..];
      r
  }

  /** Splitting undoes joining when no piece holds the separator. */
  lemma {:induction false} SplitJoin(parts: seq<string>, sep: char)
    requires |parts| >= 1
    requires forall i :: 0 <= i < |parts| ==> sep !in parts[i]
    ensures Split(Join(parts, [sep]), sep) == parts
    decreases |parts|
  {
    if |parts| > 1 {
      var rest := Join(parts[1..], [sep]);
      var s := parts[0] + [sep] + rest;
      assert Join(parts, [sep]) == s;
      var k := |parts[0]|;
      assert s[k] == sep;
      assert s[..k] == parts[0];
      FirstSeparator(s, sep, k);
      assert s[k + 1..] == rest;
      SplitJoin(parts[1..], sep);
      assert [parts[0]] + parts[1..] == parts;
    } else {
      assert Join(parts, [sep]) == parts[0];
    }
  }

  /** `", " + d` for every piece after the first. */
  function SpaceAfterComma(parts: seq<string>): (r: seq<string>)
    requires |parts| >= 1
    ensures |r| == |parts| && r[0] == parts[0]
    ensures forall i :: 1 <= i < |parts| ==> r[i] == [' '] + parts[i]
  {
    [parts[0]] + seq(|parts| - 1, i requires 0 <= i < |parts| - 1 => [' '] + parts[i + 1])
  }

  lemma {:induction false} JoinCommaSpace(parts: seq<string>)
    requires |parts| >= 1
    ensures Join(parts, ", ") == Join(SpaceAfterComma(parts), [','])
    decreases |parts|
  {
    if |parts| > 1 {
      JoinCommaSpace(parts[1..]);
      var a := SpaceAfterComma(parts);
      var b := SpaceAfterComma(parts[1..]);
      assert Join(a, [',']) == a[0] + [','] + Join(a[1..], [',']);
      // a[1..] differs from b only in the space in front of its head
      assert Join(a[1..], [',']) == [' '] + Join(b, [',']) by {
        JoinConsSpace(a[1..], b);
      }
    }
  }

  lemma {:induction false} JoinConsSpace(a: seq<string>, b: seq<string>)
    requires |a| == |b| >= 1
    requires a[0] == [' '] + b[0]
    requires a[1..] == b[1..]
    ensures Join(a, [',']) == [' '] + Join(b, [','])
  {
    if |a| > 1 {
      assert Join(a, [',']) == a[0] + [','] + Join(a[1..], [',']);
      assert Join(b, [',']) == b[0] + [','] + Join(b[1..], [',']);
    }
  }

  /** Splitting `parts.join(', ')` on commas and trimming each piece gives the
      trimmed parts back, when no part holds a comma. */
  lemma SplitJoinedTrimmed(parts: seq<string>)
    requires |parts| >= 1
    requires forall i :: 0 <= i < |parts| ==> ',' !in parts[i]
    ensures TrimAll(Split(Join(parts, ", "), ',')) == TrimAll(parts)
  {
    var spaced := SpaceAfterComma(parts);
    JoinCommaSpace(parts);
    assert Split(Join(spaced, [',']), ',') == spaced by {
      forall i | 0 <= i < |spaced|
        ensures ',' !in spaced[i]
      {
        if i > 0 {
          assert spaced[i] == [' '] + parts[i];
        }
      }
      SplitJoin(spaced, ',');
    }
    SpacedTrimmed(parts);
  }

  /** The space after each comma is trimmed away again. */
  lemma SpacedTrimmed(parts: seq<string>)
    requires |parts| >= 1
    ensures TrimAll(SpaceAfterComma(parts)) == TrimAll(parts)
  {
    var a := TrimAll(SpaceAfterComma(parts));
    var b := TrimAll(parts);
    forall i | 0 <= i < |parts|
      ensures a[i] == b[i]
    {
      SpacedPartTrimmed(parts, i);
    }
    assert a == b;
  }

  lemma SpacedPartTrimmed(parts: seq<string>, i: nat)
    requires i < |parts|
    ensures Trim(SpaceAfterComma(parts)[i]) == Trim(parts[i])
  {
    if i > 0 {
      TrimSkipsLeadingSpace(' ', parts[i]);
    }
  }

  /** `pat` occurs in `s` at position `i`. */
  predicate OccursAt(s: string, pat: string, i: nat) {
    i + |pat| <= |s| && s[i..i + |pat|] == pat
  }

  /** `i` is the leftmost occurrence of `pat` in `s`. */
  predicate IsFirstOccurrence(s: string, pat: string, i: nat) {
    OccursAt(s, pat, i) && forall j: nat :: j < i ==> !OccursAt(s, pat, j)
  }

  /** The leftmost occurrence of `pat` in `s` at or after `from`. */
  function IndexOf(s: string, pat: string, from: nat): (r: Option<nat>)
    ensures r.Some? ==> from <= r.value && OccursAt(s, pat, r.value)
    ensures r.Some? ==> forall j: nat :: from <= j < r.value ==> !OccursAt(s, pat, j)
    ensures r.None? ==> forall j: nat :: from <= j ==> !OccursAt(s, pat, j)
    decreases |s| - from
  {
    if from + |pat| > |s| then None
    else if s[from..from + |pat|] == pat then Some(from)
    else IndexOf(s, pat, from + 1)
  }

  /** `s.replace(pat, rep)` with a string pattern: only the leftmost
      occurrence is replaced, and `s` is returned as is when there is none. */
  function ReplaceFirst(s: string, pat: string, rep: string): (r: string)
    ensures (forall j: nat :: !OccursAt(s, pat, j)) ==> r == s
    ensures forall i: nat :: IsFirstOccurrence(s, pat, i) ==> r == s[..i] + rep + s[i + |pat|..]
  {
    match IndexOf(s, pat, 0)
    case None => s
    case Some(i) => s[..i] + rep + s[i + |pat|..]
  }

  predicate IsDigit(c: char) {
    '0' <= c <= '9'
  }

  /** A decimal numeral without superfluous leading zeros: "0", "7", "42", but not "007" or "". */
  predicate IsCanonicalNumeral(s: string) {
    && |s| >= 1
    && (forall i :: 0 <= i < |s| ==> IsDigit(s[i]))
    && (s[0] == '0' ==> |s| == 1)
  }

  function DigitChar(d: nat): (c: char)
    requires d < 10
    ensures IsDigit(c) && c as int - '0' as int == d
  {
    (d + '0' as int) as char
  }

  /** `String(n)` for a natural number. */
  function Decimal(n: nat): (r: string)
    ensures IsCanonicalNumeral(r)
  {
    if n < 10 then [DigitChar(n)] else Decimal(n / 10) + [DigitChar(n % 10)]
  }

  function NumeralValue(s: string): nat
    requires forall i :: 0 <= i < |s| ==> IsDigit(s[i])
  {
    if |s| == 0 then 0
    else
      assert IsDigit(s[|s| - 1]);
      10 * NumeralValue(s[..|s| - 1]) + (s[|s| - 1] as int - '0' as int)
  }

  /** The number a canonical numeral names, if `s` is one. */
  function ParseNumeral(s: string): (r: Option<nat>)
    ensures r.Some? <==> IsCanonicalNumeral(s)
  {
    if IsCanonicalNumeral(s) then Some(NumeralValue(s)) else None
  }

  lemma {:induction false} NumeralValueOfDecimal(n: nat)
    ensures NumeralValue(Decimal(n)) == n
  {
    if n >= 10 {
      NumeralValueOfDecimal(n / 10);
      var d := Decimal(n);
      assert d[..|d| - 1] == Decimal(n / 10);
    }
  }

  /** Every number reads back from its numeral. */
  lemma ParseDecimal(n: nat)
    ensures ParseNumeral(Decimal(n)) == Some(n)
  {
    NumeralValueOfDecimal(n);
  }

  lemma {:induction false} LeadingDigitPositive(s: string)
    requires |s| >= 1 && (forall i :: 0 <= i < |s| ==> IsDigit(s[i])) && s[0] != '0'
    ensures NumeralValue(s) >= 1
  {
    if |s| > 1 {
      LeadingDigitPositive(s[..|s| - 1]);
    }
  }

  /** Every canonical numeral is the numeral of the number it names. */
  lemma {:induction false} DecimalOfParse(s: string)
    requires IsCanonicalNumeral(s)
    ensures Decimal(ParseNumeral(s).value) == s
    decreases |s|
  {
    var n := NumeralValue(s);
    if |s| > 1 {
      var p := s[..|s| - 1];
      assert IsCanonicalNumeral(p);
      LeadingDigitPositive(p);
      DecimalOfParse(p);
      var d := s[|s| - 1] as int - '0' as int;
      assert n == 10 * NumeralValue(p) + d;
      assert n / 10 == NumeralValue(p) && n % 10 == d;
      assert s == p + [s[|s| - 1]];
    }
  }
}
