/**
 * The string and number primitives the reorganizer relies on: ASCII digit runs,
 * `str.endswith`, `str.split(sep)`, the `f"{n:03d}"` format and Python's `int(s)`
 * on a string.
 */
module Text {
  import opened Common

  predicate IsDigit(c: char) { '0' <= c <= '9' }

  /** Every character is an ASCII digit (the empty string qualifies). */
  predicate IsDigits(s: string) { forall i :: 0 <= i < |s| ==> IsDigit(s[i]) }

  /** A digit run as the regex `\d+` accepts it: at least one digit. */
  predicate IsNumeral(s: string) { |s| > 0 && IsDigits(s) }

  /** `s.endswith(suffix)` */
  predicate EndsWith(s: string, suffix: string)
  {
    |suffix| <= |s| && s[|s| - |suffix|..] == suffix
  }

  // ---------------------------------------------------------------------------
  // str.split(sep)

  /** Glues fields back together with `sep` between consecutive ones: `sep.join(parts)`. */
  function Unsplit(parts: seq<string>, sep: char): string
    requires |parts| >= 1
  {
    if |parts| == 1 then parts[0] else parts[0] + [sep] + Unsplit(parts[1..], sep)
  }

  /** `s.split(sep)` for a single-character separator. */
  function Split(s: string, sep: char): (r: seq<string>)
    ensures |r| >= 1
    ensures forall i :: 0 <= i < |r| ==> sep !in r[i]
    decreases |s|
  {
    if s == [] then [[]]
    else if s[0] == sep then [[]] + Split(s[1..], sep)
    else
      var rest := Split(s[1..], sep);
      [[s[0]] + rest[0]] + rest[1..]
  }

  /** Joining the fields with the separator gives back the string: nothing is lost by splitting. */
  lemma {:induction false} SplitRoundTrip(s: string, sep: char)
    ensures Unsplit(Split(s, sep), sep) == s
    decreases |s|
  {
    if s != [] {
      var rest := Split(s[1..], sep);
      SplitRoundTrip(s[1..], sep);
      if s[0] == sep {
        UnsplitEmptyFirst(rest, sep);
      } else {
        UnsplitPrepend(s[0], rest, sep);
      }
      DropFirst(s);
    }
  }

  /** An empty first field contributes only its separator. */
  lemma UnsplitEmptyFirst(parts: seq<string>, sep: char)
    requires |parts| >= 1
    ensures Unsplit([[]] + parts, sep) == [sep] + Unsplit(parts, sep)
  {
    assert ([[]] + parts)[1..] == parts;
  }

  /** A character put in front of the first field comes first in the joined text. */
  lemma UnsplitPrepend(c: char, parts: seq<string>, sep: char)
    requires |parts| >= 1
    ensures Unsplit([[c] + parts[0]] + parts[1..], sep) == [c] + Unsplit(parts, sep)
  {
    var r := [[c] + parts[0]] + parts[1..];
    assert r[1..] == parts[1..];
    if |parts| > 1 {
      var tail := [sep] + Unsplit(parts[1..], sep);
      AppendAssociates([c], parts[0], tail);
      AppendAssociates(parts[0], [sep], Unsplit(parts[1..], sep));
      AppendAssociates([c] + parts[0], [sep], Unsplit(parts[1..], sep));
    }
  }

  /** A string without the separator is a single field. */
  lemma {:induction false} SplitNoSep(s: string, sep: char)
    requires sep !in s
    ensures Split(s, sep) == [s]
    decreases |s|
  {
    if s != [] {
      assert sep !in s[1..];
      SplitNoSep(s[1..], sep);
      assert s == [s[0]] + s[1..];
    }
  }

  /** The first field is exactly the text before the first separator. */
  lemma {:induction false} SplitFirstField(a: string, sep: char, b: string)
    requires sep !in a
    ensures Split(a + [sep] + b, sep)[0] == a
    decreases |a|
  {
    var s := a + [sep] + b;
    if a != [] {
      assert s[1..] == a[1..] + [sep] + b;
      assert sep !in a[1..];
      SplitFirstField(a[1..], sep, b);
      assert a == [a[0]] + a[1..];
    }
  }

  /** Appending a separator and a separator-free field appends one field. */
  lemma {:induction false} SplitAppendField(a: string, sep: char, f: string)
    requires sep !in f
    ensures Split(a + [sep] + f, sep) == Split(a, sep) + [f]
    decreases |a|
  {
    var s := a + [sep] + f;
    if a == [] {
      assert s[1..] == f;
      SplitNoSep(f, sep);
    } else {
      assert s[1..] == a[1..] + [sep] + f;
      SplitAppendField(a[1..], sep, f);
    }
  }

  // ---------------------------------------------------------------------------
  // Decimal numerals

  function DigitValue(c: char): nat
    requires IsDigit(c)
  {
    (c as int - '0' as int) as nat
  }

  function DigitChar(d: nat): (c: char)
    requires d < 10
    ensures IsDigit(c) && DigitValue(c) == d
  {
    ('0' as int + d) as char
  }

  /** The value of a run of ASCII digits read in base 10; leading zeros are allowed. */
  function DigitsValue(s: string): nat
    requires IsDigits(s)
  {
    if s == [] then 0 else 10 * DigitsValue(s[..|s| - 1]) + DigitValue(s[|s| - 1])
  }

  /** Base-10 representation of `n` without leading zeros (`str(n)`). */
  function Decimal(n: nat): (r: string)
    ensures IsNumeral(r)
    ensures DigitsValue(r) == n
    ensures r[0] == '0' ==> r == "0"
  {
    if n < 10 then [DigitChar(n)]
    else
      var r := Decimal(n / 10) + [DigitChar(n % 10)];
      assert r[..|r| - 1] == Decimal(n / 10);
      r
  }

  function Zeros(k: nat): (r: string)
    ensures |r| == k
  {
    if k == 0 then [] else Zeros(k - 1) + ['0']
  }

  /** Leading zeros do not change the value of a digit run. */
  lemma {:induction false} LeadingZeros(k: nat, s: string)
    requires IsDigits(s)
    ensures IsDigits(Zeros(k) + s)
    ensures DigitsValue(Zeros(k) + s) == DigitsValue(s)
    decreases |s|, k
  {
    ZerosAreDigits(k);
    if s == [] {
      assert Zeros(k) + s == Zeros(k);
      ZerosValue(k);
    } else {
      var t := Zeros(k) + s;
      assert t[..|t| - 1] == Zeros(k) + s[..|s| - 1];
      LeadingZeros(k, s[..|s| - 1]);
    }
  }

  lemma {:induction false} ZerosAreDigits(k: nat)
    ensures IsDigits(Zeros(k))
  {
    if k > 0 { ZerosAreDigits(k - 1); }
  }

  lemma {:induction false} ZerosValue(k: nat)
    ensures IsDigits(Zeros(k)) && DigitsValue(Zeros(k)) == 0
  {
    ZerosAreDigits(k);
    if k > 0 {
      ZerosValue(k - 1);
      assert Zeros(k)[..k - 1] == Zeros(k - 1);
    }
  }

  /**
   * `f"{n:03d}"` for a non-negative `n`: the decimal digits of `n`, left-padded
   * with zeros to a width of at least three.
   */
  function Format03d(n: nat): (r: string)
    ensures IsNumeral(r)
    ensures |r| == if |Decimal(n)| < 3 then 3 else |Decimal(n)|
    ensures DigitsValue(r) == n
    ensures |r| > 3 ==> r[0] != '0'
  {
    var d := Decimal(n);
    LeadingZeros(if |d| < 3 then 3 - |d| else 0, d);
    assert Zeros(0) + d == d;
    Zeros(if |d| < 3 then 3 - |d| else 0) + d
  }

  // ---------------------------------------------------------------------------
  // int(s)

  /**
   * The ASCII characters Python's `int()` strips as white space: space and the
   * controls tab to carriage return. The separators 28 to 31 are not among them.
   */
  predicate IsSpace(c: char)
  {
    c == ' ' || (9 <= c as int <= 13)
  }

  function StripStart(s: string): (r: string)
    ensures |r| <= |s| && r == s[|s| - |r|..]
    ensures r != [] ==> !IsSpace(r[0])
  {
    if s != [] && IsSpace(s[0]) then StripStart(s[1..]) else s
  }

  function StripEnd(s: string): (r: string)
    ensures |r| <= |s| && r == s[..|r|]
    ensures r != [] ==> !IsSpace(r[|r| - 1])
  {
    if s != [] && IsSpace(s[|s| - 1]) then StripEnd(s[..|s| - 1]) else s
  }

  /** `s.strip()` restricted to ASCII white space. */
  function Strip(s: string): string
  {
    StripEnd(StripStart(s))
  }

  /**
   * Python's `int(s)` on a string: surrounding white space, an optional sign and
   * one or more decimal digits; anything else raises `ValueError`, modelled as None.
   */
  function PyInt(s: string): Option<int>
  {
    ParseInteger(Strip(s))
  }

  /** The literal `int()` accepts once white space is stripped: an optional sign, then digits. */
  function ParseInteger(t: string): Option<int>
  {
    if |t| >= 2 && (t[0] == '+' || t[0] == '-') && IsDigits(t[1..]) then
      var v: int := DigitsValue(t[1..]);
      Some(if t[0] == '-' then -v else v)
    else if IsNumeral(t) then
      Some(DigitsValue(t))
    else
      None
  }

  /** `str(n)`: the decimal digits of `n`, after a `-` when `n` is negative. */
  function Str(n: int): (r: string)
    ensures |r| > 0 && !IsSpace(r[0]) && !IsSpace(r[|r| - 1])
  {
    if n < 0 then "-" + Decimal(-n) else Decimal(n)
  }

  /** `int()` reads back `str(n)`, with any ASCII white space around it, as `n`. */
  lemma PyIntOfStr(n: int, lead: string, trail: string)
    requires forall i :: 0 <= i < |lead| ==> IsSpace(lead[i])
    requires forall i :: 0 <= i < |trail| ==> IsSpace(trail[i])
    ensures PyInt(lead + Str(n) + trail) == Some(n)
  {
    StripAround(lead, Str(n), trail);
    StrParses(n);
    assert PyInt(lead + Str(n) + trail) == ParseInteger(Str(n));
  }

  /** The literal `str(n)` reads back as `n`. */
  lemma StrParses(n: int)
    ensures ParseInteger(Str(n)) == Some(n)
  {
    var s := Str(n);
    if n < 0 {
      assert s[1..] == Decimal(-n);
    }
  }

  /** Stripping removes exactly the white space around a text that starts and ends with another character. */
  lemma StripAround(lead: string, s: string, trail: string)
    requires forall i :: 0 <= i < |lead| ==> IsSpace(lead[i])
    requires forall i :: 0 <= i < |trail| ==> IsSpace(trail[i])
    requires s != [] && !IsSpace(s[0]) && !IsSpace(s[|s| - 1])
    ensures Strip(lead + s + trail) == s
  {
    assert lead + s + trail == lead + (s + trail);
    StripStartSpaces(lead, s + trail);
    StripEndSpaces(s, trail);
  }

  /** Stripping at the start removes leading white space up to the first other character. */
  lemma {:induction false} StripStartSpaces(lead: string, u: string)
    requires forall i :: 0 <= i < |lead| ==> IsSpace(lead[i])
    requires u != [] && !IsSpace(u[0])
    ensures StripStart(lead + u) == u
    decreases |lead|
  {
    if lead == [] {
      assert lead + u == u;
    } else {
      var w := lead + u;
      assert w[0] == lead[0] && IsSpace(w[0]);
      assert w[1..] == lead[1..] + u;
      assert StripStart(w) == StripStart(w[1..]);
      assert forall i :: 0 <= i < |lead[1..]| ==> lead[1..][i] == lead[i + 1];
      StripStartSpaces(lead[1..], u);
    }
  }

  /** Stripping at the end removes trailing white space back to the last other character. */
  lemma {:induction false} StripEndSpaces(u: string, trail: string)
    requires forall i :: 0 <= i < |trail| ==> IsSpace(trail[i])
    requires u != [] && !IsSpace(u[|u| - 1])
    ensures StripEnd(u + trail) == u
    decreases |trail|
  {
    if trail == [] {
      assert u + trail == u;
    } else {
      var t, w := trail[..|trail| - 1], u + trail;
      assert w[|w| - 1] == trail[|trail| - 1] && IsSpace(w[|w| - 1]);
      assert w[..|w| - 1] == u + t;
      assert StripEnd(w) == StripEnd(w[..|w| - 1]);
      StripEndSpaces(u, t);
    }
  }

  /**
   * A file separator (character 28) is not white space to `int()`: text that
   * starts with one is rejected whatever follows it.
   */
  lemma SeparatorNotStripped(s: string)
    requires s != [] && s[0] == 28 as char
    ensures PyInt(s) == None
  {
    assert StripStart(s) == s;
    var t := StripEnd(s);
    assert t != [] ==> t[0] == s[0];
  }

  /** A digit run parses under `int()` to its base-10 value. */
  lemma NumeralParses(s: string)
    requires IsNumeral(s)
    ensures PyInt(s) == Some(DigitsValue(s))
  {
    assert StripStart(s) == s;
    assert StripEnd(s) == s;
    assert IsDigit(s[0]) && s[0] != '+' && s[0] != '-';
    assert ParseInteger(s) == Some(DigitsValue(s));
  }
}
