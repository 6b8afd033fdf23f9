/** The few Python `str` operations the script builds on: `str(n)` and
    `int(s)` for non-negative integers, `s.strip()` and `s.split(sep)`.
    Strings are sequences of Unicode scalar values. A Python `str` may
    also hold lone surrogates (U+D800 to U+DFFF); the strings here cannot. */
module Strings {

  predicate IsDigit(c: char) { '0' <= c <= '9' }

  predicate AllDigits(s: string) { forall i :: 0 <= i < |s| ==> IsDigit(s[i]) }

  function DigitChar(d: nat): (c: char)
    requires d < 10
    ensures IsDigit(c)
  {
    ('0' as int + d) as char
  }

  function DigitValue(c: char): (d: nat)
    requires IsDigit(c)
    ensures d < 10 && DigitChar(d) == c
  {
    c as int - '0' as int
  }

  /** `s.endswith(t)`; `t <= s` is `s.startswith(t)`. */
  predicate EndsWith(s: string, t: string) { |t| <= |s| && s[|s| - |t|..] == t }

  /** A concatenation ends with its second part. */
  lemma {:induction false} EndsWithAppend(x: string, y: string)
    ensures EndsWith(x + y, y)
  {
    assert (x + y)[|x|..] == y;
  }

  /** `str(n)` for a non-negative int: its decimal digits, most significant
      first, with no leading zero except for "0" itself. */
  function Decimal(n: nat): (s: string)
    ensures |s| > 0 && AllDigits(s)
    ensures s[0] == '0' <==> n == 0
    ensures n == 0 ==> s == "0"
    decreases n
  {
    if n < 10 then [DigitChar(n)] else Decimal(n / 10) + [DigitChar(n % 10)]
  }

  /** `int(s)` for a string of decimal digits; leading zeros are allowed. */
  function DecimalValue(s: string): (v: nat)
    requires AllDigits(s)
    ensures v == 0 <==> forall i :: 0 <= i < |s| ==> s[i] == '0'
  {
    if s == [] then 0 else DecimalValue(s[..|s| - 1]) * 10 + DigitValue(s[|s| - 1])
  }

  /** `int(str(n)) == n`: `Decimal` is a right inverse of `DecimalValue`. */
  lemma {:induction false} DecimalRoundTrip(n: nat)
    ensures DecimalValue(Decimal(n)) == n
    decreases n
  {
    if n >= 10 {
      var s := Decimal(n);
      assert s[..|s| - 1] == Decimal(n / 10);
      DecimalRoundTrip(n / 10);
    }
  }

  /** Distinct numbers have distinct decimal strings. */
  lemma {:induction false} DecimalInjective(m: nat, n: nat)
    ensures Decimal(m) == Decimal(n) ==> m == n
  {
    DecimalRoundTrip(m);
    DecimalRoundTrip(n);
  }

  /** The characters for which Python's `str.isspace()` holds, and which
      `str.strip()` without arguments removes. */
  predicate IsSpace(c: char) {
    || c == '\t' || c == '\n' || c == '\U{B}' || c == '\U{C}' || c == '\r'
    || ('\U{1C}' <= c <= '\U{1F}') || c == ' ' || c == '\U{85}' || c == '\U{A0}'
    || c == '\U{1680}' || ('\U{2000}' <= c <= '\U{200A}')
    || c == '\U{2028}' || c == '\U{2029}' || c == '\U{202F}' || c == '\U{205F}'
    || c == '\U{3000}'
  }

  predicate AllSpace(s: string) { forall i :: 0 <= i < |s| ==> IsSpace(s[i]) }

  /** The number of whitespace characters that `s` starts with. */
  function LeadingSpace(s: string): (n: nat)
    ensures n <= |s|
    ensures forall i :: 0 <= i < n ==> IsSpace(s[i])
    ensures n == |s| || !IsSpace(s[n])
  {
    if s != [] && IsSpace(s[0]) then LeadingSpace(s[1..]) + 1 else 0
  }

  /** The number of whitespace characters that `s` ends with. */
  function TrailingSpace(s: string): (n: nat)
    ensures n <= |s|
    ensures forall i :: |s| - n <= i < |s| ==> IsSpace(s[i])
    ensures n == |s| || !IsSpace(s[|s| - n - 1])
  {
    if s != [] && IsSpace(s[|s| - 1]) then TrailingSpace(s[..|s| - 1]) + 1 else 0
  }

  /** `s.strip()`: the slice of `s` between its leading and its trailing
      whitespace. It neither starts nor ends with whitespace, and it is
      empty exactly when `s` is all whitespace. */
  function Strip(s: string): (r: string)
    ensures |r| <= |s|
    ensures r == [] || (!IsSpace(r[0]) && !IsSpace(r[|r| - 1]))
    ensures r == [] <==> AllSpace(s)
  {
    var k := LeadingSpace(s);
    var t := TrailingSpace(s[k..]);
    StripBounds(s, k, t);
    s[k..|s| - t]
  }

  /** Where the cuts of `Strip` fall: `k` leading and `t` trailing
      whitespace characters leave a part that is empty exactly when `s`
      is all whitespace, and otherwise starts and ends with a non-space. */
  lemma {:induction false} StripBounds(s: string, k: nat, t: nat)
    requires k == LeadingSpace(s) && t == TrailingSpace(s[k..])
    ensures k + t <= |s|
    ensures var r := s[k..|s| - t];
      && (r == [] || (!IsSpace(r[0]) && !IsSpace(r[|r| - 1])))
      && (r == [] <==> AllSpace(s))
  {
    var rest := s[k..];
    if k < |s| {
      assert rest[0] == s[k];
      assert t < |rest|;
      assert rest[|rest| - t - 1] == s[|s| - t - 1];
      var r := s[k..|s| - t];
      assert r[0] == s[k] && r[|r| - 1] == s[|s| - t - 1];
    }
  }

  /** What `Strip` removes is whitespace on both sides of one slice of `s`. */
  lemma {:induction false} StripIsSlice(s: string)
    ensures var r, k := Strip(s), LeadingSpace(s);
      && k + |r| <= |s|
      && r == s[k..k + |r|]
      && AllSpace(s[..k])
      && AllSpace(s[k + |r|..])
  {
    var k := LeadingSpace(s);
    var t := TrailingSpace(s[k..]);
    StripSlice(s, k, t);
    SpaceAround(s, k, t);
  }

  /** `Strip` keeps what lies between its two cuts. */
  lemma {:induction false} StripSlice(s: string, k: nat, t: nat)
    requires k == LeadingSpace(s) && t == TrailingSpace(s[k..])
    ensures k + t <= |s| && Strip(s) == s[k..|s| - t]
  {
  }

  /** With `k` leading whitespace characters and `t` trailing ones after
      them, both ends cut off by `Strip` are whitespace. */
  lemma {:induction false} SpaceAround(s: string, k: nat, t: nat)
    requires k == LeadingSpace(s) && t == TrailingSpace(s[k..])
    ensures k + t <= |s|
    ensures AllSpace(s[..k]) && AllSpace(s[|s| - t..])
  {
    var rest := s[k..];
    forall i | |s| - t <= i < |s|
      ensures IsSpace(s[i])
    {
      assert s[i] == rest[i - k];
    }
    var tail := s[|s| - t..];
    assert forall i :: 0 <= i < t ==> tail[i] == s[|s| - t + i];
  }

  /** Stripping twice is stripping once. */
  lemma {:induction false} StripIdempotent(s: string)
    ensures Strip(Strip(s)) == Strip(s)
  {
    var r := Strip(s);
    if r != [] {
      assert LeadingSpace(r) == 0;
      assert r[0..] == r;
      assert TrailingSpace(r) == 0;
      assert r[0..|r|] == r;
    }
  }

  /** The longest prefix of `t` made of digits. */
  function LeadingDigits(t: string): (run: string)
    ensures run <= t && AllDigits(run)
    ensures |run| == |t| || !IsDigit(t[|run|])
  {
    if t != [] && IsDigit(t[0]) then [t[0]] + LeadingDigits(t[1..]) else []
  }

  /** A digit run stops at the first non-digit, whatever follows it. */
  lemma {:induction false} LeadingDigitsStop(x: string, y: string)
    requires y != [] && !IsDigit(y[0])
    ensures LeadingDigits(x + y) == LeadingDigits(x)
  {
    if x != [] {
      assert (x + y)[1..] == x[1..] + y;
      LeadingDigitsStop(x[1..], y);
    } else {
      assert x + y == y;
    }
  }

  /** A maximal digit run is the one `LeadingDigits` finds. */
  lemma {:induction false} LeadingDigitsIff(t: string, run: string)
    ensures LeadingDigits(t) == run <==> run <= t && AllDigits(run) && (|run| == |t| || !IsDigit(t[|run|]))
  {
    var r := LeadingDigits(t);
    if run <= t && AllDigits(run) && (|run| == |t| || !IsDigit(t[|run|])) {
      assert r == t[..|r|] && run == t[..|run|];
    }
  }

  /** The length of the longest run of digits that ends `s`. */
  function TrailingDigits(s: string): (n: nat)
    ensures n <= |s|
    ensures forall i :: |s| - n <= i < |s| ==> IsDigit(s[i])
    ensures n == |s| || !IsDigit(s[|s| - n - 1])
  {
    if s != [] && IsDigit(s[|s| - 1]) then TrailingDigits(s[..|s| - 1]) + 1 else 0
  }

  /** A run of digits after a non-digit is exactly the trailing digit run. */
  lemma {:induction false} TrailingDigitsAfter(x: string, y: string)
    requires x != [] && !IsDigit(x[|x| - 1]) && AllDigits(y)
    ensures TrailingDigits(x + y) == |y|
  {
    if y != [] {
      var y' := y[..|y| - 1];
      assert (x + y)[..|x + y| - 1] == x + y';
      assert (x + y)[|x + y| - 1] == y[|y| - 1];
      TrailingDigitsAfter(x, y');
    } else {
      assert x + y == x;
    }
  }

  /** The inverse of `Split`: the fields with `sep` between each pair. */
  function Join(fields: seq<string>, sep: char): string
    requires |fields| >= 1
  {
    if |fields| == 1 then fields[0]
    else Join(fields[..|fields| - 1], sep) + [sep] + fields[|fields| - 1]
  }

  /** `s.split(sep)` for a one-character separator: at least one field
      (an empty input gives one empty field), and no field holds `sep`. */
  function Split(s: string, sep: char): (fields: seq<string>)
    ensures |fields| >= 1
    ensures forall i :: 0 <= i < |fields| ==> sep !in fields[i]
  {
    if s == [] then [[]]
    else
      var init := Split(s[..|s| - 1], sep);
      var c := s[|s| - 1];
      if c == sep then init + [[]]
      else init[..|init| - 1] + [init[|init| - 1] + [c]]
  }

  /** Joining the fields of a split with the same separator gives back the input. */
  lemma {:induction false} SplitJoin(s: string, sep: char)
    ensures Join(Split(s, sep), sep) == s
  {
    if s != [] {
      var s' := s[..|s| - 1];
      var init := Split(s', sep);
      var c := s[|s| - 1];
      SplitJoin(s', sep);
      assert s == s' + [c];
      if c == sep {
        JoinNewField(init, sep);
      } else {
        JoinExtendLast(init, sep, c);
      }
    }
  }

  /** A new empty last field adds one separator to the joined string. */
  lemma {:induction false} JoinNewField(fields: seq<string>, sep: char)
    requires |fields| >= 1
    ensures Join(fields + [[]], sep) == Join(fields, sep) + [sep]
  {
    var f := fields + [[]];
    assert f[..|f| - 1] == fields;
  }

  /** A character added to the last field is added to the joined string. */
  lemma {:induction false} JoinExtendLast(fields: seq<string>, sep: char, c: char)
    requires |fields| >= 1
    ensures var n := |fields|;
      Join(fields[..n - 1] + [fields[n - 1] + [c]], sep) == Join(fields, sep) + [c]
  {
    var n := |fields|;
    var f := fields[..n - 1] + [fields[n - 1] + [c]];
    if n > 1 {
      assert f[..n - 1] == fields[..n - 1];
    }
  }
}
