/** The few pieces of Python string handling the scripts rely on:
    `str.split` with a one-character separator, `str.endswith`, `str(n)` for
    a natural number and `int(s)` for a decimal field. */
module Strings {
  import opened Results

  /** `s.endswith(suffix)` */
  predicate EndsWith(s: string, suffix: string) {
    |suffix| <= |s| && s[|s| - |suffix|..] == suffix
  }

  /** `endswith` in its own terms: the text is something followed by the
      suffix. */
  lemma EndsWithIsSuffix(s: string, suffix: string)
    ensures EndsWith(s, suffix) <==> exists x :: s == x + suffix
  {
    if EndsWith(s, suffix) {
      var x := s[..|s| - |suffix|];
      assert s == x + suffix;
    }
    if exists x :: s == x + suffix {
      var x :| s == x + suffix;
      assert s[|x|..] == suffix;
    }
  }

  /** Position of the first `c` in `s`, or `|s|` when `s` has none. */
  function IndexOf(s: string, c: char): (i: nat)
    ensures i <= |s|
    ensures i < |s| ==> s[i] == c
    ensures forall k :: 0 <= k < i ==> s[k] != c
  {
    if s == [] then 0
    else if s[0] == c then 0
    else 1 + IndexOf(s[1..], c)
  }

  /** The text before the first `sep`, i.e. the first element of
      `s.split(sep, 1)` (the whole of `s` when it has no `sep`). */
  function FirstField(s: string, sep: char): (f: string)
    ensures sep !in f
    ensures f <= s
    ensures |f| < |s| <==> sep in s
    ensures |f| < |s| ==> s[|f|] == sep
  {
    s[..IndexOf(s, sep)]
  }

  /** Inverse of `Split`: the parts glued back together with `sep`. */
  function Join(parts: seq<string>, sep: char): string
  {
    if parts == [] then ""
    else if |parts| == 1 then parts[0]
    else parts[0] + [sep] + Join(parts[1..], sep)
  }

  /** `s.split(sep)` for a one-character separator: the maximal
      `sep`-free pieces of `s`, in order. */
  function Split(s: string, sep: char): (parts: seq<string>)
    ensures |parts| >= 1
    ensures parts[0] == FirstField(s, sep)
    ensures |parts| == 1 <==> sep !in s
    ensures forall k :: 0 <= k < |parts| ==> sep !in parts[k]
    ensures Join(parts, sep) == s
    decreases |s|
  {
    var i := IndexOf(s, sep);
    if i == |s| then
      assert s[..i] == s;
      [s]
    else
      var rest := Split(s[i + 1..], sep);
      SplitAt(s, sep, i, rest);
      [s[..i]] + rest
  }

  /** The step of `Split`: cutting at the first separator and splitting the
      remainder gives pieces that join back to the whole. */
  lemma SplitAt(s: string, sep: char, i: nat, rest: seq<string>)
    requires i == IndexOf(s, sep) && i < |s|
    requires rest != [] && Join(rest, sep) == s[i + 1..]
    requires forall k :: 0 <= k < |rest| ==> sep !in rest[k]
    ensures Join([s[..i]] + rest, sep) == s
    ensures forall k :: 0 <= k < |rest| + 1 ==> sep !in ([s[..i]] + rest)[k]
    ensures ([s[..i]] + rest)[0] == FirstField(s, sep)
  {
    var parts := [s[..i]] + rest;
    JoinCons(s[..i], rest, sep);
    CutAt(s, i);
    forall k | 0 <= k < |parts|
      ensures sep !in parts[k]
    {
      if k > 0 {
        assert parts[k] == rest[k - 1];
      }
    }
  }

  /** A text is the part before position `i`, the character there and the
      part after it. */
  lemma CutAt(s: string, i: nat)
    requires i < |s|
    ensures s == s[..i] + [s[i]] + s[i + 1..]
  {
    assert s[i..] == [s[i]] + s[i + 1..];
    assert s == s[..i] + s[i..];
  }

  /** Unfolding `Join` over a leading part. */
  lemma JoinCons(head: string, rest: seq<string>, sep: char)
    requires rest != []
    ensures Join([head] + rest, sep) == head + [sep] + Join(rest, sep)
  {
    assert ([head] + rest)[1..] == rest;
  }

  predicate IsDigit(c: char) {
    '0' <= c <= '9'
  }

  /** A non-empty run of ASCII decimal digits. */
  predicate IsDecimal(s: string) {
    |s| > 0 && forall k :: 0 <= k < |s| ==> IsDigit(s[k])
  }

  function DigitValue(c: char): nat
    requires IsDigit(c)
  {
    c as int - '0' as int
  }

  function DigitChar(d: nat): (c: char)
    requires d < 10
    ensures IsDigit(c) && DigitValue(c) == d
  {
    ('0' as int + d) as char
  }

  /** The number a string of decimal digits denotes (most significant first). */
  function DecimalValue(s: string): nat
    requires forall k :: 0 <= k < |s| ==> IsDigit(s[k])
  {
    if s == [] then 0
    else 10 * DecimalValue(s[..|s| - 1]) + DigitValue(s[|s| - 1])
  }

  /** Python's `str(n)` for a natural number: its canonical decimal form. */
  function NatToDecimal(n: nat): (s: string)
    ensures IsDecimal(s)
    ensures DecimalValue(s) == n
    ensures |s| > 1 ==> s[0] != '0'
  {
    if n < 10 then [DigitChar(n)]
    else
      var hi := NatToDecimal(n / 10);
      var s := hi + [DigitChar(n % 10)];
      assert s[..|s| - 1] == hi;
      s
  }

  /** Python's `int(s)` on an optionally signed decimal string; `None` is the
      `ValueError` it raises on anything else. */
  function ParseInt(s: string): (r: Option<int>)
    ensures r.Some? <==> IsDecimal(s) || (|s| > 0 && (s[0] == '-' || s[0] == '+') && IsDecimal(s[1..]))
    ensures IsDecimal(s) ==> r == Some(DecimalValue(s))
    ensures |s| > 0 && s[0] == '+' && IsDecimal(s[1..]) ==> r == Some(DecimalValue(s[1..]))
    ensures |s| > 0 && s[0] == '-' && IsDecimal(s[1..]) ==> r == Some(-(DecimalValue(s[1..]) as int))
  {
    if IsDecimal(s) then Some(DecimalValue(s))
    else if |s| > 0 && s[0] == '-' && IsDecimal(s[1..]) then Some(-(DecimalValue(s[1..]) as int))
    else if |s| > 0 && s[0] == '+' && IsDecimal(s[1..]) then Some(DecimalValue(s[1..]))
    else None
  }

  /** Leading zeros do not change the value: `int("0" + s) == int(s)` for a
      run of digits `s`, so `int("007") == 7`. */
  lemma LeadingZeroIgnored(s: string)
    requires IsDecimal(s)
    ensures ParseInt("0" + s) == ParseInt(s)
  {
    ZeroPrefixValue(s);
  }

  lemma {:induction false} ZeroPrefixValue(s: string)
    requires forall k :: 0 <= k < |s| ==> IsDigit(s[k])
    ensures forall k :: 0 <= k < |"0" + s| ==> IsDigit(("0" + s)[k])
    ensures DecimalValue("0" + s) == DecimalValue(s)
    decreases |s|
  {
    var t := "0" + s;
    assert forall k :: 0 < k < |t| ==> t[k] == s[k - 1];
    if s == [] {
      assert t[..0] == [];
    } else {
      var init := s[..|s| - 1];
      ZeroPrefixValue(init);
      assert t[..|t| - 1] == "0" + init;
      assert t[|t| - 1] == s[|s| - 1];
    }
  }

  /** `int(str(n)) == n` and `int("-" + str(n)) == -n`. */
  lemma ParseIntOfDecimal(n: nat)
    ensures ParseInt(NatToDecimal(n)) == Some(n)
    ensures ParseInt("-" + NatToDecimal(n)) == Some(-(n as int))
  {
    var s := NatToDecimal(n);
    assert ("-" + s)[1..] == s;
  }

}
