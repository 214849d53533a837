/** The Python string built-ins the CSV codec uses: `str.strip()`,
    `str.split(sep)`, `sep.join(...)`, `str(n)` and `int(s)`. */
module PyText {
  import opened Common

  /** The characters Python's `str.isspace` accepts, which `strip()`
      removes from both ends. */
  predicate IsSpace(c: char) {
    || ('\t' <= c <= '\r')
    || ('\U{1c}' <= c <= '\U{1f}')
    || c == ' ' || c == '\U{85}' || c == '\U{a0}' || c == '\U{1680}'
    || ('\U{2000}' <= c <= '\U{200a}')
    || c == '\U{2028}' || c == '\U{2029}' || c == '\U{202f}' || c == '\U{205f}' || c == '\U{3000}'
  }

  /** The characters `int()` skips around a number: the ASCII white space
      `" \t\n\v\f\r"` and every non-ASCII white-space character. The
      ASCII separators U+001C..U+001F, white space to `strip()`, are not
      skipped by `int()`. */
  predicate IsIntSpace(c: char) {
    IsSpace(c) && !('\U{1c}' <= c <= '\U{1f}')
  }

  /** The index of the first character from `i` on that `sp` rejects, or
      `|s|` when there is none. */
  function SkipFrom(s: string, sp: char -> bool, i: nat): (n: nat)
    requires i <= |s|
    ensures i <= n <= |s|
    ensures forall k :: i <= k < n ==> sp(s[k])
    ensures n == |s| || !sp(s[n])
    decreases |s| - i
  {
    if i < |s| && sp(s[i]) then SkipFrom(s, sp, i + 1) else i
  }

  /** What is left after dropping the leading characters `sp` accepts. */
  function TrimLeft(s: string, sp: char -> bool): (r: string)
    ensures |r| <= |s| && r == s[|s| - |r|..]
    ensures forall k :: 0 <= k < |s| - |r| ==> sp(s[k])
    ensures r == "" || !sp(r[0])
  {
    s[SkipFrom(s, sp, 0)..]
  }

  /** What is left after dropping the trailing characters `sp` accepts. */
  function TrimRight(s: string, sp: char -> bool): (r: string)
    ensures |r| <= |s| && r == s[..|r|]
    ensures forall k :: |r| <= k < |s| ==> sp(s[k])
    ensures r == "" || !sp(r[|r| - 1])
  {
    if |s| > 0 && sp(s[|s| - 1]) then
      var r := TrimRight(s[..|s| - 1], sp);
      assert s[..|s| - 1][..|r|] == s[..|r|];
      assert forall k :: |r| <= k < |s| - 1 ==> s[k] == s[..|s| - 1][k];
      r
    else s
  }

  /** `r` is a slice of `s` outside which `s` holds only characters `sp`
      accepts. */
  ghost predicate CutFrom(s: string, r: string, sp: char -> bool) {
    exists a, b :: 0 <= a <= b <= |s| && r == s[a..b] && forall k :: (0 <= k < a || b <= k < |s|) ==> sp(s[k])
  }

  /** `s` with the characters `sp` accepts dropped from both ends: a
      substring of `s` that has only such characters outside it, and
      that neither starts nor ends with one. */
  function StripWith(s: string, sp: char -> bool): (r: string)
    ensures r == "" <==> forall k :: 0 <= k < |s| ==> sp(s[k])
    ensures r != "" ==> !sp(r[0]) && !sp(r[|r| - 1])
    ensures CutFrom(s, r, sp)
  {
    var r := TrimLeft(TrimRight(s, sp), sp);
    StripEnds(s, sp);
    StripCut(s, sp);
    r
  }

  lemma StripCut(s: string, sp: char -> bool)
    ensures CutFrom(s, TrimLeft(TrimRight(s, sp), sp), sp)
  {
    var t := TrimRight(s, sp);
    var r := TrimLeft(t, sp);
    var a, b := |t| - |r|, |t|;
    assert r == s[a..b] by {
      assert r == t[a..] && t == s[..b];
    }
    forall k | 0 <= k < a || b <= k < |s| ensures sp(s[k]) {
      if k < a {
        assert s[k] == t[k];
      }
    }
    CutWitness(s, r, a, b, sp);
  }

  lemma CutWitness(s: string, r: string, a: int, b: int, sp: char -> bool)
    requires 0 <= a <= b <= |s| && r == s[a..b]
    requires forall k :: 0 <= k < a || b <= k < |s| ==> sp(s[k])
    ensures CutFrom(s, r, sp)
  {
  }

  lemma StripIsSlice(s: string, sp: char -> bool)
    ensures var t := TrimRight(s, sp); var r := TrimLeft(t, sp);
      r == s[|t| - |r|..|t|]
  {
    var t := TrimRight(s, sp);
    var r := TrimLeft(t, sp);
    assert r == t[|t| - |r|..];
  }

  lemma StripDropsOnly(s: string, sp: char -> bool)
    ensures var t := TrimRight(s, sp); var r := TrimLeft(t, sp);
      forall k :: 0 <= k < |t| - |r| ==> sp(s[k])
  {
    var t := TrimRight(s, sp);
    var r := TrimLeft(t, sp);
    forall k | 0 <= k < |t| - |r| ensures sp(s[k]) {
      assert s[k] == t[k];
    }
  }

  /** The strip is the part of `s` between the dropped ends. */
  lemma StripSlice(s: string, sp: char -> bool)
    ensures var t := TrimRight(s, sp); var r := TrimLeft(t, sp);
      && |r| <= |t| <= |s|
      && r == s[|t| - |r|..|t|]
      && (forall k :: 0 <= k < |t| - |r| || |t| <= k < |s| ==> sp(s[k]))
  {
    StripIsSlice(s, sp);
    StripDropsOnly(s, sp);
  }

  /** The strip is empty exactly when every character is dropped, and
      otherwise keeps a character `sp` rejects at each end. */
  lemma StripEnds(s: string, sp: char -> bool)
    ensures var r := TrimLeft(TrimRight(s, sp), sp);
      && (r == "" <==> forall k :: 0 <= k < |s| ==> sp(s[k]))
      && (r != "" ==> !sp(r[0]) && !sp(r[|r| - 1]))
  {
    var t := TrimRight(s, sp);
    var r := TrimLeft(t, sp);
    StripSlice(s, sp);
    if r != "" {
      assert r[|r| - 1] == t[|t| - 1];
    }
  }

  /** `s.strip()`: `s` without its leading and trailing white space. */
  function Strip(s: string): (r: string)
    ensures r == "" <==> forall k :: 0 <= k < |s| ==> IsSpace(s[k])
    ensures r != "" ==> !IsSpace(r[0]) && !IsSpace(r[|r| - 1])
    ensures CutFrom(s, r, IsSpace)
  {
    StripWith(s, IsSpace)
  }

  /** The text `int()` reads: `s` without the leading and trailing
      characters it skips. */
  function IntStrip(s: string): (r: string)
    ensures r == "" <==> forall k :: 0 <= k < |s| ==> IsIntSpace(s[k])
    ensures r != "" ==> !IsIntSpace(r[0]) && !IsIntSpace(r[|r| - 1])
    ensures CutFrom(s, r, IsIntSpace)
  {
    StripWith(s, IsIntSpace)
  }

  /** A trailing character `sp` accepts does not change the strip. */
  lemma StripWithTrailing(s: string, c: char, sp: char -> bool)
    requires sp(c)
    ensures StripWith(s + [c], sp) == StripWith(s, sp)
  {
    assert (s + [c])[..|s|] == s;
  }

  /** Appending white space does not change what `strip()` keeps. */
  lemma StripTrailingSpace(s: string, c: char)
    requires IsSpace(c)
    ensures Strip(s + [c]) == Strip(s)
  {
    StripWithTrailing(s, c, IsSpace);
  }

  /** Appending a character `int()` skips does not change what it reads. */
  lemma IntStripTrailingSpace(s: string, c: char)
    requires IsIntSpace(c)
    ensures IntStrip(s + [c]) == IntStrip(s)
  {
    StripWithTrailing(s, c, IsIntSpace);
  }

  /** A string that neither starts nor ends with white space is its own
      strip, for `strip()` and for `int()`. */
  lemma StripUntrimmed(s: string)
    requires s != "" && !IsSpace(s[0]) && !IsSpace(s[|s| - 1])
    ensures Strip(s) == s && IntStrip(s) == s
  {
  }

  /** `s.split(sep)`: the pieces between occurrences of `sep`; there is
      always at least one piece and no piece contains `sep`. */
  function Split(s: string, sep: char): (r: seq<string>)
    ensures |r| >= 1
    ensures forall t :: 0 <= t < |r| ==> sep !in r[t]
    ensures |r| == 1 <==> sep !in s
    decreases |s|
  {
    if |s| == 0 then [""]
    else
      var rest := Split(s[1..], sep);
      assert s == [s[0]] + s[1..];
      if s[0] == sep then [""] + rest
      else [[s[0]] + rest[0]] + rest[1..]
  }

  /** `sep.join(fields)`. */
  function Join(fields: seq<string>, sep: char): (r: string)
    ensures |fields| == 1 ==> r == fields[0]
    decreases |fields|
  {
    if |fields| == 0 then ""
    else if |fields| == 1 then fields[0]
    else fields[0] + [sep] + Join(fields[1..], sep)
  }

  /** `split` reads the first field up to the first separator. */
  lemma {:induction false} SplitAtSeparator(u: string, v: string, sep: char)
    requires sep !in u
    ensures Split(u + [sep] + v, sep) == [u] + Split(v, sep)
    decreases |u|
  {
    if u == [] {
      assert u + [sep] + v == [sep] + v;
      assert ([sep] + v)[1..] == v;
    } else {
      var w := u + [sep] + v;
      assert w[0] == u[0] != sep;
      assert w[1..] == u[1..] + [sep] + v;
      SplitAtSeparator(u[1..], v, sep);
      var rest := Split(w[1..], sep);
      assert rest[0] == u[1..] && rest[1..] == Split(v, sep);
      assert Split(w, sep) == [[u[0]] + rest[0]] + rest[1..];
      assert [u[0]] + u[1..] == u;
    }
  }

  /** Splitting a join gives back the fields when no field holds the separator. */
  lemma {:induction false} SplitJoin(fields: seq<string>, sep: char)
    requires |fields| >= 1
    requires forall t :: 0 <= t < |fields| ==> sep !in fields[t]
    ensures Split(Join(fields, sep), sep) == fields
    decreases |fields|
  {
    if |fields| == 1 {
      JoinSplit(fields[0], sep);
    } else {
      SplitJoin(fields[1..], sep);
      SplitAtSeparator(fields[0], Join(fields[1..], sep), sep);
      assert [fields[0]] + fields[1..] == fields;
    }
  }

  /** Joining a split gives back the string. */
  lemma {:induction false} JoinSplit(s: string, sep: char)
    ensures Join(Split(s, sep), sep) == s
    decreases |s|
  {
    if |s| > 0 {
      JoinSplit(s[1..], sep);
      var rest := Split(s[1..], sep);
      assert s == [s[0]] + s[1..];
      if s[0] == sep {
        var r := [""] + rest;
        assert Split(s, sep) == r && r[1..] == rest;
        assert Join(r, sep) == "" + [sep] + Join(rest, sep);
      } else if |rest| == 1 {
        assert Split(s, sep) == [[s[0]] + rest[0]];
      } else {
        var r := [[s[0]] + rest[0]] + rest[1..];
        assert Split(s, sep) == r && r[0] == [s[0]] + rest[0] && r[1..] == rest[1..];
        assert Join(r, sep) == [s[0]] + rest[0] + [sep] + Join(rest[1..], sep);
        assert Join(rest, sep) == rest[0] + [sep] + Join(rest[1..], sep);
      }
    }
  }

  /** A string without the separator splits into itself alone. */
  lemma SplitWithoutSeparator(s: string, sep: char)
    requires sep !in s
    ensures Split(s, sep) == [s]
  {
    JoinSplit(s, sep);
  }

  /** A character in no field, other than the separator, is not in the join. */
  lemma {:induction false} JoinAvoids(fields: seq<string>, sep: char, c: char)
    requires c != sep && forall t :: 0 <= t < |fields| ==> c !in fields[t]
    ensures c !in Join(fields, sep)
    decreases |fields|
  {
    if |fields| > 1 {
      JoinAvoids(fields[1..], sep, c);
      assert Join(fields, sep) == fields[0] + [sep] + Join(fields[1..], sep);
    }
  }

  /** Text appended after a join lands in the last field. */
  lemma {:induction false} JoinAppendLast(fields: seq<string>, sep: char, tail: string)
    requires |fields| >= 1
    ensures Join(fields, sep) + tail == Join(fields[..|fields| - 1] + [fields[|fields| - 1] + tail], sep)
    decreases |fields|
  {
    if |fields| > 1 {
      var rest := fields[1..];
      var last := fields[|fields| - 1] + tail;
      var g := fields[..|fields| - 1] + [last];
      var g' := rest[..|rest| - 1] + [last];
      JoinAppendLast(rest, sep, tail);
      assert g[0] == fields[0] && g[1..] == g';
      calc {
        Join(fields, sep) + tail;
        (fields[0] + [sep] + Join(rest, sep)) + tail;
        fields[0] + [sep] + (Join(rest, sep) + tail);
        fields[0] + [sep] + Join(g', sep);
        Join(g, sep);
      }
    }
  }

  /** With two or more fields the join ends in `sep` and the last field. */
  lemma {:induction false} JoinLast(fields: seq<string>, sep: char)
    requires |fields| >= 2
    ensures Join(fields, sep) == Join(fields[..|fields| - 1], sep) + [sep] + fields[|fields| - 1]
    decreases |fields|
  {
    if |fields| > 2 {
      JoinLast(fields[1..], sep);
      assert fields[..|fields| - 1][1..] == fields[1..][..|fields[1..]| - 1];
    }
  }

  predicate IsDigit(c: char) {
    '0' <= c <= '9'
  }

  function DigitChar(d: nat): (c: char)
    requires d < 10
    ensures IsDigit(c) && c as int - '0' as int == d
  {
    (d + '0' as int) as char
  }

  /** `str(n)` for a non-negative integer: decimal digits, no leading zero. */
  function NatToStr(n: nat): (r: string)
    ensures |r| >= 1
    ensures forall k :: 0 <= k < |r| ==> IsDigit(r[k])
    decreases n
  {
    if n < 10 then [DigitChar(n)] else NatToStr(n / 10) + [DigitChar(n % 10)]
  }

  /** `str(x)` for an integer. */
  function IntToStr(x: int): (r: string)
    ensures |r| >= 1 && IsDigit(r[|r| - 1])
    ensures forall k :: 0 <= k < |r| ==> IsDigit(r[k]) || (k == 0 && r[k] == '-')
  {
    if x < 0 then "-" + NatToStr(-x) else NatToStr(x)
  }

  /** The digit strings Python's `int` accepts in base 10: digits, with
      single underscores allowed between two digits. */
  predicate DigitGroups(u: string) {
    && |u| > 0
    && IsDigit(u[0])
    && IsDigit(u[|u| - 1])
    && (forall k :: 0 <= k < |u| ==> IsDigit(u[k]) || u[k] == '_')
    && (forall k :: 0 <= k < |u| - 1 ==> IsDigit(u[k]) || IsDigit(u[k + 1]))
  }

  /** The value of a digit string, underscores skipped. */
  function DigitsValue(u: string): nat
    requires forall k :: 0 <= k < |u| ==> IsDigit(u[k]) || u[k] == '_'
    decreases |u|
  {
    if |u| == 0 then 0
    else if u[|u| - 1] == '_' then DigitsValue(u[..|u| - 1])
    else
      var d := u[|u| - 1] as int - '0' as int;
      assert IsDigit(u[|u| - 1]);
      10 * DigitsValue(u[..|u| - 1]) + d
  }

  /** `int(s)`: `None` where Python raises `ValueError`. White space around
      the number and one leading sign are accepted. */
  function ParseInt(s: string): (r: Option<int>)
    ensures r.Some? ==> exists k :: 0 <= k < |s| && IsDigit(s[k])
    ensures r.Some? ==> Strip(s) != ""
  {
    ParseIntHasDigit(s);
    ParseStripped(IntStrip(s))
  }

  /** `int` reads only what is left once the characters it skips are gone. */
  lemma ParseIntAlike(s: string, t: string)
    requires IntStrip(s) == IntStrip(t)
    ensures ParseInt(s) == ParseInt(t)
  {
  }

  /** A number `int` reads holds a digit, and a digit is not white space. */
  lemma ParseIntHasDigit(s: string)
    ensures ParseStripped(IntStrip(s)).Some? ==> exists k :: 0 <= k < |s| && IsDigit(s[k])
    ensures ParseStripped(IntStrip(s)).Some? ==> Strip(s) != ""
  {
    var t := IntStrip(s);
    if ParseStripped(t).Some? {
      var k :| 0 <= k < |t| && IsDigit(t[k]);
      var i := CutIndex(s, t, IsIntSpace, k);
      DigitIsNotSpace(s[i]);
      assert !IsSpace(s[i]);
    }
  }

  /** A character of a cut is a character of the string it was cut from. */
  lemma CutIndex(s: string, t: string, sp: char -> bool, k: int) returns (i: int)
    requires CutFrom(s, t, sp) && 0 <= k < |t|
    ensures 0 <= i < |s| && s[i] == t[k]
  {
    var a, b :| 0 <= a <= b <= |s| && t == s[a..b] && forall k :: (0 <= k < a || b <= k < |s|) ==> sp(s[k]);
    i := a + k;
  }

  /** What `int` accepts once white space is stripped: an optional sign,
      then digit groups. */
  function ParseStripped(t: string): (r: Option<int>)
    ensures r.Some? ==> exists k :: 0 <= k < |t| && IsDigit(t[k])
  {
    if |t| > 0 && (t[0] == '+' || t[0] == '-') then
      var u := t[1..];
      if DigitGroups(u) then Some(if t[0] == '-' then -(DigitsValue(u) as int) else DigitsValue(u)) else None
    else if DigitGroups(t) then Some(DigitsValue(t))
    else None
  }

  lemma {:induction false} NatToStrValue(n: nat)
    ensures DigitsValue(NatToStr(n)) == n
    decreases n
  {
    if n >= 10 {
      NatToStrValue(n / 10);
      var s := NatToStr(n);
      assert s[..|s| - 1] == NatToStr(n / 10);
    }
  }

  lemma DigitIsNotSpace(c: char)
    requires IsDigit(c) || c == '-'
    ensures !IsSpace(c)
  {
  }

  /** `str(x)` has no white space to strip, for `strip()` and for `int()`. */
  lemma IntToStrUnstripped(x: int)
    ensures Strip(IntToStr(x)) == IntToStr(x) && IntStrip(IntToStr(x)) == IntToStr(x)
  {
    var s := IntToStr(x);
    DigitIsNotSpace(s[0]);
    DigitIsNotSpace(s[|s| - 1]);
    StripUntrimmed(s);
  }

  lemma NatToStrGroups(n: nat)
    ensures DigitGroups(NatToStr(n))
  {
    var s := NatToStr(n);
    assert IsDigit(s[0]) && IsDigit(s[|s| - 1]);
  }

  /** Digit groups without a sign read as their value. */
  lemma ParseStrippedUnsigned(u: string)
    requires DigitGroups(u)
    ensures ParseStripped(u) == Some(DigitsValue(u))
  {
    assert IsDigit(u[0]);
  }

  /** A `-` and digit groups read as the negated value. */
  lemma ParseStrippedNegative(t: string)
    requires |t| > 0 && t[0] == '-' && DigitGroups(t[1..])
    ensures ParseStripped(t) == Some(-(DigitsValue(t[1..]) as int))
  {
  }

  /** `int(str(x)) == x` for every integer `x`. */
  lemma IntToStrRoundTrip(x: int)
    ensures ParseInt(IntToStr(x)) == Some(x)
  {
    IntToStrUnstripped(x);
    ParseIntUnstripped(IntToStr(x));
    ParseStrippedIntToStr(x);
  }

  /** `int` reads a text with nothing to skip as it stands. */
  lemma ParseIntUnstripped(s: string)
    requires IntStrip(s) == s
    ensures ParseInt(s) == ParseStripped(s)
  {
  }

  /** The text `str(x)` reads back as `x`. */
  lemma ParseStrippedIntToStr(x: int)
    ensures ParseStripped(IntToStr(x)) == Some(x)
  {
    var s := IntToStr(x);
    if x < 0 {
      var n := -x;
      NatToStrValue(n);
      NatToStrGroups(n);
      assert s == "-" + NatToStr(n);
      assert s[1..] == NatToStr(n);
      ParseStrippedNegative(s);
    } else {
      NatToStrValue(x);
      NatToStrGroups(x);
      ParseStrippedUnsigned(s);
    }
  }
}
