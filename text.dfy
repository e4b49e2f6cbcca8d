/** The Python string operations the extraction pipeline relies on:
    `str.isspace`, `str.strip`, `str.replace`, `str(int)` and `str.join`. */
module Text {

  /** `c.isspace()`: the characters Python counts as whitespace. */
  predicate IsSpace(c: char)
  {
    || ('\t' <= c <= '\r')
    || ('\U{1C}' <= c <= '\U{1F}')
    || c == ' '
    || c == '\U{85}'
    || c == '\U{A0}'
    || c == '\U{1680}'
    || ('\U{2000}' <= c <= '\U{200A}')
    || c == '\U{2028}'
    || c == '\U{2029}'
    || c == '\U{202F}'
    || c == '\U{205F}'
    || c == '\U{3000}'
  }

  predicate AllSpace(s: string)
  {
    forall k :: 0 <= k < |s| ==> IsSpace(s[k])
  }

  /** `s.lstrip()`: drops the longest all-whitespace prefix. */
  function TrimStart(s: string): (r: string)
    ensures |r| <= |s| && r == s[|s| - |r|..]
    ensures AllSpace(s[..|s| - |r|])
    ensures r != [] ==> !IsSpace(r[0])
  {
    if s != [] && IsSpace(s[0]) then
      var r := TrimStart(s[1..]);
      assert s[..|s| - |r|] == [s[0]] + s[1..][..|s| - 1 - |r|];
      r
    else s
  }

  /** `s.rstrip()`: drops the longest all-whitespace suffix. */
  function TrimEnd(s: string): (r: string)
    ensures |r| <= |s| && r == s[..|r|]
    ensures AllSpace(s[|r|..])
    ensures r != [] ==> !IsSpace(r[|r| - 1])
  {
    if s != [] && IsSpace(s[|s| - 1]) then
      var r := TrimEnd(s[..|s| - 1]);
      assert s[|r|..] == s[..|s| - 1][|r|..] + [s[|s| - 1]];
      r
    else s
  }

  /** `r` is an infix of `s` with only whitespace before and after it. */
  predicate PaddedBy(s: string, r: string)
  {
    exists i :: 0 <= i <= i + |r| <= |s| && r == s[i..i + |r|] &&
                AllSpace(s[..i]) && AllSpace(s[i + |r|..])
  }

  /** `s.strip()`: the infix left once leading and trailing whitespace are gone. */
  function Strip(s: string): (r: string)
    ensures PaddedBy(s, r)
    ensures r != [] ==> !IsSpace(r[0]) && !IsSpace(r[|r| - 1])
  {
    var t := TrimStart(s);
    var r := TrimEnd(t);
    TrimmedInfix(s, t, r);
    r
  }

  /** A suffix `t` of `s` after blanks, cut to a prefix `r` before blanks, is
      an infix of `s` with blanks on both sides. */
  lemma TrimmedInfix(s: string, t: string, r: string)
    requires |t| <= |s| && t == s[|s| - |t|..] && AllSpace(s[..|s| - |t|])
    requires |r| <= |t| && r == t[..|r|] && AllSpace(t[|r|..])
    ensures PaddedBy(s, r)
  {
    var i := |s| - |t|;
    assert r == s[i..i + |r|];
    assert s[i + |r|..] == t[|r|..];
  }

  /** `s.replace(pat, rep)`: scans left to right and replaces each
      non-overlapping occurrence of `pat`. */
  function ReplaceAll(s: string, pat: string, rep: string): (r: string)
    requires pat != []
    ensures pat[0] !in s ==> r == s
    ensures rep == [] ==> forall c :: c in r ==> c in s
    ensures |pat| == 1 && rep == [] ==> pat[0] !in r
    decreases |s|
  {
    if s == [] then []
    else if pat <= s then rep + ReplaceAll(s[|pat|..], pat, rep)
    else [s[0]] + ReplaceAll(s[1..], pat, rep)
  }

  function DigitChar(d: nat): (c: char)
    requires d < 10
  {
    "0123456789"[d]
  }

  /** `str(n)` for a natural number: decimal, no leading zeros. */
  function NatToDecimal(n: nat): (r: string)
    ensures r != []
    ensures forall k :: 0 <= k < |r| ==> '0' <= r[k] <= '9'
    ensures |r| > 1 ==> r[0] != '0'
  {
    if n < 10 then [DigitChar(n)] else NatToDecimal(n / 10) + [DigitChar(n % 10)]
  }

  /** `str(i)` for a Python int: an optional `-`, then the decimal digits
      of `|i|`. */
  function IntToDecimal(i: int): (r: string)
    ensures r != []
    ensures (r[0] == '-') <==> i < 0
    ensures var digits := if i < 0 then r[1..] else r;
            digits != [] &&
            (forall k :: 0 <= k < |digits| ==> '0' <= digits[k] <= '9') &&
            (|digits| > 1 ==> digits[0] != '0') &&
            DecimalValue(digits) == (if i < 0 then -i else i)
  {
    if i < 0 then
      DecimalRoundTrip(-i);
      var d := NatToDecimal(-i);
      assert ("-" + d)[1..] == d;
      "-" + d
    else
      DecimalRoundTrip(i);
      NatToDecimal(i)
  }

  /** The number a string of decimal digits denotes (the reading of `int(s)`). */
  function DecimalValue(s: string): nat
  {
    if s == [] then 0
    else
      var c := s[|s| - 1];
      var d := if '0' <= c <= '9' then (c - '0') as nat else 0;
      DecimalValue(s[..|s| - 1]) * 10 + d
  }

  /** Reading back what `NatToDecimal` printed gives the number again. */
  lemma {:induction false} DecimalRoundTrip(n: nat)
    ensures DecimalValue(NatToDecimal(n)) == n
  {
    if n >= 10 {
      DecimalRoundTrip(n / 10);
      var s := NatToDecimal(n);
      assert s[..|s| - 1] == NatToDecimal(n / 10);
    }
  }

  /** `sep.join(xs)`. */
  function Join(xs: seq<string>, sep: string): (r: string)
    ensures xs == [] ==> r == []
    ensures |xs| == 1 ==> r == xs[0]
  {
    if xs == [] then []
    else if |xs| == 1 then xs[0]
    else xs[0] + sep + Join(xs[1..], sep)
  }

  /** `sep.join(xs + [x])` is `sep.join(xs)`, the separator, then `x`: the
      separator stands between every two neighbours. */
  lemma {:induction false} JoinAppend(xs: seq<string>, x: string, sep: string)
    requires xs != []
    ensures Join(xs + [x], sep) == Join(xs, sep) + sep + x
  {
    var ys := xs + [x];
    if |xs| == 1 {
      assert ys[1..] == [x];
    } else {
      assert ys[1..] == xs[1..] + [x];
      JoinAppend(xs[1..], x, sep);
      calc {
        Join(ys, sep);
        xs[0] + sep + Join(xs[1..] + [x], sep);
        xs[0] + sep + (Join(xs[1..], sep) + sep + x);
        (xs[0] + sep + Join(xs[1..], sep)) + sep + x;
        Join(xs, sep) + sep + x;
      }
    }
  }

  /** `s` with every `c` removed and the other characters kept in order: an
      independent reading of `s.replace(c, "")`. */
  function DropChar(s: string, c: char): string
  {
    if s == [] then []
    else (if s[0] == c then [] else [s[0]]) + DropChar(s[1..], c)
  }

  lemma {:induction false} DropCharAppend(a: string, b: string, c: char)
    ensures DropChar(a + b, c) == DropChar(a, c) + DropChar(b, c)
  {
    if a == [] {
      assert a + b == b;
    } else {
      assert (a + b)[0] == a[0] && (a + b)[1..] == a[1..] + b;
      DropCharAppend(a[1..], b, c);
    }
  }

  /** Deleting a one-character pattern removes exactly that character and
      keeps every other one, in order. */
  lemma {:induction false} ReplaceCharIsDrop(s: string, c: char)
    ensures ReplaceAll(s, [c], []) == DropChar(s, c)
    decreases |s|
  {
    if s != [] {
      ReplaceCharIsDrop(s[1..], c);
      if s[0] == c {
        assert [c] <= s;
        assert [] + ReplaceAll(s[1..], [c], []) == ReplaceAll(s[1..], [c], []);
      } else {
        assert !([c] <= s);
      }
    }
  }

  /** Removing the "```" fences first changes nothing about removing every
      backtick afterwards. */
  lemma {:induction false} FencesThenBackticks(s: string)
    ensures DropChar(ReplaceAll(s, "```", []), '`') == DropChar(s, '`')
    decreases |s|
  {
    if s != [] {
      var rest := ReplaceAll(s, "```", []);
      if "```" <= s {
        FencesThenBackticks(s[3..]);
        assert rest == ReplaceAll(s[3..], "```", []);
        assert s == s[..3] + s[3..];
        assert s[..3] == "```";
        DropCharAppend(s[..3], s[3..], '`');
        assert DropChar("```", '`') == [];
      } else {
        FencesThenBackticks(s[1..]);
        assert rest == [s[0]] + ReplaceAll(s[1..], "```", []);
        DropCharAppend([s[0]], ReplaceAll(s[1..], "```", []), '`');
        assert DropChar([s[0]], '`') == if s[0] == '`' then [] else [s[0]];
      }
    }
  }
}
