/**
  The parts of Go's `strings` and `fmt` packages the catalog relies on: joining and
  splitting namespaces on a one-character separator, and `%d` formatting of an int.
  `ParseInt` is not used by the catalog; it is the inverse against which `%d` is checked.
*/
module GoStrings {
  import opened Results

  /** Total length of the parts. */
  function SumLengths(parts: seq<string>): nat
  {
    if |parts| == 0 then 0 else |parts[0]| + SumLengths(parts[1..])
  }

  /**
    `strings.Join(parts, sep)`: the parts in order with one separator between neighbours.
    When no part holds the separator, it occurs in the result exactly when there are at
    least two parts.
  */
  function Join(parts: seq<string>, sep: char): (r: string)
    ensures |parts| == 0 ==> r == ""
    ensures |parts| > 0 ==> |r| == SumLengths(parts) + |parts| - 1
    ensures |parts| > 0 ==> parts[0] <= r
    ensures NoSep(parts, sep) ==> (sep in r <==> |parts| > 1)
  {
    if |parts| == 0 then ""
    else if |parts| == 1 then parts[0]
    else parts[0] + [sep] + Join(parts[1..], sep)
  }

  /**
    `strings.Split(s, sep)`: every occurrence of `sep` cuts; the empty string yields `[""]`.
    The pieces hold no separator and join back to `s`.
  */
  function Split(s: string, sep: char): (pieces: seq<string>)
    ensures |pieces| > 0
    ensures NoSep(pieces, sep)
    ensures Join(pieces, sep) == s
  {
    if |s| == 0 then [""]
    else
      var rest := Split(s[1..], sep);
      if s[0] == sep then
        assert Join([""] + rest, sep) == "" + [sep] + Join(rest, sep);
        assert [sep] + s[1..] == s;
        [""] + rest
      else
        var pieces := [[s[0]] + rest[0]] + rest[1..];
        assert pieces[1..] == rest[1..];
        assert Join(pieces, sep) == [s[0]] + Join(rest, sep);
        assert [s[0]] + s[1..] == s;
        pieces
  }

  /** No part contains the separator. */
  predicate NoSep(parts: seq<string>, sep: char)
  {
    forall i :: 0 <= i < |parts| ==> sep !in parts[i]
  }

  lemma {:induction false} SplitWithoutSep(s: string, sep: char)
    requires sep !in s
    ensures Split(s, sep) == [s]
  {
    if |s| > 0 {
      SplitWithoutSep(s[1..], sep);
      assert [s[0]] + s[1..] == s;
    }
  }

  lemma {:induction false} SplitAfterPiece(a: string, sep: char, b: string)
    requires sep !in a
    ensures Split(a + [sep] + b, sep) == [a] + Split(b, sep)
  {
    var s := a + [sep] + b;
    if |a| == 0 {
      assert s[0] == sep && s[1..] == b;
    } else {
      assert s[0] == a[0] && s[1..] == a[1..] + [sep] + b;
      SplitAfterPiece(a[1..], sep, b);
      assert [a[0]] + a[1..] == a;
    }
  }

  /** Splitting a joined namespace gives it back, provided no segment holds the separator. */
  lemma {:induction false} SplitJoin(parts: seq<string>, sep: char)
    requires |parts| > 0
    requires NoSep(parts, sep)
    ensures Split(Join(parts, sep), sep) == parts
  {
    if |parts| == 1 {
      SplitWithoutSep(parts[0], sep);
    } else {
      SplitJoin(parts[1..], sep);
      SplitAfterPiece(parts[0], sep, Join(parts[1..], sep));
      assert [parts[0]] + parts[1..] == parts;
    }
  }

  /** Splits `s` at the last occurrence of `sep`, or None when there is none. */
  function SplitLast(s: string, sep: char): Option<(string, string)>
  {
    if |s| == 0 then None
    else if s[|s| - 1] == sep then Some((s[..|s| - 1], ""))
    else
      match SplitLast(s[..|s| - 1], sep)
      case None => None
      case Some(pq) => Some((pq.0, pq.1 + [s[|s| - 1]]))
  }

  lemma {:induction false} SplitLastAfter(p: string, sep: char, t: string)
    requires sep !in t
    ensures SplitLast(p + [sep] + t, sep) == Some((p, t))
  {
    var s := p + [sep] + t;
    if |t| == 0 {
      assert s[..|s| - 1] == p;
    } else {
      var t' := t[..|t| - 1];
      assert s[|s| - 1] == t[|t| - 1];
      assert s[..|s| - 1] == p + [sep] + t';
      SplitLastAfter(p, sep, t');
      assert t' + [t[|t| - 1]] == t;
    }
  }

  predicate IsDigit(c: char)
  {
    '0' <= c <= '9'
  }

  predicate AllDigits(s: string)
  {
    forall i :: 0 <= i < |s| ==> IsDigit(s[i])
  }

  function DigitChar(d: nat): char
    requires d < 10
  {
    (('0' as int) + d) as char
  }

  function DigitValue(c: char): nat
    requires IsDigit(c)
  {
    (c as int) - ('0' as int)
  }

  /** Decimal digits of `n`, most significant first, with no leading zeros. */
  function NatToDecimal(n: nat): (s: string)
    ensures |s| > 0 && IsDigit(s[0]) && (s[0] == '0' ==> n == 0 && s == "0")
    decreases n
  {
    if n < 10 then [DigitChar(n)]
    else NatToDecimal(n / 10) + [DigitChar(n % 10)]
  }

  /**
    The canonical shape of `%d` text: non-empty, "0" the only text starting with '0',
    and no zero right after a minus sign.
  */
  predicate Canonical(s: string)
  {
    && |s| > 0
    && (s[0] == '0' ==> s == "0")
    && (s[0] == '-' ==> |s| > 1 && s[1] != '0')
  }

  /**
    `fmt.Sprintf("%d", i)`: canonical text, with a leading minus exactly for negative `i`,
    that reads back as `i` and holds no '/'.
  */
  function IntToDecimal(i: int): (r: string)
    ensures |r| > 0 && (r[0] == '-' <==> i < 0)
    ensures r[0] == '0' ==> r == "0"
    ensures i < 0 ==> |r| > 1 && r[1] != '0'
    ensures ParseInt(r) == Some(i)
    ensures '/' !in r
  {
    var d: nat := if i < 0 then -i else i;
    NatToDecimalDigits(d);
    var digits := NatToDecimal(d);
    assert forall k :: 0 <= k < |digits| ==> digits[k] != '/';
    if i < 0 then
      var r := "-" + digits;
      assert r[1..] == digits;
      assert forall k :: 0 < k < |r| ==> r[k] == digits[k - 1];
      r
    else
      assert digits[0] != '-';
      digits
  }

  function DigitsValue(s: string): nat
    requires AllDigits(s)
  {
    if |s| == 0 then 0
    else 10 * DigitsValue(s[..|s| - 1]) + DigitValue(s[|s| - 1])
  }

  /** Reads an optionally negative decimal; the inverse of `IntToDecimal`. */
  function ParseInt(s: string): Option<int>
  {
    if |s| > 1 && s[0] == '-' && AllDigits(s[1..]) then Some(-(DigitsValue(s[1..]) as int))
    else if |s| > 0 && AllDigits(s) then Some(DigitsValue(s))
    else None
  }

  lemma {:induction false} NatToDecimalDigits(n: nat)
    ensures |NatToDecimal(n)| > 0
    ensures AllDigits(NatToDecimal(n))
    ensures DigitsValue(NatToDecimal(n)) == n
    decreases n
  {
    if n >= 10 {
      NatToDecimalDigits(n / 10);
      var s := NatToDecimal(n);
      assert s[..|s| - 1] == NatToDecimal(n / 10);
    }
  }

  lemma {:induction false} LeadingDigitPositive(s: string)
    requires |s| > 0 && AllDigits(s) && s[0] != '0'
    ensures DigitsValue(s) > 0
  {
    if |s| > 1 {
      LeadingDigitPositive(s[..|s| - 1]);
    }
  }

  /** A digit string without a leading zero (or "0" itself) is the decimal text of its value. */
  lemma {:induction false} CanonicalDigits(s: string)
    requires |s| > 0 && AllDigits(s) && (s[0] == '0' ==> s == "0")
    ensures NatToDecimal(DigitsValue(s)) == s
  {
    var v := DigitsValue(s);
    if |s| == 1 {
      assert s[..0] == "";
      assert [DigitChar(DigitValue(s[0]))] == s;
    } else {
      var p := s[..|s| - 1];
      assert p[0] == s[0];
      LeadingDigitPositive(p);
      CanonicalDigits(p);
      assert v / 10 == DigitsValue(p) && v % 10 == DigitValue(s[|s| - 1]);
      assert p + [s[|s| - 1]] == s;
    }
  }

  /**
    Canonical text that parses is exactly the `%d` text of its value: together with the
    contract of `IntToDecimal` this pins that text down completely.
  */
  lemma CanonicalIsDecimal(s: string)
    requires Canonical(s) && ParseInt(s).Some?
    ensures s == IntToDecimal(ParseInt(s).value)
  {
    if s[0] == '-' {
      var t := s[1..];
      assert t[0] == s[1];
      LeadingDigitPositive(t);
      CanonicalDigits(t);
      assert "-" + t == s;
    } else {
      CanonicalDigits(s);
    }
  }
}
