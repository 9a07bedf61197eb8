/** String operations the converter engine relies on: JavaScript's
    `String.prototype.split` with a literal separator, the comma join the writer
    produces, the header's comma-to-period rename, decimal rendering of integers
    and the decimal subset of `parseInt`. */
module Text {
  import opened Wrappers

  // ---------------------------------------------------------------------------
  // split / join
  // ---------------------------------------------------------------------------

  /** `s.split(sep)` for a non-empty literal separator: scans left to right and
      cuts at every non-overlapping occurrence of `sep`. Like JavaScript, it
      always yields at least one piece (`"".split("; ")` is `[""]`). */
  function Split(s: string, sep: string): (parts: seq<string>)
    requires |sep| > 0
    ensures |parts| >= 1
    decreases |s|
  {
    if |s| < |sep| then [s]
    else if s[..|sep|] == sep then [""] + Split(s[|sep|..], sep)
    else
      var rest := Split(s[1..], sep);
      [[s[0]] + rest[0]] + rest[1..]
  }

  /** `parts.join(sep)`. */
  function Join(parts: seq<string>, sep: string): string
  {
    if |parts| == 0 then ""
    else if |parts| == 1 then parts[0]
    else parts[0] + sep + Join(parts[1..], sep)
  }

  /** `sep` occurs in `t` at position `k`. */
  predicate SepAt(t: string, sep: string, k: int) {
    0 <= k && k + |sep| <= |t| && t[k..k + |sep|] == sep
  }

  /** `sep` occurs nowhere in `t`. */
  predicate Free(t: string, sep: string) {
    forall k :: 0 <= k <= |t| ==> !SepAt(t, sep, k)
  }

  /** The first piece of a split is a prefix of the text. */
  lemma {:induction false} SplitFirstPrefix(s: string, sep: string)
    requires |sep| > 0
    ensures Split(s, sep)[0] <= s
    decreases |s|
  {
    if |s| >= |sep| && s[..|sep|] != sep {
      SplitFirstPrefix(s[1..], sep);
      assert s == [s[0]] + s[1..];
    }
  }

  /** A separator-free text stays free when a character is put before it,
      provided the result starts a text that does not start with `sep`. */
  lemma FreeCons(c: char, t: string, sep: string, s: string)
    requires |sep| > 0 && Free(t, sep)
    requires [c] + t <= s
    requires |s| >= |sep| && s[..|sep|] != sep
    ensures Free([c] + t, sep)
  {
    var u := [c] + t;
    forall k | 0 <= k <= |u|
      ensures !SepAt(u, sep, k)
    {
      if k == 0 && |sep| <= |u| {
        assert u[..|sep|] == s[..|sep|];
      } else if 0 < k && k + |sep| <= |u| {
        assert u[k..k + |sep|] == t[k - 1..k - 1 + |sep|];
        assert !SepAt(t, sep, k - 1);
      }
    }
  }

  /** No piece of a split contains the separator. Together with `JoinSplit`
      this fixes the pieces for a separator that cannot overlap itself, such
      as `"; "`: they are the text cut at each occurrence of it. */
  lemma {:induction false} SplitPiecesFree(s: string, sep: string)
    requires |sep| > 0
    ensures forall i :: 0 <= i < |Split(s, sep)| ==> Free(Split(s, sep)[i], sep)
    decreases |s|
  {
    var parts := Split(s, sep);
    if |s| < |sep| {
      assert parts == [s];
    } else if s[..|sep|] == sep {
      SplitPiecesFree(s[|sep|..], sep);
      assert parts == [""] + Split(s[|sep|..], sep);
      assert Free("", sep);
    } else {
      var rest := Split(s[1..], sep);
      SplitPiecesFree(s[1..], sep);
      SplitFirstPrefix(s[1..], sep);
      assert [s[0]] + rest[0] <= s by {
        assert s == [s[0]] + s[1..];
      }
      FreeCons(s[0], rest[0], sep, s);
      assert parts == [[s[0]] + rest[0]] + rest[1..];
      forall i | 0 <= i < |parts|
        ensures Free(parts[i], sep)
      {
        if i > 0 {
          assert parts[i] == rest[i];
        }
      }
    }
  }

  /** Appending one more piece adds the separator and the piece at the end. */
  lemma {:induction false} JoinSnoc(parts: seq<string>, x: string, sep: string)
    requires |parts| > 0
    ensures Join(parts + [x], sep) == Join(parts, sep) + sep + x
    decreases |parts|
  {
    if |parts| == 1 {
      assert parts + [x] == [parts[0], x];
      assert ([parts[0], x])[1..] == [x];
    } else {
      assert (parts + [x])[1..] == parts[1..] + [x];
      JoinSnoc(parts[1..], x, sep);
    }
  }

  /** Prepending text to the first piece prepends it to the join. */
  lemma JoinPrepend(c: string, parts: seq<string>, sep: string)
    requires |parts| >= 1
    ensures Join([c + parts[0]] + parts[1..], sep) == c + Join(parts, sep)
  {
    var q := [c + parts[0]] + parts[1..];
    if |parts| > 1 {
      assert q[1..] == parts[1..];
    }
  }

  /** Joining the pieces of a split with the same separator gives back the
      original text. */
  lemma {:induction false} JoinSplit(s: string, sep: string)
    requires |sep| > 0
    ensures Join(Split(s, sep), sep) == s
    decreases |s|
  {
    if |s| < |sep| {
    } else if s[..|sep|] == sep {
      var rest := Split(s[|sep|..], sep);
      JoinSplit(s[|sep|..], sep);
      assert Join([""] + rest, sep) == "" + sep + Join(rest, sep) by {
        assert ([""] + rest)[1..] == rest;
      }
      assert s == s[..|sep|] + s[|sep|..];
    } else {
      var rest := Split(s[1..], sep);
      JoinSplit(s[1..], sep);
      JoinPrepend([s[0]], rest, sep);
      assert s == [s[0]] + s[1..];
    }
  }

  /** A text without the (one-character) separator splits into itself alone. */
  lemma {:induction false} SplitWithoutSeparator(t: string, sep: string)
    requires |sep| == 1
    requires sep[0] !in t
    ensures Split(t, sep) == [t]
    decreases |t|
  {
    if |t| >= 1 {
      assert t[..1] != sep by { assert t[..1][0] == t[0]; }
      SplitWithoutSeparator(t[1..], sep);
      assert [t[0]] + t[1..] == t;
    }
  }

  /** Splitting `t + sep + rest` cuts exactly after `t` when `t` holds no
      separator character. */
  lemma {:induction false} SplitAfterPiece(t: string, sep: string, rest: string)
    requires |sep| == 1
    requires sep[0] !in t
    ensures Split(t + sep + rest, sep) == [t] + Split(rest, sep)
    decreases |t|
  {
    var s := t + sep + rest;
    if |t| == 0 {
      assert s == sep + rest;
      assert s[..1] == sep;
      assert s[1..] == rest;
    } else {
      assert s[..1] != sep by { assert s[..1][0] == t[0]; }
      assert s[1..] == t[1..] + sep + rest;
      SplitAfterPiece(t[1..], sep, rest);
      assert [t[0]] + t[1..] == t;
    }
  }

  /** Splitting a join gives the pieces back, provided no piece holds the
      (one-character) separator. */
  lemma {:induction false} SplitJoin(parts: seq<string>, sep: string)
    requires |sep| == 1
    requires |parts| >= 1
    requires forall i :: 0 <= i < |parts| ==> sep[0] !in parts[i]
    ensures Split(Join(parts, sep), sep) == parts
    decreases |parts|
  {
    if |parts| == 1 {
      SplitWithoutSeparator(parts[0], sep);
    } else {
      SplitJoin(parts[1..], sep);
      SplitAfterPiece(parts[0], sep, Join(parts[1..], sep));
      assert [parts[0]] + parts[1..] == parts;
    }
  }

  /** The first piece of a split on a one-character separator is the longest
      separator-free prefix: it is a prefix, holds no separator, and either is
      the whole text or is followed by the separator. */
  lemma {:induction false} FirstPiece(s: string, sep: string)
    requires |sep| == 1
    ensures var p := Split(s, sep)[0];
      && p <= s
      && sep[0] !in p
      && (|p| == |s| || s[|p|] == sep[0])
    decreases |s|
  {
    if |s| < 1 {
    } else if s[..1] == sep {
      assert s[0] == s[..1][0];
    } else {
      assert s[0] != sep[0] by { assert s[..1][0] == s[0]; }
      FirstPiece(s[1..], sep);
      var q := Split(s[1..], sep)[0];
      assert Split(s, sep)[0] == [s[0]] + q;
      assert s == [s[0]] + s[1..];
    }
  }

  /** The first piece of a text that starts with a separator-free `lead` is
      `lead` followed by the part of the rest before its first separator. */
  lemma FirstPieceKeepsLead(lead: string, rest: string, sep: string)
    requires |sep| == 1 && sep[0] !in lead
    ensures var p := Split(lead + rest, sep)[0];
      && |p| >= |lead| && p[..|lead|] == lead
      && p[|lead|..] <= rest
  {
    var s := lead + rest;
    FirstPiece(s, sep);
    var p := Split(s, sep)[0];
    assert p[..|lead|] == s[..|lead|] == lead;
    assert p[|lead|..] == s[|lead|..|p|];
  }

  /** Number of occurrences of `c` in `s`. */
  function Count(s: string, c: char): nat
  {
    if |s| == 0 then 0 else (if s[0] == c then 1 else 0) + Count(s[1..], c)
  }

  lemma {:induction false} CountAppend(a: string, b: string, c: char)
    ensures Count(a + b, c) == Count(a, c) + Count(b, c)
    decreases |a|
  {
    if |a| > 0 {
      assert (a + b)[1..] == a[1..] + b;
      CountAppend(a[1..], b, c);
    } else {
      assert a + b == b;
    }
  }

  lemma {:induction false} CountAbsent(s: string, c: char)
    requires c !in s
    ensures Count(s, c) == 0
    decreases |s|
  {
    if |s| > 0 {
      assert c !in s[1..] by {
        forall i | 0 <= i < |s[1..]| ensures s[1..][i] != c {
          assert s[1..][i] == s[i + 1];
        }
      }
      CountAbsent(s[1..], c);
    }
  }

  /** A character in neither the pieces nor the separator is not in their
      join. */
  lemma {:induction false} JoinAbsent(parts: seq<string>, sep: string, c: char)
    requires c !in sep
    requires forall i :: 0 <= i < |parts| ==> c !in parts[i]
    ensures c !in Join(parts, sep)
    decreases |parts|
  {
    if |parts| > 1 {
      JoinAbsent(parts[1..], sep, c);
      assert c !in parts[0] + sep;
    }
  }

  /** A join of separator-free pieces holds exactly one separator fewer than it
      has pieces. */
  lemma {:induction false} JoinCount(parts: seq<string>, c: char)
    requires |parts| >= 1
    requires forall i :: 0 <= i < |parts| ==> c !in parts[i]
    ensures Count(Join(parts, [c]), c) == |parts| - 1
    decreases |parts|
  {
    CountAbsent(parts[0], c);
    if |parts| > 1 {
      JoinCount(parts[1..], c);
      CountAppend(parts[0], [c], c);
      CountAppend(parts[0] + [c], Join(parts[1..], [c]), c);
    }
  }

  // ---------------------------------------------------------------------------
  // the header rename
  // ---------------------------------------------------------------------------

  /** `name.replace(/,/g, ".")`: every comma becomes a period. */
  function ReplaceCommas(name: string): (r: string)
    ensures |r| == |name|
    ensures ',' !in r
    ensures forall i :: 0 <= i < |name| && name[i] != ',' ==> r[i] == name[i]
    ensures forall i :: 0 <= i < |name| && name[i] == ',' ==> r[i] == '.'
  {
    seq(|name|, i requires 0 <= i < |name| => if name[i] == ',' then '.' else name[i])
  }

  /** The rename leaves a name without commas unchanged, so applying it twice
      is the same as applying it once. */
  lemma ReplaceCommasIdempotent(name: string)
    ensures ',' !in name ==> ReplaceCommas(name) == name
    ensures ReplaceCommas(ReplaceCommas(name)) == ReplaceCommas(name)
  {
    if ',' !in name {
      assert forall i :: 0 <= i < |name| ==> name[i] != ',';
    }
    var r := ReplaceCommas(name);
    assert forall i :: 0 <= i < |r| ==> r[i] != ',';
  }

  // ---------------------------------------------------------------------------
  // integers as decimal text
  // ---------------------------------------------------------------------------

  predicate IsDigit(c: char) {
    '0' <= c <= '9'
  }

  function DigitChar(d: nat): (c: char)
    requires d < 10
    ensures IsDigit(c)
  {
    ('0' as int + d) as char
  }

  function DigitValue(c: char): (d: nat)
    requires IsDigit(c)
    ensures d < 10
  {
    c as int - '0' as int
  }

  predicate AllDigits(s: string) {
    forall i :: 0 <= i < |s| ==> IsDigit(s[i])
  }

  /** Decimal digits of a natural number, most significant first, no leading
      zeros. */
  function NatToString(n: nat): (s: string)
    ensures |s| >= 1
    ensures AllDigits(s)
    decreases n
  {
    if n < 10 then [DigitChar(n)] else NatToString(n / 10) + [DigitChar(n % 10)]
  }

  /** `n.toString()` for an integer: a minus sign before the digits of a
      negative value. */
  function IntToString(n: int): string
  {
    if n < 0 then "-" + NatToString(-n) else NatToString(n)
  }

  /** Value of a run of decimal digits. */
  function DigitsValue(d: string): nat
    requires AllDigits(d)
  {
    if |d| == 0 then 0 else DigitsValue(d[..|d| - 1]) * 10 + DigitValue(d[|d| - 1])
  }

  /** Length of the run of decimal digits at the start of `s`. */
  function DigitRun(s: string): (k: nat)
    ensures k <= |s|
    ensures AllDigits(s[..k])
    ensures k == |s| || !IsDigit(s[k])
  {
    if |s| == 0 || !IsDigit(s[0]) then 0 else 1 + DigitRun(s[1..])
  }

  /** The decimal subset of `parseInt(s)`: an optional sign, then the leading
      run of digits; `None` (JavaScript's NaN) when there is no digit. */
  function ParseInt(s: string): Option<int>
  {
    var neg := |s| > 0 && s[0] == '-';
    var body := if |s| > 0 && (s[0] == '-' || s[0] == '+') then s[1..] else s;
    var k := DigitRun(body);
    if k == 0 then None
    else if neg then Some(-(DigitsValue(body[..k]) as int))
    else Some(DigitsValue(body[..k]))
  }

  lemma {:induction false} DigitsValueOfNat(n: nat)
    ensures DigitsValue(NatToString(n)) == n
    decreases n
  {
    var s := NatToString(n);
    if n >= 10 {
      DigitsValueOfNat(n / 10);
      assert s[..|s| - 1] == NatToString(n / 10);
    }
  }

  lemma {:induction false} DigitRunOfDigits(d: string, rest: string)
    requires AllDigits(d)
    requires |rest| == 0 || !IsDigit(rest[0])
    ensures DigitRun(d + rest) == |d|
    decreases |d|
  {
    if |d| == 0 {
      assert d + rest == rest;
    } else {
      assert (d + rest)[1..] == d[1..] + rest;
      DigitRunOfDigits(d[1..], rest);
    }
  }

  /** Reading back a rendered integer, followed by anything that does not start
      with a digit, yields the integer. */
  lemma ParseIntToString(n: int, rest: string)
    requires |rest| == 0 || !IsDigit(rest[0])
    ensures ParseInt(IntToString(n) + rest) == Some(n)
  {
    var m: nat := if n < 0 then -n else n;
    var d := NatToString(m);
    DigitsValueOfNat(m);
    if n < 0 {
      var s := IntToString(n) + rest;
      assert s == "-" + (d + rest);
      assert s[1..] == d + rest;
      ParseDigits(d, rest);
      ParseAfterSign(s, d);
    } else {
      assert IntToString(n) == d;
      ParseDigitsPrefix(d, rest);
    }
  }

  /** `parseInt` of a sign followed by the digits `d`: their signed value. */
  lemma ParseAfterSign(s: string, d: string)
    requires |s| > 0 && (s[0] == '-' || s[0] == '+')
    requires |d| >= 1 && DigitRun(s[1..]) == |d| && s[1..][..|d|] == d
    ensures AllDigits(d)
    ensures ParseInt(s) == Some(if s[0] == '-' then -(DigitsValue(d) as int) else DigitsValue(d))
  {
  }

  /** `parseInt` of a run of digits followed by a text that does not start
      with a digit is the value of the digits. */
  lemma ParseDigitsPrefix(d: string, rest: string)
    requires |d| >= 1 && AllDigits(d)
    requires |rest| == 0 || !IsDigit(rest[0])
    ensures ParseInt(d + rest) == Some(DigitsValue(d))
  {
    ParseDigits(d, rest);
    assert (d + rest)[0] == d[0];
  }

  /** The leading digit run of `d + rest` is `d` itself. */
  lemma ParseDigits(d: string, rest: string)
    requires |d| >= 1 && AllDigits(d)
    requires |rest| == 0 || !IsDigit(rest[0])
    ensures DigitRun(d + rest) == |d|
    ensures (d + rest)[..|d|] == d
  {
    DigitRunOfDigits(d, rest);
  }

  /** Rendered integers are made of digits and an optional leading minus sign,
      so they never hold a comma, a space or a line break. */
  lemma IntToStringChars(n: int)
    ensures |IntToString(n)| >= 1
    ensures ',' !in IntToString(n) && ' ' !in IntToString(n) && '\n' !in IntToString(n)
  {
    var d := NatToString(if n < 0 then -n else n);
    assert forall i :: 0 <= i < |d| ==> IsDigit(d[i]);
  }
}
