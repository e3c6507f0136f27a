/** The string operations the compiler applies to an input path:
    `os.path.basename`, `os.path.splitext`, `str.split(sep, maxsplit)` and
    `int()` on a grid count. */
module Names {
  import opened Common

  /** Number of occurrences of `c` in `s`. */
  function Count(s: string, c: char): nat
  {
    multiset(s)[c]
  }

  /** Index of the first `c` in `s`. */
  function FirstIndex(s: string, c: char): (i: nat)
    requires c in s
    ensures i < |s| && s[i] == c
  {
    if s[0] == c then 0 else 1 + FirstIndex(s[1..], c)
  }

  /** No earlier character is `c`. */
  lemma {:induction false} FirstIndexIsFirst(s: string, c: char)
    requires c in s
    ensures c !in s[..FirstIndex(s, c)]
  {
    if s[0] != c {
      var i := FirstIndex(s, c);
      assert c in s[1..] by { var k :| 0 <= k < |s| && s[k] == c; assert s[1..][k - 1] == c; }
      FirstIndexIsFirst(s[1..], c);
      assert s[..i] == [s[0]] + s[1..][..i - 1];
    }
  }

  /** Index of the last `c` in `s`, or -1 when there is none (`str.rfind`). */
  function LastIndex(s: string, c: char): (i: int)
    ensures -1 <= i < |s|
    ensures i >= 0 ==> s[i] == c
    ensures forall k :: i < k < |s| ==> s[k] != c
  {
    if s == [] then -1
    else if s[|s| - 1] == c then |s| - 1
    else LastIndex(s[..|s| - 1], c)
  }

  /** The final component of a POSIX path: everything after the last '/'. */
  function Basename(path: string): string
  {
    path[LastIndex(path, '/') + 1..]
  }

  /** The base name is the longest suffix of the path without a '/': it
      reaches back to a '/' or to the start. */
  lemma BasenameParts(path: string)
    ensures var r := Basename(path);
      && |r| <= |path| && r == path[|path| - |r|..]
      && '/' !in r
      && (|r| == |path| || path[|path| - |r| - 1] == '/')
  {
  }

  /** True when `s[..k]` holds only dots. */
  predicate AllDots(s: string, k: nat)
    requires k <= |s|
  {
    forall i :: 0 <= i < k ==> s[i] == '.'
  }

  /** `os.path.splitext` of a name without '/': the extension starts at the
      last '.', unless only dots precede it (a leading-dot name such as
      ".png" has no extension). */
  function SplitExt(name: string): (string, string)
  {
    var dot := LastIndex(name, '.');
    if dot < 0 || AllDots(name, dot) then (name, "")
    else (name[..dot], name[dot..])
  }

  /** The extension is empty or runs from the last '.' to the end, and it is
      empty exactly when there is no '.' or only dots precede the last one. */
  lemma SplitExtParts(name: string)
    ensures SplitExt(name).0 + SplitExt(name).1 == name
    ensures SplitExt(name).1 == "" || (SplitExt(name).1[0] == '.' && '.' !in SplitExt(name).1[1..])
    ensures SplitExt(name).1 != "" ==> exists i :: 0 <= i < |SplitExt(name).0| && SplitExt(name).0[i] != '.'
    ensures SplitExt(name).1 == "" ==> '.' !in name || (LastIndex(name, '.') >= 0 && AllDots(name, LastIndex(name, '.')))
  {
    var dot := LastIndex(name, '.');
    if !(dot < 0 || AllDots(name, dot)) {
      assert name[..dot] + name[dot..] == name;
      assert name[dot..][1..] == name[dot + 1..];
      var i :| 0 <= i < dot && name[i] != '.';
      assert name[..dot][i] == name[i];
    } else if dot < 0 {
      assert forall k :: 0 <= k < |name| ==> name[k] != '.';
    }
  }

  /** `s.split(sep, n)`: at most `n` splits, left to right. */
  function SplitN(s: string, sep: char, n: nat): (parts: seq<string>)
    ensures 1 <= |parts| <= n + 1
    // the text is cut exactly when it holds the separator and a split is allowed
    ensures |parts| == 1 <==> n == 0 || sep !in s
    decreases |s|
  {
    if n == 0 || sep !in s then [s]
    else
      var i := FirstIndex(s, sep);
      [s[..i]] + SplitN(s[i + 1..], sep, n - 1)
  }

  function Min(a: nat, b: nat): nat { if a < b then a else b }

  /** Removing a first occurrence of `sep` removes one from the count. */
  lemma CountAfterFirst(s: string, sep: char)
    requires sep in s
    ensures Count(s, sep) == 1 + Count(s[FirstIndex(s, sep) + 1..], sep)
    ensures Count(s[..FirstIndex(s, sep)], sep) == 0
  {
    var i := FirstIndex(s, sep);
    FirstIndexIsFirst(s, sep);
    assert s == s[..i] + [sep] + s[i + 1..];
    assert multiset(s) == multiset(s[..i]) + multiset{sep} + multiset(s[i + 1..]);
  }

  /** There is one part more than there were splits, and there are as many
      splits as separators, up to `n`. */
  lemma {:induction false} SplitNLength(s: string, sep: char, n: nat)
    ensures |SplitN(s, sep, n)| == Min(Count(s, sep), n) + 1
    decreases |s|
  {
    if n > 0 && sep in s {
      var i := FirstIndex(s, sep);
      var rest := s[i + 1..];
      SplitNLength(rest, sep, n - 1);
      assert |SplitN(s, sep, n)| == |SplitN(rest, sep, n - 1)| + 1;
      assert Count(s, sep) == Count(rest, sep) + 1 by { CountAfterFirst(s, sep); }
    } else if n > 0 {
      assert Count(s, sep) == 0 by { assert multiset(s)[sep] == 0; }
    }
  }

  /** Every part but the last is free of the separator. */
  lemma {:induction false} SplitNPartsClean(s: string, sep: char, n: nat)
    ensures forall k :: 0 <= k < |SplitN(s, sep, n)| - 1 ==> sep !in SplitN(s, sep, n)[k]
    decreases |s|
  {
    if n > 0 && sep in s {
      var i := FirstIndex(s, sep);
      var rest := SplitN(s[i + 1..], sep, n - 1);
      SplitNPartsClean(s[i + 1..], sep, n - 1);
      var parts := SplitN(s, sep, n);
      assert parts == [s[..i]] + rest;
      forall k | 0 <= k < |parts| - 1 ensures sep !in parts[k] {
        if k > 0 {
          assert parts[k] == rest[k - 1];
        } else {
          assert parts[0] == s[..i];
          FirstIndexIsFirst(s, sep);
        }
      }
    }
  }

  /** `s.split(sep, 2)` has exactly two parts precisely when `s` holds `sep`
      exactly once; they are then the text before and after it. */
  lemma SplitTwoIff(s: string, sep: char)
    ensures |SplitN(s, sep, 2)| == 2 <==> Count(s, sep) == 1
    ensures |SplitN(s, sep, 2)| == 2 ==>
      sep !in SplitN(s, sep, 2)[0] && sep !in SplitN(s, sep, 2)[1] &&
      s == SplitN(s, sep, 2)[0] + [sep] + SplitN(s, sep, 2)[1]
  {
    SplitNLength(s, sep, 2);
    var parts := SplitN(s, sep, 2);
    if |parts| == 2 {
      var i := FirstIndex(s, sep);
      CountAfterFirst(s, sep);
      assert [parts[1]] == SplitN(s[i + 1..], sep, 1);
      assert sep !in s[i + 1..] by { SplitNLength(s[i + 1..], sep, 1); }
      assert s == parts[0] + [sep] + s[i + 1..];
    }
  }

  // ---- int() on a grid count ----

  predicate IsDigit(c: char) { '0' <= c <= '9' }

  function DigitOf(c: char): nat
    requires IsDigit(c)
  {
    c as int - '0' as int
  }

  /** The value of a string of decimal digits, most significant first. */
  function DigitsValue(s: string): nat
    requires forall i :: 0 <= i < |s| ==> IsDigit(s[i])
  {
    if s == [] then 0 else DigitsValue(s[..|s| - 1]) * 10 + DigitOf(s[|s| - 1])
  }

  /** `int(text)` for an optional sign followed by one or more ASCII digits;
      `None` is the ValueError `int()` raises. */
  function ParseInt(text: string): (r: Option<int>)
    // accepted only for a sign or a digit followed by digits, with a digit somewhere
    ensures r.Some? ==> |text| >= 1 && (IsDigit(text[0]) || text[0] == '-' || text[0] == '+')
    ensures r.Some? ==> forall i :: 1 <= i < |text| ==> IsDigit(text[i])
    ensures r.Some? && !IsDigit(text[0]) ==> |text| >= 2
    // negative only behind a minus sign
    ensures r.Some? && r.value < 0 ==> text[0] == '-'
  {
    var negative := |text| > 0 && text[0] == '-';
    var digits := if |text| > 0 && (text[0] == '-' || text[0] == '+') then text[1..] else text;
    if digits == [] || exists i :: 0 <= i < |digits| && !IsDigit(digits[i]) then None
    else
      var v: int := DigitsValue(digits);
      Some(if negative then -v else v)
  }

  /** Conversely, every optional sign followed by one or more digits is
      accepted, with the value of the digits, negated behind '-': leading
      zeros and a '+' are allowed, as `int()` allows them. */
  lemma ParseIntSignDigits(sign: string, digits: string)
    requires sign == "" || sign == "-" || sign == "+"
    requires |digits| >= 1 && forall i :: 0 <= i < |digits| ==> IsDigit(digits[i])
    ensures ParseInt(sign + digits) == Some(if sign == "-" then -(DigitsValue(digits) as int) else DigitsValue(digits))
  {
    var text := sign + digits;
    var rest := if |text| > 0 && (text[0] == '-' || text[0] == '+') then text[1..] else text;
    if sign != "" {
      assert text[0] == sign[0] && text[1..] == digits;
    } else {
      assert text == digits;
      assert text[0] != '-' && text[0] != '+' by { assert IsDigit(digits[0]); }
    }
    assert rest == digits;
    assert !exists i :: 0 <= i < |rest| && !IsDigit(rest[i]);
  }

  /** `int("+4") == 4` and `int("007") == 7`. */
  lemma ParseIntExamples()
    ensures ParseInt("+4") == Some(4) && ParseInt("007") == Some(7)
  {
    ParseIntSignDigits("+", "4");
    assert "+4" == "+" + "4";
    assert DigitsValue("4") == 4;
    ParseIntSignDigits("", "007");
    assert "007"[..2] == "00" && "00"[..1] == "0" && "0"[..0] == "";
  }

  /** The decimal digits of `n`, as `str(n)` writes them. */
  function Decimal(n: nat): (s: string)
    ensures |s| >= 1 && forall i :: 0 <= i < |s| ==> IsDigit(s[i])
  {
    var d := ['0' + (n % 10) as char];
    if n < 10 then d else Decimal(n / 10) + d
  }

  lemma {:induction false} DigitsValueDecimal(n: nat)
    ensures DigitsValue(Decimal(n)) == n
  {
    var s := Decimal(n);
    if n >= 10 {
      DigitsValueDecimal(n / 10);
      assert s[..|s| - 1] == Decimal(n / 10);
    }
  }

  /** `int(str(n)) == n` and `int('-' + str(n)) == -n`. */
  lemma ParseIntDecimal(n: nat)
    ensures ParseInt(Decimal(n)) == Some(n)
    ensures ParseInt("-" + Decimal(n)) == Some(-(n as int))
  {
    DigitsValueDecimal(n);
    assert ("-" + Decimal(n))[1..] == Decimal(n);
  }
}
