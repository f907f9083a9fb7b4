/** The JavaScript string operations the booking code uses: `trim`,
    `toLowerCase`, `<` on strings, `split`, `Number(text)`, `String(n)` and
    `padStart(2, '0')`. Strings are sequences of characters. */
module JsStrings {

  // ---------------------------------------------------------------------
  // trim
  // ---------------------------------------------------------------------

  /** The characters `String.prototype.trim` removes: ECMAScript's WhiteSpace
      and LineTerminator code points. */
  predicate IsSpace(c: char) {
    var n := c as int;
    n == 0x09 || n == 0x0A || n == 0x0B || n == 0x0C || n == 0x0D || n == 0x20
    || n == 0xA0 || n == 0x1680 || (0x2000 <= n <= 0x200A) || n == 0x2028
    || n == 0x2029 || n == 0x202F || n == 0x205F || n == 0x3000 || n == 0xFEFF
  }

  /** Drops the leading spaces: what is kept is a suffix that does not
      start with one. */
  function TrimStart(s: string): (r: string)
    ensures |r| <= |s| && r == s[|s| - |r|..]
    ensures r == [] || !IsSpace(r[0])
    decreases |s|
  {
    if |s| > 0 && IsSpace(s[0]) then TrimStart(s[1..]) else s
  }

  /** Drops the trailing spaces: what is kept is a prefix that does not
      end with one. */
  function TrimEnd(s: string): (r: string)
    ensures |r| <= |s| && r == s[..|r|]
    ensures r == [] || !IsSpace(r[|r| - 1])
    decreases |s|
  {
    if |s| > 0 && IsSpace(s[|s| - 1]) then TrimEnd(s[..|s| - 1]) else s
  }

  /** `s.trim()`. */
  function Trim(s: string): (r: string)
    ensures r == [] || (!IsSpace(r[0]) && !IsSpace(r[|r| - 1]))
  {
    TrimEnd(TrimStart(s))
  }

  /** What `TrimStart` drops is all space. */
  lemma {:induction false} TrimStartDropsSpaces(s: string, i: int)
    requires 0 <= i < |s| - |TrimStart(s)|
    ensures IsSpace(s[i])
    decreases |s|
  {
    if i > 0 {
      TrimStartDropsSpaces(s[1..], i - 1);
    }
  }

  /** What `TrimEnd` drops is all space. */
  lemma {:induction false} TrimEndDropsSpaces(s: string, i: int)
    requires |TrimEnd(s)| <= i < |s|
    ensures IsSpace(s[i])
    decreases |s|
  {
    if i < |s| - 1 {
      TrimEndDropsSpaces(s[..|s| - 1], i);
    }
  }

  /** A string with no space at either end is its own trim. */
  lemma TrimFixed(s: string)
    requires s == [] || (!IsSpace(s[0]) && !IsSpace(s[|s| - 1]))
    ensures Trim(s) == s
  {
  }

  /** Trimming twice is trimming once. */
  lemma TrimIdempotent(s: string)
    ensures Trim(Trim(s)) == Trim(s)
  {
    TrimFixed(Trim(s));
  }

  // ---------------------------------------------------------------------
  // toLowerCase
  // ---------------------------------------------------------------------

  /** `toLowerCase` on one character, for the ASCII and Latin-1 capitals. */
  function LowerChar(c: char): char {
    if ('A' <= c <= 'Z') || ('\U{C0}' <= c <= '\U{DE}' && c != '\U{D7}')
    then (c as int + 32) as char
    else c
  }

  /** `s.toLowerCase()`, character by character. */
  function Lower(s: string): (r: string)
    ensures |r| == |s|
    ensures forall i :: 0 <= i < |s| ==> r[i] == LowerChar(s[i])
  {
    seq(|s|, i requires 0 <= i < |s| => LowerChar(s[i]))
  }

  /** `s.trim().toLowerCase()`: the key under which room names are compared. */
  function Key(s: string): (k: string)
    ensures k == [] <==> Trim(s) == []
  {
    Lower(Trim(s))
  }

  /** A name trimmed beforehand has the same key. */
  lemma KeyOfTrim(s: string)
    ensures Key(Trim(s)) == Key(s)
  {
    TrimIdempotent(s);
  }

  // ---------------------------------------------------------------------
  // a < b on strings
  // ---------------------------------------------------------------------

  /** `a < b` on JavaScript strings: lexicographic order of characters, a
      proper prefix coming first. */
  predicate Less(a: string, b: string)
    decreases |a|
  {
    if b == [] then false
    else if a == [] then true
    else if a[0] != b[0] then a[0] < b[0]
    else Less(a[1..], b[1..])
  }

  /** No string sorts before itself. */
  lemma {:induction false} LessIrreflexive(a: string)
    ensures !Less(a, a)
    decreases |a|
  {
    if a != [] {
      LessIrreflexive(a[1..]);
    }
  }

  /** A common prefix does not decide the comparison. */
  lemma {:induction false} LessSamePrefix(p: string, x: string, y: string)
    ensures Less(p + x, p + y) == Less(x, y)
    decreases |p|
  {
    if p == [] {
      assert p + x == x && p + y == y;
    } else {
      assert (p + x)[0] == p[0] == (p + y)[0];
      assert (p + x)[1..] == p[1..] + x;
      assert (p + y)[1..] == p[1..] + y;
      assert Less(p + x, p + y) == Less(p[1..] + x, p[1..] + y);
      LessSamePrefix(p[1..], x, y);
    }
  }

  /** Two different prefixes of the same length decide the comparison. */
  lemma {:induction false} LessDifferentPrefix(p: string, q: string, x: string, y: string)
    requires |p| == |q| && p != q
    ensures Less(p + x, q + y) == Less(p, q)
    decreases |p|
  {
    if p[0] == q[0] {
      assert (p + x)[1..] == p[1..] + x;
      assert (q + y)[1..] == q[1..] + y;
      assert p[1..] != q[1..] by {
        assert p == [p[0]] + p[1..] && q == [q[0]] + q[1..];
      }
      LessDifferentPrefix(p[1..], q[1..], x, y);
    }
  }

  /** How a comparison of two equal-length concatenations is decided. */
  lemma LessConcat(p: string, q: string, x: string, y: string)
    requires |p| == |q|
    ensures Less(p + x, q + y) == if p == q then Less(x, y) else Less(p, q)
  {
    if p == q {
      LessSamePrefix(p, x, y);
    } else {
      LessDifferentPrefix(p, q, x, y);
    }
  }

  // ---------------------------------------------------------------------
  // decimal digits, String(n), padStart(2, '0')
  // ---------------------------------------------------------------------

  predicate IsDigit(c: char) {
    '0' <= c <= '9'
  }

  predicate AllDigits(s: string) {
    forall i :: 0 <= i < |s| ==> IsDigit(s[i])
  }

  function DigitChar(d: nat): (c: char)
    requires d < 10
    ensures IsDigit(c) && c as int - '0' as int == d
  {
    ('0' as int + d) as char
  }

  /** The value of a string of decimal digits. */
  function DigitsValue(s: string): nat
    requires AllDigits(s)
    decreases |s|
  {
    if s == [] then 0 else DigitsValue(s[..|s| - 1]) * 10 + (s[|s| - 1] as int - '0' as int)
  }

  /** `String(n)` for a non-negative integer; reading the digits back gives `n`. */
  function NatToString(n: nat): (s: string)
    ensures |s| >= 1 && AllDigits(s)
    ensures DigitsValue(s) == n
    decreases n
  {
    if n < 10 then [DigitChar(n)]
    else
      var front := NatToString(n / 10);
      var s := front + [DigitChar(n % 10)];
      assert s[..|s| - 1] == front;
      s
  }

  /** `String(i)` for any integer. */
  function IntToString(i: int): string {
    if i < 0 then "-" + NatToString(-i) else NatToString(i)
  }

  /** How many digits `String(n)` has in the ranges the clock and the
      calendar use. */
  lemma {:induction false} NatToStringWidth(n: nat)
    ensures n < 10 ==> |NatToString(n)| == 1
    ensures 10 <= n < 100 ==> |NatToString(n)| == 2
    ensures 100 <= n < 1000 ==> |NatToString(n)| == 3
    ensures 1000 <= n < 10000 ==> |NatToString(n)| == 4
    decreases n
  {
    if n >= 10 {
      NatToStringWidth(n / 10);
    }
  }

  /** `s.padStart(2, '0')`. */
  function PadStart2(s: string): (r: string)
    ensures |r| == if |s| >= 2 then |s| else 2
  {
    if |s| == 0 then "00" else if |s| == 1 then "0" + s else s
  }

  /** The zero-padded two-digit text of a number below 100. */
  lemma TwoDigits(n: nat)
    requires n < 100
    ensures PadStart2(NatToString(n)) == [DigitChar(n / 10), DigitChar(n % 10)]
  {
    if n >= 10 {
      assert NatToString(n) == NatToString(n / 10) + [DigitChar(n % 10)];
    }
  }

  /** A padded `String(n)` still reads back as `n`. */
  lemma PaddedValue(n: nat)
    ensures AllDigits(PadStart2(NatToString(n)))
    ensures DigitsValue(PadStart2(NatToString(n))) == n
  {
    var s := NatToString(n);
    if |s| == 1 {
      var p := PadStart2(s);
      assert p[..1] == "0";
    }
  }

  /** Equal-length digit strings with equal values are equal. */
  lemma {:induction false} DigitsInjective(s: string, t: string)
    requires AllDigits(s) && AllDigits(t) && |s| == |t|
    requires DigitsValue(s) == DigitsValue(t)
    ensures s == t
    decreases |s|
  {
    if s != [] {
      var n := |s| - 1;
      DigitsInjective(s[..n], t[..n]);
      assert s == s[..n] + [s[n]] && t == t[..n] + [t[n]];
    }
  }

  /** On equal-length digit strings, `<` is numeric order. */
  lemma {:induction false} LessDigits(s: string, t: string)
    requires AllDigits(s) && AllDigits(t) && |s| == |t|
    ensures Less(s, t) <==> DigitsValue(s) < DigitsValue(t)
    decreases |s|
  {
    if s != [] {
      var n := |s| - 1;
      var s', t' := s[..n], t[..n];
      assert s == s' + [s[n]] && t == t' + [t[n]];
      LessConcat(s', t', [s[n]], [t[n]]);
      LessDigits(s', t');
      if s' != t' && DigitsValue(s') == DigitsValue(t') {
        DigitsInjective(s', t');
      }
    }
  }

  /** Digit strings of the same width compare as their values do. */
  lemma SameWidthOrder(s: string, t: string, a: nat, b: nat)
    requires AllDigits(s) && AllDigits(t) && |s| == |t|
    requires DigitsValue(s) == a && DigitsValue(t) == b
    ensures s == t <==> a == b
    ensures Less(s, t) <==> a < b
  {
    LessDigits(s, t);
    if a == b {
      DigitsInjective(s, t);
    }
  }

  /** Zero-padded two-digit texts compare as their numbers do. */
  lemma PaddedOrder(a: nat, b: nat)
    requires a < 100 && b < 100
    ensures |PadStart2(NatToString(a))| == 2 && |PadStart2(NatToString(b))| == 2
    ensures PadStart2(NatToString(a)) == PadStart2(NatToString(b)) <==> a == b
    ensures Less(PadStart2(NatToString(a)), PadStart2(NatToString(b))) <==> a < b
  {
    NatToStringWidth(a);
    NatToStringWidth(b);
    PaddedValue(a);
    PaddedValue(b);
    SameWidthOrder(PadStart2(NatToString(a)), PadStart2(NatToString(b)), a, b);
  }

  // ---------------------------------------------------------------------
  // Number(text)
  // ---------------------------------------------------------------------

  /** A JavaScript number as far as this model needs one: an integer or NaN. */
  datatype Num = Int(n: int) | NaN

  /** `Number(text)`: surrounding spaces are ignored, the empty text is 0,
      an optionally signed run of decimal digits is its value, anything else
      is NaN. */
  function ToNumber(text: string): Num {
    var t := Trim(text);
    if t == [] then Int(0)
    else if t[0] == '-' && |t| > 1 && AllDigits(t[1..]) then Int(-(DigitsValue(t[1..]) as int))
    else if t[0] == '+' && |t| > 1 && AllDigits(t[1..]) then Int(DigitsValue(t[1..]))
    else if AllDigits(t) then Int(DigitsValue(t))
    else NaN
  }

  /** A run of digits is read as its value. */
  lemma ToNumberOfDigits(s: string)
    requires |s| >= 1 && AllDigits(s)
    ensures ToNumber(s) == Int(DigitsValue(s))
  {
    assert IsDigit(s[0]) && IsDigit(s[|s| - 1]);
    TrimFixed(s);
    assert s[0] != '-' && s[0] != '+';
  }

  /** A minus sign followed by a run of digits is read as the negated value. */
  lemma ToNumberOfNegative(s: string)
    requires |s| >= 2 && s[0] == '-' && AllDigits(s[1..])
    ensures ToNumber(s) == Int(-(DigitsValue(s[1..]) as int))
  {
    assert s[|s| - 1] == s[1..][|s| - 2];
    assert !IsSpace(s[0]) && !IsSpace(s[|s| - 1]);
    TrimFixed(s);
  }

  // ---------------------------------------------------------------------
  // split
  // ---------------------------------------------------------------------

  /** `s.split(sep)` for a one-character separator: every piece, in order. */
  function Split(s: string, sep: char): (parts: seq<string>)
    ensures |parts| >= 1
    decreases |s|
  {
    if s == [] then [""]
    else
      var rest := Split(s[1..], sep);
      if s[0] == sep then [""] + rest else [[s[0]] + rest[0]] + rest[1..]
  }

  /** Text without the separator is one piece. */
  lemma {:induction false} SplitNoSeparator(s: string, sep: char)
    requires sep !in s
    ensures Split(s, sep) == [s]
    decreases |s|
  {
    if s != [] {
      assert sep !in s[1..] by {
        forall i | 0 <= i < |s[1..]| ensures s[1..][i] != sep {
          assert s[1..][i] == s[i + 1];
        }
      }
      SplitNoSeparator(s[1..], sep);
      assert [s[0]] + s[1..] == s;
    }
  }

  /** The first separator ends the first piece. */
  lemma {:induction false} SplitAtFirst(a: string, sep: char, b: string)
    requires sep !in a
    ensures Split(a + [sep] + b, sep) == [a] + Split(b, sep)
    decreases |a|
  {
    var s := a + [sep] + b;
    if a == [] {
      assert s[1..] == b;
    } else {
      assert s[1..] == a[1..] + [sep] + b;
      assert sep !in a[1..] by {
        forall i | 0 <= i < |a[1..]| ensures a[1..][i] != sep {
          assert a[1..][i] == a[i + 1];
        }
      }
      SplitAtFirst(a[1..], sep, b);
      assert [a[0]] + a[1..] == a;
    }
  }
}
