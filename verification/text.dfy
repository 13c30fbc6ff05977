/** String vocabulary of the JavaScript runtime that the tracker relies on:
    lower-casing, `String.prototype.includes`, the default `Array.prototype.sort`
    order on strings, `split`/`join` on one separator character, `padStart`,
    and the global `parseInt` with no radix argument. */
module Text {
  import opened Collections

  // ----- Lower-casing and substring search -----

  /** Lower-cases one character; only the ASCII letters A-Z are mapped. */
  function LowerChar(c: char): char
  {
    if 'A' <= c <= 'Z' then (c as int + 32) as char else c
  }

  /** `toLowerCase` restricted to ASCII letters. */
  function ToLower(s: string): (r: string)
    ensures |r| == |s|
    ensures forall i :: 0 <= i < |s| ==> r[i] == LowerChar(s[i])
  {
    seq(|s|, i requires 0 <= i < |s| => LowerChar(s[i]))
  }

  /** Lower-casing twice is lower-casing once. */
  lemma ToLowerIdempotent(s: string)
    ensures ToLower(ToLower(s)) == ToLower(s)
  {
  }

  /** `needle` occurs in `hay` starting at index `i`. */
  predicate OccursAt(hay: string, needle: string, i: int)
  {
    0 <= i && i + |needle| <= |hay| && hay[i..i + |needle|] == needle
  }

  /** `hay.includes(needle)`: some position of `hay` starts a copy of `needle`. */
  function Includes(hay: string, needle: string): (b: bool)
    ensures b <==> exists i :: OccursAt(hay, needle, i)
    decreases |hay|
  {
    if |needle| <= |hay| && hay[..|needle|] == needle then
      assert OccursAt(hay, needle, 0);
      true
    else if |hay| == 0 then
      false
    else
      var b := Includes(hay[1..], needle);
      IncludesShift(hay, needle);
      b
  }

  /** Occurrences in `hay[1..]` are the occurrences in `hay` past index 0. */
  lemma IncludesShift(hay: string, needle: string)
    requires |hay| > 0
    requires !(|needle| <= |hay| && hay[..|needle|] == needle)
    ensures (exists i :: OccursAt(hay, needle, i)) <==> (exists i :: OccursAt(hay[1..], needle, i))
  {
    if exists i :: OccursAt(hay, needle, i) {
      var i :| OccursAt(hay, needle, i);
      assert i != 0;
      assert hay[1..][i - 1..i - 1 + |needle|] == hay[i..i + |needle|];
      assert OccursAt(hay[1..], needle, i - 1);
    }
    if exists i :: OccursAt(hay[1..], needle, i) {
      var i :| OccursAt(hay[1..], needle, i);
      assert hay[1..][i..i + |needle|] == hay[i + 1..i + 1 + |needle|];
      assert OccursAt(hay, needle, i + 1);
    }
  }

  /** The empty string occurs in every string. */
  lemma IncludesEmpty(hay: string)
    ensures Includes(hay, "")
  {
    assert OccursAt(hay, "", 0);
  }

  // ----- UTF-16 code units -----

  /** The UTF-16 code units of one character: the code itself below U+10000,
      a surrogate pair above. */
  function CharUnits(c: char): (u: seq<int>)
    ensures |u| == (if c as int < 0x10000 then 1 else 2)
    ensures c as int < 0x10000 ==> u[0] == c as int
    ensures 0 <= u[0] < 0x10000 && (c as int >= 0x10000 <==> 0xD800 <= u[0] < 0xDC00)
  {
    var v := c as int;
    if v < 0x10000 then [v] else [0xD800 + (v - 0x10000) / 0x400, 0xDC00 + (v - 0x10000) % 0x400]
  }

  /** The code units of a string: what JavaScript strings are made of, and
      what `length`, `padStart` and the default sort count and compare. */
  function Units(s: string): (u: seq<int>)
    ensures |u| >= |s|
    decreases |s|
  {
    if |s| == 0 then [] else CharUnits(s[0]) + Units(s[1..])
  }

  /** Two characters with the same units are the same character. */
  lemma CharUnitsInjective(a: char, b: char)
    requires CharUnits(a) == CharUnits(b)
    ensures a == b
  {
  }

  /** Two strings with the same units are the same string: the first unit
      tells a lone unit from a surrogate pair. */
  lemma {:induction false} UnitsInjective(a: string, b: string)
    requires Units(a) == Units(b)
    ensures a == b
    decreases |a|
  {
    if |a| > 0 && |b| > 0 {
      var ua, ub := CharUnits(a[0]), CharUnits(b[0]);
      assert Units(a)[0] == ua[0] && Units(b)[0] == ub[0];
      assert |ua| == |ub|;
      assert ua == Units(a)[..|ua|] && ub == Units(b)[..|ub|];
      CharUnitsInjective(a[0], b[0]);
      assert Units(a[1..]) == Units(a)[|ua|..] && Units(b[1..]) == Units(b)[|ub|..];
      UnitsInjective(a[1..], b[1..]);
      assert a == [a[0]] + a[1..] && b == [b[0]] + b[1..];
    }
  }

  /** Every character lies in the Basic Multilingual Plane. */
  predicate Bmp(s: string)
  {
    forall i :: 0 <= i < |s| ==> s[i] as int < 0x10000
  }

  /** A BMP string has one unit per character, its code. */
  lemma {:induction false} BmpUnits(s: string)
    requires Bmp(s)
    ensures |Units(s)| == |s|
    ensures forall i :: 0 <= i < |s| ==> Units(s)[i] == s[i] as int
    decreases |s|
  {
    if |s| > 0 {
      BmpUnits(s[1..]);
      forall i | 0 <= i < |s| ensures Units(s)[i] == s[i] as int {
        if i > 0 {
          assert Units(s)[i] == Units(s[1..])[i - 1];
        }
      }
    }
  }

  /** Units of a concatenation. */
  lemma {:induction false} UnitsAppend(a: string, b: string)
    ensures Units(a + b) == Units(a) + Units(b)
    decreases |a|
  {
    if |a| > 0 {
      assert (a + b)[0] == a[0] && (a + b)[1..] == a[1..] + b;
      UnitsAppend(a[1..], b);
      calc {
        Units(a + b);
        CharUnits(a[0]) + Units(a[1..] + b);
        CharUnits(a[0]) + (Units(a[1..]) + Units(b));
        (CharUnits(a[0]) + Units(a[1..])) + Units(b);
      }
    } else {
      assert a + b == b;
    }
  }

  // ----- Default string order -----

  /** Strict lexicographic order on integer sequences. */
  predicate SeqLess(a: seq<int>, b: seq<int>)
  {
    if |a| == 0 then |b| > 0
    else if |b| == 0 then false
    else a[0] < b[0] || (a[0] == b[0] && SeqLess(a[1..], b[1..]))
  }

  /** The order of the default `Array.prototype.sort`: strings compared by
      their UTF-16 code units. */
  predicate Less(a: string, b: string)
  {
    SeqLess(Units(a), Units(b))
  }

  lemma {:induction false} SeqLessIrreflexive(a: seq<int>)
    ensures !SeqLess(a, a)
  {
    if |a| > 0 {
      SeqLessIrreflexive(a[1..]);
    }
  }

  lemma {:induction false} SeqLessTransitive(a: seq<int>, b: seq<int>, c: seq<int>)
    requires SeqLess(a, b) && SeqLess(b, c)
    ensures SeqLess(a, c)
  {
    if |a| > 0 && |b| > 0 && |c| > 0 && a[0] == b[0] == c[0] {
      SeqLessTransitive(a[1..], b[1..], c[1..]);
    }
  }

  lemma {:induction false} SeqLessTotal(a: seq<int>, b: seq<int>)
    ensures a == b || SeqLess(a, b) || SeqLess(b, a)
  {
    if |a| > 0 && |b| > 0 && a[0] == b[0] {
      SeqLessTotal(a[1..], b[1..]);
      if a[1..] == b[1..] {
        assert a == [a[0]] + a[1..] && b == [b[0]] + b[1..];
      }
    }
  }

  lemma LessIrreflexive(a: string)
    ensures !Less(a, a)
  {
    SeqLessIrreflexive(Units(a));
  }

  lemma LessTransitive(a: string, b: string, c: string)
    requires Less(a, b) && Less(b, c)
    ensures Less(a, c)
  {
    SeqLessTransitive(Units(a), Units(b), Units(c));
  }

  /** Distinct strings are ordered one way or the other, because distinct
      strings have distinct units. */
  lemma LessTotal(a: string, b: string)
    ensures a == b || Less(a, b) || Less(b, a)
  {
    SeqLessTotal(Units(a), Units(b));
    if Units(a) == Units(b) {
      UnitsInjective(a, b);
    }
  }

  lemma LessAsymmetric(a: string, b: string)
    requires Less(a, b)
    ensures !Less(b, a)
  {
    if Less(b, a) {
      LessTransitive(a, b, a);
      LessIrreflexive(a);
    }
  }

  /** On BMP strings the order is the order of character codes. */
  lemma BmpLessIsCodeOrder(a: string, b: string)
    requires Bmp(a) && Bmp(b)
    ensures Less(a, b) <==>
              (|a| == 0 && |b| > 0)
              || (|a| > 0 && |b| > 0 && (a[0] < b[0] || (a[0] == b[0] && Less(a[1..], b[1..]))))
  {
    if |a| > 0 && |b| > 0 {
      assert Units(a) == [a[0] as int] + Units(a[1..]);
      assert Units(b) == [b[0] as int] + Units(b[1..]);
      assert Units(a)[1..] == Units(a[1..]) && Units(b)[1..] == Units(b[1..]);
    }
  }

  /** Outside the BMP the order is not the order of code points: U+FFFF has
      the larger first unit, so U+10000 (units D800 DC00) sorts before it. */
  lemma AstralSortsBeforeHighBmp()
    ensures Less("\U{10000}", "\U{FFFF}")
    ensures ("\U{10000}"[0] as int) > ("\U{FFFF}"[0] as int)
  {
    assert Units("\U{10000}") == [0xD800, 0xDC00];
    assert Units("\U{FFFF}") == [0xFFFF];
  }

  /** Non-strict companion of `Less`. */
  predicate LessEq(a: string, b: string)
  {
    a == b || Less(a, b)
  }

  lemma LessEqTransitive(a: string, b: string, c: string)
    requires LessEq(a, b) && LessEq(b, c)
    ensures LessEq(a, c)
  {
    if a != b && b != c {
      LessTransitive(a, b, c);
    }
  }

  lemma LessEqTotal(a: string, b: string)
    ensures LessEq(a, b) || LessEq(b, a)
  {
    LessTotal(a, b);
  }

  // ----- split / join on one separator -----

  /** `xs.join(sep)`. */
  function Join(xs: seq<string>, sep: char): string
  {
    if |xs| == 0 then ""
    else if |xs| == 1 then xs[0]
    else xs[0] + [sep] + Join(xs[1..], sep)
  }

  /** `s.split(sep)`: the maximal separator-free pieces; always at least one. */
  function Split(s: string, sep: char): (r: seq<string>)
    ensures |r| >= 1
    decreases |s|
  {
    if |s| == 0 then [""]
    else
      var rest := Split(s[1..], sep);
      if s[0] == sep then [""] + rest
      else [[s[0]] + rest[0]] + rest[1..]
  }

  /** Splitting a separator-free prefix glued to `t` extends the first piece of `t`. */
  lemma {:induction false} SplitFreePrefix(a: string, t: string, sep: char)
    requires sep !in a
    ensures Split(a + t, sep) == [a + Split(t, sep)[0]] + Split(t, sep)[1..]
    decreases |a|
  {
    if |a| > 0 {
      var r := Split(t, sep);
      assert (a + t)[1..] == a[1..] + t;
      SplitFreePrefix(a[1..], t, sep);
      var rest := Split(a[1..] + t, sep);
      assert rest[0] == a[1..] + r[0] && rest[1..] == r[1..];
      assert (a + t)[0] == a[0] && a[0] != sep;
      assert Split(a + t, sep) == [[a[0]] + rest[0]] + rest[1..];
      assert [a[0]] + (a[1..] + r[0]) == a + r[0];
    } else {
      var r := Split(t, sep);
      assert a + t == t && a + r[0] == r[0];
      assert r == [r[0]] + r[1..];
    }
  }

  /** Splitting undoes joining when no piece contains the separator. */
  lemma {:induction false} SplitJoin(xs: seq<string>, sep: char)
    requires |xs| >= 1
    requires forall i :: 0 <= i < |xs| ==> sep !in xs[i]
    ensures Split(Join(xs, sep), sep) == xs
    decreases |xs|
  {
    if |xs| == 1 {
      SplitFreePrefix(xs[0], "", sep);
      assert xs[0] + "" == xs[0];
    } else {
      var rest := Join(xs[1..], sep);
      SplitJoin(xs[1..], sep);
      assert Join(xs, sep) == xs[0] + ([sep] + rest);
      SplitFreePrefix(xs[0], [sep] + rest, sep);
      assert ([sep] + rest)[1..] == rest;
      assert Split([sep] + rest, sep) == [""] + xs[1..];
      assert xs[0] + "" == xs[0];
    }
  }

  /** Joining undoes splitting, for every string. */
  lemma {:induction false} JoinSplit(s: string, sep: char)
    ensures Join(Split(s, sep), sep) == s
    decreases |s|
  {
    if |s| > 0 {
      var rest := Split(s[1..], sep);
      JoinSplit(s[1..], sep);
      if s[0] == sep {
        assert Join([""] + rest, sep) == "" + [sep] + Join(rest, sep);
      } else {
        var r := [[s[0]] + rest[0]] + rest[1..];
        if |rest| == 1 {
          assert Join(r, sep) == [s[0]] + rest[0];
        } else {
          assert r[1..] == rest[1..];
          assert Join(rest, sep) == rest[0] + [sep] + Join(rest[1..], sep);
        }
      }
      assert s == [s[0]] + s[1..];
    }
  }

  // ----- padStart -----

  /** `k` copies of `c`. */
  function Repeat(c: char, k: nat): (r: string)
    ensures |r| == k
    ensures forall i :: 0 <= i < k ==> r[i] == c
  {
    if k == 0 then "" else [c] + Repeat(c, k - 1)
  }

  /** A run of one BMP character has one unit per copy. */
  lemma RepeatUnits(c: char, k: nat)
    requires c as int < 0x10000
    ensures |Units(Repeat(c, k))| == k
  {
    BmpUnits(Repeat(c, k));
  }

  /** `s.padStart(width, c)` with a one-character pad. JavaScript measures the
      width in code units, so a character outside the BMP counts twice: `c` is
      prepended once per missing unit, and a string already that long is
      returned unchanged. */
  function PadStart(s: string, width: nat, c: char): (r: string)
    ensures |Units(s)| >= width ==> r == s
    ensures |Units(s)| < width && c as int < 0x10000 ==> |Units(r)| == width
    ensures |r| >= |s| && r[|r| - |s|..] == s
    ensures forall i :: 0 <= i < |r| - |s| ==> r[i] == c
  {
    var n := |Units(s)|;
    if n >= width then s
    else
      var pad := Repeat(c, width - n);
      UnitsAppend(pad, s);
      if c as int < 0x10000 then RepeatUnits(c, width - n); pad + s else pad + s
  }

  /** On a BMP string the unit width is the character count. */
  lemma BmpPadStart(s: string, width: nat, c: char)
    requires Bmp(s)
    ensures |s| >= width ==> PadStart(s, width, c) == s
    ensures |s| < width ==> PadStart(s, width, c) == Repeat(c, width - |s|) + s
  {
    BmpUnits(s);
  }

  /** A character outside the BMP takes two of the three units. */
  lemma AstralPadStart()
    ensures PadStart("\U{1F600}", 3, '0') == "0\U{1F600}"
  {
    assert Units("\U{1F600}") == CharUnits('\U{1F600}');
    assert Repeat('0', 1) == "0";
  }

  // ----- parseInt -----

  /** The characters `parseInt` skips before a number: ECMAScript white space
      and line terminators. */
  predicate IsJsSpace(c: char)
  {
    var n := c as int;
    n == 0x09 || n == 0x0A || n == 0x0B || n == 0x0C || n == 0x0D || n == 0x20
    || n == 0xA0 || n == 0x1680 || (0x2000 <= n <= 0x200A) || n == 0x2028
    || n == 0x2029 || n == 0x202F || n == 0x205F || n == 0x3000 || n == 0xFEFF
  }

  function TrimStart(s: string): (r: string)
    ensures |r| <= |s| && r == s[|s| - |r|..]
    ensures |r| > 0 ==> !IsJsSpace(r[0])
  {
    if |s| > 0 && IsJsSpace(s[0]) then TrimStart(s[1..]) else s
  }

  predicate IsDecimalDigit(c: char)
  {
    '0' <= c <= '9'
  }

  /** `c` is a digit of the given radix (10 or 16). */
  predicate IsDigit(c: char, radix: nat)
  {
    IsDecimalDigit(c) || (radix == 16 && ('a' <= c <= 'f' || 'A' <= c <= 'F'))
  }

  function DigitValue(c: char): nat
  {
    if IsDecimalDigit(c) then c as int - '0' as int
    else if 'a' <= c <= 'f' then c as int - 'a' as int + 10
    else if 'A' <= c <= 'F' then c as int - 'A' as int + 10
    else 0
  }

  /** The longest prefix of `s` made of digits of `radix`. */
  function LeadingDigits(s: string, radix: nat): (r: string)
    ensures |r| <= |s| && r == s[..|r|]
    ensures forall i :: 0 <= i < |r| ==> IsDigit(r[i], radix)
    ensures |r| < |s| ==> !IsDigit(s[|r|], radix)
  {
    if |s| > 0 && IsDigit(s[0], radix) then [s[0]] + LeadingDigits(s[1..], radix) else ""
  }

  /** Positional value of a digit string, most significant digit first. */
  function DigitsValue(ds: string, radix: nat): nat
  {
    if |ds| == 0 then 0
    else DigitsValue(ds[..|ds| - 1], radix) * radix + DigitValue(ds[|ds| - 1])
  }

  /** `parseInt(s)` with no radix: skip leading white space, read an optional
      sign, then the unsigned number; no digit at all gives `NaN`, here
      `None`. */
  function ParseInt(s: string): Option<int>
  {
    var t := TrimStart(s);
    match ParseUnsigned(Unsigned(t))
    case None => None
    case Some(v) => if |t| > 0 && t[0] == '-' then Some(0 - v) else Some(v)
  }

  /** What follows an optional leading sign. */
  function Unsigned(t: string): string
  {
    if |t| > 0 && (t[0] == '-' || t[0] == '+') then t[1..] else t
  }

  /** A `0x` or `0X` prefix, which switches to base 16. */
  predicate HexPrefix(u: string)
  {
    |u| >= 2 && u[0] == '0' && (u[1] == 'x' || u[1] == 'X')
  }

  /** The value of the longest run of digits, in base 16 after a hex prefix
      and in base 10 otherwise; `None` when there is no digit. */
  function ParseUnsigned(u: string): Option<nat>
  {
    var radix := if HexPrefix(u) then 16 else 10;
    var ds := LeadingDigits(if HexPrefix(u) then u[2..] else u, radix);
    if |ds| == 0 then None else Some(DigitsValue(ds, radix))
  }

  /** `parseInt(s) || 0`: the parsed number, or 0 when parsing yields `NaN`. */
  function IntOrZero(s: string): int
  {
    ParseInt(s).GetOr(0)
  }

  /** Decimal rendering of a natural number, most significant digit first. */
  function NatToString(n: nat): (r: string)
    ensures |r| >= 1
    ensures forall i :: 0 <= i < |r| ==> IsDecimalDigit(r[i])
    decreases n
  {
    var d := [('0' as int + n % 10) as char];
    if n < 10 then d else NatToString(n / 10) + d
  }

  lemma {:induction false} DigitsValueOfNatToString(n: nat)
    ensures DigitsValue(NatToString(n), 10) == n
    decreases n
  {
    var r := NatToString(n);
    if n >= 10 {
      DigitsValueOfNatToString(n / 10);
      assert r[..|r| - 1] == NatToString(n / 10);
    }
  }

  lemma {:induction false} LeadingDigitsOfDigits(s: string, radix: nat)
    requires forall i :: 0 <= i < |s| ==> IsDigit(s[i], radix)
    ensures LeadingDigits(s, radix) == s
    decreases |s|
  {
    if |s| > 0 {
      LeadingDigitsOfDigits(s[1..], radix);
    }
  }

  /** `parseInt` reads back the decimal rendering of every natural number. */
  lemma ParseIntNatToString(n: nat)
    ensures ParseInt(NatToString(n)) == Some(n)
    ensures IntOrZero(NatToString(n)) == n
  {
    var s := NatToString(n);
    if |s| >= 2 {
      assert IsDecimalDigit(s[1]);
    }
    ParseIntLeadingDigits(s);
    LeadingDigitsOfDigits(s, 10);
    DigitsValueOfNatToString(n);
  }

  /** A string that does not start with white space, a sign or a decimal digit
      parses to `NaN`, so `parseInt(s) || 0` is 0. */
  lemma ParseIntNonNumeric(s: string)
    requires |s| == 0 || !(IsJsSpace(s[0]) || s[0] == '-' || s[0] == '+' || IsDecimalDigit(s[0]))
    ensures ParseInt(s) == None
    ensures IntOrZero(s) == 0
  {
  }

  /** A string that starts with a decimal digit other than a `0x` prefix parses
      to the value of its leading run of decimal digits, which is not negative. */
  lemma ParseIntLeadingDigits(s: string)
    requires |s| > 0 && IsDecimalDigit(s[0])
    requires !(|s| >= 2 && s[0] == '0' && (s[1] == 'x' || s[1] == 'X'))
    ensures ParseInt(s) == Some(DigitsValue(LeadingDigits(s, 10), 10))
    ensures IntOrZero(s) >= 0
  {
    TrimStartNoSpace(s);
    assert Unsigned(s) == s;
    assert !HexPrefix(s);
    var ds := LeadingDigits(s, 10);
    assert |ds| > 0;
    assert ParseUnsigned(s) == Some(DigitsValue(ds, 10));
  }

  /** A string that starts with a digit has nothing to skip. */
  lemma TrimStartNoSpace(s: string)
    requires |s| > 0 && IsDecimalDigit(s[0])
    ensures TrimStart(s) == s
  {
    assert !IsJsSpace(s[0]);
  }

  // ----- Sorted, duplicate-free string lists (`[...new Set(xs)].sort()`) -----

  /** Strictly increasing in the default string order, hence duplicate-free. */
  predicate StrictlySorted(s: seq<string>)
  {
    forall i, j :: 0 <= i < j < |s| ==> Less(s[i], s[j])
  }

  /** Something below the head of a strictly sorted list is below all of it. */
  lemma BelowHead(x: string, s: seq<string>)
    requires StrictlySorted(s) && |s| > 0 && Less(x, s[0])
    ensures StrictlySorted([x] + s)
  {
    forall j | 0 <= j < |s|
      ensures Less(x, s[j])
    {
      if j > 0 {
        LessTransitive(x, s[0], s[j]);
      }
    }
  }

  /** Adds `x` to a strictly sorted list unless it is already there. */
  function InsertSorted(x: string, s: seq<string>): (r: seq<string>)
    requires StrictlySorted(s)
    ensures StrictlySorted(r)
    ensures forall y :: y in r <==> y in s || y == x
  {
    if |s| == 0 then [x]
    else if x == s[0] then s
    else if Less(x, s[0]) then
      BelowHead(x, s);
      [x] + s
    else
      LessTotal(x, s[0]);
      var rest := InsertSorted(x, s[1..]);
      assert forall y :: y in rest ==> Less(s[0], y);
      [s[0]] + rest
  }

  /** The distinct strings of `xs` in ascending order. */
  function SortedUnique(xs: seq<string>): (r: seq<string>)
    ensures StrictlySorted(r)
    ensures forall y :: y in r <==> y in xs
  {
    if |xs| == 0 then [] else InsertSorted(xs[|xs| - 1], SortedUnique(xs[..|xs| - 1]))
  }

  /** A strictly sorted list has no duplicates. */
  lemma StrictlySortedNoDuplicates(s: seq<string>)
    requires StrictlySorted(s)
    ensures NoDuplicates(s)
  {
    forall i, j | 0 <= i < j < |s|
      ensures s[i] != s[j]
    {
      if s[i] == s[j] {
        LessIrreflexive(s[i]);
      }
    }
  }

  /** The head of a strictly sorted list is its least element. */
  lemma HeadIsLeast(s: seq<string>, y: string)
    requires StrictlySorted(s) && y in s
    ensures LessEq(s[0], y)
  {
  }

  /** Two strictly sorted lists with the same elements are equal: the sorted,
      duplicate-free list of a collection is unique. */
  lemma {:induction false} StrictlySortedUnique(a: seq<string>, b: seq<string>)
    requires StrictlySorted(a) && StrictlySorted(b)
    requires forall y :: y in a <==> y in b
    ensures a == b
    decreases |a|
  {
    if |a| > 0 {
      assert a[0] in b;
    }
    if |b| > 0 {
      assert b[0] in a;
    }
    if |a| > 0 && |b| > 0 {
      HeadIsLeast(a, b[0]);
      HeadIsLeast(b, a[0]);
      if a[0] != b[0] {
        LessAsymmetric(a[0], b[0]);
      }
      assert a[0] == b[0];
      assert a == [a[0]] + a[1..] && b == [b[0]] + b[1..];
      forall y
        ensures y in a[1..] <==> y in b[1..]
      {
        if y in a[1..] {
          var j :| 0 <= j < |a[1..]| && a[1..][j] == y;
          assert a[j + 1] == y;
          assert Less(a[0], y);
          LessIrreflexive(y);
          assert y in b && y != b[0];
        }
        if y in b[1..] {
          var j :| 0 <= j < |b[1..]| && b[1..][j] == y;
          assert b[j + 1] == y;
          assert Less(b[0], y);
          LessIrreflexive(y);
          assert y in a && y != a[0];
        }
      }
      StrictlySortedUnique(a[1..], b[1..]);
      assert a[1..] == b[1..];
    }
  }
}
