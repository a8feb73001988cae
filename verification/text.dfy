/**
  The string primitives the screens rely on, written out over `seq<char>`:
  JavaScript's `trim`, `toLowerCase` and `includes`, decimal rendering of
  numbers (`String(n)`) and the subset of `Number(s)` the copies field uses.
 */
module Text {

  /** The characters `String.prototype.trim` removes: ECMAScript WhiteSpace
      (tab, vertical tab, form feed, space, no-break space, BOM and the Zs
      category) and LineTerminator (LF, CR, LS, PS). */
  predicate IsWhite(c: char) {
    var n := c as int;
    || 0x09 <= n <= 0x0D
    || n == 0x20 || n == 0xA0 || n == 0x1680
    || 0x2000 <= n <= 0x200A
    || n == 0x2028 || n == 0x2029 || n == 0x202F || n == 0x205F
    || n == 0x3000 || n == 0xFEFF
  }

  predicate AllWhite(s: string) {
    forall i :: 0 <= i < |s| ==> IsWhite(s[i])
  }

  /** A white first character joins the white prefix in front of a suffix. */
  lemma WhiteHeadJoinsPrefix(s: string, r: string)
    requires |s| > 0 && IsWhite(s[0])
    requires |r| < |s| && r == s[1..][|s| - 1 - |r|..] && AllWhite(s[1..][..|s| - 1 - |r|])
    ensures r == s[|s| - |r|..] && AllWhite(s[..|s| - |r|])
  {
    forall i | 0 < i < |s| - |r| ensures IsWhite(s[i]) {
      assert s[1..][..|s| - 1 - |r|][i - 1] == s[i];
    }
  }

  /** A white last character joins the white suffix behind a prefix. */
  lemma WhiteTailJoinsSuffix(s: string, r: string)
    requires |s| > 0 && IsWhite(s[|s| - 1])
    requires |r| < |s| && r == s[..|s| - 1][..|r|] && AllWhite(s[..|s| - 1][|r|..])
    ensures r == s[..|r|] && AllWhite(s[|r|..])
  {
    forall i | |r| <= i < |s| - 1 ensures IsWhite(s[i]) {
      assert s[..|s| - 1][|r|..][i - |r|] == s[i];
    }
  }

  /** Drops leading white space. */
  function TrimStart(s: string): (r: string)
    ensures |r| <= |s| && r == s[|s| - |r|..]
    ensures AllWhite(s[..|s| - |r|])
    ensures r == [] || !IsWhite(r[0])
  {
    if |s| > 0 && IsWhite(s[0]) then
      var r := TrimStart(s[1..]);
      WhiteHeadJoinsPrefix(s, r);
      r
    else s
  }

  /** Drops trailing white space. */
  function TrimEnd(s: string): (r: string)
    ensures |r| <= |s| && r == s[..|r|]
    ensures AllWhite(s[|r|..])
    ensures r == [] || !IsWhite(r[|r| - 1])
  {
    if |s| > 0 && IsWhite(s[|s| - 1]) then
      var r := TrimEnd(s[..|s| - 1]);
      WhiteTailJoinsSuffix(s, r);
      r
    else s
  }

  /** `r` sits in `s` at position `k`. */
  predicate SliceAt(s: string, k: int, r: string) {
    0 <= k <= |s| - |r| && s[k..k + |r|] == r
  }

  /** A prefix `r` of a suffix `t` of `s`, followed in `t` by white space
      only, sits in `s` with only white space after it. */
  lemma PrefixOfSuffix(s: string, t: string, r: string)
    requires |t| <= |s| && t == s[|s| - |t|..]
    requires |r| <= |t| && r == t[..|r|] && AllWhite(t[|r|..])
    ensures SliceAt(s, |s| - |t|, r) && AllWhite(s[|s| - |t| + |r|..])
  {
    var k := |s| - |t|;
    assert s[k..][..|r|] == s[k..k + |r|];
    assert s[k..][|r|..] == s[k + |r|..];
  }

  /** The same slice is empty exactly when `s` is all white space, given
      that `t` starts with a visible character when it is not empty. */
  lemma PrefixOfSuffixEmpty(s: string, t: string, r: string)
    requires |t| <= |s| && t == s[|s| - |t|..] && AllWhite(s[..|s| - |t|])
    requires |r| <= |t| && r == t[..|r|] && AllWhite(t[|r|..])
    requires t == [] || !IsWhite(t[0])
    ensures r == [] <==> AllWhite(s)
    ensures r != [] ==> r[0] == t[0]
  {
    var k := |s| - |t|;
    if r == [] {
      assert t == [];
      forall i | 0 <= i < |s| ensures IsWhite(s[i]) {
        assert s[..k][i] == s[i];
      }
    } else {
      assert t[0] == s[k];
    }
  }

  /** `r` is `s` without its white space at either end: a slice of `s` with
      only white space around it, starting and ending with a visible
      character, and empty exactly when `s` is all white space. */
  ghost predicate TrimmedFrom(s: string, r: string) {
    && (exists k :: SliceAt(s, k, r) && AllWhite(s[..k]) && AllWhite(s[k + |r|..]))
    && (r == [] || (!IsWhite(r[0]) && !IsWhite(r[|r| - 1])))
    && (r == [] <==> AllWhite(s))
  }

  /** What trimming the start and then the end of `s` leaves, stated from
      the two halves' contracts alone. */
  lemma TrimmedSlice(s: string, t: string, r: string)
    requires |t| <= |s| && t == s[|s| - |t|..] && AllWhite(s[..|s| - |t|])
    requires t == [] || !IsWhite(t[0])
    requires |r| <= |t| && r == t[..|r|] && AllWhite(t[|r|..])
    requires r == [] || !IsWhite(r[|r| - 1])
    ensures TrimmedFrom(s, r)
  {
    PrefixOfSuffix(s, t, r);
    PrefixOfSuffixEmpty(s, t, r);
    var k := |s| - |t|;
    assert SliceAt(s, k, r) && AllWhite(s[..k]) && AllWhite(s[k + |r|..]);
  }

  /** `s.trim()`: the slice of `s` left once the white space before and after it is gone. */
  function Trim(s: string): (r: string)
    ensures |r| <= |s|
  {
    TrimEnd(TrimStart(s))
  }

  /** What `trim` leaves: the slice of `s` between white space at either
      end, starting and ending with a visible character, and empty exactly
      when `s` is all white space. */
  lemma TrimShape(s: string)
    ensures TrimmedFrom(s, Trim(s))
  {
    TrimmedSlice(s, TrimStart(s), TrimEnd(TrimStart(s)));
  }

  /** A text that starts and ends with a visible character is its own trim. */
  lemma TrimVisibleEnds(s: string)
    requires s != [] && !IsWhite(s[0]) && !IsWhite(s[|s| - 1])
    ensures Trim(s) == s
  {
    assert TrimStart(s) == s;
    assert TrimEnd(s) == s;
  }

  lemma {:induction false} TrimStartSkipsWhitePrefix(a: string, s: string)
    requires AllWhite(a)
    ensures TrimStart(a + s) == TrimStart(s)
    decreases |a|
  {
    if |a| > 0 {
      assert (a + s)[1..] == a[1..] + s;
      TrimStartSkipsWhitePrefix(a[1..], s);
    } else {
      assert a + s == s;
    }
  }

  lemma {:induction false} TrimEndSkipsWhiteSuffix(s: string, b: string)
    requires AllWhite(b)
    ensures TrimEnd(s + b) == TrimEnd(s)
    decreases |b|
  {
    if |b| > 0 {
      assert (s + b)[..|s + b| - 1] == s + b[..|b| - 1];
      TrimEndSkipsWhiteSuffix(s, b[..|b| - 1]);
    } else {
      assert s + b == s;
    }
  }

  lemma {:induction false} TrimStartKeepsSuffix(s: string, b: string)
    requires !AllWhite(s)
    ensures TrimStart(s + b) == TrimStart(s) + b
    decreases |s|
  {
    assert |s| > 0;
    if IsWhite(s[0]) {
      assert (s + b)[1..] == s[1..] + b;
      assert !AllWhite(s[1..]) by {
        var i :| 0 <= i < |s| && !IsWhite(s[i]);
        assert s[1..][i - 1] == s[i];
      }
      TrimStartKeepsSuffix(s[1..], b);
    }
  }

  /** White space around a text never changes what `trim` returns. */
  lemma TrimIgnoresPadding(a: string, s: string, b: string)
    requires AllWhite(a) && AllWhite(b)
    ensures Trim(a + s + b) == Trim(s)
  {
    assert a + s + b == a + (s + b);
    TrimStartSkipsWhitePrefix(a, s + b);
    if AllWhite(s) {
      assert AllWhite(s + b);
      assert Trim(s + b) == [];
    } else {
      TrimStartKeepsSuffix(s, b);
      TrimEndSkipsWhiteSuffix(TrimStart(s), b);
    }
  }

  // Lengths in UTF-16 code units

  /** How many UTF-16 code units JavaScript stores for `c`: a surrogate pair
      outside the Basic Multilingual Plane, a single unit inside it. */
  function Units(c: char): nat {
    if c as int >= 0x1_0000 then 2 else 1
  }

  /** `s.length` in JavaScript: the number of UTF-16 code units of `s`. */
  function Utf16Length(s: string): (n: nat)
    ensures |s| <= n <= 2 * |s|
    decreases |s|
  {
    if |s| == 0 then 0 else Units(s[0]) + Utf16Length(s[1..])
  }

  /** The code units of a concatenation are those of its parts. */
  lemma {:induction false} Utf16LengthAppend(a: string, b: string)
    ensures Utf16Length(a + b) == Utf16Length(a) + Utf16Length(b)
    decreases |a|
  {
    if |a| == 0 {
      assert a + b == b;
    } else {
      assert (a + b)[1..] == a[1..] + b;
      Utf16LengthAppend(a[1..], b);
    }
  }

  /** `length` counts characters exactly when none lies outside the Basic
      Multilingual Plane. */
  lemma {:induction false} Utf16LengthBmp(s: string)
    ensures Utf16Length(s) == |s| <==> forall i :: 0 <= i < |s| ==> Units(s[i]) == 1
    decreases |s|
  {
    if |s| > 0 {
      Utf16LengthBmp(s[1..]);
      assert forall i :: 1 <= i < |s| ==> s[1..][i - 1] == s[i];
    }
  }

  /** A slice never has more code units than the text it is cut from. */
  lemma SliceUtf16Length(s: string, k: int, r: string)
    requires SliceAt(s, k, r)
    ensures Utf16Length(r) <= Utf16Length(s)
  {
    assert s == s[..k] + r + s[k + |r|..];
    Utf16LengthAppend(s[..k] + r, s[k + |r|..]);
    Utf16LengthAppend(s[..k], r);
  }

  /** Trimming never adds code units. */
  lemma TrimUtf16Length(s: string)
    ensures Utf16Length(Trim(s)) <= Utf16Length(s)
  {
    TrimShape(s);
    var r := Trim(s);
    var k :| SliceAt(s, k, r) && AllWhite(s[..k]) && AllWhite(s[k + |r|..]);
    SliceUtf16Length(s, k, r);
  }

  /** A prefix of `s` counts the first character's units plus those of the
      matching prefix of the rest. */
  lemma PrefixUtf16Length(s: string, j: nat)
    requires j < |s|
    ensures Utf16Length(s[..j + 1]) == Units(s[0]) + Utf16Length(s[1..][..j])
  {
    assert s[..j + 1][1..] == s[1..][..j];
  }

  /** The steps of `TakeUnits`, where the first character fits and `rest`
      is what the remainder keeps: the kept prefix fits ... */
  lemma TakeUnitsStepFits(s: string, budget: nat, rest: string)
    requires |s| > 0 && Units(s[0]) <= budget
    requires |rest| < |s| && rest == s[1..][..|rest|]
    requires Utf16Length(rest) <= budget - Units(s[0])
    ensures Utf16Length(s[..|rest| + 1]) <= budget
  {
    PrefixUtf16Length(s, |rest|);
  }

  /** ... one more character would not ... */
  lemma TakeUnitsStepMaximal(s: string, budget: nat, rest: string)
    requires |s| > 0 && Units(s[0]) <= budget
    requires |rest| < |s| && rest == s[1..][..|rest|]
    requires |rest| < |s| - 1 ==> Utf16Length(s[1..][..|rest| + 1]) > budget - Units(s[0])
    ensures |rest| + 1 < |s| ==> Utf16Length(s[..|rest| + 2]) > budget
  {
    if |rest| + 1 < |s| {
      PrefixUtf16Length(s, |rest| + 1);
    }
  }

  /** ... and a text that fits is kept whole. */
  lemma TakeUnitsStepWhole(s: string, budget: nat, rest: string)
    requires |s| > 0 && Units(s[0]) <= budget
    requires |rest| < |s| && rest == s[1..][..|rest|]
    requires Utf16Length(s[1..]) <= budget - Units(s[0]) ==> rest == s[1..]
    ensures Utf16Length(s) <= budget ==> s[..|rest| + 1] == s
  {
    assert Utf16Length(s) == Units(s[0]) + Utf16Length(s[1..]);
  }

  /** When the first character does not fit, neither it nor the whole text does. */
  lemma TakeUnitsStop(s: string, budget: nat)
    requires |s| > 0 && Units(s[0]) > budget
    ensures Utf16Length(s[..1]) > budget && Utf16Length(s) > budget
  {
    PrefixUtf16Length(s, 0);
    assert s[1..][..0] == [];
  }

  /** The longest prefix of `s` that fits in `budget` code units. A surrogate
      pair that would straddle the limit is left out whole. */
  function TakeUnits(s: string, budget: nat): (r: string)
    ensures |r| <= |s| && r == s[..|r|]
    ensures Utf16Length(r) <= budget
    ensures |r| < |s| ==> Utf16Length(s[..|r| + 1]) > budget
    ensures Utf16Length(s) <= budget ==> r == s
    decreases |s|
  {
    if |s| == 0 then []
    else if Units(s[0]) > budget then
      TakeUnitsStop(s, budget);
      []
    else
      var left: nat := budget - Units(s[0]);
      var rest := TakeUnits(s[1..], left);
      TakeUnitsStepFits(s, budget, rest);
      TakeUnitsStepMaximal(s, budget, rest);
      TakeUnitsStepWhole(s, budget, rest);
      var r := s[..|rest| + 1];
      assert |r| == |rest| + 1;
      r
  }

  /** The capitals of the Latin-1 range: A-Z and the accented capitals
      U+00C0..U+00DE (except the multiplication sign). */
  predicate IsUpper(c: char) {
    'A' <= c <= 'Z' || ('\U{00C0}' <= c <= '\U{00DE}' && c != '\U{00D7}')
  }

  /** `toLowerCase` on one character: a capital moves 32 code points up to
      its small letter, anything else is left alone, and no capital is left. */
  function LowerChar(c: char): (r: char)
    ensures IsUpper(c) ==> r as int == c as int + 32
    ensures !IsUpper(c) ==> r == c
    ensures !IsUpper(r)
  {
    if IsUpper(c) then (c as int + 32) as char else c
  }

  /** `s.toLowerCase()`, character by character. */
  function Lower(s: string): (r: string)
    ensures |r| == |s|
    ensures forall i :: 0 <= i < |s| ==> r[i] == LowerChar(s[i])
    ensures forall i :: 0 <= i < |r| ==> !IsUpper(r[i])
  {
    seq(|s|, i requires 0 <= i < |s| => LowerChar(s[i]))
  }

  /** `needle` occurs at the start of `hay`. */
  predicate StartsWith(hay: string, needle: string) {
    |needle| <= |hay| && hay[..|needle|] == needle
  }

  /** `hay.includes(needle)`, searching left to right. */
  predicate Contains(hay: string, needle: string)
    decreases |hay|
  {
    StartsWith(hay, needle) || (|hay| > 0 && Contains(hay[1..], needle))
  }

  /** The search agrees with the positional definition of a substring. */
  lemma {:induction false} ContainsIff(hay: string, needle: string)
    ensures Contains(hay, needle) <==> exists i :: SliceAt(hay, i, needle)
    decreases |hay|
  {
    if StartsWith(hay, needle) {
      assert SliceAt(hay, 0, needle);
    } else if |hay| > 0 {
      ContainsIff(hay[1..], needle);
      if exists i :: SliceAt(hay, i, needle) {
        var i :| SliceAt(hay, i, needle);
        assert i != 0;
        assert SliceAt(hay[1..], i - 1, needle);
      }
      if Contains(hay[1..], needle) {
        var j :| SliceAt(hay[1..], j, needle);
        assert SliceAt(hay, j + 1, needle);
      }
    }
  }

  /** `hay.toLowerCase().includes(query.toLowerCase())`: the lowered query
      occurs somewhere in the lowered text. */
  function IncludesIgnoringCase(hay: string, query: string): (b: bool)
    ensures b <==> exists k :: SliceAt(Lower(hay), k, Lower(query))
  {
    ContainsIff(Lower(hay), Lower(query));
    Contains(Lower(hay), Lower(query))
  }

  /** The empty query occurs in every text. */
  lemma EmptyQueryMatches(hay: string)
    ensures IncludesIgnoringCase(hay, "")
  {
    assert Lower("") == "";
    assert StartsWith(Lower(hay), "");
  }

  /** A query that occurs exactly in a text passes the case-insensitive search. */
  lemma ExactOccurrenceMatches(hay: string, k: int, query: string)
    requires SliceAt(hay, k, query)
    ensures IncludesIgnoringCase(hay, query)
  {
    var lh, lq := Lower(hay), Lower(query);
    forall i | 0 <= i < |query| ensures lh[k..k + |query|][i] == lq[i] {
      assert hay[k + i] == query[i];
    }
    assert SliceAt(lh, k, lq);
    ContainsIff(lh, lq);
  }

  // Decimal numbers

  predicate IsDigit(c: char) {
    '0' <= c <= '9'
  }

  predicate AllDigits(s: string) {
    forall i :: 0 <= i < |s| ==> IsDigit(s[i])
  }

  function DigitChar(d: nat): char
    requires d < 10
  {
    ('0' as int + d) as char
  }

  /** `String(n)` for a non-negative integer: its decimal digits, no leading zero. */
  function Decimal(n: nat): (r: string)
    ensures |r| > 0 && AllDigits(r)
    ensures |r| > 1 ==> r[0] != '0'
    decreases n
  {
    if n < 10 then [DigitChar(n)] else Decimal(n / 10) + [DigitChar(n % 10)]
  }

  /** The value of a string of decimal digits. */
  function DecimalValue(s: string): nat
    requires AllDigits(s)
    decreases |s|
  {
    if |s| == 0 then 0
    else DecimalValue(s[..|s| - 1]) * 10 + (s[|s| - 1] as int - '0' as int)
  }

  /** Reading back a rendered number gives the number. */
  lemma {:induction false} DecimalRoundTrip(n: nat)
    ensures DecimalValue(Decimal(n)) == n
    decreases n
  {
    if n >= 10 {
      var r := Decimal(n);
      assert r[..|r| - 1] == Decimal(n / 10);
      DecimalRoundTrip(n / 10);
    }
  }

  lemma DecimalInjective(a: nat, b: nat)
    requires Decimal(a) == Decimal(b)
    ensures a == b
  {
    DecimalRoundTrip(a);
    DecimalRoundTrip(b);
  }

  /** `String(i)` for any integer: the decimal digits of its magnitude, which
      read back as that magnitude, after a minus sign exactly when negative. */
  function IntToString(i: int): (r: string)
    ensures |r| > 0 && (r[0] == '-' <==> i < 0)
    ensures i >= 0 ==> AllDigits(r) && DecimalValue(r) == i && (|r| > 1 ==> r[0] != '0')
    ensures i < 0 ==> |r| >= 2 && AllDigits(r[1..]) && DecimalValue(r[1..]) == -i && (|r| > 2 ==> r[1] != '0')
  {
    if i < 0 then
      DecimalRoundTrip(-i);
      assert ("-" + Decimal(-i))[1..] == Decimal(-i);
      "-" + Decimal(-i)
    else
      DecimalRoundTrip(i);
      Decimal(i)
  }

  /** Different integers have different renderings. */
  lemma IntToStringInjective(a: int, b: int)
    requires IntToString(a) == IntToString(b)
    ensures a == b
  {
    if a < 0 && b < 0 {
      assert Decimal(-a) == IntToString(a)[1..];
      DecimalInjective(-a, -b);
    } else if a >= 0 && b >= 0 {
      DecimalInjective(a, b);
    }
  }

  lemma IntToStringDistinct(a: int, b: int)
    requires a != b
    ensures IntToString(a) != IntToString(b)
  {
    if IntToString(a) == IntToString(b) {
      IntToStringInjective(a, b);
    }
  }

  /** The result of `Number(s)` as far as the copies check can tell it apart. */
  datatype Number = NaN | Num(value: nat)

  /** `Number(s)` on what a number pad produces: surrounding white space is
      ignored, an empty (or blank) text is 0, a run of decimal digits is its
      value, and anything else is NaN. */
  function ParseNumber(s: string): (r: Number)
    ensures r == Num(0) <== AllWhite(s)
    ensures r.Num? <==> AllDigits(Trim(s))
    ensures r.Num? && Trim(s) != [] ==> AllDigits(Trim(s)) && r.value == DecimalValue(Trim(s))
  {
    TrimShape(s);
    var t := Trim(s);
    if |t| == 0 then Num(0)
    else if AllDigits(t) then Num(DecimalValue(t))
    else NaN
  }

  /** Rendering a count and parsing it back gives the count. */
  lemma ParseDecimal(n: nat)
    ensures ParseNumber(Decimal(n)) == Num(n)
  {
    var s := Decimal(n);
    assert !IsWhite(s[0]) && !IsWhite(s[|s| - 1]);
    TrimVisibleEnds(s);
    DecimalRoundTrip(n);
  }
}
