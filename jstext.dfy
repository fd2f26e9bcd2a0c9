/** The handful of JavaScript string and number built-ins the cookie parsers and the
    locator code rely on, written out with ECMAScript's meaning: `split` with a
    one-character separator, `join`, `trim`, `startsWith`, `includes`, an ASCII
    `toUpperCase`, `parseInt(s, 10)` and `Number(s)` on decimal integers. */
module JsText {

  /** ECMAScript WhiteSpace and LineTerminator code points: what `trim` removes. */
  predicate IsJsSpace(c: char) {
    c == '\t' || c == '\n' || c == '\U{000B}' || c == '\U{000C}' || c == '\r' || c == ' ' ||
    c == '\U{00A0}' || c == '\U{1680}' || ('\U{2000}' <= c <= '\U{200A}') ||
    c == '\U{2028}' || c == '\U{2029}' || c == '\U{202F}' || c == '\U{205F}' ||
    c == '\U{3000}' || c == '\U{FEFF}'
  }

  predicate AllSpace(s: string) {
    forall i :: 0 <= i < |s| ==> IsJsSpace(s[i])
  }

  /** `s.startsWith(prefix)` */
  predicate StartsWith(s: string, prefix: string) {
    |prefix| <= |s| && s[..|prefix|] == prefix
  }

  /** `s.includes(sub)`: some position of `s` begins an occurrence of `sub`. */
  predicate Includes(s: string, sub: string)
    decreases |s|
  {
    StartsWith(s, sub) || (|s| > 0 && Includes(s[1..], sub))
  }

  lemma {:induction false} IncludesAt(s: string, sub: string, i: nat)
    requires i + |sub| <= |s| && s[i..i + |sub|] == sub
    ensures Includes(s, sub)
    decreases i
  {
    if i == 0 {
      assert s[..|sub|] == sub;
    } else {
      assert s[1..][i - 1..i - 1 + |sub|] == s[i..i + |sub|];
      IncludesAt(s[1..], sub, i - 1);
    }
  }

  lemma {:induction false} IncludesWitness(s: string, sub: string) returns (i: nat)
    requires Includes(s, sub)
    ensures i + |sub| <= |s| && s[i..i + |sub|] == sub
    decreases |s|
  {
    if StartsWith(s, sub) {
      i := 0;
    } else {
      var j := IncludesWitness(s[1..], sub);
      assert s[1..][j..j + |sub|] == s[j + 1..j + 1 + |sub|];
      i := j + 1;
    }
  }

  /** A string includes every string it has as a factor. */
  lemma IncludesInConcat(a: string, sub: string, b: string)
    ensures Includes(a + sub + b, sub)
  {
    assert (a + sub + b)[|a|..|a| + |sub|] == sub;
    IncludesAt(a + sub + b, sub, |a|);
  }

  // ---------------------------------------------------------------------------
  // split and join

  /** `s.split(sep)` for a one-character separator: the maximal separator-free
      pieces, in order; the empty string splits into one empty piece. */
  function Split(s: string, sep: char): (pieces: seq<string>)
    ensures |pieces| >= 1
    decreases |s|
  {
    if s == [] then [[]]
    else if s[0] == sep then [[]] + Split(s[1..], sep)
    else
      var rest := Split(s[1..], sep);
      [[s[0]] + rest[0]] + rest[1..]
  }

  /** `pieces.join(sep)` */
  function Join(pieces: seq<string>, sep: char): string
    decreases |pieces|
  {
    if |pieces| == 0 then []
    else if |pieces| == 1 then pieces[0]
    else pieces[0] + [sep] + Join(pieces[1..], sep)
  }

  /** No piece of a split holds the separator. */
  lemma {:induction false} SplitPiecesFree(s: string, sep: char)
    ensures forall i :: 0 <= i < |Split(s, sep)| ==> sep !in Split(s, sep)[i]
    decreases |s|
  {
    if s != [] {
      SplitPiecesFree(s[1..], sep);
      var rest := Split(s[1..], sep);
      if s[0] != sep {
        assert forall i :: 1 <= i < |Split(s, sep)| ==> Split(s, sep)[i] == rest[i];
      } else {
        assert forall i :: 1 <= i < |Split(s, sep)| ==> Split(s, sep)[i] == rest[i - 1];
      }
    }
  }

  /** Joining the pieces again gives back the string that was split. */
  lemma {:induction false} JoinSplit(s: string, sep: char)
    ensures Join(Split(s, sep), sep) == s
    decreases |s|
  {
    if s == [] {
    } else if s[0] == sep {
      JoinSplit(s[1..], sep);
      assert s == [sep] + s[1..];
    } else {
      var rest := Split(s[1..], sep);
      JoinSplit(s[1..], sep);
      if |rest| == 1 {
        assert s == [s[0]] + s[1..];
      } else {
        assert Join(rest, sep) == rest[0] + [sep] + Join(rest[1..], sep);
        assert s == [s[0]] + s[1..];
      }
    }
  }

  /** Splitting a join of separator-free pieces gives back exactly those pieces. */
  lemma {:induction false} SplitJoin(pieces: seq<string>, sep: char)
    requires |pieces| >= 1
    requires forall i :: 0 <= i < |pieces| ==> sep !in pieces[i]
    ensures Split(Join(pieces, sep), sep) == pieces
    decreases |pieces|
  {
    if |pieces| == 1 {
      SplitFree(pieces[0], sep);
    } else {
      var tail := pieces[1..];
      var joined := Join(tail, sep);
      assert Join(pieces, sep) == pieces[0] + [sep] + joined;
      assert forall i :: 0 <= i < |tail| ==> tail[i] == pieces[i + 1];
      SplitJoin(tail, sep);
      SplitConcat(pieces[0], joined, sep);
      SplitFree(pieces[0], sep);
      assert pieces == [pieces[0]] + tail;
    }
  }

  /** A separator-free string is a single piece. */
  lemma {:induction false} SplitFree(s: string, sep: char)
    requires sep !in s
    ensures Split(s, sep) == [s]
    decreases |s|
  {
    if s != [] {
      assert s[0] in s;
      assert forall c :: c in s[1..] ==> c in s;
      SplitFree(s[1..], sep);
      assert s == [s[0]] + s[1..];
    }
  }

  /** Splitting `a + sep + b` splits `a` and `b` separately: the pieces of `b`
      follow those of `a`. */
  lemma {:induction false} SplitConcat(a: string, b: string, sep: char)
    ensures Split(a + [sep] + b, sep) == Split(a, sep) + Split(b, sep)
    decreases |a|
  {
    var s := a + [sep] + b;
    if a == [] {
      assert s == [sep] + b && s[1..] == b;
    } else {
      assert s[0] == a[0] && s[1..] == a[1..] + [sep] + b;
      SplitConcat(a[1..], b, sep);
      if a[0] != sep {
        var restA := Split(a[1..], sep);
        var restS := Split(s[1..], sep);
        assert restS == restA + Split(b, sep);
        assert restS[0] == restA[0] && restS[1..] == restA[1..] + Split(b, sep);
        assert Split(s, sep) == [[a[0]] + restA[0]] + (restA[1..] + Split(b, sep));
      }
    }
  }

  /** `split` yields one more piece than there are separators. */
  function Count(s: string, c: char): nat
    decreases |s|
  {
    if s == [] then 0 else (if s[0] == c then 1 else 0) + Count(s[1..], c)
  }

  lemma {:induction false} SplitLength(s: string, sep: char)
    ensures |Split(s, sep)| == Count(s, sep) + 1
    decreases |s|
  {
    if s != [] {
      SplitLength(s[1..], sep);
    }
  }

  // ---------------------------------------------------------------------------
  // trim

  /** Drops leading white space: the rest is a suffix of `s` that is empty exactly
      when `s` is all white space, and otherwise starts with a visible character;
      everything dropped is white space. */
  function TrimStart(s: string): (r: string)
    ensures |r| <= |s| && r == s[|s| - |r|..]
    ensures r == [] <==> AllSpace(s)
    ensures r != [] ==> !IsJsSpace(r[0])
    ensures forall i :: 0 <= i < |s| - |r| ==> IsJsSpace(s[i])
    decreases |s|
  {
    if s != [] && IsJsSpace(s[0]) then
      var t := s[1..];
      assert forall i :: 0 <= i < |t| ==> t[i] == s[i + 1];
      TrimStart(t)
    else s
  }

  /** Drops trailing white space: the rest is a prefix of `s` that is empty
      exactly when `s` is all white space, and otherwise ends in a visible character. */
  function TrimEnd(s: string): (r: string)
    ensures |r| <= |s| && r == s[..|r|]
    ensures r == [] <==> AllSpace(s)
    ensures r != [] ==> !IsJsSpace(r[|r| - 1])
    ensures forall i :: |r| <= i < |s| ==> IsJsSpace(s[i])
    decreases |s|
  {
    if s != [] && IsJsSpace(s[|s| - 1]) then
      assert forall i :: 0 <= i < |s| - 1 ==> s[i] == s[..|s| - 1][i];
      TrimEnd(s[..|s| - 1])
    else s
  }

  /** `s.trim()` */
  function Trim(s: string): string {
    TrimEnd(TrimStart(s))
  }

  /** A string trims to the empty string exactly when it is made of white space only. */
  lemma TrimEmptyIff(s: string)
    ensures Trim(s) == [] <==> AllSpace(s)
  {
    var t := TrimStart(s);
    if t != [] {
      assert !IsJsSpace(t[0]);
    }
  }

  // ---------------------------------------------------------------------------
  // toUpperCase

  /** Upper-casing of one character, for the ASCII letters. */
  function UpperChar(c: char): char {
    if 'a' <= c <= 'z' then (c as int - 32) as char else c
  }

  /** `s.toUpperCase()` restricted to the ASCII letters. */
  function ToUpperCase(s: string): string {
    seq(|s|, i requires 0 <= i < |s| => UpperChar(s[i]))
  }

  // ---------------------------------------------------------------------------
  // numbers

  /** A JavaScript number as the cookie parsers can produce one: an integer or NaN. */
  datatype Number = Int(value: int) | NaN

  predicate IsDigit(c: char) {
    '0' <= c <= '9'
  }

  predicate AllDigits(s: string) {
    forall i :: 0 <= i < |s| ==> IsDigit(s[i])
  }

  /** The value of a string of decimal digits, most significant first. */
  function DigitsValue(ds: string): nat
    requires AllDigits(ds)
    decreases |ds|
  {
    if ds == [] then 0
    else DigitsValue(ds[..|ds| - 1]) * 10 + (ds[|ds| - 1] as int - '0' as int)
  }

  /** The longest prefix of `s` made of decimal digits. */
  function DigitPrefix(s: string): (ds: string)
    ensures |ds| <= |s| && ds == s[..|ds|]
    ensures AllDigits(ds)
    ensures |ds| == |s| || !IsDigit(s[|ds|])
    decreases |s|
  {
    if s != [] && IsDigit(s[0]) then [s[0]] + DigitPrefix(s[1..]) else []
  }

  /** The value `v` read after the optional sign at the head of `t`: negated
      after a `-`, as is after a `+` or no sign. */
  function ApplySign(t: string, v: nat): int {
    if t != [] && t[0] == '-' then -(v as int) else v
  }

  /** `t` without its leading sign character, if it has one. */
  function Unsigned(t: string): string {
    if t != [] && (t[0] == '-' || t[0] == '+') then t[1..] else t
  }

  /** `parseInt(s, 10)`: leading white space is skipped, an optional sign is read,
      then the longest run of decimal digits; no digits at all gives NaN. */
  function ParseInt(s: string): Number {
    var t := TrimStart(s);
    var ds := DigitPrefix(Unsigned(t));
    if ds == [] then NaN else Int(ApplySign(t, DigitsValue(ds)))
  }

  /** `Number(s)` for strings: white space around the text is ignored, the empty
      text is 0, and an optionally signed run of decimal digits is its value.
      Every other text is NaN here (see README: fractions, exponents, hexadecimal
      and `Infinity` are not modelled). */
  function ToNumber(s: string): Number {
    var t := Trim(s);
    if t == [] then Int(0)
    else if Unsigned(t) != [] && AllDigits(Unsigned(t)) then Int(ApplySign(t, DigitsValue(Unsigned(t))))
    else NaN
  }

  /** The decimal text of a natural number, without leading zeros (as JavaScript
      prints integers below 10^21; from there on it switches to exponent notation). */
  function Decimal(n: nat): (ds: string)
    ensures ds != [] && AllDigits(ds)
    decreases n
  {
    if n < 10 then [('0' as int + n) as char]
    else Decimal(n / 10) + [('0' as int + n % 10) as char]
  }

  lemma {:induction false} DecimalValue(n: nat)
    ensures DigitsValue(Decimal(n)) == n
    decreases n
  {
    if n >= 10 {
      DecimalValue(n / 10);
      assert Decimal(n)[..|Decimal(n)| - 1] == Decimal(n / 10);
    }
  }

  /** Both `parseInt(s, 10)` and `Number(s)` read back the decimal text of any
      integer, with or without a minus sign. */
  lemma DecimalRoundTrip(n: nat)
    ensures ParseInt(Decimal(n)) == Int(n) && ToNumber(Decimal(n)) == Int(n)
    ensures ParseInt("-" + Decimal(n)) == Int(-(n as int)) && ToNumber("-" + Decimal(n)) == Int(-(n as int))
  {
    DecimalValue(n);
    DigitsRead(Decimal(n), n);
    NegatedDigitsRead(Decimal(n), n);
  }

  /** Text with no white space at either end is left alone by `trim`. */
  lemma Untrimmed(s: string)
    requires s != [] && !IsJsSpace(s[0]) && !IsJsSpace(s[|s| - 1])
    ensures TrimStart(s) == s && Trim(s) == s
  {
  }

  /** A run of digits is its own longest digit prefix. */
  lemma {:induction false} DigitPrefixAll(d: string)
    requires AllDigits(d)
    ensures DigitPrefix(d) == d
  {
  }

  lemma DigitsRead(d: string, n: nat)
    requires d != [] && AllDigits(d) && DigitsValue(d) == n
    ensures ParseInt(d) == Int(n) && ToNumber(d) == Int(n)
  {
    assert IsDigit(d[0]) && IsDigit(d[|d| - 1]);
    Untrimmed(d);
    assert Unsigned(d) == d && ApplySign(d, n) == n;
    DigitPrefixAll(d);
  }

  lemma NegatedDigitsRead(d: string, n: nat)
    requires d != [] && AllDigits(d) && DigitsValue(d) == n
    ensures ParseInt("-" + d) == Int(-(n as int)) && ToNumber("-" + d) == Int(-(n as int))
  {
    NegatedText(d, n);
    DigitPrefixAll(d);
  }

  /** `-` followed by digits: untouched by `trim`, negative, and the digits once the sign is read. */
  lemma NegatedText(d: string, n: nat)
    requires d != [] && AllDigits(d)
    ensures TrimStart("-" + d) == "-" + d && Trim("-" + d) == "-" + d
    ensures Unsigned("-" + d) == d && ApplySign("-" + d, n) == -(n as int)
  {
    var m := "-" + d;
    assert m[0] == '-' && m[1..] == d && m[|m| - 1] == d[|d| - 1];
    assert IsDigit(d[|d| - 1]);
    Untrimmed(m);
  }

  /** The two conversions part ways on trailing text: `parseInt` keeps the
      leading digits, `Number` gives NaN. */
  lemma ParseIntDiffersFromNumber()
    ensures ParseInt("12abc") == Int(12) && ToNumber("12abc") == NaN
  {
    TrailingTextParsed();
    TrailingTextNaN();
  }

  lemma TrailingText()
    ensures TrimStart("12abc") == "12abc" && Trim("12abc") == "12abc"
    ensures Unsigned("12abc") == "12abc" && ApplySign("12abc", 12) == 12
  {
    var s := "12abc";
    assert !IsJsSpace(s[0]) && !IsJsSpace(s[|s| - 1]);
    Untrimmed(s);
  }

  lemma TrailingTextParsed()
    ensures ParseInt("12abc") == Int(12)
  {
    var s := "12abc";
    TrailingText();
    assert DigitPrefix(s[2..]) == [] by {
      assert !IsDigit(s[2..][0]);
    }
    assert DigitPrefix(s[1..]) == "2" by {
      assert s[1..][0] == '2' && s[1..][1..] == s[2..];
    }
    assert DigitPrefix(s) == "12";
    assert DigitsValue("12") == 12 by {
      assert "12"[..1] == "1";
      assert "1"[..0] == "";
    }
  }

  lemma TrailingTextNaN()
    ensures ToNumber("12abc") == NaN
  {
    var s := "12abc";
    TrailingText();
    assert !AllDigits(s) by {
      assert !IsDigit(s[2]);
    }
  }
}
