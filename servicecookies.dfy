/** `parseCookiesFile` of index.js: like the imageEditor.js parser, but a line
    with an empty domain, name or value is skipped too, every domain gets a
    leading dot, `secure` and `httpOnly` compare with `TRUE` ignoring case
    (`httpOnly` reading the second, host-only field), an empty expiry leaves
    `expires` undefined, and an unreadable file is an error. */
module ServiceCookies {
  import opened Wrappers
  import opened JsText
  import opened Seqs
  import opened CookieJar

  /** The domain with a leading dot, added when it is missing. */
  function AddDot(domain: string): (d: string)
    ensures StartsWith(d, ".")
    ensures if StartsWith(domain, ".") then d == domain else d == ['.'] + domain
  {
    if StartsWith(domain, ".") then domain else ['.'] + domain
  }

  /** An empty expiry leaves `expires` undefined; any other is read by `Number`. */
  function ExpiryOf(field: string): Expiry {
    if field == [] then Undefined else Expires(ToNumber(field))
  }

  /** The text upper-cased is `TRUE`. */
  predicate IsTrueIgnoringCase(s: string) {
    ToUpperCase(s) == "TRUE"
  }

  /** The cookie object pushed for a line with fields `f`. */
  function CookieOf(f: Fields): Cookie {
    Cookie(
      name := f.name,
      value := f.value,
      domain := AddDot(f.domain),
      path := f.path,
      expires := ExpiryOf(f.expiry),
      httpOnly := IsTrueIgnoringCase(f.hostOnly),
      secure := IsTrueIgnoringCase(f.secure),
      sameSite := SameSiteLax)
  }

  /** The domain, name and value are all non-empty. */
  predicate HasCredentials(f: Fields) {
    f.domain != [] && f.name != [] && f.value != []
  }

  /** The lines that produce a cookie. */
  predicate Kept(line: string) {
    !IsComment(line) && !IsBlank(line) && |Parts(line)| >= 7 && HasCredentials(FieldsOf(Parts(line)))
  }

  /** What one line contributes. */
  function LineCookies(line: string): seq<Cookie> {
    if Kept(line) then [CookieOf(FieldsOf(Parts(line)))] else []
  }

  /** The cookies of a sequence of lines, in line order. */
  function CookiesOf(lines: seq<string>): seq<Cookie> {
    FlatMap(lines, LineCookies)
  }

  /** The wrapped error `parseCookiesFile` rethrows when the file cannot be read. */
  datatype ParseError = CookieFileUnreadable

  /** `parseCookiesFile`, given the file's content (`None` when it cannot be read). */
  method ParseCookiesFile(content: Option<string>) returns (r: Result<seq<Cookie>, ParseError>)
    ensures content.None? ==> r == Failure(CookieFileUnreadable)
    ensures content.Some? ==> r == Success(CookiesOf(Lines(content.value)))
  {
    if content.None? {
      return Failure(CookieFileUnreadable);
    }
    var lines := Lines(content.value);
    var cookies := [];
    for i := 0 to |lines|
      invariant cookies == CookiesOf(lines[..i])
    {
      assert lines[..i + 1][..i] == lines[..i];
      var line := lines[i];
      if IsComment(line) || IsBlank(line) {
        continue;
      }
      var parts := Parts(line);
      if |parts| >= 7 {
        var f := FieldsOf(parts);
        if f.domain == [] || f.name == [] || f.value == [] {
          continue;
        }
        cookies := cookies + [CookieOf(f)];
      }
    }
    assert lines[..|lines|] == lines;
    return Success(cookies);
  }

  // ---------------------------------------------------------------------------
  // properties of the line rule

  /** A comment, blank or short line, or one with an empty domain, name or value,
      yields nothing, wherever it stands. */
  lemma SkippedLine(before: seq<string>, line: string, after: seq<string>)
    requires IsComment(line) || IsBlank(line) || |Parts(line)| < 7 || !HasCredentials(FieldsOf(Parts(line)))
    ensures CookiesOf(before + [line] + after) == CookiesOf(before + after)
  {
    assert !Kept(line);
    FlatMapOne(line, LineCookies);
    FlatMapAppend(before + [line], after, LineCookies);
    FlatMapAppend(before, [line], LineCookies);
    FlatMapAppend(before, after, LineCookies);
  }

  /** Every other line yields exactly one cookie, at its own place in the order. */
  lemma KeptLine(before: seq<string>, line: string, after: seq<string>)
    requires !IsComment(line) && !IsBlank(line) && |Parts(line)| >= 7 && HasCredentials(FieldsOf(Parts(line)))
    ensures CookiesOf(before + [line] + after)
         == CookiesOf(before) + [CookieOf(FieldsOf(Parts(line)))] + CookiesOf(after)
  {
    FlatMapOne(line, LineCookies);
    FlatMapAppend(before + [line], after, LineCookies);
    FlatMapAppend(before, [line], LineCookies);
  }

  /** One cookie per kept line. */
  lemma CookieCount(lines: seq<string>)
    ensures |CookiesOf(lines)| == |Filter(lines, Kept)|
  {
    FlatMapCount(lines, LineCookies, Kept);
  }

  /** Every domain ends up with a leading dot; adding it twice changes nothing. */
  lemma DotIdempotent(domain: string)
    ensures forall f: Fields :: StartsWith(CookieOf(f).domain, ".")
    ensures AddDot(AddDot(domain)) == AddDot(domain)
  {
  }

  /** On a line that yields a cookie, `expires` is undefined exactly when the
      fifth field is empty, and otherwise `Number` of that field. */
  lemma ExpiryUndefinedIff(line: string)
    requires Kept(line)
    ensures |LineCookies(line)| == 1
    ensures LineCookies(line)[0].expires == Undefined <==> Parts(line)[4] == []
    ensures Parts(line)[4] != [] ==> LineCookies(line)[0].expires == Expires(ToNumber(Parts(line)[4]))
  {
  }

  /** `true` spelled with each letter in either case. */
  predicate SpellsTrue(s: string) {
    |s| == 4 && s[0] in "tT" && s[1] in "rR" && s[2] in "uU" && s[3] in "eE"
  }

  /** The upper-case comparison with `TRUE` accepts exactly the spellings of `true` in any case. */
  lemma TrueIgnoringCaseIff(s: string)
    ensures IsTrueIgnoringCase(s) <==> SpellsTrue(s)
  {
    if IsTrueIgnoringCase(s) {
      var u := ToUpperCase(s);
      assert |u| == |s| == 4;
      assert u[0] == 'T' && u[1] == 'R' && u[2] == 'U' && u[3] == 'E';
      assert UpperChar(s[0]) == 'T' && UpperChar(s[1]) == 'R' && UpperChar(s[2]) == 'U' && UpperChar(s[3]) == 'E';
    }
    if |s| == 4 && s[0] in "tT" && s[1] in "rR" && s[2] in "uU" && s[3] in "eE" {
      assert ToUpperCase(s) == [UpperChar(s[0]), UpperChar(s[1]), UpperChar(s[2]), UpperChar(s[3])];
    }
  }

  /** On a line that yields a cookie, `secure` holds exactly when the fourth field
      spells `true` in any mix of cases, and `httpOnly` exactly when the second does. */
  lemma FlagsIgnoreCase(line: string)
    requires Kept(line)
    ensures |LineCookies(line)| == 1
    ensures LineCookies(line)[0].secure <==> SpellsTrue(Parts(line)[3])
    ensures LineCookies(line)[0].httpOnly <==> SpellsTrue(Parts(line)[1])
    ensures Parts(line)[3] == "true" && Parts(line)[1] == "True" ==>
      LineCookies(line)[0].secure && LineCookies(line)[0].httpOnly
  {
    var f := FieldsOf(Parts(line));
    assert LineCookies(line) == [CookieOf(f)];
    FieldFlags(f);
  }

  lemma FieldFlags(f: Fields)
    ensures CookieOf(f).secure <==> SpellsTrue(f.secure)
    ensures CookieOf(f).httpOnly <==> SpellsTrue(f.hostOnly)
    ensures SpellsTrue("true") && SpellsTrue("True")
  {
    TrueIgnoringCaseIff(f.secure);
    TrueIgnoringCaseIff(f.hostOnly);
  }

  /** A written line with non-empty domain, name and value reads back as its cookie;
      one missing any of them yields nothing. */
  lemma WrittenLine(f: Fields)
    requires Clean(f) && !StartsWith(f.domain, "#") && !AllFieldsBlank(f)
    ensures LineCookies(LineOf(f)) == if HasCredentials(f) then [CookieOf(f)] else []
  {
    LineCommentIff(f);
    LineBlankIff(f);
    LineOfSplits(f);
  }

  /** Reading back a jar file gives the cookies of the written lines that have a
      domain, a name and a value, in order. */
  lemma {:induction false} ReadWrittenJar(fs: seq<Fields>)
    requires forall i :: 0 <= i < |fs| ==> Clean(fs[i]) && !StartsWith(fs[i].domain, "#") && !AllFieldsBlank(fs[i])
    ensures CookiesOf(Lines(JarText(fs))) == Map(Filter(fs, HasCredentials), CookieOf)
  {
    if fs == [] {
      assert Lines(JarText(fs)) == [[]];
      FlatMapOne([], LineCookies);
    } else {
      JarTextLines(fs);
      WrittenLines(fs);
    }
  }

  lemma {:induction false} WrittenLines(fs: seq<Fields>)
    requires forall i :: 0 <= i < |fs| ==> Clean(fs[i]) && !StartsWith(fs[i].domain, "#") && !AllFieldsBlank(fs[i])
    ensures CookiesOf(Map(fs, LineOf)) == Map(Filter(fs, HasCredentials), CookieOf)
    decreases |fs|
  {
    if fs != [] {
      var init, f := fs[..|fs| - 1], fs[|fs| - 1];
      assert fs == init + [f];
      var ls := Map(fs, LineOf);
      var tail := if HasCredentials(f) then [CookieOf(f)] else [];
      WrittenLines(init);
      assert ls[..|ls| - 1] == Map(init, LineOf);
      WrittenLine(f);
      calc {
        CookiesOf(ls);
        CookiesOf(Map(init, LineOf)) + LineCookies(LineOf(f));
        Map(Filter(init, HasCredentials), CookieOf) + tail;
        { KeptCookiesSnoc(init, f); }
        Map(Filter(fs, HasCredentials), CookieOf);
      }
    }
  }

  lemma KeptCookiesSnoc(init: seq<Fields>, f: Fields)
    ensures Map(Filter(init + [f], HasCredentials), CookieOf)
         == Map(Filter(init, HasCredentials), CookieOf) + (if HasCredentials(f) then [CookieOf(f)] else [])
  {
    FilterAppend(init, [f], HasCredentials);
    var kept := Filter(init, HasCredentials);
    assert Filter([f], HasCredentials) == if HasCredentials(f) then [f] else [];
    if HasCredentials(f) {
      assert Map(kept + [f], CookieOf) == Map(kept, CookieOf) + [CookieOf(f)];
    }
  }
}
