/** `parseCookieFile` of imageEditor.js: every non-comment, non-blank line with at
    least seven fields becomes one cookie. Domains lose one leading dot, the
    expiry `FALSE` stands for -1, `secure` is a case-sensitive comparison with
    `TRUE`, `httpOnly` is always false and empty names or values are kept. A
    missing file gives no cookies. */
module EditorCookies {
  import opened Wrappers
  import opened JsText
  import opened Seqs
  import opened CookieJar

  /** The domain without its leading dot, when it has one. */
  function StripDot(domain: string): (d: string)
    ensures if StartsWith(domain, ".") then domain == ['.'] + d else d == domain
  {
    if StartsWith(domain, ".") then domain[1..] else domain
  }

  /** The `FALSE` sentinel becomes -1; any other expiry is read by `parseInt`. */
  function ExpiryOf(field: string): Expiry {
    if field == "FALSE" then Expires(Int(-1)) else Expires(ParseInt(field))
  }

  /** The cookie object pushed for a line with fields `f`. */
  function CookieOf(f: Fields): Cookie {
    Cookie(
      name := f.name,
      value := f.value,
      domain := StripDot(f.domain),
      path := f.path,
      expires := ExpiryOf(f.expiry),
      httpOnly := false,
      secure := f.secure == "TRUE",
      sameSite := SameSiteLax)
  }

  /** The lines that produce a cookie. */
  predicate Kept(line: string) {
    !IsComment(line) && !IsBlank(line) && |Parts(line)| >= 7
  }

  /** What one line contributes. */
  function LineCookies(line: string): (cs: seq<Cookie>) {
    if Kept(line) then [CookieOf(FieldsOf(Parts(line)))] else []
  }

  /** The cookies of a sequence of lines, in line order. */
  function CookiesOf(lines: seq<string>): seq<Cookie> {
    FlatMap(lines, LineCookies)
  }

  /** `parseCookieFile`, given the file's content (`None` when the file does not exist). */
  method ParseCookieFile(content: Option<string>) returns (cookies: seq<Cookie>)
    ensures content.None? ==> cookies == []
    ensures content.Some? ==> cookies == CookiesOf(Lines(content.value))
  {
    if content.None? {
      return [];
    }
    var lines := Lines(content.value);
    cookies := [];
    for i := 0 to |lines|
      invariant cookies == CookiesOf(lines[..i])
    {
      assert lines[..i + 1][..i] == lines[..i];
      var line := lines[i];
      if IsComment(line) || IsBlank(line) {
        continue;
      }
      var parts := Parts(line);
      if |parts| >= 7 {
        cookies := cookies + [CookieOf(FieldsOf(parts))];
      }
    }
    assert lines[..|lines|] == lines;
  }

  // ---------------------------------------------------------------------------
  // properties of the line rule

  /** A comment, blank or short line yields nothing, wherever it stands. */
  lemma SkippedLine(before: seq<string>, line: string, after: seq<string>)
    requires IsComment(line) || IsBlank(line) || |Parts(line)| < 7
    ensures CookiesOf(before + [line] + after) == CookiesOf(before + after)
  {
    assert !Kept(line);
    FlatMapOne(line, LineCookies);
    FlatMapAppend(before + [line], after, LineCookies);
    FlatMapAppend(before, [line], LineCookies);
    FlatMapAppend(before, after, LineCookies);
  }

  /** Every other line yields exactly one cookie, at its own place in the order,
      built from its first seven fields. */
  lemma KeptLine(before: seq<string>, line: string, after: seq<string>)
    requires !IsComment(line) && !IsBlank(line) && |Parts(line)| >= 7
    ensures CookiesOf(before + [line] + after)
         == CookiesOf(before) + [CookieOf(FieldsOf(Parts(line)))] + CookiesOf(after)
  {
    FlatMapOne(line, LineCookies);
    FlatMapAppend(before + [line], after, LineCookies);
    FlatMapAppend(before, [line], LineCookies);
  }

  /** One cookie per kept line. */
  lemma CookieCount(lines: seq<string>)
    ensures |CookiesOf(lines)| == |Filter(lines, Kept)|
  {
    FlatMapCount(lines, LineCookies, Kept);
  }

  /** Fields after the seventh are ignored: appending more of them to a kept
      line changes nothing. */
  lemma ExtraFieldsIgnored(line: string, extra: string)
    requires Kept(line)
    ensures Kept(line + ['\t'] + extra)
    ensures LineCookies(line + ['\t'] + extra) == LineCookies(line)
  {
    var longer := line + ['\t'] + extra;
    LongerLine(line, extra);
    var p, q := Parts(line), Parts(longer);
    SplitConcat(line, extra, '\t');
    assert q == p + Parts(extra);
    assert forall i :: 0 <= i < 7 ==> q[i] == p[i];
    assert FieldsOf(q) == FieldsOf(p);
  }

  /** A line that is neither a comment nor blank stays so when text is appended. */
  lemma LongerLine(line: string, extra: string)
    requires !IsComment(line) && !IsBlank(line)
    ensures !IsComment(line + ['\t'] + extra) && !IsBlank(line + ['\t'] + extra)
  {
    var longer := line + ['\t'] + extra;
    TrimEmptyIff(line);
    TrimEmptyIff(longer);
    assert line != [];
    assert longer[..1] == line[..1];
    AllSpaceConcat(line + ['\t'], extra);
    AllSpaceConcat(line, ['\t']);
  }

  /** The domain loses exactly one leading dot: `..x` becomes `.x`. */
  lemma StripOneDot(host: string)
    ensures StripDot("." + host) == host
    ensures StripDot(".." + host) == "." + host
  {
    assert ("." + host)[..1] == ".";
    assert (".." + host)[..1] == ".";
    assert (".." + host)[1..] == "." + host;
  }

  /** On a line that yields a cookie, `expires` is -1 exactly for the `FALSE`
      sentinel in the fifth field and for an expiry that `parseInt` reads as -1
      (`-1` itself, say); otherwise it is `parseInt`'s value, and never undefined. */
  lemma ExpiryMinusOne(line: string)
    requires Kept(line)
    ensures |LineCookies(line)| == 1
    ensures LineCookies(line)[0].expires == Expires(Int(-1)) <==>
      Parts(line)[4] == "FALSE" || ParseInt(Parts(line)[4]) == Int(-1)
    ensures Parts(line)[4] != "FALSE" ==> LineCookies(line)[0].expires == Expires(ParseInt(Parts(line)[4]))
    ensures LineCookies(line)[0].expires != Undefined
  {
  }

  /** On a line that yields a cookie, `secure` is a case-sensitive test of the
      fourth field for `TRUE` (so `true` is not secure); `httpOnly` and `sameSite`
      are the same for every line. */
  lemma SecureExactlyTrue(line: string)
    requires Kept(line)
    ensures |LineCookies(line)| == 1
    ensures LineCookies(line)[0].secure <==> Parts(line)[3] == "TRUE"
    ensures Parts(line)[3] == "true" ==> !LineCookies(line)[0].secure
    ensures !LineCookies(line)[0].httpOnly && LineCookies(line)[0].sameSite == "Lax"
  {
  }

  /** curl marks http-only cookies by prefixing the line with `#HttpOnly_`; such
      lines are taken for comments and dropped. */
  lemma HttpOnlyLinesDropped(line: string)
    requires StartsWith(line, "#HttpOnly_")
    ensures LineCookies(line) == []
  {
    assert line[..1] == "#HttpOnly_"[..1];
  }

  /** Reading back a jar file: every written line that is not a comment and not
      blank comes back as one cookie, in order, whatever its name and value
      (empty ones included). */
  lemma {:induction false} ReadWrittenJar(fs: seq<Fields>)
    requires forall i :: 0 <= i < |fs| ==> Clean(fs[i]) && !StartsWith(fs[i].domain, "#") && !AllFieldsBlank(fs[i])
    ensures CookiesOf(Lines(JarText(fs))) == Map(fs, CookieOf)
  {
    if fs == [] {
      assert Lines(JarText(fs)) == [[]];
      FlatMapOne([], LineCookies);
    } else {
      JarTextLines(fs);
      WrittenLines(fs);
    }
  }

  /** A written line that is not a comment and not blank reads back as its cookie. */
  lemma WrittenLine(f: Fields)
    requires Clean(f) && !StartsWith(f.domain, "#") && !AllFieldsBlank(f)
    ensures LineCookies(LineOf(f)) == [CookieOf(f)]
  {
    LineCommentIff(f);
    LineBlankIff(f);
    LineOfSplits(f);
  }

  lemma {:induction false} WrittenLines(fs: seq<Fields>)
    requires forall i :: 0 <= i < |fs| ==> Clean(fs[i]) && !StartsWith(fs[i].domain, "#") && !AllFieldsBlank(fs[i])
    ensures CookiesOf(Map(fs, LineOf)) == Map(fs, CookieOf)
    decreases |fs|
  {
    if fs != [] {
      var init := fs[..|fs| - 1];
      var f := fs[|fs| - 1];
      WrittenLines(init);
      WrittenLine(f);
      MapSnoc(fs, LineOf);
      MapSnoc(fs, CookieOf);
      var ls := Map(fs, LineOf);
      assert ls[..|ls| - 1] == Map(init, LineOf) && ls[|ls| - 1] == LineOf(f);
    }
  }
}
