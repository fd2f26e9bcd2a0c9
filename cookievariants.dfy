/** How the two cookie parsers relate: index.js keeps a subset of the lines
    imageEditor.js keeps, and on a line both keep they agree on everything but
    the leading dot of the domain, the flags' letter case, `httpOnly` and the
    reading of the expiry. */
module CookieVariants {
  import opened JsText
  import opened CookieJar
  import opened Seqs
  import Editor = EditorCookies
  import Service = ServiceCookies

  /** Every line the index.js parser keeps, the imageEditor.js parser keeps too. */
  lemma ServiceKeepsFewerLines(line: string)
    ensures Service.Kept(line) ==> Editor.Kept(line)
  {
  }

  /** So index.js never yields more cookies than imageEditor.js from the same file. */
  lemma ServiceYieldsFewerCookies(lines: seq<string>)
    ensures |Service.CookiesOf(lines)| <= |Editor.CookiesOf(lines)|
  {
    forall line ensures |Service.LineCookies(line)| <= |Editor.LineCookies(line)| {
      ServiceKeepsFewerLines(line);
    }
    FlatMapShorter(lines, Service.LineCookies, Editor.LineCookies);
  }

  /** The two domain rules agree once one leading dot is set aside. */
  lemma DomainsAgreeUpToDot(domain: string)
    ensures Editor.StripDot(Service.AddDot(domain)) == Editor.StripDot(domain)
  {
    if !StartsWith(domain, ".") {
      assert (['.'] + domain)[..1] == ".";
      assert (['.'] + domain)[1..] == domain;
    }
  }

  /** On the same fields the two cookies carry the same name, value, path and
      `sameSite`, the same domain up to one leading dot, and a `secure` flag that
      imageEditor.js sets only where index.js sets it too. */
  lemma SameCookieUpToNormalisation(f: Fields)
    ensures Service.CookieOf(f).name == Editor.CookieOf(f).name
    ensures Service.CookieOf(f).value == Editor.CookieOf(f).value
    ensures Service.CookieOf(f).path == Editor.CookieOf(f).path
    ensures Service.CookieOf(f).sameSite == Editor.CookieOf(f).sameSite
    ensures Editor.StripDot(Service.CookieOf(f).domain) == Editor.CookieOf(f).domain
    ensures Editor.CookieOf(f).secure ==> Service.CookieOf(f).secure
  {
    DomainsAgreeUpToDot(f.domain);
    if f.secure == "TRUE" {
      assert f.secure[0] == 'T' && f.secure[1] == 'R' && f.secure[2] == 'U' && f.secure[3] == 'E';
      assert Service.SpellsTrue(f.secure);
      Service.TrueIgnoringCaseIff(f.secure);
    }
  }

  /** On plain decimal expiries the two parsers read the same number. */
  lemma SameDecimalExpiry(n: nat)
    ensures Editor.ExpiryOf(Decimal(n)) == Service.ExpiryOf(Decimal(n)) == Expires(Int(n))
  {
    DecimalRoundTrip(n);
    assert Decimal(n) != "FALSE" by {
      assert IsDigit(Decimal(n)[0]);
    }
  }

  /** The `FALSE` sentinel is -1 for imageEditor.js but NaN for index.js, and an
      empty expiry is NaN for the one and undefined for the other. */
  lemma ExpirySentinelsDiffer()
    ensures Editor.ExpiryOf("FALSE") == Expires(Int(-1))
    ensures Service.ExpiryOf("FALSE") == Expires(NaN)
    ensures Editor.ExpiryOf("") == Expires(NaN)
    ensures Service.ExpiryOf("") == Undefined
  {
    FalseIsNaN();
    assert TrimStart("") == "" && Unsigned("") == "" && DigitPrefix("") == "";
  }

  lemma FalseIsNaN()
    ensures ToNumber("FALSE") == NaN
  {
    var t := "FALSE";
    assert t[0] == 'F' && t[|t| - 1] == 'E';
    Untrimmed(t);
    assert Unsigned(t) == t;
    assert !IsDigit(t[0]);
  }
}
