/** The Netscape / curl `cookies.txt` format shared by both parsers: a file is
    lines separated by '\n', a cookie line is at least seven fields separated by
    '\t' (domain, host-only flag, path, secure flag, expiry, name, value), and a
    line starting with '#' is a comment. Also the cookie record both parsers
    produce, and a writer for jar files used to state round-trips. */
module CookieJar {
  import opened JsText
  import opened Seqs

  /** The `expires` property: a number (possibly NaN) or left `undefined`. */
  datatype Expiry = Expires(at: Number) | Undefined

  /** A cookie as handed to the browser context. */
  datatype Cookie = Cookie(
    name: string,
    value: string,
    domain: string,
    path: string,
    expires: Expiry,
    httpOnly: bool,
    secure: bool,
    sameSite: string)

  /** The seven leading fields of a cookie line, by position. */
  datatype Fields = Fields(
    domain: string,
    hostOnly: string,
    path: string,
    secure: string,
    expiry: string,
    name: string,
    value: string)

  const SameSiteLax := "Lax"

  /** The lines of a jar file: `content.split('\n')`. */
  function Lines(content: string): seq<string> {
    Split(content, '\n')
  }

  /** The fields of a line: `line.split('\t')`. */
  function Parts(line: string): seq<string> {
    Split(line, '\t')
  }

  /** The line starts with `#`. */
  predicate IsComment(line: string) {
    StartsWith(line, "#")
  }

  /** The line is empty once trimmed. */
  predicate IsBlank(line: string) {
    Trim(line) == []
  }

  /** The destructuring `const [domain, flag, path, secure, expiry, name, value] = parts`:
      the first seven parts, anything after them ignored. */
  function FieldsOf(parts: seq<string>): (f: Fields)
    requires |parts| >= 7
    ensures [f.domain, f.hostOnly, f.path, f.secure, f.expiry, f.name, f.value] == parts[..7]
  {
    Fields(parts[0], parts[1], parts[2], parts[3], parts[4], parts[5], parts[6])
  }

  // ---------------------------------------------------------------------------
  // writing jar files

  function FieldList(f: Fields): seq<string> {
    [f.domain, f.hostOnly, f.path, f.secure, f.expiry, f.name, f.value]
  }

  /** The line a jar writer puts down for one cookie. */
  function LineOf(f: Fields): string {
    Join(FieldList(f), '\t')
  }

  /** A jar file holding the given lines. */
  function JarText(fs: seq<Fields>): string {
    Join(Map(fs, LineOf), '\n')
  }

  /** No field holds a tab or a line break, so the line splits back into the fields. */
  predicate Clean(f: Fields) {
    forall i :: 0 <= i < 7 ==> '\t' !in FieldList(f)[i] && '\n' !in FieldList(f)[i]
  }

  /** Every field is white space (or empty): the whole line is then blank, tabs included. */
  predicate AllFieldsBlank(f: Fields) {
    forall i :: 0 <= i < 7 ==> AllSpace(FieldList(f)[i])
  }

  /** A clean line splits back into exactly its seven fields. */
  lemma LineOfSplits(f: Fields)
    requires Clean(f)
    ensures Parts(LineOf(f)) == FieldList(f)
    ensures FieldsOf(Parts(LineOf(f))) == f
  {
    SplitJoin(FieldList(f), '\t');
  }

  /** A written line carries no line break. */
  lemma {:induction false} JoinWithout(pieces: seq<string>, sep: char, c: char)
    requires c != sep
    requires forall i :: 0 <= i < |pieces| ==> c !in pieces[i]
    ensures c !in Join(pieces, sep)
    decreases |pieces|
  {
    if |pieces| > 1 {
      JoinWithout(pieces[1..], sep, c);
    }
  }

  /** A line is a comment exactly when its domain field starts with '#'. */
  lemma LineCommentIff(f: Fields)
    ensures IsComment(LineOf(f)) <==> StartsWith(f.domain, "#")
  {
    var l := LineOf(f);
    var rest := Join(FieldList(f)[1..], '\t');
    assert l == f.domain + ['\t'] + rest;
    if f.domain == [] {
      assert l[0] == '\t';
    } else {
      assert l[..1] == f.domain[..1];
    }
  }

  /** A line is blank exactly when all seven fields are. */
  lemma LineBlankIff(f: Fields)
    ensures IsBlank(LineOf(f)) <==> AllFieldsBlank(f)
  {
    TrimEmptyIff(LineOf(f));
    JoinAllSpace(FieldList(f), '\t');
  }

  lemma {:induction false} JoinAllSpace(pieces: seq<string>, sep: char)
    requires IsJsSpace(sep) && |pieces| >= 1
    ensures AllSpace(Join(pieces, sep)) <==> forall i :: 0 <= i < |pieces| ==> AllSpace(pieces[i])
    decreases |pieces|
  {
    if |pieces| > 1 {
      JoinAllSpace(pieces[1..], sep);
      var j := pieces[0] + [sep] + Join(pieces[1..], sep);
      AllSpaceConcat(pieces[0] + [sep], Join(pieces[1..], sep));
      AllSpaceConcat(pieces[0], [sep]);
      assert forall i :: 1 <= i < |pieces| ==> pieces[i] == pieces[1..][i - 1];
    }
  }

  lemma AllSpaceConcat(a: string, b: string)
    ensures AllSpace(a + b) <==> AllSpace(a) && AllSpace(b)
  {
    if AllSpace(a + b) {
      assert forall i :: 0 <= i < |a| ==> a[i] == (a + b)[i];
      assert forall i :: 0 <= i < |b| ==> b[i] == (a + b)[|a| + i];
    }
  }

  /** The lines of a written jar file are the written lines, one per cookie, in order. */
  lemma JarTextLines(fs: seq<Fields>)
    requires |fs| >= 1
    requires forall i :: 0 <= i < |fs| ==> Clean(fs[i])
    ensures Lines(JarText(fs)) == Map(fs, LineOf)
  {
    var ls := Map(fs, LineOf);
    forall i | 0 <= i < |ls| ensures '\n' !in ls[i] {
      JoinWithout(FieldList(fs[i]), '\t', '\n');
    }
    SplitJoin(ls, '\n');
  }
}
