/**
 * The Mongoose schema of a Project document (models/project.model.js):
 * four String paths with `trim: true` setters, `required` on all four,
 * `maxlength` on name and description, a regular-expression validator on
 * url, and automatic createdAt/updatedAt timestamps.
 */
module Schema {
  import opened Text

  const NameMaxLength: nat := 100
  const DescriptionMaxLength: nat := 1000

  /** The four business fields as they are handed to the model, before its setters run. */
  datatype Document = Document(name: string, description: string, url: string, image: string)

  /** A stored Project: its ObjectId (abstracted as a number), the four fields and the two timestamps. */
  datatype Project = Project(
    id: nat,
    name: string,
    description: string,
    url: string,
    image: string,
    createdAt: nat,
    updatedAt: nat)

  /** The `trim: true` setters, which run on assignment, before any validator. */
  function Normalize(d: Document): (n: Document)
    ensures Trimmed(n.name) && Trimmed(n.description) && Trimmed(n.url) && Trimmed(n.image)
  {
    Document(Trim(d.name), Trim(d.description), Trim(d.url), Trim(d.image))
  }

  lemma NormalizeIdempotent(d: Document)
    ensures Normalize(Normalize(d)) == Normalize(d)
  {
    TrimIdempotent(d.name);
    TrimIdempotent(d.description);
    TrimIdempotent(d.url);
    TrimIdempotent(d.image);
  }

  /** Mongoose's `required` check for a String path: the empty string is missing. */
  predicate Present(v: string) {
    |v| > 0
  }

  /** Mongoose's `maxlength`, which compares JavaScript's UTF-16 `length`. */
  predicate WithinMaxLength(v: string, max: nat) {
    Utf16Length(v) <= max
  }

  // ---------------------------------------------------------------------
  // The url validator /^https?:\/\/[\w\-]+(\.[\w\-]+)+[/#?]?.*$/
  // ---------------------------------------------------------------------

  /** The class [\w\-]: ASCII letters, digits, underscore and hyphen. */
  predicate IsLabelChar(c: char) {
    ('a' <= c <= 'z') || ('A' <= c <= 'Z') || ('0' <= c <= '9') || c == '_' || c == '-'
  }

  predicate NoLineTerminator(s: string) {
    forall i | 0 <= i < |s| :: !IsLineTerminator(s[i])
  }

  /** Length of the scheme the pattern accepts at the start of `s` (`https?:\/\/`), 0 if none. */
  function SchemeLength(s: string): (k: nat)
    ensures k <= |s|
  {
    if |s| >= 8 && s[..8] == "https://" then 8
    else if |s| >= 7 && s[..7] == "http://" then 7
    else 0
  }

  /** Length of the run of [\w\-] characters that `t` starts with. */
  function LabelRun(t: string): (n: nat)
    ensures n <= |t|
    ensures forall i | 0 <= i < n :: IsLabelChar(t[i])
    ensures n < |t| ==> !IsLabelChar(t[n])
  {
    if |t| > 0 && IsLabelChar(t[0]) then 1 + LabelRun(t[1..]) else 0
  }

  /**
   * The validator's `test`, decided without backtracking: a scheme, then a
   * non-empty label run immediately followed by `.` and a label character,
   * and no line terminator anywhere (`.*$` without the `s` or `m` flag).
   */
  predicate UrlValidator(s: string) {
    var k := SchemeLength(s);
    k > 0 && NoLineTerminator(s) &&
    var t := s[k..];
    var n := LabelRun(t);
    n > 0 && n + 1 < |t| && t[n] == '.' && IsLabelChar(t[n + 1])
  }

  // The pattern's language, piece by piece, as the reference for UrlValidator.

  /** `https?:\/\/` */
  ghost predicate IsScheme(p: string) {
    p == "http://" || p == "https://"
  }

  /** `[\w\-]+` */
  ghost predicate IsLabel(w: string) {
    |w| > 0 && forall i | 0 <= i < |w| :: IsLabelChar(w[i])
  }

  /** `(\.[\w\-]+)+` */
  ghost predicate IsDottedLabels(g: string)
    decreases |g|
  {
    |g| >= 2 && g[0] == '.' &&
    exists k | 2 <= k <= |g| :: IsLabel(g[1..k]) && (k == |g| || IsDottedLabels(g[k..]))
  }

  /** `[\w\-]+(\.[\w\-]+)+` */
  ghost predicate IsHost(h: string) {
    exists k | 1 <= k <= |h| :: IsLabel(h[..k]) && IsDottedLabels(h[k..])
  }

  /** `[/#?]?.*$` */
  ghost predicate IsTail(r: string) {
    (|r| > 0 && r[0] in "/#?" && NoLineTerminator(r[1..])) || NoLineTerminator(r)
  }

  /** The whole anchored pattern: scheme, host, tail. */
  ghost predicate MatchesUrlPattern(s: string) {
    exists i, j | 0 <= i <= j <= |s| :: IsScheme(s[..i]) && IsHost(s[i..j]) && IsTail(s[j..])
  }

  /** The optional `[/#?]` in front of `.*` adds nothing: the tail is any line without terminators. */
  lemma TailIsAnyLine(r: string)
    ensures IsTail(r) <==> NoLineTerminator(r)
  {
    if |r| > 0 && r[0] in "/#?" && NoLineTerminator(r[1..]) {
      assert !IsLineTerminator(r[0]);
      assert forall i | 1 <= i < |r| :: r[i] == r[1..][i - 1];
    }
  }

  lemma {:induction false} DottedLabelsShape(g: string)
    requires IsDottedLabels(g)
    ensures g[0] == '.' && IsLabelChar(g[1])
    ensures NoLineTerminator(g)
    decreases |g|
  {
    var k :| 2 <= k <= |g| && IsLabel(g[1..k]) && (k == |g| || IsDottedLabels(g[k..]));
    assert g[1] == g[1..k][0];
    forall i | 0 <= i < |g| ensures !IsLineTerminator(g[i]) {
      if i == 0 {
      } else if i < k {
        assert g[i] == g[1..k][i - 1];
      } else {
        DottedLabelsShape(g[k..]);
        assert g[i] == g[k..][i - k];
      }
    }
  }

  /** A run of label characters ended by a non-label character is the run LabelRun measures. */
  lemma LabelRunExact(t: string, m: nat)
    requires m <= |t|
    requires forall i | 0 <= i < m :: IsLabelChar(t[i])
    requires m < |t| ==> !IsLabelChar(t[m])
    ensures LabelRun(t) == m
  {
  }

  lemma SchemeLengthOfScheme(s: string, i: nat)
    requires i <= |s| && IsScheme(s[..i])
    ensures SchemeLength(s) == i
  {
    if s[..i] == "http://" {
      assert s[4] == s[..i][4];
    } else {
      assert s[..8] == s[..i];
    }
  }

  /** Every string the decision procedure accepts is matched by the pattern. */
  lemma UrlValidatorSound(s: string)
    requires UrlValidator(s)
    ensures MatchesUrlPattern(s)
  {
    var k := SchemeLength(s);
    var t := s[k..];
    var n := LabelRun(t);
    var j := k + n + 2;
    var h := s[k..j];
    assert h == t[..n + 2];
    assert IsScheme(s[..k]);
    assert IsLabel(h[..n]) by {
      assert forall i | 0 <= i < n :: h[..n][i] == t[i];
    }
    assert IsDottedLabels(h[n..]) by {
      var g := h[n..];
      assert |g| == 2 && g[0] == '.';
      assert IsLabel(g[1..2]);
    }
    assert IsHost(h);
    assert IsTail(s[j..]) by {
      assert forall i | 0 <= i < |s[j..]| :: s[j..][i] == s[j + i];
      TailIsAnyLine(s[j..]);
    }
  }

  /** Every string the pattern matches is accepted by the decision procedure. */
  lemma UrlValidatorComplete(s: string)
    requires MatchesUrlPattern(s)
    ensures UrlValidator(s)
  {
    var i, j :| 0 <= i <= j <= |s| && IsScheme(s[..i]) && IsHost(s[i..j]) && IsTail(s[j..]);
    var h := s[i..j];
    var r := s[j..];
    SchemeLengthOfScheme(s, i);
    var m :| 1 <= m <= |h| && IsLabel(h[..m]) && IsDottedLabels(h[m..]);
    DottedLabelsShape(h[m..]);
    TailIsAnyLine(r);
    HostPrefixRun(s[i..], h, m);
    NoLineTerminatorInParts(s, i, j, h, m);
  }

  lemma HostPrefixRun(t: string, h: string, m: nat)
    requires |h| <= |t| && h == t[..|h|]
    requires 1 <= m <= |h| && IsLabel(h[..m]) && IsDottedLabels(h[m..])
    requires h[m..][0] == '.' && IsLabelChar(h[m..][1])
    ensures LabelRun(t) == m && m + 1 < |t| && t[m] == '.' && IsLabelChar(t[m + 1])
  {
    assert forall x | 0 <= x < m :: IsLabelChar(t[x]) by {
      assert forall x | 0 <= x < m :: h[..m][x] == t[x];
    }
    assert t[m] == h[m..][0];
    LabelRunExact(t, m);
    assert t[m + 1] == h[m..][1];
  }

  lemma NoLineTerminatorInParts(s: string, i: nat, j: nat, h: string, m: nat)
    requires i <= j <= |s| && h == s[i..j] && IsScheme(s[..i])
    requires 1 <= m <= |h| && IsLabel(h[..m]) && NoLineTerminator(h[m..])
    requires NoLineTerminator(s[j..])
    ensures NoLineTerminator(s)
  {
    forall x | 0 <= x < |s| ensures !IsLineTerminator(s[x]) {
      if x < i {
        assert s[x] == s[..i][x];
      } else if x < j {
        assert s[x] == h[x - i];
        if x - i < m {
          assert h[x - i] == h[..m][x - i];
        } else {
          assert h[x - i] == h[m..][x - i - m];
        }
      } else {
        assert s[x] == s[j..][x - j];
      }
    }
  }

  /** The backtracking-free decision procedure accepts exactly the strings the pattern matches. */
  lemma UrlValidatorMatchesPattern(s: string)
    ensures UrlValidator(s) <==> MatchesUrlPattern(s)
  {
    if UrlValidator(s) {
      UrlValidatorSound(s);
    }
    if MatchesUrlPattern(s) {
      UrlValidatorComplete(s);
    }
  }

  /** The validator only accepts the two web schemes, spelled in lower case. */
  lemma UrlValidatorSchemes(s: string)
    requires UrlValidator(s)
    ensures (|s| > 7 && s[..7] == "http://") || (|s| > 8 && s[..8] == "https://")
  {
  }

  lemma NoLineTerminatorConcat(x: string, y: string)
    ensures NoLineTerminator(x + y) <==> NoLineTerminator(x) && NoLineTerminator(y)
  {
    assert forall i | 0 <= i < |x| :: x[i] == (x + y)[i];
    assert forall i | 0 <= i < |y| :: y[i] == (x + y)[|x| + i];
    if NoLineTerminator(x) && NoLineTerminator(y) {
      forall i | 0 <= i < |x + y| ensures !IsLineTerminator((x + y)[i]) {
        if i >= |x| { assert (x + y)[i] == y[i - |x|]; }
      }
    }
  }

  /** The scheme and a dotted host: the part of the pattern before `.*`. */
  lemma SchemeAndHostShape(scheme: string, a: string, b: string, rest: string)
    requires scheme == "http://" || scheme == "https://"
    requires IsLabel(a) && IsLabel(b)
    ensures var s := scheme + a + "." + b + rest;
      SchemeLength(s) == |scheme| && NoLineTerminator(scheme + a + "." + b) &&
      var t := s[|scheme|..];
      LabelRun(t) == |a| && |a| + 1 < |t| && t[|a|] == '.' && IsLabelChar(t[|a| + 1])
  {
    var s := scheme + a + "." + b + rest;
    var k := |scheme|;
    assert s[..k] == scheme;
    assert SchemeLength(s) == k by {
      if scheme == "http://" { assert s[4] == ':'; }
    }
    var t := s[k..];
    assert t == a + "." + b + rest;
    LabelRunExact(t, |a|);
    assert t[|a| + 1] == b[0];
    var host := scheme + a + "." + b;
    forall x | 0 <= x < |host| ensures !IsLineTerminator(host[x]) {
      if x < k {
        assert host[x] == scheme[x];
      } else if x < k + |a| {
        assert host[x] == a[x - k];
      } else if x > k + |a| {
        assert host[x] == b[x - k - |a| - 1];
      }
    }
  }

  /**
   * Once the scheme and a dotted host are in place, the rest of the string
   * decides only through line terminators: anything else is accepted.
   */
  lemma UrlValidatorAnyTail(scheme: string, a: string, b: string, rest: string)
    requires scheme == "http://" || scheme == "https://"
    requires IsLabel(a) && IsLabel(b)
    ensures UrlValidator(scheme + a + "." + b + rest) <==> NoLineTerminator(rest)
  {
    SchemeAndHostShape(scheme, a, b, rest);
    NoLineTerminatorConcat(scheme + a + "." + b, rest);
  }

  lemma UrlValidatorAcceptsExample()
    ensures UrlValidator("https://example.com")
  {
    UrlValidatorAnyTail("https://", "example", "com", "");
    assert "https://" + "example" + "." + "com" + "" == "https://example.com";
  }

  /** A host without a dot, such as localhost, is refused. */
  lemma UrlValidatorRejectsDotlessHost()
    ensures !UrlValidator("http://localhost")
  {
    var s := "http://localhost";
    assert s[..7] == "http://";
    assert s[4] != 's';
    assert s[7..] == "localhost";
    LabelRunExact(s[7..], 9);
  }

  /** Other schemes, and the upper-case spelling of the web ones, are refused. */
  lemma UrlValidatorRejectsOtherSchemes()
    ensures !UrlValidator("ftp://example.com")
    ensures !UrlValidator("HTTPS://example.com")
  {
    var f, u := "ftp://example.com", "HTTPS://example.com";
    assert f[..8][0] != "https://"[0] && f[..7][0] != "http://"[0];
    assert u[..8][0] != "https://"[0] && u[..7][0] != "http://"[0];
    assert SchemeLength(f) == 0 && SchemeLength(u) == 0;
  }

  // ---------------------------------------------------------------------
  // Document validation
  // ---------------------------------------------------------------------

  /** name: required, trimmed, at most 100 UTF-16 code units. */
  predicate NameValid(v: string) {
    Present(v) && WithinMaxLength(v, NameMaxLength)
  }

  /** description: required, trimmed, at most 1000 UTF-16 code units. */
  predicate DescriptionValid(v: string) {
    Present(v) && WithinMaxLength(v, DescriptionMaxLength)
  }

  /** url: required, trimmed, and accepted by the validator. */
  predicate UrlValid(v: string) {
    Present(v) && UrlValidator(v)
  }

  /** image: required, trimmed. */
  predicate ImageValid(v: string) {
    Present(v)
  }

  /** What `save` checks: every path's validators, applied to the values the setters produced. */
  predicate ValidDocument(d: Document) {
    var n := Normalize(d);
    NameValid(n.name) && DescriptionValid(n.description) && UrlValid(n.url) && ImageValid(n.image)
  }

  /** The documents `save` accepts, in terms of the raw inputs. */
  lemma ValidDocumentMeans(d: Document)
    ensures ValidDocument(d) ==>
      && !AllSpace(d.name) && Utf16Length(Trim(d.name)) <= NameMaxLength && |Trim(d.name)| <= NameMaxLength
      && !AllSpace(d.description) && Utf16Length(Trim(d.description)) <= DescriptionMaxLength
      && |Trim(d.description)| <= DescriptionMaxLength
      && !AllSpace(d.url) && !AllSpace(d.image)
      && (Trim(d.url)[..7] == "http://" || Trim(d.url)[..8] == "https://")
  {
    TrimBlankIffAllSpace(d.name);
    TrimBlankIffAllSpace(d.description);
    TrimBlankIffAllSpace(d.url);
    TrimBlankIffAllSpace(d.image);
  }

  /** A document without an image path (empty or only space) never passes validation. */
  lemma MissingImageRejected(d: Document)
    requires AllSpace(d.image)
    ensures !ValidDocument(d)
  {
    TrimBlankIffAllSpace(d.image);
  }

  /** Validation looks at the trimmed values: re-normalizing a document does not change the verdict. */
  lemma ValidationSeesTrimmedValues(d: Document)
    ensures ValidDocument(Normalize(d)) == ValidDocument(d)
  {
    NormalizeIdempotent(d);
  }
}
