/**
 * The JavaScript string operations the Project backend relies on, stated over
 * Dafny strings (sequences of Unicode scalar values):
 * String.prototype.trim, the UTF-16 `length` that Mongoose's maxlength
 * compares, String.prototype.split with a one-character separator, and the
 * unanchored substring test performed by a regular expression made of
 * literal alternatives.
 */
module Text {

  /** The WhiteSpace and LineTerminator code points that `trim` removes. */
  predicate IsTrimSpace(c: char) {
    || c == '\t' || c == '\n' || c == '\U{B}' || c == '\U{C}' || c == '\r' || c == ' '
    || c == '\U{A0}' || c == '\U{1680}' || ('\U{2000}' <= c <= '\U{200A}')
    || c == '\U{2028}' || c == '\U{2029}' || c == '\U{202F}' || c == '\U{205F}'
    || c == '\U{3000}' || c == '\U{FEFF}'
  }

  /** The LineTerminator code points, which a regular-expression `.` does not match. */
  predicate IsLineTerminator(c: char) {
    c == '\n' || c == '\r' || c == '\U{2028}' || c == '\U{2029}'
  }

  predicate AllSpace(s: string) {
    forall i | 0 <= i < |s| :: IsTrimSpace(s[i])
  }

  /** Neither end of `s` is trimmable space. */
  predicate Trimmed(s: string) {
    s == [] || (!IsTrimSpace(s[0]) && !IsTrimSpace(s[|s| - 1]))
  }

  /** Drops leading space. */
  function TrimStart(s: string): string {
    if |s| > 0 && IsTrimSpace(s[0]) then TrimStart(s[1..]) else s
  }

  /** Drops trailing space. */
  function TrimEnd(s: string): string {
    if |s| > 0 && IsTrimSpace(s[|s| - 1]) then TrimEnd(s[..|s| - 1]) else s
  }

  /** TrimStart keeps the suffix of `s` that starts at its first non-space. */
  lemma {:induction false} TrimStartShape(s: string)
    ensures var r := TrimStart(s);
      && |r| <= |s| && r == s[|s| - |r|..]
      && AllSpace(s[..|s| - |r|])
      && (r == [] || !IsTrimSpace(r[0]))
  {
    if |s| > 0 && IsTrimSpace(s[0]) {
      TrimStartShape(s[1..]);
      var r := TrimStart(s);
      assert s[1..][..|s| - 1 - |r|] == s[1..|s| - |r|];
      assert forall i | 0 < i < |s| - |r| :: s[i] == s[1..|s| - |r|][i - 1];
    }
  }

  /** TrimEnd keeps the prefix of `s` that ends at its last non-space. */
  lemma {:induction false} TrimEndShape(s: string)
    ensures var r := TrimEnd(s);
      && |r| <= |s| && r == s[..|r|]
      && AllSpace(s[|r|..])
      && (r == [] || !IsTrimSpace(r[|r| - 1]))
  {
    if |s| > 0 && IsTrimSpace(s[|s| - 1]) {
      TrimEndShape(s[..|s| - 1]);
      var r := TrimEnd(s);
      assert s[..|s| - 1][|r|..] == s[|r|..|s| - 1];
      assert forall i | |r| <= i < |s| - 1 :: s[i] == s[|r|..|s| - 1][i - |r|];
    }
  }

  /** String.prototype.trim. */
  function Trim(s: string): (r: string)
    ensures |r| <= |s|
    ensures Trimmed(r)
  {
    TrimStartShape(s);
    TrimEndShape(TrimStart(s));
    TrimEnd(TrimStart(s))
  }

  /** `trim` only cuts space off the two ends: its result is an infix of `s` framed by space. */
  lemma TrimIsFramedInfix(s: string)
    ensures exists i, j | 0 <= i <= j <= |s| ::
              Trim(s) == s[i..j] && AllSpace(s[..i]) && AllSpace(s[j..])
  {
    TrimStartShape(s);
    var a := TrimStart(s);
    TrimEndShape(a);
    var i := |s| - |a|;
    var j := i + |Trim(s)|;
    assert a == s[i..];
    assert Trim(s) == TrimEnd(a);
    assert Trim(s) == a[..|Trim(s)|];
    assert a[..|Trim(s)|] == s[i..][..j - i] == s[i..j];
    assert a[|Trim(s)|..] == s[j..];
  }

  /** A string with no space at either end is left as it is. */
  lemma TrimKeepsTrimmed(s: string)
    requires Trimmed(s)
    ensures Trim(s) == s
  {
    if s != [] {
      assert TrimStart(s) == s;
      assert TrimEnd(s) == s;
    }
  }

  /** Trimming twice is trimming once (the schema's `trim` setter re-trims what the controller trimmed). */
  lemma TrimIdempotent(s: string)
    ensures Trim(Trim(s)) == Trim(s)
  {
    TrimKeepsTrimmed(Trim(s));
  }

  /** `trim` yields the empty string exactly for strings made only of space. */
  lemma TrimBlankIffAllSpace(s: string)
    ensures Trim(s) == [] <==> AllSpace(s)
  {
    TrimStartShape(s);
    var a := TrimStart(s);
    TrimEndShape(a);
    if Trim(s) == [] {
      assert a == [] by {
        assert AllSpace(a[0..]);
      }
      assert s[..|s|] == s;
    }
  }

  /**
   * The value of JavaScript's `length`: the number of UTF-16 code units,
   * two for every code point above U+FFFF.
   */
  function Utf16Length(s: string): (n: nat)
    ensures |s| <= n <= 2 * |s|
  {
    if s == [] then 0
    else (if s[0] as int > 0xFFFF then 2 else 1) + Utf16Length(s[1..])
  }

  /** For text without astral code points the UTF-16 length is the number of characters. */
  lemma {:induction false} Utf16LengthBmp(s: string)
    requires forall i | 0 <= i < |s| :: s[i] as int <= 0xFFFF
    ensures Utf16Length(s) == |s|
  {
    if s != [] {
      assert forall i | 0 <= i < |s[1..]| :: s[1..][i] == s[i + 1];
      Utf16LengthBmp(s[1..]);
    }
  }

  /** String.prototype.split(sep) for a one-character separator. */
  function Split(s: string, sep: char): (parts: seq<string>)
    ensures |parts| >= 1
    ensures forall i | 0 <= i < |parts| :: sep !in parts[i]
  {
    if s == [] then [[]]
    else if s[0] == sep then [[]] + Split(s[1..], sep)
    else
      var rest := Split(s[1..], sep);
      [[s[0]] + rest[0]] + rest[1..]
  }

  /** Array.prototype.join(sep): the inverse of Split. */
  function Join(parts: seq<string>, sep: char): string
    requires |parts| >= 1
  {
    if |parts| == 1 then parts[0] else parts[0] + [sep] + Join(parts[1..], sep)
  }

  lemma {:induction false} JoinSplit(s: string, sep: char)
    ensures Join(Split(s, sep), sep) == s
  {
    if s == [] {
    } else if s[0] == sep {
      JoinSplit(s[1..], sep);
      assert Split(s, sep)[1..] == Split(s[1..], sep);
    } else {
      var rest := Split(s[1..], sep);
      JoinSplit(s[1..], sep);
      var parts := Split(s, sep);
      if |rest| == 1 {
        assert parts == [[s[0]] + rest[0]];
      } else {
        assert parts[1..] == rest[1..];
        assert Join(rest, sep) == rest[0] + [sep] + Join(rest[1..], sep);
      }
    }
  }

  lemma {:induction false} SplitJoin(parts: seq<string>, sep: char)
    requires |parts| >= 1
    requires forall i | 0 <= i < |parts| :: sep !in parts[i]
    ensures Split(Join(parts, sep), sep) == parts
    decreases |Join(parts, sep)|
  {
    var p := parts[0];
    if |p| > 0 {
      var parts' := [p[1..]] + parts[1..];
      assert Join(parts, sep) == [p[0]] + Join(parts', sep) by {
        if |parts| == 1 {
          assert p == [p[0]] + p[1..];
        } else {
          assert parts'[1..] == parts[1..];
          assert p == [p[0]] + p[1..];
        }
      }
      assert forall i | 0 <= i < |parts'| :: sep !in parts'[i] by {
        assert forall i | 1 <= i < |parts'| :: parts'[i] == parts[i];
        assert forall c | c in p[1..] :: c in p;
      }
      SplitJoin(parts', sep);
      assert p[0] != sep;
      assert ([p[0]] + Join(parts', sep))[1..] == Join(parts', sep);
      assert [p[0]] + p[1..] == p;
      assert parts == [p] + parts'[1..];
    } else if |parts| > 1 {
      assert Join(parts, sep) == [sep] + Join(parts[1..], sep);
      SplitJoin(parts[1..], sep);
      assert ([sep] + Join(parts[1..], sep))[1..] == Join(parts[1..], sep);
      assert parts == [[]] + parts[1..];
    }
  }

  /** A string without the separator is one part. */
  lemma {:induction false} SplitWithoutSeparator(a: string, sep: char)
    requires sep !in a
    ensures Split(a, sep) == [a]
  {
    if a != [] {
      SplitWithoutSeparator(a[1..], sep);
      assert [a[0]] + a[1..] == a;
    }
  }

  /** A leading part without the separator splits off as the first part. */
  lemma {:induction false} SplitAfterFirst(a: string, x: string, sep: char)
    requires sep !in a
    ensures Split(a + [sep] + x, sep) == [a] + Split(x, sep)
  {
    if a == [] {
      assert [] + [sep] + x == [sep] + x;
      assert ([sep] + x)[1..] == x;
    } else {
      SplitAfterFirst(a[1..], x, sep);
      var s := a + [sep] + x;
      assert s[0] == a[0] && s[1..] == a[1..] + [sep] + x;
      assert [a[0]] + a[1..] == a;
    }
  }

  /** `pat` occurs in `s` at position `i`. */
  predicate OccursAt(pat: string, s: string, i: int) {
    0 <= i && i + |pat| <= |s| && s[i..i + |pat|] == pat
  }

  /**
   * The unanchored test of a regular expression made of one literal: scan
   * `s` left to right for the first position where `pat` starts.
   */
  function Contains(s: string, pat: string): (found: bool)
    ensures found <==> exists i :: OccursAt(pat, s, i)
    decreases |s|
  {
    if |pat| > |s| then false
    else if s[..|pat|] == pat then
      assert OccursAt(pat, s, 0);
      true
    else
      var rest := Contains(s[1..], pat);
      assert forall i :: OccursAt(pat, s[1..], i) ==> OccursAt(pat, s, i + 1) by {
        forall i | OccursAt(pat, s[1..], i) ensures OccursAt(pat, s, i + 1) {
          assert s[1..][i..i + |pat|] == s[i + 1..i + 1 + |pat|];
        }
      }
      assert forall i :: OccursAt(pat, s, i) ==> i == 0 || OccursAt(pat, s[1..], i - 1) by {
        forall i | OccursAt(pat, s, i) && i != 0 ensures OccursAt(pat, s[1..], i - 1) {
          assert s[1..][i - 1..i - 1 + |pat|] == s[i..i + |pat|];
        }
      }
      rest
  }

  /** A pattern whose first character never appears in `s` does not occur in it. */
  lemma FirstCharAbsent(s: string, pat: string)
    requires |pat| > 0 && pat[0] !in s
    ensures !Contains(s, pat)
  {
  }

  /** An occurrence survives any text added around it: the test is unanchored. */
  lemma ContainsInContext(pre: string, s: string, post: string, pat: string)
    requires Contains(s, pat)
    ensures Contains(pre + s + post, pat)
  {
    var i :| OccursAt(pat, s, i);
    var t := pre + s + post;
    assert t[|pre| + i..|pre| + i + |pat|] == s[i..i + |pat|];
    assert OccursAt(pat, t, |pre| + i);
  }
}
