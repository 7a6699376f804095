/** The string clean-up every script applies to neighbourhood names (and, in some
    scripts, to call types): pandas `.str.lower().str.strip()` over ASCII, plus the
    code-point order Python uses to compare strings, which fixes the order of the
    rows and columns pandas produces when it groups by a name. */
module Text {

  /** The ASCII characters for which Python's `str.isspace()` holds: tab, line feed,
      vertical tab, form feed, carriage return, the four information separators
      0x1C..0x1F and the space. */
  predicate IsSpace(c: char) {
    var n := c as int;
    n == 32 || 9 <= n <= 13 || 28 <= n <= 31
  }

  predicate IsUpper(c: char) {
    'A' <= c <= 'Z'
  }

  /** `str.lower()` restricted to ASCII: only 'A'..'Z' change. */
  function LowerChar(c: char): (r: char)
    ensures !IsUpper(r)
    ensures IsSpace(r) <==> IsSpace(c)
    ensures !IsUpper(c) ==> r == c
  {
    if IsUpper(c) then (c as int + 32) as char else c
  }

  function Lower(s: string): (r: string)
    ensures |r| == |s|
    ensures forall i :: 0 <= i < |s| ==> r[i] == LowerChar(s[i])
  {
    seq(|s|, i requires 0 <= i < |s| => LowerChar(s[i]))
  }

  predicate HasNoUpper(s: string) {
    forall i :: 0 <= i < |s| ==> !IsUpper(s[i])
  }

  /** Drops leading whitespace: the result is the longest suffix of `s` that does not
      start with a space. */
  function TrimStart(s: string): (r: string)
    ensures |r| <= |s| && r == s[|s| - |r|..]
    ensures forall i :: 0 <= i < |s| - |r| ==> IsSpace(s[i])
    ensures |r| > 0 ==> !IsSpace(r[0])
  {
    if |s| > 0 && IsSpace(s[0]) then TrimStart(s[1..]) else s
  }

  /** Drops trailing whitespace: the result is the longest prefix of `s` that does not
      end with a space. */
  function TrimEnd(s: string): (r: string)
    ensures |r| <= |s| && r == s[..|r|]
    ensures forall i :: |r| <= i < |s| ==> IsSpace(s[i])
    ensures |r| > 0 ==> !IsSpace(r[|r| - 1])
  {
    if |s| > 0 && IsSpace(s[|s| - 1]) then TrimEnd(s[..|s| - 1]) else s
  }

  /** `str.strip()`. */
  function Strip(s: string): string {
    TrimEnd(TrimStart(s))
  }

  /** A name as every script keys it: lower-cased, then stripped. */
  function Normalize(s: string): string {
    Strip(Lower(s))
  }

  /** A string that normalisation leaves alone. */
  predicate IsNormal(s: string) {
    && HasNoUpper(s)
    && (|s| > 0 ==> !IsSpace(s[0]) && !IsSpace(s[|s| - 1]))
  }

  lemma TrimStartKeepsLower(s: string)
    requires HasNoUpper(s)
    ensures HasNoUpper(TrimStart(s))
  {
    var t := TrimStart(s);
    var a := |s| - |t|;
    forall i | 0 <= i < |t| ensures !IsUpper(t[i]) {
      assert t[i] == s[a + i];
    }
  }

  lemma TrimEndKeepsLower(s: string)
    requires HasNoUpper(s)
    ensures HasNoUpper(TrimEnd(s))
  {
    var t := TrimEnd(s);
    forall i | 0 <= i < |t| ensures !IsUpper(t[i]) {
      assert t[i] == s[i];
    }
  }

  /** What normalisation produces: no upper-case letter anywhere and no whitespace
      at either end. */
  lemma NormalizeShape(s: string)
    ensures IsNormal(Normalize(s))
  {
    var l := Lower(s);
    assert HasNoUpper(l);
    var t := TrimStart(l);
    TrimStartKeepsLower(l);
    var r := TrimEnd(t);
    TrimEndKeepsLower(t);
    if |r| > 0 {
      assert r[0] == t[0];
    }
  }

  lemma NormalOfNormal(s: string)
    requires IsNormal(s)
    ensures Normalize(s) == s
  {
    assert Lower(s) == s;
  }

  /** Normalising twice is normalising once, so a name cleaned by one script and
      cleaned again by the next keeps its key. */
  lemma NormalizeIdempotent(s: string)
    ensures Normalize(Normalize(s)) == Normalize(s)
  {
    NormalizeShape(s);
    NormalOfNormal(Normalize(s));
  }

  predicate AllSpace(s: string) {
    forall i :: 0 <= i < |s| ==> IsSpace(s[i])
  }

  /** Padding with whitespace on either side does not change the key. */
  lemma NormalizeIgnoresPadding(pre: string, s: string, post: string)
    requires AllSpace(pre) && AllSpace(post)
    ensures Normalize(pre + s + post) == Normalize(s)
  {
    LowerAppend(pre, s + post);
    LowerAppend(s, post);
    assert pre + s + post == pre + (s + post);
    var lp, ls, lq := Lower(pre), Lower(s), Lower(post);
    assert AllSpace(lp) && AllSpace(lq);
    TrimStartSpacePrefix(lp, ls + lq);
    TrimStartAppend(ls, lq);
    var t := TrimStart(ls);
    if |t| == 0 {
      TrimStartAllSpace(lq);
      TrimEndEmpty();
    } else {
      TrimEndSpaceSuffix(t, lq);
    }
  }

  lemma LowerAppend(a: string, b: string)
    ensures Lower(a + b) == Lower(a) + Lower(b)
  {
  }

  lemma TrimEndEmpty()
    ensures TrimEnd([]) == []
  {
  }

  lemma TrimStartSpacePrefix(p: string, s: string)
    requires AllSpace(p)
    ensures TrimStart(p + s) == TrimStart(s)
  {
    if |p| > 0 {
      assert (p + s)[1..] == p[1..] + s;
      TrimStartSpacePrefix(p[1..], s);
    } else {
      assert p + s == s;
    }
  }

  lemma TrimStartAllSpace(s: string)
    requires AllSpace(s)
    ensures TrimStart(s) == []
  {
    if |s| > 0 {
      TrimStartAllSpace(s[1..]);
    }
  }

  /** Trimming the front of `s + p` either keeps a non-space part of `s` or reaches
      into `p`. */
  lemma TrimStartAppend(s: string, p: string)
    ensures |TrimStart(s)| > 0 ==> TrimStart(s + p) == TrimStart(s) + p
    ensures |TrimStart(s)| == 0 ==> TrimStart(s + p) == TrimStart(p)
  {
    if |s| > 0 {
      assert (s + p)[1..] == s[1..] + p;
      if IsSpace(s[0]) {
        TrimStartAppend(s[1..], p);
      }
    } else {
      assert s + p == p;
    }
  }

  lemma TrimEndSpaceSuffix(s: string, p: string)
    requires AllSpace(p)
    requires |s| > 0 && !IsSpace(s[0])
    ensures TrimEnd(s + p) == TrimEnd(s)
  {
    if |p| > 0 {
      assert (s + p)[..|s + p| - 1] == s + p[..|p| - 1];
      TrimEndSpaceSuffix(s, p[..|p| - 1]);
    } else {
      assert s + p == s;
    }
  }

  /** Python's `<` on strings: code point by code point, a proper prefix first. */
  predicate Less(a: string, b: string) {
    if |a| == 0 then |b| > 0
    else if |b| == 0 then false
    else if a[0] != b[0] then a[0] < b[0]
    else Less(a[1..], b[1..])
  }

  lemma {:induction false} LessIrreflexive(a: string)
    ensures !Less(a, a)
  {
    if |a| > 0 {
      LessIrreflexive(a[1..]);
    }
  }

  lemma {:induction false} LessTransitive(a: string, b: string, c: string)
    requires Less(a, b) && Less(b, c)
    ensures Less(a, c)
  {
    if |a| > 0 && |b| > 0 && |c| > 0 && a[0] == b[0] && b[0] == c[0] {
      LessTransitive(a[1..], b[1..], c[1..]);
    }
  }

  lemma {:induction false} LessTotal(a: string, b: string)
    requires a != b
    ensures Less(a, b) || Less(b, a)
  {
    if |a| > 0 && |b| > 0 && a[0] == b[0] {
      assert a == [a[0]] + a[1..] && b == [b[0]] + b[1..];
      LessTotal(a[1..], b[1..]);
    }
  }
}
