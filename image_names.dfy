/**
 * The name `updateImage` gives an uploaded company image: the request time
 * in decimal, an underscore, and the client's original file name with every
 * character outside `[A-Za-z0-9._-]` removed.
 */
module ImageNames {
  import opened Domain

  /** The characters the sanitiser keeps: ASCII letters, digits, '.', '_' and '-'. */
  predicate Allowed(c: char) {
    ('a' <= c <= 'z') || ('A' <= c <= 'Z') || ('0' <= c <= '9') || c == '.' || c == '_' || c == '-'
  }

  predicate AllAllowed(s: string) {
    forall i | 0 <= i < |s| :: Allowed(s[i])
  }

  /** The regular-expression replacement that deletes every character not allowed. */
  function Sanitize(s: string): (r: string)
    ensures AllAllowed(r)
    ensures |r| <= |s|
  {
    if s == [] then []
    else if Allowed(s[0]) then [s[0]] + Sanitize(s[1..])
    else Sanitize(s[1..])
  }

  /** `t` can be obtained from `s` by deleting characters (order is kept). */
  predicate IsSubsequence(t: string, s: string)
    decreases |s|
  {
    if t == [] then true
    else if s == [] then false
    else if t[0] == s[0] then IsSubsequence(t[1..], s[1..])
    else IsSubsequence(t, s[1..])
  }

  /** A name is left as it is exactly when every character in it is allowed. */
  lemma {:induction false} SanitizeFixedPoint(s: string)
    ensures Sanitize(s) == s <==> AllAllowed(s)
  {
    if s != [] && AllAllowed(s) {
      assert AllAllowed(s[1..]) by {
        forall i | 0 <= i < |s[1..]| ensures Allowed(s[1..][i]) {
          assert s[1..][i] == s[i + 1];
        }
      }
      SanitizeFixedPoint(s[1..]);
      assert Sanitize(s) == [s[0]] + s[1..];
    }
  }

  /** Sanitising twice is sanitising once. */
  lemma SanitizeIdempotent(s: string)
    ensures Sanitize(Sanitize(s)) == Sanitize(s)
  {
    SanitizeFixedPoint(Sanitize(s));
  }

  /** The sanitiser works character by character: it distributes over concatenation. */
  lemma {:induction false} SanitizeAppend(a: string, b: string)
    ensures Sanitize(a + b) == Sanitize(a) + Sanitize(b)
  {
    if a == [] {
      assert a + b == b;
    } else {
      assert (a + b)[0] == a[0];
      assert (a + b)[1..] == a[1..] + b;
      SanitizeAppend(a[1..], b);
    }
  }

  /** The kept characters appear in the original name in the same order. */
  lemma {:induction false} SanitizeIsSubsequence(s: string)
    ensures IsSubsequence(Sanitize(s), s)
    decreases |s|
  {
    if s != [] {
      SanitizeIsSubsequence(s[1..]);
      if Allowed(s[0]) {
        assert ([s[0]] + Sanitize(s[1..]))[1..] == Sanitize(s[1..]);
      } else {
        SubsequenceOfTail(Sanitize(s[1..]), s);
      }
    }
  }

  /** A subsequence of the tail is a subsequence of the whole. */
  lemma {:induction false} SubsequenceOfTail(t: string, s: string)
    requires s != [] && IsSubsequence(t, s[1..])
    ensures IsSubsequence(t, s)
    decreases |s| + |t|
  {
    if t != [] && t[0] == s[0] {
      // Matching s[0] greedily leaves t[1..], a subsequence of t itself.
      SubsequenceDropHead(t, s[1..]);
    }
  }

  /** Dropping the first character of a subsequence keeps it a subsequence. */
  lemma {:induction false} SubsequenceDropHead(t: string, s: string)
    requires t != [] && IsSubsequence(t, s)
    ensures IsSubsequence(t[1..], s)
    decreases |s| + |t|
  {
    assert s != [];
    if t[0] != s[0] {
      SubsequenceDropHead(t, s[1..]);
      SubsequenceOfTail(t[1..], s);
    } else if t[1..] != [] {
      SubsequenceOfTail(t[1..], s);
    }
  }

  /** Every allowed character is kept as often as it occurs; every other one is gone. */
  lemma {:induction false} SanitizeCounts(s: string, c: char)
    ensures multiset(Sanitize(s))[c] == if Allowed(c) then multiset(s)[c] else 0
  {
    if s != [] {
      SanitizeCounts(s[1..], c);
      assert s == [s[0]] + s[1..];
      assert multiset(s) == multiset([s[0]]) + multiset(s[1..]);
    }
  }

  // ---------------------------------------------------------------------
  // The timestamp prefix

  predicate IsDigit(c: char) {
    '0' <= c <= '9'
  }

  predicate AllDigits(s: string) {
    forall i | 0 <= i < |s| :: IsDigit(s[i])
  }

  function DigitChar(d: nat): (c: char)
    requires d < 10
    ensures IsDigit(c)
  {
    (d + '0' as int) as char
  }

  function DigitValue(c: char): (d: nat)
    requires IsDigit(c)
    ensures d < 10
  {
    (c as int - '0' as int)
  }

  /** PHP's conversion of a non-negative integer to a string: decimal, no leading zeros. */
  function Decimal(n: nat): (r: string)
    ensures r != [] && AllDigits(r)
    ensures r[0] == '0' ==> n == 0
    decreases n
  {
    if n < 10 then [DigitChar(n)] else Decimal(n / 10) + [DigitChar(n % 10)]
  }

  /** The number a string of digits denotes. */
  function DecimalValue(s: string): nat
    requires AllDigits(s)
    decreases |s|
  {
    if s == [] then 0 else DecimalValue(s[..|s| - 1]) * 10 + DigitValue(s[|s| - 1])
  }

  lemma {:induction false} DecimalRoundTrip(n: nat)
    ensures DecimalValue(Decimal(n)) == n
    decreases n
  {
    if n >= 10 {
      var d := Decimal(n);
      assert d[..|d| - 1] == Decimal(n / 10);
      DecimalRoundTrip(n / 10);
    }
  }

  /**
   * The stored name of an uploaded image: the request time in decimal, then
   * an underscore, then the client's file name with its disallowed
   * characters removed. Every character of it is allowed.
   */
  function ImageName(now: nat, original: string): (r: string)
    ensures AllAllowed(r)
  {
    Decimal(now) + "_" + Sanitize(original)
  }

  /** The index of the first underscore, or the length when there is none. */
  function FirstUnderscore(s: string): (r: nat)
    ensures r <= |s|
    ensures r < |s| ==> s[r] == '_'
    ensures forall j | 0 <= j < r :: s[j] != '_'
  {
    if s == [] then 0 else if s[0] == '_' then 0 else 1 + FirstUnderscore(s[1..])
  }

  /** Reads the timestamp and the sanitised name back out of an image name. */
  function ParseImageName(name: string): Option<(nat, string)> {
    var k := FirstUnderscore(name);
    if k == |name| || k == 0 || !AllDigits(name[..k]) then None
    else Some((DecimalValue(name[..k]), name[k + 1..]))
  }

  /**
   * An image name splits back into the request time and the sanitised
   * original name: the digits of the time contain no underscore, so the first
   * underscore is the separator.
   */
  lemma ImageNameRoundTrip(now: nat, original: string)
    ensures ParseImageName(ImageName(now, original)) == Some((now, Sanitize(original)))
  {
    var d := Decimal(now);
    var name := ImageName(now, original);
    assert name[..|d|] == d;
    assert name[|d|] == '_';
    assert name[|d| + 1..] == Sanitize(original);
    forall j | 0 <= j < |d| ensures name[j] != '_' {
      assert name[j] == d[j] && IsDigit(d[j]);
    }
    assert FirstUnderscore(name) == |d|;
    DecimalRoundTrip(now);
  }

  /** Every character of an image name is allowed, so sanitising it again changes nothing. */
  lemma ImageNameIsClean(now: nat, original: string)
    ensures AllAllowed(ImageName(now, original))
    ensures Sanitize(ImageName(now, original)) == ImageName(now, original)
  {
    var d := Decimal(now);
    var name := ImageName(now, original);
    forall i | 0 <= i < |name| ensures Allowed(name[i]) {
      if i < |d| {
        assert name[i] == d[i] && IsDigit(d[i]);
      } else if i > |d| {
        assert name[i] == Sanitize(original)[i - |d| - 1];
      }
    }
    SanitizeFixedPoint(name);
  }
}
