/** The string arithmetic behind face ids: the id base taken from a name, the
    zero-padded numeric suffix, PostgreSQL's LIKE test used to find ids sharing a
    base, and Python's `str.split()` used to break a full name into words. */
module Identifiers {

  /** The id prefix built at the start of `addFaces`: the first and last letters of
      the last name, then the first name followed by "X" when it has fewer than
      three characters, else its first three characters. */
  function IdBase(first: string, last: string): (b: string)
    requires |last| > 0
    ensures 3 <= |b| <= 5
    ensures |b| < 5 <==> |first| < 2
    ensures b[0] == last[0] && b[1] == last[|last| - 1]
    ensures |first| < 3 ==> b[2..] == first + "X"
    ensures |first| >= 3 ==> b[2..] == first[..3]
  {
    [last[0], last[|last| - 1]] + (if |first| < 3 then first + "X" else first[..3])
  }

  // ---------------------------------------------------------------------------
  // Decimal suffixes

  predicate IsDigit(c: char) {
    '0' <= c <= '9'
  }

  predicate AllDigits(s: string) {
    forall k :: 0 <= k < |s| ==> IsDigit(s[k])
  }

  function DigitChar(d: nat): (c: char)
    requires d < 10
    ensures IsDigit(c) && (c as int) - ('0' as int) == d
  {
    (('0' as int) + d) as char
  }

  /** Python's `str(n)` for a non-negative integer. */
  function Decimal(n: nat): (s: string)
    ensures |s| >= 1 && AllDigits(s)
    ensures n < 10 ==> |s| == 1
    ensures 10 <= n < 100 ==> |s| == 2
    ensures 100 <= n < 1000 ==> |s| == 3
    ensures n >= 1000 ==> |s| >= 4
    decreases n
  {
    if n < 10 then [DigitChar(n)] else Decimal(n / 10) + [DigitChar(n % 10)]
  }

  /** The number a string of decimal digits denotes, most significant digit first. */
  function DigitsValue(s: string): nat
    requires AllDigits(s)
  {
    if s == [] then 0
    else DigitsValue(s[..|s| - 1]) * 10 + ((s[|s| - 1] as int) - ('0' as int))
  }

  /** Reading back what `str` printed gives the number again. */
  lemma {:induction false} DecimalRoundTrip(n: nat)
    ensures DigitsValue(Decimal(n)) == n
    decreases n
  {
    if n >= 10 {
      var s := Decimal(n);
      assert s[..|s| - 1] == Decimal(n / 10);
      DecimalRoundTrip(n / 10);
    }
  }

  /** A leading zero does not change the value of a digit string. */
  lemma {:induction false} LeadingZero(s: string)
    requires AllDigits(s)
    ensures AllDigits("0" + s) && DigitsValue("0" + s) == DigitsValue(s)
    decreases |s|
  {
    if s != [] {
      var z := "0" + s;
      assert z[..|z| - 1] == "0" + s[..|s| - 1];
      LeadingZero(s[..|s| - 1]);
    }
  }

  /** The three-digit suffix of a new id (an id base followed by `count`, padded
      with zeros to three digits when `count` is below 100). */
  function Suffix(c: nat): (s: string)
    ensures AllDigits(s)
    ensures c < 1000 ==> |s| == 3
    ensures c >= 1000 ==> |s| >= 4
  {
    if c < 10 then "00" + Decimal(c)
    else if c < 100 then "0" + Decimal(c)
    else Decimal(c)
  }

  /** Below 1000 the suffix is three digits that read back as the count, so two
      different counts never give the same suffix. */
  lemma SuffixRoundTrip(c: nat)
    requires c < 1000
    ensures |Suffix(c)| == 3 && AllDigits(Suffix(c)) && DigitsValue(Suffix(c)) == c
  {
    DecimalRoundTrip(c);
    if c < 10 {
      LeadingZero(Decimal(c));
      LeadingZero("0" + Decimal(c));
      assert "00" + Decimal(c) == "0" + ("0" + Decimal(c));
    } else if c < 100 {
      LeadingZero(Decimal(c));
    }
  }

  // ---------------------------------------------------------------------------
  // PostgreSQL LIKE

  /** `s LIKE p` in PostgreSQL: `%` matches any run of characters, `_` any one
      character, and a backslash (the default escape character) makes the next
      character literal. A backslash at the very end of a pattern is an error in
      PostgreSQL; it is matched literally here, which never matters for the
      patterns `base + "%"` this store builds, since their last character is `%`
      and is consumed by any escape before it. */
  predicate LikeMatch(s: string, p: string)
    decreases |s| + |p|
  {
    if p == [] then s == []
    else if p[0] == '%' then LikeMatch(s, p[1..]) || (s != [] && LikeMatch(s[1..], p))
    else if p[0] == '_' then s != [] && LikeMatch(s[1..], p[1..])
    else if p[0] == '\\' && |p| >= 2 then s != [] && s[0] == p[1] && LikeMatch(s[1..], p[2..])
    else s != [] && s[0] == p[0] && LikeMatch(s[1..], p[1..])
  }

  predicate NoBackslash(b: string) {
    forall k :: 0 <= k < |b| ==> b[k] != '\\'
  }

  /** No character of `b` has a special meaning in a LIKE pattern. */
  predicate NoLikeMeta(b: string) {
    forall k :: 0 <= k < |b| ==> b[k] != '\\' && b[k] != '%' && b[k] != '_'
  }

  lemma {:induction false} LikeAnything(s: string)
    ensures LikeMatch(s, "%")
    decreases |s|
  {
    if s != [] {
      LikeAnything(s[1..]);
    }
  }

  /** Without escapes in `b`, every string that starts with `b` is LIKE `b%`
      (wildcards in `b` only match more). */
  lemma {:induction false} PrefixIsLike(s: string, b: string)
    requires NoBackslash(b) && b <= s
    ensures LikeMatch(s, b + "%")
    decreases |b|
  {
    if b == [] {
      assert b + "%" == "%";
      LikeAnything(s);
    } else {
      var p := b + "%";
      assert p[1..] == b[1..] + "%";
      assert b[1..] <= s[1..];
      PrefixIsLike(s[1..], b[1..]);
      if b[0] == '%' {
        // `%` consumes s[0], after which the rest of the pattern matches s[1..].
        assert LikeMatch(s[1..], p[1..]);
        assert LikeMatch(s[1..], p);
      }
    }
  }

  /** When `b` is free of LIKE metacharacters, `s LIKE b%` is exactly "s starts
      with b", which is what the id queries of `addFaces` mean to ask. */
  lemma {:induction false} LikeIsPrefix(s: string, b: string)
    requires NoLikeMeta(b)
    ensures LikeMatch(s, b + "%") <==> b <= s
    decreases |b|
  {
    if b <= s {
      PrefixIsLike(s, b);
    } else if b != [] && s != [] {
      var p := b + "%";
      assert p[1..] == b[1..] + "%";
      if s[0] == b[0] {
        assert !(b[1..] <= s[1..]);
        LikeIsPrefix(s[1..], b[1..]);
      }
    }
  }

  // ---------------------------------------------------------------------------
  // Python's str.split()

  /** The characters Python's `str.isspace()` accepts. */
  predicate IsSpace(c: char) {
    c == ' ' || ('\t' <= c <= '\r') || ('\U{1C}' <= c <= '\U{1F}')
    || c == '\U{85}' || c == '\U{A0}' || c == '\U{1680}'
    || ('\U{2000}' <= c <= '\U{200A}') || c == '\U{2028}' || c == '\U{2029}'
    || c == '\U{202F}' || c == '\U{205F}' || c == '\U{3000}'
  }

  /** A non-empty string without whitespace. */
  predicate IsWord(w: string) {
    w != [] && forall k :: 0 <= k < |w| ==> !IsSpace(w[k])
  }

  /** The length of the run of non-space characters that starts `s`. */
  function WordLength(s: string): (k: nat)
    ensures k <= |s|
    ensures forall j :: 0 <= j < k ==> !IsSpace(s[j])
    ensures k < |s| ==> IsSpace(s[k])
  {
    if s == [] || IsSpace(s[0]) then 0 else 1 + WordLength(s[1..])
  }

  /** `s.split()`: the maximal runs of non-space characters, in order. */
  function Split(s: string): (r: seq<string>)
    ensures forall k :: 0 <= k < |r| ==> IsWord(r[k])
    decreases |s|
  {
    if s == [] then []
    else if IsSpace(s[0]) then Split(s[1..])
    else
      var k := WordLength(s);
      [s[..k]] + Split(s[k..])
  }

  lemma {:induction false} WordLengthOfWord(w: string, t: string)
    requires IsWord(w) && (t == [] || IsSpace(t[0]))
    ensures WordLength(w + t) == |w|
    decreases |w|
  {
    if |w| > 1 {
      assert (w + t)[1..] == w[1..] + t;
      WordLengthOfWord(w[1..], t);
    } else {
      assert (w + t)[1..] == t;
    }
  }

  /** A full name written "first last" splits back into its two names. */
  lemma FullNameSplits(first: string, last: string)
    requires IsWord(first) && IsWord(last)
    ensures Split(first + " " + last) == [first, last]
  {
    var s := first + " " + last;
    WordLengthOfWord(first, " " + last);
    assert s == first + (" " + last);
    assert s[..|first|] == first;
    assert s[|first|..] == " " + last;
    assert Split(s) == [first] + Split(" " + last);
    assert (" " + last)[1..] == last;
    assert Split(" " + last) == Split(last);
    WordLengthOfWord(last, []);
    assert last + [] == last;
    assert last[..|last|] == last && last[|last|..] == [];
    assert Split(last) == [last] + Split([]);
  }
}
