/** String helpers shared by the service and the pages: the whitespace class,
    file-name sanitisation, decimal rendering of numbers, `trim`, and
    case-insensitive suffix tests. */
module Text {
  import opened Wrappers

  /** The characters the whitespace class matches in this model: the ASCII whitespace,
      no-break space, line/paragraph separators and the byte-order mark. */
  const Whitespace: set<char> :=
    {' ', '\t', '\n', '\r', '\U{B}', '\U{C}', '\U{A0}', '\U{2028}', '\U{2029}', '\U{FEFF}'}

  predicate IsSpace(c: char) { c in Whitespace }

  /** ASCII letters, digits, dot, underscore and hyphen: the only characters
      a sanitised file name keeps. */
  predicate IsSafeChar(c: char) {
    ('a' <= c <= 'z') || ('A' <= c <= 'Z') || ('0' <= c <= '9') || c == '.' || c == '_' || c == '-'
  }

  predicate AllSafe(s: string) { forall k :: 0 <= k < |s| ==> IsSafeChar(s[k]) }

  predicate NoSpace(s: string) { forall k :: 0 <= k < |s| ==> !IsSpace(s[k]) }

  lemma SafeIsNotSpace(c: char)
    ensures IsSafeChar(c) ==> !IsSpace(c)
  {
  }

  // ---------------------------------------------------------------------
  // Whitespace runs become underscores
  // ---------------------------------------------------------------------

  /** Drops the whitespace run at the front of `s`. */
  function SkipSpaces(s: string): (r: string)
    ensures |r| <= |s|
    ensures r == s[|s| - |r|..]
    ensures r == [] || !IsSpace(r[0])
  {
    if s != [] && IsSpace(s[0]) then SkipSpaces(s[1..]) else s
  }

  /** Every maximal run of whitespace becomes a single underscore. */
  function CollapseWhitespace(s: string): (r: string)
    ensures |r| <= |s|
    ensures NoSpace(r)
    decreases |s|
  {
    if s == [] then []
    else if IsSpace(s[0]) then
      var rest := CollapseWhitespace(SkipSpaces(s[1..]));
      NoSpacePrepend('_', rest);
      "_" + rest
    else
      var rest := CollapseWhitespace(s[1..]);
      NoSpacePrepend(s[0], rest);
      [s[0]] + rest
  }

  lemma NoSpacePrepend(c: char, s: string)
    requires !IsSpace(c) && NoSpace(s)
    ensures NoSpace([c] + s)
  {
    forall k | 0 < k < |s| + 1 ensures !IsSpace(([c] + s)[k]) {
      assert ([c] + s)[k] == s[k - 1];
    }
  }

  /** A string that ends with a non-space character, or is empty. */
  predicate EndsSolid(s: string) { s == [] || !IsSpace(s[|s| - 1]) }

  /** Skipping the leading run of a string that holds a non-space character
      does not reach into what follows it. */
  lemma {:induction false} SkipSpacesAppend(x: string, y: string)
    requires !AllSpace(x)
    ensures SkipSpaces(x + y) == SkipSpaces(x) + y
    decreases |x|
  {
    AllSpaceCons(x);
    if IsSpace(x[0]) {
      assert (x + y)[1..] == x[1..] + y;
      SkipSpacesAppend(x[1..], y);
    }
  }

  /** A run of whitespace in front of a string that does not start with
      whitespace is skipped entirely. */
  lemma {:induction false} SkipSpacesRun(w: string, b: string)
    requires AllSpace(w)
    requires b == [] || !IsSpace(b[0])
    ensures SkipSpaces(w + b) == b
    decreases |w|
  {
    if w == [] {
      assert w + b == b;
    } else {
      AllSpaceCons(w);
      assert (w + b)[1..] == w[1..] + b;
      SkipSpacesRun(w[1..], b);
    }
  }

  /** No whitespace run crosses the end of a string that ends with a
      non-space character, so the two parts collapse separately. */
  lemma {:induction false} CollapseAppend(a: string, b: string)
    requires EndsSolid(a)
    ensures CollapseWhitespace(a + b) == CollapseWhitespace(a) + CollapseWhitespace(b)
    decreases |a|
  {
    if a == [] {
      assert a + b == b;
    } else if !IsSpace(a[0]) {
      assert (a + b)[1..] == a[1..] + b;
      CollapseAppend(a[1..], b);
    } else {
      var t := a[1..];
      assert !AllSpace(t) by {
        assert t[|t| - 1] == a[|a| - 1];
      }
      assert (a + b)[1..] == t + b;
      SkipSpacesAppend(t, b);
      SkipSpacesEmpty(t);
      var u := SkipSpaces(t);
      assert u[|u| - 1] == t[|t| - 1];
      CollapseAppend(u, b);
    }
  }

  /** The whitespace branch of the definition, on its own. */
  lemma CollapseSpaceHead(s: string)
    requires s != [] && IsSpace(s[0])
    ensures CollapseWhitespace(s) == "_" + CollapseWhitespace(SkipSpaces(s[1..]))
  {
  }

  /** A whitespace run followed by a non-space character (or the end)
      becomes exactly one underscore. */
  lemma CollapseRunStart(w: string, b: string)
    requires w != [] && AllSpace(w)
    requires b == [] || !IsSpace(b[0])
    ensures CollapseWhitespace(w + b) == "_" + CollapseWhitespace(b)
  {
    var s := w + b;
    assert s[0] == w[0];
    assert s[1..] == w[1..] + b;
    AllSpaceCons(w);
    SkipSpacesRun(w[1..], b);
    CollapseSpaceHead(s);
  }

  /** A maximal whitespace run between two parts becomes exactly one
      underscore, and the parts on either side are collapsed on their own. */
  lemma CollapseRun(a: string, w: string, b: string)
    requires EndsSolid(a)
    requires w != [] && AllSpace(w)
    requires b == [] || !IsSpace(b[0])
    ensures CollapseWhitespace(a + w + b) == CollapseWhitespace(a) + "_" + CollapseWhitespace(b)
  {
    calc {
      CollapseWhitespace(a + w + b);
      { assert a + w + b == a + (w + b); }
      CollapseWhitespace(a + (w + b));
      { CollapseAppend(a, w + b); }
      CollapseWhitespace(a) + CollapseWhitespace(w + b);
      { CollapseRunStart(w, b); }
      CollapseWhitespace(a) + ("_" + CollapseWhitespace(b));
      CollapseWhitespace(a) + "_" + CollapseWhitespace(b);
    }
  }

  /** A non-space character is kept as it is. */
  lemma CollapseSolidChar(c: char)
    requires !IsSpace(c)
    ensures CollapseWhitespace([c]) == [c]
  {
    assert [c][1..] == [];
  }

  // ---------------------------------------------------------------------
  // Unsafe characters are deleted
  // ---------------------------------------------------------------------

  /** Keeps the safe characters of `s`, in order. */
  function StripUnsafe(s: string): (r: string)
    ensures |r| <= |s|
    ensures AllSafe(r)
    ensures forall c :: c in r <==> c in s && IsSafeChar(c)
  {
    if s == [] then []
    else if IsSafeChar(s[0]) then [s[0]] + StripUnsafe(s[1..])
    else StripUnsafe(s[1..])
  }

  /** Stripping works character by character: the kept characters of a
      concatenation are those of each part, in order. */
  lemma {:induction false} StripUnsafeAppend(a: string, b: string)
    ensures StripUnsafe(a + b) == StripUnsafe(a) + StripUnsafe(b)
    decreases |a|
  {
    if a == [] {
      assert a + b == b;
    } else {
      assert (a + b)[1..] == a[1..] + b;
      StripUnsafeAppend(a[1..], b);
    }
  }

  /** One character is kept exactly when it is safe. */
  lemma StripUnsafeChar(c: char)
    ensures StripUnsafe([c]) == (if IsSafeChar(c) then [c] else [])
  {
    assert [c][1..] == [];
  }

  /** The storage-safe form of an uploaded file's name. */
  function SafeName(name: string): (r: string)
    ensures AllSafe(r)
    ensures |r| <= |name|
  {
    StripUnsafe(CollapseWhitespace(name))
  }

  lemma {:induction false} CollapseKeepsSpaceFree(s: string)
    requires NoSpace(s)
    ensures CollapseWhitespace(s) == s
    decreases |s|
  {
    if s != [] {
      assert !IsSpace(s[0]);
      CollapseKeepsSpaceFree(s[1..]);
    }
  }

  lemma {:induction false} StripKeepsSafe(s: string)
    requires AllSafe(s)
    ensures StripUnsafe(s) == s
  {
    if s != [] {
      StripKeepsSafe(s[1..]);
    }
  }

  /** A name is left alone by sanitisation exactly when it is already made of
      safe characters. */
  lemma SafeNameFixedPoint(name: string)
    ensures SafeName(name) == name <==> AllSafe(name)
  {
    if AllSafe(name) {
      forall k | 0 <= k < |name| ensures !IsSpace(name[k]) {
        SafeIsNotSpace(name[k]);
      }
      CollapseKeepsSpaceFree(name);
      StripKeepsSafe(name);
    }
  }

  /** Sanitising twice is the same as sanitising once. */
  lemma SafeNameIdempotent(name: string)
    ensures SafeName(SafeName(name)) == SafeName(name)
  {
    SafeNameFixedPoint(SafeName(name));
  }

  // ---------------------------------------------------------------------
  // Decimal rendering of a number, as `${n}` produces it.
  // ---------------------------------------------------------------------

  predicate IsDigit(c: char) { '0' <= c <= '9' }

  function DigitChar(d: nat): (c: char)
    requires d < 10
    ensures IsDigit(c)
  {
    ['0', '1', '2', '3', '4', '5', '6', '7', '8', '9'][d]
  }

  function DigitValue(c: char): nat
    requires IsDigit(c)
  {
    (c as int - '0' as int) as nat
  }

  lemma DigitRoundTrip(d: nat)
    requires d < 10
    ensures DigitValue(DigitChar(d)) == d
  {
  }

  /** The decimal digits of `n`, without leading zeros. */
  function Decimal(n: nat): (r: string)
    ensures |r| >= 1
    ensures forall k :: 0 <= k < |r| ==> IsDigit(r[k])
  {
    if n < 10 then [DigitChar(n)] else Decimal(n / 10) + [DigitChar(n % 10)]
  }

  /** The number a string of digits denotes. */
  function DigitsValue(s: string): nat
    requires forall k :: 0 <= k < |s| ==> IsDigit(s[k])
  {
    if s == [] then 0 else DigitsValue(s[..|s| - 1]) * 10 + DigitValue(s[|s| - 1])
  }

  /** Reading the digits back gives the number: rendering is injective. */
  lemma {:induction false} DecimalRoundTrip(n: nat)
    ensures DigitsValue(Decimal(n)) == n
  {
    var r := Decimal(n);
    if n < 10 {
      DigitRoundTrip(n);
    } else {
      DecimalRoundTrip(n / 10);
      assert r[..|r| - 1] == Decimal(n / 10);
      DigitRoundTrip(n % 10);
    }
  }

  lemma DecimalInjective(m: nat, n: nat)
    requires Decimal(m) == Decimal(n)
    ensures m == n
  {
    DecimalRoundTrip(m);
    DecimalRoundTrip(n);
  }

  // ---------------------------------------------------------------------
  // String.prototype.trim and emptiness after trimming.
  // ---------------------------------------------------------------------

  function TrimEnd(s: string): (r: string)
    ensures |r| <= |s| && r == s[..|r|]
    ensures r == [] || !IsSpace(r[|r| - 1])
  {
    if s != [] && IsSpace(s[|s| - 1]) then TrimEnd(s[..|s| - 1]) else s
  }

  /** `String.prototype.trim`: the whitespace at both ends is dropped. */
  function Trim(s: string): (r: string)
    ensures |r| <= |s|
    ensures r == [] || (!IsSpace(r[0]) && !IsSpace(r[|r| - 1]))
  {
    TrimEnd(SkipSpaces(s))
  }

  predicate AllSpace(s: string) { forall k :: 0 <= k < |s| ==> IsSpace(s[k]) }

  lemma AllSpaceCons(s: string)
    requires s != []
    ensures AllSpace(s) <==> IsSpace(s[0]) && AllSpace(s[1..])
  {
    if IsSpace(s[0]) && AllSpace(s[1..]) {
      forall k | 0 <= k < |s| ensures IsSpace(s[k]) {
        if k > 0 { assert s[k] == s[1..][k - 1]; }
      }
    }
  }

  lemma {:induction false} SkipSpacesEmpty(s: string)
    ensures SkipSpaces(s) == [] <==> AllSpace(s)
  {
    if s == [] {
    } else if IsSpace(s[0]) {
      SkipSpacesEmpty(s[1..]);
      AllSpaceCons(s);
    } else {
      AllSpaceCons(s);
    }
  }

  /** `!s.trim()` holds exactly for strings made of whitespace only
      (including the empty string). */
  lemma TrimEmptyIffAllSpace(s: string)
    ensures Trim(s) == [] <==> AllSpace(s)
  {
    var t := SkipSpaces(s);
    SkipSpacesEmpty(s);
    if t != [] {
      assert TrimEnd(t) != [] by {
        TrimEndKeepsFront(t);
      }
    }
  }

  lemma {:induction false} TrimEndKeepsFront(s: string)
    requires s != [] && !IsSpace(s[0])
    ensures TrimEnd(s) != []
  {
    if IsSpace(s[|s| - 1]) {
      assert |s| > 1;
      TrimEndKeepsFront(s[..|s| - 1]);
    }
  }

  // ---------------------------------------------------------------------
  // Prefix and case-insensitive suffix tests.
  // ---------------------------------------------------------------------

  predicate StartsWith(s: string, prefix: string) {
    |prefix| <= |s| && s[..|prefix|] == prefix
  }

  /** ASCII lower-casing: a regular expression with the `i` flag and without
      the `u` flag folds case for ASCII letters only. */
  function LowerAscii(c: char): (r: char)
    ensures 'A' <= c <= 'Z' ==> r as int == c as int + 32
    ensures !('A' <= c <= 'Z') ==> r == c
  {
    if 'A' <= c <= 'Z' then (c as int + 32) as char else c
  }

  function Lower(s: string): (r: string)
    ensures |r| == |s|
    ensures forall k :: 0 <= k < |s| ==> r[k] == LowerAscii(s[k])
  {
    seq(|s|, k requires 0 <= k < |s| => LowerAscii(s[k]))
  }

  /** `s` ends with `suffix` when both are compared case-insensitively;
      `suffix` is written in lower case. */
  predicate EndsWithIgnoreCase(s: string, suffix: string) {
    |suffix| <= |s| && Lower(s[|s| - |suffix|..]) == suffix
  }
}
