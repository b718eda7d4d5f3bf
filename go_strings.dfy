/**
 * The parts of Go's `strings` package the reconciler relies on, over runes:
 * `strings.Split` with a one-rune separator, its inverse `Join`, and
 * `strings.TrimSpace` with Go's `unicode.IsSpace` as the whitespace test.
 */
module GoStrings {

  /** Go's `unicode.IsSpace`: the Latin-1 spaces plus Unicode's White_Space property. */
  predicate IsSpace(c: char) {
    var n := c as int;
    || (0x09 <= n <= 0x0D) || n == 0x20 || n == 0x85 || n == 0xA0
    || n == 0x1680 || (0x2000 <= n <= 0x200A) || n == 0x2028 || n == 0x2029
    || n == 0x202F || n == 0x205F || n == 0x3000
  }

  predicate AllSpace(s: string) {
    forall k :: 0 <= k < |s| ==> IsSpace(s[k])
  }

  /** Neither starts nor ends with whitespace. */
  predicate Trimmed(s: string) {
    s == [] || (!IsSpace(s[0]) && !IsSpace(s[|s| - 1]))
  }

  // ---------------------------------------------------------------------------
  // Split and Join

  /** Number of occurrences of `sep` in `s`. */
  function Count(s: string, sep: char): nat {
    if s == [] then 0 else (if s[0] == sep then 1 else 0) + Count(s[1..], sep)
  }

  lemma {:induction false} CountConcat(a: string, b: string, sep: char)
    ensures Count(a + b, sep) == Count(a, sep) + Count(b, sep)
  {
    if a != [] {
      assert (a + b)[1..] == a[1..] + b;
      CountConcat(a[1..], b, sep);
    } else {
      assert a + b == b;
    }
  }

  lemma {:induction false} CountPositive(s: string, sep: char)
    ensures sep in s <==> Count(s, sep) > 0
  {
    if s != [] {
      CountPositive(s[1..], sep);
      assert s == [s[0]] + s[1..];
    }
  }

  /** `tokens` glued back together with `sep` between neighbours. */
  function Join(tokens: seq<string>, sep: char): string {
    if |tokens| <= 1 then (if tokens == [] then "" else tokens[0])
    else tokens[0] + [sep] + Join(tokens[1..], sep)
  }

  /**
   * Go's `strings.Split(s, string(sep))`: the maximal `sep`-free pieces of `s`.
   * There is always one token more than there are separators, so the empty
   * string splits into one empty token.
   */
  function Split(s: string, sep: char): (tokens: seq<string>)
    ensures |tokens| == Count(s, sep) + 1
    ensures forall k :: 0 <= k < |tokens| ==> sep !in tokens[k]
    ensures Join(tokens, sep) == s
    decreases |s|
  {
    if s == [] then [""]
    else
      var rest := Split(s[1..], sep);
      if s[0] == sep then
        assert s == [sep] + Join(rest, sep);
        [""] + rest
      else
        assert s == [s[0]] + s[1..];
        [[s[0]] + rest[0]] + rest[1..]
  }

  /** Splitting a string that begins with a separator-free prefix `a`. */
  lemma {:induction false} SplitPrefix(a: string, rest: string, sep: char)
    requires sep !in a
    ensures var t := Split(rest, sep);
            Split(a + rest, sep) == [a + t[0]] + t[1..]
    decreases |a|
  {
    if a != [] {
      var t := Split(rest, sep);
      assert (a + rest)[0] == a[0] != sep;
      assert (a + rest)[1..] == a[1..] + rest;
      SplitPrefix(a[1..], rest, sep);
      var inner := Split(a[1..] + rest, sep);
      assert inner == [a[1..] + t[0]] + t[1..];
      assert Split(a + rest, sep) == [[a[0]] + inner[0]] + inner[1..];
      assert inner[1..] == t[1..];
      assert [a[0]] + (a[1..] + t[0]) == a + t[0];
    } else {
      var t := Split(rest, sep);
      assert a + rest == rest && a + t[0] == t[0];
      assert [t[0]] + t[1..] == t;
    }
  }

  /** A string without separators is a single token. */
  lemma SplitNoSeparator(b: string, sep: char)
    requires sep !in b
    ensures Split(b, sep) == [b]
  {
    SplitPrefix(b, "", sep);
    assert b + "" == b;
  }

  /** A leading separator contributes an empty first token. */
  lemma SplitLeadingSeparator(b: string, sep: char)
    requires sep !in b
    ensures Split([sep] + b, sep) == ["", b]
  {
    var rest := [sep] + b;
    SplitNoSeparator(b, sep);
    assert rest[1..] == b;
  }

  lemma ConcatAssociates(a: string, b: string, sep: char)
    ensures a + [sep] + b == a + ([sep] + b)
  {
  }

  /** A string with exactly one separator between two separator-free parts splits into exactly those parts. */
  lemma SplitPair(a: string, b: string, sep: char)
    requires sep !in a && sep !in b
    ensures Split(a + [sep] + b, sep) == [a, b]
  {
    SplitLeadingSeparator(b, sep);
    SplitPrefix(a, [sep] + b, sep);
    assert a + "" == a;
    ConcatAssociates(a, b, sep);
  }

  /** A two-token split is the string cut at its only separator. */
  lemma SplitTwoTokens(s: string, sep: char)
    requires |Split(s, sep)| == 2
    ensures var t := Split(s, sep);
            s == t[0] + [sep] + t[1] && sep !in t[0] && sep !in t[1]
  {
    var t := Split(s, sep);
    assert t[1..] == [t[1]];
    assert Join(t[1..], sep) == t[1];
  }

  // ---------------------------------------------------------------------------
  // TrimSpace

  /** `s` with its leading whitespace removed. */
  function TrimLeft(s: string): string {
    if s != [] && IsSpace(s[0]) then TrimLeft(s[1..]) else s
  }

  /** `s` with its trailing whitespace removed. */
  function TrimRight(s: string): string {
    if s != [] && IsSpace(s[|s| - 1]) then TrimRight(s[..|s| - 1]) else s
  }

  /** Go's `strings.TrimSpace`. */
  function TrimSpace(s: string): string {
    TrimRight(TrimLeft(s))
  }

  /** TrimLeft drops a whitespace-only prefix and stops at the first non-space rune. */
  lemma {:induction false} TrimLeftDropsSpacePrefix(s: string)
    ensures var r := TrimLeft(s);
      && |r| <= |s| && r == s[|s| - |r|..]
      && AllSpace(s[..|s| - |r|])
      && (r == [] || !IsSpace(r[0]))
  {
    if s != [] && IsSpace(s[0]) {
      TrimLeftDropsSpacePrefix(s[1..]);
      var r := TrimLeft(s[1..]);
      assert s[..|s| - |r|] == [s[0]] + s[1..][..|s| - 1 - |r|];
    }
  }

  /** TrimRight drops a whitespace-only suffix and stops at the last non-space rune. */
  lemma {:induction false} TrimRightDropsSpaceSuffix(s: string)
    ensures var r := TrimRight(s);
      && |r| <= |s| && r == s[..|r|]
      && AllSpace(s[|r|..])
      && (r == [] || !IsSpace(r[|r| - 1]))
  {
    if s != [] && IsSpace(s[|s| - 1]) {
      TrimRightDropsSpaceSuffix(s[..|s| - 1]);
      var r := TrimRight(s[..|s| - 1]);
      assert s[|r|..] == s[..|s| - 1][|r|..] + [s[|s| - 1]];
    }
  }

  /**
   * `r` is what is left of `s` once the whitespace at both ends is cut off:
   * an infix of `s`, with only whitespace around it and none at its own ends.
   */
  ghost predicate IsTrimOf(s: string, r: string) {
    exists i, j :: 0 <= i <= j <= |s| && r == s[i..j]
      && AllSpace(s[..i]) && AllSpace(s[j..]) && Trimmed(r)
  }

  /** TrimSpace cuts exactly the surrounding whitespace. */
  lemma TrimSpaceIsTrim(s: string)
    ensures IsTrimOf(s, TrimSpace(s))
  {
    var l := TrimLeft(s);
    TrimLeftDropsSpacePrefix(s);
    var r := TrimRight(l);
    TrimRightDropsSpaceSuffix(l);
    var i := |s| - |l|;
    assert r == s[i..i + |r|];
    assert s[i + |r|..] == l[|r|..];
    assert r == [] || r[0] == l[0];
    assert AllSpace(s[..i]) && AllSpace(s[i + |r|..]) && Trimmed(r);
  }

  /** Where the cut points of a trim lie: only whitespace outside them, none just inside. */
  lemma TrimBounds(s: string, r: string, i: int, j: int)
    requires 0 <= i <= j <= |s| && r == s[i..j]
    requires AllSpace(s[..i]) && AllSpace(s[j..]) && Trimmed(r)
    ensures forall k :: 0 <= k < i ==> IsSpace(s[k])
    ensures forall k :: j <= k < |s| ==> IsSpace(s[k])
    ensures r != [] ==> !IsSpace(s[i]) && !IsSpace(s[j - 1])
    ensures r == [] <==> AllSpace(s)
  {
    forall k | 0 <= k < i ensures IsSpace(s[k]) {
      assert s[..i][k] == s[k];
    }
    forall k | j <= k < |s| ensures IsSpace(s[k]) {
      assert s[j..][k - j] == s[k];
    }
  }

  /** There is only one way to trim a string. */
  lemma TrimOfUnique(s: string, r1: string, r2: string)
    requires IsTrimOf(s, r1) && IsTrimOf(s, r2)
    ensures r1 == r2
  {
    var i1, j1 :| 0 <= i1 <= j1 <= |s| && r1 == s[i1..j1]
      && AllSpace(s[..i1]) && AllSpace(s[j1..]) && Trimmed(r1);
    var i2, j2 :| 0 <= i2 <= j2 <= |s| && r2 == s[i2..j2]
      && AllSpace(s[..i2]) && AllSpace(s[j2..]) && Trimmed(r2);
    TrimBounds(s, r1, i1, j1);
    TrimBounds(s, r2, i2, j2);
    if r1 != [] && r2 != [] {
      assert i1 == i2 && j1 == j2;
    }
  }

  /** Trimming a string padded with whitespace on both sides gives back the trimmed middle. */
  lemma TrimSpacePadded(pre: string, x: string, post: string)
    requires AllSpace(pre) && AllSpace(post) && Trimmed(x)
    ensures TrimSpace(pre + x + post) == x
  {
    var s := pre + x + post;
    assert s[|pre|..|pre| + |x|] == x;
    assert s[..|pre|] == pre;
    assert s[|pre| + |x|..] == post;
    assert IsTrimOf(s, x);
    TrimSpaceIsTrim(s);
    TrimOfUnique(s, x, TrimSpace(s));
  }

  /** TrimSpace is idempotent, and what it returns is trimmed. */
  lemma TrimSpaceIdempotent(s: string)
    ensures Trimmed(TrimSpace(s))
    ensures TrimSpace(TrimSpace(s)) == TrimSpace(s)
  {
    var r := TrimSpace(s);
    TrimSpaceIsTrim(s);
    TrimSpacePadded("", r, "");
    assert "" + r + "" == r;
  }

  /** TrimSpace removes exactly the whitespace: it yields "" precisely for all-whitespace input. */
  lemma TrimSpaceEmpty(s: string)
    ensures TrimSpace(s) == [] <==> AllSpace(s)
  {
    var r := TrimSpace(s);
    if AllSpace(s) {
      TrimSpacePadded(s, "", "");
      assert s + "" + "" == s;
    }
    TrimSpaceIsTrim(s);
    var i, j :| 0 <= i <= j <= |s| && r == s[i..j]
      && AllSpace(s[..i]) && AllSpace(s[j..]) && Trimmed(r);
    TrimBounds(s, r, i, j);
  }
}
