/** String helpers the tag code relies on: Ruby's `String#strip` and
    `String#downcase` (the Ruby 1.9 ASCII behaviour), Rails' `String#blank?`,
    and the case-insensitive comparisons that stand for the database's
    `=`, `LIKE` and `LIKE '%x%'` under a case-insensitive collation. */
module Text {

  /** The characters Ruby treats as ASCII whitespace: space, tab, line feed,
      vertical tab, form feed and carriage return. */
  predicate IsSpace(c: char) {
    c == ' ' || c == '\t' || c == '\n' || c == '\U{B}' || c == '\U{C}' || c == '\r'
  }

  /** `String#rstrip` also drops trailing NUL characters. */
  predicate IsTrailingJunk(c: char) {
    IsSpace(c) || c == '\0'
  }

  /** `lstrip`: removes the longest all-whitespace prefix. */
  function TrimLeft(s: string): string {
    if s != [] && IsSpace(s[0]) then TrimLeft(s[1..]) else s
  }

  /** `lstrip` keeps a suffix, everything it drops is whitespace, and what it
      keeps does not start with whitespace. */
  lemma {:induction false} TrimLeftMeaning(s: string)
    ensures var r := TrimLeft(s);
      |r| <= |s| && r == s[|s| - |r|..] &&
      (forall i :: 0 <= i < |s| - |r| ==> IsSpace(s[i])) &&
      (r != [] ==> !IsSpace(r[0]))
  {
    if s != [] && IsSpace(s[0]) {
      TrimLeftMeaning(s[1..]);
      var r := TrimLeft(s);
      forall i | 0 <= i < |s| - |r| ensures IsSpace(s[i]) {
        if i > 0 { assert s[i] == s[1..][i - 1]; }
      }
    }
  }

  /** `rstrip`: removes the longest suffix of whitespace and NUL characters. */
  function TrimRight(s: string): string {
    if s != [] && IsTrailingJunk(s[|s| - 1]) then TrimRight(s[..|s| - 1]) else s
  }

  /** `rstrip` keeps a prefix, everything it drops is whitespace or NUL, and
      what it keeps does not end with either. */
  lemma {:induction false} TrimRightMeaning(s: string)
    ensures var r := TrimRight(s);
      |r| <= |s| && r == s[..|r|] &&
      (forall i :: |r| <= i < |s| ==> IsTrailingJunk(s[i])) &&
      (r != [] ==> !IsTrailingJunk(r[|r| - 1]))
  {
    if s != [] && IsTrailingJunk(s[|s| - 1]) {
      TrimRightMeaning(s[..|s| - 1]);
      var r := TrimRight(s);
      forall i | |r| <= i < |s| ensures IsTrailingJunk(s[i]) {
        if i < |s| - 1 { assert s[i] == s[..|s| - 1][i]; }
      }
    }
  }

  /** `String#strip`: the left offset is found first, then the right one. */
  function Strip(s: string): (r: string)
    ensures |r| <= |s|
    ensures r != [] ==> !IsSpace(r[0]) && !IsTrailingJunk(r[|r| - 1])
  {
    TrimLeftMeaning(s);
    TrimRightMeaning(TrimLeft(s));
    var r := TrimRight(TrimLeft(s));
    assert r != [] ==> r[0] == TrimLeft(s)[0];
    r
  }

  /** Rails' `String#blank?`: no character outside ASCII whitespace. */
  predicate Blank(s: string) {
    forall i :: 0 <= i < |s| ==> IsSpace(s[i])
  }

  /** A stripped string is blank exactly when it is empty, so the presence
      validation on a stripped name rejects only the empty name. */
  lemma StripBlankIffEmpty(s: string)
    ensures Blank(Strip(s)) <==> Strip(s) == []
  {
    var l := TrimLeft(s);
    var r := TrimRight(l);
    TrimLeftMeaning(s);
    TrimRightMeaning(l);
    if r != [] {
      assert r[0] == l[0];
      assert !IsSpace(r[0]);
    }
  }

  /** Strip leaves a string with no leading whitespace and no trailing
      whitespace or NUL, cut out of the middle of the original. */
  lemma StripShape(s: string)
    ensures var r := Strip(s);
      |r| <= |s| &&
      (exists k: nat :: OccursAt(s, r, k)) &&
      (r != [] ==> !IsSpace(r[0]) && !IsTrailingJunk(r[|r| - 1]))
  {
    var l := TrimLeft(s);
    var r := TrimRight(l);
    TrimLeftMeaning(s);
    TrimRightMeaning(l);
    var k := |s| - |l|;
    assert OccursAt(s, r, k);
    if r != [] {
      assert r[0] == l[0];
    }
  }

  /** Strip is idempotent: a stored name is its own stripped form. */
  lemma StripIdempotent(s: string)
    ensures Strip(Strip(s)) == Strip(s)
  {
    var r := Strip(s);
    StripShape(s);
    if r != [] {
      assert TrimLeft(r) == r;
      assert TrimRight(r) == r;
    }
  }

  /** Strip removes exactly the padding: leading whitespace and trailing
      whitespace or NUL around a text that neither starts with whitespace
      nor ends with whitespace or NUL. */
  lemma StripPadding(p: string, s: string, q: string)
    requires forall i :: 0 <= i < |p| ==> IsSpace(p[i])
    requires forall i :: 0 <= i < |q| ==> IsTrailingJunk(q[i])
    requires s != [] && !IsSpace(s[0]) && !IsTrailingJunk(s[|s| - 1])
    ensures Strip(p + s + q) == s
  {
    var whole := p + s + q;
    TrimLeftMeaning(whole);
    TrimRightMeaning(s + q);
    assert whole[|p|] == s[0];
    assert TrimLeft(whole) == s + q;
    assert (s + q)[|s| - 1] == s[|s| - 1];
    assert TrimRight(s + q) == s;
  }

  /** ASCII lowercase of one character; everything outside A-Z is unchanged. */
  function Lower(c: char): char {
    if 'A' <= c <= 'Z' then (c as int + 32) as char else c
  }

  /** `String#downcase` (Ruby 1.9 and later on ASCII), used by `comparable_name`. */
  function Downcase(s: string): (r: string)
    ensures |r| == |s|
    ensures forall i :: 0 <= i < |s| ==> r[i] == Lower(s[i])
  {
    if s == [] then [] else [Lower(s[0])] + Downcase(s[1..])
  }

  /** Downcasing twice is downcasing once. */
  lemma DowncaseIdempotent(s: string)
    ensures Downcase(Downcase(s)) == Downcase(s)
  {
    var d := Downcase(s);
    assert forall i :: 0 <= i < |d| ==> Lower(d[i]) == d[i];
  }

  /** Downcasing commutes with concatenation. */
  lemma {:induction false} DowncaseAppend(a: string, b: string)
    ensures Downcase(a + b) == Downcase(a) + Downcase(b)
  {
    var l := Downcase(a + b);
    var r := Downcase(a) + Downcase(b);
    assert |l| == |r|;
    forall i | 0 <= i < |l| ensures l[i] == r[i] {
      if i < |a| { assert (a + b)[i] == a[i]; } else { assert (a + b)[i] == b[i - |a|]; }
    }
  }

  /** The database's `=` and `LIKE` without wildcards, under a
      case-insensitive collation: equal after ASCII lowercasing. */
  predicate SameName(column: string, value: string) {
    Downcase(column) == Downcase(value)
  }

  /** `needle` occurs in `hay` starting at `i`. */
  predicate OccursAt(hay: string, needle: string, i: nat) {
    i + |needle| <= |hay| && hay[i..i + |needle|] == needle
  }

  /** Plain substring test. */
  predicate Contains(hay: string, needle: string)
    decreases |hay|
  {
    needle <= hay || (hay != [] && Contains(hay[1..], needle))
  }

  /** The database's `LIKE '%x%'` under a case-insensitive collation, with the
      query text taken literally. */
  predicate NameContains(column: string, query: string) {
    Contains(Downcase(column), Downcase(query))
  }

  /** A needle with a character the hay lacks does not occur in it. */
  lemma {:induction false} NotContainsMissingChar(hay: string, needle: string, k: nat)
    requires k < |needle| && needle[k] !in hay
    ensures !Contains(hay, needle)
    decreases |hay|
  {
    if hay != [] {
      NotContainsMissingChar(hay[1..], needle, k);
    }
  }

  /** `LIKE '%x%'` fails when some character of the query matches no
      character of the name, case aside. */
  lemma NameLacksChar(column: string, query: string, k: nat)
    requires k < |query|
    requires forall i :: 0 <= i < |column| ==> Lower(column[i]) != Lower(query[k])
    ensures !NameContains(column, query)
  {
    NotContainsMissingChar(Downcase(column), Downcase(query), k);
  }

  /** Any name matched by `=` is matched by `LIKE '%x%'` as well: a
      case-insensitive substring search finds the exact name too. */
  lemma SameNameContains(column: string, query: string)
    requires SameName(column, query)
    ensures NameContains(column, query)
  {
    assert Downcase(query) <= Downcase(column);
  }
}
