/** The string vocabulary shared by the nine verifiers: ASCII case mapping, trimming with
    each language's whitespace set, splitting on a separator (and the three ways some
    languages drop empty trailing pieces), joining without a trailing separator, and
    single-character replacement. Strings are `seq<char>`; case mapping and whitespace are
    modelled on ASCII only. */
module Text {

  // ---------------------------------------------------------------------------------------
  // Case mapping (ASCII)
  // ---------------------------------------------------------------------------------------

  predicate IsUpperAscii(c: char) { 'A' <= c <= 'Z' }

  predicate IsLowerAscii(c: char) { 'a' <= c <= 'z' }

  function LowerChar(c: char): char {
    if IsUpperAscii(c) then (c as int + 32) as char else c
  }

  function UpperChar(c: char): char {
    if IsLowerAscii(c) then (c as int - 32) as char else c
  }

  /** toLowerCase / ToLower / lowercase / to_lowercase / lower / downcase / strtolower. */
  function Lower(s: string): (r: string)
    ensures |r| == |s|
    ensures forall i :: 0 <= i < |s| ==> r[i] == LowerChar(s[i])
  {
    seq(|s|, i requires 0 <= i < |s| => LowerChar(s[i]))
  }

  /** upcase. */
  function Upper(s: string): (r: string)
    ensures |r| == |s|
    ensures forall i :: 0 <= i < |s| ==> r[i] == UpperChar(s[i])
  {
    seq(|s|, i requires 0 <= i < |s| => UpperChar(s[i]))
  }

  /** A string that lower-casing leaves alone. */
  predicate IsLowerCase(s: string) {
    forall i :: 0 <= i < |s| ==> !IsUpperAscii(s[i])
  }

  /** Lower-casing produces a lower-case string and changes nothing already lower-case;
      hence it is idempotent. */
  lemma LowerIsLowerCase(s: string)
    ensures IsLowerCase(Lower(s))
    ensures Lower(Lower(s)) == Lower(s)
    ensures IsLowerCase(s) ==> Lower(s) == s
  {
  }

  lemma LowerAppend(a: string, b: string)
    ensures Lower(a + b) == Lower(a) + Lower(b)
  {
  }

  /** Ordinal case-insensitive equality (C#'s StringComparison.OrdinalIgnoreCase on ASCII). */
  predicate EqualsIgnoreCase(a: string, b: string) {
    Lower(a) == Lower(b)
  }

  // ---------------------------------------------------------------------------------------
  // Whitespace sets: what each language's trim removes, on the ASCII range
  // ---------------------------------------------------------------------------------------

  /** char.IsWhiteSpace (C#), unicode.IsSpace (Go) and char::is_whitespace (Rust):
      tab, line feed, vertical tab, form feed, carriage return and space. */
  predicate IsAsciiSpace(c: char) { 9 <= c as int <= 13 || c == ' ' }

  /** Java's String.trim removes every character up to and including U+0020. */
  predicate IsJavaTrimmable(c: char) { c as int <= 32 }

  /** Kotlin's Char.isWhitespace and Python's str.isspace also count the four information
      separators U+001C to U+001F. */
  predicate IsSeparatorSpace(c: char) { IsAsciiSpace(c) || 28 <= c as int <= 31 }

  /** PHP's trim default set: space, tab, line feed, carriage return, NUL, vertical tab
      (not form feed). */
  predicate IsPhpTrimmable(c: char) {
    c == ' ' || c == '\t' || c == '\n' || c == '\r' || c == '\0' || c as int == 11
  }

  /** Ruby's strip: NUL and the ASCII whitespace characters. */
  predicate IsRubySpace(c: char) { c == '\0' || IsAsciiSpace(c) }

  /** A string with no character up to U+0020 at either end: no language's trim changes it. */
  predicate IsBare(s: string) {
    |s| == 0 || (s[0] as int > 32 && s[|s| - 1] as int > 32)
  }

  // ---------------------------------------------------------------------------------------
  // Trimming
  // ---------------------------------------------------------------------------------------

  /** Removes the longest prefix of characters in `ws`. */
  function TrimStart(s: string, ws: char -> bool): (r: string)
    ensures |r| <= |s| && r == s[|s| - |r|..]
    ensures |r| == 0 || !ws(r[0])
    ensures forall i :: 0 <= i < |s| - |r| ==> ws(s[i])
    decreases |s|
  {
    if |s| > 0 && ws(s[0]) then TrimStart(s[1..], ws) else s
  }

  /** Removes the longest suffix of characters in `ws`. */
  function TrimEnd(s: string, ws: char -> bool): (r: string)
    ensures |r| <= |s| && r == s[..|r|]
    ensures |r| == 0 || !ws(r[|r| - 1])
    ensures forall i :: |r| <= i < |s| ==> ws(s[i])
    decreases |s|
  {
    if |s| > 0 && ws(s[|s| - 1]) then TrimEnd(s[..|s| - 1], ws) else s
  }

  /** The number of leading characters in `ws`. */
  function LeadingCount(s: string, ws: char -> bool): (n: nat)
    ensures n <= |s|
    ensures forall i :: 0 <= i < n ==> ws(s[i])
    ensures n == |s| || !ws(s[n])
    decreases |s|
  {
    if |s| > 0 && ws(s[0]) then 1 + LeadingCount(s[1..], ws) else 0
  }

  /** TrimStart removes exactly the leading run: both are the longest prefix of `ws`
      characters. */
  lemma TrimStartDropsLeading(s: string, ws: char -> bool)
    ensures TrimStart(s, ws) == s[LeadingCount(s, ws)..]
  {
  }

  /** Removes the characters in `ws` from both ends: the result neither starts nor ends
      with one (TrimInfix says which infix of `s` it is). */
  function Trim(s: string, ws: char -> bool): (r: string)
    ensures |r| <= |s|
    ensures |r| == 0 || (!ws(r[0]) && !ws(r[|r| - 1]))
  {
    var t := TrimStart(s, ws);
    var r := TrimEnd(t, ws);
    assert |r| == 0 || r[0] == t[0];
    r
  }

  /** The trim is the infix of `s` that starts after the leading run of `ws` characters and
      is followed only by `ws` characters. */
  lemma TrimInfix(s: string, ws: char -> bool, k: nat, r: string)
    requires k == LeadingCount(s, ws) && r == Trim(s, ws)
    ensures k + |r| <= |s|
    ensures r == s[k..k + |r|]
    ensures forall i :: k + |r| <= i < |s| ==> ws(s[i])
  {
    var t := TrimStart(s, ws);
    assert r == TrimEnd(t, ws);
    TrimShape(s, ws, k, t, r);
  }

  /** TrimInfix with the intermediate TrimStart named: also neither end of the result is a
      `ws` character. */
  lemma TrimShape(s: string, ws: char -> bool, k: nat, t: string, r: string)
    requires k == LeadingCount(s, ws) && t == TrimStart(s, ws) && r == TrimEnd(t, ws)
    ensures k + |r| <= |s|
    ensures r == s[k..k + |r|]
    ensures forall i :: k + |r| <= i < |s| ==> ws(s[i])
    ensures |r| == 0 || (!ws(r[0]) && !ws(r[|r| - 1]))
  {
    assert |r| == 0 || r[0] == t[0];
    TrimStartDropsLeading(s, ws);
    PrefixOfSuffix(s, k, t, r, ws);
  }

  /** A prefix `r` of the suffix `t` of `s` from `k`, followed in `t` only by `ws`
      characters, is the infix of `s` from `k`, followed in `s` only by `ws` characters. */
  lemma PrefixOfSuffix(s: string, k: nat, t: string, r: string, ws: char -> bool)
    requires k <= |s| && t == s[k..]
    requires |r| <= |t| && r == t[..|r|]
    requires forall i :: |r| <= i < |t| ==> ws(t[i])
    ensures r == s[k..k + |r|]
    ensures forall i :: k + |r| <= i < |s| ==> ws(s[i])
  {
    forall i | k + |r| <= i < |s|
      ensures ws(s[i])
    {
      assert s[i] == t[i - k];
    }
  }

  /** A string with no `ws` character at either end is its own trim; in particular trimming
      is idempotent. */
  lemma TrimOfTrimmed(s: string, ws: char -> bool)
    requires |s| == 0 || (!ws(s[0]) && !ws(s[|s| - 1]))
    ensures Trim(s, ws) == s
  {
  }

  lemma TrimIdempotent(s: string, ws: char -> bool)
    ensures Trim(Trim(s, ws), ws) == Trim(s, ws)
  {
    TrimOfTrimmed(Trim(s, ws), ws);
  }

  /** A bare string is left alone by every trim whose set lies within U+0000..U+0020. */
  lemma TrimOfBare(s: string, ws: char -> bool)
    requires IsBare(s)
    requires forall c :: ws(c) ==> c as int <= 32
    ensures Trim(s, ws) == s
  {
    TrimOfTrimmed(s, ws);
  }

  /** Each language's set lies within U+0000..U+0020. */
  lemma SpaceSetsAreLow()
    ensures forall c :: IsAsciiSpace(c) ==> c as int <= 32
    ensures forall c :: IsJavaTrimmable(c) ==> c as int <= 32
    ensures forall c :: IsSeparatorSpace(c) ==> c as int <= 32
    ensures forall c :: IsPhpTrimmable(c) ==> c as int <= 32
    ensures forall c :: IsRubySpace(c) ==> c as int <= 32
  {
  }

  /** Lower-casing before or after trimming gives the same string, for any set that contains
      no letter (Python lower-cases then strips for the emitted name, but strips then
      lower-cases for the membership test). */
  lemma {:induction false} LowerTrimCommute(s: string, ws: char -> bool)
    requires forall c :: ws(c) ==> c as int <= 32
    ensures Lower(Trim(s, ws)) == Trim(Lower(s), ws)
  {
    LowerTrimStartCommute(s, ws);
    LowerTrimEndCommute(TrimStart(s, ws), ws);
  }

  lemma {:induction false} LowerTrimStartCommute(s: string, ws: char -> bool)
    requires forall c :: ws(c) ==> c as int <= 32
    ensures Lower(TrimStart(s, ws)) == TrimStart(Lower(s), ws)
    decreases |s|
  {
    if |s| > 0 {
      assert LowerChar(s[0]) == s[0] || (IsUpperAscii(s[0]) && !ws(s[0]) && !ws(LowerChar(s[0])));
      if ws(s[0]) {
        assert Lower(s)[1..] == Lower(s[1..]);
        LowerTrimStartCommute(s[1..], ws);
      }
    }
  }

  lemma {:induction false} LowerTrimEndCommute(s: string, ws: char -> bool)
    requires forall c :: ws(c) ==> c as int <= 32
    ensures Lower(TrimEnd(s, ws)) == TrimEnd(Lower(s), ws)
    decreases |s|
  {
    if |s| > 0 {
      var last := s[|s| - 1];
      assert LowerChar(last) == last || (IsUpperAscii(last) && !ws(last) && !ws(LowerChar(last)));
      if ws(last) {
        assert Lower(s)[..|s| - 1] == Lower(s[..|s| - 1]);
        LowerTrimEndCommute(s[..|s| - 1], ws);
      }
    }
  }

  // ---------------------------------------------------------------------------------------
  // Splitting and joining
  // ---------------------------------------------------------------------------------------

  /** Splits on every occurrence of `sep`, keeping empty pieces: String.Split (C#),
      strings.Split (Go), split (Kotlin, Rust, Python) and explode (PHP). */
  function Split(s: string, sep: char): (r: seq<string>)
    ensures |r| >= 1
    ensures forall i :: 0 <= i < |r| ==> sep !in r[i]
    decreases |s|
  {
    if |s| == 0 then [[]]
    else
      var rest := Split(s[1..], sep);
      if s[0] == sep then [[]] + rest
      else [[s[0]] + rest[0]] + rest[1..]
  }

  /** The pieces separated by `sep`, with no separator before the first or after the last. */
  function Join(parts: seq<string>, sep: char): (r: string)
    decreases |parts|
  {
    if |parts| == 0 then []
    else if |parts| == 1 then parts[0]
    else parts[0] + [sep] + Join(parts[1..], sep)
  }

  /** Appending a piece adds exactly one separator, between the old last piece and the new
      one: there is never a trailing separator. */
  lemma {:induction false} JoinSnoc(parts: seq<string>, p: string, sep: char)
    requires |parts| >= 1
    ensures Join(parts + [p], sep) == Join(parts, sep) + [sep] + p
    decreases |parts|
  {
    if |parts| == 1 {
      assert parts + [p] == [parts[0], p];
      assert Join([p], sep) == p;
    } else {
      assert (parts + [p])[1..] == parts[1..] + [p];
      JoinSnoc(parts[1..], p, sep);
    }
  }

  lemma JoinLength(parts: seq<string>, sep: char)
    ensures |parts| >= 1 ==> |Join(parts, sep)| >= |parts| - 1
  {
  }

  lemma {:induction false} JoinConsChar(c: char, p: string, rest: seq<string>, sep: char)
    ensures Join([[c] + p] + rest, sep) == [c] + Join([p] + rest, sep)
  {
    if |rest| == 0 {
      assert [[c] + p] + rest == [[c] + p];
      assert [p] + rest == [p];
    } else {
      assert ([[c] + p] + rest)[1..] == rest;
      assert ([p] + rest)[1..] == rest;
    }
  }

  /** Joining the pieces of a split gives back the original string. */
  lemma {:induction false} JoinSplit(s: string, sep: char)
    ensures Join(Split(s, sep), sep) == s
    decreases |s|
  {
    if |s| > 0 {
      var rest := Split(s[1..], sep);
      JoinSplit(s[1..], sep);
      if s[0] == sep {
        assert ([[]] + rest)[1..] == rest;
        assert s == [sep] + s[1..];
      } else {
        assert rest == [rest[0]] + rest[1..];
        JoinConsChar(s[0], rest[0], rest[1..], sep);
        assert s == [s[0]] + s[1..];
      }
    }
  }

  lemma {:induction false} SplitNoSep(p: string, sep: char)
    requires sep !in p
    ensures Split(p, sep) == [p]
    decreases |p|
  {
    if |p| > 0 {
      SplitNoSep(p[1..], sep);
      assert p == [p[0]] + p[1..];
    }
  }

  lemma {:induction false} SplitAfterPiece(p: string, sep: char, t: string)
    requires sep !in p
    ensures Split(p + [sep] + t, sep) == [p] + Split(t, sep)
    decreases |p|
  {
    var s := p + [sep] + t;
    if |p| == 0 {
      assert s[1..] == t;
    } else {
      assert s[1..] == p[1..] + [sep] + t;
      SplitAfterPiece(p[1..], sep, t);
      assert [p[0]] + p[1..] == p;
    }
  }

  /** Splitting a join gives back the pieces, provided there is at least one piece and no
      piece contains the separator. */
  lemma {:induction false} SplitJoin(parts: seq<string>, sep: char)
    requires |parts| >= 1
    requires forall i :: 0 <= i < |parts| ==> sep !in parts[i]
    ensures Split(Join(parts, sep), sep) == parts
    decreases |parts|
  {
    if |parts| == 1 {
      SplitNoSep(parts[0], sep);
    } else {
      SplitJoin(parts[1..], sep);
      SplitAfterPiece(parts[0], sep, Join(parts[1..], sep));
      assert parts == [parts[0]] + parts[1..];
    }
  }

  /** The last piece is empty exactly when the string is empty or ends with the separator. */
  lemma {:induction false} SplitLastEmpty(s: string, sep: char)
    ensures Split(s, sep)[|Split(s, sep)| - 1] == [] <==> (|s| == 0 || s[|s| - 1] == sep)
    decreases |s|
  {
    if |s| > 0 {
      var rest := Split(s[1..], sep);
      SplitLastEmpty(s[1..], sep);
      if s[0] != sep && |rest| == 1 {
        JoinSplit(s[1..], sep);
        assert Join(rest, sep) == rest[0];
        if |s| > 1 {
          assert s[|s| - 1] == rest[0][|rest[0]| - 1];
        }
      }
    }
  }

  /** A separator at the end adds one empty piece. */
  lemma {:induction false} SplitSnocSep(s: string, sep: char)
    ensures Split(s + [sep], sep) == Split(s, sep) + [[]]
    decreases |s|
  {
    if |s| > 0 {
      assert (s + [sep])[1..] == s[1..] + [sep];
      SplitSnocSep(s[1..], sep);
    }
  }

  /** Drops every empty piece at the end (Java's String.split and Ruby's String#split). */
  function DropTrailingEmpty(parts: seq<string>): (r: seq<string>)
    ensures |r| <= |parts| && r == parts[..|r|]
    ensures |r| == 0 || r[|r| - 1] != []
    ensures forall i :: |r| <= i < |parts| ==> parts[i] == []
    decreases |parts|
  {
    if |parts| > 0 && parts[|parts| - 1] == [] then DropTrailingEmpty(parts[..|parts| - 1])
    else parts
  }

  /** Drops one empty piece at the end, if there is one (std::getline on a delimiter stops
      at end of input without yielding a token when nothing was read). */
  function DropLastEmpty(parts: seq<string>): seq<string> {
    if |parts| > 0 && parts[|parts| - 1] == [] then parts[..|parts| - 1] else parts
  }

  // ---------------------------------------------------------------------------------------
  // Mapping and single-character replacement
  // ---------------------------------------------------------------------------------------

  function Map<A, B>(f: A -> B, s: seq<A>): (r: seq<B>)
    ensures |r| == |s|
    ensures forall i :: 0 <= i < |s| ==> r[i] == f(s[i])
  {
    seq(|s|, i requires 0 <= i < |s| => f(s[i]))
  }

  /** The elements satisfying `p`, in order: each one is kept as often as it occurs
      (FilterCounts), and the filter of a concatenation is the concatenation of the filters
      (FilterAppend). */
  function Filter<A>(p: A -> bool, s: seq<A>): (r: seq<A>)
    ensures |r| <= |s|
    ensures forall i :: 0 <= i < |r| ==> p(r[i]) && r[i] in s
    ensures forall x :: x in s && p(x) ==> x in r
    decreases |s|
  {
    if |s| == 0 then []
    else
      var r := Filter(p, s[..|s| - 1]);
      assert forall x :: x in s[..|s| - 1] ==> x in s;
      assert forall x :: x in s ==> x in s[..|s| - 1] || x == s[|s| - 1];
      if p(s[|s| - 1]) then r + [s[|s| - 1]] else r
  }

  /** Filtering drops every element failing `p` and keeps every other one as often as it
      occurs in the input. */
  lemma {:induction false} FilterCounts<A>(p: A -> bool, s: seq<A>)
    ensures forall x :: multiset(Filter(p, s))[x] == if p(x) then multiset(s)[x] else 0
    decreases |s|
  {
    if |s| > 0 {
      var t, y := s[..|s| - 1], s[|s| - 1];
      assert s == t + [y];
      FilterCounts(p, t);
      assert Filter(p, s) == Filter(p, t) + (if p(y) then [y] else []);
    }
  }

  /** Filtering keeps the order of the input: the filter of `a + b` is the filter of `a`
      followed by the filter of `b`. */
  lemma {:induction false} FilterAppend<A>(p: A -> bool, a: seq<A>, b: seq<A>)
    ensures Filter(p, a + b) == Filter(p, a) + Filter(p, b)
    decreases |b|
  {
    if |b| == 0 {
      assert a + b == a;
    } else {
      var c := b[..|b| - 1];
      var y := b[|b| - 1];
      assert (a + b)[..|a + b| - 1] == a + c;
      assert (a + b)[|a + b| - 1] == y;
      FilterAppend(p, a, c);
    }
  }

  /** When every element satisfies `p`, nothing is dropped. */
  lemma {:induction false} FilterAll<A>(p: A -> bool, s: seq<A>)
    requires forall i :: 0 <= i < |s| ==> p(s[i])
    ensures Filter(p, s) == s
    decreases |s|
  {
    if |s| > 0 {
      FilterAll(p, s[..|s| - 1]);
      assert s[..|s| - 1] + [s[|s| - 1]] == s;
    }
  }

  /** Every `from` replaced by `to` (str_replace / tr / Replace with one-character arguments). */
  function ReplaceChar(s: string, from: char, to: char): (r: string)
    ensures |r| == |s|
    ensures forall i :: 0 <= i < |s| ==> r[i] == (if s[i] == from then to else s[i])
  {
    seq(|s|, i requires 0 <= i < |s| => if s[i] == from then to else s[i])
  }

  /** Every occurrence of `c` deleted (C#'s Replace("-", "")). */
  function RemoveChar(s: string, c: char): (r: string)
    ensures c !in r
    ensures |r| <= |s|
    decreases |s|
  {
    if |s| == 0 then []
    else (if s[0] == c then [] else [s[0]]) + RemoveChar(s[1..], c)
  }

  lemma {:induction false} RemoveCharAppend(a: string, b: string, c: char)
    ensures RemoveChar(a + b, c) == RemoveChar(a, c) + RemoveChar(b, c)
    decreases |a|
  {
    if |a| > 0 {
      assert (a + b)[1..] == a[1..] + b;
      RemoveCharAppend(a[1..], b, c);
    } else {
      assert a + b == b;
    }
  }

  lemma {:induction false} RemoveCharAbsent(s: string, c: char)
    requires c !in s
    ensures RemoveChar(s, c) == s
    decreases |s|
  {
    if |s| > 0 {
      RemoveCharAbsent(s[1..], c);
      assert s == [s[0]] + s[1..];
    }
  }
}
