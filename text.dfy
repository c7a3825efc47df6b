/**
 * The string operations the script applies to lines, header names, cells and
 * locations: whitespace stripping, lower-casing, substring search, splitting
 * on a separator and character replacement.
 */
module Text {

  /** The characters Python's str.isspace() accepts (str.strip() with no argument removes these). */
  predicate IsPySpace(c: char) {
    ('\t' <= c <= '\r') || ('\U{1C}' <= c <= ' ') || c == '\U{85}' || c == '\U{A0}'
    || c == '\U{1680}' || ('\U{2000}' <= c <= '\U{200A}') || c == '\U{2028}' || c == '\U{2029}'
    || c == '\U{202F}' || c == '\U{205F}' || c == '\U{3000}'
  }

  /** The ASCII whitespace the numeric parser skips around a number. */
  predicate IsAsciiSpace(c: char) {
    c == ' ' || ('\t' <= c <= '\r')
  }

  /** ASCII lower-casing of one character. */
  function LowerChar(c: char): char {
    if 'A' <= c <= 'Z' then (c as int - 'A' as int + 'a' as int) as char else c
  }

  /** str.lower(), restricted to ASCII letters. */
  function Lower(s: string): (r: string)
    ensures |r| == |s|
  {
    if s == [] then [] else [LowerChar(s[0])] + Lower(s[1..])
  }

  /** Drops leading characters that satisfy `space`. */
  function TrimStart(s: string, space: char -> bool): (r: string)
    ensures |r| <= |s|
    decreases |s|
  {
    if s != [] && space(s[0]) then TrimStart(s[1..], space) else s
  }

  /** Drops trailing characters that satisfy `space`. */
  function TrimEnd(s: string, space: char -> bool): (r: string)
    ensures |r| <= |s|
    decreases |s|
  {
    if s != [] && space(s[|s| - 1]) then TrimEnd(s[..|s| - 1], space) else s
  }

  /** TrimStart removes exactly the leading run of whitespace: it returns a suffix that does not start with whitespace. */
  lemma {:induction false} TrimStartSpec(s: string, space: char -> bool)
    ensures var r := TrimStart(s, space);
      && r == s[|s| - |r|..]
      && (forall i :: 0 <= i < |s| - |r| ==> space(s[i]))
      && (r != [] ==> !space(r[0]))
    decreases |s|
  {
    if s != [] && space(s[0]) {
      TrimStartSpec(s[1..], space);
      var r := TrimStart(s, space);
      forall i | 1 <= i < |s| - |r| ensures space(s[i]) {
        assert s[i] == s[1..][i - 1];
      }
    }
  }

  /** TrimEnd removes exactly the trailing run of whitespace: it returns a prefix that does not end with whitespace. */
  lemma {:induction false} TrimEndSpec(s: string, space: char -> bool)
    ensures var r := TrimEnd(s, space);
      && r == s[..|r|]
      && (forall i :: |r| <= i < |s| ==> space(s[i]))
      && (r != [] ==> !space(r[|r| - 1]))
    decreases |s|
  {
    if s != [] && space(s[|s| - 1]) {
      TrimEndSpec(s[..|s| - 1], space);
      var r := TrimEnd(s, space);
      forall i | |r| <= i < |s| - 1 ensures space(s[i]) {
        assert s[i] == s[..|s| - 1][i];
      }
    }
  }

  /** str.strip(): removes leading and trailing whitespace. */
  function Strip(s: string, space: char -> bool): string {
    TrimEnd(TrimStart(s, space), space)
  }

  /** Python's no-argument str.strip(). */
  function PyStrip(s: string): string {
    Strip(s, IsPySpace)
  }

  /** The stripped string is the slice of `s` between two runs of whitespace, and it neither starts nor ends with whitespace. */
  lemma StripIsSlice(s: string, space: char -> bool) returns (lo: nat, hi: nat)
    ensures lo <= hi <= |s| && Strip(s, space) == s[lo..hi]
    ensures forall i :: 0 <= i < lo ==> space(s[i])
    ensures forall i :: hi <= i < |s| ==> space(s[i])
    ensures lo < hi ==> !space(s[lo]) && !space(s[hi - 1])
  {
    var t := TrimStart(s, space);
    var r := TrimEnd(t, space);
    TrimStartSpec(s, space);
    TrimEndSpec(t, space);
    lo := |s| - |t|;
    hi := lo + |r|;
    assert r == t[..|r|];
    assert t == s[lo..];
    forall i | lo + |r| <= i < |s| ensures space(s[i]) {
      assert s[i] == t[i - lo];
    }
  }

  /** Stripping twice is stripping once. */
  lemma StripIdempotent(s: string, space: char -> bool)
    ensures Strip(Strip(s, space), space) == Strip(s, space)
  {
    var r := Strip(s, space);
    var lo, hi := StripIsSlice(s, space);
    NoEdgeSpaceStripFixed(r, space);
  }

  /** A string that does not start or end with whitespace is its own strip. */
  lemma NoEdgeSpaceStripFixed(s: string, space: char -> bool)
    requires s != [] ==> !space(s[0]) && !space(s[|s| - 1])
    ensures Strip(s, space) == s
  {
  }

  /** Occurrence of `k` in `s` starting at position `p`. */
  ghost predicate OccursAt(s: string, k: string, p: nat) {
    p + |k| <= |s| && s[p..p + |k|] == k
  }

  /** Python's `k in s` on strings: is `k` a substring of `s`. */
  function Contains(s: string, k: string): bool
    decreases |s|
  {
    if |k| > |s| then false
    else if s[..|k|] == k then true
    else Contains(s[1..], k)
  }

  /** The search finds `k` exactly when `k` occurs somewhere in `s`. */
  lemma {:induction false} ContainsIff(s: string, k: string)
    ensures Contains(s, k) <==> exists p: nat :: OccursAt(s, k, p)
    decreases |s|
  {
    if |k| > |s| {
    } else if s[..|k|] == k {
      assert OccursAt(s, k, 0);
    } else {
      ContainsIff(s[1..], k);
      if Contains(s[1..], k) {
        var p: nat :| OccursAt(s[1..], k, p);
        assert s[p + 1..p + 1 + |k|] == s[1..][p..p + |k|];
        assert OccursAt(s, k, p + 1);
      }
      if exists p: nat :: OccursAt(s, k, p) {
        var p: nat :| OccursAt(s, k, p);
        assert s[0..|k|] == s[..|k|];
        assert p != 0;
        assert s[1..][p - 1..p - 1 + |k|] == s[p..p + |k|];
        assert OccursAt(s[1..], k, p - 1);
      }
    }
  }

  /** `any(k in s for k in keywords)`, trying the keywords in order. */
  predicate ContainsAny(s: string, keywords: seq<string>) {
    keywords != [] && (Contains(s, keywords[0]) || ContainsAny(s, keywords[1..]))
  }

  /** The search succeeds exactly when some keyword occurs in `s`. */
  lemma {:induction false} ContainsAnyIff(s: string, keywords: seq<string>)
    ensures ContainsAny(s, keywords) <==> exists i :: 0 <= i < |keywords| && Contains(s, keywords[i])
  {
    if keywords != [] {
      ContainsAnyIff(s, keywords[1..]);
      assert forall i :: 1 <= i < |keywords| ==> keywords[i] == keywords[1..][i - 1];
      if exists i :: 0 <= i < |keywords| && Contains(s, keywords[i]) {
        var i :| 0 <= i < |keywords| && Contains(s, keywords[i]);
        if i > 0 {
          assert Contains(s, keywords[1..][i - 1]);
        }
      }
    }
  }

  /** A keyword with no whitespace in it occurs in a string exactly when it occurs in the stripped string. */
  lemma ContainsStripped(s: string, k: string, space: char -> bool)
    requires k != []
    requires forall i :: 0 <= i < |k| ==> !space(k[i])
    ensures Contains(Strip(s, space), k) <==> Contains(s, k)
  {
    var lo, hi := StripIsSlice(s, space);
    ContainsIff(s, k);
    ContainsIff(Strip(s, space), k);
    if Contains(Strip(s, space), k) {
      OccursInSlice(s, lo, hi, k);
    }
    if Contains(s, k) {
      var p: nat :| OccursAt(s, k, p);
      assert s[p] == k[0] && s[p + |k| - 1] == k[|k| - 1];
      OccursInsideSlice(s, lo, hi, k, p);
    }
  }

  lemma OccursInSlice(s: string, lo: nat, hi: nat, k: string)
    requires lo <= hi <= |s| && exists p: nat :: OccursAt(s[lo..hi], k, p)
    ensures exists p: nat :: OccursAt(s, k, p)
  {
    var t := s[lo..hi];
    var p: nat :| OccursAt(t, k, p);
    forall i | 0 <= i < |k| ensures s[lo + p + i] == k[i] {
      assert t[p..p + |k|][i] == t[p + i];
    }
    assert s[lo + p..lo + p + |k|] == k;
    assert OccursAt(s, k, lo + p);
  }

  lemma OccursInsideSlice(s: string, lo: nat, hi: nat, k: string, p: nat)
    requires lo <= p && p + |k| <= hi <= |s| && OccursAt(s, k, p)
    ensures exists q: nat :: OccursAt(s[lo..hi], k, q)
  {
    var t := s[lo..hi];
    forall i | 0 <= i < |k| ensures t[p - lo + i] == k[i] {
      assert s[p..p + |k|][i] == s[p + i];
    }
    assert t[p - lo..p - lo + |k|] == k;
    assert OccursAt(t, k, p - lo);
  }

  /** Number of occurrences of character `c` in `s`. */
  function Count(s: string, c: char): nat {
    if s == [] then 0 else (if s[0] == c then 1 else 0) + Count(s[1..], c)
  }

  lemma {:induction false} CountAppend(a: string, b: string, c: char)
    ensures Count(a + b, c) == Count(a, c) + Count(b, c)
  {
    if a != [] {
      assert (a + b)[1..] == a[1..] + b && (a + b)[0] == a[0];
      CountAppend(a[1..], b, c);
      assert Count(a + b, c) == (if a[0] == c then 1 else 0) + Count(a[1..] + b, c);
    } else {
      assert a + b == b;
    }
  }

  lemma {:induction false} CountZero(s: string, c: char)
    ensures Count(s, c) == 0 <==> c !in s
  {
    if s != [] {
      CountZero(s[1..], c);
      assert c in s <==> s[0] == c || c in s[1..];
    }
  }

  /** `sep.join(parts)`. */
  function Join(parts: seq<string>, sep: char): string {
    if parts == [] then ""
    else if |parts| == 1 then parts[0]
    else parts[0] + [sep] + Join(parts[1..], sep)
  }

  /** `s.split(sep)` for a one-character separator: always at least one part, one more than the separators. */
  function Split(s: string, sep: char): (parts: seq<string>)
    ensures |parts| == Count(s, sep) + 1
    ensures forall i :: 0 <= i < |parts| ==> sep !in parts[i]
    ensures Join(parts, sep) == s
  {
    if s == [] then [""]
    else
      var rest := Split(s[1..], sep);
      if s[0] == sep then [""] + rest
      else
        var parts := [[s[0]] + rest[0]] + rest[1..];
        assert Join(parts, sep) == s by {
          if |rest| > 1 { assert parts[1..] == rest[1..]; }
        }
        parts
  }

  /** Splitting a join gives back the parts, when no part contains the separator. */
  lemma {:induction false} SplitJoin(parts: seq<string>, sep: char)
    requires parts != []
    requires forall i :: 0 <= i < |parts| ==> sep !in parts[i]
    ensures Split(Join(parts, sep), sep) == parts
  {
    if |parts| == 1 {
      SplitNoSep(parts[0], sep);
    } else {
      SplitJoin(parts[1..], sep);
      SplitPrefix(parts[0], Join(parts[1..], sep), sep);
    }
  }

  lemma {:induction false} SplitNoSep(s: string, sep: char)
    requires sep !in s
    ensures Split(s, sep) == [s]
  {
    if s != [] {
      SplitNoSep(s[1..], sep);
    }
  }

  lemma {:induction false} SplitPrefix(a: string, b: string, sep: char)
    requires sep !in a
    ensures Split(a + [sep] + b, sep) == [a] + Split(b, sep)
  {
    if a == [] {
      assert a + [sep] + b == [sep] + b;
      assert ([sep] + b)[1..] == b;
    } else {
      assert (a + [sep] + b)[1..] == a[1..] + [sep] + b;
      SplitPrefix(a[1..], b, sep);
      assert [a[0]] + a[1..] == a;
    }
  }

  /** `s.replace(c, '')`. */
  function RemoveChar(s: string, c: char): (r: string)
    ensures c !in r
    ensures |r| == |s| - Count(s, c)
    ensures forall x :: x != c ==> (x in r <==> x in s)
  {
    if s == [] then ""
    else if s[0] == c then RemoveChar(s[1..], c)
    else [s[0]] + RemoveChar(s[1..], c)
  }

  /** `s.replace(from, to)` for single characters. */
  function ReplaceChar(s: string, from: char, to: char): (r: string)
    ensures |r| == |s|
    ensures forall i :: 0 <= i < |s| ==> r[i] == if s[i] == from then to else s[i]
  {
    seq(|s|, i requires 0 <= i < |s| => if s[i] == from then to else s[i])
  }
}
