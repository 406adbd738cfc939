/**
 * The Python string built-ins the chat client shapes replies with, over
 * `seq<char>`: the `in` test, `str.split(sep)`, `sep.join(parts)`,
 * `str.strip()`, `str.split()` on whitespace runs, `str.endswith` and the
 * `rsplit(' ', 1)[0]` idiom.  Whitespace is what Python's `str.isspace`
 * accepts, the characters `strip()` and `split()` treat as blanks.
 *
 * Several small lemmas below state one unfolding or one sequence identity
 * and have empty bodies; they exist so that the larger proofs that call
 * them stay cheap to verify.
 */
module Strings {

  type String = seq<char>

  /**
   * Python's whitespace: tab through carriage return, the four ASCII
   * separators U+001C..U+001F, space, U+0085, no-break space, and the
   * Unicode space and line/paragraph separators.
   */
  predicate IsSpace(c: char) {
    || c == ' ' || c == '\t' || c == '\n' || c == '\U{000B}' || c == '\U{000C}' || c == '\r'
    || c == '\U{001C}' || c == '\U{001D}' || c == '\U{001E}' || c == '\U{001F}'
    || c == '\U{0085}' || c == '\U{00A0}' || c == '\U{1680}'
    || c == '\U{2000}' || c == '\U{2001}' || c == '\U{2002}' || c == '\U{2003}' || c == '\U{2004}'
    || c == '\U{2005}' || c == '\U{2006}' || c == '\U{2007}' || c == '\U{2008}' || c == '\U{2009}'
    || c == '\U{200A}' || c == '\U{2028}' || c == '\U{2029}' || c == '\U{202F}' || c == '\U{205F}'
    || c == '\U{3000}'
  }

  function Last<T>(s: seq<T>): T
    requires |s| > 0
  {
    s[|s| - 1]
  }

  /** `sub` occurs in `s` starting at index `i`. */
  predicate OccursAt(s: String, sub: String, i: int) {
    0 <= i && i + |sub| <= |s| && s[i..i + |sub|] == sub
  }

  /** Python's `sub in s`; equally, `sub` is a contiguous substring of `s`. */
  predicate Contains(s: String, sub: String) {
    exists i :: 0 <= i <= |s| - |sub| && OccursAt(s, sub, i)
  }

  /** `p` is a prefix of `s`. */
  predicate IsPrefix(p: String, s: String) {
    |p| <= |s| && s[..|p|] == p
  }

  /** Python's `s.endswith(suffix)`. */
  predicate EndsWith(s: String, suffix: String) {
    |suffix| <= |s| && s[|s| - |suffix|..] == suffix
  }

  /** No whitespace at either end, as `str.strip()` leaves its result. */
  predicate NoEdgeSpace(s: String) {
    s != [] ==> !IsSpace(s[0]) && !IsSpace(Last(s))
  }

  /**
   * What `" ".join(s.split())` leaves: no whitespace at the ends, no
   * whitespace other than the plain space, and never two spaces in a row.
   */
  predicate Clean(s: String) {
    && NoEdgeSpace(s)
    && (forall i :: 0 <= i < |s| && IsSpace(s[i]) ==> s[i] == ' ')
    && (forall i :: 0 <= i < |s| - 1 && s[i] == ' ' ==> s[i + 1] != ' ')
  }

  predicate IsWord(w: String) {
    w != [] && forall i :: 0 <= i < |w| ==> !IsSpace(w[i])
  }

  // ---------------------------------------------------------------------
  // Substrings
  // ---------------------------------------------------------------------

  lemma ContainsPrefix(s: String, k: nat)
    requires k <= |s|
    ensures Contains(s, s[..k])
  {
    assert OccursAt(s, s[..k], 0);
  }

  lemma ContainsSuffix(s: String, k: nat)
    requires k <= |s|
    ensures Contains(s, s[k..])
  {
    assert OccursAt(s, s[k..], k);
  }

  /** Being a substring is transitive. */
  lemma ContainsTrans(a: String, b: String, c: String)
    requires Contains(a, b) && Contains(b, c)
    ensures Contains(a, c)
  {
    var i :| 0 <= i <= |a| - |b| && OccursAt(a, b, i);
    var j :| 0 <= j <= |b| - |c| && OccursAt(b, c, j);
    forall k | 0 <= k < |c|
      ensures a[i + j + k] == c[k]
    {
      assert b[j..j + |c|][k] == c[k];
      assert a[i..i + |b|][j + k] == b[j + k];
    }
    assert a[i + j..i + j + |c|] == c;
    assert OccursAt(a, c, i + j);
  }

  /** An occurrence in a suffix is an occurrence in the whole text. */
  lemma OccursShift(s: String, k: nat, sep: String, i: int)
    requires k <= |s| && OccursAt(s[k..], sep, i)
    ensures OccursAt(s, sep, i + k)
  {
    assert s[k..][i..i + |sep|] == s[i + k..i + k + |sep|];
  }

  /**
   * A text that does not start with the separator, after a character, adds
   * no occurrence of the separator.
   */
  lemma NotContainsCons(c: char, q: String, sep: String)
    requires sep != [] && !Contains(q, sep)
    requires |q| + 1 < |sep| || ([c] + q)[..|sep|] != sep
    ensures !Contains([c] + q, sep)
  {
    var p := [c] + q;
    forall i | 0 <= i <= |p| - |sep|
      ensures !OccursAt(p, sep, i)
    {
      if i > 0 {
        assert p[i..i + |sep|] == q[i - 1..i - 1 + |sep|];
        assert !OccursAt(q, sep, i - 1);
      }
    }
  }

  // ---------------------------------------------------------------------
  // str.split(sep) and sep.join(parts)
  // ---------------------------------------------------------------------

  /**
   * Python's `s.split(sep)` for a non-empty separator: scanning from the
   * left, every occurrence of `sep` ends one part and starts the next.
   */
  function Split(s: String, sep: String): (parts: seq<String>)
    requires sep != []
    ensures |parts| >= 1
    decreases |s|
  {
    if |s| < |sep| then [s]
    else if s[..|sep|] == sep then [[]] + Split(s[|sep|..], sep)
    else
      var rest := Split(s[1..], sep);
      [[s[0]] + rest[0]] + rest[1..]
  }

  /** Python's `sep.join(parts)`. */
  function Join(parts: seq<String>, sep: String): (s: String)
    ensures |parts| >= 1 ==> IsPrefix(parts[0], s)
  {
    if |parts| == 0 then []
    else if |parts| == 1 then parts[0]
    else parts[0] + sep + Join(parts[1..], sep)
  }

  /** Prepending a character to the first part prepends it to the join. */
  lemma JoinExtendHead(c: char, parts: seq<String>, sep: String)
    requires |parts| >= 1
    ensures Join([[c] + parts[0]] + parts[1..], sep) == [c] + Join(parts, sep)
  {
    var ext := [[c] + parts[0]] + parts[1..];
    assert ext[1..] == parts[1..];
  }

  /** Joining the parts of a split with the same separator gives the text back. */
  lemma {:induction false} JoinSplit(s: String, sep: String)
    requires sep != []
    ensures Join(Split(s, sep), sep) == s
    decreases |s|
  {
    if |s| < |sep| {
    } else if s[..|sep|] == sep {
      var rest := Split(s[|sep|..], sep);
      SplitAtSep(s, sep);
      JoinSplit(s[|sep|..], sep);
      JoinCons([], rest, sep);
      assert s == sep + s[|sep|..];
    } else {
      var rest := Split(s[1..], sep);
      SplitAtChar(s, sep);
      JoinSplit(s[1..], sep);
      JoinExtendHead(s[0], rest, sep);
      assert s == [s[0]] + s[1..];
    }
  }

  /** One step of the split when the text starts with the separator. */
  lemma SplitAtSep(s: String, sep: String)
    requires sep != [] && |sep| <= |s| && s[..|sep|] == sep
    ensures Split(s, sep) == [[]] + Split(s[|sep|..], sep)
  {
  }


  /**
   * The first part of a split is the text before the first occurrence of
   * the separator: a prefix holding no occurrence, followed by the separator
   * when there is more than one part, and the whole text otherwise.
   */
  lemma {:induction false} SplitFirst(s: String, sep: String)
    requires sep != []
    ensures var p := Split(s, sep)[0];
      && IsPrefix(p, s)
      && !Contains(p, sep)
      && (|Split(s, sep)| == 1 ==> p == s)
      && (|Split(s, sep)| > 1 ==> OccursAt(s, sep, |p|))
    decreases |s|
  {
    if |s| < |sep| {
    } else if s[..|sep|] == sep {
      SplitAtSep(s, sep);
      assert OccursAt(s, sep, 0);
    } else {
      SplitFirstAfterChar(s, sep);
    }
  }

  lemma {:induction false} SplitFirstAfterChar(s: String, sep: String)
    requires sep != [] && |sep| <= |s| && s[..|sep|] != sep
    ensures var p := Split(s, sep)[0];
      && IsPrefix(p, s)
      && !Contains(p, sep)
      && (|Split(s, sep)| == 1 ==> p == s)
      && (|Split(s, sep)| > 1 ==> OccursAt(s, sep, |p|))
    decreases |s|, 0
  {
    var rest := Split(s[1..], sep);
    SplitAtChar(s, sep);
    SplitFirst(s[1..], sep);
    var q := rest[0];
    var p := [s[0]] + q;
    assert Split(s, sep)[0] == p;
    assert IsPrefix(p, s) by {
      PrefixAfter([s[0]], q, s[1..]);
      assert [s[0]] + s[1..] == s;
    }
    assert !Contains(p, sep) by {
      assert |q| + 1 >= |sep| ==> p[..|sep|] == s[..|sep|];
      NotContainsCons(s[0], q, sep);
    }
    if |rest| > 1 {
      OccursShift(s, 1, sep, |q|);
    }
  }


  /** The last part of a split that has a single part is the whole text. */
  lemma {:induction false} SplitSingle(s: String, sep: String)
    requires sep != [] && |Split(s, sep)| == 1
    ensures Split(s, sep)[0] == s
  {
    SplitFirst(s, sep);
  }

  /**
   * The last part of a split is the text after the last occurrence of the
   * separator: a suffix holding no occurrence, preceded by the separator
   * when there is more than one part, and the whole text otherwise.
   */
  lemma {:induction false} SplitLast(s: String, sep: String)
    requires sep != []
    ensures FinalPart(s, sep, Split(s, sep))
    decreases |s|
  {
    if |s| < |sep| {
    } else if s[..|sep|] == sep {
      SplitLastAfterSeparator(s, sep);
    } else {
      SplitLastAfterChar(s, sep);
    }
  }

  /**
   * The last of `parts` is a suffix of `s` free of the separator, preceded
   * by the separator when there is more than one part.
   */
  predicate FinalPart(s: String, sep: String, parts: seq<String>)
    requires parts != []
  {
    var p := Last(parts);
    && |p| <= |s| && p == s[|s| - |p|..]
    && !Contains(p, sep)
    && (|parts| > 1 ==> OccursAt(s, sep, |s| - |p| - |sep|))
  }

  lemma {:induction false} SplitLastAfterSeparator(s: String, sep: String)
    requires sep != [] && |sep| <= |s| && s[..|sep|] == sep
    ensures FinalPart(s, sep, Split(s, sep))
    decreases |s|, 0
  {
    var rest := Split(s[|sep|..], sep);
    SplitAtSep(s, sep);
    SplitLast(s[|sep|..], sep);
    if |rest| == 1 {
      SplitSingle(s[|sep|..], sep);
    }
    FinalPartAfterSep(s, sep, rest);
  }

  lemma FinalPartAfterSep(s: String, sep: String, rest: seq<String>)
    requires sep != [] && |sep| <= |s| && s[..|sep|] == sep
    requires rest != [] && FinalPart(s[|sep|..], sep, rest)
    requires |rest| == 1 ==> rest[0] == s[|sep|..]
    ensures FinalPart(s, sep, [[]] + rest)
  {
    var tail := s[|sep|..];
    var p := Last(rest);
    LastAfterHead([], rest);
    SuffixOfSuffix(s, |sep|, |p|);
    if |rest| > 1 {
      OccursShift(s, |sep|, sep, |tail| - |p| - |sep|);
    } else {
      assert OccursAt(s, sep, 0);
    }
  }


  lemma LastAfterHead<T>(x: T, r: seq<T>)
    requires r != []
    ensures Last([x] + r) == Last(r)
  {
  }

  lemma SuffixOfSuffix(s: String, k: nat, n: nat)
    requires k + n <= |s|
    ensures s[k..][|s| - k - n..] == s[|s| - n..]
  {
  }



  lemma {:induction false} SplitLastAfterChar(s: String, sep: String)
    requires sep != [] && |sep| <= |s| && s[..|sep|] != sep
    ensures FinalPart(s, sep, Split(s, sep))
    decreases |s|, 0
  {
    var rest := Split(s[1..], sep);
    SplitLast(s[1..], sep);
    SplitAtChar(s, sep);
    if |rest| == 1 {
      SplitSingle(s[1..], sep);
    }
    FinalPartAfterChar(s, sep, rest);
  }

  /** Prefixing a character that starts no separator keeps the final part. */
  lemma FinalPartAfterChar(s: String, sep: String, rest: seq<String>)
    requires sep != [] && |sep| <= |s| && s[..|sep|] != sep
    requires rest != [] && FinalPart(s[1..], sep, rest)
    requires |rest| == 1 ==> rest[0] == s[1..]
    ensures FinalPart(s, sep, [[s[0]] + rest[0]] + rest[1..])
  {
    var parts := [[s[0]] + rest[0]] + rest[1..];
    if |rest| > 1 {
      var p := Last(rest);
      assert Last(parts) == p;
      assert s[1..][|s| - 1 - |p|..] == s[|s| - |p|..];
      OccursShift(s, 1, sep, |s| - 1 - |p| - |sep|);
    } else {
      assert Last(parts) == [s[0]] + s[1..] == s;
      NotContainsCons(s[0], s[1..], sep);
    }
  }

  /** One step of the split when the text does not start with the separator. */
  lemma SplitAtChar(s: String, sep: String)
    requires sep != [] && |sep| <= |s| && s[..|sep|] != sep
    ensures var rest := Split(s[1..], sep);
      Split(s, sep) == [[s[0]] + rest[0]] + rest[1..]
  {
  }

  /** A text lacking some character of `sub` does not contain `sub`. */
  lemma NotContainsByChar(s: String, sub: String, c: char)
    requires c in sub && c !in s
    ensures !Contains(s, sub)
  {
    var k :| 0 <= k < |sub| && sub[k] == c;
    forall i | 0 <= i <= |s| - |sub|
      ensures !OccursAt(s, sub, i)
    {
      assert s[i + k] != c;
      assert s[i..i + |sub|][k] == s[i + k];
    }
  }

  /**
   * A leading part free of the separator's first character is split off as
   * the first part: `(x + sep + y).split(sep) == [x] + y.split(sep)`.
   */
  lemma {:induction false} SplitLeading(x: String, sep: String, y: String)
    requires sep != [] && sep[0] !in x
    ensures Split(x + sep + y, sep) == [x] + Split(y, sep)
    decreases |x|
  {
    var s := x + sep + y;
    if x == [] {
      assert s[..|sep|] == sep && s[|sep|..] == y;
      SplitAtSep(s, sep);
    } else {
      assert s[..|sep|][0] == x[0] != sep[0];
      SplitAtChar(s, sep);
      assert s[1..] == x[1..] + sep + y;
      SplitLeading(x[1..], sep, y);
      assert [x[0]] + x[1..] == x;
    }
  }

  /**
   * Two occurrences of a separator whose first character does not recur in
   * it are either the same or do not overlap.
   */
  lemma NearbyOccurrences(s: String, sep: String, a: int, b: int)
    requires sep != [] && sep[0] !in sep[1..]
    requires OccursAt(s, sep, a) && OccursAt(s, sep, b)
    ensures a == b || a + |sep| <= b || b + |sep| <= a
  {
  }

  /**
   * The text after the final occurrence of such a separator is the last
   * part of the split, whatever precedes that occurrence.
   */
  lemma AfterFinalOccurrence(x: String, sep: String, y: String)
    requires sep != [] && sep[0] !in sep[1..]
    requires !Contains(y, sep)
    ensures AfterLast(x + sep + y, sep) == y
  {
    OccursBetween(x, sep, y);
    AfterFinalAt(x + sep + y, sep, |x|);
  }

  /** The same, for the final occurrence at index `a` of `s`. */
  lemma AfterFinalAt(s: String, sep: String, a: nat)
    requires sep != [] && sep[0] !in sep[1..]
    requires OccursAt(s, sep, a) && !Contains(s[a + |sep|..], sep)
    ensures AfterLast(s, sep) == s[a + |sep|..]
  {
    var p := AfterLast(s, sep);
    SplitCount(s, sep);
    SplitLast(s, sep);
    var j := |s| - |p| - |sep|;
    assert s[j + |sep|..] == p;
    FinalOccurrenceUnique(s, sep, j, a);
  }


  lemma OccursBetween(x: String, sep: String, y: String)
    ensures OccursAt(x + sep + y, sep, |x|)
    ensures (x + sep + y)[|x| + |sep|..] == y
  {
    assert (x + sep + y)[|x|..|x| + |sep|] == sep;
  }

  /**
   * Of two occurrences of such a separator, each followed by no further
   * occurrence, neither can come before the other.
   */
  lemma FinalOccurrenceUnique(s: String, sep: String, j: int, k: int)
    requires sep != [] && sep[0] !in sep[1..]
    requires OccursAt(s, sep, j) && !Contains(s[j + |sep|..], sep)
    requires OccursAt(s, sep, k) && !Contains(s[k + |sep|..], sep)
    ensures j == k
  {
    NearbyOccurrences(s, sep, j, k);
    if j + |sep| <= k {
      OccursInSuffix(s, j + |sep|, sep, k);
    } else if k + |sep| <= j {
      OccursInSuffix(s, k + |sep|, sep, j);
    }
  }

  lemma OccursInSuffix(s: String, k: nat, sep: String, i: int)
    requires k <= i && OccursAt(s, sep, i)
    ensures OccursAt(s[k..], sep, i - k)
  {
    assert s[k..][i - k..i - k + |sep|] == s[i..i + |sep|];
  }

  /**
   * Text whose every part is free of the separator's first character,
   * followed by the separator, splits back into those parts first.
   */
  lemma {:induction false} SplitJoinLeading(ps: seq<String>, sep: String, w: String)
    requires sep != [] && |ps| > 0
    requires forall k :: 0 <= k < |ps| ==> sep[0] !in ps[k]
    ensures Split(Join(ps, sep) + sep + w, sep) == ps + Split(w, sep)
    decreases |ps|
  {
    if |ps| == 1 {
      SplitLeading(ps[0], sep, w);
      assert [ps[0]] == ps;
    } else {
      var rest := Join(ps[1..], sep) + sep + w;
      JoinHeadThen(ps, sep, w);
      SplitLeading(ps[0], sep, rest);
      SplitJoinLeading(ps[1..], sep, w);
      ConsAppend(ps, Split(w, sep));
    }
  }

  lemma JoinHeadThen(ps: seq<String>, sep: String, w: String)
    requires |ps| > 1
    ensures Join(ps, sep) + sep + w == ps[0] + sep + (Join(ps[1..], sep) + sep + w)
  {
  }

  lemma ConsAppend<T>(ps: seq<T>, t: seq<T>)
    requires ps != []
    ensures [ps[0]] + (ps[1..] + t) == ps + t
  {
  }

  /** Joined non-empty parts end with the last character of the last part. */
  lemma {:induction false} JoinLastChar(ps: seq<String>, sep: String)
    requires |ps| > 0 && Last(ps) != []
    ensures Join(ps, sep) != [] && Last(Join(ps, sep)) == Last(Last(ps))
    decreases |ps|
  {
    if |ps| > 1 {
      JoinLastChar(ps[1..], sep);
      assert Last(ps[1..]) == Last(ps);
    }
  }


  /** The text after the last occurrence of `sep`: Python's `s.split(sep)[-1]`. */
  function AfterLast(s: String, sep: String): (r: String)
    requires sep != []
    ensures |r| <= |s| && r == s[|s| - |r|..]
    ensures Contains(s, r) && !Contains(r, sep)
  {
    SplitLast(s, sep);
    ContainsSuffix(s, |s| - |Last(Split(s, sep))|);
    Last(Split(s, sep))
  }

  /** A split has more than one part exactly when the separator occurs. */
  lemma SplitCount(s: String, sep: String)
    requires sep != []
    ensures |Split(s, sep)| > 1 <==> Contains(s, sep)
  {
    SplitFirst(s, sep);
  }

  /**
   * The first `n` parts of a split, joined back with the separator, are a
   * prefix of the text that the separator follows directly: keeping the
   * first `n` parts cuts the text at its `n`-th separator.
   */
  lemma {:induction false} JoinSplitPrefix(s: String, sep: String, n: nat)
    requires sep != []
    requires 0 < n < |Split(s, sep)|
    ensures IsPrefix(Join(Split(s, sep)[..n], sep) + sep, s)
    decreases |s|
  {
    if |s| < |sep| {
    } else if s[..|sep|] == sep {
      JoinSplitPrefixAfterSeparator(s, sep, n);
    } else {
      JoinSplitPrefixAfterChar(s, sep, n);
    }
  }

  lemma {:induction false} JoinSplitPrefixAfterSeparator(s: String, sep: String, n: nat)
    requires sep != [] && |sep| <= |s| && s[..|sep|] == sep
    requires 0 < n < |Split(s, sep)|
    ensures IsPrefix(Join(Split(s, sep)[..n], sep) + sep, s)
    decreases |s|, 0
  {
    var tail := s[|sep|..];
    var rest := Split(tail, sep);
    assert Split(s, sep) == [[]] + rest;
    if n > 1 {
      JoinSplitPrefix(tail, sep, n - 1);
      var kept := Join(rest[..n - 1], sep);
      JoinAfterEmpty(rest, sep, n);
      PrefixAfter(sep, kept + sep, tail);
      assert sep + tail == s;
    }
  }

  /** Joining `n` parts led by an empty one puts the separator first. */
  lemma JoinAfterEmpty(rest: seq<String>, sep: String, n: nat)
    requires 1 < n <= |rest| + 1
    ensures Join(([[]] + rest)[..n], sep) + sep == sep + (Join(rest[..n - 1], sep) + sep)
  {
    var front := ([[]] + rest)[..n];
    assert front[1..] == rest[..n - 1];
  }

  lemma PrefixAfter(x: String, a: String, b: String)
    requires IsPrefix(a, b)
    ensures IsPrefix(x + a, x + b)
  {
    assert (x + b)[..|x| + |a|] == x + b[..|a|];
  }

  lemma {:induction false} JoinSplitPrefixAfterChar(s: String, sep: String, n: nat)
    requires sep != [] && |sep| <= |s| && s[..|sep|] != sep
    requires 0 < n < |Split(s, sep)|
    ensures IsPrefix(Join(Split(s, sep)[..n], sep) + sep, s)
    decreases |s|, 0
  {
    var rest := Split(s[1..], sep);
    assert Split(s, sep) == [[s[0]] + rest[0]] + rest[1..];
    JoinSplitPrefix(s[1..], sep, n);
    JoinAfterChar(s[0], rest, sep, n);
    PrefixAfter([s[0]], Join(rest[..n], sep) + sep, s[1..]);
    assert [s[0]] + s[1..] == s;
  }

  /** Joining `n` parts whose first was extended by a character extends the join by it. */
  lemma JoinAfterChar(c: char, rest: seq<String>, sep: String, n: nat)
    requires 0 < n <= |rest|
    ensures Join(([[c] + rest[0]] + rest[1..])[..n], sep) + sep == [c] + (Join(rest[..n], sep) + sep)
  {
    var front := ([[c] + rest[0]] + rest[1..])[..n];
    assert front == [[c] + rest[..n][0]] + rest[..n][1..];
    JoinExtendHead(c, rest[..n], sep);
  }

  // ---------------------------------------------------------------------
  // str.strip()
  // ---------------------------------------------------------------------

  /** Python's `s.lstrip()`: drops the maximal leading run of whitespace. */
  function TrimStart(s: String): (r: String)
    ensures |r| <= |s| && r == s[|s| - |r|..]
    ensures r != [] ==> !IsSpace(r[0])
    ensures forall i :: 0 <= i < |s| - |r| ==> IsSpace(s[i])
    decreases |s|
  {
    if s != [] && IsSpace(s[0]) then TrimStart(s[1..]) else s
  }

  /** Python's `s.rstrip()`: drops the maximal trailing run of whitespace. */
  function TrimEnd(s: String): (r: String)
    ensures |r| <= |s| && r == s[..|r|]
    ensures r != [] ==> !IsSpace(Last(r))
    ensures forall i :: |r| <= i < |s| ==> IsSpace(s[i])
    decreases |s|
  {
    if s != [] && IsSpace(Last(s)) then TrimEnd(s[..|s| - 1]) else s
  }

  /** `r` sits at index `i` of `s` with only whitespace before and after it. */
  predicate StrippedAt(s: String, r: String, i: int) {
    && OccursAt(s, r, i)
    && (forall k :: 0 <= k < i ==> IsSpace(s[k]))
    && (forall k :: i + |r| <= k < |s| ==> IsSpace(s[k]))
  }

  /**
   * Python's `s.strip()`: what remains of `s` once its leading and trailing
   * whitespace runs are removed (`TrimStripsEdges`), so a substring with no
   * whitespace at either end, and `s` itself when `s` already has none.
   */
  function Trim(s: String): (r: String)
    ensures NoEdgeSpace(r)
    ensures Contains(s, r)
    ensures NoEdgeSpace(s) ==> r == s
  {
    var t := TrimStart(s);
    var r := TrimEnd(t);
    SliceOfSuffix(s, t, r);
    assert r != [] ==> r[0] == t[0];
    assert NoEdgeSpace(s) ==> t == s && r == s;
    r
  }

  /** Stripping removes only a leading and a trailing run of whitespace. */
  lemma TrimStripsEdges(s: String)
    ensures exists i :: StrippedAt(s, Trim(s), i)
  {
    var i := StripIndex(s);
  }

  /** Where in `s` its strip sits. */
  lemma StripIndex(s: String) returns (i: nat)
    ensures StrippedAt(s, Trim(s), i)
  {
    var t := TrimStart(s);
    var r := TrimEnd(t);
    assert Trim(s) == r;
    SliceOfSuffix(s, t, r);
    SpacesOfSuffix(s, t, |r|);
    i := |s| - |t|;
  }


  /** Whitespace that ends a suffix `t` of `s` ends `s`. */
  lemma SpacesOfSuffix(s: String, t: String, n: nat)
    requires |t| <= |s| && t == s[|s| - |t|..]
    requires forall i :: n <= i < |t| ==> IsSpace(t[i])
    ensures forall k :: |s| - |t| + n <= k < |s| ==> IsSpace(s[k])
  {
    forall k | |s| - |t| + n <= k < |s|
      ensures IsSpace(s[k])
    {
      assert s[k] == t[k - (|s| - |t|)];
    }
  }

  /** A prefix of a suffix of `s` occurs in `s` where the suffix starts. */
  lemma SliceOfSuffix(s: String, t: String, r: String)
    requires |t| <= |s| && t == s[|s| - |t|..]
    requires |r| <= |t| && r == t[..|r|]
    ensures OccursAt(s, r, |s| - |t|)
  {
    assert r == s[|s| - |t|..|s| - |t| + |r|];
  }

  /**
   * Stripping text with no whitespace at its ends, between runs of
   * whitespace, leaves exactly that text.
   */
  lemma TrimAround(lead: String, m: String, trail: String)
    requires forall i :: 0 <= i < |lead| ==> IsSpace(lead[i])
    requires forall i :: 0 <= i < |trail| ==> IsSpace(trail[i])
    requires m != [] && NoEdgeSpace(m)
    ensures Trim(lead + m + trail) == m
  {
    SpacesAround(lead, m, trail);
    TrimIsCore(lead + m + trail, m, |lead|);
  }

  /** Stripping edge-trimmed text followed by whitespace leaves that text. */
  lemma TrimBeforeSpaces(m: String, trail: String)
    requires forall i :: 0 <= i < |trail| ==> IsSpace(trail[i])
    requires m != [] && NoEdgeSpace(m)
    ensures Trim(m + trail) == m
  {
    var s := m + trail;
    assert s[..|m|] == m;
    forall k | |m| <= k < |s| ensures IsSpace(s[k]) {
      assert s[k] == trail[k - |m|];
    }
    TrimIsCore(s, m, 0);
  }

  /** Stripping `s` leaves exactly `m` when only whitespace surrounds `m` at index `a`. */
  lemma TrimIsCore(s: String, m: String, a: nat)
    requires m != [] && NoEdgeSpace(m)
    requires a + |m| <= |s| && s[a..a + |m|] == m
    requires forall k :: 0 <= k < a ==> IsSpace(s[k])
    requires forall k :: a + |m| <= k < |s| ==> IsSpace(s[k])
    ensures Trim(s) == m
  {
    var r := Trim(s);
    var i := StripIndex(s);
    SliceEnds(s, m, a);
    StrippedStart(s, r, i, a);
    StrippedEnd(s, r, i, a + |m| - 1);
  }

  /** Stripping `s` keeps `core`, at index `a` after only whitespace, as a prefix. */
  lemma TrimKeepsPrefix(s: String, core: String, a: nat)
    requires core != [] && NoEdgeSpace(core)
    requires a + |core| <= |s| && s[a..a + |core|] == core
    requires forall k :: 0 <= k < a ==> IsSpace(s[k])
    ensures IsPrefix(core, Trim(s))
  {
    var r := Trim(s);
    var i := StripIndex(s);
    SliceEnds(s, core, a);
    StrippedStart(s, r, i, a);
    StrippedCovers(s, r, i, a + |core| - 1);
    OccursAtPrefix(s, r, a, |core|);
  }

  /** The ends of `m`, where it sits at index `a` of `s`. */
  lemma SliceEnds(s: String, m: String, a: nat)
    requires m != [] && a + |m| <= |s| && s[a..a + |m|] == m
    ensures s[a] == m[0] && s[a + |m| - 1] == Last(m)
  {
    assert m[0] == s[a..a + |m|][0];
    assert Last(m) == s[a..a + |m|][|m| - 1];
  }

  /** The first `n` characters of an occurrence at `i` are the `n` characters at `i`. */
  lemma OccursAtPrefix(s: String, r: String, i: nat, n: nat)
    requires OccursAt(s, r, i) && n <= |r|
    ensures r[..n] == s[i..i + n]
  {
  }


  /** `strip()` of whitespace followed by edge-trimmed text is that text. */
  lemma TrimAfterSpaces(lead: String, m: String)
    requires forall i :: 0 <= i < |lead| ==> IsSpace(lead[i])
    requires m != [] && NoEdgeSpace(m)
    ensures Trim(lead + m) == m
  {
    TrimAround(lead, m, []);
    assert lead + m + [] == lead + m;
  }

  /** Where `lead + m + rest` has its first non-whitespace character, and `m` in it. */
  lemma LeadBeforeCore(lead: String, m: String, rest: String)
    requires forall i :: 0 <= i < |lead| ==> IsSpace(lead[i])
    requires m != []
    ensures (lead + m + rest)[|lead|] == m[0]
    ensures (lead + m + rest)[|lead| + |m| - 1] == Last(m)
    ensures (lead + m + rest)[|lead|..|lead| + |m|] == m
    ensures forall k :: 0 <= k < |lead| ==> IsSpace((lead + m + rest)[k])
  {
    var s := lead + m + rest;
    forall k | 0 <= k < |lead| ensures IsSpace(s[k]) {
      assert s[k] == lead[k];
    }
  }

  /** ... and, when `trail` is all whitespace, its last non-whitespace character. */
  lemma SpacesAround(lead: String, m: String, trail: String)
    requires forall i :: 0 <= i < |lead| ==> IsSpace(lead[i])
    requires forall i :: 0 <= i < |trail| ==> IsSpace(trail[i])
    requires m != []
    ensures (lead + m + trail)[|lead|] == m[0]
    ensures (lead + m + trail)[|lead| + |m| - 1] == Last(m)
    ensures (lead + m + trail)[|lead|..|lead| + |m|] == m
    ensures forall k :: 0 <= k < |lead| ==> IsSpace((lead + m + trail)[k])
    ensures forall k :: |lead| + |m| <= k < |lead + m + trail| ==> IsSpace((lead + m + trail)[k])
  {
    var s := lead + m + trail;
    LeadBeforeCore(lead, m, trail);
    forall k | |lead| + |m| <= k < |s| ensures IsSpace(s[k]) {
      assert s[k] == trail[k - |lead| - |m|];
    }
  }

  /** A strip of `s` keeps every non-whitespace character. */
  lemma StrippedCovers(s: String, r: String, i: int, q: int)
    requires StrippedAt(s, r, i) && 0 <= q < |s| && !IsSpace(s[q])
    ensures i <= q < i + |r|
  {
  }

  /** A strip of `s` starts at the first non-whitespace character. */
  lemma StrippedStart(s: String, r: String, i: int, p: int)
    requires StrippedAt(s, r, i) && 0 <= p < |s| && !IsSpace(s[p])
    requires forall k :: 0 <= k < p ==> IsSpace(s[k])
    requires NoEdgeSpace(r)
    ensures i == p && r != []
  {
    assert i <= p;
    assert p < i + |r|;
    assert s[i] == r[0];
  }

  /** A strip of `s` ends at the last non-whitespace character. */
  lemma StrippedEnd(s: String, r: String, i: int, q: int)
    requires StrippedAt(s, r, i) && 0 <= q < |s| && !IsSpace(s[q])
    requires forall k :: q < k < |s| ==> IsSpace(s[k])
    requires NoEdgeSpace(r)
    ensures i + |r| == q + 1
  {
    assert i <= q < i + |r|;
    assert s[i + |r| - 1] == Last(r);
  }


  // ---------------------------------------------------------------------
  // str.split() on whitespace, and " ".join(...)
  // ---------------------------------------------------------------------

  /** Length of the leading run of non-whitespace characters. */
  function WordLength(s: String): (n: nat)
    ensures n <= |s|
    ensures forall i :: 0 <= i < n ==> !IsSpace(s[i])
    ensures n < |s| ==> IsSpace(s[n])
  {
    if s == [] || IsSpace(s[0]) then 0 else 1 + WordLength(s[1..])
  }

  /** Python's `s.split()`: the maximal runs of non-whitespace, in order. */
  function Words(s: String): (ws: seq<String>)
    ensures forall k :: 0 <= k < |ws| ==> IsWord(ws[k])
    decreases |s|
  {
    var t := TrimStart(s);
    if t == [] then []
    else
      var n := WordLength(t);
      var rest := Words(t[n..]);
      assert IsWord(t[..n]) by {
        assert t[..n][0] == t[0];
      }
      WordsCons(t[..n], rest);
      [t[..n]] + rest
  }

  lemma WordsCons(w: String, ws: seq<String>)
    requires IsWord(w) && forall k :: 0 <= k < |ws| ==> IsWord(ws[k])
    ensures forall k :: 0 <= k < |[w] + ws| ==> IsWord(([w] + ws)[k])
  {
  }

  /** Words joined by single spaces form clean text. */
  lemma {:induction false} JoinWordsClean(ws: seq<String>)
    requires forall k :: 0 <= k < |ws| ==> IsWord(ws[k])
    ensures Clean(Join(ws, " "))
  {
    if |ws| > 1 {
      var w := ws[0];
      var rest := Join(ws[1..], " ");
      JoinWordsClean(ws[1..]);
      assert IsPrefix(ws[1..][0], rest);
      var s := w + " " + rest;
      assert Join(ws, " ") == s;
      forall i | 0 <= i < |s| - 1 && s[i] == ' '
        ensures s[i + 1] != ' '
      {
        if i >= |w| + 1 {
          assert s[i] == rest[i - |w| - 1] && s[i + 1] == rest[i - |w|];
        }
      }
      forall i | 0 <= i < |s| && IsSpace(s[i])
        ensures s[i] == ' '
      {
        if i > |w| {
          assert s[i] == rest[i - |w| - 1];
        }
      }
    }
  }

  /** Clean text is the single-space join of its own words. */
  lemma {:induction false} JoinWordsOfClean(s: String)
    requires Clean(s)
    ensures Join(Words(s), " ") == s
    decreases |s|
  {
    if s != [] {
      assert TrimStart(s) == s;
      var n := WordLength(s);
      if n < |s| {
        CleanAfterSpace(s, n);
        var u := s[n + 1..];
        SplitAround(s, n);
        WordsSkipSpace(s[n], u);
        JoinWordsOfClean(u);
        JoinCons(s[..n], Words(u), " ");
      } else {
        assert s[n..] == [] && TrimStart(s[n..]) == [];
        assert s[..n] == s;
      }
    }
  }

  /** After a space in clean text, what follows is clean, non-empty text. */
  lemma CleanAfterSpace(s: String, n: nat)
    requires Clean(s) && n < |s| && IsSpace(s[n])
    ensures s[n] == ' ' && n + 1 < |s| && Clean(s[n + 1..])
  {
    var u := s[n + 1..];
    assert u != [] ==> u[0] == s[n + 1] && Last(u) == Last(s);
    forall i | 0 <= i < |u| - 1 && u[i] == ' '
      ensures u[i + 1] != ' '
    {
      assert u[i] == s[n + 1 + i] && u[i + 1] == s[n + 2 + i];
    }
    forall i | 0 <= i < |u| && IsSpace(u[i])
      ensures u[i] == ' '
    {
      assert u[i] == s[n + 1 + i];
    }
  }

  lemma SplitAround(s: String, n: nat)
    requires n < |s|
    ensures s == s[..n] + [s[n]] + s[n + 1..]
    ensures s[n..] == [s[n]] + s[n + 1..]
  {
  }

  /** Leading whitespace does not change the words. */
  lemma WordsSkipSpace(c: char, u: String)
    requires IsSpace(c)
    ensures Words([c] + u) == Words(u)
  {
    assert ([c] + u)[1..] == u;
    assert TrimStart([c] + u) == TrimStart(u);
  }

  lemma JoinCons(w: String, ws: seq<String>, sep: String)
    requires ws != []
    ensures Join([w] + ws, sep) == w + sep + Join(ws, sep)
  {
    assert ([w] + ws)[1..] == ws;
  }

  /** Splitting words joined by single spaces gives the words back. */
  lemma {:induction false} WordsOfJoin(ws: seq<String>)
    requires forall k :: 0 <= k < |ws| ==> IsWord(ws[k])
    ensures Words(Join(ws, " ")) == ws
    decreases |ws|
  {
    if ws == [] {
      WordsOfNoWords(ws);
    } else if |ws| == 1 {
      WordsOfOneWord(ws);
    } else {
      WordsTail(ws);
      WordsOfJoin(ws[1..]);
      WordsOfJoinCons(ws[0], ws[1..]);
      HeadTail(ws);
    }
  }

  lemma WordsOfNoWords(ws: seq<String>)
    requires ws == []
    ensures Words(Join(ws, " ")) == ws
  {
    assert TrimStart([]) == [];
  }


  lemma WordsTail(ws: seq<String>)
    requires ws != [] && forall k :: 0 <= k < |ws| ==> IsWord(ws[k])
    ensures IsWord(ws[0]) && forall k :: 0 <= k < |ws[1..]| ==> IsWord(ws[1..][k])
  {
    forall k | 0 <= k < |ws[1..]| ensures IsWord(ws[1..][k]) {
      assert ws[1..][k] == ws[k + 1];
    }
  }

  lemma WordsOfOneWord(ws: seq<String>)
    requires |ws| == 1 && IsWord(ws[0])
    ensures Words(Join(ws, " ")) == ws
  {
    var w := ws[0];
    assert ws == [w];
    WordsAfterWord(w, []);
    assert w + [] == w;
    assert TrimStart([]) == [];
  }


  /** One more word in front of a joined list that splits back adds that word in front. */
  lemma WordsOfJoinCons(w: String, tail: seq<String>)
    requires IsWord(w) && tail != []
    requires Words(Join(tail, " ")) == tail
    ensures Words(Join([w] + tail, " ")) == [w] + tail
  {
    JoinCons(w, tail, " ");
    WordsSpaceAfterWord(w, Join(tail, " "));
  }

  // A one-step fact, kept as its own lemma so the proofs that use it stay cheap.
  lemma HeadTail<T>(s: seq<T>)
    requires s != []
    ensures s == [s[0]] + s[1..]
  {
  }



  lemma WordsSpaceAfterWord(w: String, rest: String)
    requires IsWord(w)
    ensures Words(w + " " + rest) == [w] + Words(rest)
  {
    var u := [' '] + rest;
    assert w + " " + rest == w + u;
    WordsAfterWord(w, u);
    WordsSkipSpace(' ', rest);
  }

  /** A word followed by whitespace or nothing is the first word. */
  lemma WordsAfterWord(w: String, u: String)
    requires IsWord(w) && (u == [] || IsSpace(u[0]))
    ensures Words(w + u) == [w] + Words(u)
  {
    var s := w + u;
    assert s[0] == w[0];
    assert TrimStart(s) == s;
    WordLengthOfWord(s, |w|);
    assert s[..|w|] == w && s[|w|..] == u;
  }

  /** A word followed by whitespace or nothing is the whole leading run. */
  lemma WordLengthOfWord(s: String, n: nat)
    requires n <= |s| && forall i :: 0 <= i < n ==> !IsSpace(s[i])
    requires n < |s| ==> IsSpace(s[n])
    ensures WordLength(s) == n
  {
  }

  /**
   * Python's `" ".join(s.split())`: the words of `s`, in order, separated by
   * single spaces, so clean text with the same words, and clean text unchanged.
   */
  function CollapseWhitespace(s: String): (r: String)
    ensures Clean(r)
    ensures Words(r) == Words(s)
    ensures Clean(s) ==> r == s
  {
    JoinWordsClean(Words(s));
    WordsOfJoin(Words(s));
    assert Clean(s) ==> Join(Words(s), " ") == s by {
      if Clean(s) { JoinWordsOfClean(s); }
    }
    Join(Words(s), " ")
  }

  // ---------------------------------------------------------------------
  // rsplit(c, 1)[0]
  // ---------------------------------------------------------------------

  /** Python's `s.rfind(c)`: the index of the last `c`, or -1. */
  function LastIndexOf(s: String, c: char): (k: int)
    ensures -1 <= k < |s|
    ensures k >= 0 ==> s[k] == c
    ensures forall i :: k < i < |s| ==> s[i] != c
  {
    if s == [] then -1
    else if Last(s) == c then |s| - 1
    else LastIndexOf(s[..|s| - 1], c)
  }

  /**
   * Python's `s.rsplit(c, 1)[0]` for a one-character separator: the text
   * before the last `c`, or all of `s` when `c` does not occur.
   */
  function BeforeLast(s: String, c: char): (h: String)
    ensures IsPrefix(h, s)
    ensures c in s ==> |h| < |s| && s[|h|] == c && c !in s[|h| + 1..]
    ensures c !in s ==> h == s
  {
    var k := LastIndexOf(s, c);
    if k >= 0 then s[..k] else s
  }

  /**
   * A prefix of clean text followed by a non-empty tail without whitespace
   * is clean: cutting clean text and appending punctuation keeps it clean.
   */
  lemma CleanPrefixThen(s: String, p: String, tail: String)
    requires Clean(s) && IsPrefix(p, s)
    requires tail != [] && forall i :: 0 <= i < |tail| ==> !IsSpace(tail[i])
    ensures Clean(p + tail)
  {
    var r := p + tail;
    assert p == s[..|p|];
    forall i | 0 <= i < |r| - 1
      ensures r[i] == ' ' ==> r[i + 1] != ' '
    {
      if i < |p| - 1 {
        assert r[i] == s[i] && r[i + 1] == s[i + 1];
      } else if i >= |p| {
        assert r[i] == tail[i - |p|];
      }
    }
    forall i | 0 <= i < |r|
      ensures IsSpace(r[i]) ==> r[i] == ' '
    {
      if i < |p| {
        assert r[i] == s[i];
      } else {
        assert r[i] == tail[i - |p|];
      }
    }
    assert Last(r) == Last(tail);
    if p != [] {
      assert r[0] == s[0];
    }
  }

}
