/** String work on materialized paths such as "/2/5/12": substring search, splitting on
    the separator, the decimal text of an id, the path a moved entry receives and the
    rewrite of a subtree's paths. */
module Paths {

  const Separator: char := '/'

  // ---------------------------------------------------------------------------
  // Substring search

  /** `needle` occurs in `haystack` starting at index `i`. */
  predicate OccursAt(haystack: string, needle: string, i: int)
  {
    0 <= i <= |haystack| - |needle| && haystack[i..i + |needle|] == needle
  }

  /** Substring containment as PHP's `str_contains` tests it: a prefix at some offset. */
  predicate Contains(haystack: string, needle: string)
    decreases |haystack|
  {
    needle <= haystack || (haystack != [] && Contains(haystack[1..], needle))
  }

  /** An occurrence in the tail is an occurrence one index later in the whole string. */
  lemma OccursShift(haystack: string, needle: string, i: int)
    requires haystack != [] && 0 <= i
    ensures OccursAt(haystack[1..], needle, i) <==> OccursAt(haystack, needle, i + 1)
  {
    if 0 <= i <= |haystack| - 1 - |needle| {
      assert haystack[1..][i..i + |needle|] == haystack[i + 1..i + 1 + |needle|];
    }
  }

  /** The recursive search agrees with the positional definition, in both directions. */
  lemma {:induction false} ContainsIffOccurs(haystack: string, needle: string)
    ensures Contains(haystack, needle) <==> exists i :: OccursAt(haystack, needle, i)
    decreases |haystack|
  {
    if needle <= haystack {
      assert OccursAt(haystack, needle, 0);
    } else if haystack != [] {
      var tail := haystack[1..];
      ContainsIffOccurs(tail, needle);
      if i :| OccursAt(haystack, needle, i) {
        assert i != 0;
        OccursShift(haystack, needle, i - 1);
      }
      if j :| OccursAt(tail, needle, j) {
        OccursShift(haystack, needle, j);
      }
    } else {
      assert forall i :: !OccursAt(haystack, needle, i);
    }
  }

  /** A one-character needle is contained exactly when the character occurs. */
  lemma {:induction false} ContainsChar(haystack: string, c: char)
    ensures Contains(haystack, [c]) <==> c in haystack
    decreases |haystack|
  {
    if haystack != [] {
      ContainsChar(haystack[1..], c);
      assert c in haystack <==> haystack[0] == c || c in haystack[1..];
    }
  }

  /** A string contains each of its suffixes. */
  lemma {:induction false} ContainsSuffix(s: string, suffix: string)
    requires |suffix| <= |s| && s[|s| - |suffix|..] == suffix
    ensures Contains(s, suffix)
    decreases |s|
  {
    if |s| == |suffix| {
      assert s == suffix;
    } else {
      assert s[1..][|s| - 1 - |suffix|..] == suffix;
      ContainsSuffix(s[1..], suffix);
    }
  }

  /** Whatever a string contains, any extension of it contains too. */
  lemma {:induction false} ContainsExtend(s: string, more: string, needle: string)
    requires Contains(s, needle)
    ensures Contains(s + more, needle)
    decreases |s|
  {
    if !(needle <= s) {
      assert (s + more)[1..] == s[1..] + more;
      ContainsExtend(s[1..], more, needle);
    }
  }

  /** Whatever a prefix of `s` contains, `s` contains. */
  lemma ContainsThroughPrefix(prefix: string, s: string, needle: string)
    requires prefix <= s && Contains(prefix, needle)
    ensures Contains(s, needle)
  {
    assert s == prefix + s[|prefix|..];
    ContainsExtend(prefix, s[|prefix|..], needle);
  }

  // ---------------------------------------------------------------------------
  // explode / implode on the separator

  /** PHP's `explode('/', s)`: the pieces between separators, empty pieces included.
      Defined from the end of the string, so that the last piece is easy to reach. */
  function Explode(s: string): (segments: seq<string>)
    ensures |segments| >= 1
    ensures forall k :: 0 <= k < |segments| ==> Separator !in segments[k]
    decreases |s|
  {
    if s == [] then [""]
    else
      var t := Explode(s[..|s| - 1]);
      var c := s[|s| - 1];
      if c == Separator then t + [""]
      else t[..|t| - 1] + [t[|t| - 1] + [c]]
  }

  /** PHP's `implode('/', segments)`. */
  function Implode(segments: seq<string>): string
    requires |segments| >= 1
  {
    if |segments| == 1 then segments[0]
    else Implode(segments[..|segments| - 1]) + [Separator] + segments[|segments| - 1]
  }

  /** Appending an empty piece appends a separator to the join. */
  lemma ImplodeAppendEmpty(t: seq<string>)
    requires |t| >= 1
    ensures Implode(t + [""]) == Implode(t) + [Separator]
  {
    assert (t + [""])[..|t|] == t;
  }

  /** Extending the last piece by one character extends the join by that character. */
  lemma ImplodeExtendLast(t: seq<string>, c: char)
    requires |t| >= 1
    ensures Implode(t[..|t| - 1] + [t[|t| - 1] + [c]]) == Implode(t) + [c]
  {
    var segments := t[..|t| - 1] + [t[|t| - 1] + [c]];
    if |t| > 1 {
      assert segments[..|segments| - 1] == t[..|t| - 1];
    }
  }

  /** Joining the pieces of a split gives back the string. */
  lemma {:induction false} ImplodeExplode(s: string)
    ensures Implode(Explode(s)) == s
    decreases |s|
  {
    if s != [] {
      var init := s[..|s| - 1];
      var t := Explode(init);
      ImplodeExplode(init);
      assert s == init + [s[|s| - 1]];
      if s[|s| - 1] == Separator {
        ImplodeAppendEmpty(t);
      } else {
        ImplodeExtendLast(t, s[|s| - 1]);
      }
    }
  }

  /** A string without a separator splits into itself. */
  lemma {:induction false} ExplodeSingle(s: string)
    requires Separator !in s
    ensures Explode(s) == [s]
    decreases |s|
  {
    if s != [] {
      ExplodeSingle(s[..|s| - 1]);
      assert s[..|s| - 1] + [s[|s| - 1]] == s;
    }
  }

  /** Appending a separator and a separator-free piece appends exactly that piece. */
  lemma {:induction false} ExplodeAppend(a: string, b: string)
    requires Separator !in b
    ensures Explode(a + [Separator] + b) == Explode(a) + [b]
    decreases |b|
  {
    var s := a + [Separator] + b;
    if b == [] {
      assert s[..|s| - 1] == a;
    } else {
      var b' := b[..|b| - 1];
      assert s[..|s| - 1] == a + [Separator] + b';
      ExplodeAppend(a, b');
      assert b' + [b[|b| - 1]] == b;
    }
  }

  /** Splitting a join of separator-free pieces gives back the pieces. */
  lemma {:induction false} ExplodeImplode(segments: seq<string>)
    requires |segments| >= 1
    requires forall k :: 0 <= k < |segments| ==> Separator !in segments[k]
    ensures Explode(Implode(segments)) == segments
    decreases |segments|
  {
    if |segments| == 1 {
      ExplodeSingle(segments[0]);
    } else {
      var init := segments[..|segments| - 1];
      ExplodeImplode(init);
      ExplodeAppend(Implode(init), segments[|segments| - 1]);
    }
  }

  /** `last(explode('/', path))`: the trailing segment that names an entry itself. */
  function LastSegment(path: string): string
  {
    var segments := Explode(path);
    segments[|segments| - 1]
  }

  /** The last segment has no separator, ends the path, and is either the whole path or
      preceded by a separator. */
  lemma LastSegmentSplit(path: string)
    ensures Separator !in LastSegment(path)
    ensures |LastSegment(path)| <= |path|
    ensures path[|path| - |LastSegment(path)|..] == LastSegment(path)
    ensures path == LastSegment(path)
         || path == path[..|path| - |LastSegment(path)| - 1] + [Separator] + LastSegment(path)
  {
    var segments := Explode(path);
    ImplodeExplode(path);
    if |segments| > 1 {
      var init := Implode(segments[..|segments| - 1]);
      assert path == init + [Separator] + LastSegment(path);
      assert path[..|path| - |LastSegment(path)| - 1] == init;
    }
  }

  /** The last segment of `a/b` is `b` when `b` has no separator. */
  lemma LastSegmentOfJoin(a: string, b: string)
    requires Separator !in b
    ensures LastSegment(a + [Separator] + b) == b
  {
    ExplodeAppend(a, b);
  }

  /** Adding a character to the end changes only the last piece of a split. */
  lemma {:induction false} ExplodeKeepsEarlier(init: string, c: char, k: int)
    requires 0 <= k < |Explode(init + [c])| - 1
    ensures k < |Explode(init)| && Explode(init + [c])[k] == Explode(init)[k]
  {
    var s := init + [c];
    assert s[..|s| - 1] == init && s[|s| - 1] == c;
    var t := Explode(init);
    var segments := Explode(s);
    if c == Separator {
      assert segments == t + [""];
    } else {
      assert segments == t[..|t| - 1] + [t[|t| - 1] + [c]];
    }
  }

  /** Every piece of a split is a substring of the string. */
  lemma {:induction false} SegmentsAreContained(s: string, k: int)
    requires 0 <= k < |Explode(s)|
    ensures Contains(s, Explode(s)[k])
    decreases |s|
  {
    var segments := Explode(s);
    if s == [] {
      assert segments[k] == "";
    } else if k == |segments| - 1 {
      assert segments[k] == LastSegment(s);
      LastSegmentSplit(s);
      ContainsSuffix(s, segments[k]);
    } else {
      var init := s[..|s| - 1];
      assert init + [s[|s| - 1]] == s;
      ExplodeKeepsEarlier(init, s[|s| - 1], k);
      SegmentsAreContained(init, k);
      ContainsExtend(init, [s[|s| - 1]], segments[k]);
      assert init + [s[|s| - 1]] == s;
    }
  }

  // ---------------------------------------------------------------------------
  // Decimal text of an id (PHP's int-to-string conversion)

  predicate IsDigit(c: char) { '0' <= c <= '9' }

  predicate AllDigits(s: string) { forall k :: 0 <= k < |s| ==> IsDigit(s[k]) }

  /** The shapes the decimal text of an integer can take: digits, or '-' and digits. */
  predicate IsDecimalText(s: string)
  {
    (|s| >= 1 && AllDigits(s)) || (|s| >= 2 && s[0] == '-' && AllDigits(s[1..]))
  }

  function DigitChar(d: nat): char
    requires d < 10
  {
    (48 + d) as char
  }

  function DigitValue(c: char): nat
    requires IsDigit(c)
  {
    c as int - 48
  }

  /** The decimal digits of a natural number, most significant first. */
  function Digits(n: nat): (s: string)
    ensures |s| >= 1 && AllDigits(s)
    ensures s[0] == '0' <==> n == 0
    ensures n == 0 ==> s == "0"
    decreases n
  {
    if n < 10 then [DigitChar(n)] else Digits(n / 10) + [DigitChar(n % 10)]
  }

  /** The text PHP produces when an integer id is used as a string: canonical, so no
      leading zero and no "-0". */
  function DecimalText(n: int): (s: string)
    ensures IsDecimalText(s)
    ensures s != [] && Separator !in s
    ensures s[0] == '-' <==> n < 0
    ensures s[0] == '0' ==> s == "0"
    ensures n < 0 ==> s[1] != '0'
  {
    if n < 0 then "-" + Digits(-n) else Digits(n)
  }

  function ParseDigits(s: string): nat
    requires |s| >= 1 && AllDigits(s)
  {
    if |s| == 1 then DigitValue(s[0])
    else 10 * ParseDigits(s[..|s| - 1]) + DigitValue(s[|s| - 1])
  }

  /** Reads decimal text back as the integer it denotes. */
  function ParseDecimal(s: string): int
    requires IsDecimalText(s)
  {
    if s[0] == '-' then -(ParseDigits(s[1..]) as int) else ParseDigits(s)
  }

  lemma {:induction false} DigitsRoundTrip(n: nat)
    ensures ParseDigits(Digits(n)) == n
    decreases n
  {
    if n >= 10 {
      DigitsRoundTrip(n / 10);
      var s := Digits(n);
      assert s[..|s| - 1] == Digits(n / 10);
    }
  }

  /** Parsing the decimal text of an integer gives the integer back. */
  lemma DecimalRoundTrip(n: int)
    ensures ParseDecimal(DecimalText(n)) == n
  {
    if n < 0 {
      DigitsRoundTrip(-n);
      assert DecimalText(n)[1..] == Digits(-n);
    } else {
      DigitsRoundTrip(n);
    }
  }

  /** Distinct ids have distinct decimal texts. */
  lemma DecimalTextInjective(a: int, b: int)
    requires DecimalText(a) == DecimalText(b)
    ensures a == b
  {
    DecimalRoundTrip(a);
    DecimalRoundTrip(b);
  }

  // ---------------------------------------------------------------------------
  // Paths of moved entries

  /** The path a moved entry receives: the destination's path (empty for the root),
      a separator, and the entry's own last segment. */
  function NewPath(destinationPath: string, oldPath: string): string
  {
    destinationPath + [Separator] + LastSegment(oldPath)
  }

  /** The new path lies directly under the destination and keeps the entry's own segment. */
  lemma NewPathShape(destinationPath: string, oldPath: string)
    ensures destinationPath + [Separator] <= NewPath(destinationPath, oldPath)
    ensures LastSegment(NewPath(destinationPath, oldPath)) == LastSegment(oldPath)
    ensures Explode(NewPath(destinationPath, oldPath)) == Explode(destinationPath) + [LastSegment(oldPath)]
  {
    LastSegmentSplit(oldPath);
    ExplodeAppend(destinationPath, LastSegment(oldPath));
  }

  /** `path` is `prefix` itself or lies in the subtree below it. */
  predicate Within(path: string, prefix: string)
  {
    path == prefix || prefix + [Separator] <= path
  }

  /** Two subtrees that share a path are nested, one within the other. */
  lemma WithinComparable(path: string, a: string, b: string)
    requires Within(path, a) && Within(path, b)
    ensures Within(a, b) || Within(b, a)
  {
    if path != a && path != b {
      if |a| < |b| {
        assert a + [Separator] == path[..|a| + 1] == b[..|a| + 1];
      } else if |b| < |a| {
        assert b + [Separator] == path[..|b| + 1] == a[..|b| + 1];
      } else {
        assert a == path[..|a|] == b;
      }
    }
  }

  /** The effect the store's path update has on one stored path: the entry whose path is
      `oldPath` gets `newPath`, and a path `oldPath/rest` becomes `newPath/rest`. */
  function RewritePath(path: string, oldPath: string, newPath: string): (r: string)
  {
    if path == oldPath then newPath
    else if oldPath + [Separator] <= path then newPath + path[|oldPath|..]
    else path
  }

  /** Rewriting moves exactly the subtree: paths inside it keep their remainder below the
      new prefix, paths outside it are untouched, and rewriting back restores them. */
  lemma RewritePathSubtree(path: string, oldPath: string, newPath: string)
    ensures Within(path, oldPath) ==>
              Within(RewritePath(path, oldPath, newPath), newPath)
              && RewritePath(path, oldPath, newPath) == newPath + path[|oldPath|..]
              && RewritePath(RewritePath(path, oldPath, newPath), newPath, oldPath) == path
    ensures !Within(path, oldPath) ==> RewritePath(path, oldPath, newPath) == path
  {
    if path != oldPath && oldPath + [Separator] <= path {
      var r := newPath + path[|oldPath|..];
      assert r[|newPath|..] == path[|oldPath|..];
      assert oldPath + r[|newPath|..] == path;
    }
  }

  /** For a path `parent/child` with a separator-free `child`: it lies strictly inside the
      subtree of `prefix` exactly when `parent` lies within it, and then its rewrite is the
      rewrite of `parent` followed by `/child`. */
  lemma {:induction false} ChildWithin(parent: string, child: string, prefix: string, newPrefix: string)
    requires Separator !in child
    ensures Within(parent + [Separator] + child, prefix) && parent + [Separator] + child != prefix
            <==> Within(parent, prefix)
    ensures Within(parent, prefix) ==>
              RewritePath(parent + [Separator] + child, prefix, newPrefix)
              == RewritePath(parent, prefix, newPrefix) + [Separator] + child
  {
    var path := parent + [Separator] + child;
    if Within(path, prefix) && path != prefix {
      assert prefix + [Separator] <= path;
      var n := |prefix|;
      assert path[n] == Separator;
      assert forall j :: |parent| < j < |path| ==> path[j] == child[j - |parent| - 1];
      assert n <= |parent|;
      if n == |parent| {
        assert prefix == path[..n] == parent;
      } else {
        assert prefix + [Separator] == path[..n + 1] == parent[..n + 1];
      }
    }
    if Within(parent, prefix) {
      assert prefix + [Separator] <= path;
      assert |path| > |prefix|;
      if parent == prefix {
        assert path[|prefix|..] == [Separator] + child;
      } else {
        assert path[|prefix|..] == parent[|prefix|..] + [Separator] + child;
      }
    }
  }
}
