/** The java.lang.String operations the controller relies on, restricted to ASCII case rules.
    A Java String is a `string` here; a nullable one is a `JString`. */
module JavaStrings {
  import opened Sequences

  /** A Java String reference: null or a character sequence. */
  datatype JString = Null | Str(value: string)

  // ---------------------------------------------------------------------------
  // Case mapping (Character.toLowerCase / toUpperCase on ASCII)

  predicate IsUpper(c: char) { 'A' <= c <= 'Z' }

  predicate IsLower(c: char) { 'a' <= c <= 'z' }

  function LowerChar(c: char): (r: char)
    ensures !IsUpper(r)
    ensures IsUpper(c) ==> r as int == c as int + 32
    ensures !IsUpper(c) ==> r == c
  {
    if IsUpper(c) then (c as int + 32) as char else c
  }

  function UpperChar(c: char): (r: char)
    ensures !IsLower(r)
    ensures IsLower(c) ==> r as int == c as int - 32
    ensures !IsLower(c) ==> r == c
  {
    if IsLower(c) then (c as int - 32) as char else c
  }

  /** String.toLowerCase(). */
  function Lower(s: string): (r: string)
    ensures |r| == |s|
    ensures forall i :: 0 <= i < |s| ==> r[i] == LowerChar(s[i])
  {
    seq(|s|, i requires 0 <= i < |s| => LowerChar(s[i]))
  }

  predicate NoUpper(s: string) { forall i :: 0 <= i < |s| ==> !IsUpper(s[i]) }

  /** Every slice of a lower-cased string is free of upper-case letters. */
  lemma SliceOfLower(s: string, i: nat, j: nat)
    requires i <= j <= |s|
    ensures NoUpper(Lower(s)[i..j])
  {
    var r := Lower(s)[i..j];
    assert forall k :: 0 <= k < |r| ==> r[k] == LowerChar(s[i + k]);
  }

  lemma LowerAppend(a: string, b: string)
    ensures Lower(a + b) == Lower(a) + Lower(b)
  {
    assert forall i :: 0 <= i < |a + b| ==> Lower(a + b)[i] == (Lower(a) + Lower(b))[i];
  }

  lemma LowerOfLowerCase(s: string)
    requires NoUpper(s)
    ensures Lower(s) == s
  {
    assert forall i :: 0 <= i < |s| ==> Lower(s)[i] == s[i];
  }

  /** The comparison equalsIgnoreCase makes for one pair of characters: equal, or equal upper-cased. */
  predicate CharEqualsIgnoreCase(x: char, y: char)
  {
    x == y || UpperChar(x) == UpperChar(y)
  }

  /** String.equalsIgnoreCase(other) for a non-null other: same length, and every pair of
      characters compares equal ignoring case. */
  predicate EqualsIgnoreCase(a: string, b: string)
  {
    |a| == |b| && forall i :: 0 <= i < |a| ==> CharEqualsIgnoreCase(a[i], b[i])
  }

  /** Comparing ignoring case is comparing the lower-cased forms. */
  lemma EqualsIgnoreCaseIffLowerEqual(a: string, b: string)
    ensures EqualsIgnoreCase(a, b) <==> Lower(a) == Lower(b)
  {
    if EqualsIgnoreCase(a, b) {
      assert forall i :: 0 <= i < |a| ==> Lower(a)[i] == Lower(b)[i];
    }
    if Lower(a) == Lower(b) {
      forall i | 0 <= i < |a| ensures CharEqualsIgnoreCase(a[i], b[i]) {
        assert LowerChar(a[i]) == Lower(a)[i] == Lower(b)[i] == LowerChar(b[i]);
      }
    }
  }

  // ---------------------------------------------------------------------------
  // trim, startsWith, indexOf, replace

  /** Characters String.trim() strips: code points up to and including the space. */
  predicate IsTrimmed(c: char) { c <= ' ' }

  /** The number of strippable characters at the start of `s`. */
  function LeadingTrimmed(s: string): (n: nat)
    ensures n <= |s|
    ensures forall i :: 0 <= i < n ==> IsTrimmed(s[i])
    ensures n == |s| || !IsTrimmed(s[n])
    decreases |s|
  {
    if s != [] && IsTrimmed(s[0]) then 1 + LeadingTrimmed(s[1..]) else 0
  }

  function TrimStart(s: string): string
  {
    s[LeadingTrimmed(s)..]
  }

  function TrimEnd(s: string): (r: string)
    ensures |r| <= |s| && r == s[..|r|]
    ensures r == [] || !IsTrimmed(r[|r| - 1])
    ensures forall i :: |r| <= i < |s| ==> IsTrimmed(s[i])
    decreases |s|
  {
    if s != [] && IsTrimmed(s[|s| - 1]) then TrimEnd(s[..|s| - 1]) else s
  }

  /** String.trim(): the longest substring with neither a leading nor a trailing character <= ' '. */
  function Trim(s: string): string
  {
    TrimEnd(TrimStart(s))
  }

  /** A string with no strippable character at either end is its own trim. */
  lemma TrimUntouched(s: string)
    requires s == [] || (!IsTrimmed(s[0]) && !IsTrimmed(s[|s| - 1]))
    ensures TrimStart(s) == s && TrimEnd(s) == s && Trim(s) == s
  {
  }

  /** Leading strippable characters do not change the trim. */
  lemma TrimAfterLeading(c: char, s: string)
    requires IsTrimmed(c)
    ensures Trim([c] + s) == Trim(s)
  {
    assert ([c] + s)[1..] == s;
  }

  /** What trim keeps: the slice of `s` after its leading strippable characters and before its
      trailing ones, starting and ending with a character that is not strippable. */
  lemma TrimShape(s: string)
    ensures var k := LeadingTrimmed(s); var r := Trim(s);
      k + |r| <= |s| && r == s[k..k + |r|]
    ensures var r := Trim(s); r == [] || (!IsTrimmed(r[0]) && !IsTrimmed(r[|r| - 1]))
    ensures forall i :: 0 <= i < LeadingTrimmed(s) ==> IsTrimmed(s[i])
    ensures forall i :: LeadingTrimmed(s) + |Trim(s)| <= i < |s| ==> IsTrimmed(s[i])
  {
    var k := LeadingTrimmed(s);
    var t := s[k..];
    var r := TrimEnd(t);
    assert r == s[k..k + |r|] by {
      assert r == t[..|r|];
    }
    assert forall i :: k + |r| <= i < |s| ==> IsTrimmed(s[i]) by {
      forall i | k + |r| <= i < |s| ensures IsTrimmed(s[i]) {
        assert s[i] == t[i - k];
      }
    }
    assert r == [] || !IsTrimmed(r[0]) by {
      if r != [] {
        assert r[0] == s[k];
      }
    }
  }

  /** String.startsWith(prefix). */
  predicate StartsWith(s: string, prefix: string)
  {
    |prefix| <= |s| && s[..|prefix|] == prefix
  }

  /** String.indexOf(c): the first position of `c`, or -1. */
  function IndexOf(s: string, c: char): (r: int)
    ensures -1 <= r < |s|
    ensures r == -1 <==> c !in s
    ensures 0 <= r ==> s[r] == c && c !in s[..r]
    decreases |s|
  {
    if s == [] then -1
    else if s[0] == c then 0
    else
      var k := IndexOf(s[1..], c);
      assert s[1..][..k + 1] == s[1..k + 2];
      if k == -1 then -1 else k + 1
  }

  /** indexOf finds the first occurrence. */
  lemma IndexOfFirst(s: string, c: char, k: nat)
    requires k < |s| && s[k] == c && c !in s[..k]
    ensures IndexOf(s, c) == k
  {
  }

  /** String.replace(c, "") on a one-character target: every `c` removed, the rest kept in order. */
  function RemoveAll(s: string, c: char): (r: string)
    ensures c !in r
    ensures |r| <= |s|
    ensures c !in s ==> r == s
    decreases |s|
  {
    if s == [] then []
    else if s[0] == c then RemoveAll(s[1..], c)
    else [s[0]] + RemoveAll(s[1..], c)
  }

  /** Removing `c` keeps every other character, each as often as before. */
  lemma {:induction false} RemoveAllCounts(s: string, c: char)
    ensures multiset(RemoveAll(s, c)) == multiset(s)[c := 0]
    decreases |s|
  {
    if s != [] {
      RemoveAllCounts(s[1..], c);
      assert s == [s[0]] + s[1..];
      assert multiset(s) == multiset{s[0]} + multiset(s[1..]);
    }
  }

  lemma {:induction false} RemoveAllAppend(a: string, b: string, c: char)
    ensures RemoveAll(a + b, c) == RemoveAll(a, c) + RemoveAll(b, c)
    decreases |a|
  {
    if a != [] {
      RemoveAllAppend(a[1..], b, c);
      assert (a + b)[0] == a[0];
      assert (a + b)[1..] == a[1..] + b;
      if a[0] != c {
        calc {
          RemoveAll(a + b, c);
          [a[0]] + RemoveAll(a[1..] + b, c);
          [a[0]] + (RemoveAll(a[1..], c) + RemoveAll(b, c));
          ([a[0]] + RemoveAll(a[1..], c)) + RemoveAll(b, c);
        }
      }
    } else {
      assert a + b == b;
    }
  }

  // ---------------------------------------------------------------------------
  // split

  /** Every piece between separators, trailing empty pieces included: the text before the
      first separator, between each pair, and after the last. */
  function Segments(s: string, sep: char): (r: seq<string>)
    ensures |r| >= 1
    ensures forall i :: 0 <= i < |r| ==> sep !in r[i]
    decreases |s|
  {
    if s == [] then [[]]
    else
      var init := Segments(s[..|s| - 1], sep);
      var c := s[|s| - 1];
      if c == sep then init + [[]]
      else init[..|init| - 1] + [init[|init| - 1] + [c]]
  }

  /** The inverse of Segments: the pieces glued back with the separator. */
  function Join(xs: seq<string>, sep: char): string
    requires |xs| >= 1
    decreases |xs|
  {
    if |xs| == 1 then xs[0]
    else Join(xs[..|xs| - 1], sep) + [sep] + xs[|xs| - 1]
  }

  /** Splitting and joining gives back the original string. */
  lemma {:induction false} JoinSegments(s: string, sep: char)
    ensures Join(Segments(s, sep), sep) == s
    decreases |s|
  {
    if s != [] {
      var s' := s[..|s| - 1];
      var c := s[|s| - 1];
      var init := Segments(s', sep);
      JoinSegments(s', sep);
      assert s == s' + [c];
      if c == sep {
        var xs := init + [[]];
        assert xs[..|xs| - 1] == init;
      } else {
        JoinExtendLast(init, sep, c);
      }
    }
  }

  /** Extending the last piece by a character extends the joined string by it. */
  lemma JoinExtendLast(xs: seq<string>, sep: char, c: char)
    requires |xs| >= 1
    ensures Join(xs[..|xs| - 1] + [xs[|xs| - 1] + [c]], sep) == Join(xs, sep) + [c]
  {
    var front := xs[..|xs| - 1];
    var last := xs[|xs| - 1];
    var ys := front + [last + [c]];
    assert ys[..|ys| - 1] == front;
    if |xs| > 1 {
      assert Join(ys, sep) == Join(front, sep) + [sep] + (last + [c]);
    }
  }

  /** Appending a separator and a separator-free piece appends that piece to the segments. */
  lemma {:induction false} SegmentsAppendPiece(s: string, sep: char, t: string)
    requires sep !in t
    ensures Segments(s + [sep] + t, sep) == Segments(s, sep) + [t]
    decreases |t|
  {
    var u := s + [sep] + t;
    if t == [] {
      assert u[..|u| - 1] == s;
    } else {
      var t' := t[..|t| - 1];
      SegmentsAppendPiece(s, sep, t');
      assert u[..|u| - 1] == s + [sep] + t';
      assert t == t' + [t[|t| - 1]];
    }
  }

  lemma {:induction false} SegmentsWithoutSeparator(s: string, sep: char)
    requires sep !in s
    ensures Segments(s, sep) == [s]
    decreases |s|
  {
    if s != [] {
      SegmentsWithoutSeparator(s[..|s| - 1], sep);
      assert s == s[..|s| - 1] + [s[|s| - 1]];
    }
  }

  /** Joining separator-free pieces and splitting again gives back the pieces. */
  lemma {:induction false} SegmentsOfJoin(xs: seq<string>, sep: char)
    requires |xs| >= 1
    requires forall i :: 0 <= i < |xs| ==> sep !in xs[i]
    ensures Segments(Join(xs, sep), sep) == xs
    decreases |xs|
  {
    if |xs| == 1 {
      SegmentsWithoutSeparator(xs[0], sep);
    } else {
      var init := xs[..|xs| - 1];
      SegmentsOfJoin(init, sep);
      SegmentsAppendPiece(Join(init, sep), sep, xs[|xs| - 1]);
      assert xs == init + [xs[|xs| - 1]];
    }
  }

  /** Drops the empty strings at the end, as String.split with limit 0 does. */
  function DropTrailingEmpty(xs: seq<string>): (r: seq<string>)
    ensures |r| <= |xs| && r == xs[..|r|]
    ensures r == [] || r[|r| - 1] != []
    ensures forall j :: |r| <= j < |xs| ==> xs[j] == []
    decreases |xs|
  {
    if xs == [] then []
    else if xs[|xs| - 1] == [] then DropTrailingEmpty(xs[..|xs| - 1])
    else xs
  }

  /** String.split(sep) for a separator that is no regular-expression metacharacter
      (the single-character fast path, limit 0): a string without the separator comes back
      whole, even when empty; otherwise the pieces, with trailing empty ones removed. */
  function Split(s: string, sep: char): (r: seq<string>)
    ensures forall i :: 0 <= i < |r| ==> sep !in r[i]
    ensures sep !in s ==> r == [s]
    ensures sep in s ==> r == [] || r[|r| - 1] != []
  {
    if sep !in s then [s] else DropTrailingEmpty(Segments(s, sep))
  }

  /** The result of split is the raw pieces with some empty pieces dropped from the end. */
  lemma SplitIsSegmentsPrefix(s: string, sep: char)
    ensures var r := Split(s, sep); var xs := Segments(s, sep);
      |r| <= |xs| && r == xs[..|r|] && forall j :: |r| <= j < |xs| ==> xs[j] == []
  {
    if sep !in s {
      SegmentsWithoutSeparator(s, sep);
    }
  }

  // ---------------------------------------------------------------------------
  // A reference description of the last piece of a split, read from the end

  /** `s` without its trailing separators. */
  function TrimTrailing(s: string, sep: char): (r: string)
    ensures |r| <= |s| && r == s[..|r|]
    ensures r == [] || r[|r| - 1] != sep
    ensures forall j :: |r| <= j < |s| ==> s[j] == sep
    decreases |s|
  {
    if s == [] || s[|s| - 1] != sep then s else TrimTrailing(s[..|s| - 1], sep)
  }

  /** The text after the last separator (all of `s` when there is none). */
  function AfterLast(s: string, sep: char): (r: string)
    decreases |s|
  {
    if s == [] then []
    else if s[|s| - 1] == sep then []
    else AfterLast(s[..|s| - 1], sep) + [s[|s| - 1]]
  }

  /** What AfterLast yields: a suffix of `s` that holds no separator and follows one (or the start). */
  lemma {:induction false} AfterLastIsLastPiece(s: string, sep: char)
    ensures var r := AfterLast(s, sep);
      |r| <= |s| && r == s[|s| - |r|..] && sep !in r &&
      (|r| == |s| || s[|s| - |r| - 1] == sep)
    decreases |s|
  {
    if s != [] && s[|s| - 1] != sep {
      var s' := s[..|s| - 1];
      AfterLastIsLastPiece(s', sep);
      var r' := AfterLast(s', sep);
      assert s'[|s'| - |r'|..] + [s[|s| - 1]] == s[|s| - |r'| - 1..];
    }
  }

  /** The last piece of `s` once its trailing separators are gone: a separator-free slice of
      `s`, empty only when nothing but separators (or nothing) was there. */
  lemma AfterLastOfTrimmed(s: string, sep: char)
    ensures var t := TrimTrailing(s, sep); var a := AfterLast(t, sep);
      |a| <= |t| <= |s| && a == s[|t| - |a|..|t|] && sep !in a && (a == [] <==> t == [])
  {
    var t := TrimTrailing(s, sep);
    AfterLastIsLastPiece(t, sep);
    if t != [] {
      assert AfterLast(t, sep) == AfterLast(t[..|t| - 1], sep) + [t[|t| - 1]];
    }
  }

  lemma {:induction false} AfterLastWithoutSeparator(s: string, sep: char)
    requires sep !in s
    ensures AfterLast(s, sep) == s
    decreases |s|
  {
    if s != [] {
      AfterLastWithoutSeparator(s[..|s| - 1], sep);
    }
  }

  /** Only a string made of separators loses everything to TrimTrailing. */
  lemma {:induction false} TrimTrailingEmptyIff(s: string, sep: char)
    ensures TrimTrailing(s, sep) == [] <==> forall j :: 0 <= j < |s| ==> s[j] == sep
  {
  }

  /** The last piece of Segments is the text after the last separator. */
  lemma {:induction false} LastSegment(s: string, sep: char)
    ensures var xs := Segments(s, sep); xs[|xs| - 1] == AfterLast(s, sep)
    decreases |s|
  {
    if s != [] {
      LastSegment(s[..|s| - 1], sep);
    }
  }

  /** After the trailing empty pieces are dropped, nothing is left exactly when the string is
      separators only, and otherwise the last piece is the text after the last separator once
      the trailing separators are gone. */
  lemma {:induction false} LastNonEmptySegment(s: string, sep: char)
    ensures var r := DropTrailingEmpty(Segments(s, sep)); var t := TrimTrailing(s, sep);
      (r == [] <==> t == []) && (r != [] ==> r[|r| - 1] == AfterLast(t, sep))
    decreases |s|
  {
    if s != [] {
      var s' := s[..|s| - 1];
      var c := s[|s| - 1];
      var init := Segments(s', sep);
      if c == sep {
        LastNonEmptySegment(s', sep);
        var xs := init + [[]];
        assert xs[..|xs| - 1] == init;
      } else {
        LastSegment(s, sep);
        var xs := Segments(s, sep);
        assert xs[|xs| - 1] == init[|init| - 1] + [c];
      }
    }
  }
}
