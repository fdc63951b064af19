/** The few Python string built-ins the dependency decoder relies on:
    `str.replace(" ", "")`, `str.strip(chars)`, `str.split(sep)` and `sep.join(parts)`. */
module Strings {

  /** `s.replace(" ", "")`: every space is dropped, every other character is kept in order. */
  function RemoveSpaces(s: string): (r: string)
    ensures ' ' !in r
    ensures |r| <= |s|
    ensures ' ' !in s ==> r == s
  {
    if s == [] then []
    else if s[0] == ' ' then RemoveSpaces(s[1..])
    else [s[0]] + RemoveSpaces(s[1..])
  }

  /** Removing spaces drops exactly the spaces: every other character keeps its number of
      occurrences, and the length falls by the number of spaces. */
  lemma {:induction false} RemoveSpacesCounts(s: string)
    ensures multiset(RemoveSpaces(s)) == multiset(s)[' ' := 0]
    ensures |RemoveSpaces(s)| == |s| - multiset(s)[' ']
  {
    if s != [] {
      assert s == [s[0]] + s[1..];
      RemoveSpacesCounts(s[1..]);
    }
  }

  /** Removing spaces distributes over concatenation, so it acts on each piece of a string separately. */
  lemma {:induction false} RemoveSpacesAppend(a: string, b: string)
    ensures RemoveSpaces(a + b) == RemoveSpaces(a) + RemoveSpaces(b)
  {
    if a == [] {
      assert a + b == b;
    } else {
      assert (a + b)[0] == a[0];
      assert (a + b)[1..] == a[1..] + b;
      RemoveSpacesAppend(a[1..], b);
    }
  }

  /** `s.lstrip(chars)`: the longest suffix of s that does not start with one of chars. */
  function StripLeading(s: string, chars: set<char>): (r: string)
    ensures |r| <= |s| && r == s[|s| - |r|..]
    ensures r != [] ==> r[0] !in chars
    ensures forall i :: 0 <= i < |s| - |r| ==> s[i] in chars
  {
    if s != [] && s[0] in chars then
      StripLeading(s[1..], chars)
    else s
  }

  /** `s.rstrip(chars)`: the longest prefix of s that does not end with one of chars. */
  function StripTrailing(s: string, chars: set<char>): (r: string)
    ensures |r| <= |s| && r == s[..|r|]
    ensures r != [] ==> r[|r| - 1] !in chars
    ensures forall i :: |r| <= i < |s| ==> s[i] in chars
  {
    if s != [] && s[|s| - 1] in chars then StripTrailing(s[..|s| - 1], chars) else s
  }

  /** `s.strip(chars)`: both ends stripped. What remains neither starts nor ends with one of
      chars, and a string with no character of chars is left as it is. */
  function Strip(s: string, chars: set<char>): (r: string)
    ensures |r| <= |s|
    ensures r != [] ==> r[0] !in chars && r[|r| - 1] !in chars
    ensures (forall i :: 0 <= i < |s| ==> s[i] !in chars) ==> r == s
  {
    var lead := StripLeading(s, chars);
    assert lead != [] ==> lead[0] !in chars;
    var r := StripTrailing(lead, chars);
    assert r != [] ==> r[0] == lead[0];
    r
  }

  /** Stripping removes only a leading run and a trailing run of characters of chars: the result
      is the part of s between them, kept as it is. */
  lemma StripKeepsMiddle(s: string, chars: set<char>)
    ensures var r, i := Strip(s, chars), |s| - |StripLeading(s, chars)|;
            i + |r| <= |s| && r == s[i..][..|r|]
            && (forall m :: 0 <= m < i ==> s[m] in chars)
            && (forall m :: i + |r| <= m < |s| ==> s[m] in chars)
  {
    var lead := StripLeading(s, chars);
    var r := Strip(s, chars);
    var i := |s| - |lead|;
    assert lead == s[i..] && r == lead[..|r|];
    forall m | i + |r| <= m < |s| ensures s[m] in chars {
      assert s[m] == lead[m - i];
    }
  }

  /** Stripping a string wrapped in one opening and one closing strip character gives back the
      wrapped string, provided the wrapped string neither starts nor ends with a strip character. */
  lemma StripEnclosed(open: char, inner: string, close: char, chars: set<char>)
    requires open in chars && close in chars
    requires inner != [] && inner[0] !in chars && inner[|inner| - 1] !in chars
    ensures Strip([open] + inner + [close], chars) == inner
  {
    var s := [open] + inner + [close];
    assert s[1..] == inner + [close];
    assert StripLeading(s, chars) == StripLeading(inner + [close], chars);
    assert StripLeading(inner + [close], chars) == inner + [close];
    var t := inner + [close];
    assert t[|t| - 1] == close && t[..|t| - 1] == inner;
    assert StripTrailing(t, chars) == StripTrailing(inner, chars);
    assert StripTrailing(inner, chars) == inner;
  }

  /** `s.split(sep)` for a non-empty separator: the pieces between the non-overlapping occurrences
      of sep, found from left to right. There is always at least one piece. */
  function Split(s: string, sep: string): (parts: seq<string>)
    requires sep != []
    ensures |parts| >= 1
    decreases |s|
  {
    if |s| < |sep| then [s]
    else if s[..|sep|] == sep then [[]] + Split(s[|sep|..], sep)
    else
      var rest := Split(s[1..], sep);
      [[s[0]] + rest[0]] + rest[1..]
  }

  /** `sep.join(parts)`: the pieces in order, with sep between consecutive ones. */
  function Join(parts: seq<string>, sep: string): (r: string)
    ensures |parts| >= 1 ==> |parts[0]| <= |r| && r[..|parts[0]|] == parts[0]
    ensures |parts| >= 2 ==> r[|parts[0]|..] == sep + Join(parts[1..], sep)
  {
    if parts == [] then []
    else if |parts| == 1 then parts[0]
    else parts[0] + sep + Join(parts[1..], sep)
  }

  lemma JoinPrepend(c: char, parts: seq<string>, sep: string)
    requires |parts| >= 1
    ensures Join([[c] + parts[0]] + parts[1..], sep) == [c] + Join(parts, sep)
  {
    var q := [[c] + parts[0]] + parts[1..];
    assert q[1..] == parts[1..];
  }

  /** Joining the pieces of a split with the same separator gives back the original string. */
  lemma {:induction false} JoinSplit(s: string, sep: string)
    requires sep != []
    ensures Join(Split(s, sep), sep) == s
    decreases |s|
  {
    if |s| < |sep| {
    } else if s[..|sep|] == sep {
      var tail := Split(s[|sep|..], sep);
      JoinSplit(s[|sep|..], sep);
      assert ([[]] + tail)[1..] == tail;
      assert s == sep + s[|sep|..];
    } else {
      var rest := Split(s[1..], sep);
      JoinSplit(s[1..], sep);
      JoinPrepend(s[0], rest, sep);
      assert s == [s[0]] + s[1..];
    }
  }

  /** A string in which the separator's first character does not occur is not split at all. */
  lemma {:induction false} SplitWithoutSeparator(s: string, sep: string)
    requires sep != [] && sep[0] !in s
    ensures Split(s, sep) == [s]
    decreases |s|
  {
    if |s| >= |sep| {
      assert s[..|sep|][0] == s[0] != sep[0];
      SplitWithoutSeparator(s[1..], sep);
      assert [s[0]] + s[1..] == s;
    }
  }

  /** When the first piece a cannot contain the start of a separator, the split of `a + sep + b`
      is a followed by the split of b. */
  lemma {:induction false} SplitAfter(a: string, sep: string, b: string)
    requires sep != [] && sep[0] !in a
    ensures Split(a + sep + b, sep) == [a] + Split(b, sep)
    decreases |a|
  {
    var s := a + sep + b;
    if a == [] {
      assert s == sep + b;
      assert s[..|sep|] == sep && s[|sep|..] == b;
    } else {
      assert s[..|sep|][0] == a[0] != sep[0];
      assert s[1..] == a[1..] + sep + b;
      SplitAfter(a[1..], sep, b);
      assert [a[0]] + a[1..] == a;
    }
  }

  /** Splitting a join gives back the pieces, provided no piece holds the separator's first character. */
  lemma {:induction false} SplitJoin(parts: seq<string>, sep: string)
    requires sep != [] && |parts| >= 1
    requires forall p :: p in parts ==> sep[0] !in p
    ensures Split(Join(parts, sep), sep) == parts
    decreases |parts|
  {
    if |parts| == 1 {
      SplitWithoutSeparator(parts[0], sep);
    } else {
      assert parts[0] in parts;
      SplitAfter(parts[0], sep, Join(parts[1..], sep));
      assert forall p :: p in parts[1..] ==> p in parts;
      SplitJoin(parts[1..], sep);
      assert [parts[0]] + parts[1..] == parts;
    }
  }
}
