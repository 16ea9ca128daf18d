/** Character sequences cut at a separator character, and the facts about
    such cuts that the e-mail grammar relies on. A dot-separated local part
    or domain is described by its list of segments, `Split(s, '.')`. */
module Strings {

  /** The segments of `s` between occurrences of `sep`, in order. There is
      always at least one segment; a segment is empty exactly where `s`
      starts or ends with `sep` or holds two `sep` in a row. */
  function Split(s: string, sep: char): (parts: seq<string>)
    ensures |parts| >= 1
    ensures forall i | 0 <= i < |parts| :: sep !in parts[i]
    decreases |s|
  {
    if s == [] then [[]]
    else
      var rest := Split(s[1..], sep);
      if s[0] == sep then [[]] + rest
      else [[s[0]] + rest[0]] + rest[1..]
  }

  /** The segments glued back together with `sep` between neighbours. */
  function Join(parts: seq<string>, sep: char): string
    requires |parts| >= 1
    decreases |parts|
  {
    if |parts| == 1 then parts[0] else parts[0] + [sep] + Join(parts[1..], sep)
  }

  /** The number of occurrences of `c` in `s`. */
  function Count(s: string, c: char): nat
    decreases |s|
  {
    if s == [] then 0 else (if s[0] == c then 1 else 0) + Count(s[1..], c)
  }

  /** The position of the first `c` in `s`. */
  function FirstIndex(s: string, c: char): (k: nat)
    requires c in s
    ensures k < |s| && s[k] == c && c !in s[..k]
    decreases |s|
  {
    if s[0] == c then 0
    else
      assert c in s[1..] by { var j :| 0 <= j < |s| && s[j] == c; assert s[1..][j - 1] == c; }
      1 + FirstIndex(s[1..], c)
  }

  /** Cutting `s` at its first `c`. */
  lemma CutAtFirst(s: string, c: char) returns (a: string, b: string)
    requires c in s
    ensures s == a + [c] + b && c !in a
  {
    var k := FirstIndex(s, c);
    a, b := s[..k], s[k + 1..];
    assert s == a + [c] + b;
  }

  lemma CutAt(s: string, k: int)
    requires 0 <= k < |s|
    ensures s == s[..k] + [s[k]] + s[k + 1..]
  {
  }

  lemma HeadTail(s: string)
    requires s != []
    ensures s == [s[0]] + s[1..]
  {
  }

  /** Joining the segments gives the string back: splitting loses nothing. */
  lemma {:induction false} JoinSplit(s: string, sep: char)
    ensures Join(Split(s, sep), sep) == s
    decreases |s|
  {
    if s != [] {
      var rest := Split(s[1..], sep);
      JoinSplit(s[1..], sep);
      if s[0] == sep {
        assert ([[]] + rest)[1..] == rest;
      } else if |rest| > 1 {
        var parts := [[s[0]] + rest[0]] + rest[1..];
        assert parts[1..] == rest[1..];
        assert Join(rest, sep) == rest[0] + [sep] + Join(rest[1..], sep);
      }
    }
  }

  /** A string without `sep` is a single segment. */
  lemma {:induction false} SplitNoSep(s: string, sep: char)
    requires sep !in s
    ensures Split(s, sep) == [s]
    decreases |s|
  {
    if s != [] {
      SplitNoSep(s[1..], sep);
      assert [s[0]] + s[1..] == s;
    }
  }

  /** Cutting at a `sep` that follows a `sep`-free prefix `a` makes `a` the
      first segment and leaves the segments of the remainder. */
  lemma {:induction false} SplitAt(a: string, b: string, sep: char)
    requires sep !in a
    ensures Split(a + [sep] + b, sep) == [a] + Split(b, sep)
    decreases |a|
  {
    var s := a + [sep] + b;
    if a == [] {
      assert s[1..] == b;
    } else {
      assert s[1..] == a[1..] + [sep] + b;
      SplitAt(a[1..], b, sep);
      assert [a[0]] + a[1..] == a;
    }
  }

  /** The other round trip: segments free of `sep`, once joined, split back
      into the same segments. */
  lemma {:induction false} SplitJoin(parts: seq<string>, sep: char)
    requires |parts| >= 1
    requires forall i | 0 <= i < |parts| :: sep !in parts[i]
    ensures Split(Join(parts, sep), sep) == parts
    decreases |parts|
  {
    if |parts| == 1 {
      SplitNoSep(parts[0], sep);
    } else {
      SplitJoin(parts[1..], sep);
      SplitAt(parts[0], Join(parts[1..], sep), sep);
      assert [parts[0]] + parts[1..] == parts;
    }
  }

  /** A string with a `sep` in it has at least two segments, and one with
      at least two segments holds a `sep`. */
  lemma SplitManyIffSep(s: string, sep: char)
    ensures |Split(s, sep)| >= 2 <==> sep in s
  {
    if sep in s {
      var k := FirstIndex(s, sep);
      assert s == s[..k] + [sep] + s[k + 1..];
      SplitAt(s[..k], s[k + 1..], sep);
    } else {
      SplitNoSep(s, sep);
    }
  }

  /** Splitting a string that starts with a character other than `sep`
      puts that character in front of the first segment. */
  lemma SplitCons(c: char, u: string, sep: char)
    requires c != sep
    ensures Split([c] + u, sep) == [[c] + Split(u, sep)[0]] + Split(u, sep)[1..]
  {
    assert ([c] + u)[1..] == u;
  }

  /** Every character of `s` is a separator or a character of a segment:
      a property that holds of the characters of every segment holds of
      every non-separator character of `s`. */
  lemma {:induction false} SplitChars(s: string, sep: char, p: char -> bool)
    requires forall i, j | 0 <= i < |Split(s, sep)| && 0 <= j < |Split(s, sep)[i]| :: p(Split(s, sep)[i][j])
    ensures forall k | 0 <= k < |s| :: s[k] == sep || p(s[k])
    decreases |s|
  {
    if s != [] {
      var rest := Split(s[1..], sep);
      var parts := Split(s, sep);
      if s[0] == sep {
        assert forall i | 0 <= i < |rest| :: rest[i] == parts[i + 1];
      } else {
        assert parts[0] == [s[0]] + rest[0];
        assert p(parts[0][0]);
        assert forall j | 0 <= j < |rest[0]| :: rest[0][j] == parts[0][j + 1];
        assert forall i | 1 <= i < |rest| :: rest[i] == parts[i];
      }
      SplitChars(s[1..], sep, p);
      assert forall k | 1 <= k < |s| :: s[k] == s[1..][k - 1];
    }
  }

  /** When every segment is non-empty, `s` neither starts nor ends with
      `sep` and never holds two `sep` side by side. */
  lemma {:induction false} NonEmptySegments(s: string, sep: char)
    requires forall i | 0 <= i < |Split(s, sep)| :: Split(s, sep)[i] != []
    ensures s != [] && s[0] != sep && s[|s| - 1] != sep
    ensures forall k | 0 <= k < |s| - 1 :: !(s[k] == sep && s[k + 1] == sep)
    decreases |s|
  {
    if s == [] {
      assert false;
    } else if sep !in s {
      assert s[0] in s && s[|s| - 1] in s;
      forall k | 0 <= k < |s| - 1 ensures !(s[k] == sep && s[k + 1] == sep) {
        assert s[k] in s;
      }
    } else {
      var k0 := FirstIndex(s, sep);
      var a, b := s[..k0], s[k0 + 1..];
      assert s == a + [sep] + b;
      SplitAt(a, b, sep);
      var parts := Split(s, sep);
      assert parts[0] == a;
      assert forall i | 0 <= i < |Split(b, sep)| :: Split(b, sep)[i] == parts[i + 1];
      NonEmptySegments(b, sep);
      forall k | 0 <= k < |s| - 1 ensures !(s[k] == sep && s[k + 1] == sep) {
        if k < k0 {
          assert s[k] == a[k] && s[k] in a;
        } else if k > k0 {
          assert s[k] == b[k - k0 - 1] && s[k + 1] == b[k - k0];
        }
      }
    }
  }

  /** Joining at least two segments adds a separator between the first
      segment and the last, so the result is at least that long. */
  lemma {:induction false} JoinLength(parts: seq<string>, sep: char)
    requires |parts| >= 2
    ensures |Join(parts, sep)| >= |parts[0]| + 1 + |parts[|parts| - 1]|
    decreases |parts|
  {
    if |parts| > 2 {
      JoinLength(parts[1..], sep);
    }
  }

  /** Occurrences add up over concatenation. */
  lemma {:induction false} CountConcat(a: string, b: string, c: char)
    ensures Count(a + b, c) == Count(a, c) + Count(b, c)
    decreases |a|
  {
    if a == [] {
      assert a + b == b;
    } else {
      assert (a + b)[0] == a[0] && (a + b)[1..] == a[1..] + b;
      CountConcat(a[1..], b, c);
    }
  }

  /** A character that does not occur has no occurrences. */
  lemma {:induction false} CountAbsent(s: string, c: char)
    requires c !in s
    ensures Count(s, c) == 0
    decreases |s|
  {
    if s != [] {
      assert forall x | x in s[1..] :: x in s;
      CountAbsent(s[1..], c);
    }
  }
}
