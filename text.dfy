/**
 * The string and sequence built-ins of JavaScript that the pipeline relies on:
 * `Array.prototype.join` and `String.prototype.split` with a one-character
 * separator, and the prefix and suffix relations used to state results.
 * Strings are sequences of characters.
 */
module Text {

  /** `r` is a (possibly empty, possibly whole) suffix of `s`. */
  predicate IsSuffix<T(==)>(r: seq<T>, s: seq<T>)
  {
    |r| <= |s| && r == s[|s| - |r|..]
  }

  /** `s.startsWith(prefix)` */
  predicate StartsWith(s: string, prefix: string)
  {
    |prefix| <= |s| && s[..|prefix|] == prefix
  }

  /** Number of occurrences of `c` in `s`. */
  function Count(s: string, c: char): nat
  {
    if |s| == 0 then 0 else (if s[0] == c then 1 else 0) + Count(s[1..], c)
  }

  /** `parts.join(sep)`: the parts with `sep` between neighbours, `""` for no parts. */
  function Join(parts: seq<string>, sep: string): string
  {
    if |parts| == 0 then ""
    else if |parts| == 1 then parts[0]
    else parts[0] + sep + Join(parts[1..], sep)
  }

  /**
   * `s.split(c)` for a one-character separator: the pieces between the
   * separators, so that "" gives [""] and "a//b" gives ["a", "", "b"].
   */
  function Split(s: string, c: char): (pieces: seq<string>)
    ensures |pieces| >= 1
  {
    if |s| == 0 then [""]
    else
      var rest := Split(s[1..], c);
      if s[0] == c then [""] + rest else [[s[0]] + rest[0]] + rest[1..]
  }

  /**
   * The join of no parts is empty; otherwise it starts with the first part
   * and ends with the last.
   */
  lemma {:induction false} JoinEnds(parts: seq<string>, sep: string)
    ensures |parts| == 0 ==> Join(parts, sep) == ""
    ensures |parts| > 0 ==> StartsWith(Join(parts, sep), parts[0]) && IsSuffix(parts[|parts| - 1], Join(parts, sep))
  {
    if |parts| > 1 {
      var head := parts[0];
      var tail := Join(parts[1..], sep);
      JoinEnds(parts[1..], sep);
      assert Join(parts, sep) == (head + sep) + tail;
      assert ((head + sep) + tail)[..|head|] == head;
      assert parts[1..][|parts[1..]| - 1] == parts[|parts| - 1];
      SuffixExtend(head + sep, tail, parts[|parts| - 1]);
    }
  }

  /** A suffix of `s` is a suffix of anything ending in `s`. */
  lemma SuffixExtend<T>(x: seq<T>, s: seq<T>, r: seq<T>)
    requires IsSuffix(r, s)
    ensures IsSuffix(r, x + s)
  {
    assert (x + s)[|x + s| - |r|..] == s[|s| - |r|..];
  }

  /** Prepending to the first part prepends to the joined string. */
  lemma JoinExtendFirst(x: string, parts: seq<string>, sep: string)
    requires |parts| >= 1
    ensures Join([x + parts[0]] + parts[1..], sep) == x + Join(parts, sep)
  {
    var ps := [x + parts[0]] + parts[1..];
    assert ps[1..] == parts[1..];
  }

  /** Joining after appending one part adds the separator and that part. */
  lemma {:induction false} JoinSnoc(parts: seq<string>, last: string, sep: string)
    requires |parts| >= 1
    ensures Join(parts + [last], sep) == Join(parts, sep) + sep + last
  {
    if |parts| == 1 {
      assert parts + [last] == [parts[0], last];
      assert [parts[0], last][1..] == [last];
    } else {
      assert (parts + [last])[1..] == parts[1..] + [last];
      JoinSnoc(parts[1..], last, sep);
    }
  }

  /** There is one piece more than there are separators. */
  lemma {:induction false} SplitCount(s: string, c: char)
    ensures |Split(s, c)| == Count(s, c) + 1
  {
    if |s| > 0 {
      SplitCount(s[1..], c);
    }
  }

  /** No piece contains the separator. */
  lemma {:induction false} SplitPiecesFree(s: string, c: char)
    ensures forall i :: 0 <= i < |Split(s, c)| ==> c !in Split(s, c)[i]
  {
    if |s| > 0 {
      SplitPiecesFree(s[1..], c);
      var rest := Split(s[1..], c);
      if s[0] != c {
        assert c !in rest[0];
        assert c !in [s[0]] + rest[0];
      }
    }
  }

  /** Joining the pieces with the separator gives back the string. */
  lemma {:induction false} JoinSplit(s: string, c: char)
    ensures Join(Split(s, c), [c]) == s
  {
    if |s| > 0 {
      var rest := Split(s[1..], c);
      JoinSplit(s[1..], c);
      if s[0] == c {
        assert ([""] + rest)[1..] == rest;
      } else {
        JoinExtendFirst([s[0]], rest, [c]);
      }
    }
  }

  /**
   * Splitting is the inverse of joining: parts that do not contain the
   * separator are exactly the pieces of their join.
   */
  lemma {:induction false} SplitJoin(parts: seq<string>, c: char)
    requires |parts| >= 1
    requires forall i :: 0 <= i < |parts| ==> c !in parts[i]
    ensures Split(Join(parts, [c]), c) == parts
    decreases |parts|, |parts[0]|
  {
    var p := parts[0];
    var s := Join(parts, [c]);
    if |p| > 0 {
      var parts' := [p[1..]] + parts[1..];
      forall i | 0 <= i < |parts'| ensures c !in parts'[i] {
        if i == 0 {
          assert forall k :: 0 <= k < |p[1..]| ==> p[1..][k] == p[k + 1];
        } else {
          assert parts'[i] == parts[i];
        }
      }
      JoinExtendFirst([p[0]], parts', [c]);
      assert [p[0]] + p[1..] == p;
      assert [[p[0]] + parts'[0]] + parts'[1..] == parts;
      assert s == [p[0]] + Join(parts', [c]);
      assert s[1..] == Join(parts', [c]);
      assert s[0] == p[0] && p[0] != c by { assert p[0] in p; }
      SplitJoin(parts', c);
    } else if |parts| == 1 {
      assert s == "";
    } else {
      assert s == [c] + Join(parts[1..], [c]);
      assert s[1..] == Join(parts[1..], [c]);
      SplitJoin(parts[1..], c);
      assert [""] + parts[1..] == parts;
    }
  }
}
