/**
 * The Python string operations the dashboards use on station names and hour
 * labels: `str.split` on one separator character, `str.join`, `str.replace`
 * with an empty replacement, and two-digit zero padding (`{n:02d}`).
 */
module Text {

  /** `sep.join(parts)`: the parts with `sep` between neighbours. */
  function Join(parts: seq<string>, sep: string): (r: string)
    ensures parts == [] ==> r == []
    ensures |parts| == 1 ==> r == parts[0]
  {
    if parts == [] then []
    else if |parts| == 1 then parts[0]
    else parts[0] + sep + Join(parts[1..], sep)
  }

  /**
   * `s.split(sep)`: the maximal runs between separators, always at least one
   * (possibly empty) part, and more than one exactly when `sep` occurs.
   */
  function Split(s: string, sep: char): (parts: seq<string>)
    ensures |parts| >= 1
    ensures forall i :: 0 <= i < |parts| ==> sep !in parts[i]
    ensures sep in s <==> |parts| >= 2
    decreases |s|
  {
    if s == [] then [[]]
    else
      var rest := Split(s[1..], sep);
      if s[0] == sep then [[]] + rest
      else [[s[0]] + rest[0]] + rest[1..]
  }

  /** Joining the parts of a split with the separator gives back the string. */
  lemma {:induction false} JoinSplit(s: string, sep: char)
    ensures Join(Split(s, sep), [sep]) == s
    decreases |s|
  {
    if s != [] {
      var rest := Split(s[1..], sep);
      JoinSplit(s[1..], sep);
      if s[0] == sep {
        assert Split(s, sep) == [[]] + rest;
        assert s == [sep] + s[1..];
      } else {
        var parts := Split(s, sep);
        assert parts == [[s[0]] + rest[0]] + rest[1..];
        if |rest| == 1 {
          assert s == [s[0]] + rest[0];
        } else {
          assert Join(rest, [sep]) == rest[0] + [sep] + Join(rest[1..], [sep]);
          assert parts[1..] == rest[1..];
          assert s == [s[0]] + s[1..];
        }
      }
    }
  }

  /**
   * A split finds its first part up to the first separator: the string
   * `head + [sep] + tail`, with no separator in `head`, splits into `head`
   * followed by the parts of `tail`.
   */
  lemma {:induction false} SplitAtFirst(head: string, sep: char, tail: string)
    requires sep !in head
    ensures Split(head + [sep] + tail, sep) == [head] + Split(tail, sep)
    decreases |head|
  {
    if head == [] {
      assert head + [sep] + tail == [sep] + tail;
    } else {
      var s := head + [sep] + tail;
      assert s[1..] == head[1..] + [sep] + tail;
      SplitAtFirst(head[1..], sep, tail);
      assert [head[0]] + head[1..] == head;
    }
  }

  /** The first part of a split of `head + rest`, when `rest` is empty or starts with the separator. */
  lemma SplitFirstPart(head: string, sep: char, rest: string)
    requires sep !in head
    requires rest == [] || rest[0] == sep
    ensures Split(head + rest, sep)[0] == head
  {
    if rest == [] {
      assert head + rest == head;
      assert sep !in head;
      SplitNoSeparator(head, sep);
    } else {
      assert head + rest == head + [sep] + rest[1..];
      SplitAtFirst(head, sep, rest[1..]);
    }
  }

  lemma {:induction false} SplitNoSeparator(s: string, sep: char)
    requires sep !in s
    ensures Split(s, sep) == [s]
    decreases |s|
  {
    if s != [] {
      SplitNoSeparator(s[1..], sep);
      assert [s[0]] + s[1..] == s;
    }
  }

  /** `pattern` occurs in `s` starting at index `i`. */
  ghost predicate OccursAt(pattern: string, s: string, i: int)
  {
    0 <= i && i + |pattern| <= |s| && s[i..i + |pattern|] == pattern
  }

  /** `pattern` occurs in `s` (Python's `pattern in s`). */
  ghost predicate Occurs(pattern: string, s: string)
  {
    exists i :: OccursAt(pattern, s, i)
  }

  /**
   * `s.replace(pattern, '')`: scanning left to right, every non-overlapping
   * occurrence of `pattern` is deleted.
   */
  function RemoveAll(s: string, pattern: string): (r: string)
    requires |pattern| > 0
    ensures |r| <= |s|
    decreases |s|
  {
    if |s| < |pattern| then s
    else if s[..|pattern|] == pattern then RemoveAll(s[|pattern|..], pattern)
    else [s[0]] + RemoveAll(s[1..], pattern)
  }

  /** A string in which the pattern does not occur is left unchanged. */
  lemma {:induction false} RemoveAbsent(s: string, pattern: string)
    requires |pattern| > 0
    requires !Occurs(pattern, s)
    ensures RemoveAll(s, pattern) == s
    decreases |s|
  {
    if |s| >= |pattern| {
      assert s[0..0 + |pattern|] == s[..|pattern|];
      assert !OccursAt(pattern, s, 0);
      assert !Occurs(pattern, s[1..]) by {
        forall i | OccursAt(pattern, s[1..], i) ensures OccursAt(pattern, s, i + 1) {
          assert s[1..][i..i + |pattern|] == s[i + 1..i + 1 + |pattern|];
        }
      }
      RemoveAbsent(s[1..], pattern);
      assert [s[0]] + s[1..] == s;
    }
  }

  /** An occurrence at the start is deleted, and scanning resumes right after it. */
  lemma RemoveLeading(pattern: string, s: string)
    requires |pattern| > 0
    ensures RemoveAll(pattern + s, pattern) == RemoveAll(s, pattern)
  {
    assert (pattern + s)[..|pattern|] == pattern;
    assert (pattern + s)[|pattern|..] == s;
  }

  /** The decimal digit `d` as a character. */
  function Digit(d: int): (c: char)
    requires 0 <= d < 10
    ensures '0' <= c <= '9' && c as int - '0' as int == d
  {
    (d + '0' as int) as char
  }

  /** Python's `f"{n:02d}"` for 0 <= n < 100. */
  function Pad2(n: int): (r: string)
    requires 0 <= n < 100
    ensures |r| == 2
    ensures '0' <= r[0] <= '9' && '0' <= r[1] <= '9'
    ensures ReadPad2(r) == n
  {
    [Digit(n / 10), Digit(n % 10)]
  }

  /** Reads a two-character decimal numeral, the inverse of `Pad2`. */
  function ReadPad2(r: string): int
    requires |r| == 2
  {
    (r[0] as int - '0' as int) * 10 + (r[1] as int - '0' as int)
  }
}
