/** The few pieces of Python's `str` that the bot relies on: `lower`,
    `startswith` (Dafny's prefix test `<=` on sequences) and `split` on a
    one-character separator, with `join` as its inverse. */
module PyStr {

  predicate IsUpper(c: char) { 'A' <= c <= 'Z' }

  /** `str.lower()` on one character, for the ASCII letters. */
  function Lower(c: char): (d: char)
    ensures !IsUpper(d)
    ensures !IsUpper(c) ==> d == c
  {
    if IsUpper(c) then (c as int - 'A' as int + 'a' as int) as char else c
  }

  /** `str.lower()` on a whole string: character by character. */
  function Lowered(s: string): string
  {
    seq(|s|, i requires 0 <= i < |s| => Lower(s[i]))
  }

  /** `sep.join(parts)`. */
  function Join(parts: seq<string>, sep: char): string
    decreases |parts|
  {
    if |parts| == 0 then []
    else if |parts| == 1 then parts[0]
    else parts[0] + [sep] + Join(parts[1..], sep)
  }

  /** `s.split(sep)`: the maximal runs between separators; there is always
      at least one part. */
  function Split(s: string, sep: char): (parts: seq<string>)
    ensures |parts| >= 1
    decreases |s|
  {
    if |s| == 0 then [[]]
    else
      var rest := Split(s[1..], sep);
      if s[0] == sep then [[]] + rest
      else [[s[0]] + rest[0]] + rest[1..]
  }

  /** No part of a split holds the separator. */
  lemma {:induction false} SplitNoSeparator(s: string, sep: char)
    ensures forall i :: 0 <= i < |Split(s, sep)| ==> sep !in Split(s, sep)[i]
    decreases |s|
  {
    if |s| > 0 {
      SplitNoSeparator(s[1..], sep);
      var rest := Split(s[1..], sep);
      assert sep !in rest[0];
    }
  }

  /** Joining the parts of a split gives back the string. */
  lemma {:induction false} SplitJoin(s: string, sep: char)
    ensures Join(Split(s, sep), sep) == s
    decreases |s|
  {
    if |s| > 0 {
      SplitJoin(s[1..], sep);
      var rest := Split(s[1..], sep);
      var parts := Split(s, sep);
      if s[0] == sep {
        assert parts[1..] == rest;
      } else {
        assert parts[1..] == rest[1..];
        assert [s[0]] + s[1..] == s;
      }
    }
  }

  /** A part free of separators splits to itself. */
  lemma {:induction false} SplitWhole(p: string, sep: char)
    requires sep !in p
    ensures Split(p, sep) == [p]
    decreases |p|
  {
    if |p| > 0 {
      SplitWhole(p[1..], sep);
      assert [p[0]] + p[1..] == p;
    }
  }

  /** A separator-free head followed by a separator splits off as one part. */
  lemma {:induction false} SplitAfter(p: string, sep: char, t: string)
    requires sep !in p
    ensures Split(p + [sep] + t, sep) == [p] + Split(t, sep)
    decreases |p|
  {
    var s := p + [sep] + t;
    if |p| == 0 {
      assert s[1..] == t;
    } else {
      assert s[1..] == p[1..] + [sep] + t;
      SplitAfter(p[1..], sep, t);
      assert [p[0]] + p[1..] == p;
    }
  }

  /** Splitting undoes joining, for parts that hold no separator: together with
      SplitJoin, `split` and `join` are inverse to each other. */
  lemma {:induction false} JoinSplit(parts: seq<string>, sep: char)
    requires |parts| >= 1
    requires forall i :: 0 <= i < |parts| ==> sep !in parts[i]
    ensures Split(Join(parts, sep), sep) == parts
    decreases |parts|
  {
    if |parts| == 1 {
      SplitWhole(parts[0], sep);
    } else {
      JoinSplit(parts[1..], sep);
      SplitAfter(parts[0], sep, Join(parts[1..], sep));
      assert [parts[0]] + parts[1..] == parts;
    }
  }

  /** Joining one more part appends a separator and that part. */
  lemma {:induction false} JoinSnoc(parts: seq<string>, sep: char, p: string)
    requires |parts| >= 1
    ensures Join(parts + [p], sep) == Join(parts, sep) + [sep] + p
    decreases |parts|
  {
    if |parts| > 1 {
      assert (parts + [p])[1..] == parts[1..] + [p];
      JoinSnoc(parts[1..], sep, p);
    }
  }

  /** Python's `parts[-1]`. */
  function Last(parts: seq<string>): string
    requires |parts| >= 1
  {
    parts[|parts| - 1]
  }

  /** The last part of `s.split(sep)` is the suffix of `s` after its last
      separator, or the whole of `s` when it has none. */
  lemma {:induction false} LastSegment(s: string, sep: char)
    ensures |Last(Split(s, sep))| <= |s|
    ensures Last(Split(s, sep)) == s[|s| - |Last(Split(s, sep))|..]
    ensures sep !in Last(Split(s, sep))
    ensures |Last(Split(s, sep))| == |s| || s[|s| - |Last(Split(s, sep))| - 1] == sep
    ensures |Split(s, sep)| > 1 ==> |Last(Split(s, sep))| < |s|
    decreases |s|
  {
    var parts := Split(s, sep);
    var last := Last(parts);
    SplitNoSeparator(s, sep);
    assert sep !in parts[|parts| - 1];
    if |s| > 0 {
      var tail := s[1..];
      var rest := Split(tail, sep);
      LastSegment(tail, sep);
      if s[0] == sep {
        assert last == Last(rest);
        assert tail[|tail| - |last|..] == s[|s| - |last|..];
        if |last| < |tail| {
          assert s[|s| - |last| - 1] == tail[|tail| - |last| - 1];
        } else {
          assert s[|s| - |last| - 1] == s[0];
        }
      } else if |rest| > 1 {
        assert last == Last(rest);
        assert tail[|tail| - |last|..] == s[|s| - |last|..];
        assert s[|s| - |last| - 1] == tail[|tail| - |last| - 1];
      } else {
        SplitJoin(tail, sep);
        assert rest[0] == tail;
        assert [s[0]] + tail == s;
        assert last == s;
      }
    }
  }
}
