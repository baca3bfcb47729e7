/**
 Dotted names: Python's `str.split(sep)` for a one-character separator, as used by
 the registrar to turn `"fns.my_fn"` into the keys `["fns", "my_fn"]`, and its
 inverse `sep.join(parts)`.
 */
module DottedName {

  /** Number of occurrences of `c` in `s`. */
  function Count(s: string, c: char): nat
    decreases |s|
  {
    if s == [] then 0 else (if s[0] == c then 1 else 0) + Count(s[1..], c)
  }

  /** `s.split(sep)`: never empty, one more part than there are separators, and
      no part contains the separator. `"".split(".")` is `[""]` and
      `"a..b".split(".")` is `["a", "", "b"]`. */
  function Split(s: string, sep: char): (parts: seq<string>)
    ensures |parts| == Count(s, sep) + 1
    ensures forall i :: 0 <= i < |parts| ==> sep !in parts[i]
    decreases |s|
  {
    if s == [] then [""]
    else
      var rest := Split(s[1..], sep);
      if s[0] == sep then [""] + rest
      else [[s[0]] + rest[0]] + rest[1..]
  }

  /** `sep.join(parts)`. */
  function Join(parts: seq<string>, sep: char): string
    decreases |parts|
  {
    if parts == [] then ""
    else if |parts| == 1 then parts[0]
    else parts[0] + [sep] + Join(parts[1..], sep)
  }

  /** Prepending a character to the first part prepends it to the join. */
  lemma JoinPrepend(c: char, parts: seq<string>, sep: char)
    requires |parts| >= 1
    ensures Join([[c] + parts[0]] + parts[1..], sep) == [c] + Join(parts, sep)
  {
  }

  /** Joining the parts of a split gives back the original string. */
  lemma {:induction false} JoinSplit(s: string, sep: char)
    ensures Join(Split(s, sep), sep) == s
    decreases |s|
  {
    if s != [] {
      var rest := Split(s[1..], sep);
      JoinSplit(s[1..], sep);
      if s[0] == sep {
        assert Join([""] + rest, sep) == "" + [sep] + Join(rest, sep);
      } else {
        JoinPrepend(s[0], rest, sep);
      }
      assert s == [s[0]] + s[1..];
    }
  }

  /** A string without the separator splits into itself alone. */
  lemma {:induction false} SplitWithoutSeparator(s: string, sep: char)
    requires sep !in s
    ensures Split(s, sep) == [s]
    decreases |s|
  {
    if s != [] {
      assert sep !in s[1..] by {
        forall i | 0 <= i < |s[1..]| ensures s[1..][i] != sep {
          assert s[1..][i] == s[i + 1];
        }
      }
      SplitWithoutSeparator(s[1..], sep);
      assert s == [s[0]] + s[1..];
    }
  }

  /** Splitting `a + sep + b` where `a` holds no separator peels `a` off the front. */
  lemma {:induction false} SplitAtFirstSeparator(a: string, b: string, sep: char)
    requires sep !in a
    ensures Split(a + [sep] + b, sep) == [a] + Split(b, sep)
    decreases |a|
  {
    var s := a + [sep] + b;
    if a == [] {
      assert s == [sep] + b;
      assert s[1..] == b;
    } else {
      assert s[0] == a[0];
      assert s[1..] == a[1..] + [sep] + b;
      assert sep !in a[1..] by {
        forall i | 0 <= i < |a[1..]| ensures a[1..][i] != sep {
          assert a[1..][i] == a[i + 1];
        }
      }
      SplitAtFirstSeparator(a[1..], b, sep);
      assert a == [a[0]] + a[1..];
    }
  }

  /** Splitting a join of separator-free parts gives back the parts: every
      non-empty list of separator-free keys is the split of exactly one name. */
  lemma {:induction false} SplitJoin(parts: seq<string>, sep: char)
    requires |parts| >= 1
    requires forall i :: 0 <= i < |parts| ==> sep !in parts[i]
    ensures Split(Join(parts, sep), sep) == parts
    decreases |parts|
  {
    if |parts| == 1 {
      SplitWithoutSeparator(parts[0], sep);
    } else {
      SplitJoin(parts[1..], sep);
      SplitAtFirstSeparator(parts[0], Join(parts[1..], sep), sep);
      assert parts == [parts[0]] + parts[1..];
    }
  }
}
