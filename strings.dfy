/** The Python string operations the crawler relies on, with their exact semantics:
    `str.split` on a one-character separator, `sep.join`, `str.startswith`,
    `str.endswith`, the `in` test on strings and `str.replace` (all occurrences,
    left to right, without overlap). */
module Strings {

  /** `s.startswith(p)` */
  predicate StartsWith(s: string, p: string) {
    |p| <= |s| && s[..|p|] == p
  }

  /** `s.endswith(p)` */
  predicate EndsWith(s: string, p: string) {
    |p| <= |s| && s[|s| - |p|..] == p
  }

  /** `sub in s`: some position of `s` starts an occurrence of `sub`. */
  predicate Contains(s: string, sub: string)
    decreases |s|
  {
    StartsWith(s, sub) || (|s| > 0 && Contains(s[1..], sub))
  }

  /** `s.split(c)`: the fields between occurrences of `c`, always at least one. */
  function Split(s: string, c: char): (parts: seq<string>)
    ensures |parts| >= 1
    ensures forall k :: 0 <= k < |parts| ==> c !in parts[k]
    ensures c !in s ==> parts == [s]
    ensures c in s ==> |parts| >= 2
    decreases |s|
  {
    if |s| == 0 then [""]
    else
      var rest := Split(s[1..], c);
      if s[0] == c then [""] + rest
      else
        assert s == [s[0]] + s[1..];
        [[s[0]] + rest[0]] + rest[1..]
  }

  /** `c.join(parts)`; the empty list joins to the empty string. */
  function Join(parts: seq<string>, c: char): string
  {
    if |parts| == 0 then ""
    else if |parts| == 1 then parts[0]
    else parts[0] + [c] + Join(parts[1..], c)
  }

  /** `s.split(c)[0]`: the part of `s` before the first `c`. */
  function FirstField(s: string, c: char): string {
    Split(s, c)[0]
  }

  /** `s.split(c)[-1]`: the part of `s` after the last `c`. */
  function LastField(s: string, c: char): string {
    var parts := Split(s, c);
    parts[|parts| - 1]
  }

  /** `s.replace(pat, rep)` for a non-empty `pat`: every occurrence found scanning
      from the left is replaced, and scanning resumes after it. */
  function ReplaceAll(s: string, pat: string, rep: string): string
    requires pat != ""
    decreases |s|
  {
    if |s| < |pat| then s
    else if s[..|pat|] == pat then rep + ReplaceAll(s[|pat|..], pat, rep)
    else [s[0]] + ReplaceAll(s[1..], pat, rep)
  }

  /** Reference definition: the characters of `s` other than `c`, in order. */
  function Without(s: string, c: char): string
    decreases |s|
  {
    if |s| == 0 then "" else (if s[0] == c then "" else [s[0]]) + Without(s[1..], c)
  }

  // ---------------------------------------------------------------------------
  // Split and Join are inverse to each other.

  /** Joining the fields of `s` with the separator gives `s` back. */
  lemma {:induction false} JoinSplit(s: string, c: char)
    ensures Join(Split(s, c), c) == s
    decreases |s|
  {
    if |s| > 0 {
      var rest := Split(s[1..], c);
      JoinSplit(s[1..], c);
      if s[0] == c {
        assert Split(s, c) == [""] + rest;
        assert Join([""] + rest, c) == "" + [c] + Join(rest, c);
        assert s == [s[0]] + s[1..];
      } else {
        var parts := Split(s, c);
        assert parts == [[s[0]] + rest[0]] + rest[1..];
        if |rest| == 1 {
          assert Join(parts, c) == [s[0]] + rest[0];
        } else {
          assert Join(rest, c) == rest[0] + [c] + Join(rest[1..], c);
          assert parts[1..] == rest[1..];
          assert Join(parts, c) == [s[0]] + rest[0] + [c] + Join(rest[1..], c);
        }
        assert s == [s[0]] + s[1..];
      }
    }
  }

  /** A field followed by the separator splits off as exactly that field. */
  lemma {:induction false} SplitAfterField(x: string, c: char, y: string)
    requires c !in x
    ensures Split(x + [c] + y, c) == [x] + Split(y, c)
    decreases |x|
  {
    var s := x + [c] + y;
    if |x| == 0 {
      assert s[0] == c && s[1..] == y;
    } else {
      assert s[0] == x[0] && s[1..] == x[1..] + [c] + y;
      SplitAfterField(x[1..], c, y);
      assert [x[0]] + x[1..] == x;
    }
  }

  /** A leading separator splits off an empty field. */
  lemma SplitLeadingSeparator(c: char, y: string)
    ensures Split([c] + y, c) == [""] + Split(y, c)
  {
    assert ([c] + y)[1..] == y;
  }

  /** Splitting a join of separator-free fields gives the fields back. */
  lemma {:induction false} SplitJoin(parts: seq<string>, c: char)
    requires |parts| >= 1
    requires forall k :: 0 <= k < |parts| ==> c !in parts[k]
    ensures Split(Join(parts, c), c) == parts
    decreases |parts|
  {
    if |parts| > 1 {
      SplitJoin(parts[1..], c);
      SplitAfterField(parts[0], c, Join(parts[1..], c));
      assert [parts[0]] + parts[1..] == parts;
    }
  }

  // ---------------------------------------------------------------------------
  // The first and the last field.

  /** The first field is the longest prefix of `s` without `c`: it is a prefix, it
      contains no `c`, and when it is shorter than `s` a `c` follows it. */
  lemma {:induction false} FirstFieldIsPrefixBeforeSeparator(s: string, c: char)
    ensures var r := FirstField(s, c);
      |r| <= |s| && r == s[..|r|] && c !in r && (|r| < |s| ==> s[|r|] == c)
    decreases |s|
  {
    if |s| > 0 && s[0] != c {
      FirstFieldIsPrefixBeforeSeparator(s[1..], c);
      var r' := FirstField(s[1..], c);
      assert FirstField(s, c) == [s[0]] + r';
    }
  }

  /** Cutting at the first `c` a second time changes nothing. */
  lemma FirstFieldIdempotent(s: string, c: char)
    ensures FirstField(FirstField(s, c), c) == FirstField(s, c)
  {
    assert c !in Split(s, c)[0];
  }

  /** The last field is the longest suffix of `s` without `c`: it is a suffix, it
      contains no `c`, and when it is shorter than `s` a `c` precedes it. */
  lemma {:induction false} LastFieldIsSuffixAfterSeparator(s: string, c: char)
    ensures var r := LastField(s, c);
      |r| <= |s| && r == s[|s| - |r|..] && c !in r && (|r| < |s| ==> s[|s| - |r| - 1] == c)
    decreases |s|
  {
    if |s| > 0 {
      var tail := s[1..];
      var rest := Split(tail, c);
      LastFieldIsSuffixAfterSeparator(tail, c);
      var r' := LastField(tail, c);
      if s[0] == c || |rest| > 1 {
        assert LastField(s, c) == r' by {
          if s[0] == c {
            assert Split(s, c) == [""] + rest;
          } else {
            assert Split(s, c) == [[s[0]] + rest[0]] + rest[1..];
          }
        }
        SuffixOfTail(s, |r'|);
      } else {
        assert rest == [tail];
        assert Split(s, c) == [[s[0]] + tail];
        assert [s[0]] + tail == s;
      }
    }
  }

  lemma SuffixOfTail(s: string, n: nat)
    requires n < |s|
    ensures s[1..][|s| - 1 - n..] == s[|s| - n..]
    ensures n < |s| - 1 ==> s[1..][|s| - 1 - n - 1] == s[|s| - n - 1]
  {
  }

  /** A string without the separator is its own last field. */
  lemma LastFieldOfFieldFree(s: string, c: char)
    requires c !in s
    ensures LastField(s, c) == s
  {
  }

  // ---------------------------------------------------------------------------
  // Occurrences and replacement.

  /** A string contains every string that sits inside it. */
  lemma {:induction false} ContainsInfix(a: string, sub: string, b: string)
    ensures Contains(a + sub + b, sub)
    decreases |a|
  {
    var s := a + sub + b;
    if |a| == 0 {
      assert s[..|sub|] == sub;
    } else {
      assert s[1..] == a[1..] + sub + b;
      ContainsInfix(a[1..], sub, b);
    }
  }

  /** Replacing a pattern that does not occur is the identity. */
  lemma {:induction false} ReplaceAbsent(s: string, pat: string, rep: string)
    requires pat != ""
    requires !Contains(s, pat)
    ensures ReplaceAll(s, pat, rep) == s
    decreases |s|
  {
    if |s| >= |pat| {
      ReplaceAbsent(s[1..], pat, rep);
      assert [s[0]] + s[1..] == s;
    }
  }

  /** A prefix without the pattern's first character is copied unchanged and the
      replacement continues after it. */
  lemma {:induction false} ReplaceSkipsPrefix(x: string, pat: string, rep: string, y: string)
    requires pat != ""
    requires pat[0] !in x
    ensures ReplaceAll(x + y, pat, rep) == x + ReplaceAll(y, pat, rep)
    decreases |x|
  {
    if |x| > 0 {
      var s := x + y;
      assert s[0] == x[0] && s[1..] == x[1..] + y;
      ReplaceSkipsPrefix(x[1..], pat, rep, y);
      assert x == [x[0]] + x[1..];
      if |s| >= |pat| {
        assert s[..|pat|][0] == x[0] != pat[0];
        calc {
          ReplaceAll(s, pat, rep);
          [x[0]] + ReplaceAll(x[1..] + y, pat, rep);
          [x[0]] + (x[1..] + ReplaceAll(y, pat, rep));
          x + ReplaceAll(y, pat, rep);
        }
      } else {
        assert ReplaceAll(y, pat, rep) == y;
      }
    } else {
      assert x + y == y;
    }
  }

  /** Replacing a one-character pattern by nothing deletes exactly that character:
      what is left are the other characters of `s`, in order. */
  lemma {:induction false} ReplaceCharByNothing(s: string, c: char)
    ensures ReplaceAll(s, [c], "") == Without(s, c)
    ensures c !in ReplaceAll(s, [c], "")
    decreases |s|
  {
    if |s| > 0 {
      ReplaceCharByNothing(s[1..], c);
    }
  }
}
