/**
  The few functions of Go's `strings` package that the scraper relies on.
  A Go string is a sequence of bytes; here each `char` stands for one byte.
  Separators handed to `Cut` and `Split` are single bytes, as at every call site.
*/
module GoStrings {

  /** strings.IndexByte: the index of the first `c` in `s`, or -1 when there is none. */
  function IndexByte(s: string, c: char): (i: int)
    ensures -1 <= i < |s|
    ensures i == -1 <==> c !in s
    ensures 0 <= i ==> s[i] == c && c !in s[..i]
  {
    if s == [] then -1
    else if s[0] == c then 0
    else
      var j := IndexByte(s[1..], c);
      assert s == [s[0]] + s[1..];
      if j < 0 then -1
      else
        assert s[..j + 1] == [s[0]] + s[1..][..j];
        j + 1
  }

  datatype CutResult = CutResult(before: string, after: string, found: bool)

  /**
    strings.Cut: the text before and after the first `sep`, and whether there was one.
    Without a separator `before` is the whole string and `after` is empty.
  */
  function Cut(s: string, sep: char): (r: CutResult)
    ensures r.found <==> sep in s
    ensures r.found ==> s == r.before + [sep] + r.after && sep !in r.before
    ensures !r.found ==> r.before == s && r.after == ""
  {
    var i := IndexByte(s, sep);
    if i < 0 then CutResult(s, "", false)
    else
      assert s == s[..i] + [sep] + s[i + 1..];
      CutResult(s[..i], s[i + 1..], true)
  }

  /** A string that has no `sep` before its first `sep` is cut exactly there. */
  lemma CutAt(a: string, sep: char, b: string)
    requires sep !in a
    ensures Cut(a + [sep] + b, sep) == CutResult(a, b, true)
  {
    var s := a + [sep] + b;
    var r := Cut(s, sep);
    assert s[|a|] == sep;
    assert |r.before| == |a|;
    assert r.before == s[..|a|] == a;
    assert r.after == s[|a| + 1..] == b;
  }

  /** strings.Split: the pieces of `s` between the occurrences of `sep`, in order. */
  function Split(s: string, sep: char): (parts: seq<string>)
    ensures |parts| >= 1
    ensures forall i :: 0 <= i < |parts| ==> sep !in parts[i]
    decreases |s|
  {
    var r := Cut(s, sep);
    if r.found then [r.before] + Split(r.after, sep) else [s]
  }

  /** strings.Join: the pieces with one `sep` between neighbours. */
  function Join(parts: seq<string>, sep: char): string
  {
    if |parts| == 0 then ""
    else if |parts| == 1 then parts[0]
    else parts[0] + [sep] + Join(parts[1..], sep)
  }

  /** Joining the pieces of a split gives back the string. */
  lemma {:induction false} JoinSplit(s: string, sep: char)
    ensures Join(Split(s, sep), sep) == s
    decreases |s|
  {
    var r := Cut(s, sep);
    if r.found {
      JoinSplit(r.after, sep);
      var rest := Split(r.after, sep);
      assert Split(s, sep) == [r.before] + rest;
      assert ([r.before] + rest)[1..] == rest;
    }
  }

  /** Splitting a join of separator-free pieces gives back the pieces. */
  lemma {:induction false} SplitJoin(parts: seq<string>, sep: char)
    requires |parts| >= 1
    requires forall i :: 0 <= i < |parts| ==> sep !in parts[i]
    ensures Split(Join(parts, sep), sep) == parts
  {
    if |parts| > 1 {
      var rest := parts[1..];
      assert forall i :: 0 <= i < |rest| ==> sep !in rest[i] by {
        forall i | 0 <= i < |rest| ensures sep !in rest[i] {
          assert rest[i] == parts[i + 1];
        }
      }
      SplitJoin(rest, sep);
      assert sep !in parts[0];
      CutAt(parts[0], sep, Join(rest, sep));
    } else {
      assert sep !in parts[0];
    }
  }

  /** `pat` occurs in `s` starting at index `i`. */
  predicate OccursAt(s: string, pat: string, i: nat)
  {
    i + |pat| <= |s| && s[i..i + |pat|] == pat
  }

  predicate Contains(s: string, pat: string)
  {
    exists i: nat :: i <= |s| && OccursAt(s, pat, i)
  }

  predicate HasPrefix(s: string, pat: string)
  {
    |pat| <= |s| && s[..|pat|] == pat
  }

  /** strings.Count: occurrences of a non-empty `pat`, counted left to right without overlap. */
  function Count(s: string, pat: string): nat
    requires pat != ""
    decreases |s|
  {
    if s == [] then 0
    else if HasPrefix(s, pat) then 1 + Count(s[|pat|..], pat)
    else Count(s[1..], pat)
  }

  /**
    strings.ReplaceAll for a non-empty `pat`: scanning left to right, each occurrence of
    `pat` is replaced by `rep` and scanning resumes after it; the replacement text is never
    scanned again.
  */
  function ReplaceAll(s: string, pat: string, rep: string): (r: string)
    requires pat != ""
    ensures pat[0] !in s ==> r == s
    ensures |rep| <= |pat| ==> |r| <= |s|
    decreases |s|
  {
    if s == [] then []
    else if HasPrefix(s, pat) then rep + ReplaceAll(s[|pat|..], pat, rep)
    else [s[0]] + ReplaceAll(s[1..], pat, rep)
  }

  /** Each replacement changes the length by |rep| - |pat|. */
  lemma {:induction false} ReplaceAllLength(s: string, pat: string, rep: string)
    requires pat != ""
    ensures |ReplaceAll(s, pat, rep)| == |s| + Count(s, pat) * (|rep| - |pat|)
    decreases |s|
  {
    if s == [] {
    } else if HasPrefix(s, pat) {
      var rest := s[|pat|..];
      ReplaceAllLength(rest, pat, rep);
      OneMoreReplacement(Count(rest, pat), |rep| - |pat|);
    } else {
      ReplaceAllLength(s[1..], pat, rep);
    }
  }

  lemma OneMoreReplacement(n: nat, d: int)
    ensures (1 + n) * d == d + n * d
  {
  }

  /** The left-to-right count is zero exactly when `pat` occurs nowhere in `s`. */
  lemma {:induction false} CountZeroIffAbsent(s: string, pat: string)
    requires pat != ""
    ensures Count(s, pat) == 0 <==> !Contains(s, pat)
    decreases |s|
  {
    if s == [] {
    } else if HasPrefix(s, pat) {
      assert OccursAt(s, pat, 0);
    } else {
      CountZeroIffAbsent(s[1..], pat);
      if Contains(s, pat) {
        var i: nat :| i <= |s| && OccursAt(s, pat, i);
        assert i != 0;
        assert s[1..][i - 1..i - 1 + |pat|] == s[i..i + |pat|];
        assert OccursAt(s[1..], pat, i - 1);
      }
      if Contains(s[1..], pat) {
        var i: nat :| i <= |s[1..]| && OccursAt(s[1..], pat, i);
        assert s[i + 1..i + 1 + |pat|] == s[1..][i..i + |pat|];
        assert OccursAt(s, pat, i + 1);
      }
    }
  }

  /** A string in which `pat` does not occur is returned unchanged. */
  lemma {:induction false} ReplaceAllAbsent(s: string, pat: string, rep: string)
    requires pat != ""
    requires !Contains(s, pat)
    ensures ReplaceAll(s, pat, rep) == s
    decreases |s|
  {
    if s != [] {
      assert !OccursAt(s, pat, 0);
      if Contains(s[1..], pat) {
        var i: nat :| i <= |s[1..]| && OccursAt(s[1..], pat, i);
        assert s[i + 1..i + 1 + |pat|] == s[1..][i..i + |pat|];
        assert OccursAt(s, pat, i + 1);
      }
      ReplaceAllAbsent(s[1..], pat, rep);
      assert s == [s[0]] + s[1..];
    }
  }

  /** Text free of the first byte of `pat` passes through and does not affect what follows. */
  lemma {:induction false} ReplaceAllSkip(a: string, b: string, pat: string, rep: string)
    requires pat != ""
    requires pat[0] !in a
    ensures ReplaceAll(a + b, pat, rep) == a + ReplaceAll(b, pat, rep)
    decreases |a|
  {
    if a != [] {
      assert (a + b)[0] == a[0];
      assert !HasPrefix(a + b, pat);
      assert (a + b)[1..] == a[1..] + b;
      ReplaceAllSkip(a[1..], b, pat, rep);
      assert a == [a[0]] + a[1..];
    } else {
      assert a + b == b;
    }
  }

  /** An occurrence at the front is replaced and scanning resumes right after it. */
  lemma ReplaceAllFront(b: string, pat: string, rep: string)
    requires pat != ""
    ensures ReplaceAll(pat + b, pat, rep) == rep + ReplaceAll(b, pat, rep)
  {
  }

  /**
    Rewriting `&amp;` to `&` undoes the HTML escaping of ampersands: escaping every `&`
    as `&amp;` and then unescaping gives back the original string.
  */
  lemma {:induction false} UnescapeEscapedAmpersands(s: string)
    ensures ReplaceAll(ReplaceAll(s, "&", "&amp;"), "&amp;", "&") == s
    decreases |s|
  {
    if s != [] {
      var rest := ReplaceAll(s[1..], "&", "&amp;");
      UnescapeEscapedAmpersands(s[1..]);
      assert s == [s[0]] + s[1..];
      if s[0] == '&' {
        assert HasPrefix(s, "&");
        assert ReplaceAll(s, "&", "&amp;") == "&amp;" + rest;
        ReplaceAllFront(rest, "&amp;", "&");
      } else {
        assert !HasPrefix(s, "&");
        assert ReplaceAll(s, "&", "&amp;") == [s[0]] + rest;
        ReplaceAllSkip([s[0]], rest, "&amp;", "&");
      }
    }
  }
}
