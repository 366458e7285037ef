/** The pieces of JavaScript semantics the site's components rely on: values
    that may be `undefined`, the truncating `%` operator, and
    `String.prototype.split` / `Array.prototype.join` with a one-character
    separator. */
module JsPrimitives {

  /** A value that may be `undefined` (or `null`, where the two behave alike). */
  datatype Option<+T> = None | Some(value: T)

  /** The quotient of JavaScript's `a / b` truncated toward zero, as
      `Math.trunc(a / b)` gives it, for a positive divisor. */
  function TruncQuot(a: int, b: int): int
    requires b > 0
  {
    if a >= 0 then a / b else -((-a) / b)
  }

  /** JavaScript's `a % b` for a positive divisor: the quotient truncates toward
      zero, so the remainder takes the sign of the dividend (unlike Dafny's
      Euclidean `%`, whose remainder is never negative). */
  function TruncRem(a: int, b: int): (r: int)
    requires b > 0
    ensures a == TruncQuot(a, b) * b + r
    ensures a >= 0 ==> 0 <= r < b
    ensures a < 0 ==> -b < r <= 0
  {
    if a >= 0 then a % b else -((-a) % b)
  }

  /** Euclidean `%` is pinned down by any quotient/remainder decomposition. */
  lemma ModOf(x: int, n: int, q: int, r: int)
    requires n > 0 && 0 <= r < n && x == q * n + r
    ensures x % n == r
  {
    var q', r' := x / n, x % n;
    assert x == q' * n + r';
    assert (q - q') * n == r' - r;
    if q > q' {
      MulAtLeast(q - q', n);
    } else if q < q' {
      MulAtLeast(q' - q, n);
    }
  }

  lemma {:induction false} MulAtLeast(d: int, n: int)
    requires d >= 1 && n > 0
    ensures d * n >= n
    decreases d
  {
    if d > 1 {
      MulAtLeast(d - 1, n);
      assert d * n == (d - 1) * n + n;
    }
  }

  /** `s.split(sep)`: the pieces between occurrences of `sep`, so the empty
      string splits into one empty piece and each separator adds a piece. */
  function Split(s: string, sep: char): (parts: seq<string>)
    ensures |parts| >= 1
    ensures forall k :: 0 <= k < |parts| ==> sep !in parts[k]
    ensures |parts| == 1 ==> parts[0] == s
  {
    if s == [] then [""]
    else
      var tail := Split(s[1..], sep);
      if s[0] == sep then [""] + tail
      else [[s[0]] + tail[0]] + tail[1..]
  }

  /** `parts.join(sep)`; the empty array joins to the empty string. */
  function Join(parts: seq<string>, sep: char): (r: string)
    ensures parts == [] ==> r == ""
    ensures |parts| >= 1 ==> |r| >= |parts[0]| + |parts| - 1
  {
    if |parts| == 0 then ""
    else if |parts| == 1 then parts[0]
    else parts[0] + [sep] + Join(parts[1..], sep)
  }

  /** No piece contains the separator and none is empty. */
  ghost predicate CleanParts(parts: seq<string>, sep: char)
  {
    forall k :: 0 <= k < |parts| ==> parts[k] != "" && sep !in parts[k]
  }

  lemma JoinConsHead(c: char, t: seq<string>, sep: char)
    requires |t| >= 1
    ensures Join([[c] + t[0]] + t[1..], sep) == [c] + Join(t, sep)
  {
    var u := [[c] + t[0]] + t[1..];
    assert u[1..] == t[1..];
  }

  /** Joining the pieces of a split gives back the original string. */
  lemma {:induction false} JoinSplit(s: string, sep: char)
    ensures Join(Split(s, sep), sep) == s
  {
    if s == [] {
    } else {
      var tail := Split(s[1..], sep);
      JoinSplit(s[1..], sep);
      if s[0] == sep {
        assert ([""] + tail)[1..] == tail;
        assert Join([""] + tail, sep) == "" + [sep] + Join(tail, sep);
        assert s == [s[0]] + s[1..];
      } else {
        JoinConsHead(s[0], tail, sep);
        assert s == [s[0]] + s[1..];
      }
    }
  }

  /** Splitting `x + y`, where `x` holds no separator and `y` starts at one
      (or is empty), glues `x` onto the first piece of `y`. */
  lemma {:induction false} SplitAppend(x: string, y: string, sep: char)
    requires sep !in x
    requires y == [] || y[0] == sep
    ensures Split(x + y, sep) == [x + Split(y, sep)[0]] + Split(y, sep)[1..]
    decreases |x|
  {
    if x == [] {
      assert x + y == y;
    } else {
      SplitAppend(x[1..], y, sep);
      assert (x + y)[1..] == x[1..] + y;
      assert [x[0]] + (x[1..] + Split(y, sep)[0]) == x + Split(y, sep)[0];
    }
  }

  /** Splitting a join of separator-free pieces gives back the pieces. */
  lemma {:induction false} SplitJoin(parts: seq<string>, sep: char)
    requires |parts| >= 1
    requires forall k :: 0 <= k < |parts| ==> sep !in parts[k]
    ensures Split(Join(parts, sep), sep) == parts
    decreases |parts|
  {
    if |parts| == 1 {
      SplitAppend(parts[0], [], sep);
      assert parts[0] + [] == parts[0];
    } else {
      var rest := Join(parts[1..], sep);
      SplitJoin(parts[1..], sep);
      var y := [sep] + rest;
      assert y[1..] == rest;
      assert Split(y, sep) == [""] + parts[1..];
      assert Split(y, sep)[0] == "" && Split(y, sep)[1..] == parts[1..];
      SplitAppend(parts[0], y, sep);
      assert parts[0] + [sep] + rest == parts[0] + y;
      assert parts[0] + "" == parts[0];
      assert parts == [parts[0]] + parts[1..];
    }
  }

  /** A join of non-empty, separator-free pieces neither starts nor ends with
      the separator and never holds two separators in a row. */
  lemma {:induction false} JoinClean(parts: seq<string>, sep: char)
    requires |parts| >= 1
    requires CleanParts(parts, sep)
    ensures var j := Join(parts, sep);
      && |j| > 0 && j[0] != sep && j[|j| - 1] != sep
      && forall k :: 0 <= k < |j| - 1 ==> !(j[k] == sep && j[k + 1] == sep)
    decreases |parts|
  {
    var p := parts[0];
    assert p != "" && sep !in p;
    if |parts| > 1 {
      JoinClean(parts[1..], sep);
      var rest := Join(parts[1..], sep);
      var j := p + [sep] + rest;
      assert j[0] == p[0];
      assert j[|j| - 1] == rest[|rest| - 1];
      forall k | 0 <= k < |j| - 1
        ensures !(j[k] == sep && j[k + 1] == sep)
      {
        if k < |p| {
          assert j[k] == p[k];
        } else if k == |p| {
          assert j[k + 1] == rest[0];
        } else {
          assert j[k] == rest[k - |p| - 1];
          assert j[k + 1] == rest[k - |p|];
        }
      }
    }
  }
}
