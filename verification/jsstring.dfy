/**
 * The JavaScript string and array built-ins that the PEM handling relies on:
 * `String.prototype.split` with a one-character separator,
 * `Array.prototype.join`, `Array.prototype.slice` and plain concatenation.
 */
module JsString {

  /** `parts.join(sep)`: the parts with one separator between neighbours. */
  function Join(parts: seq<string>, sep: char): string
  {
    if |parts| == 0 then ""
    else if |parts| == 1 then parts[0]
    else parts[0] + [sep] + Join(parts[1..], sep)
  }

  /** `parts.join('')`. */
  function Concat(parts: seq<string>): string
  {
    if |parts| == 0 then "" else parts[0] + Concat(parts[1..])
  }

  /**
   * `s.split(sep)` for a one-character separator: the maximal separator-free
   * pieces, always at least one (the empty string splits into `[""]`).
   */
  function Split(s: string, sep: char): (parts: seq<string>)
    ensures |parts| >= 1
    ensures forall i :: 0 <= i < |parts| ==> sep !in parts[i]
    ensures Join(parts, sep) == s
    decreases |s|
  {
    if |s| == 0 then [""]
    else
      var rest := Split(s[1..], sep);
      if s[0] == sep then
        assert ([""] + rest)[1..] == rest;
        [""] + rest
      else
        var parts := [[s[0]] + rest[0]] + rest[1..];
        assert parts[1..] == rest[1..];
        parts
  }

  /** `a.slice(start, end)`: negative positions count from the end, all positions are clamped. */
  function Slice<T>(a: seq<T>, start: int, end: int): (r: seq<T>)
    ensures |r| <= |a|
    ensures 0 <= start <= end <= |a| ==> r == a[start..end]
    ensures 0 <= start && end < 0 && start <= |a| + end ==> r == a[start..|a| + end]
    ensures 0 <= start && end < 0 && |a| + end <= start ==> r == []
  {
    var from := if start < 0 then Max(|a| + start, 0) else Min(start, |a|);
    var to := if end < 0 then Max(|a| + end, 0) else Min(end, |a|);
    if from < to then a[from..to] else []
  }

  function Min(a: int, b: int): int { if a <= b then a else b }
  function Max(a: int, b: int): int { if a >= b then a else b }

  predicate SeparatorFree(parts: seq<string>, sep: char)
  {
    forall i :: 0 <= i < |parts| ==> sep !in parts[i]
  }

  /** A separator-free string is a single piece. */
  lemma {:induction false} SplitSingle(a: string, sep: char)
    requires sep !in a
    ensures Split(a, sep) == [a]
    decreases |a|
  {
    if |a| > 0 {
      SplitSingle(a[1..], sep);
      assert [a[0]] + a[1..] == a;
    }
  }

  /** A separator-free prefix followed by the separator splits off as the first piece. */
  lemma {:induction false} SplitCons(a: string, sep: char, rest: string)
    requires sep !in a
    ensures Split(a + [sep] + rest, sep) == [a] + Split(rest, sep)
    decreases |a|
  {
    var s := a + [sep] + rest;
    if |a| == 0 {
      assert s[1..] == rest;
    } else {
      assert s[1..] == a[1..] + [sep] + rest;
      SplitCons(a[1..], sep, rest);
      assert [a[0]] + a[1..] == a;
    }
  }

  /** Splitting undoes joining: the separator-free pieces come back exactly. */
  lemma {:induction false} SplitJoin(parts: seq<string>, sep: char)
    requires |parts| >= 1
    requires SeparatorFree(parts, sep)
    ensures Split(Join(parts, sep), sep) == parts
    decreases |parts|
  {
    if |parts| == 1 {
      SplitSingle(parts[0], sep);
    } else {
      SplitJoin(parts[1..], sep);
      SplitCons(parts[0], sep, Join(parts[1..], sep));
      assert [parts[0]] + parts[1..] == parts;
    }
  }

  /** Joining with one more part appends a separator and that part. */
  lemma {:induction false} JoinSnoc(parts: seq<string>, sep: char, x: string)
    requires |parts| >= 1
    ensures Join(parts + [x], sep) == Join(parts, sep) + [sep] + x
    decreases |parts|
  {
    if |parts| == 1 {
      assert (parts + [x])[1..] == [x];
    } else {
      assert (parts + [x])[1..] == parts[1..] + [x];
      JoinSnoc(parts[1..], sep, x);
    }
  }

  /** `join` puts exactly one separator between neighbours: the parts' lengths plus one per gap. */
  lemma {:induction false} JoinLength(parts: seq<string>, sep: char)
    requires |parts| > 0
    ensures |Join(parts, sep)| == |Concat(parts)| + |parts| - 1
    decreases |parts|
  {
    if |parts| > 1 {
      JoinLength(parts[1..], sep);
    }
  }

  /** Joining a first part in front of at least one more part puts one separator after it. */
  lemma JoinCons(x: string, parts: seq<string>, sep: char)
    requires |parts| >= 1
    ensures Join([x] + parts, sep) == x + [sep] + Join(parts, sep)
  {
    assert ([x] + parts)[1..] == parts;
  }

  /** Replacing an empty last part by x appends x to the joined text. */
  lemma JoinReplaceLast(parts: seq<string>, sep: char, x: string)
    ensures Join(parts + [x], sep) == Join(parts + [""], sep) + x
  {
    if |parts| == 0 {
      assert parts + [x] == [x];
      assert parts + [""] == [""];
    } else {
      JoinSnoc(parts, sep, x);
      JoinSnoc(parts, sep, "");
    }
  }

  /** Concatenation distributes over appending one more part. */
  lemma {:induction false} ConcatSnoc(parts: seq<string>, x: string)
    ensures Concat(parts + [x]) == Concat(parts) + x
    decreases |parts|
  {
    if |parts| == 0 {
      assert parts + [x] == [x];
    } else {
      assert (parts + [x])[1..] == parts[1..] + [x];
      ConcatSnoc(parts[1..], x);
    }
  }

  /** `slice(1, -2)` drops the first element and the last two, or everything when fewer than three remain. */
  lemma SliceDropEnds<T>(a: seq<T>)
    ensures |a| >= 3 ==> Slice(a, 1, -2) == a[1..|a| - 2]
    ensures |a| < 3 ==> Slice(a, 1, -2) == []
  {
  }
}
