/**
 * The two JavaScript array operations the Button's class assembly relies on,
 * restricted to arrays of strings: `xs.filter(Boolean)` and `xs.join(sep)`.
 */
module JsArray {

  /** `Boolean(s)` for a string: the empty string is the only falsy one. */
  predicate Truthy(s: string) {
    s != ""
  }

  /** `xs.filter(Boolean)`: keeps the truthy elements, in their order. */
  function FilterTruthy(xs: seq<string>): (r: seq<string>)
    ensures |r| <= |xs|
    ensures forall i :: 0 <= i < |r| ==> Truthy(r[i])
  {
    if xs == [] then []
    else (if Truthy(xs[0]) then [xs[0]] else []) + FilterTruthy(xs[1..])
  }

  /** Filtering distributes over concatenation, so the order of the survivors is the input order. */
  lemma {:induction false} FilterTruthyAppend(xs: seq<string>, ys: seq<string>)
    ensures FilterTruthy(xs + ys) == FilterTruthy(xs) + FilterTruthy(ys)
  {
    if xs == [] {
      assert xs + ys == ys;
    } else {
      assert (xs + ys)[1..] == xs[1..] + ys;
      FilterTruthyAppend(xs[1..], ys);
    }
  }

  /** Every truthy string survives the filter as often as it occurs (and the empty string, by the contract, never does). */
  lemma {:induction false} FilterTruthyCounts(xs: seq<string>, x: string)
    requires Truthy(x)
    ensures multiset(FilterTruthy(xs))[x] == multiset(xs)[x]
  {
    if xs != [] {
      FilterTruthyCounts(xs[1..], x);
      assert xs == [xs[0]] + xs[1..];
      if Truthy(xs[0]) {
        assert FilterTruthy(xs) == [xs[0]] + FilterTruthy(xs[1..]);
      } else {
        assert FilterTruthy(xs) == FilterTruthy(xs[1..]);
      }
    }
  }

  /** An array with no empty string is left as it is. */
  lemma {:induction false} FilterTruthyKeepsTruthy(xs: seq<string>)
    requires forall i :: 0 <= i < |xs| ==> Truthy(xs[i])
    ensures FilterTruthy(xs) == xs
  {
    if xs != [] {
      FilterTruthyKeepsTruthy(xs[1..]);
    }
  }

  /** Filtering twice is filtering once. */
  lemma FilterTruthyIdempotent(xs: seq<string>)
    ensures FilterTruthy(FilterTruthy(xs)) == FilterTruthy(xs)
  {
    FilterTruthyKeepsTruthy(FilterTruthy(xs));
  }

  /** Sum of the lengths of the elements. */
  function TotalLength(xs: seq<string>): nat {
    if xs == [] then 0 else |xs[0]| + TotalLength(xs[1..])
  }

  /**
   * `xs.join(sep)` on an array of strings: the elements with one `sep`
   * between neighbours, and nothing before the first or after the last.
   */
  function Join(xs: seq<string>, sep: string): (r: string)
    ensures sep != "" ==> |xs| - 1 <= |r|
  {
    if xs == [] then ""
    else if |xs| == 1 then xs[0]
    else xs[0] + sep + Join(xs[1..], sep)
  }

  /** The joined string is as long as the elements together plus one `sep` per gap. */
  lemma {:induction false} JoinLength(xs: seq<string>, sep: string)
    requires xs != []
    ensures |Join(xs, sep)| == TotalLength(xs) + (|xs| - 1) * |sep|
  {
    if |xs| > 1 {
      JoinLength(xs[1..], sep);
      assert (|xs| - 1) * |sep| == (|xs| - 2) * |sep| + |sep|;
    }
  }

  /**
   * The join as ECMAScript's Array.prototype.join describes it: walk the
   * array left to right, appending `sep` before every element but the first.
   */
  function JoinLeftToRight(xs: seq<string>, sep: string): string
    decreases |xs|
  {
    if xs == [] then ""
    else if |xs| == 1 then xs[0]
    else JoinLeftToRight(xs[..|xs| - 1], sep) + sep + xs[|xs| - 1]
  }

  /** Appending one element adds `sep` and that element at the end. */
  lemma {:induction false} JoinSnoc(xs: seq<string>, y: string, sep: string)
    requires xs != []
    ensures Join(xs + [y], sep) == Join(xs, sep) + sep + y
  {
    if |xs| == 1 {
      assert (xs + [y])[1..] == [y];
    } else {
      assert (xs + [y])[1..] == xs[1..] + [y];
      JoinSnoc(xs[1..], y, sep);
    }
  }

  /** The recursive join and the left-to-right walk agree on every array. */
  lemma {:induction false} JoinIsLeftToRight(xs: seq<string>, sep: string)
    ensures Join(xs, sep) == JoinLeftToRight(xs, sep)
    decreases |xs|
  {
    if |xs| > 1 {
      var init := xs[..|xs| - 1];
      assert xs == init + [xs[|xs| - 1]];
      JoinSnoc(init, xs[|xs| - 1], sep);
      JoinIsLeftToRight(init, sep);
    }
  }

  /** A non-empty join ends with its last element, preceded by `sep` when there is more than one. */
  lemma JoinEndsWithLast(xs: seq<string>, sep: string)
    requires |xs| >= 2
    ensures var r := Join(xs, sep); var tail := sep + xs[|xs| - 1];
      |tail| <= |r| && r[|r| - |tail|..] == tail
  {
    var init := xs[..|xs| - 1];
    assert xs == init + [xs[|xs| - 1]];
    JoinSnoc(init, xs[|xs| - 1], sep);
  }

  /** A non-empty join starts with its first element and ends with its last. */
  lemma JoinEnds(xs: seq<string>, sep: string)
    requires xs != []
    ensures var r := Join(xs, sep); var last := xs[|xs| - 1];
      |xs[0]| <= |r| && r[..|xs[0]|] == xs[0] && |last| <= |r| && r[|r| - |last|..] == last
  {
    if |xs| >= 2 {
      var r, first, last := Join(xs, sep), xs[0], xs[|xs| - 1];
      JoinStartsWithFirst(xs, sep);
      assert r[..|first|] == r[..|first + sep|][..|first|];
      JoinEndsWithLast(xs, sep);
      var tail := sep + last;
      assert r[|r| - |last|..] == r[|r| - |tail|..][|sep|..];
    }
  }

  /** With two or more elements, the join starts with the first element and one `sep`. */
  lemma JoinStartsWithFirst(xs: seq<string>, sep: string)
    requires |xs| >= 2
    ensures var r := Join(xs, sep); |xs[0] + sep| <= |r| && r[..|xs[0] + sep|] == xs[0] + sep
  {
    var r := Join(xs, sep);
    assert r == (xs[0] + sep) + Join(xs[1..], sep);
  }
}
