/** The `itertools` building blocks the card builder uses: `chain` with
    `repeat`, `islice` (through `take`) and the `izip_longest` grouper idiom. */
module Iterators {
  import opened Wrappers

  /** An iterable as the card builder sees one: a finite list, or a finite
      prefix followed by one value repeated forever
      (`chain(items, repeat(filler))`). */
  datatype Iter<T> = List(items: seq<T>) | ChainRepeat(items: seq<T>, filler: T) {

    /** Whether the iterable yields an `i`-th item at all. */
    predicate HasNth(i: nat)
    {
      ChainRepeat? || i < |items|
    }

    /** The `i`-th item the iterable yields. */
    function Nth(i: nat): (r: T)
      requires HasNth(i)
    {
      if i < |items| then items[i] else filler
    }

    predicate Exhausted()
    {
      List? && items == []
    }

    /** The iterable left after its first item has been consumed. */
    function Next(): (rest: Iter<T>)
      requires !Exhausted()
      ensures forall i: nat :: rest.HasNth(i) <==> HasNth(i + 1)
      ensures forall i: nat :: rest.HasNth(i) ==> rest.Nth(i) == Nth(i + 1)
    {
      match this
      case List(xs) => List(xs[1..])
      case ChainRepeat(xs, f) => if xs == [] then this else ChainRepeat(xs[1..], f)
    }
  }

  /** `take(iterable, n)`, i.e. `list(islice(iterable, n))`: the first `n`
      items, or all of them when a finite iterable runs out earlier. */
  function Take<T>(it: Iter<T>, n: nat): (r: seq<T>)
    ensures |r| == if it.List? then Min(n, |it.items|) else n
    ensures forall i :: 0 <= i < |r| ==> it.HasNth(i) && r[i] == it.Nth(i)
    decreases n
  {
    if n == 0 || it.Exhausted() then []
    else [it.Nth(0)] + Take(it.Next(), n - 1)
  }

  function MapSome<T>(xs: seq<T>): (r: seq<Option<T>>)
    ensures |r| == |xs|
    ensures forall i :: 0 <= i < |xs| ==> r[i] == Some(xs[i])
  {
    seq(|xs|, i requires 0 <= i < |xs| => Some(xs[i]))
  }

  /** `izip_longest(*[iter(xs)] * k)`: the items of `xs` grouped into
      consecutive tuples of `k`, the last one padded with fewer than `k`
      `None`s. With `k <= 0` the list of iterators is empty and
      `izip_longest()` yields nothing. */
  function GroupLongest<T>(xs: seq<T>, k: int): (rows: seq<seq<Option<T>>>)
    ensures k <= 0 ==> rows == []
    ensures forall i :: 0 <= i < |rows| ==> |rows[i]| == k
    ensures k > 0 ==> |xs| <= |Flatten(rows)| < |xs| + k
    ensures k > 0 ==> Flatten(rows)[..|xs|] == MapSome(xs)
    ensures forall i :: |xs| <= i < |Flatten(rows)| ==> Flatten(rows)[i] == None
    decreases |xs|
  {
    if k <= 0 || xs == [] then []
    else if |xs| < k then
      var row := MapSome(xs) + seq(k - |xs|, _ => None);
      assert Flatten([row]) == row;
      [row]
    else
      var rest := GroupLongest(xs[k..], k);
      var rows := [MapSome(xs[..k])] + rest;
      assert Flatten(rows) == MapSome(xs[..k]) + Flatten(rest) by {
        assert rows[0] == MapSome(xs[..k]) && rows[1..] == rest;
      }
      assert Flatten(rows)[..|xs|] == MapSome(xs) by {
        assert xs == xs[..k] + xs[k..];
        MapSomeAppend(xs[..k], xs[k..]);
      }
      rows
  }

  lemma MapSomeAppend<T>(a: seq<T>, b: seq<T>)
    ensures MapSome(a + b) == MapSome(a) + MapSome(b)
  {
  }

  /** A table read row by row, the rows' items one after another, as the
      page template's nested loops visit the cells. The builder itself never
      flattens its rows; this is how the properties read a card. */
  function Flatten<T>(rows: seq<seq<T>>): (r: seq<T>)
  {
    if rows == [] then [] else rows[0] + Flatten(rows[1..])
  }

  /** Rows of equal length `k` flatten to `|rows| * k` items. */
  lemma {:induction false} FlattenLength<T>(rows: seq<seq<T>>, k: int)
    requires forall i :: 0 <= i < |rows| ==> |rows[i]| == k
    ensures |Flatten(rows)| == |rows| * k
  {
    if rows != [] {
      FlattenLength(rows[1..], k);
      MulStep(|rows| - 1, k);
    }
  }

  /** Item `i * k + j` of the flattened rows is item `j` of row `i`. */
  lemma {:induction false} FlattenAt<T>(rows: seq<seq<T>>, k: int, i: int, j: int)
    requires forall r :: 0 <= r < |rows| ==> |rows[r]| == k
    requires 0 <= i < |rows| && 0 <= j < k
    ensures 0 <= i * k + j < |Flatten(rows)| && Flatten(rows)[i * k + j] == rows[i][j]
  {
    var rest := rows[1..];
    assert Flatten(rows) == rows[0] + Flatten(rest);
    if i == 0 {
      assert i * k + j == j;
    } else {
      FlattenAt(rest, k, i - 1, j);
      MulStep(i - 1, k);
    }
  }

  /** When `k` divides the length, the grouper pads nothing: it yields
      exactly `|xs| / k` rows, which flatten back to `xs`. */
  lemma GroupLongestNoPadding<T>(xs: seq<T>, k: int, m: nat)
    requires k > 0 && |xs| == k * m
    ensures |GroupLongest(xs, k)| == m
    ensures Flatten(GroupLongest(xs, k)) == MapSome(xs)
  {
    var rows := GroupLongest(xs, k);
    FlattenLength(rows, k);
    UniqueQuotient(|rows|, m, k);
    var flat := Flatten(rows);
    assert |flat| == |xs|;
    assert flat == flat[..|xs|];
  }

  /** Position of cell `(i, j)` when rows of `k` cells are laid end to end. */
  function RowMajor(i: int, j: int, k: int): (p: int)
  {
    i * k + j
  }

  /** Rows of length `k` that flatten to `xs` hold `xs` in row-major order. */
  lemma RowsOfFlatten<T>(rows: seq<seq<Option<T>>>, xs: seq<T>, k: int)
    requires forall r :: 0 <= r < |rows| ==> |rows[r]| == k
    requires Flatten(rows) == MapSome(xs)
    ensures forall i, j :: 0 <= i < |rows| && 0 <= j < k ==>
      0 <= RowMajor(i, j, k) < |xs| && rows[i][j] == Some(xs[RowMajor(i, j, k)])
  {
    forall i, j | 0 <= i < |rows| && 0 <= j < k
      ensures 0 <= RowMajor(i, j, k) < |xs| && rows[i][j] == Some(xs[RowMajor(i, j, k)])
    {
      FlattenAt(rows, k, i, j);
      assert rows[i][j] == MapSome(xs)[i * k + j];
    }
  }

  /** `size * size` items grouped `size` at a time make a square: `size`
      rows of `size` cells, cell `(i, j)` holding item `RowMajor(i, j, size)`. */
  lemma GroupSquare<T>(xs: seq<T>, size: int)
    requires size > 0 && |xs| == size * size
    ensures |GroupLongest(xs, size)| == size
    ensures forall i, j :: 0 <= i < size && 0 <= j < size ==>
      0 <= RowMajor(i, j, size) < |xs| && GroupLongest(xs, size)[i][j] == Some(xs[RowMajor(i, j, size)])
  {
    GroupLongestNoPadding(xs, size, size);
    RowsOfFlatten(GroupLongest(xs, size), xs, size);
  }

  lemma MulStep(n: int, k: int)
    ensures (n + 1) * k == n * k + k
  {
  }

  /** The only `n` with `k * m <= n * k < k * m + k` is `m`. */
  lemma UniqueQuotient(n: nat, m: nat, k: int)
    requires k > 0 && k * m <= n * k < k * m + k
    ensures n == m
  {
    assert (m - 1) * k == k * m - k && (m + 1) * k == k * m + k;
    if n < m {
      MulMonotone(n, m - 1, k);
      assert false;
    } else if n > m {
      MulMonotone(m + 1, n, k);
      assert false;
    }
  }

  lemma {:induction false} MulMonotone(a: nat, b: nat, k: nat)
    requires a <= b
    ensures a * k <= b * k
    decreases b - a
  {
    if a < b {
      MulMonotone(a, b - 1, k);
      assert b * k == (b - 1) * k + k;
    }
  }
}
