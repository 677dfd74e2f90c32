/** What a built card promises: how many fields of each kind it has, that its
    words are distinct members of the word set, where the bonus field sits,
    and that the rows show the field list in order. */
module BingoProperties {
  import opened Wrappers
  import opened Randomness
  import opened Iterators
  import opened Bingo

  /** Fields `0 .. |xs|` carry the words `xs` and no later field is normal. */
  lemma {:induction false} NormalWordsOfPrefix(fields: seq<Field>, xs: seq<string>)
    requires |xs| <= |fields|
    requires forall i :: 0 <= i < |xs| ==> fields[i] == Normal(xs[i])
    requires forall i :: |xs| <= i < |fields| ==> !fields[i].Normal?
    ensures NormalWords(fields) == xs
  {
    if fields != [] {
      if xs != [] {
        NormalWordsOfPrefix(fields[1..], xs[1..]);
        assert xs == [xs[0]] + xs[1..];
      } else {
        NormalWordsOfPrefix(fields[1..], xs);
      }
    }
  }

  lemma {:induction false} NormalWordsAppend(a: seq<Field>, b: seq<Field>)
    ensures NormalWords(a + b) == NormalWords(a) + NormalWords(b)
  {
    if a == [] {
      assert a + b == b;
    } else {
      var head := if a[0].Normal? then [a[0].word] else [];
      assert (a + b)[0] == a[0] && (a + b)[1..] == a[1..] + b;
      assert NormalWords(a + b) == head + NormalWords(a[1..] + b);
      NormalWordsAppend(a[1..], b);
      assert NormalWords(a) == head + NormalWords(a[1..]);
    }
  }

  /** `to_fields` keeps the values: reading the words back off its normal
      fields gives the first `min(n, |values|)` values in their order, and it
      never makes a bonus field. */
  lemma ToFieldsRecoversValues(values: seq<string>, n: nat)
    ensures NormalWords(ToFields(values, n)) == values[..Min(n, |values|)]
    ensures Bonus !in ToFields(values, n)
  {
    var fields := ToFields(values, n);
    var m := Min(n, |values|);
    NormalWordsOfPrefix(fields, values[..m]);
  }

  /** The normal fields the generator makes give back exactly the values,
      in order, when their words are read off. */
  lemma {:induction false} NormalFieldsReadBack(values: seq<string>)
    ensures NormalWords(NormalFields(values)) == values
  {
    if values != [] {
      NormalFieldsReadBack(values[1..]);
      assert NormalFields(values)[1..] == NormalFields(values[1..]);
    }
  }

  /** Every field is normal, empty or bonus, so the three counts add up. */
  lemma {:induction false} FieldKindsPartition(fields: seq<Field>)
    ensures |NormalWords(fields)| + multiset(fields)[Empty] + multiset(fields)[Bonus] == |fields|
  {
    if fields != [] {
      FieldKindsPartition(fields[1..]);
      assert fields == [fields[0]] + fields[1..];
    }
  }

  /** A value found at exactly one position occurs exactly once. */
  lemma {:induction false} OccursOnlyAt(fields: seq<Field>, x: Field, p: int)
    requires forall k :: 0 <= k < |fields| ==> (fields[k] == x <==> k == p)
    ensures multiset(fields)[x] == if 0 <= p < |fields| then 1 else 0
  {
    if fields != [] {
      var init := fields[..|fields| - 1];
      OccursOnlyAt(init, x, if p == |fields| - 1 then -1 else p);
      assert fields == init + [fields[|fields| - 1]];
    }
  }

  /** `fields` is laid out as a card's field list: the bonus field at
      `bonusAt` (no bonus when it is out of range), the first `m` words of
      `order` before and after it, empty fields after those. */
  ghost predicate IsCardLayout(fields: seq<Field>, order: seq<string>, m: int, bonusAt: int)
  {
    && 0 <= m <= |fields| && m <= |order|
    && forall k :: 0 <= k < |fields| ==>
         fields[k] == if k == bonusAt then Bonus else if k < m then Normal(order[k]) else Empty
  }

  /** A card's field list has the card layout, with `min(size ** 2, |values|)`
      drawn words. */
  lemma CardFieldsLayout(values: set<string>, size: int, includeBonus: bool, order: seq<string>, choice: int)
    requires IsOrdering(order, values)
    requires includeBonus && size != 0 ==> 0 <= choice < size * size
    requires !(includeBonus && size == 0)
    ensures IsCardLayout(CardFields(values, size, includeBonus, order, choice).value, order,
                         Min(size * size, |values|), if includeBonus then choice else -1)
  {
    var fields := CardFields(values, size, includeBonus, order, choice).value;
    var total := size * size;
    assert |fields| == total;
  }

  lemma LayoutWords(fields: seq<Field>, order: seq<string>, m: int, bonusAt: int)
    requires IsCardLayout(fields, order, m, bonusAt)
    ensures NormalWords(fields) == if 0 <= bonusAt < m then order[..bonusAt] + order[bonusAt + 1..m] else order[..m]
  {
    if 0 <= bonusAt < m {
      var before, after := fields[..bonusAt], fields[bonusAt + 1..];
      LayoutPrefixWords(fields, order, m, bonusAt, 0, bonusAt);
      assert fields[0..bonusAt] == before && order[0..Min(bonusAt, m)] == order[..bonusAt];
      LayoutPrefixWords(fields, order, m, bonusAt, bonusAt + 1, |fields|);
      assert fields[bonusAt + 1..|fields|] == after && Min(|fields|, m) == m;
      assert fields[bonusAt] == Bonus;
      NormalWordsAround(fields, bonusAt);
    } else {
      LayoutPrefixWords(fields, order, m, bonusAt, 0, |fields|);
      assert fields[0..|fields|] == fields && order[0..Min(|fields|, m)] == order[..m];
    }
  }

  /** A bonus field at `p` adds no word: the words are those before it
      followed by those after it. */
  lemma NormalWordsAround(fields: seq<Field>, p: int)
    requires 0 <= p < |fields| && fields[p] == Bonus
    ensures NormalWords(fields) == NormalWords(fields[..p]) + NormalWords(fields[p + 1..])
  {
    assert fields == fields[..p] + [Bonus] + fields[p + 1..];
    NormalWordsAppend(fields[..p] + [Bonus], fields[p + 1..]);
    NormalWordsAppend(fields[..p], [Bonus]);
    assert NormalWords([Bonus]) == [];
  }

  /** A stretch `lo .. hi` of a card layout that skips the bonus field shows
      the words `order[lo .. min(hi, m)]`. */
  lemma LayoutPrefixWords(fields: seq<Field>, order: seq<string>, m: int, bonusAt: int, lo: int, hi: int)
    requires IsCardLayout(fields, order, m, bonusAt)
    requires 0 <= lo <= hi <= |fields| && lo <= m
    requires !(lo <= bonusAt < hi && bonusAt < m)
    ensures NormalWords(fields[lo..hi]) == order[lo..Min(hi, m)]
  {
    var part, words := fields[lo..hi], order[lo..Min(hi, m)];
    forall i | 0 <= i < |words| ensures part[i] == Normal(words[i]) {
      assert part[i] == fields[lo + i];
    }
    forall i | |words| <= i < |part| ensures !part[i].Normal? {
      assert part[i] == fields[lo + i];
    }
    NormalWordsOfPrefix(part, words);
  }

  lemma LayoutCounts(fields: seq<Field>, order: seq<string>, m: int, bonusAt: int)
    requires IsCardLayout(fields, order, m, bonusAt)
    ensures multiset(fields)[Bonus] == if 0 <= bonusAt < |fields| then 1 else 0
    ensures |NormalWords(fields)| == m - (if 0 <= bonusAt < m then 1 else 0)
    ensures multiset(fields)[Empty] == |fields| - m - (if m <= bonusAt < |fields| then 1 else 0)
  {
    OccursOnlyAt(fields, Bonus, bonusAt);
    LayoutWords(fields, order, m, bonusAt);
    FieldKindsPartition(fields);
  }

  /** The normal words of a card's field list: the draw in order, less the
      word the bonus field overwrote, if it overwrote one. */
  lemma CardFieldsWords(values: set<string>, size: int, includeBonus: bool, order: seq<string>, choice: int)
    requires IsOrdering(order, values)
    requires includeBonus && size != 0 ==> 0 <= choice < size * size
    requires !(includeBonus && size == 0)
    ensures var m := Min(size * size, |values|);
      NormalWords(CardFields(values, size, includeBonus, order, choice).value)
        == if includeBonus && choice < m then order[..choice] + order[choice + 1..m] else order[..m]
  {
    CardFieldsLayout(values, size, includeBonus, order, choice);
    LayoutWords(CardFields(values, size, includeBonus, order, choice).value, order,
                Min(size * size, |values|), if includeBonus then choice else -1);
  }

  /** How many fields of each kind a card's field list has: one bonus field
      exactly when it was asked for, the drawn words less any the bonus
      overwrote, and empty fields for the rest. */
  lemma CardFieldsCounts(values: set<string>, size: int, includeBonus: bool, order: seq<string>, choice: int)
    requires IsOrdering(order, values)
    requires includeBonus && size != 0 ==> 0 <= choice < size * size
    requires !(includeBonus && size == 0)
    ensures var fields := CardFields(values, size, includeBonus, order, choice).value;
      multiset(fields)[Bonus] == if includeBonus then 1 else 0
    ensures var fields := CardFields(values, size, includeBonus, order, choice).value;
      var m := Min(size * size, |values|);
      && |NormalWords(fields)| == m - (if includeBonus && choice < m then 1 else 0)
      && multiset(fields)[Empty] == size * size - m - (if includeBonus && m <= choice then 1 else 0)
  {
    CardFieldsLayout(values, size, includeBonus, order, choice);
    LayoutCounts(CardFields(values, size, includeBonus, order, choice).value, order,
                 Min(size * size, |values|), if includeBonus then choice else -1);
  }

  /** The present cells of a list with no `None` are the list itself. */
  lemma {:induction false} PresentMapSome(fields: seq<Field>)
    ensures Present(MapSome(fields)) == fields
  {
    if fields != [] {
      PresentMapSome(fields[1..]);
      assert MapSome(fields)[1..] == MapSome(fields[1..]);
    }
  }

  /** Read row by row, a table shows exactly its field list: the grouping
      neither drops, pads nor reorders fields. A negative size is the
      exception: its fields are computed but its table has no rows. */
  lemma TableShowsFields(values: set<string>, size: int, includeBonus: bool, order: seq<string>, choice: int)
    requires IsOrdering(order, values)
    requires includeBonus && size != 0 ==> 0 <= choice < size * size
    requires !(includeBonus && size == 0)
    ensures CardFields(values, size, includeBonus, order, choice).Ok?
    ensures size >= 0 ==>
      Flatten(BuildTable(values, size, includeBonus, order, choice).value)
        == MapSome(CardFields(values, size, includeBonus, order, choice).value)
    ensures size >= 0 ==>
      CardCells(BuildTable(values, size, includeBonus, order, choice).value)
        == CardFields(values, size, includeBonus, order, choice).value
    ensures size < 0 ==> BuildTable(values, size, includeBonus, order, choice).value == []
  {
    var fields := CardFields(values, size, includeBonus, order, choice).value;
    var t := BuildTable(values, size, includeBonus, order, choice).value;
    assert t == GroupLongest(fields, size);
    if size > 0 {
      GroupLongestNoPadding(fields, size, size);
    } else if size == 0 {
      assert fields == [];
    }
    if size >= 0 {
      PresentMapSome(fields);
    }
  }

  /** No word appears twice on a card: the words of its cells, read row by
      row, are pairwise distinct. */
  lemma TableWordsDistinct(values: set<string>, size: int, includeBonus: bool, order: seq<string>, choice: int)
    requires IsOrdering(order, values)
    requires includeBonus && size != 0 ==> 0 <= choice < size * size
    requires !(includeBonus && size == 0)
    ensures Distinct(NormalWords(CardCells(BuildTable(values, size, includeBonus, order, choice).value)))
  {
    TableShowsFields(values, size, includeBonus, order, choice);
    if size >= 0 {
      CardFieldsLayout(values, size, includeBonus, order, choice);
      LayoutWordsDistinct(CardFields(values, size, includeBonus, order, choice).value, order,
                          Min(size * size, |values|), if includeBonus then choice else -1);
    } else {
      assert CardCells([]) == [];
    }
  }

  lemma LayoutWordsDistinct(fields: seq<Field>, order: seq<string>, m: int, bonusAt: int)
    requires IsCardLayout(fields, order, m, bonusAt)
    requires Distinct(order)
    ensures Distinct(NormalWords(fields))
  {
    LayoutWords(fields, order, m, bonusAt);
    if 0 <= bonusAt < m {
      DistinctSkip(order, m, bonusAt);
    } else {
      DistinctSkip(order, m, m);
    }
  }

  /** Dropping the entry at `p` (nothing, when `p == m`) from a prefix of a
      sequence without repeats leaves a sequence without repeats. */
  lemma DistinctSkip(order: seq<string>, m: int, p: int)
    requires Distinct(order)
    requires 0 <= p <= m <= |order|
    ensures p < m ==> Distinct(order[..p] + order[p + 1..m])
    ensures Distinct(order[..m])
  {
    var prefix := order[..m];
    forall a, b | 0 <= a < b < |prefix| ensures prefix[a] != prefix[b] {
      assert prefix[a] == order[a] && prefix[b] == order[b];
    }
    if p < m {
      var words := order[..p] + order[p + 1..m];
      forall a, b | 0 <= a < b < |words| ensures words[a] != words[b] {
        var a' := if a < p then a else a + 1;
        var b' := if b < p then b else b + 1;
        assert words[a] == order[a'] && words[b] == order[b'];
      }
    }
  }

  /** A word in cell `(i, j)` is the drawn word at row-major position
      `i * size + j`. */
  lemma CellIsDrawn(values: set<string>, size: int, includeBonus: bool, order: seq<string>, choice: int, i: int, j: int)
    requires IsOrdering(order, values)
    requires includeBonus && size != 0 ==> 0 <= choice < size * size
    requires !(includeBonus && size == 0)
    requires 0 <= i < |BuildTable(values, size, includeBonus, order, choice).value|
    requires 0 <= j < |BuildTable(values, size, includeBonus, order, choice).value[i]|
    requires BuildTable(values, size, includeBonus, order, choice).value[i][j].value.Normal?
    ensures 0 <= RowMajor(i, j, size) < Min(size * size, |values|)
    ensures BuildTable(values, size, includeBonus, order, choice).value[i][j].value.word == order[RowMajor(i, j, size)]
  {
    var t := BuildTable(values, size, includeBonus, order, choice).value;
    var k := RowMajor(i, j, size);
    assert t[i][j] == Some(CardField(includeBonus, order, choice, k));
    assert 0 <= k < |order|;
    assert k < size * size by {
      assert 0 <= i < size && 0 <= j < size;
      MulMonotone(i + 1, size, size);
      assert k < (i + 1) * size;
    }
  }

  /** Every word on a card comes from the word set. */
  lemma TableWordsFromSet(values: set<string>, size: int, includeBonus: bool, order: seq<string>, choice: int)
    requires IsOrdering(order, values)
    requires includeBonus && size != 0 ==> 0 <= choice < size * size
    requires !(includeBonus && size == 0)
    ensures var t := BuildTable(values, size, includeBonus, order, choice).value;
      forall i, j, w :: 0 <= i < |t| && 0 <= j < |t[i]| && t[i][j] == Some(Normal(w)) ==> w in values
  {
    var t := BuildTable(values, size, includeBonus, order, choice).value;
    forall i, j, w | 0 <= i < |t| && 0 <= j < |t[i]| && t[i][j] == Some(Normal(w))
      ensures w in values
    {
      CellIsDrawn(values, size, includeBonus, order, choice, i, j);
    }
  }

  /** The bonus field: on a card of positive size it is in exactly one cell,
      the one at the chosen position, when asked for, and nowhere otherwise. */
  lemma TableBonus(values: set<string>, size: int, includeBonus: bool, order: seq<string>, choice: int)
    requires IsOrdering(order, values)
    requires includeBonus && size != 0 ==> 0 <= choice < size * size
    requires size > 0
    ensures BuildTable(values, size, includeBonus, order, choice).Ok?
    ensures var t := BuildTable(values, size, includeBonus, order, choice).value;
      multiset(CardCells(t))[Bonus] == if includeBonus then 1 else 0
    ensures var t := BuildTable(values, size, includeBonus, order, choice).value;
      forall i, j :: 0 <= i < size && 0 <= j < size ==>
        (t[i][j] == Some(Bonus) <==> includeBonus && i * size + j == choice)
  {
    var t := BuildTable(values, size, includeBonus, order, choice).value;
    assert multiset(CardCells(t))[Bonus] == if includeBonus then 1 else 0 by {
      TableShowsFields(values, size, includeBonus, order, choice);
      CardFieldsCounts(values, size, includeBonus, order, choice);
    }
    forall i, j | 0 <= i < size && 0 <= j < size
      ensures t[i][j] == Some(Bonus) <==> includeBonus && i * size + j == choice
    {
      assert t[i][j] == Some(CardField(includeBonus, order, choice, RowMajor(i, j, size)));
    }
  }


  /** How many cells of each kind a card of non-negative size shows. */
  lemma TableCounts(values: set<string>, size: int, includeBonus: bool, order: seq<string>, choice: int)
    requires IsOrdering(order, values)
    requires includeBonus && size != 0 ==> 0 <= choice < size * size
    requires !(includeBonus && size == 0)
    requires size >= 0
    ensures var cells := CardCells(BuildTable(values, size, includeBonus, order, choice).value);
      var m := Min(size * size, |values|);
      && |cells| == size * size
      && multiset(cells)[Bonus] == (if includeBonus then 1 else 0)
      && |NormalWords(cells)| == m - (if includeBonus && choice < m then 1 else 0)
      && multiset(cells)[Empty] == size * size - m - (if includeBonus && m <= choice then 1 else 0)
  {
    TableShowsFields(values, size, includeBonus, order, choice);
    CardFieldsCounts(values, size, includeBonus, order, choice);
  }

  /** With at least `size * size` words and no bonus field, every cell holds
      a word; with at most that many, every word of the set is on the card.
      Without a bonus field the supplied position plays no part. */
  lemma TableCoverage(values: set<string>, size: int, order: seq<string>, choice: int)
    requires IsOrdering(order, values)
    requires size >= 0
    ensures BuildTable(values, size, false, order, choice).Ok?
    ensures |values| >= size * size ==>
      forall c :: c in CardCells(BuildTable(values, size, false, order, choice).value) ==> c.Normal?
    ensures |values| <= size * size ==>
      forall w :: w in values ==> w in NormalWords(CardCells(BuildTable(values, size, false, order, choice).value))
  {
    TableShowsFields(values, size, false, order, choice);
    CardFieldsLayout(values, size, false, order, choice);
    LayoutCoverage(CardFields(values, size, false, order, choice).value, order, Min(size * size, |values|));
  }

  /** Without a bonus field, a card with exactly as many cells as words
      shows the whole shuffle, in its order, one word per cell. */
  lemma ExactCardShowsShuffle(values: set<string>, size: int, order: seq<string>, choice: int)
    requires IsOrdering(order, values)
    requires size >= 0 && |values| == size * size
    ensures BuildTable(values, size, false, order, choice).Ok?
    ensures var cells := CardCells(BuildTable(values, size, false, order, choice).value);
      && (forall c :: c in cells ==> c.Normal?)
      && NormalWords(cells) == order
  {
    TableShowsFields(values, size, false, order, choice);
    CardFieldsWords(values, size, false, order, choice);
    TableCoverage(values, size, order, choice);
    assert order[..|values|] == order;
  }

  /** Without a bonus field, a layout whose `m` drawn words fill it has only
      normal fields, and one that draws all of `order` shows all of it. */
  lemma LayoutCoverage(fields: seq<Field>, order: seq<string>, m: int)
    requires IsCardLayout(fields, order, m, -1)
    ensures m == |fields| ==> forall c :: c in fields ==> c.Normal?
    ensures m == |order| ==> forall w :: w in order ==> w in NormalWords(fields)
  {
    LayoutWords(fields, order, m, -1);
    assert m == |order| ==> order[..m] == order;
  }
}
