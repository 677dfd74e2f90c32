/** The card builder: a random draw of words becomes a padded list of fields,
    optionally one field is replaced by the bonus field, and the fields are
    grouped into the rows of a square card. */
module Bingo {
  import opened Wrappers
  import opened Randomness
  import opened Iterators

  /** A card field: `Field('normal', word)`, `FIELD_EMPTY` or `FIELD_BONUS`. */
  datatype Field = Normal(word: string) | Empty | Bonus

  /** One row of a card as `izip_longest` yields it: a tuple whose padding,
      had there been any, would be `None`. */
  type Row = seq<Option<Field>>

  type Table = seq<Row>

  /** `collect_random_sublist(values, n)`: asks `sample` for `min(n, |values|)`
      elements, which it can always supply unless `n` is negative. `order` is
      the random shuffle `sample` draws from. */
  function CollectRandomSublist<T>(values: set<T>, n: int, order: seq<T>): (r: Result<seq<T>, ValueError>)
    requires IsOrdering(order, values)
    ensures r.Ok? <==> n >= 0
    ensures r.Ok? ==> |r.value| == Min(n, |values|)
    ensures r.Ok? ==> Distinct(r.value) && forall x :: x in r.value ==> x in values
    ensures r.Ok? ==> r.value == order[..|r.value|]
  {
    var sampleLength := Min(n, |values|);
    Sample(values, sampleLength, order)
  }

  /** The generator `Field('normal', value) for value in values`. */
  function NormalFields(values: seq<string>): (fields: seq<Field>)
    ensures |fields| == |values|
    ensures forall i :: 0 <= i < |values| ==> fields[i] == Normal(values[i])
  {
    seq(|values|, i requires 0 <= i < |values| => Normal(values[i]))
  }

  /** `to_fields(values, n)`: the values as normal fields, then empty fields
      forever, cut to the first `n`. */
  function ToFields(values: seq<string>, n: nat): (fields: seq<Field>)
    ensures |fields| == n
    ensures forall i :: 0 <= i < Min(n, |values|) ==> fields[i] == Normal(values[i])
    ensures forall i :: |values| <= i < n ==> fields[i] == Empty
  {
    Take(ChainRepeat(NormalFields(values), Empty), n)
  }

  /** What sits at position `k` of a card's field list: the bonus field at
      the chosen position when one was asked for, otherwise the `k`-th word
      of the shuffle while the draw lasts, otherwise an empty field. The
      shuffle holds every word once, so "while the draw lasts" is
      `k < |values|`. */
  function CardField(includeBonus: bool, order: seq<string>, choice: int, k: int): (f: Field)
  {
    if includeBonus && k == choice then Bonus
    else if 0 <= k < |order| then Normal(order[k])
    else Empty
  }

  /** The flat field list `build_table` computes before grouping it into rows:
      `size ** 2` fields from the draw, and, when asked for, the field at the
      random position replaced by the bonus field. `randrange(0, 0)` raises
      when a bonus field is asked for on a card of size 0. */
  function CardFields(values: set<string>, size: int, includeBonus: bool, order: seq<string>, choice: int)
    : (r: Result<seq<Field>, ValueError>)
    requires IsOrdering(order, values)
    requires includeBonus && size != 0 ==> 0 <= choice < size * size
    ensures r.Err? <==> includeBonus && size == 0
    ensures r.Err? ==> r.error == EmptyRange
    ensures r.Ok? ==> |r.value| == size * size
    ensures r.Ok? ==> forall k :: 0 <= k < |r.value| ==>
      r.value[k] == CardField(includeBonus, order, choice, k)
  {
    SquareFacts(size);
    var fieldTotal := size * size;
    var randomValues := CollectRandomSublist(values, fieldTotal, order).value;
    var fields := ToFields(randomValues, fieldTotal);
    if includeBonus then
      var position :- RandRange(0, fieldTotal, choice);
      Ok(fields[position := Bonus])
    else
      Ok(fields)
  }

  lemma SquareFacts(size: int)
    ensures size * size >= 0
    ensures size * size == 0 <==> size == 0
  {
    if size < 0 {
      assert size * size == (-size) * (-size);
    }
  }

  /** `build_table(values, size, include_bonus_field)`: the card fields
      grouped row-major into `size` rows of `size` fields. A negative `size`
      still computes `size ** 2` fields, but `[iter(fields)] * size` is then
      empty and so is the table. */
  function BuildTable(values: set<string>, size: int, includeBonus: bool, order: seq<string>, choice: int)
    : (r: Result<Table, ValueError>)
    requires IsOrdering(order, values)
    requires includeBonus && size != 0 ==> 0 <= choice < size * size
    ensures r.Err? <==> includeBonus && size == 0
    ensures r.Ok? ==> |r.value| == if size > 0 then size else 0
    ensures r.Ok? ==> forall i :: 0 <= i < |r.value| ==> |r.value[i]| == size
    ensures r.Ok? ==> forall i, j :: 0 <= i < |r.value| && 0 <= j < |r.value[i]| ==>
      r.value[i][j] == Some(CardField(includeBonus, order, choice, RowMajor(i, j, size)))
  {
    var fields :- CardFields(values, size, includeBonus, order, choice);
    var rows := GroupLongest(fields, size);
    if size > 0 then
      GroupSquare(fields, size);
      Ok(rows)
    else
      Ok(rows)
  }

  /** The fields a table shows, row after row; a `None` padding cell shows
      nothing. */
  function CardCells(t: Table): (cells: seq<Field>)
  {
    Present(Flatten(t))
  }

  /** The fields of the present cells, in order. */
  function Present(cells: seq<Option<Field>>): (fields: seq<Field>)
  {
    if cells == [] then []
    else (if cells[0].Some? then [cells[0].value] else []) + Present(cells[1..])
  }

  /** The words of the normal fields, in order. */
  function NormalWords(fields: seq<Field>): (words: seq<string>)
  {
    if fields == [] then []
    else (if fields[0].Normal? then [fields[0].word] else []) + NormalWords(fields[1..])
  }
}
