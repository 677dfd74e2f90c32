/** Three concrete cards, stated for every shuffle and every bonus position
    the random source could supply. */
module Scenarios {
  import opened Wrappers
  import opened Randomness
  import opened Iterators
  import opened Bingo
  import opened BingoProperties

  /** Four words on a 2 by 2 card without a bonus field: two rows of two,
      every cell a word, and the words are the four of the list in some order.
      Without a bonus field the supplied position plays no part. */
  lemma FourWordsFillTwoByTwo(order: seq<string>, choice: int)
    requires IsOrdering(order, {"alpha", "beta", "gamma", "delta"})
    ensures BuildTable({"alpha", "beta", "gamma", "delta"}, 2, false, order, choice).Ok?
    ensures var t := BuildTable({"alpha", "beta", "gamma", "delta"}, 2, false, order, choice).value;
      && |t| == 2 && |t[0]| == 2 && |t[1]| == 2
      && (forall c :: c in CardCells(t) ==> c.Normal?)
      && IsOrdering(NormalWords(CardCells(t)), {"alpha", "beta", "gamma", "delta"})
  {
    FourWordsAreFour();
    ExactCardShowsShuffle({"alpha", "beta", "gamma", "delta"}, 2, order, choice);
  }

  lemma FourWordsAreFour()
    ensures |{"alpha", "beta", "gamma", "delta"}| == 4
  {
    assert "alpha"[0] == 'a' && "beta"[0] == 'b' && "gamma"[0] == 'g' && "delta"[0] == 'd';
    var s := {"alpha"};
    assert "beta" !in s;
    var s' := s + {"beta"};
    assert "gamma" !in s';
    var s'' := s' + {"gamma"};
    assert "delta" !in s'';
    assert s'' + {"delta"} == {"alpha", "beta", "gamma", "delta"};
  }

  /** One word on a 3 by 3 card with a bonus field: nine cells, one of them
      the bonus field; the word survives unless the bonus landed on it. */
  lemma OneWordWithBonus(order: seq<string>, choice: int)
    requires IsOrdering(order, {"only"})
    requires 0 <= choice < 9
    ensures BuildTable({"only"}, 3, true, order, choice).Ok?
    ensures var cells := CardCells(BuildTable({"only"}, 3, true, order, choice).value);
      && |cells| == 9
      && multiset(cells)[Bonus] == 1
      && NormalWords(cells) == (if choice == 0 then [] else ["only"])
      && multiset(cells)[Empty] == (if choice == 0 then 8 else 7)
  {
    var values := {"only"};
    assert order == ["only"] by {
      assert |order| == 1 && order[0] in order;
    }
    assert Min(3 * 3, |values|) == 1;
    TableShowsFields(values, 3, true, order, choice);
    CardFieldsCounts(values, 3, true, order, choice);
    CardFieldsWords(values, 3, true, order, choice);
  }

  /** An empty word list on a 5 by 5 card: twenty-five empty cells, whatever
      position the random source supplies. */
  lemma EmptyListGivesEmptyCard(order: seq<string>, choice: int)
    requires IsOrdering(order, {})
    ensures BuildTable({}, 5, false, order, choice).Ok?
    ensures var t := BuildTable({}, 5, false, order, choice).value;
      && |t| == 5
      && forall i, j :: 0 <= i < 5 && 0 <= j < 5 ==> j < |t[i]| && t[i][j] == Some(Empty)
  {
    var t := BuildTable({}, 5, false, order, choice).value;
    assert order == [];
    forall i, j | 0 <= i < 5 && 0 <= j < 5
      ensures j < |t[i]| && t[i][j] == Some(Empty)
    {
      assert t[i][j] == Some(CardField(false, order, choice, RowMajor(i, j, 5)));
    }
  }
}
