# Bingo card generator: a Dafny model of the card builder

The program reads a word list and prints randomized "bullshit bingo" cards.
This project models the part that builds the cards, from `Bingo.py`:

- `load_words` strips every line of the word file and keeps the non-blank ones, in file order.
- The `__main__` block turns those words into a `frozenset`.
- `collect_random_sublist` asks `random.sample` for `min(n, |values|)` distinct words.
- `to_fields` / `take` turn the draw into `Field('normal', word)` values. They pad with `FIELD_EMPTY` to exactly `n` fields.
- `build_table` does three things:
  - it builds `size ** 2` such fields;
  - with the bonus flag, it overwrites the field at `randrange(0, size ** 2)` with `FIELD_BONUS`;
  - it groups the fields row-major into rows of `size`, using `izip_longest(*[iter(fields)] * size)`.

Modules, one per concern:

- `Wrappers` (`wrappers.dfy`): `Option` (Python's `None`), `Result` (an exception as a value), `Min`.
- `Randomness` (`randomness.dfy`): `randrange` and `sample`, with the random choice as an input.
  - `randrange(start, stop)` takes a caller-supplied `choice` in `[start, stop)`.
  - `sample(population, k)` takes the first `k` elements of a caller-supplied ordering of the whole population (`IsOrdering`).
  - `SampleComplete` proves this representation loses nothing. Every sequence of `k` distinct members, which is every outcome `sample` can produce, is the draw for some ordering.
  - Both calls raise `ValueError` in the same cases as Python.
- `Iterators` (`iterators.dfy`): the `itertools` pieces the builder uses, and a row-by-row reading of a table.
  - `Iter` is a finite list or `chain(items, repeat(filler))`.
  - `Take` is `list(islice(...))`.
  - `GroupLongest` is the `izip_longest` grouper, padding with `None`.
  - `Flatten` reads a table's rows one after another, as the page template's nested loops do (Bingo.py:114-116). The builder itself does not flatten; the properties use `Flatten` to read a card.
- `Words` (`words.dfy`): `unicode.strip()` over Python 2.7's Unicode whitespace, the `load_words` filter, and the word set.
- `Bingo` (`bingo.dfy`): `Field` (`Normal(word) | Empty | Bonus`), `CollectRandomSublist`, `ToFields`, `CardFields` (lines 181-187 of `build_table`), and `BuildTable`.
- `BingoProperties` (`bingo_properties.dfy`): what a built card promises.
- `Scenarios` (`scenarios.dfy`): three concrete cards, stated for every shuffle and bonus position.

The code does not validate `size`, and the model follows it:

- A negative `size` is not rejected. `size ** 2` is positive, so the fields are still drawn. But `[iter(fields)] * size` is an empty list, and `izip_longest()` with no iterators yields no rows. `BuildTable` returns an empty table in that case.
- `size == 0` without the bonus flag gives an empty table. With the flag it raises, because `randrange(0, 0)` has an empty range (`Err(EmptyRange)`).
- The bonus field overwrites whatever is at the chosen position, a word or an empty field. The model keeps this.

## Model

| member | source | states |
|---|---|---|
| Randomness.RandRange | Bingo.py:187 | `randrange(0, total)` fails with the empty-range error exactly when `total <= 0`; otherwise the position lies in `[0, total)` |
| Randomness.Sample | Bingo.py:199-200 | `sample(values, k)` succeeds exactly when `0 <= k <= len(values)`; it then returns `k` pairwise distinct members of `values`, the first `k` of the shuffle |
| Randomness.SampleComplete | Bingo.py:200 | every outcome `sample` may produce (any `k` distinct members, in any order) is produced by the model for some shuffle, so modelling the random source as a shuffle loses nothing |
| Bingo.CollectRandomSublist | Bingo.py:192-200 | never fails for `n >= 0` (the `min` keeps the request within the population) and fails exactly for `n < 0`; returns `min(n, len(values))` pairwise distinct members of `values` |
| Iterators.Take | Bingo.py:210-212 | `take(it, n)` returns the first `n` items of an endless iterable, or `min(n, len)` of a finite one, each equal to the iterable's item at that index |
| BingoProperties.NormalFieldsReadBack | Bingo.py:206 | the generator's `Normal` fields give back exactly the values, in order, when their words are read off, so it neither drops, adds nor reorders values |
| Bingo.ToFields | Bingo.py:202-208 | exactly `n` fields, whether there are fewer or more values; the first `min(n, len(values))` are `Normal` with the values in order, every later one is `Empty` |
| BingoProperties.ToFieldsRecoversValues | Bingo.py:202-208 | reading the words back off `to_fields` gives `values[..min(n, len(values))]`, and `to_fields` never makes a bonus field |
| Iterators.GroupLongest | Bingo.py:190 | `izip_longest(*[iter(xs)] * k)` yields rows of exactly `k` cells which, read in order, are `xs` followed by fewer than `k` `None`s; no rows at all when `k <= 0` |
| Iterators.GroupLongestNoPadding | Bingo.py:190 | when `len(xs) == k * m`, the grouper yields exactly `m` rows and pads no `None` |
| Iterators.GroupSquare | Bingo.py:190 | `size * size` items grouped `size` at a time give `size` rows, cell `(i, j)` holding item `i * size + j`, with no `None` |
| Bingo.CardFields | Bingo.py:181-187 | fails (empty `randrange`) exactly when a bonus is asked for on a size-0 card; otherwise `size ** 2` fields, position `k` holding the bonus if it is the chosen one, else the `k`-th drawn word while words last, else `Empty` |
| Bingo.BuildTable | Bingo.py:174-190 | same failure case; otherwise `size` rows (none for `size <= 0`) of `size` cells, cell `(i, j)` being `Some` of the field at row-major position `i * size + j` |
| BingoProperties.TableShowsFields | Bingo.py:181-190 | for `size >= 0` the rows, read in order, are exactly the field list with no `None` padding, dropping and reordering nothing; for `size < 0` the table is empty |
| BingoProperties.CardFieldsWords | Bingo.py:181-187 | the words on the card, in order, are the draw, less the one word the bonus overwrote when it landed on a word |
| BingoProperties.CardFieldsCounts | Bingo.py:181-187 | the field list has one bonus field exactly when asked for; it has `min(size², len(W))` words, minus one when the bonus landed on a word; the rest are empty fields |
| BingoProperties.TableCounts | Bingo.py:174-190 | a table of size `s >= 0` shows `s²` cells: one bonus cell exactly when asked for, `min(s², len(W))` words less any the bonus overwrote, and empty cells for the rest |
| BingoProperties.TableBonus | Bingo.py:185-187 | on a card of positive size the bonus cell is exactly the cell at the chosen row-major position when asked for, and no cell otherwise |
| BingoProperties.TableWordsDistinct | Bingo.py:174-176 | the words on a card are pairwise distinct |
| BingoProperties.CellIsDrawn | Bingo.py:181-190 | a word in cell `(i, j)` is the shuffle's word at row-major position `i * size + j`, which lies within the draw: below both `size²` and `len(values)` |
| BingoProperties.TableWordsFromSet | Bingo.py:181-183 | every word on a card belongs to the word set |
| BingoProperties.TableCoverage | Bingo.py:178-183 | for `size >= 0`, without a bonus, for any supplied position: with at least `size²` words every cell holds a word; with at most `size²` words every word of the set is on the card |
| BingoProperties.ExactCardShowsShuffle | Bingo.py:174-190 | for `size >= 0`, without a bonus, a card with exactly `size²` words shows every cell as a word, and the words read row by row are the whole shuffle in order |
| Words.StripLeading | Bingo.py:170 | removes exactly the leading run of whitespace: the result is a suffix, all that was cut is whitespace, and it starts with a non-space |
| Words.StripTrailing | Bingo.py:170 | removes exactly the trailing run of whitespace: the result is a prefix, all that was cut is whitespace, and it ends with a non-space |
| Words.Strip | Bingo.py:170 | `line.strip()` is a slice of the line with only whitespace around it, empty exactly when the line is all whitespace, and otherwise starts and ends with a non-space |
| Words.StripIdempotent | Bingo.py:170 | stripping a stripped line changes nothing |
| Words.StripAll | Bingo.py:168-170 | one stripped line per line of the file, in order; a stripped line is empty exactly when its line is all whitespace, and is already stripped (stripping it again changes nothing) |
| Words.KeepNonEmpty | Bingo.py:171-172 | the `if line: yield line` filter never grows the list, keeps no empty string, and keeps every non-empty string: a string is kept exactly when it is non-empty and in the input |
| Words.KeepNonEmptySelects | Bingo.py:171-172 | the filter keeps exactly the non-empty strings, in their order: an increasing list of positions picks out what it keeps and misses no non-empty string |
| Words.LoadWords | Bingo.py:162-172 | `load_words` yields, in file order, the stripped form of every line whose stripped form is non-empty, and nothing else; no yielded word is empty |
| Words.WordSet | Bingo.py:224 | `frozenset(load_words(...))` holds a string exactly when it is the non-empty stripped form of some line |
| Scenarios.FourWordsFillTwoByTwo | Bingo.py:174-190 | for any shuffle and supplied position, four words on a 2 by 2 card without a bonus fill two rows of two with words, and those words are all four, in some order |
| Scenarios.OneWordWithBonus | Bingo.py:174-190 | one word on a 3 by 3 card with a bonus gives nine cells with one bonus cell; the word survives unless the bonus landed on it, with seven or eight empty cells |
| Scenarios.EmptyListGivesEmptyCard | Bingo.py:174-190 | for any supplied position, an empty word set on a 5 by 5 card without a bonus gives twenty-five empty cells and no error |

## Left out

- `parse_args` (Bingo.py:135-160): command-line parsing. The card size and the bonus flag are plain parameters here.
- File and stream I/O (Bingo.py:167, 232-233): `codecs.open`, UTF-8 decoding and splitting into lines, and encoding and writing the HTML. `load_words` is modelled over a sequence of already decoded lines.
- `render_html` and `TEMPLATE` (Bingo.py:69-133, 214-218): the output comes from the Jinja2 template engine and its autoescaping. That library's behaviour is not part of this model.
- The `__main__` loop over `num_cards` (Bingo.py:220-228): it calls `build_table` once per card. Only the `frozenset` step is modelled (`Words.WordSet`).
- The probability distribution of `random.sample` and `randrange`: the shuffle and the bonus position are inputs constrained by `requires`. Uniformity is not modelled.
- How `random.sample` picks elements internally: it is not part of this repository. The model takes the shuffle the draw comes from, and `Randomness.SampleComplete` shows that every draw is reachable.
- Iterators.Take: the count is an unbounded `nat`. Python 2.7's `islice` stores its stop argument in a `Py_ssize_t` and raises `ValueError` for a count below 0 or above `sys.maxint`. A negative count cannot occur, because the only count passed in is `size ** 2`. A count above `sys.maxint` is not modelled: `Take` always succeeds.
- Bingo.BuildTable: returns `Ok` when `size ** 2 > sys.maxint`, for example `size = 3037000500` on a 64-bit build. The program raises `ValueError` there from `islice` inside `take` (Bingo.py:208, 212), after `sample` has succeeded.
- Bingo.ToFields: returns `n` fields for every `n`, including `n > sys.maxint`, where `take` raises `ValueError` from `islice`.
- Bingo.CardFields: returns `Ok` when `size ** 2 > sys.maxint`, where line 183 raises `ValueError` from `islice`.
- Words.IsSpace: follows the whitespace table of Python 2.7's Unicode database (Unicode 5.2, which still counts U+180E). That table belongs to the interpreter, not to this repository.
- Integer width: Python 2 promotes `size ** 2` to an unbounded long, so nothing wraps around, and the model uses unbounded `int`. The one width limit on the way is `islice`'s `sys.maxint` bound, recorded on the `Iterators.Take` and `Bingo.BuildTable` lines.
