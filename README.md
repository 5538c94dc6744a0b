# Telegram chat export preprocessing, modelled in Dafny

The repository is meant to turn a Telegram chat export (`result.json`) into
training data. Its `main.py` defines a short chain of list transformations
over one chat's messages:

1. sort the messages by `int(date_unixtime)` with Python's stable `sorted`;
2. keep only the text messages: no `media_type`, no `photo`, and at least
   one text entity;
3. list, in ascending order, the positions of the messages whose `from_id`
   is the target speaker's tag `"user" + str(chat.id)`;
4. flatten a message's text entities into one string with `" ".join`. This
   function is defined but never called: its only call (`main.py:65-67`) is
   commented out.

The driver `main` runs the first three steps. It overwrites `chat.messages`
with the sorted messages, then with the text messages, and then locates the
target speaker.

The model is split by component:

- `wrappers.dfy` (`Wrappers`): the `Option` type for nullable JSON fields.
- `seqs.dfy` (`Seqs`): a generic order-preserving filter and the ascending
  positions of the selected elements. The two selecting comprehensions of
  `main.py` (lines 19-25 and 30-34) are instances of these; the one at line
  48 is `Textize.EntityTexts`.
- `decimal.dfy` (`Decimal`): `int(s)` on digit strings and `str(i)` on
  integers, with their round trips.
- `messages.dfy` (`Messages`): the `Message` and `TextEntity` records,
  reduced to the fields that are read plus the message `id`, and the
  target-speaker tag. Nothing reads a message's `id`; it is kept so that
  otherwise identical messages stay distinct values.
- `chronology.dfy` (`Chronology`): the stable sort by send time. It is a
  permutation, chronological and stable. It is also the only sequence with
  those three properties, so it agrees with `sorted` whatever algorithm
  `sorted` uses.
- `preprocessing.dfy` (`Preprocessing`): the text filter and the anchor
  locator.
- `textize.dfy` (`Textize`): the `" ".join` of entity texts. Its partner is
  `split(" ")`, which recovers the parts when no part contains a space.
- `driver.dfy` (`Driver`): a `Chat` class whose `Preprocess` method updates the
  `messages` field in the order `main` does.

Three facts about the code shape the model:

- `main` sorts first and filters second (`main.py:59-60`).
  `Preprocessing.SortThenFilterIsFilterThenSort` proves that filtering first
  and sorting second would give the same messages.
- A message's entity texts are joined with a single space (`main.py:48`),
  not with a line separator.
- No context windows or question/answer pairs are built. The only code
  towards them, `recurse_messsages` (`main.py:37-44`), is unfinished and
  never called. It is not modelled (see "Left out").

## Model

| member | source | states |
|---|---|---|
| `Decimal.ParseDecimal` | main.py:15 | `int` of a digit string is a natural number; a string of two or more digits that does not start with '0' denotes at least 10 |
| `Decimal.NatToString` | main.py:33 | `str(n)` of a natural number is a non-empty digit string without a superfluous leading zero |
| `Decimal.IntToString` | main.py:33 | `str(i)` of `i >= 0` is the canonical digit string whose value is `i`; of `i < 0` it is '-' followed by the canonical digit string whose value is `-i`; it starts with a digit exactly when `i >= 0` |
| `Decimal.ParsePrinted` | main.py:15 | parsing the decimal form of `n` gives back `n` |
| `Decimal.PrintParsed` | main.py:15 | printing the value of a digit string with no superfluous leading zero gives back the string |
| `Decimal.IntToStringInjective` | main.py:33 | two integers with the same `str` form are equal |
| `Messages.TargetTag` | main.py:33 | the target tag is `"user"` followed by a non-empty rest |
| `Messages.TargetTagInjective` | main.py:33 | two different chat ids never give the same target tag |
| `Seqs.Filter` | main.py:19-25 | a comprehension's kept elements are elements of the input that satisfy the condition, and every input element that satisfies it is kept |
| `Seqs.Positions` | main.py:30-34 | the enumerate comprehension gives ascending in-range indices, and an index is listed exactly when its element satisfies the condition |
| `Seqs.FilterAtPositions` | main.py:19-25 | the k-th kept element is the input element at the k-th selected index, so the filter is an order-preserving sub-sequence |
| `Seqs.FilterMultiplicity` | main.py:19-25 | each element is kept as often as it occurs if it satisfies the condition, and never otherwise |
| `Seqs.FilterOfSatisfying` | main.py:19-25 | filtering elements that all satisfy the condition returns them unchanged |
| `Seqs.FilterIdempotent` | main.py:19-25 | filtering twice is filtering once |
| `Chronology.GetSortedMessages` | main.py:14-15 | the sorted messages have the same length and multiset as the input, and their send times never decrease |
| `Chronology.SortIsStable` | main.py:15 | for every second `t`, the messages sent at `t` appear in the same relative order as in the input |
| `Chronology.StableSortIsUnique` | main.py:15 | any time-ordered, stable permutation of the input equals the modelled sort |
| `Chronology.ChronologicalAndStableDetermine` | main.py:15 | two time-ordered sequences with equal multisets and equal per-second orders are equal |
| `Chronology.FilterCommutesWithSort` | main.py:59-60 | for any condition, filtering sorted messages gives the sorted filtered messages |
| `Chronology.SortOfSimultaneous` | main.py:15 | messages that all carry the same send time are left in their order |
| `Chronology.SortOfInOrder` | main.py:15 | messages already in time order are left as they are |
| `Chronology.SortIdempotent` | main.py:15 | sorting twice is sorting once |
| `Preprocessing.GetTextMessages` | main.py:18-26 | every kept message is an input message with no media, no photo and a non-empty entity list, and every such input message is kept |
| `Preprocessing.TextMessagesSelectExactly` | main.py:19-25 | the text messages are the input messages at the ascending positions of exactly the text messages |
| `Preprocessing.TextMessagesMultiplicity` | main.py:19-25 | each text message is kept as often as it occurs; any other message never is |
| `Preprocessing.TextMessagesIdempotent` | main.py:18-26 | filtering the text messages again changes nothing |
| `Preprocessing.TextMessagesKeepOrder` | main.py:59-60 | filtering messages in time order leaves them in time order |
| `Preprocessing.SortThenFilterIsFilterThenSort` | main.py:59-60 | sorting then filtering gives the same sequence as filtering then sorting |
| `Preprocessing.GetIndexOfModelChat` | main.py:29-34 | the anchors are strictly increasing and below the message count; index `i` is an anchor exactly when message `i` has `from_id == "user" + str(chat.id)`; a message without `from_id` is never an anchor |
| `Preprocessing.AnchorsSelectModelMessages` | main.py:29-34 | the k-th anchor points at the k-th message of the target speaker |
| `Textize.JoinWithSpace` | main.py:48 | a join of n >= 1 parts has length equal to the sum of the part lengths plus n - 1, and begins with the first part; joining no parts gives "" |
| `Textize.SplitJoin` | main.py:48 | when no part contains a space, splitting the join on " " gives back exactly the parts, so the spaces stand between consecutive parts and only there |
| `Textize.JoinSnoc` | main.py:48 | appending a part to a non-empty list appends one space and that part to the join |
| `Textize.GetTextizedTextEntities` | main.py:47-48 | no entities give ""; one entity gives its own text; n >= 1 entities give a string whose length is the sum of the text lengths plus n - 1; n >= 2 entities give the join of the first n - 1 texts, one space and the last text |
| `Driver.Preprocessed` | main.py:59-60 | the messages left in the chat are in time order, all text messages, each kept as often as it occurs in the input when it is a text message, and in input order within each second |
| `Driver.Chat.constructor` | main.py:54 | a loaded chat holds the given id and messages |
| `Driver.Chat.Preprocess` | main.py:59-62 | `messages` becomes the text messages of the sorted messages; the returned anchors point exactly at the target speaker's messages among them |

## Left out

- `recurse_messsages` (`main.py:37-44`) is not modelled. It is unfinished and never called. It reads the undefined name `MAX_MESSAGES`, and its loop guard `message_idx <= 0` cannot express a backward scan. Its loop body discards the value it computes, and it returns nothing. So no context window and no question/answer pair is built anywhere in the code, and none is in this model.
- The constants `TTL_REPLY`, `TTL_SECONDS` and `MAX_CONTEXT_MESSAGE` (`main.py:8-11`) and the `duckdb` import are not modelled, because nothing uses them.
- I/O is not modelled: opening and reading the file, `json.load` and the `print` calls of `main` (`main.py:52-58`, `main.py:61-64`), and `asyncio.run`. `Chat.Preprocess` starts from an already loaded chat. The `async` functions become plain functions, since no concurrency is involved.
- Schema validation (`Chat.model_validate`, `main.py:54`) is library behaviour and is not modelled. `data_models.py` contributes only the fields that are read, `date_unixtime`, `from_id`, `media_type`, `photo`, `text_entities[].text` and the chat's `id` (`main.py:33`) and `messages`, plus the message `id`. Nothing reads the message `id`; it is kept so that otherwise identical messages stay distinct values. All the other fields are omitted, including the entity `type` and the float fields.
- `Chronology.GetSortedMessages`: requires every `date_unixtime` to be a non-empty string of ASCII digits. Any other string is outside the model. Python's `int` raises `ValueError` on some of those strings. It accepts others, such as surrounding whitespace, a sign or underscores, and non-ASCII digits.
- `Driver.Chat.Preprocess` and `Driver.Preprocessed`: have the same requirement on `date_unixtime`, because they sort first.
- `Chronology.GetSortedMessages` is an insertion sort, while CPython's `sorted` is Timsort. `Chronology.StableSortIsUnique` proves that every stable sort gives the same result, so only the algorithm differs, not the output.
