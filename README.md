# Configuration parsers and loss aggregator of hmeg/model/utils.py

This project models the plain-logic core of `hmeg/model/utils.py`, the
utility module of a scene-graph-to-image GAN trainer, and proves properties
of the model in Dafny.

- **Option parsers** (module `OptionParsers`, file `option_parsers.dfy`).
  `str_tuple` splits a configuration string on every comma. `int_tuple`
  splits it the same way and parses each piece with Python's `int()` in
  base 10. It fails on the first piece that is not an integer literal.
  `bool_flag` accepts exactly `"1"` and `"0"` and raises `ValueError`
  otherwise. A raised `ValueError` is the `Err` case of a `Result`; the
  error value carries the refused piece or `bool_flag`'s own message.
  `int()` is modelled over the ASCII grammar: surrounding whitespace
  (space, tab, newline, carriage return, vertical tab, form feed), then an
  optional `+` or `-`, then decimal digits where one underscore may stand
  between two digits. Leading zeros are allowed. As in CPython's default
  configuration, a literal of more than 4300 digits (underscores not
  counted) is refused, and `str()` renders only integers up to that many
  digits (`MaxStrDigits`).
- **Loss aggregator** (module `LossManagement`, file `loss_manager.dfy`).
  `LossManager` is a class with two mutable fields:
  - `total` is `total_loss`. It is `None` until the first `add_loss`,
    which assigns the weighted term; each later call adds its term.
  - `log` is `all_losses`, a map from name to the weighted term of the
    last call that used that name.
  - A ghost field `history` records the calls made so far. The invariant
    `Valid()` ties both fields to functions of that history: `TotalOf`
    (no total, or the sum of all weighted terms) and `LogOf` (the last
    write per name).
  A tensor scalar is an exact `real`, and `.data.cpu().item()` copies the
  value.
- `wrappers.dfy` holds the `Option` and `Result` datatypes.

## Model

| member | source | states |
|---|---|---|
| `OptionParsers.StrTuple` | hmeg/model/utils.py:17-18 | the split has one more piece than the string has commas (the empty string gives one empty piece), no piece contains a comma, and joining the pieces with "," gives back the string exactly |
| `OptionParsers.StrTupleJoin` | hmeg/model/utils.py:17-18 | splitting inverts joining: a non-empty list of comma-free pieces joined with "," splits back into exactly those pieces |
| `OptionParsers.ParseIntDecimal` | hmeg/model/utils.py:9-10 | int() inverts str(): every integer that str() renders (at most 4300 digits) parses back from its decimal rendering |
| `OptionParsers.ParseIntDigitLimit` | hmeg/model/utils.py:9-10 | int() converts a well-formed digit group exactly when it has at most 4300 digits, so int("1" * 4301) raises |
| `OptionParsers.ParseInt` | hmeg/model/utils.py:10 | models `int(piece)` in base 10: ASCII whitespace stripped, an optional sign, then a digit group (single underscores between digits) of at most 4300 digits; anything else is the ValueError. Its contract: a piece int() accepts holds a decimal digit, so the empty piece fails |
| `OptionParsers.ParseIntSkipsSpace` | hmeg/model/utils.py:9-10 | for all runs `w1`, `w2` of ASCII whitespace and every non-empty `t` without whitespace at either end, `int(w1 + t + w2)` is what the bare literal `t` parses to |
| `OptionParsers.ParseIntSign` | hmeg/model/utils.py:9-10 | for every piece `d` that starts with a digit and does not end in whitespace, `int("+" + d)` equals `int(d)` and `int("-" + d)` is its negation, and both fail exactly when `int(d)` fails |
| `OptionParsers.ParseIntUnderscore` | hmeg/model/utils.py:9-10 | for every two digit groups `a`, `b`, `int(a + "_" + b)` equals `int(a + b)` |
| `OptionParsers.ParseIntLeadingZero` | hmeg/model/utils.py:9-10 | for every digit group `d`, `int("0" + d)` equals `int(d)` while `d` has fewer than 4300 digits, and fails once the extra zero passes the limit |
| `OptionParsers.ParseIntAccepts` | hmeg/model/utils.py:9-10 | examples only: `" -16\n"` is -16, `"+3_2"` is 32, `"007"` is 7 |
| `OptionParsers.ParseIntRefuses` | hmeg/model/utils.py:9-10 | int() refuses "- 5", "3__2", "3_" and "" |
| `OptionParsers.ParseAll` | hmeg/model/utils.py:10 | the generator over the pieces succeeds exactly when every piece parses; the result then has one value per piece, in order. Otherwise the error names the first piece that does not parse, and every piece before it parses |
| `OptionParsers.IntTuple` | hmeg/model/utils.py:9-10 | int_tuple succeeds exactly when every piece of the comma split is an integer literal. Element i is then the value of piece i, and the length is the comma count plus one. On failure the error names the first refused piece of the split: every piece before it parses |
| `OptionParsers.IntTupleRoundTrip` | hmeg/model/utils.py:9-10 | for every non-empty integer tuple t whose integers str() renders, int_tuple of ",".join(str(x) for x in t) is t |
| `OptionParsers.IntTupleRejectsEmptyPieces` | hmeg/model/utils.py:9-10 | int_tuple("") and int_tuple("1,,2") raise, each on the empty piece |
| `OptionParsers.BoolFlag` | hmeg/model/utils.py:21-27 | the flag is true exactly for "1" and false exactly for "0"; every other string raises ValueError with the message 'Invalid value "<s>" for bool flag (should be 0 or 1)' |
| `LossManagement.WeightedSumAppend` | hmeg/model/utils.py:65-70 | each add_loss adds its term loss * weight to the running sum |
| `LossManagement.LastIndex` | hmeg/model/utils.py:72 | the chosen call is the last one that logged under the name: it used the name, and no later call did |
| `LossManagement.LogOfAppend` | hmeg/model/utils.py:72 | a call writes only its own name's entry, with its weighted term, and leaves every other entry unchanged |
| `LossManagement.RepeatedName` | hmeg/model/utils.py:65-72 | when two calls use the same name, the log keeps the later term (last write wins), while the total counts both terms |
| `LossManagement.LossManager.constructor` | hmeg/model/utils.py:61-63 | a fresh manager has no total and an empty log |
| `LossManagement.LossManager.AddLoss` | hmeg/model/utils.py:65-72 | the first call assigns loss * weight to the total and later calls add it, with weight defaulting to 1.0. The log entry for the name becomes loss * weight, and no other entry changes. The invariant holds afterwards: after any sequence of calls the total is present and is the sum of all weighted terms, and the log maps each name to its last term |
| `LossManagement.LossManager.Items` | hmeg/model/utils.py:74-75 | items() holds exactly the (name, value) entries of the log |

## Left out

- `float_tuple` (hmeg/model/utils.py:13-14): it parses floating point, which this model does not cover.
- `lineno`, `get_gpu_memory` and `timeit` (hmeg/model/utils.py:30-57): they inspect stack frames, run `nvidia-smi` in a subprocess, synchronise CUDA, read the wall clock and print.
- hmeg/model/discriminators.py: PyTorch network modules built on the backbone builder, pooling and crop primitives, none of which is part of this model.
- hmeg/model/gan.py: the training step. It orchestrates mmengine optimizer wrappers, gradient contexts and device transfer, and loss parsing is inherited from a base class that is not part of this model.
- ParseInt: the digit limit is the constant 4300, CPython's default. The model does not follow changes to it made with `sys.set_int_max_str_digits` or `PYTHONINTMAXSTRDIGITS`, nor a limit of 0, which means no limit.
- ParseInt: the model refuses pieces with non-ASCII decimal digits or non-ASCII whitespace, which Python's `int()` accepts after normalising them.
- ParseAll: the exact text of `int()`'s error message is not modelled. For a malformed piece it embeds `repr()` of the piece; for one over the digit limit it is a separate message. The error carries the refused piece instead.
- LossManagement.LossManager.AddLoss: tensors are exact reals. Floating-point rounding and the order of float additions are not modelled, and neither are the autograd graph, device copies, or the aliasing of the first term's tensor with `total_loss`.
- LossManagement.LossManager.Items: `items()` returns a live view of the dictionary; the model returns the set of its entries at the time of the call. That set has no order: the dictionary yields entries in first-insertion order, and a name that is logged again keeps its original position.
