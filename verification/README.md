# Email counter and measurement averager, modelled in Dafny

Two small validation utilities over lists of dynamically typed values.

- `count_valid_emails` (correct_task2.py) counts the elements that pass `is_valid_email`. That check is a heuristic: the value is a non-empty string; it is still non-empty after `strip()`; it has exactly one `@`; the part before the `@` is non-empty; the part after it is non-empty and contains a `.`; and it contains no space character. The count is 0 for `None` and for a value that `iter()` refuses.
- `average_valid_measurements` (correct_task3.py) walks a list and skips:
  - `None` and bools;
  - values that `float()` cannot convert;
  - infinities and NaN.

  It returns the mean of the remaining values. It returns 0.0 when nothing is left, and also for `None` or a non-iterable argument.

The model is split into four modules:

- `PyValues` (values.dfy) holds the types:
  - `Value`, a tagged union with one constructor per kind the sources test for: `Null` (Python's `None`), `Bool`, `Int`, `Float`, `Str` and `Other`.
  - `Double`, a Python float: a finite real, `PosInf`, `NegInf` or `NaN`.
  - `Input`, the whole argument: `Absent`, `NonIterable` or `Items(seq<Value>)`. It stands in for the `is None` test and the `iter()` probe.
- `Counting` (counting.dfy) counts the elements of a sequence that pass a test, and relates that count to the set of their positions.
- `Emails` (emails.dfy) models correct_task2.py:
  - the string primitives `str.strip()`, `str.count()` and `str.split()`;
  - the predicate `IsValidEmail`, which follows the source's guards in order;
  - a second, independent definition `IsAddress`, written without count or split, proved equivalent to `IsValidEmail`;
  - `CountValidEmails`, the counting loop, as a method.
- `Measurements` (measurements.dfy) models correct_task3.py:
  - `FloatOf` is Python's `float()`. It is exact on ints, floats and bools, raises `OverflowError` on ints beyond the float range, and hands everything else to a parser passed in as a parameter.
  - `Accept` is the loop body's verdict on one element.
  - `Accepted`, `Sum` and `Mean` specify the loop.
  - `AverageValidMeasurements`, the loop itself, is a method. Its invariant ties `total` and `count` to the accepted prefix.

Python's `float()` on strings and other objects is the parameter `parse: Value -> Option<Double>`. Every result about measurements holds for every such parser.

Where the code and its docstrings could be read differently, the model follows the code:

- The docstrings at correct_task2.py:17 and :52 say "no spaces". The code at correct_task2.py:83 implements that by refusing only the space `' '`, so an inner tab or newline passes (`AcceptsInnerTab`). The `strip()` at line 59, however, removes every character for which Python's `str.isspace()` holds. The model uses that full set, `IsWhitespace`.
- The docstring at correct_task3.py:19-22 promises that invalid entries are skipped and that edge cases are handled safely. The code raises on one kind of input; see Findings.

## Model

| member | source | states |
|---|---|---|
| `Emails.TrimStartSpec` | correct_task2.py:59 | The leading half of `strip()` keeps a suffix of the input. It removes only whitespace. What it leaves is empty or starts with a non-whitespace character. |
| `Emails.TrimEndSpec` | correct_task2.py:59 | The trailing half of `strip()` keeps a prefix of the input. It removes only whitespace. What it leaves is empty or ends with a non-whitespace character. |
| `Emails.StripSpec` | correct_task2.py:59 | `strip()` returns a slice of the input with only whitespace on either side of it. The slice starts and ends with non-whitespace. It is empty exactly when the input is all whitespace. |
| `Emails.StripIdempotent` | correct_task2.py:59 | Stripping a stripped string changes nothing. |
| `Emails.Count` | correct_task2.py:66 | `count(c)` is at most the length, and it is zero exactly when `c` does not occur. |
| `Emails.CountAppend` | correct_task2.py:66 | `count(c)` of a concatenation is the sum of the counts of its parts. |
| `Emails.Split` | correct_task2.py:70 | `split(sep)` gives one more part than there are separators, and no part contains the separator. |
| `Emails.JoinSplit` | correct_task2.py:70 | Joining the parts of `split(sep)` with `sep` gives back the original string. |
| `Emails.SplitJoin` | correct_task2.py:70 | Splitting a join of separator-free parts gives back exactly those parts. |
| `Emails.SplitNoSeparator` | correct_task2.py:70 | A string without the separator splits into itself alone. |
| `Emails.SplitAtFirst` | correct_task2.py:70 | Splitting at the first separator: the text before it becomes the first part, and the text after it is split further. |
| `Emails.SplitAtOnly` | correct_task2.py:66-72 | Suppose a string has a single `@`, at position i. Then its count is 1, and the split gives exactly the text before and the text after position i, so `parts[0]` and `parts[1]` are the local and domain parts. |
| `Emails.IsValidEmail` | correct_task2.py:38-86 | A non-string value or an empty string is rejected. An accepted value, once stripped, has exactly one `@`. Split at that `@`, it has two non-empty parts, and the domain part contains a `.`. It contains no `' '`. |
| `Emails.ValidEmailIffAddress` | correct_task2.py:55-86 | A string is accepted if and only if its stripped form is an address in the independent sense: some `@` is the only one, text precedes it, a `.` follows it, and there is no space anywhere. |
| `Emails.StripFirstChangesNothing` | correct_task2.py:55-63 | For every string s, `is_valid_email(s.strip()) == is_valid_email(s)`. |
| `Emails.AcceptsSurroundingWhitespace` | correct_task2.py:59-63 | `"  a@b.com  "` is accepted. |
| `Emails.RejectsInnerSpace` | correct_task2.py:83-84 | `"a @b.com"` is rejected. |
| `Emails.RejectsTwoAts` | correct_task2.py:66-67 | `"a@@b.com"` is rejected. |
| `Emails.RejectsEmptyLocal` | correct_task2.py:75-76 | `"@b.com"` is rejected. |
| `Emails.RejectsDotlessDomain` | correct_task2.py:79-80 | `"a@bcom"` is rejected. |
| `Emails.AcceptsInnerTab` | correct_task2.py:83-84 | `"a\tb@c.com"` is accepted, because only the space character is refused. |
| `Counting.CountWhere` | correct_task2.py:30-36 | The number of passing elements is at most the length of the list. |
| `Counting.CountWhereIsCardinality` | correct_task2.py:30-36 | The count built one element at a time equals the number of positions whose element passes. |
| `Emails.CountValidEmails` | correct_task2.py:3-36 | The result is 0 for `None` and for a non-iterable value. For a list, it is the number of positions holding a valid email, which is at most the list's length. The loop invariant says that `count` is the number of valid elements seen so far. |
| `Emails.CountExample` | correct_task2.py:30-36 | `["a@b.com", "bad", "x@y.co"]` counts 2, and the empty list counts 0. |
| `Measurements.OverflowBoundIsRoundingMidpoint` | correct_task3.py:42 | The int bound at which `float()` raises `OverflowError`, 2^1024 - 2^970, lies strictly between the largest finite double (2^53 - 1) * 2^971 and 2^1024, exactly halfway. The largest double's significand is odd, so round-half-even sends that tie up to 2^1024, which overflows. Accordingly the largest double converts, in both signs, and the bound itself raises, in both signs. |
| `Measurements.FloatOf` | correct_task3.py:42-51 | `float(None)` fails. A bool or an int never converts to an infinity or NaN. An int converts exactly when its magnitude is below the overflow bound. A float converts to itself. |
| `Measurements.StepAsWritten` | correct_task3.py:35-59 | The loop body as written skips None and bools. Only an int can make it raise; a float never raises, and a failed parse is caught. Whatever it adds is the finite value `float()` gives for the element. `AcceptMatchesAsWritten` compares it with the corrected `Accept`. |
| `Measurements.KeepFinite` | correct_task3.py:43-45 | The `isinf or isnan` guard keeps a float exactly when it is finite, and then keeps its value. |
| `Measurements.AsWrittenRaisesOnHugeInt` | correct_task3.py:41-45 | As written, the loop body raises on the element `2**1024 - 2**970`. |
| `Measurements.Accept` | correct_task3.py:35-59 | None and bools are never accepted. An int is accepted exactly when `float()` converts it, and then with its own value. A float is accepted exactly when it is finite. Any other value is accepted exactly when the parse succeeds with a finite value. A failed parse skips the element. |
| `Measurements.HugeIntIsSkipped` | correct_task3.py:41-45 | Under the corrected step, the int `2**1024 - 2**970` is skipped, and a list holding only it averages to 0.0. |
| `Measurements.AcceptMatchesAsWritten` | correct_task3.py:35-59 | The loop body as written raises exactly on ints outside the float range. On every other element it skips or adds exactly as `Accept` does. |
| `Measurements.AcceptIffValidMeasurement` | correct_task3.py:35-59 | An element is accepted if and only if it is a valid measurement: not a bool, and `float()` makes it a finite number. When accepted, its value is that number. |
| `Measurements.BoolsConvertButAreRejected` | correct_task3.py:36-39 | `float()` turns a bool into a finite number, and still a bool is never accepted. |
| `Measurements.Accepted` | correct_task3.py:35-59 | The loop accepts at most one value per element. |
| `Measurements.AcceptedConcat` | correct_task3.py:35-59 | The values accepted from a concatenation are those accepted from each part, in order. |
| `Measurements.SumConcat` | correct_task3.py:46-47 | The running total over a concatenation is the sum of the totals of its parts. |
| `Measurements.AcceptedMembers` | correct_task3.py:41-56 | A value is among the accepted values if and only if some element of the list is accepted with that value. |
| `Measurements.AcceptedCount` | correct_task3.py:41-56 | `count` is the number of elements accepted. |
| `Measurements.SumBounds` | correct_task3.py:46-47 | A total of n values, each between lo and hi, lies between n*lo and n*hi. |
| `Measurements.MeanBounds` | correct_task3.py:64 | `total / count` of values between lo and hi lies between lo and hi. |
| `Measurements.AverageBetweenMinAndMax` | correct_task3.py:61-64 | When something is accepted, the average lies between the smallest and the largest accepted value. |
| `Measurements.NothingAcceptedGivesZero` | correct_task3.py:61-62 | When no element is accepted, the empty list included, nothing is summed and the result is 0.0. |
| `Measurements.SkippedElementIsIgnored` | correct_task3.py:35-59 | Inserting a rejected element anywhere in a list leaves the average unchanged. |
| `Measurements.AverageValidMeasurements` | correct_task3.py:4-64 | The result is 0.0 for `None` and for a non-iterable value. For a list, it is the mean of the accepted values, or 0.0 when there are none. The loop invariant says that `total` is the sum and `count` the number of values accepted so far. |
| `Measurements.IntegersExample` | correct_task3.py:35-64 | `[1, 2, 3]` averages to 2.0. |
| `Measurements.MixedExample` | correct_task3.py:35-64 | `[1, "2", None, True, nan, inf, "x"]` averages to 1.5 when the parser reads `"2"` as 2.0 and fails on `"x"`. |
| `Measurements.NegativeExample` | correct_task3.py:35-64 | `[-5, "-3.5"]` averages to -4.25 when the parser reads `"-3.5"` as -3.5. |

## Findings

| source | as written | input that shows it | evidently intended | confidence | as-written member | corrected member |
|---|---|---|---|---|---|---|
| correct_task3.py:41-42 | `float(v)` on an int is outside any `try`, so an int too large for a float raises `OverflowError` out of `average_valid_measurements`. | `[2**1024 - 2**970]`, or any int of at least that magnitude. | Skip the element, as the infinity it stands for would be skipped; the docstring (lines 19-22) promises that invalid entries are skipped and every input is handled safely. | not executed; high | `Measurements.AsWrittenRaisesOnHugeInt` | `Measurements.Accept` |

`Measurements.StepAsWritten` is the loop body as written. `Measurements.Accept` is the corrected body. `AverageValidMeasurements` and all the lemmas about averages use `Accept`.

## Left out

- Measurements.AverageValidMeasurements: the mean is exact over the reals. Python rounds in `total += num_value` and in `total / count`. A total that overflows to infinity, for example from two values near 1.8e308, makes Python return `inf` or `nan` where the model returns the exact mean. IEEE-754 arithmetic is not modelled.
- Measurements.IntToFloat: `float()` of an int above 2^53 rounds to the nearest double. The model keeps the exact value.
- Python's `float()` grammar for strings (signs, exponents, surrounding whitespace, `"inf"`, `"nan"`) and its behaviour on other objects are not modelled. They belong to a library parser, so they are the parameter `parse`. A `None` from `parse` stands for the `ValueError` or `TypeError` that lines 57-59 catch. An object whose conversion raises some other exception, which Python would let escape, is not modelled.
- Python's iteration protocol is not modelled. This covers the `iter()` probe, the fact that a bare string or a dict iterates its characters or keys, generators, and errors raised during iteration. The argument is `Absent`, `NonIterable` or a finite `Items` sequence.
- Exceptions appear only through what they lead to: a skipped element, the default result, or `Raise` in the as-written step.
- `Other` values carry only a description of their kind. Nothing about them matters to the email check: every non-string is rejected. For the averager they matter only through `parse`.
- Strings are sequences of Dafny `char`, which are Unicode scalar values. Python strings may also hold lone surrogate code points; none of them is whitespace, `@`, `.` or space, so the checks treat them like any other character.
