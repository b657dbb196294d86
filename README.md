# example_task_decorator_dag — a Dafny model of its five tasks

The workflow `example_task_decorator_dag` in `hello_world.py` chains five tasks:

1. **extract** returns three fixed users `{id, name, email}`;
2. **transform** turns each user into `{user_id, full_name, email_domain, processed_at}`. The full name is the upper-cased name. The domain is `email.split('@')[1]`. The timestamp is a clock reading;
3. **validate** judges each record by Python truthiness. It counts valid and invalid records and collects one or two messages per invalid record, without dropping any record;
4. **load** builds a summary `{records_processed, load_timestamp, status}` whose status is always `"completed"`;
5. **notify** returns a fixed confirmation string.

The model has three modules:

- `Wrappers` (`wrappers.dfy`) holds `Option` and `Result`.
- `Text` (`text.dfy`) holds the two pieces of Python's `str` that transform uses. `ToUpper` is `str.upper` over ASCII. `Split` is `str.split` with a one-character separator. `Split` is proved against `Join` in both directions, and a lemma counts its pieces.
- `HelloWorld` (`hello_world.dfy`) holds the tasks. It has one datatype per dictionary the tasks exchange.
  - Extract, load and notify return literals or lengths, so they are functions.
  - Transform and validate build their results in a loop, so they are methods with loop invariants.
  - Each method is proved against specification functions (`TransformUser`, `CountValid`, `CountInvalid`, `ErrorsOf`). Lemmas about those functions state the promised properties.
  - `SampleDataRun` runs the five tasks on the built-in data.

Inputs from outside the program are parameters:

- `clock(i)` is the i-th `datetime.now().isoformat()` reading inside transform.
- `loadTimestamp` is the reading inside load.

Two details of the code matter:

- The domain is not everything after the first `@`. It is the piece between the first `@` and the next one, so `"a@b@c"` gives `"b"` (`EmailDomainBetweenAts`).
- Fields are tested by Python truthiness, so `user_id == 0` and the empty string count as missing.

An email without `@` makes the source raise `IndexError`. `TransformData` models this as `Failure(IndexError(k))`, where `k` is the position of the first such user. It succeeds exactly when every email contains `@`.

## Model

| member | source | states |
|---|---|---|
| HelloWorld.ExtractData | hello_world.py:30-36 | exactly three users with ids 1, 2, 3 in that order, each with a non-empty name and an email containing '@' |
| HelloWorld.EmailDomain | hello_world.py:50 | `email.split('@')[1]` exists exactly when the email contains '@', and the domain it yields contains no '@' |
| HelloWorld.EmailDomainBetweenAts | hello_world.py:50 | for `local + "@" + domain + rest`, where `local` and `domain` have no '@' and `rest` is empty or starts with '@', the domain is exactly `domain`: the text after the first '@', up to any second '@' |
| HelloWorld.TransformUser | hello_world.py:47-52 | a record is built exactly when the email has '@'; it carries the user's id, the name upper-cased character by character, the second '@'-piece of the email (which has no '@') and the given timestamp |
| HelloWorld.TransformData | hello_world.py:45-57 | on success: one record per user, same length and order, record i built from user i with clock reading i; it succeeds iff every email has '@'; on failure it names the first user whose email has no '@' |
| HelloWorld.MissingRequired | hello_world.py:78 | the first check fails when `user_id` is 0 or `full_name` is empty |
| HelloWorld.MissingDomain | hello_world.py:85 | the second check fails when `email_domain` is empty |
| HelloWorld.IsValidRecord | hello_world.py:75-91 | `is_valid` stays true exactly when neither check fails |
| HelloWorld.RecordErrors | hello_world.py:75-89 | a record adds no message iff it passes both checks; a failing first check adds exactly its "missing required fields" message (carrying the record) and a failing domain check exactly its "missing email domain" message (carrying the user_id); one message per failing check, the required-fields message first when both fail |
| HelloWorld.CountValid | hello_world.py:91-92 | the number of valid records, at most the number of records |
| HelloWorld.ErrorsOf | hello_world.py:79-88 | the messages of all records, those of each record appended after those of the records before it |
| HelloWorld.CountInvalid | hello_world.py:91-94 | valid and invalid counts together are the number of records |
| HelloWorld.ValidateData | hello_world.py:64-99 | total is the input length; valid, invalid and the message list are the counts and the in-order concatenation of per-record messages; valid + invalid == total |
| HelloWorld.ErrorBounds | hello_world.py:74-94 | invalid <= number of messages <= 2 * invalid, and the message list is empty iff there is no invalid record |
| HelloWorld.ErrorsOfAppend | hello_world.py:74-89 | messages appear in input order: those of a prefix come before those of the remainder |
| HelloWorld.ErrorsProvenance | hello_world.py:78-88 | every "missing required fields" message carries an input record lacking id or name; every "missing email domain" message carries the user_id of an input record with empty domain |
| HelloWorld.ErrorsComplete | hello_world.py:78-88 | every input record lacking id or name has its "missing required fields" message in the list, and every input record with empty domain has a "missing email domain" message for its user_id |
| HelloWorld.NoInvalidIffAllValid | hello_world.py:74-94 | no record is invalid iff every record has a truthy user_id, full_name and email_domain |
| HelloWorld.AllValidResults | hello_world.py:74-94 | when every record passes both checks, all are counted valid, none invalid, and the message list is empty |
| HelloWorld.TransformedValidity | hello_world.py:47-89 | a transformed record passes validation iff its user has a non-zero id, a non-empty name and a non-empty domain |
| HelloWorld.LoadData | hello_world.py:106-121 | records_processed is the number of transformed records and status is "completed", whatever the validation results contain |
| HelloWorld.SendNotification | hello_world.py:124-142 | always returns "Notification sent successfully" |
| HelloWorld.ExampleDomain | hello_world.py:32-34 | an address `local@example.com` (local part without '@') has domain "example.com"; `ExtractData` writes each sample address as its local part followed by `"@example.com"`, the same string as the literal, so this lemma applies to it directly |
| HelloWorld.SampleDomains | hello_world.py:32-34 | every built-in email has domain "example.com" |
| HelloWorld.SampleDataRun | hello_world.py:26-142 | on the built-in data: 3 total, 3 valid, 0 invalid, no messages; 3 records loaded with status "completed"; the notification string is returned |
| Text.UpperChar | hello_world.py:49 | the result is never an ASCII lower-case letter; lower-case letters map to their capitals and every other character is unchanged |
| Text.ToUpper | hello_world.py:49 | `upper()` keeps the length, maps character i through UpperChar and leaves no ASCII lower-case letter |
| Text.Count | hello_world.py:50 | the number of occurrences is positive iff the character occurs |
| Text.Split | hello_world.py:50 | `split` always yields at least one piece |
| Text.SplitPiecesFree | hello_world.py:50 | no piece contains the separator |
| Text.SplitLength | hello_world.py:50 | there is one piece more than there are separators |
| Text.SplitHasSecond | hello_world.py:50 | index 1 of the split exists iff the separator occurs |
| Text.SplitNoSep | hello_world.py:50 | a string without the separator splits into itself alone |
| Text.SplitFirst | hello_world.py:50 | the first piece is everything before the first separator, followed by the split of the rest |
| Text.JoinSplit | hello_world.py:50 | joining the pieces with the separator gives back the string |
| Text.SplitJoin | hello_world.py:50 | separator-free pieces are recovered by splitting their join |

## Left out

- The `DAG(...)` block, `default_args` and the retry policy (hello_world.py:7-23) only configure the external scheduler.
- The task wiring (hello_world.py:145-149) is the scheduler's dependency resolution and is not modelled. Line 149 passes one argument to the two-parameter `send_notification`. `SampleDataRun` instead passes both the load summary and the validation results.
- The `logging.info` / `logging.warning` calls, including the warning loop in `load_data` (hello_world.py:106-109) and the message template in `send_notification` (hello_world.py:128-139), are output only and change no returned value.
- `datetime.now().isoformat()` (hello_world.py:51, 116) is a wall-clock read. It is a parameter: `clock` for transform, `loadTimestamp` for load.
- Text.UpperChar, Text.ToUpper: cover ASCII `a`–`z` only. Python's full Unicode case mapping (which can change a string's length) is not modelled.
- The message strings in `validation_errors` are not rendered. Each is a `ValidationError` value carrying what its f-string interpolates: the whole record, or its `user_id`. The Python `repr` of a dictionary is not modelled.
- Validate takes records as transform builds them, with every key present and `user_id` an integer. Records with absent keys or other value types are not modelled. So the `KeyError` at hello_world.py:87, reachable only when `user_id` is absent, is not modelled either.
