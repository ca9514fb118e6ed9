# Newsletter subscriber import, modelled in Dafny

A model of the Magento console command `xigen:import-subscriber`
(`Console/Command/Import.php`). The command reads a CSV export of newsletter
subscribers, drops the header line and, when its `import` argument is truthy,
walks the remaining lines in order. A line is skipped when its trimmed email
fails validation, when its status column is the Unsubscribed code 3, or when
its website column is not 1. Every other line is handed to `subscribe($email)`,
whose result is ignored. `subscribe` is an upsert by email:

- it loads the current store's subscriber for the email (`loadByEmail`);
- it skips an existing record that is already Subscribed and returns false;
- it gives a new record a fresh confirm code;
- it moves a new, Unsubscribed or NotActive record to Subscribed under the given email;
- it links the record to the customer with that email, or falls back to the current store and customer id 0;
- it sets the status-changed flag and saves, returning whether the save succeeded.

Files:

- `subscribers.dfy` (module `Subscribers`): the subscriber record and the
  statuses. `Find` models `loadByEmail` as a lookup in the table by the
  current store id and the email, and `FindCustomer` models the customer
  repository. `Saved` is the record that reaches `save()`, and `Upsert` is
  the specification of one `subscribe` call: the boolean it returns and the
  table it leaves.
- `rows.dfy` (module `Rows`): a line of the export, PHP's `trim`, and the
  row filter `Accepts`.
- `batch.dfy` (module `Batch`): the import loop as a function of the file
  (`Step`, `ImportRows`, `ImportFile`), and the lemmas about a whole import.
- `command.dfy` (module `Command`): class `ImportSubscribers`. It holds the
  subscriber table, the customer directory and the current store id.
  `Subscribe` sets the fields of one subscriber value one at a time, as the
  source's setters do, and then saves it. `Execute` is the `foreach` loop
  with its three `continue` guards. Both are proved against the
  specification functions above.

The platform's collaborators become values:

- the subscriber table is a sequence holding the rows of every store in id
  order, so the record at index i has id i + 1. `loadByEmail` selects the
  row whose store id is the current store's and whose email is the given
  one; saving a record that was found overwrites that row, and saving a new
  record appends it;
- the customer repository is a `map` from email to customer, and a missing
  key stands for the exception `get` throws;
- the email validator is a function parameter `isValid`;
- what `randomSequence()` returns and whether `save()` throws are an
  `Oracle` per line of the file.

`execute` makes store 1 current before it reads the file (line 196), so
every lookup during an import is scoped to store 1, while the table itself
keeps the rows of all stores.

Points where the code behaves in ways a reader might not expect:

- `subscribe` returns a plain boolean. It does not distinguish a created record
  from an updated one, and the loop keeps no counters.
- A second `subscribe` for the same email is skipped only when the record is
  Subscribed after the first call. A record whose status is anything other than
  Subscribed, NotActive or Unsubscribed (Unconfirmed, say) keeps that status,
  so every later call saves it again. `OtherStatusIsResaved` states this.
- `loadByEmail` hands the current store id and the email to the platform's
  lookup (lines 334-351), but a new record linked to a customer takes that
  customer's store id (line 310). With a lookup that filters by store id and
  exact email, as modelled here, the next lookup misses a record saved for a
  customer of another store, and every further call creates one more record
  for the same email, each with a new confirm code.
  `CrossStoreCustomerIsDuplicated` states this consequence of the modelled lookup.
- The status column of the file is read only by the guard at line 245: a line
  whose status is 3 (Unsubscribed) is skipped. The status the record ends
  with depends only on the status stored in the table. A new, Unsubscribed or
  NotActive record becomes Subscribed, a Subscribed one is left alone, and
  one with any other stored status keeps it (lines 292-306).

## Model

| member | source | states |
|---|---|---|
| `Subscribers.Find` | Console/Command/Import.php:332-354 | The lookup returns the first row, in id order, whose store id is the current store's and whose email is the given one; no earlier row matches. It returns none exactly when no row matches, which stands for a new record without an id. |
| `Subscribers.FindCustomer` | Console/Command/Import.php:308-315 | The customer repository as a map from email to customer; a missing email stands for the exception `get` throws. What the customer link does to the saved record is stated by `Subscribers.Saved`. |
| `Subscribers.Saved` | Console/Command/Import.php:296-317 | A confirm code is generated only for a record without an id; a found record keeps its own. New, Unsubscribed and NotActive records become Subscribed under the given email, and any other found record keeps its status and email. The store and customer ids come from the customer, or else are the current store and 0. The status-changed flag is always set. |
| `Subscribers.Upsert` | Console/Command/Import.php:288-325 | An existing Subscribed record is skipped with false and no change. The result is true exactly when the save is reached and succeeds, and a skip or failed save leaves the table unchanged. A save overwrites the row the lookup found, or appends one row when none was found, leaves every other row as it was, and writes the record `Saved` describes, which carries the email looked up. |
| `Subscribers.SecondSubscribeSkips` | Console/Command/Import.php:290-306 | After a successful call, a second call for the same email returns false and changes nothing. This needs the saved record to be found again, that is no customer or a customer of the current store, and a status that is not Other. |
| `Subscribers.CrossStoreCustomerIsDuplicated` | Console/Command/Import.php:296-320 | With the modelled store-filtered lookup: for a new email whose customer belongs to another store, two successful calls append two records with that email, the first with the first call's confirm code and the second with the second's, and leave the existing rows unchanged. |
| `Subscribers.OtherStatusIsResaved` | Console/Command/Import.php:292-306 | A record with status Other is never skipped: it keeps status Other, and a second call saves it again. |
| `Rows.TrimLeftStrips` | Console/Command/Import.php:240 | TrimLeft removes a prefix made only of whitespace, and the rest does not start with whitespace. |
| `Rows.TrimRightStrips` | Console/Command/Import.php:240 | TrimRight removes a suffix made only of whitespace, and the rest does not end with whitespace. |
| `Rows.TrimStrips` | Console/Command/Import.php:240 | The trimmed email is a slice of the column surrounded only by whitespace, and it neither starts nor ends with whitespace. |
| `Rows.Trim` | Console/Command/Import.php:240 | PHP's `trim` with its default character set: space, tab, line feed, carriage return, NUL and vertical tab. What it removes is stated by `Rows.TrimStrips`. |
| `Rows.Accepts` | Console/Command/Import.php:240-251 | A line reaches `subscribe` exactly when its trimmed email is valid, its status is not 3 and its website is 1. What follows for the import is stated by `Batch.IneffectiveRowIsSkipped` and `Batch.ImportWritesOnlyAccepted`. |
| `Batch.Truthy` | Console/Command/Import.php:210-212 | The `import` argument enables the import unless it is empty or "0". That a falsy argument leaves the table unchanged is stated by `Batch.ImportFile`. |
| `Batch.DropHeader` | Console/Command/Import.php:207-208 | The `unset` of line 0: the file's lines after the first. That the header's contents never matter is stated by `Batch.HeaderNeverProcessed`. |
| `Batch.Step` | Console/Command/Import.php:240-260 | One pass of the loop body adds at most one record and removes none. |
| `Batch.ImportRows` | Console/Command/Import.php:237-261 | The loop over n lines adds at most n records and removes none. |
| `Batch.ImportFile` | Console/Command/Import.php:207-261 | The whole import adds at most one record per line after the header, and a falsy `import` argument leaves the table unchanged. |
| `Batch.ImportSnoc` | Console/Command/Import.php:237-261 | Appending a line to the file adds one loop step at the end of the import. |
| `Batch.ImportConcat` | Console/Command/Import.php:237-261 | Lines are processed in file order: importing `a + b` equals importing `b` on the table that importing `a` left. |
| `Batch.ImportSplitAt` | Console/Command/Import.php:237-261 | The import equals the lines before line i, then line i's step, then the lines after it on the table that step left. |
| `Batch.IneffectiveRowIsSkipped` | Console/Command/Import.php:240-260 | A line that the filter rejects, or whose save fails, has no effect. The import equals the import of the other lines, so the lines after it are processed exactly as without it. |
| `Batch.ImportWritesOnlyAccepted` | Console/Command/Import.php:240-251 | A row that changes, and every row that is added, carries the email of a line that passes all three guards and whose save succeeds. A row that changes keeps its email. |
| `Batch.SubscribedRecordsKept` | Console/Command/Import.php:292-294 | A record that is Subscribed before the import is identical after it. |
| `Batch.ImportOnlySubscribes` | Console/Command/Import.php:300-306 | A record that is not Subscribed after the import existed before at the same position with the same status and email. |
| `Batch.AcceptedStepSubscribes` | Console/Command/Import.php:292-320 | The step for an accepted line whose save succeeds leaves a Subscribed record with the line's email at the position the lookup selects, unless the record found has status Other. |
| `Batch.AcceptedRowEndsSubscribed` | Console/Command/Import.php:237-306 | Take a line that passes the filter and whose save succeeds. Unless a record with its email started with status Other, a Subscribed record with its email is in the table at the end, whatever the later lines do. |
| `Batch.HeaderNeverProcessed` | Console/Command/Import.php:207-212 | The header line's contents never affect the result. |
| `Batch.FourRowExample` | Console/Command/Import.php:240-251 | For four lines (a valid email on website 1, a malformed email, an Unsubscribed line, a line for website 2), only the first line's trimmed email can be written. |
| `Command.ImportSubscribers.constructor` | Console/Command/Import.php:138-169 | The command starts with the given subscriber table, customer directory and current store. |
| `Command.ImportSubscribers.Subscribe` | Console/Command/Import.php:288-354 | The step-by-step setter sequence and save return what `Upsert` returns and leave the table that `Upsert` leaves. |
| `Command.ImportSubscribers.Execute` | Console/Command/Import.php:192-261 | The current store becomes 1. The loop with its `continue` guards leaves the table `ImportFile` gives. That is the header dropped and, only for a truthy argument, every accepted line subscribed in order. |

## Left out

- CSV parsing, the media directory and the fixed file path (lines 198-207) are file I/O and configuration. The model takes the parsed lines as a sequence of rows.
- The PHP `(int)` conversion of the status and website columns is not modelled. Rows carry these columns as integers already.
- Rows with fewer than three columns are not modelled.
- The progress bar, the console output, the `gmtDate()` timestamps and the verbosity handling (lines 201-233, 253-269) are console UI only.
- `setAreaCode` (line 197) has no effect on the decision logic and is left out.
- The internals of the email validator are a foreign library. The validator is an arbitrary function parameter.
- The internals of `loadByCustomerData`, `save()`, the customer repository, `randomSequence()` and `DataObjectHelper` are platform code. They are the table lookup, the table update, the customer map and the `Oracle` values.
- Database ids are positions in the table, and a new record takes the next one. When several rows match the lookup, the model takes the one with the lowest id; which row `loadByCustomerData` returns in that case is not part of this model.
- SecondSubscribeSkips: the second call is skipped only when the lookup finds the record the first call saved and its status is not Other. The lemma requires that the email has no customer, or one of the current store; for a customer of another store the modelled lookup misses the saved record and a duplicate is created instead, as `CrossStoreCustomerIsDuplicated` states.
- Subscribers.Find: the body of `loadByCustomerData` is platform code. That it filters by exactly the current store id and compares emails exactly is an assumption about it. The duplicate stated by `CrossStoreCustomerIsDuplicated`, and the claim of `ImportWritesOnlyAccepted` that a changed row keeps its email, rest on that assumption.
- Failures of the lookup (`loadByEmail`, lines 290 and 334-353) and of the store manager (`getStore()`, including the call inside the catch block at line 313) are not modelled: `Find` and the current store are total. In the code such an exception is not caught in `subscribe` or in the loop, so it aborts the rest of the import.
- The exit codes `Cli::RETURN_SUCCESS` and `Cli::RETURN_FAILURE` (lines 271-278) are a process-exit concern and are left out.
- The return value of `Execute` is not modelled for the same reason.
- Concurrent importers writing to the same table are not modelled. The command is single-threaded.
