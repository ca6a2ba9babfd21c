# Notification SMS transport: a Dafny model

This project models the Doctrine-backed Symfony Messenger transport that queues SMS
notifications in one database table. It has three parts:

- `Connection`: the queue store. It resolves the configuration and upserts messages
  on (order id, template name). It hands out the earliest available row under a lock
  and stamps its delivery time. It marks rows handled on `ack` and `reject`, and it
  counts, lists and finds rows. A missing table gets one retry through setup.
- `DoctrineReceiver`: wraps the store's rows in envelopes. It decodes each row with
  the first configured payload model and stamps the row id. It absorbs up to two
  consecutive retryable driver failures and raises on the third.
- `CustomDoctrineSender`: encodes an envelope and stores it with the delay of its
  last `DelayStamp`. It returns the envelope stamped with the stored id.

How the system is modelled:

- The table is a finite map from row id to row.
- Time is an integer clock in seconds, passed in by the caller.
- The driver is a value. Its `injected` script says which of its next executions
  raise which DBAL exception.
- Every operation is a pure function from (connection, database) to a new state and
  a `Result`.
- The serializer's `encode` and `decode` are function parameters.

Files:

- `wrappers.dfy`: `Option` and `Result`.
- `config.dfy`: option values, PHP coercions, `buildConfiguration`, and the recursive
  merge the constructor applies.
- `connection.dfy`: the store.
- `envelope.dfy`: envelopes and stamps.
- `receiver.dfy`: the receiver.
- `sender.dfy`: the sender.
- `connection_properties.dfy` and `transport_properties.dfy`: properties that relate
  several operations.

Behaviours of the code that a reader might not expect:

- `setup()` has its schema update commented out and only turns automatic setup off.
  A table that is really missing therefore still fails after the retry.
- `getMessageCount` and `findAll` use the availability filter without `handled`,
  `push_sent` or `email_sent`. `get` never returns an acknowledged row again. But
  such a row is counted and listed as soon as the redeliver timeout after its
  delivery has passed, and from then on for good.
- Decoding tries only the first payload model. A failure rejects the row and
  re-raises, so later models are never tried.
- On the update path of `send`, `delivered_at`, `push_sent` and `email_sent` are left
  as they were.

## Model

| member | source | states |
|---|---|---|
| Config.BuildConfiguration | src/NotificationTransport/Connection.php:77-106 | Fails exactly when the DSN is unparsable or the options or the DSN query hold a key outside the defaults; unknown option keys are reported before unknown query keys. On success the keys are the default keys plus `connection` (the DSN host); every other key takes the query's value, else the option's, else the default (reference `Pick`), and `auto_setup` is the `filter_var` boolean of that choice |
| Config.ConnectionOptionRejected | src/NotificationTransport/Connection.php:93-97 | Passing `connection` as an explicit option is always refused as an unknown option, because it is not a default key |
| Config.ReplaceRecursive | src/NotificationTransport/Connection.php:60 | `array_replace_recursive`: the result has the keys of both sides; a key only in the base keeps the base value; a replacing value wins unless both sides hold arrays of the same kind, which are merged recursively |
| Config.Replace | src/NotificationTransport/Connection.php:60 | When the two values are not arrays of the same kind, the replacing value is taken whole |
| Config.ReplaceSelf | src/NotificationTransport/Connection.php:60 | Merging any value with itself gives it back unchanged, at every depth |
| Config.LowerAscii | src/NotificationTransport/Connection.php:91 | The case folding `filter_var` compares with: the same length, `A`-`Z` mapped to `a`-`z`, every other character kept |
| Config.FilterBoolTruthy | src/NotificationTransport/Connection.php:91 | A value `filter_var` accepts as true is also truthy in PHP |
| Config.TruthyNotFilterBool | src/NotificationTransport/Connection.php:91 | The converse of the above fails: the string "false" is truthy, but `filter_var` reads it as false |
| Config.FilterBoolIgnoresCase | src/NotificationTransport/Connection.php:91 | `filter_var`'s boolean reading of a string does not depend on the case of its letters |
| Config.Truthy | src/NotificationTransport/Connection.php:248 | `if ($this->autoSetup)`: false exactly for PHP's seven falsy values (null, false, 0, `""`, `"0"`, the empty list and the empty array) |
| Config.DigitPrefix | src/NotificationTransport/Connection.php:350 | The digits `%d` reads from the redeliver timeout: the run of decimal digits at the head of the string, stopping at the first non-digit, and its value as a decimal number (reference `DigitsValue`) read after the digits already consumed |
| Config.LeadingIntReadsDigitRun | src/NotificationTransport/Connection.php:350 | A string made of a run of digits, optionally signed, followed by text that does not begin with a digit reads as the decimal value of that run, negated after a minus |
| Config.AsInt | src/NotificationTransport/Connection.php:350 | `%d` of an option value: an integer formats as itself and a string as its leading integer. The result is non-zero only for a truthy value, and for anything but a string exactly then; null, booleans and arrays give 0 or 1 |
| Connection.NewConnection | src/NotificationTransport/Connection.php:58-65 | The configuration is merged over the defaults: it has the default keys plus the given ones and keeps every given non-payload value. `autoSetup` is the truthiness of the given `auto_setup`, or true when none is given. No emptied-queue time is recorded |
| Connection.MergedLookup | src/NotificationTransport/Connection.php:60 | Outside the payload, every option of the merged configuration equals a plain override of the defaults |
| Connection.MergedModels | src/NotificationTransport/Connection.php:60 | The payload models of the merged configuration are the given ones, or none |
| Connection.ConstructorSettings | src/NotificationTransport/Connection.php:58-65 | For every setting the store reads (provider, template, timeouts, payload models), the recursive merge gives the same as a plain override of the defaults |
| Connection.BuiltConfigurationAutoSetup | src/NotificationTransport/Connection.php:64 | A connection built from a resolved DSN configuration has automatic setup exactly when the resolved `auto_setup` option passes `filter_var` |
| Connection.Reset | src/NotificationTransport/Connection.php:67-70 | Forgets the emptied-queue time and changes nothing else |
| Connection.Setup | src/NotificationTransport/Connection.php:275-283 | Switches automatic setup off and changes nothing else; the table is not created |
| Connection.Execute | src/NotificationTransport/Connection.php:395-439 | One driver execution consumes one scripted outcome. It succeeds exactly when the table exists and no fault is scripted. A scripted fault is raised as it is; otherwise the only failure is a missing table |
| Connection.ExecuteWithRecovery | src/NotificationTransport/Connection.php:395-439 | Outside a transaction, a missing table turns automatic setup off if it was on. The statement then runs once more, and its outcome is returned whatever it is. Any other outcome is returned at once with the connection untouched |
| Connection.FirstExists | src/NotificationTransport/Connection.php:192-193 | Every non-empty set of ids has a first element under an ordering key, ties going to the smaller id |
| Connection.First | src/NotificationTransport/Connection.php:192-193 | Picks a member of the set that comes no later than any other under the key |
| Connection.Available | src/NotificationTransport/Connection.php:347-368 | The availability filter: a configured null provider or template name matches no row, since SQL NULL equals nothing; an available row is due and carries the configured names; a row delivered within the redeliver timeout is not available |
| Connection.Deliverable | src/NotificationTransport/Connection.php:188-191 | `get`'s filter narrows availability: a deliverable row is available, and a handled, pushed or e-mailed row is never deliverable |
| Connection.Select | src/NotificationTransport/Connection.php:188-193 | `get`'s query. A row is chosen exactly when some row is deliverable: available, not handled, not pushed, not e-mailed. The chosen row has the smallest `available_at` among the deliverable rows |
| Connection.PrependLeast | src/NotificationTransport/Connection.php:296-309 | The least id put in front of an ascending listing of the other ids gives an ascending listing of them all |
| Connection.SortedIds | src/NotificationTransport/Connection.php:296-309 | Lists a set of ids exactly once each in strictly ascending order |
| Connection.GetOnce | src/NotificationTransport/Connection.php:185-244 | One transaction pass. A failed pass leaves the rows untouched. Finding nothing records the emptied-queue time. A found row is the one `Select` picks, returned as it was, and only its `delivered_at` is set to now |
| Connection.Get | src/NotificationTransport/Connection.php:183-255 | `get`. The transaction runs at most twice: a second pass, after setup, happens exactly when automatic setup was on and the first pass met a missing table. The result is deliverable and has the earliest `available_at`, and only its `delivered_at` changes. No result means no row is deliverable. Any failure leaves the rows untouched. A missing-table failure leaves automatic setup off. A healthy driver always succeeds |
| Connection.CheckRow | src/NotificationTransport/Connection.php:377-393 | Returns some row holding the (order id, template) pair, and nothing exactly when no row holds it |
| Connection.TruncDiv | src/NotificationTransport/Connection.php:124 | `%d` of the millisecond delay divided by 1000: the quotient truncated toward zero, for negative delays too |
| Connection.Send | src/NotificationTransport/Connection.php:116-181 | A null template name fails with a type error and changes nothing. Any failure leaves the rows untouched. If a row holds the (order id, template) pair, only that row changes: the columns `send` writes replace its own, and its delivery time and sent flags are kept. Otherwise only a new row is added, under the next id, and that id is returned. The written row is unhandled, created now, and available after the delay in whole seconds. Id validity is preserved, and a healthy driver always succeeds |
| Connection.SentRow | src/NotificationTransport/Connection.php:122-174 | The row `send` writes: the given order id, body and headers, the configured names, unhandled, created now, and available after the delay in milliseconds counted in whole seconds, truncated toward zero. Delivery time and sent flags are the assumed column defaults |
| Connection.Overwrite | src/NotificationTransport/Connection.php:142-151 | The update path's SET list replaces every column of the row except its delivery time and its push and e-mail flags, which are kept |
| Connection.Ack | src/NotificationTransport/Connection.php:257-264 | Marks the row handled and changes nothing else. Reports true exactly when a row has the id. Fails, with the rows untouched, exactly when the driver raises, wrapping that exception |
| Connection.Reject | src/NotificationTransport/Connection.php:266-273 | The same update as `ack`: only the row with the id becomes handled, and the result says whether it exists |
| Connection.GetMessageCount | src/NotificationTransport/Connection.php:285-294 | The count of available rows, with handled and sent rows included. It leaves the rows as they were |
| Connection.FetchRows | src/NotificationTransport/Connection.php:303-308 | The fetched rows line up one for one with the ids asked for |
| Connection.Limit | src/NotificationTransport/Connection.php:299-301 | `setMaxResults`: the first `limit` ids, or all of them when there are fewer or no limit is given |
| Connection.AvailableRows | src/NotificationTransport/Connection.php:296-309 | Every listed row is available and is the table's row for that id. Ids ascend. Without a limit, exactly the available rows are listed; with one, at most that many |
| Connection.FindAll | src/NotificationTransport/Connection.php:296-309 | On success, returns the available rows under the limit, and leaves the table unchanged |
| Connection.Find | src/NotificationTransport/Connection.php:311-320 | Returns the row with the id whatever its state, or nothing exactly when no row has it. It changes no row |
| ConnectionProperties.RawFalseStringEnablesAutoSetup | src/NotificationTransport/Connection.php:58-65 | Given directly to the constructor, `auto_setup` as the string "false" switches automatic setup on, because it is read by truthiness; `buildConfiguration`, when the DSN query does not set it, turns the same option into false |
| ConnectionProperties.AckIsReject | src/NotificationTransport/Connection.php:257-273 | `ack` and `reject` are the same transition on every state |
| ConnectionProperties.SendTouchesOnlyItsPair | src/NotificationTransport/Connection.php:126-152 | A successful `send` leaves every row of another pair present and exactly as it was |
| ConnectionProperties.SendStampsWrittenRow | src/NotificationTransport/Connection.php:123-124 | With a non-negative delay, every row a successful `send` adds or changes was created now and becomes available no earlier than now |
| ConnectionProperties.UniqueKeysAtMostOne | src/NotificationTransport/Connection.php:377-393 | While no two rows share a pair, at most one row holds any given pair, so the check-row lookup is unambiguous |
| ConnectionProperties.SendKeyIds | src/NotificationTransport/Connection.php:126-152 | After a successful `send`, the rows holding its pair are the same set as before. If there were none, they are just the new row |
| ConnectionProperties.SendLeavesOneRowForKey | src/NotificationTransport/Connection.php:126-152 | With at most one row for the pair before, exactly one row holds it after a successful `send` |
| ConnectionProperties.SendPreservesUniqueKeys | src/NotificationTransport/Connection.php:116-181 | If no two rows shared an (order id, template) pair before `send`, none do after it, whether it succeeds or fails |
| ConnectionProperties.ResendSupersedes | src/NotificationTransport/Connection.php:126-152 | Sending the same order twice under one template leaves one row for the pair. That row carries the second payload and is pending again |
| ConnectionProperties.SendGetAckLifecycle | src/NotificationTransport/Connection.php:116-320 | In an empty queue, a sent message is handed out by the next `get` with its row id. `ack` then reports a match. No later `get` returns anything, and `find` shows the row handled |
| ConnectionProperties.AckedRowNotDelivered | src/NotificationTransport/Connection.php:188-191 | A row `ack` has marked handled is never returned by `get` |
| ConnectionProperties.NotRedeliveredWithinTimeout | src/NotificationTransport/Connection.php:347-356 | Once `get` has stamped a row, no `get` returns that row until the redeliver timeout has passed |
| ConnectionProperties.RedeliverableAfterTimeout | src/NotificationTransport/Connection.php:347-356 | Once the redeliver timeout has passed, a stamped row that nobody acknowledged is deliverable again |
| ConnectionProperties.AckedRowAvailableAgain | src/NotificationTransport/Connection.php:285-309 | After `get` then `ack`, the row is handled, yet it is in the available set that the count and `findAll` use exactly once the redeliver timeout after the delivery has passed |
| ConnectionProperties.CountMatchesFindAll | src/NotificationTransport/Connection.php:285-309 | The message count equals the length of an unlimited `findAll` on the same state |
| ConnectionProperties.AckKeepsMessageCount | src/NotificationTransport/Connection.php:285-294 | `ack` leaves the set of counted rows as it was, because the count does not filter on `handled` |
| ConnectionProperties.DeliveredRowLeavesCount | src/NotificationTransport/Connection.php:230-240 | With a non-negative timeout, the row `get` returns drops out of the available set at once, and no other row does |
| ConnectionProperties.MissingTableGet | src/NotificationTransport/Connection.php:245-254 | With the table really missing, `get` fails with a missing-table error, automatic setup is off afterwards and the rows are unchanged |
| ConnectionProperties.TransientMissingTableRecovered | src/NotificationTransport/Connection.php:245-254 | A table missing only on the first pass is recovered by the single retry, which consumes the fault and leaves automatic setup off |
| Envelopes.With | src/NotificationTransport/DoctrineReceiver.php:163-166 | `with` keeps the message and appends the stamps after the existing ones |
| Envelopes.LastOf | src/NotificationTransport/DoctrineReceiver.php:130-140 | `last`: the position of a stamp of the class with none of that class after it. Nothing exactly when the envelope has no stamp of the class |
| Envelopes.LastDelay | Transport/CustomDoctrineSender.php:46-48 | The delay of the last `DelayStamp`, or nothing exactly when there is none |
| Envelopes.LastReceivedId | src/NotificationTransport/DoctrineReceiver.php:130-140 | The id of the last received stamp, or nothing exactly when there is none |
| Envelopes.LastOfAppendOther | src/NotificationTransport/DoctrineReceiver.php:163-166 | Appending stamps of other classes does not change which stamp of a class is last |
| DoctrineReceiver.TypedHeaders | src/NotificationTransport/DoctrineReceiver.php:147 | The decoder's headers are the row's headers with `type` set to the payload model, every other header kept |
| DoctrineReceiver.CreateEnvelopeFromData | src/NotificationTransport/DoctrineReceiver.php:142-167 | No payload model means no envelope. If the first model decodes the row, the result is the decoded envelope plus a received stamp and a transport-id stamp for the row, and the last received id is the row id. If the first model fails, the row is rejected and the decoding failure raised, or the reject's transport error if it failed |
| DoctrineReceiver.Get | src/NotificationTransport/DoctrineReceiver.php:34-58 | At most one envelope. Any successful store call resets the counter. A retryable failure returns nothing and counts up; when the count reaches three it resets and raises a transport error. Any other failure is raised as a transport error and leaves the counter. A found row becomes an envelope stamped with its id |
| DoctrineReceiver.Ack | src/NotificationTransport/DoctrineReceiver.php:63-70 | With no received stamp it fails and changes nothing. Otherwise it forwards the last received id to the store's `ack` and succeeds exactly when that does |
| DoctrineReceiver.Reject | src/NotificationTransport/DoctrineReceiver.php:75-82 | The same forwarding to the store's `reject` |
| DoctrineReceiver.GetMessageCount | src/NotificationTransport/DoctrineReceiver.php:87-94 | The store's count, or its failure as a transport error |
| DoctrineReceiver.All | src/NotificationTransport/DoctrineReceiver.php:99-110 | The store's `findAll` rows, undecoded, or its failure as a transport error |
| DoctrineReceiver.FindAsWritten | src/NotificationTransport/DoctrineReceiver.php:115-128 | `find` as written: it returns nothing exactly when the store finds nothing, and raises a store failure as a transport error. Every found row ends in a return-type error |
| DoctrineReceiver.Find | src/NotificationTransport/DoctrineReceiver.php:115-128 | Corrected `find`: nothing exactly when the store finds nothing, and a found envelope carries the requested id as its last received id |
| DoctrineSender.DelayOf | Transport/CustomDoctrineSender.php:46-48 | The delay of the last `DelayStamp` of the envelope, with no delay stamp after it, or 0 when there is none |
| DoctrineSender.HeadersOf | Transport/CustomDoctrineSender.php:51 | The encoder's headers when it gave some, else no headers |
| DoctrineSender.Send | Transport/CustomDoctrineSender.php:42-57 | Hands the store the order id, encoded body, headers (empty when absent) and delay. Succeeds exactly when the store does, returning the same message with one transport-id stamp carrying the stored id. A DBAL failure becomes a transport error; a null template becomes a type error |
| TransportProperties.ThirdRetryableFailureRaises | src/NotificationTransport/DoctrineReceiver.php:39-48 | From a fresh counter, two retryable failures in a row return nothing. The third raises a transport error and resets the counter |
| TransportProperties.SuccessResetsRetryBudget | src/NotificationTransport/DoctrineReceiver.php:36-38 | Any successful store `get` resets the counter, whatever it was |
| TransportProperties.ReceiverAckIsReject | src/NotificationTransport/DoctrineReceiver.php:63-82 | The receiver's `ack` and `reject` are the same transition |
| TransportProperties.DecodeFailureRejectsRow | src/NotificationTransport/DoctrineReceiver.php:146-158 | A row the first model cannot decode is marked handled, no row is added or removed, and the receiver raises a decoding failure |
| TransportProperties.FindAsWrittenFailsOnFoundRow | src/NotificationTransport/DoctrineReceiver.php:115-128 | With a healthy driver, `find` as written fails on every id present in the table |
| TransportProperties.FindReturnsEnvelope | src/NotificationTransport/DoctrineReceiver.php:115-128 | With a healthy driver, corrected `find` returns the decoded envelope of the row with the two id stamps and leaves the state unchanged |
| TransportProperties.SendThenReceive | Transport/CustomDoctrineSender.php:42-57 | If the serializer's decode inverts its encode, an undelayed envelope sent into an empty queue comes straight back. The receiver returns the same message and stamps, followed by a received stamp and a transport-id stamp for the stored id |

## Left out

- SQL text, the query builder, lock hints and `FOR UPDATE`: the model works on the
  rows the statements select and update, so concurrent consumers are not modelled.
  Each store operation is one atomic transition.
- `receiveTimeout`, `usleep` and logging after an empty `get`: they do not change
  the queue. The emptied-queue time is recorded in seconds, not milliseconds.
- `beginTransaction`, `commit` and `rollBack` failures: only statement executions
  can fail. A failed pass keeps the rows, as a rollback would.
- The schema methods `configureSchema`, `getExtraSetupSqlForTable` and
  `addTableToSchema`: their bodies are commented out or empty, and `setup` does not
  create the table.
- JSON encoding of the headers column, and the serializer: headers are stored as a
  map, and `encode`/`decode` are parameters.
- The clock: `get` uses one `now` for its filter and its `delivered_at` stamp.
  The source reads the clock separately for each.
- Connection.Send: on the update path the returned id is the driver's
  `lastInsertId`, which belongs to an earlier insert. The model returns its current
  value and states nothing about it.
- Connection.Select: `LIMIT 1` among rows with the same `available_at`,
  `createQueryBuilderCheckRow` among several rows, and `findAll`'s unordered result
  are resolved by the smallest id.
  The database may choose another row.
- Connection.Ack: reports whether a row has the id, which is PostgreSQL's "matched
  rows". Drivers that count only changed rows report false for an already-handled
  row.
- Config.BuildConfiguration: `parse_url` and `parse_str` are not modelled. The DSN
  arrives already parsed, or as unparsable.
- Config.BuildConfiguration: `filter_var` trimming of surrounding whitespace is not
  modelled.
- Config.ReplaceRecursive: a list merged with a dictionary is treated as different
  kinds. PHP arrays do not separate the two.
- Config.AsName: a non-string provider or template name is treated as SQL NULL.
  For `send` a non-string template name therefore becomes the `NullTemplate` type
  error, whereas PHP would coerce an integer name to a string and send.
- Connection.Send: a negative delay is modelled with truncation, but the row
  timestamps are not required to be ordered then.
- Connection.SentRow: the INSERT does not write `delivered_at`, `push_sent` or
  `email_sent`, and the schema methods are empty. The model assumes the column
  defaults null, false and false. With a null default for the two flags, `get`'s
  `push_sent = 0` and `email_sent = 0` filter would never match a new row.
- Config.Value: there is no float. A float `redeliver_timeout`, which `%d`
  truncates, cannot be represented.
- Config.LeadingInt: leading whitespace, a decimal point and exponent notation are
  not read. PHP reads `" 12"` as 12 and `"1e3"` as 1000; the model reads 0 and 1.
- Config.ModelsOf: a `payload.models` given as a string-keyed array is read as
  empty. PHP's `foreach` iterates its values in insertion order, which a Dafny map
  does not keep.
- DoctrineReceiver.All: `all()` is a generator, so `findAll` and its retry run
  only when the result is iterated. The model runs it at the call.
- Integers are unbounded. PHP integers are 64-bit, and ids, timestamps and delays
  are not checked for overflow.
- Connection.FindAll: a negative limit is not representable; the limit is a
  natural number.
- The transport facades and factories (`DoctrineTransport`,
  `DoctrineTransportFactory`, `CustomDoctrineTransport` and
  `CustomDoctrineTransportFactory`) only wire these classes together.
- `CustomConnection`, which `CustomDoctrineSender` calls, is not part of this
  model: the sender is modelled against `Connection`.
- `CustomDoctrineReceivedStamp` and `DoctrineReceivedStamp` are reduced to the id
  they carry.
- `getConfiguration` and `decodeEnvelopeHeaders` are not modelled separately.
  Configuration is a field of the state, and headers are already decoded.

## Findings

| source | as written | input that shows it | evidently intended | confidence | as-written member | corrected member |
|---|---|---|---|---|---|---|
| src/NotificationTransport/DoctrineReceiver.php:115-128 | `find` returns the array `Connection::find` produced from a function declared to return `?Envelope` | any id that has a row in the table, with a healthy driver | decode the row and return it as an envelope stamped with its id, as `get` does | not executed | DoctrineReceiver.FindAsWritten | DoctrineReceiver.Find |
