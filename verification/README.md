# MongoDB replication lag check — Dafny model

This project models the decision logic of `check_mongodb_replication`, a Nagios
plugin that checks how far one MongoDB replica-set member is behind the primary.
`CheckMongoDBReplication.check` works in four steps:

1. It asks the node `ismaster`. A master answers OK with "Master. Of course we're up to date." at once.
2. Otherwise it fetches `replGetStatus` and walks the `members` list once.
   Each record whose `stateStr` is `"PRIMARY"` is remembered as the primary.
   Each other record whose `self` flag is set is remembered as "this server".
   A later match overwrites an earlier one.
3. It reports CRITICAL when no primary was found. Otherwise it reports CRITICAL when this server was not found.
4. Otherwise it computes the lag as `(primary.optime.t - this_server.optime.t) / 1000`.
   This is Python 2 integer division, which floors.
   It hands the lag and the message "Replication lag: %d seconds" to the threshold classifier.

Files:

- `replication.dfy` (module `Replication`): records, verdicts, and the method `Check`.
  `Check` runs the scan loop and is proved equal to the specification function `Evaluate`.
  The file also holds the lemmas that state what `Evaluate` decides.
- `decimal.dfy` (module `Decimal`): Python's `%d` conversion of an integer.
  It comes with a parser and a round-trip lemma.

Three points of the code that the model keeps as written:

- The scan keeps the last matching record, because every match overwrites the variable (lines 35 and 37).
- A negative lag is reported as it is, with no clamping to 0 (lines 44-46).
- Nothing compares the primary's name with this server's name.

## Model

| member | source | states |
|---|---|---|
| `Replication.Check` | check_mongodb_replication.py:25-46 | The master short-circuit, the member scan loop, the two resolution errors and the lag arithmetic compute exactly the verdict `Evaluate` gives; the loop invariants say the remembered records are the last PRIMARY record and the last non-PRIMARY self record among those scanned so far |
| `Replication.LastIndex` | check_mongodb_replication.py:33-37 | The scan's choice is the position of the last record matching the test, with no later match; it is absent exactly when no record matches |
| `Replication.LastIndexUnique` | check_mongodb_replication.py:33-37 | Any position that is a match with no later match is the one the scan keeps |
| `Replication.LastIndexPrefix` | check_mongodb_replication.py:33-37 | After the first `n` records the scan's choice depends on those records only, as in a single forward pass |
| `Replication.PickedSnoc` | check_mongodb_replication.py:33-37 | Last match wins: a matching record replaces the remembered one, and a non-matching record leaves it unchanged |
| `Replication.Evaluate` | check_mongodb_replication.py:25-45 | The verdict of one check over the whole member list: OK for the master exactly when `ismaster` is set; "no primary" only when no record is PRIMARY; "this server not found" only when no non-PRIMARY record has `self` set; otherwise the lag between the last PRIMARY and the last non-PRIMARY self record |
| `Replication.LagSeconds` | check_mongodb_replication.py:44-45 | The lag in seconds is the floor of the optime difference in milliseconds divided by 1000 |
| `Replication.LagMessage` | check_mongodb_replication.py:46 | `"Replication lag: %d seconds" % seconds`: the fixed prefix, then `Format(seconds)`, then the fixed suffix |
| `Replication.Respond` | check_mongodb_replication.py:27-46 | The master verdict gives OK with the master message, and each resolution error gives CRITICAL with its own message. A lag gives `classify(seconds)` with `LagMessage(seconds)`. Each fixed message belongs to exactly one verdict |
| `Replication.MasterShortCircuit` | check_mongodb_replication.py:25-27 | A master gets OK with the master message whatever the member list contains |
| `Replication.NoPrimaryIff` | check_mongodb_replication.py:39-40 | A non-master gets "Primary could not be found" exactly when no record has `stateStr` PRIMARY, whether or not a self record exists |
| `Replication.NoSelfIff` | check_mongodb_replication.py:34-42 | "This server could not be found" is reported exactly when a PRIMARY record exists and no non-PRIMARY record has `self` set |
| `Replication.PrimarySelfIsNotThisServer` | check_mongodb_replication.py:34-37 | A record that is both PRIMARY and self is taken as the primary only, so when it is the only self record the check reports that this server could not be found |
| `Replication.LagFromLastMatches` | check_mongodb_replication.py:33-45 | When both records resolve, the lag is computed from the last PRIMARY record and the last non-PRIMARY self record |
| `Replication.LagIff` | check_mongodb_replication.py:33-46 | A non-master gets a lag verdict exactly when some record is PRIMARY and some non-PRIMARY record has `self` set |
| `Replication.NegativeLagNotClamped` | check_mongodb_replication.py:44-46 | The reported lag is negative exactly when this server's optime is ahead of the primary's; it is not clamped |
| `Replication.LagMessageCarriesSeconds` | check_mongodb_replication.py:46 | For a lag verdict the classifier receives the lag, and the message is "Replication lag: N seconds" where N reads back as that same lag |
| `Replication.TwoPrimariesLastWins` | check_mongodb_replication.py:33-45 | With two PRIMARY records, the later one's optime sets the lag |
| `Replication.AheadOfPrimaryExample` | check_mongodb_replication.py:44-45 | A local optime 1.5 s ahead of the primary's gives a lag of -2 seconds |
| `Decimal.Format` | check_mongodb_replication.py:46 | `%d` writes a '-' exactly for negative numbers, followed by decimal digits only |
| `Decimal.ParseFormat` | check_mongodb_replication.py:46 | Reading back what `%d` wrote gives the original integer |
| `Decimal.FormatInjective` | check_mongodb_replication.py:46 | Two different lags never print the same number |

## Left out

- The connection to MongoDB (lines 18-22) is not modelled. Neither are the `ismaster` and `replGetStatus` commands (lines 26 and 29). Their answers are the inputs `isMaster` and `members`.
- The host default of 127.0.0.1 and the mapping of timeout 0 to "no timeout" (lines 18-19) only feed the connection, so they are not modelled.
- `response_for_value` belongs to the pynagios library, which is not part of this model. It is the parameter `classify: int -> Status`, so its threshold comparisons and performance data are not modelled.
- The option declaration, the `Response` object's exit codes and `.exit()` (lines 11-15, 48-49) are not modelled.
- `KeyError` for a missing field is not modelled. The source reads `stateStr` on every record (line 34). It reads `self` only on non-PRIMARY records (line 36), so every non-PRIMARY record without `self` raises; this includes ordinary secondaries and arbiters when the status answer puts `self` only on the local member. It reads `optime.t` only on the two selected records (line 44). The model's `Member` always has all three fields: it assumes every non-PRIMARY record carries a boolean `self`.
- `optime.t` is an unbounded integer of milliseconds. Python 2 integers do not overflow, so nothing is lost.
